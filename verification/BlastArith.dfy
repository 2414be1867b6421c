/** Bit-blasting rules: bitwise operations, addition, subtraction and the
    comparisons.  Each rule appends gates to the arena; its contract gives the
    value of the word it returns under every input assignment, at every
    width, and how many nodes it appended. */
module BlastArith {
  import opened Bits
  import opened BvOps
  import opened AigGraph
  import G = GateList

  // ---------- bitwise ----------

  method BlastAnd(aig: Aig, a: Word, b: Word) returns (out: Word)
    requires Wf(aig.nodes) && AllIn(aig.nodes, a) && AllIn(aig.nodes, b) && |a| == |b|
    modifies aig
    ensures Gates(old(aig.nodes), aig.nodes) && |aig.nodes| == |old(aig.nodes)| + |a|
    ensures |out| == |a| && AllIn(aig.nodes, out)
    ensures (aig.nodes, out) == G.Bitwise(old(aig.nodes), BinOp.And, a, b, |a|)
    ensures forall inp :: WV(aig.nodes, inp, out) == BvAnd(WV(old(aig.nodes), inp, a), WV(old(aig.nodes), inp, b))
  {
    hide G.Bitwise;
    ghost var n0 := aig.nodes;
    out := [];
    G.BitwiseNone(n0, BinOp.And, a, b);
    for i := 0 to |a|
      invariant Gates(n0, aig.nodes) && |aig.nodes| == |n0| + i
      invariant |out| == i && AllIn(aig.nodes, out)
      invariant forall inp, k {:trigger LV(aig.nodes, inp, out[k])} :: 0 <= k < i ==>
                  LV(aig.nodes, inp, out[k]) == (LV(n0, inp, a[k]) && LV(n0, inp, b[k]))
      invariant (aig.nodes, out) == G.Bitwise(n0, BinOp.And, a, b, i)
    {
      G.BitwiseNext(n0, BinOp.And, a, b, i);
      var g := aig.PushAnd(a[i], b[i]);
      out := out + [g];
    }
  }

  method BlastOr(aig: Aig, a: Word, b: Word) returns (out: Word)
    requires Wf(aig.nodes) && AllIn(aig.nodes, a) && AllIn(aig.nodes, b) && |a| == |b|
    modifies aig
    ensures Gates(old(aig.nodes), aig.nodes) && |aig.nodes| == |old(aig.nodes)| + |a|
    ensures |out| == |a| && AllIn(aig.nodes, out)
    ensures (aig.nodes, out) == G.Bitwise(old(aig.nodes), BinOp.Or, a, b, |a|)
    ensures forall inp :: WV(aig.nodes, inp, out) == BvOr(WV(old(aig.nodes), inp, a), WV(old(aig.nodes), inp, b))
  {
    hide G.Bitwise;
    ghost var n0 := aig.nodes;
    out := [];
    G.BitwiseNone(n0, BinOp.Or, a, b);
    for i := 0 to |a|
      invariant Gates(n0, aig.nodes) && |aig.nodes| == |n0| + i
      invariant |out| == i && AllIn(aig.nodes, out)
      invariant forall inp, k {:trigger LV(aig.nodes, inp, out[k])} :: 0 <= k < i ==>
                  LV(aig.nodes, inp, out[k]) == (LV(n0, inp, a[k]) || LV(n0, inp, b[k]))
      invariant (aig.nodes, out) == G.Bitwise(n0, BinOp.Or, a, b, i)
    {
      G.BitwiseNext(n0, BinOp.Or, a, b, i);
      var g := aig.PushOr(a[i], b[i]);
      out := out + [g];
    }
  }

  method BlastXor(aig: Aig, a: Word, b: Word) returns (out: Word)
    requires Wf(aig.nodes) && AllIn(aig.nodes, a) && AllIn(aig.nodes, b) && |a| == |b|
    modifies aig
    ensures Gates(old(aig.nodes), aig.nodes) && |aig.nodes| == |old(aig.nodes)| + 3 * |a|
    ensures |out| == |a| && AllIn(aig.nodes, out)
    ensures (aig.nodes, out) == G.Bitwise(old(aig.nodes), BinOp.Xor, a, b, |a|)
    ensures forall inp :: WV(aig.nodes, inp, out) == BvXor(WV(old(aig.nodes), inp, a), WV(old(aig.nodes), inp, b))
  {
    hide G.Bitwise;
    ghost var n0 := aig.nodes;
    out := [];
    G.BitwiseNone(n0, BinOp.Xor, a, b);
    for i := 0 to |a|
      invariant Gates(n0, aig.nodes) && |aig.nodes| == |n0| + 3 * i
      invariant |out| == i && AllIn(aig.nodes, out)
      invariant forall inp, k {:trigger LV(aig.nodes, inp, out[k])} :: 0 <= k < i ==>
                  LV(aig.nodes, inp, out[k]) == (LV(n0, inp, a[k]) != LV(n0, inp, b[k]))
      invariant (aig.nodes, out) == G.Bitwise(n0, BinOp.Xor, a, b, i)
    {
      G.BitwiseNext(n0, BinOp.Xor, a, b, i);
      var g := aig.PushXor(a[i], b[i]);
      out := out + [g];
    }
  }

  /** Every literal complemented; no gates. */
  method WordNot(a: Word) returns (out: Word)
    ensures |out| == |a| && forall i :: 0 <= i < |a| ==> out[i] == Not(a[i])
    ensures out == G.NotWord(a)
    ensures forall ns {:trigger AllIn(ns, out)} :: AllIn(ns, a) ==> AllIn(ns, out)
    ensures forall ns, inp {:trigger WV(ns, inp, out)} :: WV(ns, inp, out) == Complement(WV(ns, inp, a))
  {
    out := [];
    for i := 0 to |a|
      invariant |out| == i && forall k :: 0 <= k < i ==> out[k] == Not(a[k])
    {
      out := out + [Not(a[i])];
    }
    assert forall ns, inp :: WV(ns, inp, out) == Complement(WV(ns, inp, a));
  }

  // ---------- ripple-carry addition ----------

  /** The sum S and carry c of adding A, B and a carry-in, w bits at a time. */
  predicate SumsTo(S: Bv, c: bool, A: Bv, B: Bv, cin: bool)
  {
    |S| == |A| == |B| && ToNat(S) + Pow2(|S|) * B2N(c) == ToNat(A) + ToNat(B) + B2N(cin)
  }

  lemma EmptySum(S: Bv, A: Bv, B: Bv, c: bool)
    requires |S| == |A| == |B| == 0
    ensures SumsTo(S, c, A, B, c)
  {
  }

  predicate Majority(x: bool, y: bool, c: bool) { (x && y) || ((x != y) && c) }

  lemma AdderStep(S: Bv, c: bool, A: Bv, B: Bv, cin: bool, x: bool, y: bool)
    requires SumsTo(S, c, A, B, cin)
    ensures SumsTo(S + [(x != y) != c], Majority(x, y, c), A + [x], B + [y], cin)
  {
    var s, c', p := (x != y) != c, Majority(x, y, c), Pow2(|S|);
    ToNatSnoc(S, s);
    ToNatSnoc(A, x);
    ToNatSnoc(B, y);
    assert Pow2(|S| + 1) == 2 * p;
    hide *;
    Times(p, s);
    Times(p, c);
    Times(p, x);
    Times(p, y);
    Times(2 * p, c');
    ColumnSum(x, y, c);
  }

  lemma Times(p: nat, b: bool)
    ensures p * B2N(b) == if b then p else 0
  {
  }

  lemma ColumnSum(x: bool, y: bool, c: bool)
    ensures Majority(x, y, c) == ((x && y) || ((x != y) && c))
  {
  }

  /** One bit column. */
  method FullAdder(aig: Aig, x: Lit, y: Lit, cin: Lit) returns (sum: Lit, cout: Lit)
    requires Wf(aig.nodes) && In(aig.nodes, x) && In(aig.nodes, y) && In(aig.nodes, cin)
    modifies aig
    ensures Gates(old(aig.nodes), aig.nodes) && |aig.nodes| == |old(aig.nodes)| + 9
    ensures (aig.nodes, sum, cout) == G.AdderOf(old(aig.nodes), x, y, cin)
    ensures In(aig.nodes, sum) && In(aig.nodes, cout)
    ensures forall inp :: LV(aig.nodes, inp, sum) ==
                          ((LV(old(aig.nodes), inp, x) != LV(old(aig.nodes), inp, y)) != LV(old(aig.nodes), inp, cin))
    ensures forall inp :: LV(aig.nodes, inp, cout) ==
                          Majority(LV(old(aig.nodes), inp, x), LV(old(aig.nodes), inp, y), LV(old(aig.nodes), inp, cin))
  {
    G.XorIs(aig.nodes, x, y);
    var p := aig.PushXor(x, y);
    G.XorIs(aig.nodes, p, cin);
    sum := aig.PushXor(p, cin);
    var g := aig.PushAnd(x, y);
    var t := aig.PushAnd(p, cin);
    cout := aig.PushOr(g, t);
  }

  method RippleCarry(aig: Aig, a: Word, b: Word, cin: Lit) returns (sum: Word, carry: Lit)
    requires Wf(aig.nodes) && AllIn(aig.nodes, a) && AllIn(aig.nodes, b) && |a| == |b| && In(aig.nodes, cin)
    modifies aig
    ensures Gates(old(aig.nodes), aig.nodes) && |aig.nodes| == |old(aig.nodes)| + 9 * |a|
    ensures |sum| == |a| && AllIn(aig.nodes, sum) && In(aig.nodes, carry)
    ensures (aig.nodes, sum, carry) == G.RippleOf(old(aig.nodes), a, b, cin, |a|)
    ensures forall inp {:trigger WV(aig.nodes, inp, sum)} {:trigger LV(aig.nodes, inp, carry)} ::
              SumsTo(WV(aig.nodes, inp, sum), LV(aig.nodes, inp, carry),
                     WV(old(aig.nodes), inp, a), WV(old(aig.nodes), inp, b), LV(old(aig.nodes), inp, cin))
  {
    hide Majority, NodeValue, SumsTo, G.AdderOf;
    ghost var n0 := aig.nodes;
    carry := cin;
    sum := [];
    forall inp ensures SumsTo(WV(n0, inp, sum), LV(n0, inp, cin), WV(n0, inp, a[..0]), WV(n0, inp, b[..0]), LV(n0, inp, cin)) {
      EmptySum(WV(n0, inp, sum), WV(n0, inp, a[..0]), WV(n0, inp, b[..0]), LV(n0, inp, cin));
    }
    for i := 0 to |a|
      invariant Gates(n0, aig.nodes) && |aig.nodes| == |n0| + 9 * i
      invariant |sum| == i && AllIn(aig.nodes, sum) && In(aig.nodes, carry)
      invariant (aig.nodes, sum, carry) == G.RippleOf(n0, a, b, cin, i)
      invariant forall inp {:trigger WV(aig.nodes, inp, sum)} ::
                  SumsTo(WV(aig.nodes, inp, sum), LV(aig.nodes, inp, carry),
                         WV(n0, inp, a[..i]), WV(n0, inp, b[..i]), LV(n0, inp, cin))
    {
      ghost var n1, sum1, carry1 := aig.nodes, sum, carry;
      var s, c := FullAdder(aig, a[i], b[i], carry);
      sum := sum + [s];
      carry := c;
      assert a[..i + 1] == a[..i] + [a[i]] && b[..i + 1] == b[..i] + [b[i]];
      forall inp
        ensures SumsTo(WV(aig.nodes, inp, sum), LV(aig.nodes, inp, carry),
                       WV(n0, inp, a[..i + 1]), WV(n0, inp, b[..i + 1]), LV(n0, inp, cin))
      {
        WVSnoc(aig.nodes, inp, sum1, s);
        WVSnoc(n0, inp, a[..i], a[i]);
        WVSnoc(n0, inp, b[..i], b[i]);
        AdderStep(WV(n1, inp, sum1), LV(n1, inp, carry1), WV(n0, inp, a[..i]), WV(n0, inp, b[..i]),
                  LV(n0, inp, cin), LV(n0, inp, a[i]), LV(n0, inp, b[i]));
        assert WV(aig.nodes, inp, sum1) == WV(n1, inp, sum1);
        assert LV(n1, inp, a[i]) == LV(n0, inp, a[i]) && LV(n1, inp, b[i]) == LV(n0, inp, b[i]);
      }
    }
    assert a[..|a|] == a && b[..|b|] == b;
  }

  lemma AddValue(S: Bv, c: bool, A: Bv, B: Bv)
    requires SumsTo(S, c, A, B, false)
    ensures S == BvAdd(A, B)
  {
    FromIntUnique(S, ToNat(A) + ToNat(B), 0 - B2N(c));
  }

  /** a + !b + 1 is a - b; its carry is the absence of a borrow. */
  lemma SubValue(S: Bv, c: bool, A: Bv, B: Bv)
    requires SumsTo(S, c, A, Complement(B), true)
    ensures S == BvSub(A, B)
    ensures c <==> ToNat(A) >= ToNat(B)
    ensures ToNat(S) == ToNat(A) - ToNat(B) + if c then 0 else Pow2(|A|)
  {
    hide ToNat, FromInt, Pow2, Complement;
    ToNatComplement(B);
    ToNatBound(S);
    ToNatBound(A);
    if c {
      assert ToNat(S) == ToNat(A) - ToNat(B);
      FromIntUnique(S, ToNat(A) - ToNat(B), 0);
    } else {
      assert ToNat(S) == ToNat(A) - ToNat(B) + Pow2(|A|);
      FromIntUnique(S, ToNat(A) - ToNat(B), 1);
    }
  }

  /** Modular subtraction: exact, or off by 2^w when it borrows. */
  lemma BvSubValue(x: Bv, y: Bv)
    requires |x| == |y|
    ensures ToNat(BvSub(x, y)) == ToNat(x) - ToNat(y) + if ToNat(x) >= ToNat(y) then 0 else Pow2(|x|)
  {
    hide ToNat, FromInt, Pow2;
    var d, P := ToNat(x) - ToNat(y), Pow2(|x|);
    ToNatFromInt(d, |x|);
    ToNatBound(x);
    ToNatBound(y);
    if d >= 0 { DivModUnique(d, P, 0, d); } else { DivModUnique(d, P, -1, d + P); }
  }

  method BlastAdd(aig: Aig, a: Word, b: Word) returns (out: Word)
    requires Wf(aig.nodes) && AllIn(aig.nodes, a) && AllIn(aig.nodes, b) && |a| == |b|
    modifies aig
    ensures Gates(old(aig.nodes), aig.nodes) && |aig.nodes| == |old(aig.nodes)| + 9 * |a|
    ensures |out| == |a| && AllIn(aig.nodes, out)
    ensures (aig.nodes, out) == G.FirstTwo(G.RippleOf(old(aig.nodes), a, b, LIT_FALSE, |a|))
    ensures forall inp :: WV(aig.nodes, inp, out) == BvAdd(WV(old(aig.nodes), inp, a), WV(old(aig.nodes), inp, b))
  {
    ghost var n0 := aig.nodes;
    var carry;
    out, carry := RippleCarry(aig, a, b, LIT_FALSE);
    forall inp ensures WV(aig.nodes, inp, out) == BvAdd(WV(n0, inp, a), WV(n0, inp, b)) {
      AddValue(WV(aig.nodes, inp, out), LV(aig.nodes, inp, carry), WV(n0, inp, a), WV(n0, inp, b));
    }
  }

  /** Difference and "no borrow", by a + !b + 1. */
  method SubWithUge(aig: Aig, a: Word, b: Word) returns (out: Word, uge: Lit)
    requires Wf(aig.nodes) && AllIn(aig.nodes, a) && AllIn(aig.nodes, b) && |a| == |b|
    modifies aig
    ensures Gates(old(aig.nodes), aig.nodes) && |aig.nodes| == |old(aig.nodes)| + 9 * |a|
    ensures |out| == |a| && AllIn(aig.nodes, out) && In(aig.nodes, uge)
    ensures (aig.nodes, out, uge) == G.SubOf(old(aig.nodes), a, b)
    ensures forall inp :: WV(aig.nodes, inp, out) == BvSub(WV(old(aig.nodes), inp, a), WV(old(aig.nodes), inp, b))
    ensures forall inp :: LV(aig.nodes, inp, uge) <==>
                          ToNat(WV(old(aig.nodes), inp, a)) >= ToNat(WV(old(aig.nodes), inp, b))
  {
    ghost var n0 := aig.nodes;
    var notB := WordNot(b);
    out, uge := RippleCarry(aig, a, notB, LIT_TRUE);
    forall inp
      ensures WV(aig.nodes, inp, out) == BvSub(WV(n0, inp, a), WV(n0, inp, b))
      ensures LV(aig.nodes, inp, uge) <==> ToNat(WV(n0, inp, a)) >= ToNat(WV(n0, inp, b))
    {
      SubValue(WV(aig.nodes, inp, out), LV(aig.nodes, inp, uge), WV(n0, inp, a), WV(n0, inp, b));
    }
  }

  method BlastSub(aig: Aig, a: Word, b: Word) returns (out: Word)
    requires Wf(aig.nodes) && AllIn(aig.nodes, a) && AllIn(aig.nodes, b) && |a| == |b|
    modifies aig
    ensures Gates(old(aig.nodes), aig.nodes) && |aig.nodes| == |old(aig.nodes)| + 9 * |a|
    ensures |out| == |a| && AllIn(aig.nodes, out)
    ensures (aig.nodes, out) == G.FirstTwo(G.SubOf(old(aig.nodes), a, b))
    ensures forall inp :: WV(aig.nodes, inp, out) == BvSub(WV(old(aig.nodes), inp, a), WV(old(aig.nodes), inp, b))
  {
    var uge;
    out, uge := SubWithUge(aig, a, b);
  }

  // ---------- comparisons ----------

  method BlastUlt(aig: Aig, a: Word, b: Word) returns (l: Lit)
    requires Wf(aig.nodes) && AllIn(aig.nodes, a) && AllIn(aig.nodes, b) && |a| == |b|
    modifies aig
    ensures Gates(old(aig.nodes), aig.nodes) && |aig.nodes| == |old(aig.nodes)| + 9 * |a|
    ensures In(aig.nodes, l) && (aig.nodes, l) == G.UltOf(old(aig.nodes), a, b)
    ensures forall inp :: LV(aig.nodes, inp, l) ==
                          (ToNat(WV(old(aig.nodes), inp, a)) < ToNat(WV(old(aig.nodes), inp, b)))
  {
    var diff, uge := SubWithUge(aig, a, b);
    l := Not(uge);
    assert forall inp :: LV(aig.nodes, inp, l) == !LV(aig.nodes, inp, uge);
  }

  function FlippedSign(x: Bv): (y: Bv)
    requires |x| > 0
    ensures |y| == |x|
  {
    x[..|x| - 1] + [!x[|x| - 1]]
  }

  /** Flipping the sign bit embeds the signed order in the unsigned one. */
  lemma FlippedSignValue(x: Bv)
    requires |x| > 0
    ensures ToNat(FlippedSign(x)) == ToInt(x) + Pow2(|x| - 1)
  {
    var low, sign := x[..|x| - 1], x[|x| - 1];
    assert x == low + [sign];
    ToNatSnoc(low, sign);
    ToNatSnoc(low, !sign);
  }

  method FlipSign(a: Word) returns (out: Word)
    requires |a| > 0
    ensures |out| == |a| && out == G.SignFlipped(a)
    ensures forall ns {:trigger AllIn(ns, out)} :: AllIn(ns, a) ==> AllIn(ns, out)
    ensures forall ns, inp {:trigger WV(ns, inp, out)} :: WV(ns, inp, out) == FlippedSign(WV(ns, inp, a))
  {
    out := [];
    for i := 0 to |a|
      invariant |out| == i && forall k :: 0 <= k < i ==> out[k] == if k + 1 == |a| then Not(a[k]) else a[k]
    {
      out := out + [if i + 1 == |a| then Not(a[i]) else a[i]];
    }
    assert forall ns, inp :: WV(ns, inp, out) == FlippedSign(WV(ns, inp, a));
  }

  method BlastSlt(aig: Aig, a: Word, b: Word) returns (l: Lit)
    requires Wf(aig.nodes) && AllIn(aig.nodes, a) && AllIn(aig.nodes, b) && |a| == |b| > 0
    modifies aig
    ensures Gates(old(aig.nodes), aig.nodes) && |aig.nodes| == |old(aig.nodes)| + 9 * |a|
    ensures In(aig.nodes, l) && (aig.nodes, l) == G.SltOf(old(aig.nodes), a, b)
    ensures forall inp :: LV(aig.nodes, inp, l) ==
                          (ToInt(WV(old(aig.nodes), inp, a)) < ToInt(WV(old(aig.nodes), inp, b)))
  {
    ghost var n0 := aig.nodes;
    var fa := FlipSign(a);
    var fb := FlipSign(b);
    l := BlastUlt(aig, fa, fb);
    forall inp ensures LV(aig.nodes, inp, l) == (ToInt(WV(n0, inp, a)) < ToInt(WV(n0, inp, b))) {
      FlippedSignValue(WV(n0, inp, a));
      FlippedSignValue(WV(n0, inp, b));
    }
  }

  /** Conjunction of the per-bit exclusive nors. */
  method BlastEq(aig: Aig, a: Word, b: Word) returns (acc: Lit)
    requires Wf(aig.nodes) && AllIn(aig.nodes, a) && AllIn(aig.nodes, b) && |a| == |b|
    modifies aig
    ensures Gates(old(aig.nodes), aig.nodes) && |aig.nodes| == |old(aig.nodes)| + 4 * |a|
    ensures In(aig.nodes, acc) && (aig.nodes, acc) == G.EqOf(old(aig.nodes), a, b, |a|)
    ensures forall inp :: LV(aig.nodes, inp, acc) == (WV(old(aig.nodes), inp, a) == WV(old(aig.nodes), inp, b))
  {
    hide G.EqOf;
    ghost var n0 := aig.nodes;
    G.EqNone(n0, a, b);
    acc := LIT_TRUE;
    for i := 0 to |a|
      invariant Gates(n0, aig.nodes) && |aig.nodes| == |n0| + 4 * i && In(aig.nodes, acc)
      invariant (aig.nodes, acc) == G.EqOf(n0, a, b, i)
      invariant forall inp :: LV(aig.nodes, inp, acc) == (WV(n0, inp, a[..i]) == WV(n0, inp, b[..i]))
    {
      ghost var n1, acc1 := aig.nodes, acc;
      G.EqNext(n0, a, b, i);
      var x := aig.PushXor(a[i], b[i]);
      acc := aig.PushAnd(acc, Not(x));
      assert a[..i + 1] == a[..i] + [a[i]] && b[..i + 1] == b[..i] + [b[i]];
      forall inp ensures LV(aig.nodes, inp, acc) == (WV(n0, inp, a[..i + 1]) == WV(n0, inp, b[..i + 1])) {
        WVSnoc(n0, inp, a[..i], a[i]);
        WVSnoc(n0, inp, b[..i], b[i]);
        SnocEq(WV(n0, inp, a[..i]), LV(n0, inp, a[i]), WV(n0, inp, b[..i]), LV(n0, inp, b[i]));
        assert LV(n1, inp, a[i]) == LV(n0, inp, a[i]) && LV(n1, inp, b[i]) == LV(n0, inp, b[i]);
      }
    }
    assert a[..|a|] == a && b[..|b|] == b;
  }

  lemma SnocEq(x: Bv, p: bool, y: Bv, q: bool)
    requires |x| == |y|
    ensures x + [p] == y + [q] <==> x == y && p == q
  {
    if x + [p] == y + [q] {
      assert x == (x + [p])[..|x|] && y == (y + [q])[..|y|];
      assert p == (x + [p])[|x|] && q == (y + [q])[|y|];
    }
  }

  /** Every comparison: the equality chain, or a borrow, possibly with the
      operands exchanged or the answer complemented. */
  method BlastCmp(aig: Aig, op: CmpOp, a: Word, b: Word) returns (l: Lit)
    requires Wf(aig.nodes) && AllIn(aig.nodes, a) && AllIn(aig.nodes, b) && |a| == |b| > 0
    modifies aig
    ensures Gates(old(aig.nodes), aig.nodes) && |aig.nodes| <= |old(aig.nodes)| + 9 * |a|
    ensures In(aig.nodes, l) && (aig.nodes, l) == G.CmpOf(old(aig.nodes), op, a, b)
    ensures forall inp :: LV(aig.nodes, inp, l) == CmpValue(op, WV(old(aig.nodes), inp, a), WV(old(aig.nodes), inp, b))
  {
    var p;
    match op {
      case Eq => l := BlastEq(aig, a, b);
      case Ne => p := BlastEq(aig, a, b); l := Not(p);
      case Ult => l := BlastUlt(aig, a, b);
      case Ule => p := BlastUlt(aig, b, a); l := Not(p);
      case Ugt => l := BlastUlt(aig, b, a);
      case Uge => p := BlastUlt(aig, a, b); l := Not(p);
      case Slt => l := BlastSlt(aig, a, b);
      case Sle => p := BlastSlt(aig, b, a); l := Not(p);
      case Sgt => l := BlastSlt(aig, b, a);
      case Sge => p := BlastSlt(aig, a, b); l := Not(p);
    }
    if op.Ne? || op.Ule? || op.Uge? || op.Sle? || op.Sge? {
      assert forall inp :: LV(aig.nodes, inp, l) == !LV(aig.nodes, inp, p);
    }
  }

  // ---------- if-then-else and the gate-free rules ----------

  method BlastIte(aig: Aig, c: Lit, t: Word, e: Word) returns (out: Word)
    requires Wf(aig.nodes) && In(aig.nodes, c) && AllIn(aig.nodes, t) && AllIn(aig.nodes, e) && |t| == |e|
    modifies aig
    ensures Gates(old(aig.nodes), aig.nodes) && |aig.nodes| == |old(aig.nodes)| + 3 * |t|
    ensures |out| == |t| && AllIn(aig.nodes, out)
    ensures (aig.nodes, out) == G.IteOf(old(aig.nodes), c, t, e, |t|)
    ensures forall inp :: WV(aig.nodes, inp, out) ==
                          if LV(old(aig.nodes), inp, c) then WV(old(aig.nodes), inp, t) else WV(old(aig.nodes), inp, e)
  {
    hide G.IteOf;
    ghost var n0 := aig.nodes;
    out := [];
    G.IteNone(n0, c, t, e);
    for i := 0 to |t|
      invariant Gates(n0, aig.nodes) && |aig.nodes| == |n0| + 3 * i
      invariant |out| == i && AllIn(aig.nodes, out)
      invariant forall inp, k {:trigger LV(aig.nodes, inp, out[k])} :: 0 <= k < i ==>
                  LV(aig.nodes, inp, out[k]) == if LV(n0, inp, c) then LV(n0, inp, t[k]) else LV(n0, inp, e[k])
      invariant (aig.nodes, out) == G.IteOf(n0, c, t, e, i)
    {
      G.IteNext(n0, c, t, e, i);
      var m := aig.PushMux(c, t[i], e[i]);
      out := out + [m];
    }
  }

  method BlastExtract(a: Word, hi: nat, lo: nat) returns (out: Word)
    requires lo <= hi < |a|
    ensures |out| == hi - lo + 1 && out == a[lo..hi + 1]
    ensures forall ns {:trigger AllIn(ns, out)} :: AllIn(ns, a) ==> AllIn(ns, out)
    ensures forall ns, inp {:trigger WV(ns, inp, out)} :: WV(ns, inp, out) == BvExtract(WV(ns, inp, a), hi, lo)
  {
    out := [];
    var i := lo;
    while i <= hi
      invariant lo <= i <= hi + 1 && out == a[lo..i]
    {
      out := out + [a[i]];
      i := i + 1;
    }
    assert forall ns, inp :: WV(ns, inp, out) == BvExtract(WV(ns, inp, a), hi, lo);
  }

  method BlastConcat(hi: Word, lo: Word) returns (out: Word)
    ensures out == lo + hi
    ensures forall ns {:trigger AllIn(ns, out)} :: AllIn(ns, hi) && AllIn(ns, lo) ==> AllIn(ns, out)
    ensures forall ns, inp {:trigger WV(ns, inp, out)} ::
              WV(ns, inp, out) == BvConcat(WV(ns, inp, hi), WV(ns, inp, lo))
  {
    out := [];
    for i := 0 to |lo|
      invariant out == lo[..i]
    {
      out := out + [lo[i]];
    }
    for j := 0 to |hi|
      invariant out == lo + hi[..j]
    {
      out := out + [hi[j]];
    }
    assert forall ns, inp :: WV(ns, inp, out) == BvConcat(WV(ns, inp, hi), WV(ns, inp, lo));
  }

  /** The word a followed by copies of fill: zero and sign extension. */
  method Extend(a: Word, fill: Lit, extra: nat) returns (out: Word)
    ensures out == a + G.Same(fill, extra)
    ensures forall ns {:trigger AllIn(ns, out)} :: AllIn(ns, a) && In(ns, fill) ==> AllIn(ns, out)
    ensures forall ns, inp {:trigger WV(ns, inp, out)} ::
              WV(ns, inp, out) == WV(ns, inp, a) + Fill(LV(ns, inp, fill), extra)
  {
    out := [];
    for i := 0 to |a|
      invariant out == a[..i]
    {
      out := out + [a[i]];
    }
    for j := 0 to extra
      invariant |out| == |a| + j && out[..|a|] == a && forall k :: |a| <= k < |a| + j ==> out[k] == fill
    {
      out := out + [fill];
    }
    assert forall k :: 0 <= k < |a| ==> out[k] == out[..|a|][k];
    assert forall ns, inp :: WV(ns, inp, out) == WV(ns, inp, a) + Fill(LV(ns, inp, fill), extra);
  }

  lemma ConstLits(ns: Nodes, inp: seq<bool>)
    requires Wf(ns)
    ensures !LV(ns, inp, LIT_FALSE) && LV(ns, inp, LIT_TRUE) && |ns| > 0
  {
  }

  method BlastZeroExt(a: Word, extra: nat) returns (out: Word)
    ensures out == a + G.Same(LIT_FALSE, extra)
    ensures forall ns {:trigger AllIn(ns, out)} :: Wf(ns) && AllIn(ns, a) ==> AllIn(ns, out)
    ensures forall ns, inp {:trigger WV(ns, inp, out)} :: Wf(ns) ==>
              WV(ns, inp, out) == BvZeroExt(WV(ns, inp, a), extra)
  {
    out := Extend(a, LIT_FALSE, extra);
    forall ns: Nodes, inp | Wf(ns) ensures !LV(ns, inp, LIT_FALSE) { ConstLits(ns, inp); }
  }

  method BlastSignExt(a: Word, extra: nat) returns (out: Word)
    requires |a| > 0
    ensures out == a + G.Same(a[|a| - 1], extra)
    ensures forall ns {:trigger AllIn(ns, out)} :: AllIn(ns, a) ==> AllIn(ns, out)
    ensures forall ns, inp {:trigger WV(ns, inp, out)} ::
              WV(ns, inp, out) == BvSignExt(WV(ns, inp, a), extra)
  {
    out := Extend(a, a[|a| - 1], extra);
  }

  /** The w-bit constant word of value, its bits peeled off by halving. */
  method WordConst(value: nat, w: nat) returns (out: Word)
    ensures |out| == w && out == G.ConstOf(FromInt(value, w))
    ensures forall ns {:trigger AllIn(ns, out)} :: Wf(ns) ==> AllIn(ns, out)
    ensures forall ns, inp {:trigger WV(ns, inp, out)} :: Wf(ns) ==> WV(ns, inp, out) == FromInt(value, w)
  {
    hide Wf, AllIn;
    out := [];
    var v: nat := value;
    for k := 0 to w
      invariant |out| == k
      invariant forall j :: 0 <= j < k ==> out[j] == LIT_FALSE || out[j] == LIT_TRUE
      invariant Negs(out) + FromInt(v, w - k) == FromInt(value, w)
    {
      ghost var out0 := out;
      out := out + [if v % 2 == 1 then LIT_TRUE else LIT_FALSE];
      assert Negs(out) == Negs(out0) + [v % 2 == 1];
      v := v / 2;
    }
    assert FromInt(v, 0) == [];
    forall j | 0 <= j < w ensures out[j] == G.ConstOf(FromInt(value, w))[j] { assert Negs(out)[j] == FromInt(value, w)[j]; }
    assert out == G.ConstOf(FromInt(value, w));
    forall ns | Wf(ns) ensures AllIn(ns, out) { ConstWord(ns, [], out); }
    forall ns, inp | Wf(ns) ensures WV(ns, inp, out) == FromInt(value, w) { ConstWord(ns, inp, out); }
  }

  ghost function Negs(out: Word): (v: Bv)
    ensures |v| == |out| && forall j :: 0 <= j < |v| ==> v[j] == out[j].neg
  {
    seq(|out|, j requires 0 <= j < |out| => out[j].neg)
  }

  /** A word of constants denotes its signs. */
  lemma ConstWord(ns: Nodes, inp: seq<bool>, out: Word)
    requires Wf(ns) && forall j :: 0 <= j < |out| ==> out[j] == LIT_FALSE || out[j] == LIT_TRUE
    ensures AllIn(ns, out) && WV(ns, inp, out) == Negs(out)
  {
    hide Wf, NodeValue;
    ConstLits(ns, inp);
  }

  /** The constant word of the bits bits[s..s + w]. */
  method WordBits(bits: seq<bool>, s: nat, w: nat) returns (out: Word)
    requires s + w <= |bits|
    ensures |out| == w && out == G.ConstOf(bits[s..s + w])
    ensures forall ns {:trigger AllIn(ns, out)} :: Wf(ns) ==> AllIn(ns, out)
    ensures forall ns, inp {:trigger WV(ns, inp, out)} :: Wf(ns) ==> WV(ns, inp, out) == bits[s..s + w]
  {
    out := [];
    for j := 0 to w
      invariant |out| == j
      invariant forall k :: 0 <= k < j ==> out[k] == if bits[s + k] then LIT_TRUE else LIT_FALSE
    {
      out := out + [if bits[s + j] then LIT_TRUE else LIT_FALSE];
    }
    forall ns, inp | Wf(ns) ensures WV(ns, inp, out) == bits[s..s + w] {
      ConstLits(ns, inp);
    }
  }

  /** Two's complement negation as 0 - a. */
  method BlastNeg(aig: Aig, a: Word) returns (out: Word)
    requires Wf(aig.nodes) && AllIn(aig.nodes, a)
    modifies aig
    ensures Gates(old(aig.nodes), aig.nodes) && |aig.nodes| == |old(aig.nodes)| + 9 * |a|
    ensures |out| == |a| && AllIn(aig.nodes, out)
    ensures (aig.nodes, out) == G.FirstTwo(G.SubOf(old(aig.nodes), G.ConstOf(FromInt(0, |a|)), a))
    ensures forall inp :: WV(aig.nodes, inp, out) == BvNeg(WV(old(aig.nodes), inp, a))
  {
    hide G.SubOf, FromInt;
    ghost var n0 := aig.nodes;
    var zero := WordConst(0, |a|);
    out := BlastSub(aig, zero, a);
    forall inp ensures WV(aig.nodes, inp, out) == BvNeg(WV(n0, inp, a)) {
      ToNatFromInt(0, |a|);
      DivModUnique(0, Pow2(|a|), 0, 0);
    }
  }
}
