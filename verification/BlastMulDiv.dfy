/** Bit-blasting rules: the truncated shift-add multiplier, the restoring
    divider and the multiplicative remainder, at every width. */
module BlastMulDiv {
  import opened Bits
  import opened BvOps
  import opened AigGraph
  import G = GateList
  import opened BlastArith
  import opened BlastShift

  // ---------- multiplication ----------

  /** One partial product: x, or zero. */
  function Gated(x: Bv, b: bool): (y: Bv)
    ensures |y| == |x|
  {
    if b then x else Fill(false, |x|)
  }

  lemma GatedSnoc(x: Bv, p: bool, b: bool)
    ensures Gated(x + [p], b) == Gated(x, b) + [p && b]
  {
  }

  /** The part of a shifted partial product that fits in w bits, added at bit
      i, is the whole product modulo 2^w. */
  lemma RowProduct(prev: Bv, S: Bv, c: bool, A: Bv, b: bool, i: nat)
    requires i <= |A| == |prev|
    requires SumsTo(S, c, prev[i..], Gated(A[..|A| - i], b), false)
    ensures prev[..i] + S == FromInt(ToNat(prev) + B2N(b) * (Pow2(i) * ToNat(A)), |A|)
  {
    var w, k := |A|, |A| - i;
    var z := prev[..i] + S;
    GatedValue(A[..k], b);
    hide *;
    ToNatAppend(prev[..i], S);
    ToNatSplit(prev, i);
    Pow2Add(i, k);
    ToNatSplit(A, k);
    RowArith(ToNat(z), ToNat(prev), ToNat(prev[..i]), ToNat(S), ToNat(prev[i..]), B2N(c), B2N(b),
             ToNat(A), ToNat(A[..k]), ToNat(A[k..]), Pow2(i), Pow2(k), Pow2(w));
    FromIntUnique(z, ToNat(prev) + B2N(b) * (Pow2(i) * ToNat(A)), 0 - B2N(c) - B2N(b) * ToNat(A[k..]));
  }

  lemma RowValue(prev: Bv, S: Bv, c: bool, A: Bv, b: bool, i: nat)
    requires i <= |A| == |prev|
    requires SumsTo(S, c, prev[i..], Gated(A[..|A| - i], b), false)
    ensures prev[..i] + S == FromInt(ToNat(prev) + if b then Pow2(i) * ToNat(A) else 0, |A|)
  {
    hide *;
    RowProduct(prev, S, c, A, b, i);
    B2NTimes(b, Pow2(i) * ToNat(A));
  }

  lemma B2NCases(b: bool)
    ensures B2N(b) == if b then 1 else 0
  {
  }

  lemma B2NTimes(b: bool, n: int)
    ensures B2N(b) * n == if b then n else 0
  {
  }

  lemma GatedValue(x: Bv, b: bool)
    ensures ToNat(Gated(x, b)) == B2N(b) * ToNat(x)
    ensures B2N(false) == 0
  {
    ToNatFill(false, |x|);
  }

  lemma RowArith(z: int, o: int, lo: int, s: int, hi: int, c: int, b: int, a: int, al: int, ah: int, pi: int, pk: int,
                 pw: int)
    requires z == lo + pi * s && o == lo + pi * hi
    requires s + pk * c == hi + b * al
    requires a == al + pk * ah && pw == pi * pk
    ensures z == o + b * (pi * a) + (0 - c - b * ah) * pw
  {
    calc {
      o + b * (pi * a) + (0 - c - b * ah) * (pi * pk);
      lo + pi * hi + b * (pi * (al + pk * ah)) - c * (pi * pk) - b * ah * (pi * pk);
      { MulDist(pi, al, pk * ah); MulDist(b, pi * al, pi * (pk * ah)); }
      lo + pi * hi + b * (pi * al) + b * (pi * (pk * ah)) - c * (pi * pk) - b * ah * (pi * pk);
      { assert b * (pi * (pk * ah)) == b * ah * (pi * pk); }
      lo + pi * hi + b * (pi * al) - c * (pi * pk);
      { assert b * (pi * al) == pi * (b * al); assert c * (pi * pk) == pi * (pk * c); }
      lo + pi * hi + pi * (b * al) - pi * (pk * c);
      { MulDist(pi, hi, b * al); MulDist(pi, s, pk * c); }
      lo + pi * s;
    }
  }

  /** One cell of the multiplier: a partial-product bit added in. */
  method MulCell(aig: Aig, o: Lit, x: Lit, bi: Lit, c: Lit) returns (sum: Lit, cout: Lit)
    requires Wf(aig.nodes) && In(aig.nodes, o) && In(aig.nodes, x) && In(aig.nodes, bi) && In(aig.nodes, c)
    modifies aig
    ensures Gates(old(aig.nodes), aig.nodes) && |aig.nodes| == |old(aig.nodes)| + 10
    ensures In(aig.nodes, sum) && In(aig.nodes, cout)
    ensures (aig.nodes, sum, cout) ==
            G.AdderOf(old(aig.nodes) + [Node.And(x, bi)], o, Lit(|old(aig.nodes)|, false), c)
    ensures forall inp :: LV(aig.nodes, inp, sum) ==
              ((LV(old(aig.nodes), inp, o) != (LV(old(aig.nodes), inp, x) && LV(old(aig.nodes), inp, bi)))
               != LV(old(aig.nodes), inp, c))
    ensures forall inp :: LV(aig.nodes, inp, cout) ==
              Majority(LV(old(aig.nodes), inp, o), LV(old(aig.nodes), inp, x) && LV(old(aig.nodes), inp, bi),
                       LV(old(aig.nodes), inp, c))
  {
    var pp := aig.PushAnd(x, bi);
    sum, cout := FullAdder(aig, o, pp, c);
  }

  lemma CellSlices(acc: Word, acc0: Word, a: Word, i: nat, j: nat, sum: Lit)
    requires i <= j < |a| == |acc| == |acc0| && acc[j..] == acc0[j..] && acc[..i] == acc0[..i]
    ensures acc[j := sum][i..j + 1] == acc[i..j] + [sum] && acc0[i..j + 1] == acc0[i..j] + [acc0[j]]
    ensures a[..j + 1 - i] == a[..j - i] + [a[j - i]]
    ensures acc[j := sum][j + 1..] == acc0[j + 1..] && acc[j := sum][..i] == acc0[..i]
  {
    assert acc[j + 1..] == acc[j..][1..] && acc0[j + 1..] == acc0[j..][1..];
  }

  /** Row i after its cells up to bit j. */
  ghost predicate CellsTo(n0: Nodes, n: Nodes, acc0: Word, acc: Word, a: Word, bi: Lit, carry: Lit, i: nat, j: nat)
    requires i <= j <= |a| == |acc0| == |acc|
  {
    && AllIn(n, acc) && In(n, carry) && acc[..i] == acc0[..i] && acc[j..] == acc0[j..]
    && forall inp {:trigger WV(n, inp, acc[i..j])} ::
         SumsTo(WV(n, inp, acc[i..j]), LV(n, inp, carry), WV(n0, inp, acc0[i..j]),
                Gated(WV(n0, inp, a[..j - i]), LV(n0, inp, bi)), false)
  }

  lemma CellsNone(n0: Nodes, acc0: Word, a: Word, bi: Lit, i: nat)
    requires Wf(n0) && AllIn(n0, acc0) && i <= |a| == |acc0|
    ensures CellsTo(n0, n0, acc0, acc0, a, bi, LIT_FALSE, i, i)
  {
    hide SumsTo, Gated, Wf;
    ConstLits(n0, []);
    forall inp ensures SumsTo(WV(n0, inp, acc0[i..i]), LV(n0, inp, LIT_FALSE), WV(n0, inp, acc0[i..i]),
                              Gated(WV(n0, inp, a[..0]), LV(n0, inp, bi)), false)
    {
      ConstLits(n0, inp);
      EmptySum(WV(n0, inp, acc0[i..i]), WV(n0, inp, acc0[i..i]), Gated(WV(n0, inp, a[..0]), LV(n0, inp, bi)), false);
    }
  }

  lemma CellsAt(n0: Nodes, n: Nodes, acc0: Word, acc: Word, a: Word, bi: Lit, carry: Lit, i: nat, j: nat)
    requires i <= j < |a| == |acc0| == |acc| && CellsTo(n0, n, acc0, acc, a, bi, carry, i, j)
    ensures acc[j] == acc0[j] && In(n, acc[j]) && In(n, carry)
  {
    assert acc[j] == acc[j..][0] == acc0[j];
  }

  lemma CellsNext(n0: Nodes, n1: Nodes, n2: Nodes, acc0: Word, acc: Word, a: Word, bi: Lit, carry: Lit, i: nat, j: nat,
                  sum: Lit, cout: Lit)
    requires i <= j < |a| == |acc0| == |acc| && CellsTo(n0, n1, acc0, acc, a, bi, carry, i, j)
    requires Extends(n0, n1) && Extends(n1, n2) && AllIn(n0, acc0) && AllIn(n0, a) && In(n0, bi)
    requires In(n2, sum) && In(n2, cout)
    requires forall inp :: LV(n2, inp, sum) ==
               ((LV(n1, inp, acc0[j]) != (LV(n1, inp, a[j - i]) && LV(n1, inp, bi))) != LV(n1, inp, carry))
    requires forall inp :: LV(n2, inp, cout) ==
               Majority(LV(n1, inp, acc0[j]), LV(n1, inp, a[j - i]) && LV(n1, inp, bi), LV(n1, inp, carry))
    ensures CellsTo(n0, n2, acc0, acc[j := sum], a, bi, cout, i, j + 1)
  {
    hide SumsTo, Gated, Majority, NodeValue, AigGraph.LV;
    CellSlices(acc, acc0, a, i, j, sum);
    forall inp ensures SumsTo(WV(n2, inp, acc[j := sum][i..j + 1]), LV(n2, inp, cout),
                              WV(n0, inp, acc0[i..j + 1]), Gated(WV(n0, inp, a[..j + 1 - i]), LV(n0, inp, bi)), false)
    {
      ColumnStep(n0, n1, n2, inp, acc[i..j], acc0[i..j], a[..j - i], acc0[j], a[j - i], bi, carry, sum, cout);
    }
  }

  lemma CellsDone(n0: Nodes, n: Nodes, acc0: Word, acc: Word, a: Word, bi: Lit, carry: Lit, i: nat)
    requires i <= |a| == |acc0| == |acc| && CellsTo(n0, n, acc0, acc, a, bi, carry, i, |a|)
    ensures AllIn(n, acc) && In(n, carry) && acc[..i] == acc0[..i]
    ensures forall inp {:trigger WV(n, inp, acc[i..|a|])} ::
              SumsTo(WV(n, inp, acc[i..|a|]), LV(n, inp, carry), WV(n0, inp, acc0[i..|a|]),
                     Gated(WV(n0, inp, a[..|a| - i]), LV(n0, inp, bi)), false)
  {
  }

  /** The cells of row i, from bit i up. */
  method MulCells(aig: Aig, acc0: Word, a: Word, bi: Lit, i: nat) returns (acc: Word, carry: Lit)
    requires Wf(aig.nodes) && AllIn(aig.nodes, acc0) && AllIn(aig.nodes, a) && In(aig.nodes, bi)
    requires i < |a| == |acc0|
    modifies aig
    ensures Gates(old(aig.nodes), aig.nodes) && |aig.nodes| == |old(aig.nodes)| + 10 * (|a| - i)
    ensures |acc| == |a| && AllIn(aig.nodes, acc) && In(aig.nodes, carry) && acc[..i] == acc0[..i]
    ensures (aig.nodes, acc, carry) == G.CellsOf(old(aig.nodes), acc0, a, bi, i, |a|)
    ensures forall inp {:trigger WV(aig.nodes, inp, acc[i..|a|])} ::
              SumsTo(WV(aig.nodes, inp, acc[i..|a|]), LV(aig.nodes, inp, carry), WV(old(aig.nodes), inp, acc0[i..|a|]),
                     Gated(WV(old(aig.nodes), inp, a[..|a| - i]), LV(old(aig.nodes), inp, bi)), false)
  {
    hide Majority, Wf, CellsTo, AigGraph.LV, SumsTo, Gated, G.CellsOf, G.AdderOf;
    ghost var n0 := aig.nodes;
    acc := acc0;
    carry := LIT_FALSE;
    var j := i;
    G.CellsNone(n0, acc0, a, bi, i);
    CellsNone(n0, acc0, a, bi, i);
    while j < |a|
      invariant i <= j <= |a| == |acc|
      invariant Gates(n0, aig.nodes) && |aig.nodes| == |n0| + 10 * (j - i)
      invariant CellsTo(n0, aig.nodes, acc0, acc, a, bi, carry, i, j)
      invariant (aig.nodes, acc, carry) == G.CellsOf(n0, acc0, a, bi, i, j)
    {
      G.CellsNext(n0, acc0, a, bi, i, j);
      ghost var n1, acc1, carry1 := aig.nodes, acc, carry;
      CellsAt(n0, n1, acc0, acc, a, bi, carry, i, j);
      var sum, cout := MulCell(aig, acc[j], a[j - i], bi, carry);
      acc := acc[j := sum];
      carry := cout;
      CellsNext(n0, n1, aig.nodes, acc0, acc1, a, bi, carry1, i, j, sum, cout);
      j := j + 1;
    }
    CellsDone(n0, aig.nodes, acc0, acc, a, bi, carry, i);
  }

  /** Row i of the multiplier: add the partial product at bit i. */
  method MulRow(aig: Aig, acc0: Word, a: Word, bi: Lit, i: nat) returns (acc: Word)
    requires Wf(aig.nodes) && AllIn(aig.nodes, acc0) && AllIn(aig.nodes, a) && In(aig.nodes, bi)
    requires i < |a| == |acc0|
    modifies aig
    ensures Gates(old(aig.nodes), aig.nodes) && |aig.nodes| == |old(aig.nodes)| + 10 * (|a| - i)
    ensures |acc| == |a| && AllIn(aig.nodes, acc)
    ensures (aig.nodes, acc) == G.FirstTwo(G.CellsOf(old(aig.nodes), acc0, a, bi, i, |a|))
    ensures forall inp :: WV(aig.nodes, inp, acc) ==
              FromInt(ToNat(WV(old(aig.nodes), inp, acc0)) +
                      if LV(old(aig.nodes), inp, bi) then Pow2(i) * ToNat(WV(old(aig.nodes), inp, a)) else 0, |a|)
  {
    hide ToNat, Pow2, FromInt, SumsTo, Gated, Wf, G.CellsOf;
    ghost var n0 := aig.nodes;
    var carry;
    acc, carry := MulCells(aig, acc0, a, bi, i);
    forall inp ensures WV(aig.nodes, inp, acc) ==
              FromInt(ToNat(WV(n0, inp, acc0)) + if LV(n0, inp, bi) then Pow2(i) * ToNat(WV(n0, inp, a)) else 0, |a|)
    {
      RowResult(n0, aig.nodes, inp, acc0, acc, a, bi, carry, i);
    }
  }

  /** One column of a row, under one input assignment. */
  lemma ColumnStep(n0: Nodes, n1: Nodes, n2: Nodes, inp: seq<bool>, S: Word, O: Word, A: Word,
                   o: Lit, x: Lit, bi: Lit, c: Lit, sum: Lit, cout: Lit)
    requires Extends(n0, n1) && Extends(n1, n2)
    requires AllIn(n1, S) && In(n0, o) && In(n0, x) && In(n0, bi) && In(n1, c)
    requires SumsTo(WV(n1, inp, S), LV(n1, inp, c), WV(n0, inp, O), Gated(WV(n0, inp, A), LV(n0, inp, bi)), false)
    requires var pp := LV(n1, inp, x) && LV(n1, inp, bi);
             && LV(n2, inp, sum) == ((LV(n1, inp, o) != pp) != LV(n1, inp, c))
             && LV(n2, inp, cout) == Majority(LV(n1, inp, o), pp, LV(n1, inp, c))
    ensures SumsTo(WV(n2, inp, S + [sum]), LV(n2, inp, cout), WV(n0, inp, O + [o]),
                   Gated(WV(n0, inp, A + [x]), LV(n0, inp, bi)), false)
  {
    hide ToNat, Pow2, SumsTo, Gated, Majority;
    WVSnoc(n2, inp, S, sum);
    WVSnoc(n0, inp, O, o);
    WVSnoc(n0, inp, A, x);
    GatedSnoc(WV(n0, inp, A), LV(n0, inp, x), LV(n0, inp, bi));
    assert WV(n2, inp, S) == WV(n1, inp, S);
    assert LV(n1, inp, o) == LV(n0, inp, o) && LV(n1, inp, x) == LV(n0, inp, x) && LV(n1, inp, bi) == LV(n0, inp, bi);
    AdderStep(WV(n1, inp, S), LV(n1, inp, c), WV(n0, inp, O), Gated(WV(n0, inp, A), LV(n0, inp, bi)), false,
              LV(n0, inp, o), LV(n0, inp, x) && LV(n0, inp, bi));
  }

  lemma RowResult(n0: Nodes, n: Nodes, inp: seq<bool>, acc0: Word, acc: Word, a: Word, bi: Lit, carry: Lit, i: nat)
    requires Extends(n0, n) && AllIn(n0, acc0) && i < |a| == |acc0| == |acc| && acc[..i] == acc0[..i]
    requires SumsTo(WV(n, inp, acc[i..|a|]), LV(n, inp, carry), WV(n0, inp, acc0[i..|a|]),
                    Gated(WV(n0, inp, a[..|a| - i]), LV(n0, inp, bi)), false)
    ensures WV(n, inp, acc) ==
            FromInt(ToNat(WV(n0, inp, acc0)) + if LV(n0, inp, bi) then Pow2(i) * ToNat(WV(n0, inp, a)) else 0, |a|)
  {
    hide *;
    var O, A, S := WV(n0, inp, acc0), WV(n0, inp, a), WV(n, inp, acc[i..|a|]);
    assert WV(n0, inp, acc0[i..|a|]) == O[i..];
    assert WV(n0, inp, a[..|a| - i]) == A[..|a| - i];
    RowSplit(n0, n, inp, acc0, acc, i);
    RowValue(O, S, LV(n, inp, carry), A, LV(n0, inp, bi), i);
  }

  /** A row leaves the low i bits alone. */
  lemma RowSplit(n0: Nodes, n: Nodes, inp: seq<bool>, acc0: Word, acc: Word, i: nat)
    requires Extends(n0, n) && AllIn(n0, acc0) && i <= |acc0| == |acc| && acc[..i] == acc0[..i]
    ensures WV(n, inp, acc) == WV(n0, inp, acc0)[..i] + WV(n, inp, acc[i..|acc|])
  {
    forall k | 0 <= k < i ensures WV(n, inp, acc)[k] == WV(n0, inp, acc0)[k] {
      assert acc[k] == acc[..i][k] == acc0[..i][k] == acc0[k];
    }
    forall k | i <= k < |acc| ensures WV(n, inp, acc)[k] == WV(n, inp, acc[i..|acc|])[k - i] {
      assert acc[k] == acc[i..|acc|][k - i];
    }
  }

  /** Adding row i to the product by the low i bits gives that by i + 1. */
  lemma MulStep(acc: Bv, A: Bv, B: Bv, i: nat)
    requires i < |A| == |B| && acc == FromInt(ToNat(A) * ToNat(B[..i]), |A|)
    ensures FromInt(ToNat(acc) + if B[i] then Pow2(i) * ToNat(A) else 0, |A|) ==
            FromInt(ToNat(A) * ToNat(B[..i + 1]), |A|)
  {
    var d := if B[i] then Pow2(i) * ToNat(A) else 0;
    assert B[..i + 1] == B[..i] + [B[i]];
    B2NCases(B[i]);
    hide *;
    ToNatSnoc(B[..i], B[i]);
    MulDist(ToNat(A), ToNat(B[..i]), Pow2(i) * B2N(B[i]));
    assert ToNat(A) * ToNat(B[..i + 1]) == ToNat(A) * ToNat(B[..i]) + d;
    FromIntEarly(acc, ToNat(A) * ToNat(B[..i]), d, |A|);
  }

  /** One row, under one input assignment. */
  lemma MulRound(n0: Nodes, n1: Nodes, n2: Nodes, inp: seq<bool>, a: Word, b: Word, acc1: Word, acc: Word, i: nat)
    requires Extends(n0, n1) && AllIn(n0, a) && AllIn(n0, b) && i < |a| == |b|
    requires WV(n1, inp, acc1) == FromInt(ToNat(WV(n0, inp, a)) * ToNat(WV(n0, inp, b[..i])), |a|)
    requires WV(n2, inp, acc) ==
             FromInt(ToNat(WV(n1, inp, acc1)) + if LV(n1, inp, b[i]) then Pow2(i) * ToNat(WV(n1, inp, a)) else 0, |a|)
    ensures WV(n2, inp, acc) == FromInt(ToNat(WV(n0, inp, a)) * ToNat(WV(n0, inp, b[..i + 1])), |a|)
  {
    hide ToNat, Pow2, FromInt;
    var A, B := WV(n0, inp, a), WV(n0, inp, b);
    assert WV(n1, inp, a) == A && LV(n1, inp, b[i]) == B[i];
    assert WV(n0, inp, b[..i]) == B[..i] && WV(n0, inp, b[..i + 1]) == B[..i + 1];
    MulStep(WV(n1, inp, acc1), A, B, i);
  }

  lemma NoProduct(n0: Nodes, a: Word, b: Word)
    requires Wf(n0)
    ensures AllIn(n0, seq(|a|, k => LIT_FALSE))
    ensures forall inp :: WV(n0, inp, seq(|a|, k => LIT_FALSE)) ==
                          FromInt(ToNat(WV(n0, inp, a)) * ToNat(WV(n0, inp, b[..0])), |a|)
  {
    hide ToNat, Pow2, FromInt, Wf;
    var acc, w := seq(|a|, k => LIT_FALSE), |a|;
    ConstLits(n0, []);
    forall inp ensures WV(n0, inp, acc) == FromInt(ToNat(WV(n0, inp, a)) * ToNat(WV(n0, inp, b[..0])), w) {
      ConstLits(n0, inp);
      NoAmount(WV(n0, inp, b[..0]));
      assert WV(n0, inp, acc) == Fill(false, w);
      ToNatFill(false, w);
      FromIntToNat(Fill(false, w));
    }
  }

  method BlastMul(aig: Aig, a: Word, b: Word) returns (acc: Word)
    requires Wf(aig.nodes) && AllIn(aig.nodes, a) && AllIn(aig.nodes, b) && |a| == |b|
    modifies aig
    ensures Gates(old(aig.nodes), aig.nodes) && |aig.nodes| <= |old(aig.nodes)| + 10 * (|a| * |a|)
    ensures |acc| == |a| && AllIn(aig.nodes, acc)
    ensures (aig.nodes, acc) == G.MulOf(old(aig.nodes), a, b)
    ensures forall inp :: WV(aig.nodes, inp, acc) == BvMul(WV(old(aig.nodes), inp, a), WV(old(aig.nodes), inp, b))
  {
    hide ToNat, Pow2, FromInt, Rounds, Wf, G.RowsOf, G.CellsOf;
    ghost var n0 := aig.nodes;
    var w := |a|;
    acc := seq(w, k => LIT_FALSE);
    assert acc == G.Same(LIT_FALSE, w);
    G.RowsNone(n0, a, b);
    RoundsStep(10 * w, 0);
    NoProduct(n0, a, b);
    for i := 0 to w
      invariant Gates(n0, aig.nodes) && |aig.nodes| <= |n0| + Rounds(10 * w, i)
      invariant |acc| == w && AllIn(aig.nodes, acc)
      invariant (aig.nodes, acc) == G.RowsOf(n0, a, b, i)
      invariant forall inp :: WV(aig.nodes, inp, acc) ==
                  FromInt(ToNat(WV(n0, inp, a)) * ToNat(WV(n0, inp, b[..i])), w)
    {
      ghost var n1, acc1 := aig.nodes, acc;
      G.RowsNext(n0, a, b, i);
      acc := MulRow(aig, acc, a, b[i], i);
      RoundsStep(10 * w, i);
      forall inp ensures WV(aig.nodes, inp, acc) ==
                  FromInt(ToNat(WV(n0, inp, a)) * ToNat(WV(n0, inp, b[..i + 1])), w)
      {
        MulRound(n0, n1, aig.nodes, inp, a, b, acc1, acc, i);
      }
    }
    RoundsBound(10, w, w);
    assert b[..w] == b;
  }

  // ---------- restoring division ----------

  /** One step of long division: the remainder r doubled, dividend bit x
      brought in, and the divisor d subtracted if it fits. */
  predicate StepsTo(r: nat, x: bool, d: nat, ge: bool, r': nat)
  {
    && ge == (2 * r + B2N(x) >= d)
    && r' == 2 * r + B2N(x) - (if ge then d else 0)
    && r' < d
  }

  /** The w-bit difference and the shifted-out top bit decide the (w+1)-bit
      comparison, because the remainder is below the divisor. */
  lemma TopBitDecides(R: Bv, x: bool, D: Bv, S: Bv, diff: Bv, ge: bool, R': Bv)
    requires |R| == |D| == |diff| == |R'| > 0 && ToNat(R) < ToNat(D)
    requires S == [x] + R[..|R| - 1] && diff == BvSub(S, D)
    requires ge == (R[|R| - 1] || ToNat(S) >= ToNat(D)) && R' == if ge then diff else S
    ensures StepsTo(ToNat(R), x, ToNat(D), ge, ToNat(R'))
  {
    hide *;
    var w := |R|;
    BvSubValue(S, D);
    ShiftIn(R, x);
    ToNatBound(D);
    ToNatBound(S);
    RestoreArith(ToNat(R), x, ToNat(D), ToNat(S), Pow2(w), R[w - 1], ToNat(diff));
    StepsToIntro(ToNat(R), x, ToNat(D), ge, ToNat(R'));
  }

  lemma StepsToIntro(r: nat, x: bool, d: nat, ge: bool, r': nat)
    requires ge <==> 2 * r + B2N(x) >= d
    requires r' == 2 * r + B2N(x) - (if ge then d else 0) && r' < d
    ensures StepsTo(r, x, d, ge, r')
  {
  }

  lemma RestoreArith(r: nat, x: bool, d: nat, s: nat, P: nat, top: bool, diff: nat)
    requires r < d < P && s < P && 2 * r + B2N(x) == s + if top then P else 0
    requires diff == s - d + if s >= d then 0 else P
    ensures var v := 2 * r + B2N(x);
            if top || s >= d then v >= d && diff == v - d < d else v < d && v == s
  {
  }

  lemma ShiftIn(R: Bv, x: bool)
    requires |R| > 0
    ensures 2 * ToNat(R) + B2N(x) == ToNat([x] + R[..|R| - 1]) + if R[|R| - 1] then Pow2(|R|) else 0
    ensures |[x] + R[..|R| - 1]| == |R|
  {
    var low, top := R[..|R| - 1], R[|R| - 1];
    assert R == low + [top];
    ToNatSnoc(low, top);
    assert ([x] + low)[1..] == low;
  }

  /** Shift a word left by one in place, bringing in x at bit 0. */
  method ShiftWord(word: Word, x: Lit) returns (rem: Word)
    requires |word| > 0
    ensures rem == [x] + word[..|word| - 1]
  {
    var w := |word|;
    rem := word;
    var j := w - 1;
    while j > 0
      invariant 0 <= j < w && |rem| == w
      invariant rem[..j + 1] == word[..j + 1] && rem[j + 1..] == word[j..w - 1]
    {
      assert rem[j - 1] == rem[..j + 1][j - 1] == word[j - 1];
      rem := rem[j := rem[j - 1]];
      assert rem[j..] == [word[j - 1]] + word[j..w - 1] == word[j - 1..w - 1];
      j := j - 1;
    }
    rem := rem[0 := x];
  }

  lemma DivStepValue(n0: Nodes, n1: Nodes, n2: Nodes, n3: Nodes, inp: seq<bool>, rem0: Word, x: Lit, b: Word,
                     shifted: Word, diff: Word, lowGe: Lit, ge: Lit, rem: Word)
    requires Extends(n0, n1) && Extends(n1, n2) && Extends(n2, n3) && |rem0| == |b| == |diff| == |rem| > 0
    requires AllIn(n0, rem0) && In(n0, x) && AllIn(n0, b) && AllIn(n0, shifted) && AllIn(n1, diff) && In(n2, ge)
    requires shifted == [x] + rem0[..|b| - 1]
    requires WV(n1, inp, diff) == BvSub(WV(n0, inp, shifted), WV(n0, inp, b))
    requires LV(n1, inp, lowGe) == (ToNat(WV(n0, inp, shifted)) >= ToNat(WV(n0, inp, b)))
    requires LV(n2, inp, ge) == (LV(n1, inp, rem0[|b| - 1]) || LV(n1, inp, lowGe))
    requires WV(n3, inp, rem) == if LV(n2, inp, ge) then WV(n2, inp, diff) else WV(n2, inp, shifted)
    requires ToNat(WV(n0, inp, rem0)) < ToNat(WV(n0, inp, b))
    ensures StepsTo(ToNat(WV(n0, inp, rem0)), LV(n0, inp, x), ToNat(WV(n0, inp, b)),
                    LV(n3, inp, ge), ToNat(WV(n3, inp, rem)))
  {
    hide ToNat, Pow2, StepsTo, BvSub, Wf;
    var top, R := rem0[|b| - 1], WV(n0, inp, rem0);
    WVCons(n0, inp, x, rem0[..|b| - 1]);
    assert WV(n0, inp, rem0[..|b| - 1]) == R[..|b| - 1];
    assert WV(n2, inp, diff) == WV(n1, inp, diff) && WV(n2, inp, shifted) == WV(n1, inp, shifted) == WV(n0, inp, shifted);
    assert LV(n1, inp, top) == LV(n0, inp, top) && LV(n3, inp, ge) == LV(n2, inp, ge);
    TopBitDecides(R, LV(n0, inp, x), WV(n0, inp, b), WV(n0, inp, shifted), WV(n1, inp, diff), LV(n2, inp, ge), WV(n3, inp, rem));
  }

  /** One restoring step: shift, subtract, and restore if it borrowed. */
  method DivStep(aig: Aig, rem0: Word, x: Lit, b: Word) returns (rem: Word, ge: Lit)
    requires Wf(aig.nodes) && AllIn(aig.nodes, rem0) && In(aig.nodes, x) && AllIn(aig.nodes, b)
    requires |rem0| == |b| > 0
    modifies aig
    ensures Gates(old(aig.nodes), aig.nodes) && |aig.nodes| == |old(aig.nodes)| + 12 * |b| + 1
    ensures |rem| == |b| && AllIn(aig.nodes, rem) && In(aig.nodes, ge)
    ensures (aig.nodes, rem, ge) == G.RestoreOf(old(aig.nodes), rem0, x, b)
    ensures forall inp :: ToNat(WV(old(aig.nodes), inp, rem0)) < ToNat(WV(old(aig.nodes), inp, b)) ==>
              StepsTo(ToNat(WV(old(aig.nodes), inp, rem0)), LV(old(aig.nodes), inp, x),
                      ToNat(WV(old(aig.nodes), inp, b)), LV(aig.nodes, inp, ge), ToNat(WV(aig.nodes, inp, rem)))
  {
    hide ToNat, Pow2, StepsTo, FromInt, Wf, G.SubOf, G.IteOf;
    ghost var n0 := aig.nodes;
    var w := |b|;
    var top := rem0[w - 1];
    rem := ShiftWord(rem0, x);
    ghost var shifted := rem;
    assert AllIn(n0, shifted);
    var diff, lowGe := SubWithUge(aig, rem, b);
    ghost var n1 := aig.nodes;
    ge := aig.PushOr(top, lowGe);
    ghost var n2 := aig.nodes;
    rem := BlastIte(aig, ge, diff, rem);
    forall inp | ToNat(WV(n0, inp, rem0)) < ToNat(WV(n0, inp, b))
      ensures StepsTo(ToNat(WV(n0, inp, rem0)), LV(n0, inp, x), ToNat(WV(n0, inp, b)),
                      LV(aig.nodes, inp, ge), ToNat(WV(aig.nodes, inp, rem)))
    {
      DivStepValue(n0, n1, n2, aig.nodes, inp, rem0, x, b, shifted, diff, lowGe, ge, rem);
    }
  }

  /** Q and R are the quotient and remainder of N by d so far. */
  predicate Divides(N: nat, d: nat, Q: nat, R: nat) { N == Q * d + R && R < d }

  lemma DivideOn(N: nat, d: nat, Q: nat, R: nat, x: bool, ge: bool, R': nat)
    requires Divides(N, d, Q, R) && StepsTo(R, x, d, ge, R')
    ensures Divides(B2N(x) + 2 * N, d, B2N(ge) + 2 * Q, R')
  {
    B2NCases(ge);
    MulDist(d, B2N(ge), 2 * Q);
    MulAssoc(2, Q, d);
  }

  lemma ToNatCons(b: bool, x: Bv)
    ensures ToNat([b] + x) == B2N(b) + 2 * ToNat(x)
  {
    assert ([b] + x)[1..] == x;
  }

  lemma WVCons(ns: Nodes, inp: seq<bool>, l: Lit, w: Word)
    ensures WV(ns, inp, [l] + w) == [LV(ns, inp, l)] + WV(ns, inp, w)
  {
  }

  lemma DivRound(n0: Nodes, n1: Nodes, n2: Nodes, inp: seq<bool>, a: Word, b: Word, quo: Word, rem1: Word,
                 x: Lit, ge: Lit, rem: Word)
    requires Extends(n0, n1) && Extends(n1, n2) && AllIn(n1, quo) && In(n0, x) && AllIn(n0, b)
    requires Divides(ToNat(WV(n0, inp, a)), ToNat(WV(n0, inp, b)), ToNat(WV(n1, inp, quo)), ToNat(WV(n1, inp, rem1)))
    requires StepsTo(ToNat(WV(n1, inp, rem1)), LV(n1, inp, x), ToNat(WV(n1, inp, b)),
                     LV(n2, inp, ge), ToNat(WV(n2, inp, rem)))
    ensures Divides(ToNat(WV(n0, inp, [x] + a)), ToNat(WV(n0, inp, b)),
                    ToNat(WV(n2, inp, [ge] + quo)), ToNat(WV(n2, inp, rem)))
  {
    hide ToNat, StepsTo, Divides;
    WVCons(n0, inp, x, a);
    WVCons(n2, inp, ge, quo);
    ToNatCons(LV(n0, inp, x), WV(n0, inp, a));
    ToNatCons(LV(n2, inp, ge), WV(n2, inp, quo));
    assert LV(n1, inp, x) == LV(n0, inp, x) && WV(n1, inp, b) == WV(n0, inp, b);
    assert WV(n2, inp, quo) == WV(n1, inp, quo);
    DivideOn(ToNat(WV(n0, inp, a)), ToNat(WV(n0, inp, b)), ToNat(WV(n1, inp, quo)), ToNat(WV(n1, inp, rem1)),
             LV(n0, inp, x), LV(n2, inp, ge), ToNat(WV(n2, inp, rem)));
  }

  /** Long division, for every non-zero divisor: the remainder stays below it. */
  method DivLoop(aig: Aig, a: Word, b: Word) returns (quo: Word, rem: Word)
    requires Wf(aig.nodes) && AllIn(aig.nodes, a) && AllIn(aig.nodes, b) && |a| == |b| > 0
    modifies aig
    ensures Gates(old(aig.nodes), aig.nodes) && |aig.nodes| == |old(aig.nodes)| + Rounds(12 * |a| + 1, |a|)
    ensures |quo| == |rem| == |a| && AllIn(aig.nodes, quo) && AllIn(aig.nodes, rem)
    ensures (aig.nodes, quo, rem) == G.DivideOf(old(aig.nodes), a, b, |a|)
    ensures forall inp :: ToNat(WV(old(aig.nodes), inp, b)) > 0 ==>
              Divides(ToNat(WV(old(aig.nodes), inp, a)), ToNat(WV(old(aig.nodes), inp, b)),
                      ToNat(WV(aig.nodes, inp, quo)), ToNat(WV(aig.nodes, inp, rem)))
  {
    hide ToNat, Divides, StepsTo, Rounds, Wf, G.DivideOf, G.RestoreOf;
    ghost var n0 := aig.nodes;
    var w := |a|;
    rem := seq(w, k => LIT_FALSE);
    quo := seq(w, k => LIT_FALSE);
    assert rem == G.Same(LIT_FALSE, w) == quo;
    G.DivideNone(n0, a, b);
    RoundsStep(12 * w + 1, 0);
    NoQuotient(n0, a, b, quo);
    for step := 0 to w
      invariant Gates(n0, aig.nodes) && |aig.nodes| == |n0| + Rounds(12 * w + 1, step)
      invariant |quo| == |rem| == w && AllIn(aig.nodes, quo) && AllIn(aig.nodes, rem)
      invariant (aig.nodes, quo, rem) == G.DivideOf(n0, a, b, step)
      invariant forall inp {:trigger WV(aig.nodes, inp, rem)} {:trigger WV(aig.nodes, inp, quo[w - step..])} ::
                  ToNat(WV(n0, inp, b)) > 0 ==>
                  Divides(ToNat(WV(n0, inp, a[w - step..])), ToNat(WV(n0, inp, b)),
                          ToNat(WV(aig.nodes, inp, quo[w - step..])), ToNat(WV(aig.nodes, inp, rem)))
    {
      var i := w - 1 - step;
      ghost var n1, quo1, rem1 := aig.nodes, quo[i + 1..], rem;
      var ge;
      G.DivideNext(n0, a, b, step);
      rem, ge := DivStep(aig, rem, a[i], b);
      quo := quo[i := ge];
      RoundsStep(12 * w + 1, step);
      assert quo[i..] == [ge] + quo1 && a[i..] == [a[i]] + a[i + 1..];
      forall inp | ToNat(WV(n0, inp, b)) > 0
        ensures Divides(ToNat(WV(n0, inp, a[i..])), ToNat(WV(n0, inp, b)),
                        ToNat(WV(aig.nodes, inp, quo[i..])), ToNat(WV(aig.nodes, inp, rem)))
      {
        assert WV(n1, inp, b) == WV(n0, inp, b);
        DividesBound(ToNat(WV(n0, inp, a[i + 1..])), ToNat(WV(n0, inp, b)), ToNat(WV(n1, inp, quo1)), ToNat(WV(n1, inp, rem1)));
        DivRound(n0, n1, aig.nodes, inp, a[i + 1..], b, quo1, rem1, a[i], ge, rem);
      }
    }
    assert a[0..] == a && quo[0..] == quo;
  }

  /** Before the first step nothing is divided. */
  lemma NoQuotient(n0: Nodes, a: Word, b: Word, zeros: Word)
    requires Wf(n0) && |zeros| == |a| && forall k :: 0 <= k < |zeros| ==> zeros[k] == LIT_FALSE
    ensures AllIn(n0, zeros)
    ensures forall inp :: ToNat(WV(n0, inp, b)) > 0 ==>
              Divides(ToNat(WV(n0, inp, a[|a|..])), ToNat(WV(n0, inp, b)),
                      ToNat(WV(n0, inp, zeros[|a|..])), ToNat(WV(n0, inp, zeros)))
  {
    hide ToNat, Divides, Wf;
    ConstLits(n0, []);
    forall inp | ToNat(WV(n0, inp, b)) > 0
      ensures Divides(ToNat(WV(n0, inp, a[|a|..])), ToNat(WV(n0, inp, b)),
                      ToNat(WV(n0, inp, zeros[|a|..])), ToNat(WV(n0, inp, zeros)))
    {
      ConstLits(n0, inp);
      DivStart(WV(n0, inp, a[|a|..]), WV(n0, inp, b), WV(n0, inp, zeros[|a|..]), WV(n0, inp, zeros));
    }
  }

  lemma DivStart(A: Bv, B: Bv, Q: Bv, R: Bv)
    requires |A| == |Q| == 0 && ToNat(B) > 0 && R == Fill(false, |R|)
    ensures Divides(ToNat(A), ToNat(B), ToNat(Q), ToNat(R))
  {
    ToNatFill(false, |R|);
  }

  lemma DividesBound(N: nat, d: nat, Q: nat, R: nat)
    requires Divides(N, d, Q, R)
    ensures R < d
  {
  }

  /** Select the standard's answers for a zero divisor. */
  method ZeroDivisor(aig: Aig, a: Word, b: Word, quo: Word, rem: Word) returns (quoOut: Word, remOut: Word)
    requires Wf(aig.nodes) && AllIn(aig.nodes, a) && AllIn(aig.nodes, b)
    requires AllIn(aig.nodes, quo) && AllIn(aig.nodes, rem) && |a| == |b| == |quo| == |rem|
    modifies aig
    ensures Gates(old(aig.nodes), aig.nodes) && |aig.nodes| == |old(aig.nodes)| + 7 * |a|
    ensures |quoOut| == |remOut| == |a| && AllIn(aig.nodes, quoOut) && AllIn(aig.nodes, remOut)
    ensures (aig.nodes, quoOut, remOut) == G.ZeroDivisorOf(old(aig.nodes), a, b, quo, rem)
    ensures forall inp :: WV(aig.nodes, inp, quoOut) ==
              if ToNat(WV(old(aig.nodes), inp, b)) == 0 then Fill(true, |a|) else WV(old(aig.nodes), inp, quo)
    ensures forall inp :: WV(aig.nodes, inp, remOut) ==
              WV(old(aig.nodes), inp, if ToNat(WV(old(aig.nodes), inp, b)) == 0 then a else rem)
  {
    hide ToNat, Wf, G.AnyOf, G.IteOf;
    ghost var n0 := aig.nodes;
    assert b[0..] == b;
    var nz := OutOfRange(aig, b, 0);
    var isZero := Not(nz);
    ghost var n1 := aig.nodes;
    forall inp ensures LV(n1, inp, isZero) == (ToNat(WV(n0, inp, b)) == 0) {
      assert LV(n1, inp, isZero) == !LV(n1, inp, nz);
    }
    var ones := seq(|a|, k => LIT_TRUE);
    assert ones == G.Same(LIT_TRUE, |a|);
    forall inp ensures WV(n1, inp, ones) == Fill(true, |a|) { ConstLits(n1, inp); }
    quoOut := BlastIte(aig, isZero, ones, quo);
    ghost var n2 := aig.nodes;
    remOut := BlastIte(aig, isZero, a, rem);
    forall inp
      ensures WV(aig.nodes, inp, remOut) == WV(n0, inp, if ToNat(WV(n0, inp, b)) == 0 then a else rem)
    {
      assert LV(n2, inp, isZero) == LV(n1, inp, isZero);
      assert WV(n2, inp, a) == WV(n1, inp, a) && WV(n2, inp, rem) == WV(n1, inp, rem);
    }
  }

  /** bvudiv and bvurem together, division by zero included. */
  method BlastUdivrem(aig: Aig, a: Word, b: Word) returns (quoOut: Word, remOut: Word)
    requires Wf(aig.nodes) && AllIn(aig.nodes, a) && AllIn(aig.nodes, b) && |a| == |b| > 0
    modifies aig
    ensures Gates(old(aig.nodes), aig.nodes) && |aig.nodes| <= |old(aig.nodes)| + 12 * (|a| * |a|) + 8 * |a|
    ensures |quoOut| == |remOut| == |a| && AllIn(aig.nodes, quoOut) && AllIn(aig.nodes, remOut)
    ensures (aig.nodes, quoOut, remOut) == G.UdivremOf(old(aig.nodes), a, b)
    ensures forall inp :: WV(aig.nodes, inp, quoOut) == BvUdiv(WV(old(aig.nodes), inp, a), WV(old(aig.nodes), inp, b))
    ensures forall inp :: WV(aig.nodes, inp, remOut) == BvUrem(WV(old(aig.nodes), inp, a), WV(old(aig.nodes), inp, b))
  {
    hide ToNat, Divides, Rounds, BvUdiv, BvUrem, Wf, G.DivideOf, G.ZeroDivisorOf;
    ghost var n0 := aig.nodes;
    var quo, rem := DivLoop(aig, a, b);
    DivLoopCost(|a|);
    ghost var n1 := aig.nodes;
    quoOut, remOut := ZeroDivisor(aig, a, b, quo, rem);
    forall inp
      ensures WV(aig.nodes, inp, quoOut) == BvUdiv(WV(n0, inp, a), WV(n0, inp, b))
      ensures WV(aig.nodes, inp, remOut) == BvUrem(WV(n0, inp, a), WV(n0, inp, b))
    {
      assert WV(n1, inp, a) == WV(n0, inp, a) && WV(n1, inp, b) == WV(n0, inp, b);
      DivResult(WV(n0, inp, a), WV(n0, inp, b), WV(n1, inp, quo), WV(n1, inp, rem));
    }
  }

  lemma DivLoopCost(w: nat)
    ensures Rounds(12 * w + 1, w) == 12 * (w * w) + w
  {
    MulDist(w, 12 * w, 1);
    MulAssoc(12, w, w);
  }

  lemma DivResult(A: Bv, B: Bv, Q: Bv, R: Bv)
    requires |A| == |B| == |Q| == |R|
    requires ToNat(B) > 0 ==> Divides(ToNat(A), ToNat(B), ToNat(Q), ToNat(R))
    ensures BvUdiv(A, B) == if ToNat(B) == 0 then Fill(true, |A|) else Q
    ensures BvUrem(A, B) == if ToNat(B) == 0 then A else R
  {
    if ToNat(B) > 0 {
      DivModUnique(ToNat(A), ToNat(B), ToNat(Q), ToNat(R));
      FromIntToNat(Q);
      FromIntToNat(R);
    }
  }

  method BlastUdiv(aig: Aig, a: Word, b: Word) returns (out: Word)
    requires Wf(aig.nodes) && AllIn(aig.nodes, a) && AllIn(aig.nodes, b) && |a| == |b| > 0
    modifies aig
    ensures Gates(old(aig.nodes), aig.nodes) && |aig.nodes| <= |old(aig.nodes)| + 12 * (|a| * |a|) + 8 * |a|
    ensures |out| == |a| && AllIn(aig.nodes, out)
    ensures (aig.nodes, out) == G.Quotient(G.UdivremOf(old(aig.nodes), a, b))
    ensures forall inp :: WV(aig.nodes, inp, out) == BvUdiv(WV(old(aig.nodes), inp, a), WV(old(aig.nodes), inp, b))
  {
    hide G.UdivremOf;
    var rem;
    out, rem := BlastUdivrem(aig, a, b);
  }

  /** a - (a / b) * b is the remainder, by zero too. */
  lemma UremIsMultiplicative(A: Bv, B: Bv)
    requires |A| == |B|
    ensures BvSub(A, BvMul(BvUdiv(A, B), B)) == BvUrem(A, B)
  {
    var w := |A|;
    var Q := BvUdiv(A, B);
    var a, b, q := ToNat(A), ToNat(B), ToNat(Q);
    if b == 0 {
      FromIntToNat(A);
      assert q * b == 0;
      ZeroValue(w);
    } else {
      UdivValue(A, B);
      RemArith(a, b);
      ToNatBound(A);
      ToNatFromInt(q * b, w);
      SmallDiv(q * b, Pow2(w));
    }
  }

  lemma RemArith(a: nat, b: nat)
    requires b > 0
    ensures a / b * b <= a && a - a / b * b == a % b
  {
  }

  lemma ZeroValue(w: nat)
    ensures ToNat(FromInt(0, w)) == 0
  {
    ToNatFromInt(0, w);
    SmallDiv(0, Pow2(w));
  }

  lemma UdivValue(A: Bv, B: Bv)
    requires ToNat(B) > 0
    ensures ToNat(BvUdiv(A, B)) == ToNat(A) / ToNat(B)
  {
    hide ToNat, Pow2, FromInt;
    var q := ToNat(A) / ToNat(B);
    QuotientBound(ToNat(A), ToNat(B));
    ToNatBound(A);
    ToNatFromInt(q, |A|);
    SmallDiv(q, Pow2(|A|));
  }

  lemma QuotientBound(a: nat, b: nat)
    requires b > 0
    ensures a / b <= a
  {
    MulMono(1, b, a / b);
  }

  /** bvurem, multiplicatively. */
  method BlastUrem(aig: Aig, a: Word, b: Word) returns (out: Word)
    requires Wf(aig.nodes) && AllIn(aig.nodes, a) && AllIn(aig.nodes, b) && |a| == |b| > 0
    modifies aig
    ensures Gates(old(aig.nodes), aig.nodes) && |aig.nodes| <= |old(aig.nodes)| + 22 * (|a| * |a|) + 17 * |a|
    ensures |out| == |a| && AllIn(aig.nodes, out)
    ensures (aig.nodes, out) == G.UremOf(old(aig.nodes), a, b)
    ensures forall inp :: WV(aig.nodes, inp, out) == BvUrem(WV(old(aig.nodes), inp, a), WV(old(aig.nodes), inp, b))
  {
    hide ToNat, FromInt, Wf, G.UdivremOf, G.MulOf, G.SubOf;
    ghost var n0, square := aig.nodes, |a| * |a|;
    var q := BlastUdiv(aig, a, b);
    ghost var n1 := aig.nodes;
    assert |n1| <= |n0| + 12 * square + 8 * |a|;
    var prod := BlastMul(aig, q, b);
    ghost var n2 := aig.nodes;
    assert |n2| <= |n1| + 10 * square;
    out := BlastSub(aig, a, prod);
    assert |aig.nodes| <= |n0| + 22 * square + 17 * |a|;
    forall inp ensures WV(aig.nodes, inp, out) == BvUrem(WV(n0, inp, a), WV(n0, inp, b)) {
      UremIsMultiplicative(WV(n0, inp, a), WV(n0, inp, b));
      assert WV(n1, inp, b) == WV(n0, inp, b) && WV(n2, inp, a) == WV(n0, inp, a);
    }
  }
}
