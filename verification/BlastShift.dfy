/** Bit-blasting rules: barrel shifters with the out-of-range case, at every
    width. */
module BlastShift {
  import opened Bits
  import opened BvOps
  import opened AigGraph
  import G = GateList
  import opened BlastArith

  // ---------- shifting by a known amount ----------

  function ShiftedRight(x: Bv, n: nat, f: bool): (y: Bv)
    ensures |y| == |x|
  { seq(|x|, i requires 0 <= i < |x| => if i + n < |x| then x[i + n] else f) }

  function ShiftedLeft(x: Bv, n: nat): (y: Bv)
    ensures |y| == |x|
  { seq(|x|, i requires 0 <= i < |x| => i >= n && x[i - n]) }

  /** By 0, nothing moves; by the width or more, everything is shifted out. */
  lemma ShiftedExtremes(x: Bv, n: nat, f: bool)
    ensures ShiftedRight(x, 0, f) == x && ShiftedLeft(x, 0) == x
    ensures n >= |x| ==> ShiftedRight(x, n, f) == Fill(f, |x|) && ShiftedLeft(x, n) == Fill(false, |x|)
  {
  }

  lemma ShiftedRightTwice(x: Bv, m: nat, n: nat, f: bool)
    ensures ShiftedRight(ShiftedRight(x, m, f), n, f) == ShiftedRight(x, m + n, f)
  {
  }

  lemma ShiftedLeftTwice(x: Bv, m: nat, n: nat)
    ensures ShiftedLeft(ShiftedLeft(x, m), n) == ShiftedLeft(x, m + n)
  {
  }

  lemma ShiftedRightValue(x: Bv, n: nat)
    ensures ToNat(ShiftedRight(x, n, false)) == ToNat(x) / Pow2(n)
  {
    if n <= |x| {
      assert ShiftedRight(x, n, false) == x[n..] + Fill(false, n);
      ToNatHighZeros(x[n..], n);
      ToNatCut(x, n);
    } else {
      assert ShiftedRight(x, n, false) == Fill(false, |x|);
      ToNatFill(false, |x|);
      ToNatBound(x);
      Pow2Mono(|x|, n);
      SmallDiv(ToNat(x), Pow2(n));
    }
  }

  lemma ShiftedLeftValue(x: Bv, n: nat)
    ensures ShiftedLeft(x, n) == FromInt(ToNat(x) * Pow2(n), |x|)
  {
    if n <= |x| {
      ShlWithin(x, n);
    } else {
      assert ShiftedLeft(x, n) == Fill(false, |x|);
      ShlBeyond(ToNat(x), |x|, n);
    }
  }

  lemma ShlWithin(x: Bv, n: nat)
    requires n <= |x|
    ensures ShiftedLeft(x, n) == FromInt(ToNat(x) * Pow2(n), |x|)
  {
    var y, k := ShiftedLeft(x, n), |x| - n;
    assert y == Fill(false, n) + x[..k];
    hide *;
    var v := ShlWithinValue(x, y, n);
    FromIntUnique(y, v, 0 - ToNat(x[k..]));
  }

  lemma ShlWithinValue(x: Bv, y: Bv, n: nat) returns (v: int)
    requires n <= |x| && y == Fill(false, n) + x[..|x| - n]
    ensures v == ToNat(x) * Pow2(n) && ToNat(y) == v + (0 - ToNat(x[|x| - n..])) * Pow2(|x|)
  {
    hide *;
    var k := |x| - n;
    v := ToNat(x) * Pow2(n);
    ToNatLowZeros(n, x[..k]);
    ToNatSplit(x, k);
    Pow2Add(k, n);
    ShlArith(ToNat(x), ToNat(x[..k]), ToNat(x[k..]), Pow2(k), Pow2(n));
  }

  lemma ShlBeyond(v: nat, w: nat, n: nat)
    requires n >= w
    ensures Fill(false, w) == FromInt(v * Pow2(n), w)
  {
    hide *;
    ToNatFill(false, w);
    Pow2Add(n - w, w);
    MulAssoc(v, Pow2(n - w), Pow2(w));
    FromIntUnique(Fill(false, w), v * Pow2(n), 0 - v * Pow2(n - w));
  }

  lemma ShlArith(x: int, low: int, high: int, pk: int, pn: int)
    requires x == low + pk * high
    ensures pn * low == x * pn + (0 - high) * (pk * pn)
  {
    calc {
      x * pn + (0 - high) * (pk * pn);
      (low + pk * high) * pn + (0 - high) * (pk * pn);
      { MulDist(pn, low, pk * high); }
      low * pn + pk * high * pn - high * (pk * pn);
      { assert pk * high * pn == high * (pk * pn); }
      low * pn;
    }
  }

  lemma AshrValue(x: Bv, y: Bv)
    requires |x| > 0
    ensures ShiftedRight(x, ToNat(y), Msb(x)) == BvAshr(x, y)
  {
    var n := ToNat(y);
    if Msb(x) {
      assert ShiftedRight(x, n, true) == Complement(ShiftedRight(Complement(x), n, false));
      LshrValue(Complement(x), y);
    } else {
      LshrValue(x, y);
    }
  }

  lemma LshrValue(x: Bv, y: Bv)
    ensures ShiftedRight(x, ToNat(y), false) == BvLshr(x, y)
  {
    ShiftedRightValue(x, ToNat(y));
    FromIntToNat(ShiftedRight(x, ToNat(y), false));
  }

  // ---------- the stages ----------

  /** The least number of stages whose combined shift reaches w, and whether
      w is a power of two. */
  method StageCount(w: nat) returns (stages: nat, pow2: bool)
    requires w >= 1
    ensures w <= Pow2(stages) && (stages > 0 ==> Pow2(stages - 1) < w)
    ensures stages == G.Stages(w, 0)
    ensures pow2 <==> w == Pow2(stages)
    ensures stages < w
  {
    hide Pow2, G.Stages;
    Pow2Step(0);
    var t := w - 1;
    stages, pow2 := 0, true;
    ghost var r: nat, p: nat := 0, 1;
    while t > 0
      invariant w - 1 == t * p + r && r < p == Pow2(stages)
      invariant pow2 <==> r == p - 1
      invariant t == 0 && stages > 0 ==> Pow2(stages - 1) < w
    {
      HalvingStep(t, p, r);
      Pow2Step(stages);
      r := if t % 2 == 1 then r + p else r;
      pow2 := pow2 && t % 2 == 1;
      t := t / 2;
      stages, p := stages + 1, 2 * p;
    }
    if stages > 0 { Pow2Big(stages - 1); }
    G.StagesAre(w, stages);
  }

  lemma HalvingStep(t: nat, p: nat, r: nat)
    requires t > 0
    ensures t * p + r == t / 2 * (2 * p) + if t % 2 == 1 then r + p else r
    ensures t * p >= p
  {
    MulMono(1, t, p);
    MulAssoc(t / 2, 2, p);
    MulDist(p, t / 2 * 2, t % 2);
  }

  /** The stage count is the least that reaches w, and w is a power of two
      only if it is that one. */
  lemma StagesLeast(w: nat, stages: nat, s: nat)
    requires 1 <= w <= Pow2(stages) && (stages > 0 ==> Pow2(stages - 1) < w)
    ensures w <= Pow2(s) ==> stages <= s
    ensures w == Pow2(s) ==> s == stages
  {
    if s < stages { Pow2Mono(s, stages - 1); }
    if stages < s { Pow2Mono(stages, s - 1); }
  }

  /** Is some amount bit above the stages set? */
  method OutOfRange(aig: Aig, b: Word, stages: nat) returns (acc: Lit)
    requires Wf(aig.nodes) && AllIn(aig.nodes, b) && stages <= |b|
    modifies aig
    ensures Gates(old(aig.nodes), aig.nodes) && |aig.nodes| == |old(aig.nodes)| + |b| - stages
    ensures In(aig.nodes, acc) && (aig.nodes, acc) == G.AnyOf(old(aig.nodes), b, stages, |b|)
    ensures forall inp :: LV(aig.nodes, inp, acc) == (ToNat(WV(old(aig.nodes), inp, b[stages..])) != 0)
  {
    hide Pow2, G.AnyOf;
    ghost var n0 := aig.nodes;
    acc := LIT_FALSE;
    G.AnyNone(n0, b, stages);
    var i := stages;
    while i < |b|
      invariant stages <= i <= |b|
      invariant Gates(n0, aig.nodes) && |aig.nodes| == |n0| + i - stages && In(aig.nodes, acc)
      invariant (aig.nodes, acc) == G.AnyOf(n0, b, stages, i)
      invariant forall inp :: LV(aig.nodes, inp, acc) == (ToNat(WV(n0, inp, b[stages..i])) != 0)
    {
      ghost var n1, acc1 := aig.nodes, acc;
      G.AnyNext(n0, b, stages, i);
      acc := aig.PushOr(acc, b[i]);
      assert b[stages..i + 1] == b[stages..i] + [b[i]];
      forall inp ensures LV(aig.nodes, inp, acc) == (ToNat(WV(n0, inp, b[stages..i + 1])) != 0) {
        WVSnoc(n0, inp, b[stages..i], b[i]);
        ToNatSnoc(WV(n0, inp, b[stages..i]), LV(n0, inp, b[i]));
        assert LV(n1, inp, b[i]) == LV(n0, inp, b[i]);
      }
      i := i + 1;
    }
    assert b[stages..|b|] == b[stages..];
  }

  /** One gated right-shift stage. */
  method BarrelRightStage(aig: Aig, cur: Word, sel: Lit, s: nat, fill: Lit) returns (next: Word)
    requires Wf(aig.nodes) && AllIn(aig.nodes, cur) && In(aig.nodes, sel) && In(aig.nodes, fill)
    modifies aig
    ensures Gates(old(aig.nodes), aig.nodes) && |aig.nodes| == |old(aig.nodes)| + 3 * |cur|
    ensures |next| == |cur| && AllIn(aig.nodes, next)
    ensures (aig.nodes, next) == G.IteOf(old(aig.nodes), sel, G.MovedRight(cur, s, fill), cur, |cur|)
    ensures forall inp :: WV(aig.nodes, inp, next) ==
              if LV(old(aig.nodes), inp, sel)
              then ShiftedRight(WV(old(aig.nodes), inp, cur), s, LV(old(aig.nodes), inp, fill))
              else WV(old(aig.nodes), inp, cur)
  {
    var w := |cur|;
    var shifted := seq(w, i requires 0 <= i < w => if i + s < w then cur[i + s] else fill);
    assert shifted == G.MovedRight(cur, s, fill);
    hide G.IteOf, Wf;
    next := BlastIte(aig, sel, shifted, cur);
    ghost var n0 := old(aig.nodes);
    assert forall inp :: WV(n0, inp, shifted) == ShiftedRight(WV(n0, inp, cur), s, LV(n0, inp, fill));
  }

  /** One gated left-shift stage. */
  method BarrelLeftStage(aig: Aig, cur: Word, sel: Lit, s: nat) returns (next: Word)
    requires Wf(aig.nodes) && AllIn(aig.nodes, cur) && In(aig.nodes, sel)
    modifies aig
    ensures Gates(old(aig.nodes), aig.nodes) && |aig.nodes| == |old(aig.nodes)| + 3 * |cur|
    ensures |next| == |cur| && AllIn(aig.nodes, next)
    ensures (aig.nodes, next) == G.IteOf(old(aig.nodes), sel, G.MovedLeft(cur, s), cur, |cur|)
    ensures forall inp :: WV(aig.nodes, inp, next) ==
              if LV(old(aig.nodes), inp, sel)
              then ShiftedLeft(WV(old(aig.nodes), inp, cur), s) else WV(old(aig.nodes), inp, cur)
  {
    var w := |cur|;
    var shifted := seq(w, i requires 0 <= i < w => if i >= s then cur[i - s] else LIT_FALSE);
    assert shifted == G.MovedLeft(cur, s);
    hide G.IteOf;
    next := BlastIte(aig, sel, shifted, cur);
    ghost var n0 := old(aig.nodes);
    forall inp ensures WV(n0, inp, shifted) == ShiftedLeft(WV(n0, inp, cur), s) {
      ConstLits(n0, inp);
    }
  }

  // ---------- the shifters ----------

  lemma NoAmount(x: Bv)
    requires |x| == 0
    ensures ToNat(x) == 0
  {
  }

  /** The amount seen by the first k + 1 stages. */
  lemma AmountStep(ns: Nodes, inp: seq<bool>, b: Word, k: nat)
    requires k < |b|
    ensures ToNat(WV(ns, inp, b[..k + 1])) ==
            ToNat(WV(ns, inp, b[..k])) + if LV(ns, inp, b[k]) then Pow2(k) else 0
  {
    assert b[..k + 1] == b[..k] + [b[k]];
    WVSnoc(ns, inp, b[..k], b[k]);
    ToNatSnoc(WV(ns, inp, b[..k]), LV(ns, inp, b[k]));
  }

  /** The whole amount: exact when the high bits are zero, else at least w. */
  lemma AmountSplit(ns: Nodes, inp: seq<bool>, b: Word, stages: nat)
    requires stages <= |b| <= Pow2(stages)
    ensures var amount := ToNat(WV(ns, inp, b));
            if ToNat(WV(ns, inp, b[stages..])) == 0 then amount == ToNat(WV(ns, inp, b[..stages]))
            else amount >= |b|
  {
    var B := WV(ns, inp, b);
    assert B[..stages] == WV(ns, inp, b[..stages]) && B[stages..] == WV(ns, inp, b[stages..]);
    ToNatHigh(B, stages);
  }

  /** One right stage, under one input assignment. */
  lemma RightRound(n0: Nodes, n1: Nodes, n2: Nodes, inp: seq<bool>, a: Word, b: Word, k: nat, fill: Lit,
                   cur1: Word, cur: Word)
    requires Extends(n0, n1) && k < |b| && In(n0, b[k]) && In(n0, fill)
    requires WV(n1, inp, cur1) == ShiftedRight(WV(n0, inp, a), ToNat(WV(n0, inp, b[..k])), LV(n0, inp, fill))
    requires WV(n2, inp, cur) == if LV(n1, inp, b[k])
                                 then ShiftedRight(WV(n1, inp, cur1), Pow2(k), LV(n1, inp, fill)) else WV(n1, inp, cur1)
    ensures WV(n2, inp, cur) == ShiftedRight(WV(n0, inp, a), ToNat(WV(n0, inp, b[..k + 1])), LV(n0, inp, fill))
  {
    hide ToNat, Pow2, ShiftedRight, Wf;
    assert LV(n1, inp, b[k]) == LV(n0, inp, b[k]) && LV(n1, inp, fill) == LV(n0, inp, fill);
    AmountStep(n0, inp, b, k);
    ShiftedRightTwice(WV(n0, inp, a), ToNat(WV(n0, inp, b[..k])), Pow2(k), LV(n0, inp, fill));
  }

  lemma LeftRound(n0: Nodes, n1: Nodes, n2: Nodes, inp: seq<bool>, a: Word, b: Word, k: nat, cur1: Word, cur: Word)
    requires Extends(n0, n1) && k < |b| && In(n0, b[k])
    requires WV(n1, inp, cur1) == ShiftedLeft(WV(n0, inp, a), ToNat(WV(n0, inp, b[..k])))
    requires WV(n2, inp, cur) == if LV(n1, inp, b[k]) then ShiftedLeft(WV(n1, inp, cur1), Pow2(k)) else WV(n1, inp, cur1)
    ensures WV(n2, inp, cur) == ShiftedLeft(WV(n0, inp, a), ToNat(WV(n0, inp, b[..k + 1])))
  {
    hide ToNat, Pow2, ShiftedLeft, Wf;
    assert LV(n1, inp, b[k]) == LV(n0, inp, b[k]);
    AmountStep(n0, inp, b, k);
    ShiftedLeftTwice(WV(n0, inp, a), ToNat(WV(n0, inp, b[..k])), Pow2(k));
  }

  /** All the stages: a shift by the low amount bits. */
  method RightStages(aig: Aig, a: Word, b: Word, stages: nat, fill: Lit) returns (cur: Word)
    requires Wf(aig.nodes) && AllIn(aig.nodes, a) && AllIn(aig.nodes, b) && In(aig.nodes, fill) && stages <= |b|
    modifies aig
    ensures Gates(old(aig.nodes), aig.nodes) && |aig.nodes| == |old(aig.nodes)| + Rounds(3 * |a|, stages)
    ensures |cur| == |a| && AllIn(aig.nodes, cur)
    ensures (aig.nodes, cur) == G.BarrelOf(old(aig.nodes), G.Right(fill), a, b, stages)
    ensures forall inp :: WV(aig.nodes, inp, cur) ==
              ShiftedRight(WV(old(aig.nodes), inp, a), ToNat(WV(old(aig.nodes), inp, b[..stages])),
                           LV(old(aig.nodes), inp, fill))
  {
    hide ToNat, Pow2, ShiftedRight, Rounds, Wf, G.BarrelOf, G.IteOf;
    ghost var n0 := aig.nodes;
    cur := a;
    G.BarrelNone(n0, G.Right(fill), a, b);
    RoundsStep(3 * |a|, 0);
    forall inp
      ensures WV(n0, inp, a) == ShiftedRight(WV(n0, inp, a), ToNat(WV(n0, inp, b[..0])), LV(n0, inp, fill))
    {
      NoAmount(WV(n0, inp, b[..0]));
      ShiftedExtremes(WV(n0, inp, a), 0, LV(n0, inp, fill));
    }
    for k := 0 to stages
      invariant Gates(n0, aig.nodes) && |aig.nodes| == |n0| + Rounds(3 * |a|, k)
      invariant |cur| == |a| && AllIn(aig.nodes, cur)
      invariant (aig.nodes, cur) == G.BarrelOf(n0, G.Right(fill), a, b, k)
      invariant forall inp :: WV(aig.nodes, inp, cur) ==
                  ShiftedRight(WV(n0, inp, a), ToNat(WV(n0, inp, b[..k])), LV(n0, inp, fill))
    {
      ghost var n1, cur1 := aig.nodes, cur;
      G.BarrelNext(n0, G.Right(fill), a, b, k);
      cur := BarrelRightStage(aig, cur, b[k], Pow2(k), fill);
      forall inp ensures WV(aig.nodes, inp, cur) ==
                  ShiftedRight(WV(n0, inp, a), ToNat(WV(n0, inp, b[..k + 1])), LV(n0, inp, fill))
      {
        RightRound(n0, n1, aig.nodes, inp, a, b, k, fill, cur1, cur);
      }
      RoundsStep(3 * |a|, k);
    }
  }

  method LeftStages(aig: Aig, a: Word, b: Word, stages: nat) returns (cur: Word)
    requires Wf(aig.nodes) && AllIn(aig.nodes, a) && AllIn(aig.nodes, b) && stages <= |b|
    modifies aig
    ensures Gates(old(aig.nodes), aig.nodes) && |aig.nodes| == |old(aig.nodes)| + Rounds(3 * |a|, stages)
    ensures |cur| == |a| && AllIn(aig.nodes, cur)
    ensures (aig.nodes, cur) == G.BarrelOf(old(aig.nodes), G.Left, a, b, stages)
    ensures forall inp :: WV(aig.nodes, inp, cur) ==
              ShiftedLeft(WV(old(aig.nodes), inp, a), ToNat(WV(old(aig.nodes), inp, b[..stages])))
  {
    hide ToNat, Pow2, ShiftedLeft, Rounds, Wf, G.BarrelOf, G.IteOf;
    ghost var n0 := aig.nodes;
    cur := a;
    G.BarrelNone(n0, G.Left, a, b);
    RoundsStep(3 * |a|, 0);
    forall inp ensures WV(n0, inp, a) == ShiftedLeft(WV(n0, inp, a), ToNat(WV(n0, inp, b[..0]))) {
      NoAmount(WV(n0, inp, b[..0]));
      ShiftedExtremes(WV(n0, inp, a), 0, false);
    }
    for k := 0 to stages
      invariant Gates(n0, aig.nodes) && |aig.nodes| == |n0| + Rounds(3 * |a|, k)
      invariant |cur| == |a| && AllIn(aig.nodes, cur)
      invariant (aig.nodes, cur) == G.BarrelOf(n0, G.Left, a, b, k)
      invariant forall inp :: WV(aig.nodes, inp, cur) == ShiftedLeft(WV(n0, inp, a), ToNat(WV(n0, inp, b[..k])))
    {
      ghost var n1, cur1 := aig.nodes, cur;
      G.BarrelNext(n0, G.Left, a, b, k);
      cur := BarrelLeftStage(aig, cur, b[k], Pow2(k));
      forall inp
        ensures WV(aig.nodes, inp, cur) == ShiftedLeft(WV(n0, inp, a), ToNat(WV(n0, inp, b[..k + 1])))
      {
        LeftRound(n0, n1, aig.nodes, inp, a, b, k, cur1, cur);
      }
      RoundsStep(3 * |a|, k);
    }
  }

  /** Every bit becomes fill when the amount is out of the stages' range. */
  method OrFill(aig: Aig, cur: Word, b: Word, stages: nat, fill: Lit) returns (out: Word)
    requires Wf(aig.nodes) && AllIn(aig.nodes, cur) && AllIn(aig.nodes, b) && In(aig.nodes, fill)
    requires |cur| == |b| && stages <= |b| <= Pow2(stages)
    modifies aig
    ensures Gates(old(aig.nodes), aig.nodes) && |aig.nodes| <= |old(aig.nodes)| + 4 * |b|
    ensures |out| == |cur| && AllIn(aig.nodes, out)
    ensures (aig.nodes, out) == G.BeyondOf(old(aig.nodes), cur, b, stages, fill)
    ensures forall inp :: WV(aig.nodes, inp, out) ==
              if ToNat(WV(old(aig.nodes), inp, b[stages..])) == 0 then WV(old(aig.nodes), inp, cur)
              else Fill(LV(old(aig.nodes), inp, fill), |b|)
  {
    hide ToNat, Pow2, Wf, G.IteOf, G.AnyOf;
    ghost var n0 := aig.nodes;
    var oor := OutOfRange(aig, b, stages);
    ghost var n1 := aig.nodes;
    var fills := seq(|b|, i => fill);
    assert fills == G.Same(fill, |b|);
    out := BlastIte(aig, oor, fills, cur);
    forall inp ensures WV(aig.nodes, inp, out) ==
              if ToNat(WV(n0, inp, b[stages..])) == 0 then WV(n0, inp, cur) else Fill(LV(n0, inp, fill), |b|)
    {
      assert LV(n1, inp, fill) == LV(n0, inp, fill);
      assert WV(n1, inp, cur) == WV(n0, inp, cur);
      assert WV(n1, inp, fills) == Fill(LV(n0, inp, fill), |b|);
    }
  }

  method BarrelRight(aig: Aig, a: Word, b: Word, fill: Lit) returns (out: Word)
    requires Wf(aig.nodes) && AllIn(aig.nodes, a) && AllIn(aig.nodes, b) && |a| == |b| > 0 && In(aig.nodes, fill)
    modifies aig
    ensures Gates(old(aig.nodes), aig.nodes) && |aig.nodes| <= |old(aig.nodes)| + 3 * (|a| * |a|) + 4 * |a|
    ensures |out| == |a| && AllIn(aig.nodes, out)
    ensures (aig.nodes, out) == G.ShiftOf(old(aig.nodes), G.Right(fill), a, b)
    ensures forall inp :: WV(aig.nodes, inp, out) ==
              ShiftedRight(WV(old(aig.nodes), inp, a), ToNat(WV(old(aig.nodes), inp, b)), LV(old(aig.nodes), inp, fill))
  {
    hide ToNat, Pow2, ShiftedRight, Rounds, Wf, G.BarrelOf, G.BeyondOf;
    ghost var n0 := aig.nodes;
    var stages, _ := StageCount(|a|);
    var cur := RightStages(aig, a, b, stages, fill);
    ghost var n1 := aig.nodes;
    RoundsBound(3, |a|, stages);
    out := OrFill(aig, cur, b, stages, fill);
    forall inp ensures WV(aig.nodes, inp, out) ==
              ShiftedRight(WV(n0, inp, a), ToNat(WV(n0, inp, b)), LV(n0, inp, fill))
    {
      AmountSplit(n0, inp, b, stages);
      ShiftedExtremes(WV(n0, inp, a), ToNat(WV(n0, inp, b)), LV(n0, inp, fill));
      assert WV(n1, inp, b[stages..]) == WV(n0, inp, b[stages..]);
      assert LV(n1, inp, fill) == LV(n0, inp, fill);
    }
  }

  method BlastShl(aig: Aig, a: Word, b: Word) returns (out: Word)
    requires Wf(aig.nodes) && AllIn(aig.nodes, a) && AllIn(aig.nodes, b) && |a| == |b| > 0
    modifies aig
    ensures Gates(old(aig.nodes), aig.nodes) && |aig.nodes| <= |old(aig.nodes)| + 3 * (|a| * |a|) + 4 * |a|
    ensures |out| == |a| && AllIn(aig.nodes, out)
    ensures (aig.nodes, out) == G.ShiftOf(old(aig.nodes), G.Left, a, b)
    ensures forall inp :: WV(aig.nodes, inp, out) == BvShl(WV(old(aig.nodes), inp, a), WV(old(aig.nodes), inp, b))
  {
    hide ToNat, Pow2, ShiftedLeft, FromInt, Rounds, Wf, NodeValue, G.BarrelOf, G.BeyondOf;
    ghost var n0 := aig.nodes;
    var stages, _ := StageCount(|a|);
    var cur := LeftStages(aig, a, b, stages);
    ghost var n1 := aig.nodes;
    RoundsBound(3, |a|, stages);
    ConstLits(n1, []);
    out := OrFill(aig, cur, b, stages, LIT_FALSE);
    forall inp ensures WV(aig.nodes, inp, out) == BvShl(WV(n0, inp, a), WV(n0, inp, b)) {
      var A, amount := WV(n0, inp, a), ToNat(WV(n0, inp, b));
      AmountSplit(n0, inp, b, stages);
      ShiftedLeftValue(A, amount);
      ShiftedExtremes(A, amount, false);
      ConstLits(n1, inp);
      assert WV(n1, inp, b[stages..]) == WV(n0, inp, b[stages..]);
    }
  }

  method BlastLshr(aig: Aig, a: Word, b: Word) returns (out: Word)
    requires Wf(aig.nodes) && AllIn(aig.nodes, a) && AllIn(aig.nodes, b) && |a| == |b| > 0
    modifies aig
    ensures Gates(old(aig.nodes), aig.nodes) && |aig.nodes| <= |old(aig.nodes)| + 3 * (|a| * |a|) + 4 * |a|
    ensures |out| == |a| && AllIn(aig.nodes, out)
    ensures (aig.nodes, out) == G.ShiftOf(old(aig.nodes), G.Right(LIT_FALSE), a, b)
    ensures forall inp :: WV(aig.nodes, inp, out) == BvLshr(WV(old(aig.nodes), inp, a), WV(old(aig.nodes), inp, b))
  {
    ghost var n0 := aig.nodes;
    out := BarrelRight(aig, a, b, LIT_FALSE);
    forall inp ensures WV(aig.nodes, inp, out) == BvLshr(WV(n0, inp, a), WV(n0, inp, b)) {
      ConstLits(n0, inp);
      LshrValue(WV(n0, inp, a), WV(n0, inp, b));
    }
  }

  method BlastAshr(aig: Aig, a: Word, b: Word) returns (out: Word)
    requires Wf(aig.nodes) && AllIn(aig.nodes, a) && AllIn(aig.nodes, b) && |a| == |b| > 0
    modifies aig
    ensures Gates(old(aig.nodes), aig.nodes) && |aig.nodes| <= |old(aig.nodes)| + 3 * (|a| * |a|) + 4 * |a|
    ensures |out| == |a| && AllIn(aig.nodes, out)
    ensures (aig.nodes, out) == G.ShiftOf(old(aig.nodes), G.Right(a[|a| - 1]), a, b)
    ensures forall inp :: WV(aig.nodes, inp, out) == BvAshr(WV(old(aig.nodes), inp, a), WV(old(aig.nodes), inp, b))
  {
    ghost var n0 := aig.nodes;
    out := BarrelRight(aig, a, b, a[|a| - 1]);
    forall inp ensures WV(aig.nodes, inp, out) == BvAshr(WV(n0, inp, a), WV(n0, inp, b)) {
      AshrValue(WV(n0, inp, a), WV(n0, inp, b));
      assert LV(n0, inp, a[|a| - 1]) == Msb(WV(n0, inp, a));
    }
  }
}
