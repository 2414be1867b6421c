/** Bit-blasting rules: rotation by a word amount, at power-of-two widths and
    at all others. */
module BlastRotate {
  import opened Bits
  import opened BvOps
  import opened AigGraph
  import G = GateList
  import opened BlastArith
  import opened BlastShift
  import opened BlastMulDiv

  // ---------- rotation ----------

  /** The residue of u modulo w, named so that proofs can keep it closed. */
  function Mod(u: int, w: int): (m: nat)
    requires w > 0
    ensures m < w
  {
    u % w
  }

  /** Bit i of the rotation by n is bit i + n, cyclically. */
  function Rotated(x: Bv, n: nat): (y: Bv)
    ensures |y| == |x|
  {
    seq(|x|, i requires 0 <= i < |x| => x[Mod(i + n, |x|)])
  }

  lemma ModOnce(v: int, w: int)
    requires w > 0
    ensures 0 <= v < w ==> Mod(v, w) == v
    ensures w <= v < 2 * w ==> Mod(v, w) == v - w
  {
    if 0 <= v < w { DivModUnique(v, w, 0, v); }
    if w <= v < 2 * w { DivModUnique(v, w, 1, v - w); }
  }

  /** Reducing a summand first does not change a sum modulo w. */
  lemma ModPlus(u: int, n: int, w: int)
    requires w > 0
    ensures Mod(Mod(u, w) + n, w) == Mod(u + n, w)
  {
    assert u == u / w * w + u % w;
    ModAddMul(u % w + n, u / w, w);
  }

  lemma RotatedAt(x: Bv, n: nat, i: nat)
    requires i < |x|
    ensures Rotated(x, n)[i] == x[Mod(i + n, |x|)]
  {
  }

  lemma RotatedTwice(x: Bv, m: nat, n: nat)
    requires |x| > 0
    ensures Rotated(Rotated(x, m), n) == Rotated(x, m + n)
  {
    var y := Rotated(x, m);
    forall i | 0 <= i < |x| ensures Rotated(y, n)[i] == Rotated(x, m + n)[i] {
      hide Rotated, Mod;
      RotatedAt(y, n, i);
      RotatedAt(x, m, Mod(i + n, |x|));
      RotatedAt(x, m + n, i);
      ModPlus(i + n, m, |x|);
    }
  }

  lemma RotatedIsRotateRight(x: Bv, n: nat, k: nat)
    requires |x| > 0 && k <= |x| && Mod(n, |x|) == Mod(k, |x|)
    ensures Rotated(x, n) == RotateRight(x, k)
  {
    var w := |x|;
    forall i | 0 <= i < w ensures Rotated(x, n)[i] == RotateRight(x, k)[i] {
      hide Rotated, Mod;
      RotatedAt(x, n, i);
      ModPlus(n, i, w);
      ModPlus(k, i, w);
      ModOnce(i + k, w);
    }
  }

  /** One gated rotation stage. */
  method RotrStage(aig: Aig, cur: Word, sel: Lit, s: nat) returns (next: Word)
    requires Wf(aig.nodes) && AllIn(aig.nodes, cur) && In(aig.nodes, sel) && |cur| > 0
    modifies aig
    ensures Gates(old(aig.nodes), aig.nodes) && |aig.nodes| == |old(aig.nodes)| + 3 * |cur|
    ensures |next| == |cur| && AllIn(aig.nodes, next)
    ensures (aig.nodes, next) == G.IteOf(old(aig.nodes), sel, G.Turned(cur, s), cur, |cur|)
    ensures forall inp :: WV(aig.nodes, inp, next) ==
              if LV(old(aig.nodes), inp, sel) then Rotated(WV(old(aig.nodes), inp, cur), s)
              else WV(old(aig.nodes), inp, cur)
  {
    ghost var n0 := aig.nodes;
    var w := |cur|;
    var moved := seq(w, i requires 0 <= i < w => cur[Mod(i + s, w)]);
    forall i | 0 <= i < w
      ensures In(n0, moved[i]) && moved[i] == cur[Mod(i + s, w)]
    {
      assert In(n0, cur[Mod(i + s, w)]);
    }
    assert moved == G.Turned(cur, s);
    hide G.IteOf;
    next := BlastIte(aig, sel, moved, cur);
    forall inp ensures WV(n0, inp, moved) == Rotated(WV(n0, inp, cur), s) {
      forall i | 0 <= i < w ensures WV(n0, inp, moved)[i] == Rotated(WV(n0, inp, cur), s)[i] {
        RotatedAt(WV(n0, inp, cur), s, i);
      }
    }
  }

  /** One stage, under one input assignment. */
  lemma RotrRound(n0: Nodes, n1: Nodes, n2: Nodes, inp: seq<bool>, a: Word, amount: Word, k: nat, cur1: Word, cur: Word)
    requires Extends(n0, n1) && k < |amount| && In(n0, amount[k]) && |a| > 0
    requires WV(n1, inp, cur1) == Rotated(WV(n0, inp, a), ToNat(WV(n0, inp, amount[..k])))
    requires WV(n2, inp, cur) ==
             if LV(n1, inp, amount[k]) then Rotated(WV(n1, inp, cur1), Pow2(k)) else WV(n1, inp, cur1)
    ensures WV(n2, inp, cur) == Rotated(WV(n0, inp, a), ToNat(WV(n0, inp, amount[..k + 1])))
  {
    hide ToNat, Pow2, Rotated;
    assert LV(n1, inp, amount[k]) == LV(n0, inp, amount[k]);
    AmountStep(n0, inp, amount, k);
    RotatedTwice(WV(n0, inp, a), ToNat(WV(n0, inp, amount[..k])), Pow2(k));
  }

  method RotrStages(aig: Aig, a: Word, amount: Word, stages: nat) returns (cur: Word)
    requires Wf(aig.nodes) && AllIn(aig.nodes, a) && AllIn(aig.nodes, amount) && |a| > 0 && stages <= |amount|
    modifies aig
    ensures Gates(old(aig.nodes), aig.nodes) && |aig.nodes| == |old(aig.nodes)| + Rounds(3 * |a|, stages)
    ensures |cur| == |a| && AllIn(aig.nodes, cur)
    ensures (aig.nodes, cur) == G.BarrelOf(old(aig.nodes), G.Turn, a, amount, stages)
    ensures forall inp :: WV(aig.nodes, inp, cur) ==
              Rotated(WV(old(aig.nodes), inp, a), ToNat(WV(old(aig.nodes), inp, amount[..stages])))
  {
    hide ToNat, Pow2, Rotated, Rounds, Mod, Wf, G.BarrelOf, G.IteOf;
    ghost var n0 := aig.nodes;
    cur := a;
    G.BarrelNone(n0, G.Turn, a, amount);
    RoundsStep(3 * |a|, 0);
    forall inp ensures WV(n0, inp, a) == Rotated(WV(n0, inp, a), ToNat(WV(n0, inp, amount[..0]))) {
      NoAmount(WV(n0, inp, amount[..0]));
      RotatedZero(WV(n0, inp, a));
    }
    for k := 0 to stages
      invariant Gates(n0, aig.nodes) && |aig.nodes| == |n0| + Rounds(3 * |a|, k)
      invariant |cur| == |a| && AllIn(aig.nodes, cur)
      invariant (aig.nodes, cur) == G.BarrelOf(n0, G.Turn, a, amount, k)
      invariant forall inp :: WV(aig.nodes, inp, cur) ==
                  Rotated(WV(n0, inp, a), ToNat(WV(n0, inp, amount[..k])))
    {
      ghost var n1, cur1 := aig.nodes, cur;
      G.BarrelNext(n0, G.Turn, a, amount, k);
      cur := RotrStage(aig, cur, amount[k], Pow2(k));
      RoundsStep(3 * |a|, k);
      forall inp
        ensures WV(aig.nodes, inp, cur) == Rotated(WV(n0, inp, a), ToNat(WV(n0, inp, amount[..k + 1])))
      {
        RotrRound(n0, n1, aig.nodes, inp, a, amount, k, cur1, cur);
      }
    }
  }

  lemma RotatedZero(x: Bv)
    requires |x| > 0
    ensures Rotated(x, 0) == x
  {
    forall i | 0 <= i < |x| ensures Rotated(x, 0)[i] == x[i] { ModOnce(i, |x|); }
  }

  /** The low stages of the amount are all that rotation sees: exactly so at
      a power-of-two width, or when the amount is below the width. */
  lemma AmountModWidth(B: Bv, w: nat, stages: nat)
    requires stages <= |B| && 0 < w <= Pow2(stages) && (w == Pow2(stages) || ToNat(B) < w)
    ensures Mod(ToNat(B[..stages]), w) == Mod(ToNat(B), w)
  {
    hide ToNat, Pow2;
    if w == Pow2(stages) {
      ToNatCut(B, stages);
      ToNatBound(B[..stages]);
      ModOnce(ToNat(B[..stages]), w);
    } else {
      ToNatHigh(B, stages);
    }
  }

  lemma WidthConstant(w: nat, v: nat)
    requires v <= w
    ensures ToNat(FromInt(v, w)) == v
  {
    ToNatFromInt(v, w);
    Pow2Big(w);
    SmallDiv(v, Pow2(w));
  }

  lemma UremValue(B: Bv, w: nat)
    requires |B| == w > 0
    ensures ToNat(BvUrem(B, FromInt(w, w))) == Mod(ToNat(B), w)
  {
    hide ToNat, Pow2, FromInt;
    WidthConstant(w, w);
    var r := Mod(ToNat(B), w);
    WidthConstant(w, r);
  }

  lemma RotateByMod(A: Bv, B: Bv)
    requires |A| > 0
    ensures BvRotr(A, B) == RotateRight(A, Mod(ToNat(B), |A|))
    ensures BvRotl(A, B) == RotateRight(A, |A| - Mod(ToNat(B), |A|))
  {
    hide ToNat, RotateRight;
  }

  method BlastRotr(aig: Aig, a: Word, b: Word) returns (out: Word)
    requires Wf(aig.nodes) && AllIn(aig.nodes, a) && AllIn(aig.nodes, b) && |a| == |b| > 0
    modifies aig
    ensures Gates(old(aig.nodes), aig.nodes) && |aig.nodes| <= |old(aig.nodes)| + 25 * (|a| * |a|) + 17 * |a|
    ensures |out| == |a| && AllIn(aig.nodes, out)
    ensures (aig.nodes, out) == G.RotrOf(old(aig.nodes), a, b)
    ensures forall inp :: WV(aig.nodes, inp, out) == BvRotr(WV(old(aig.nodes), inp, a), WV(old(aig.nodes), inp, b))
  {
    hide ToNat, Pow2, FromInt, Rotated, Rounds, RotateRight, BvUrem, BvRotr, Mod, Wf, G.BarrelOf, G.UremOf, G.Stages;
    ghost var n0 := aig.nodes;
    var w := |a|;
    var stages, pow2 := StageCount(w);
    RoundsBound(3, w, stages);
    var amount := b;
    if !pow2 {
      var modulus := WordConst(w, w);
      amount := BlastUrem(aig, b, modulus);
      assert forall inp :: WV(n0, inp, modulus) == FromInt(w, w);
    }
    ghost var n1 := aig.nodes;
    out := RotrStages(aig, a, amount, stages);
    forall inp ensures WV(aig.nodes, inp, out) == BvRotr(WV(n0, inp, a), WV(n0, inp, b)) {
      var A, B, M := WV(n0, inp, a), WV(n0, inp, b), WV(n1, inp, amount);
      assert WV(n1, inp, a) == A && M[..stages] == WV(n1, inp, amount[..stages]);
      UremValue(B, w);
      ModOnce(Mod(ToNat(B), w), w);
      AmountModWidth(M, w, stages);
      RotatedIsRotateRight(A, ToNat(M[..stages]), Mod(ToNat(B), w));
      RotateByMod(A, B);
    }
  }

  /** Reducing modulo a multiple of w first does not change a residue mod w. */
  lemma ModOfMultiple(u: int, k: int, w: int)
    requires w > 0 && k > 0
    ensures k * w > 0 && u % (k * w) % w == u % w
  {
    MulMono(1, k, w);
    var q := u / (k * w);
    assert u == q * (k * w) + u % (k * w);
    MulAssoc(q, k, w);
    ModAddMul(u % (k * w), q * k, w);
  }

  lemma NegMod(b: nat, w: nat)
    requires w > 0
    ensures (0 - b) % w == Mod(w - Mod(b, w), w)
  {
    assert b == b / w * w + b % w;
    MulDist(w, b / w, 1);
    assert w - b % w == (0 - b) + (b / w + 1) * w;
    ModAddMul(0 - b, b / w + 1, w);
  }

  lemma NegModWidth(b: nat, w: nat, stages: nat)
    requires w == Pow2(stages) && stages < w
    ensures Mod((0 - b) % Pow2(w), w) == Mod(w - Mod(b, w), w)
  {
    hide Pow2;
    Pow2Add(w - stages, stages);
    ModOfMultiple(0 - b, Pow2(w - stages), w);
    NegMod(b, w);
  }

  lemma NegatedAmount(B: Bv, w: nat, stages: nat)
    requires |B| == w == Pow2(stages) && stages < w
    ensures Mod(ToNat(BvSub(FromInt(0, w), B)), w) == Mod(w - Mod(ToNat(B), w), w)
  {
    hide ToNat, FromInt, Pow2, Mod;
    ZeroValue(w);
    ToNatFromInt(0 - ToNat(B), w);
    NegModWidth(ToNat(B), w, stages);
  }

  /** The explicit amount at a width that is not a power of two. */
  lemma ReducedAmount(B: Bv, D: Bv, w: nat)
    requires |B| == w > 0
    requires D == BvSub(FromInt(w, w), BvUrem(B, FromInt(w, w)))
    ensures Mod(ToNat(BvUrem(D, FromInt(w, w))), w) == Mod(w - Mod(ToNat(B), w), w)
  {
    hide *;
    UremValue(B, w);
    WidthConstant(w, w);
    BvSubValue(FromInt(w, w), BvUrem(B, FromInt(w, w)));
    UremValue(D, w);
    ModOnce(Mod(w - Mod(ToNat(B), w), w), w);
  }

  /** At any width, the amount a left rotation hands to the right rotation. */
  lemma LeftByRight(A: Bv, B: Bv, M: Bv)
    requires |A| == |B| == |M| > 0 && Mod(ToNat(M), |A|) == Mod(|A| - Mod(ToNat(B), |A|), |A|)
    ensures BvRotr(A, M) == BvRotl(A, B)
  {
    hide ToNat, Rotated, Mod, BvRotr, BvRotl, RotateRight;
    var w, k := |A|, |A| - Mod(ToNat(B), |A|);
    ModOnce(Mod(ToNat(M), w), w);
    RotatedIsRotateRight(A, ToNat(M), Mod(ToNat(M), w));
    RotatedIsRotateRight(A, ToNat(M), k);
    RotateByMod(A, M);
    RotateByMod(A, B);
  }

  method BlastRotl(aig: Aig, a: Word, b: Word) returns (out: Word)
    requires Wf(aig.nodes) && AllIn(aig.nodes, a) && AllIn(aig.nodes, b) && |a| == |b| > 0
    modifies aig
    ensures Gates(old(aig.nodes), aig.nodes) && |aig.nodes| <= |old(aig.nodes)| + 69 * (|a| * |a|) + 60 * |a|
    ensures |out| == |a| && AllIn(aig.nodes, out)
    ensures (aig.nodes, out) == G.RotlOf(old(aig.nodes), a, b)
    ensures forall inp :: WV(aig.nodes, inp, out) == BvRotl(WV(old(aig.nodes), inp, a), WV(old(aig.nodes), inp, b))
  {
    hide ToNat, Pow2, FromInt, BvUrem, BvRotr, BvRotl, Mod, Wf, G.RotrOf, G.LeftAmountOf;
    ghost var n0 := aig.nodes;
    var w := |a|;
    var amount := LeftAmount(aig, b);
    ghost var n1 := aig.nodes;
    out := BlastRotr(aig, a, amount);
    forall inp ensures WV(aig.nodes, inp, out) == BvRotl(WV(n0, inp, a), WV(n0, inp, b)) {
      assert WV(n1, inp, a) == WV(n0, inp, a);
      LeftByRight(WV(n0, inp, a), WV(n0, inp, b), WV(n1, inp, amount));
    }
  }

  method LeftAmountReduced(aig: Aig, b: Word) returns (amount: Word)
    requires Wf(aig.nodes) && AllIn(aig.nodes, b) && |b| > 0
    modifies aig
    ensures Gates(old(aig.nodes), aig.nodes) && |aig.nodes| <= |old(aig.nodes)| + 44 * (|b| * |b|) + 43 * |b|
    ensures |amount| == |b| && AllIn(aig.nodes, amount)
    ensures (aig.nodes, amount) == G.ReducedOf(old(aig.nodes), b)
    ensures forall inp :: Mod(ToNat(WV(aig.nodes, inp, amount)), |b|) ==
                          Mod(|b| - Mod(ToNat(WV(old(aig.nodes), inp, b)), |b|), |b|)
  {
    hide ToNat, Pow2, FromInt, BvUrem, BvSub, Mod, Wf, NodeValue, G.UremOf, G.SubOf;
    ghost var n0 := aig.nodes;
    var w := |b|;
    var modulus := WordConst(w, w);
    var diff := ReducedDiff(aig, b, modulus);
    ghost var n1 := aig.nodes;
    amount := BlastUrem(aig, diff, modulus);
    forall inp ensures Mod(ToNat(WV(aig.nodes, inp, amount)), w) == Mod(w - Mod(ToNat(WV(n0, inp, b)), w), w) {
      assert WV(n0, inp, modulus) == FromInt(w, w) == WV(n1, inp, modulus);
      ReducedAmount(WV(n0, inp, b), WV(n1, inp, diff), w);
    }
  }

  /** w - b mod w, for modulus the word of w. */
  method ReducedDiff(aig: Aig, b: Word, modulus: Word) returns (diff: Word)
    requires Wf(aig.nodes) && AllIn(aig.nodes, b) && AllIn(aig.nodes, modulus) && |modulus| == |b| > 0
    modifies aig
    ensures Gates(old(aig.nodes), aig.nodes) && |aig.nodes| <= |old(aig.nodes)| + 22 * (|b| * |b|) + 26 * |b|
    ensures |diff| == |b| && AllIn(aig.nodes, diff)
    ensures var r := G.UremOf(old(aig.nodes), b, modulus); (aig.nodes, diff) == G.FirstTwo(G.SubOf(r.0, modulus, r.1))
    ensures forall inp :: WV(aig.nodes, inp, diff) ==
              BvSub(WV(old(aig.nodes), inp, modulus), BvUrem(WV(old(aig.nodes), inp, b), WV(old(aig.nodes), inp, modulus)))
  {
    hide ToNat, Pow2, FromInt, BvUrem, BvSub, Wf, NodeValue, G.UremOf, G.SubOf;
    ghost var n0 := aig.nodes;
    var reduced := BlastUrem(aig, b, modulus);
    ghost var n1 := aig.nodes;
    diff := BlastSub(aig, modulus, reduced);
    forall inp ensures WV(aig.nodes, inp, diff) == BvSub(WV(n0, inp, modulus), BvUrem(WV(n0, inp, b), WV(n0, inp, modulus))) {
      assert WV(n1, inp, modulus) == WV(n0, inp, modulus);
    }
  }

  /** 0 - b at a power-of-two width, (w - b mod w) mod w elsewhere. */
  method LeftAmount(aig: Aig, b: Word) returns (amount: Word)
    requires Wf(aig.nodes) && AllIn(aig.nodes, b) && |b| > 0
    modifies aig
    ensures Gates(old(aig.nodes), aig.nodes) && |aig.nodes| <= |old(aig.nodes)| + 44 * (|b| * |b|) + 43 * |b|
    ensures |amount| == |b| && AllIn(aig.nodes, amount)
    ensures (aig.nodes, amount) == G.LeftAmountOf(old(aig.nodes), b)
    ensures forall inp :: Mod(ToNat(WV(aig.nodes, inp, amount)), |b|) ==
                          Mod(|b| - Mod(ToNat(WV(old(aig.nodes), inp, b)), |b|), |b|)
  {
    hide ToNat, Pow2, FromInt, BvUrem, BvSub, Mod, Wf, G.SubOf, G.ReducedOf, G.Stages;
    ghost var n0 := aig.nodes;
    var w := |b|;
    var stages, pow2 := StageCount(w);
    if pow2 {
      var zero := WordConst(0, w);
      amount := BlastSub(aig, zero, b);
      forall inp ensures Mod(ToNat(WV(aig.nodes, inp, amount)), w) == Mod(w - Mod(ToNat(WV(n0, inp, b)), w), w) {
        NegatedAmount(WV(n0, inp, b), w, stages);
      }
    } else {
      amount := LeftAmountReduced(aig, b);
    }
  }
}
