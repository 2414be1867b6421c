/** Bit-blasting rules: the sign-mask signed division and the multiplicative
    signed remainder. */
module BlastSigned {
  import opened Bits
  import opened BvOps
  import opened AigGraph
  import G = GateList
  import opened BlastArith
  import opened BlastShift
  import opened BlastMulDiv
  import BlastRotate

  lemma SignMaskValue(A: Bv)
    requires |A| > 0
    ensures BvAshr(A, FromInt(|A| - 1, |A|)) == Fill(Msb(A), |A|)
  {
    hide *;
    BlastRotate.WidthConstant(|A|, |A| - 1);
    AshrValue(A, FromInt(|A| - 1, |A|));
    ShiftedToSign(A);
  }

  lemma ShiftedToSign(A: Bv)
    requires |A| > 0
    ensures ShiftedRight(A, |A| - 1, Msb(A)) == Fill(Msb(A), |A|)
  {
  }

  /** ashr by w - 1: all ones exactly for a negative word. */
  method SignMask(aig: Aig, a: Word) returns (out: Word)
    requires Wf(aig.nodes) && AllIn(aig.nodes, a) && |a| > 0
    modifies aig
    ensures Gates(old(aig.nodes), aig.nodes) && |aig.nodes| <= |old(aig.nodes)| + 3 * (|a| * |a|) + 4 * |a|
    ensures |out| == |a| && AllIn(aig.nodes, out) && (aig.nodes, out) == G.SignMaskOf(old(aig.nodes), a)
    ensures forall inp :: WV(aig.nodes, inp, out) == Fill(Msb(WV(old(aig.nodes), inp, a)), |a|)
  {
    hide ToNat, FromInt, Msb, BvAshr, Wf, G.ShiftOf;
    ghost var n0 := aig.nodes;
    var shift := WordConst(|a| - 1, |a|);
    out := BlastAshr(aig, a, shift);
    forall inp ensures WV(aig.nodes, inp, out) == Fill(Msb(WV(n0, inp, a)), |a|) {
      assert WV(n0, inp, shift) == FromInt(|a| - 1, |a|);
      SignMaskValue(WV(n0, inp, a));
    }
  }

  /** x negated exactly when b holds. */
  function NegIf(b: bool, x: Bv): (y: Bv)
    ensures |y| == |x|
  {
    if b then BvNeg(x) else x
  }

  /** (x ^ m) - m for an all-b mask m. */
  lemma NegIfByMask(b: bool, x: Bv)
    ensures BvSub(BvXor(x, Fill(b, |x|)), Fill(b, |x|)) == NegIf(b, x)
    ensures BvXor(Fill(b, |x|), x) == BvXor(x, Fill(b, |x|))
  {
    var w, m := |x|, Fill(b, |x|);
    ToNatFill(b, w);
    if b {
      assert BvXor(x, m) == Complement(x);
      ToNatComplement(x);
    } else {
      assert BvXor(x, m) == x;
      FromIntToNat(x);
    }
  }

  /** (x ^ mask) - mask, mask being all zeros or all ones; the mask is the
      first operand of the exclusive or on request. */
  method NegWord(aig: Aig, x: Word, mask: Word, maskFirst: bool) returns (out: Word)
    requires Wf(aig.nodes) && AllIn(aig.nodes, x) && AllIn(aig.nodes, mask) && |x| == |mask|
    modifies aig
    ensures Gates(old(aig.nodes), aig.nodes) && |aig.nodes| == |old(aig.nodes)| + 12 * |x|
    ensures |out| == |x| && AllIn(aig.nodes, out)
    ensures (aig.nodes, out) == if maskFirst then G.FlipOf(old(aig.nodes), mask, x, mask) else G.FlipOf(old(aig.nodes), x, mask, mask)
    ensures forall inp, b :: WV(old(aig.nodes), inp, mask) == Fill(b, |x|) ==>
              WV(aig.nodes, inp, out) == NegIf(b, WV(old(aig.nodes), inp, x))
  {
    hide ToNat, FromInt, NegIf, BvSub, Wf, G.SubOf, G.Bitwise;
    ghost var n0 := aig.nodes;
    var flipped;
    if maskFirst { flipped := BlastXor(aig, mask, x); } else { flipped := BlastXor(aig, x, mask); }
    ghost var n1 := aig.nodes;
    out := BlastSub(aig, flipped, mask);
    forall inp, b | WV(n0, inp, mask) == Fill(b, |x|)
      ensures WV(aig.nodes, inp, out) == NegIf(b, WV(n0, inp, x))
    {
      assert WV(n1, inp, mask) == WV(n0, inp, mask);
      NegIfByMask(b, WV(n0, inp, x));
    }
  }

  /** The standard's signed division, as an unsigned one between magnitudes. */
  lemma SdivByMagnitudes(A: Bv, B: Bv)
    ensures BvSdiv(A, B) == NegIf(Msb(A) != Msb(B), BvUdiv(NegIf(Msb(A), A), NegIf(Msb(B), B)))
    ensures BvSrem(A, B) == NegIf(Msb(A), BvUrem(NegIf(Msb(A), A), NegIf(Msb(B), B)))
  {
  }

  /** The sign mask and the magnitude of a word. */
  method Magnitude(aig: Aig, a: Word) returns (mask: Word, mag: Word)
    requires Wf(aig.nodes) && AllIn(aig.nodes, a) && |a| > 0
    modifies aig
    ensures Gates(old(aig.nodes), aig.nodes) && |aig.nodes| <= |old(aig.nodes)| + 3 * (|a| * |a|) + 16 * |a|
    ensures |mask| == |mag| == |a| && AllIn(aig.nodes, mask) && AllIn(aig.nodes, mag)
    ensures (aig.nodes, mask, mag) == G.MagnitudeOf(old(aig.nodes), a)
    ensures forall inp :: WV(aig.nodes, inp, mask) == Fill(Msb(WV(old(aig.nodes), inp, a)), |a|)
    ensures forall inp :: WV(aig.nodes, inp, mag) ==
                          NegIf(Msb(WV(old(aig.nodes), inp, a)), WV(old(aig.nodes), inp, a))
  {
    hide Msb, NegIf, Wf, G.SignMaskOf, G.FlipOf;
    ghost var n0 := aig.nodes;
    mask := SignMask(aig, a);
    ghost var n1 := aig.nodes;
    mag := NegWord(aig, a, mask, true);
    forall inp ensures WV(aig.nodes, inp, mag) == NegIf(Msb(WV(n0, inp, a)), WV(n0, inp, a)) {
      assert WV(n1, inp, a) == WV(n0, inp, a);
      assert WV(n1, inp, mask) == Fill(Msb(WV(n0, inp, a)), |a|);
    }
  }

  /** Divide the magnitudes, then negate the quotient iff the signs differ. */
  method SdivTail(aig: Aig, sa: Word, absA: Word, sb: Word, absB: Word) returns (out: Word)
    requires Wf(aig.nodes) && AllIn(aig.nodes, sa) && AllIn(aig.nodes, absA)
    requires AllIn(aig.nodes, sb) && AllIn(aig.nodes, absB) && |sa| == |absA| == |sb| == |absB| > 0
    modifies aig
    ensures Gates(old(aig.nodes), aig.nodes) && |aig.nodes| <= |old(aig.nodes)| + 12 * (|sa| * |sa|) + 23 * |sa|
    ensures |out| == |sa| && AllIn(aig.nodes, out)
    ensures (aig.nodes, out) == G.SdivTailOf(old(aig.nodes), sa, absA, sb, absB)
    ensures forall inp, x, y :: WV(old(aig.nodes), inp, sa) == Fill(x, |sa|) && WV(old(aig.nodes), inp, sb) == Fill(y, |sa|) ==>
              WV(aig.nodes, inp, out) ==
              NegIf(x != y, BvUdiv(WV(old(aig.nodes), inp, absA), WV(old(aig.nodes), inp, absB)))
  {
    hide NegIf, BvUdiv, Wf, G.UdivremOf, G.Bitwise, G.FlipOf;
    ghost var n0 := aig.nodes;
    var q := BlastUdiv(aig, absA, absB);
    ghost var n1 := aig.nodes;
    var rs := BlastXor(aig, sa, sb);
    ghost var n2 := aig.nodes;
    out := NegWord(aig, q, rs, false);
    forall inp, x, y | WV(n0, inp, sa) == Fill(x, |sa|) && WV(n0, inp, sb) == Fill(y, |sa|)
      ensures WV(aig.nodes, inp, out) == NegIf(x != y, BvUdiv(WV(n0, inp, absA), WV(n0, inp, absB)))
    {
      assert WV(n1, inp, sa) == WV(n0, inp, sa) && WV(n1, inp, sb) == WV(n0, inp, sb);
      assert BvXor(Fill(x, |sa|), Fill(y, |sa|)) == Fill(x != y, |sa|);
      assert WV(n2, inp, rs) == Fill(x != y, |sa|);
      assert WV(n2, inp, q) == WV(n1, inp, q);
    }
  }

  method BlastSdiv(aig: Aig, a: Word, b: Word) returns (out: Word)
    requires Wf(aig.nodes) && AllIn(aig.nodes, a) && AllIn(aig.nodes, b) && |a| == |b| > 0
    modifies aig
    ensures Gates(old(aig.nodes), aig.nodes) && |aig.nodes| <= |old(aig.nodes)| + 18 * (|a| * |a|) + 55 * |a|
    ensures |out| == |a| && AllIn(aig.nodes, out)
    ensures (aig.nodes, out) == G.SdivOf(old(aig.nodes), a, b)
    ensures forall inp :: WV(aig.nodes, inp, out) == BvSdiv(WV(old(aig.nodes), inp, a), WV(old(aig.nodes), inp, b))
  {
    hide Msb, NegIf, BvUdiv, BvSdiv, Wf, G.MagnitudeOf, G.SdivTailOf;
    ghost var n0 := aig.nodes;
    var sa, absA := Magnitude(aig, a);
    ghost var n1 := aig.nodes;
    var sb, absB := Magnitude(aig, b);
    ghost var n2 := aig.nodes;
    out := SdivTail(aig, sa, absA, sb, absB);
    forall inp ensures WV(aig.nodes, inp, out) == BvSdiv(WV(n0, inp, a), WV(n0, inp, b)) {
      var A, B := WV(n0, inp, a), WV(n0, inp, b);
      assert WV(n1, inp, b) == B;
      assert WV(n2, inp, sa) == WV(n1, inp, sa) && WV(n2, inp, absA) == WV(n1, inp, absA);
      SdivByMagnitudes(A, B);
    }
  }

  // ---------- signed remainder ----------

  function Sign(b: bool): int { if b then -1 else 1 }

  /** x is congruent to its magnitude under its sign. */
  lemma MagnitudeCongruent(b: bool, x: Bv) returns (k: int)
    ensures ToNat(x) == Sign(b) * ToNat(NegIf(b, x)) + k * Pow2(|x|)
  {
    hide *;
    k := 0;
    NegIfTrue(x);
    if b {
      var u, P := 0 - ToNat(x), Pow2(|x|);
      ToNatFromInt(u, |x|);
      assert u == u / P * P + u % P;
      k := 0 - u / P;
    }
  }

  lemma NegIfTrue(x: Bv)
    ensures NegIf(true, x) == FromInt(0 - ToNat(x), |x|) && NegIf(false, x) == x
    ensures Sign(true) == -1 && Sign(false) == 1
  {
  }

  lemma NegIfFromInt(b: bool, v: int, w: nat)
    ensures NegIf(b, FromInt(v, w)) == FromInt(Sign(b) * v, w)
  {
    hide *;
    NegIfTrue(FromInt(v, w));
    FromIntEarlySub(v, 0, w);
  }

  /** Wrapping a subtrahend early does not change a wrapped difference. */
  lemma FromIntEarlySub(u: int, d: int, w: nat)
    ensures FromInt(d - ToNat(FromInt(u, w)), w) == FromInt(d - u, w)
  {
    hide *;
    ToNatFromInt(u, w);
    assert u == u / Pow2(w) * Pow2(w) + u % Pow2(w);
    FromIntCongruent(d - u % Pow2(w), d - u, u / Pow2(w), w);
  }

  lemma MulDef(x: Bv, y: Bv) returns (m: int)
    ensures m == ToNat(x) * ToNat(y) && BvMul(x, y) == FromInt(m, |x|)
  {
    m := ToNat(x) * ToNat(y);
  }

  lemma SubWrapped(x: Bv, y: Bv, m: int)
    requires y == FromInt(m, |x|)
    ensures BvSub(x, y) == FromInt(ToNat(x) - m, |x|)
  {
    hide ToNat, FromInt;
    FromIntEarlySub(m, ToNat(x), |x|);
  }

  lemma SubMul(A: Bv, B: Bv, Q: Bv)
    requires |A| == |B| == |Q|
    ensures BvSub(A, BvMul(Q, B)) == FromInt(ToNat(A) - ToNat(Q) * ToNat(B), |A|)
  {
    hide *;
    var m := MulDef(Q, B);
    SubWrapped(A, BvMul(Q, B), m);
  }

  lemma SubProduct(a: int, b: int, u: int, w: nat)
    ensures FromInt(a - ToNat(FromInt(u, w)) * b, w) == FromInt(a - u * b, w)
  {
    hide *;
    var P := Pow2(w);
    ToNatFromInt(u, w);
    var q, r := u / P, u % P;
    assert u == q * P + r;
    MulDist(b, q * P, r);
    MulAssoc(b, q, P);
    FromIntCongruent(a - r * b, a - u * b, b * q, w);
  }

  lemma SremArith(a: int, b: int, x: int, y: int, z: int, p: bool, q: bool, i: int, j: int, P: int)
    requires a == Sign(p) * x + i * P && b == Sign(q) * y + j * P
    ensures a - Sign(p != q) * z * b == Sign(p) * (x - z * y) + (i - Sign(p != q) * z * j) * P
  {
    var s := Sign(p != q) * z;
    MulDist(s, Sign(q) * y, j * P);
    MulAssoc(s, j, P);
    MulDist(P, i, 0 - s * j);
    assert s * (Sign(q) * y) == Sign(p) * (z * y);
    MulDist(Sign(p), x, 0 - z * y);
  }

  /** a - (a sdiv b) * b is the signed remainder: the unsigned remainder of
      the magnitudes under the sign of the dividend, b = 0 included. */
  lemma SremIsMultiplicative(A: Bv, B: Bv)
    requires |A| == |B|
    ensures BvSub(A, BvMul(BvSdiv(A, B), B)) == BvSrem(A, B)
  {
    hide *;
    var w, p, q := |A|, Msb(A), Msb(B);
    var X, Y := NegIf(p, A), NegIf(q, B);
    var Q := BvUdiv(X, Y);
    var a: int, b: int, x: int, y: int, z: int := ToNat(A), ToNat(B), ToNat(X), ToNat(Y), ToNat(Q);
    SdivByMagnitudes(A, B);
    UremIsMultiplicative(X, Y);
    SubMul(X, Y, Q);
    NegIfFromInt(p, x - z * y, w);
    FromIntToNat(Q);
    NegIfFromInt(p != q, z, w);
    SubMul(A, B, BvSdiv(A, B));
    SubProduct(a, b, Sign(p != q) * z, w);
    var i := MagnitudeCongruent(p, A);
    var j := MagnitudeCongruent(q, B);
    SremArith(a, b, x, y, z, p, q, i, j, Pow2(w));
    FromIntCongruent(a - Sign(p != q) * z * b, Sign(p) * (x - z * y), i - Sign(p != q) * z * j, w);
  }

  method BlastSrem(aig: Aig, a: Word, b: Word) returns (out: Word)
    requires Wf(aig.nodes) && AllIn(aig.nodes, a) && AllIn(aig.nodes, b) && |a| == |b| > 0
    modifies aig
    ensures Gates(old(aig.nodes), aig.nodes) && |aig.nodes| <= |old(aig.nodes)| + 28 * (|a| * |a|) + 64 * |a|
    ensures |out| == |a| && AllIn(aig.nodes, out)
    ensures (aig.nodes, out) == G.SremOf(old(aig.nodes), a, b)
    ensures forall inp :: WV(aig.nodes, inp, out) == BvSrem(WV(old(aig.nodes), inp, a), WV(old(aig.nodes), inp, b))
  {
    hide ToNat, FromInt, BvSdiv, BvSrem, BvMul, BvSub, Wf, G.SdivOf, G.MulOf, G.SubOf;
    ghost var n0 := aig.nodes;
    var q := BlastSdiv(aig, a, b);
    ghost var n1 := aig.nodes;
    var prod := BlastMul(aig, q, b);
    ghost var n2 := aig.nodes;
    out := BlastSub(aig, a, prod);
    forall inp ensures WV(aig.nodes, inp, out) == BvSrem(WV(n0, inp, a), WV(n0, inp, b)) {
      SremIsMultiplicative(WV(n0, inp, a), WV(n0, inp, b));
      assert WV(n1, inp, b) == WV(n0, inp, b) && WV(n2, inp, a) == WV(n0, inp, a);
    }
  }
}
