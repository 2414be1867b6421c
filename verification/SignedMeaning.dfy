/** The standard's bvsdiv and bvsrem, which are abbreviations over unsigned
    division, are truncating division and its remainder on two's complement
    integers; the one exception is the overflowing quotient. */
module SignedMeaning {
  import opened Bits
  import opened BvOps
  import opened BlastSigned

  function Abs(v: int): nat { if v < 0 then -v else v }

  /** Quotient and remainder of magnitudes, named so that proofs can keep
      them closed. */
  function Quot(a: nat, b: nat): nat
    requires b > 0
  { a / b }

  function Rest(a: nat, b: nat): nat
    requires b > 0
  { a % b }

  /** Division rounding towards zero. */
  function TruncDiv(x: int, y: int): int
    requires y != 0
  {
    if (x < 0) == (y < 0) then Quot(Abs(x), Abs(y)) else 0 - Quot(Abs(x), Abs(y))
  }

  /** The remainder left by TruncDiv. */
  function TruncRem(x: int, y: int): int
    requires y != 0
  {
    if x < 0 then 0 - Rest(Abs(x), Abs(y)) else Rest(Abs(x), Abs(y))
  }

  lemma MsbValue(x: Bv)
    requires |x| > 0
    ensures Msb(x) <==> ToNat(x) >= Pow2(|x| - 1)
    ensures Pow2(|x|) == 2 * Pow2(|x| - 1)
  {
    var low := x[..|x| - 1];
    assert x == low + [x[|x| - 1]];
    ToNatSnoc(low, x[|x| - 1]);
    ToNatBound(low);
  }

  /** A wrapped number in the signed range is read back unchanged. */
  lemma ToIntFromInt(v: int, w: nat)
    requires w > 0 && -(Pow2(w - 1) as int) <= v < Pow2(w - 1)
    ensures ToInt(FromInt(v, w)) == v
  {
    hide ToNat, Pow2, FromInt, Msb;
    var x, P := FromInt(v, w), Pow2(w);
    ToNatFromInt(v, w);
    MsbValue(x);
    if v >= 0 { DivModUnique(v, P, 0, v); } else { DivModUnique(v, P, -1, v + P); }
  }

  lemma SignedRange(x: Bv)
    requires |x| > 0
    ensures -(Pow2(|x| - 1) as int) <= ToInt(x) < Pow2(|x| - 1)
    ensures Msb(x) <==> ToInt(x) < 0
    ensures ToInt(x) == 0 <==> ToNat(x) == 0
  {
    hide ToNat, Pow2, Msb;
    MsbValue(x);
    ToNatBound(x);
  }

  /** The magnitude's unsigned value is the absolute value, -2^(w-1) included. */
  lemma MagnitudeValue(x: Bv)
    requires |x| > 0
    ensures ToNat(NegIf(Msb(x), x)) == Abs(ToInt(x))
  {
    hide ToNat, Pow2, Msb, FromInt, NegIf;
    SignedRange(x);
    NegIfTrue(x);
    MsbValue(x);
    ToNatBound(x);
    if Msb(x) {
      ToNatFromInt(0 - ToNat(x), |x|);
      DivModUnique(0 - ToNat(x), Pow2(|x|), -1, Pow2(|x|) - ToNat(x));
    }
  }

  lemma QuotientOfMagnitudes(A: Bv, B: Bv)
    requires |A| == |B| > 0 && ToInt(B) != 0
    ensures var x, y := ToInt(A), ToInt(B);
            && BvSdiv(A, B) == FromInt(TruncDiv(x, y), |A|)
            && BvSrem(A, B) == FromInt(TruncRem(x, y), |A|)
  {
    hide *;
    var x, y := ToInt(A), ToInt(B);
    var X, Y := NegIf(Msb(A), A), NegIf(Msb(B), B);
    SdivByMagnitudes(A, B);
    MagnitudeValue(A);
    MagnitudeValue(B);
    SignedRange(A);
    SignedRange(B);
    var q, r := UdivMagnitudes(X, Y, x, y);
    SignedResult(Msb(A) != Msb(B), q, |A|);
    SignedResult(Msb(A), r, |A|);
  }

  lemma UdivMagnitudes(X: Bv, Y: Bv, x: int, y: int) returns (q: nat, r: nat)
    requires y != 0 && ToNat(X) == Abs(x) && ToNat(Y) == Abs(y)
    ensures BvUdiv(X, Y) == FromInt(q, |X|) && TruncDiv(x, y) == if (x < 0) != (y < 0) then 0 - q else q
    ensures BvUrem(X, Y) == FromInt(r, |X|) && TruncRem(x, y) == if x < 0 then 0 - r else r
  {
    hide ToNat, FromInt, Quot, Rest, BvUdiv, BvUrem;
    UdivDef(X, Y);
    q, r := Quot(Abs(x), Abs(y)), Rest(Abs(x), Abs(y));
  }

  lemma UdivDef(X: Bv, Y: Bv)
    requires ToNat(Y) > 0
    ensures BvUdiv(X, Y) == FromInt(Quot(ToNat(X), ToNat(Y)), |X|)
    ensures BvUrem(X, Y) == FromInt(Rest(ToNat(X), ToNat(Y)), |X|)
  {
    hide ToNat, FromInt;
  }

  lemma SignedResult(b: bool, q: nat, w: nat)
    ensures NegIf(b, FromInt(q, w)) == FromInt(if b then 0 - q else q, w)
  {
    hide ToNat, FromInt, NegIf;
    NegIfFromInt(b, q, w);
  }

  /** bvsdiv truncates towards zero, except that -2^(w-1) / -1 wraps. */
  lemma SdivTruncates(A: Bv, B: Bv)
    requires |A| == |B| > 0 && ToInt(B) != 0
    ensures var x, y := ToInt(A), ToInt(B);
            if x == -(Pow2(|A| - 1) as int) && y == -1 then BvSdiv(A, B) == A
            else ToInt(BvSdiv(A, B)) == TruncDiv(x, y)
  {
    hide ToNat, FromInt, Msb, Pow2, BvSdiv;
    var x, y, H := ToInt(A), ToInt(B), Pow2(|A| - 1);
    SignedRange(A);
    QuotientOfMagnitudes(A, B);
    QuotientRange(x, y, H);
    if x == -(H as int) && y == -1 {
      MsbValue(A);
      FromIntToNat(A);
      assert ToNat(A) == H == TruncDiv(x, y);
    } else {
      ToIntFromInt(TruncDiv(x, y), |A|);
    }
  }

  lemma QuotientRange(x: int, y: int, H: nat)
    requires y != 0 && 0 - H <= x < H
    ensures if x == 0 - H && y == -1 then TruncDiv(x, y) == H else 0 - H <= TruncDiv(x, y) < H
  {
    var a, b := Abs(x), Abs(y);
    var q := a / b;
    assert a == q * b + a % b;
    if b == 1 {
      assert q == a;
    } else {
      if q > 0 { MulMono(2, b, q); }
      assert 2 * q <= a;
    }
  }

  /** bvsrem is the remainder of truncating division: it has the sign of the
      dividend and is smaller than the divisor. */
  lemma SremRemains(A: Bv, B: Bv)
    requires |A| == |B| > 0 && ToInt(B) != 0
    ensures var x, y, r := ToInt(A), ToInt(B), ToInt(BvSrem(A, B));
            && x == TruncDiv(x, y) * y + r
            && Abs(r) < Abs(y) && (r != 0 ==> (r < 0) == (x < 0))
  {
    hide ToNat, FromInt, Msb, Pow2, BvSrem, ToInt, TruncDiv, TruncRem;
    var x, y := ToInt(A), ToInt(B);
    SignedRange(A);
    SignedRange(B);
    QuotientOfMagnitudes(A, B);
    TruncRemainder(x, y);
    ToIntFromInt(TruncRem(x, y), |A|);
  }

  lemma TruncRemainder(x: int, y: int)
    requires y != 0
    ensures x == TruncDiv(x, y) * y + TruncRem(x, y)
    ensures Abs(TruncRem(x, y)) < Abs(y) && (TruncRem(x, y) != 0 ==> (TruncRem(x, y) < 0) == (x < 0))
  {
    var a, b := Abs(x), Abs(y);
    var q := a / b;
    assert a == q * b + a % b;
    if y < 0 {
      assert y == 0 - b;
      assert (0 - q) * y == q * b && q * y == 0 - q * b;
    }
  }
}
