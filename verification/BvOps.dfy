/** The bitvector operations as the SMT-LIB theory FixedSizeBitVectors and the
    extensions of logic QF_BV define them: by unsigned value, by bit, or by
    the standard's own abbreviation.  Operands of one operation have one
    width; a missing bit reads as false. */
module BvOps {
  import opened Bits

  function Bit(x: Bv, i: nat): bool { i < |x| && x[i] }

  function Msb(x: Bv): bool { |x| > 0 && x[|x| - 1] }

  /** The two's complement value. */
  function ToInt(x: Bv): int { if Msb(x) then ToNat(x) - Pow2(|x|) else ToNat(x) }

  function BvAnd(x: Bv, y: Bv): (z: Bv)
    ensures |z| == |x| && forall i :: 0 <= i < |x| ==> z[i] == (x[i] && Bit(y, i))
  { seq(|x|, i requires 0 <= i < |x| => x[i] && Bit(y, i)) }

  function BvOr(x: Bv, y: Bv): (z: Bv)
    ensures |z| == |x| && forall i :: 0 <= i < |x| ==> z[i] == (x[i] || Bit(y, i))
  { seq(|x|, i requires 0 <= i < |x| => x[i] || Bit(y, i)) }

  function BvXor(x: Bv, y: Bv): (z: Bv)
    ensures |z| == |x| && forall i :: 0 <= i < |x| ==> z[i] == (x[i] != Bit(y, i))
  { seq(|x|, i requires 0 <= i < |x| => x[i] != Bit(y, i)) }

  function BvAdd(x: Bv, y: Bv): (z: Bv)
    ensures |z| == |x|
  { FromInt(ToNat(x) + ToNat(y), |x|) }

  function BvSub(x: Bv, y: Bv): (z: Bv)
    ensures |z| == |x|
  { FromInt(ToNat(x) - ToNat(y), |x|) }

  function BvMul(x: Bv, y: Bv): (z: Bv)
    ensures |z| == |x|
  { FromInt(ToNat(x) * ToNat(y), |x|) }

  function BvNeg(x: Bv): (z: Bv)
    ensures |z| == |x|
  { FromInt(0 - ToNat(x), |x|) }

  /** Division by zero is all ones. */
  function BvUdiv(x: Bv, y: Bv): (z: Bv)
    ensures |z| == |x|
  {
    if ToNat(y) == 0 then Fill(true, |x|) else FromInt(ToNat(x) / ToNat(y), |x|)
  }

  /** The remainder by zero is the dividend. */
  function BvUrem(x: Bv, y: Bv): (z: Bv)
    ensures |z| == |x|
  {
    if ToNat(y) == 0 then x else FromInt(ToNat(x) % ToNat(y), |x|)
  }

  function BvSdiv(x: Bv, y: Bv): (z: Bv)
    ensures |z| == |x|
  {
    if !Msb(x) && !Msb(y) then BvUdiv(x, y)
    else if Msb(x) && !Msb(y) then BvNeg(BvUdiv(BvNeg(x), y))
    else if !Msb(x) && Msb(y) then BvNeg(BvUdiv(x, BvNeg(y)))
    else BvUdiv(BvNeg(x), BvNeg(y))
  }

  function BvSrem(x: Bv, y: Bv): (z: Bv)
    ensures |z| == |x|
  {
    if !Msb(x) && !Msb(y) then BvUrem(x, y)
    else if Msb(x) && !Msb(y) then BvNeg(BvUrem(BvNeg(x), y))
    else if !Msb(x) && Msb(y) then BvUrem(x, BvNeg(y))
    else BvNeg(BvUrem(BvNeg(x), BvNeg(y)))
  }

  function BvShl(x: Bv, y: Bv): (z: Bv)
    ensures |z| == |x|
  { FromInt(ToNat(x) * Pow2(ToNat(y)), |x|) }

  function BvLshr(x: Bv, y: Bv): (z: Bv)
    ensures |z| == |x|
  { FromInt(ToNat(x) / Pow2(ToNat(y)), |x|) }

  function BvAshr(x: Bv, y: Bv): (z: Bv)
    ensures |z| == |x|
  {
    if Msb(x) then Complement(BvLshr(Complement(x), y)) else BvLshr(x, y)
  }

  /** Rotation by n <= |x| places towards bit 0. */
  function RotateRight(x: Bv, n: nat): (z: Bv)
    requires n <= |x|
    ensures |z| == |x|
  { x[n..] + x[..n] }

  function BvRotr(x: Bv, y: Bv): (z: Bv)
    ensures |z| == |x|
  { if |x| == 0 then x else RotateRight(x, ToNat(y) % |x|) }

  function BvRotl(x: Bv, y: Bv): (z: Bv)
    ensures |z| == |x|
  { if |x| == 0 then x else RotateRight(x, |x| - ToNat(y) % |x|) }

  function BvExtract(x: Bv, hi: nat, lo: nat): (z: Bv)
    ensures lo <= hi < |x| ==> |z| == hi - lo + 1
  { if lo <= hi < |x| then x[lo..hi + 1] else [] }

  /** The first operand becomes the high bits. */
  function BvConcat(x: Bv, y: Bv): Bv { y + x }

  function BvZeroExt(x: Bv, extra: nat): Bv { x + Fill(false, extra) }

  function BvSignExt(x: Bv, extra: nat): Bv { x + Fill(Msb(x), extra) }

  // ---------- the operators, by name ----------

  /** The width-preserving binary operators. */
  datatype BinOp =
    | Add | Sub | Mul | Udiv | Urem | And | Or | Xor
    | Shl | Lshr | Ashr | Rotr | Rotl | Sdiv | Srem

  datatype CmpOp = Eq | Ne | Ult | Ule | Ugt | Uge | Slt | Sle | Sgt | Sge

  function BinValue(op: BinOp, x: Bv, y: Bv): (z: Bv)
    ensures |z| == |x|
  {
    match op
    case Add => BvAdd(x, y)
    case Sub => BvSub(x, y)
    case Mul => BvMul(x, y)
    case Udiv => BvUdiv(x, y)
    case Urem => BvUrem(x, y)
    case And => BvAnd(x, y)
    case Or => BvOr(x, y)
    case Xor => BvXor(x, y)
    case Shl => BvShl(x, y)
    case Lshr => BvLshr(x, y)
    case Ashr => BvAshr(x, y)
    case Rotr => BvRotr(x, y)
    case Rotl => BvRotl(x, y)
    case Sdiv => BvSdiv(x, y)
    case Srem => BvSrem(x, y)
  }

  predicate CmpValue(op: CmpOp, x: Bv, y: Bv)
  {
    match op
    case Eq => x == y
    case Ne => x != y
    case Ult => ToNat(x) < ToNat(y)
    case Ule => ToNat(x) <= ToNat(y)
    case Ugt => ToNat(x) > ToNat(y)
    case Uge => ToNat(x) >= ToNat(y)
    case Slt => ToInt(x) < ToInt(y)
    case Sle => ToInt(x) <= ToInt(y)
    case Sgt => ToInt(x) > ToInt(y)
    case Sge => ToInt(x) >= ToInt(y)
  }
}
