/** Bit strings of arbitrary width, least significant bit first, and the
    number each of them denotes.  Everything the lowering computes is stated
    over these; no width is ever fixed. */
module Bits {
  type Bv = seq<bool>

  function Pow2(n: nat): (p: nat)
    ensures p >= 1
  {
    if n == 0 then 1 else 2 * Pow2(n - 1)
  }

  function B2N(b: bool): nat { if b then 1 else 0 }

  /** The unsigned number denoted by x. */
  function ToNat(x: Bv): nat
  {
    if |x| == 0 then 0 else B2N(x[0]) + 2 * ToNat(x[1..])
  }

  /** The w bits of v modulo 2^w (two's complement for a negative v). */
  function FromInt(v: int, w: nat): (x: Bv)
    ensures |x| == w
    decreases w
  {
    if w == 0 then [] else [v % 2 == 1] + FromInt(v / 2, w - 1)
  }

  function Complement(x: Bv): (y: Bv)
    ensures |y| == |x| && forall i :: 0 <= i < |x| ==> y[i] == !x[i]
  {
    seq(|x|, i requires 0 <= i < |x| => !x[i])
  }

  function Fill(b: bool, w: nat): (y: Bv)
    ensures |y| == w && forall i :: 0 <= i < w ==> y[i] == b
  {
    seq(w, i => b)
  }

  /** z as a word of width w, zero when it is not one. */
  function Sized(z: Bv, w: nat): (r: Bv)
    ensures |r| == w && (|z| == w ==> r == z)
  {
    if |z| == w then z else Fill(false, w)
  }

  // ---------- powers of two ----------

  lemma Pow2Step(n: nat)
    ensures Pow2(0) == 1 && Pow2(n + 1) == 2 * Pow2(n)
  {
  }

  lemma {:induction false} Pow2Add(m: nat, n: nat)
    ensures Pow2(m + n) == Pow2(m) * Pow2(n)
  {
    if m > 0 {
      Pow2Add(m - 1, n);
      assert Pow2(m + n) == 2 * Pow2(m - 1 + n);
      MulAssoc(2, Pow2(m - 1), Pow2(n));
    }
  }

  lemma {:induction false} Pow2Mono(m: nat, n: nat)
    requires m <= n
    ensures Pow2(m) <= Pow2(n)
  {
    if m < n { Pow2Mono(m, n - 1); }
  }

  lemma {:induction false} Pow2Big(n: nat)
    ensures n < Pow2(n)
  {
    if n > 0 { Pow2Big(n - 1); }
  }

  /** k rounds of n gates each. */
  function Rounds(n: nat, k: nat): nat { n * k }

  lemma RoundsStep(n: nat, k: nat)
    ensures Rounds(n, 0) == 0 && Rounds(n, k + 1) == Rounds(n, k) + n
  {
  }

  lemma RoundsBound(c: nat, w: nat, k: nat)
    requires k <= w
    ensures Rounds(c * w, k) <= c * (w * w)
  {
    MulMono(k, w, c * w);
    MulAssoc(c, w, w);
  }

  // ---------- integer arithmetic the solver needs spelled out ----------

  lemma MulAssoc(a: int, b: int, c: int)
    ensures a * (b * c) == a * b * c
  {
  }

  lemma MulDist(a: int, b: int, c: int)
    ensures a * (b + c) == a * b + a * c
    ensures (b + c) * a == b * a + c * a
  {
  }

  lemma MulMono(a: int, b: int, c: int)
    requires a <= b && 0 <= c
    ensures a * c <= b * c
  {
  }

  /** Quotient and remainder are unique. */
  lemma DivModUnique(v: int, m: int, q: int, r: int)
    requires 0 <= r < m && v == q * m + r
    ensures v / m == q && v % m == r
  {
    var q', r' := v / m, v % m;
    assert v == q' * m + r';
    if q' < q {
      MulMono(q' + 1, q, m);
      MulDist(m, q', 1);
    } else if q < q' {
      MulMono(q + 1, q', m);
      MulDist(m, q, 1);
    }
  }

  lemma ModAddMul(v: int, k: int, m: int)
    requires m > 0
    ensures (v + k * m) % m == v % m
  {
    MulDist(m, v / m, k);
    DivModUnique(v + k * m, m, v / m + k, v % m);
  }

  // ---------- the number a bit string denotes ----------

  lemma {:induction false} ToNatBound(x: Bv)
    ensures ToNat(x) < Pow2(|x|)
  {
    if |x| > 0 { ToNatBound(x[1..]); }
  }

  lemma {:induction false} ToNatAppend(x: Bv, y: Bv)
    ensures ToNat(x + y) == ToNat(x) + Pow2(|x|) * ToNat(y)
  {
    if |x| == 0 {
      assert x + y == y;
    } else {
      assert (x + y)[1..] == x[1..] + y;
      ToNatAppend(x[1..], y);
      MulAssoc(2, Pow2(|x| - 1), ToNat(y));
    }
  }

  lemma ToNatSnoc(x: Bv, b: bool)
    ensures ToNat(x + [b]) == ToNat(x) + Pow2(|x|) * B2N(b)
  {
    ToNatAppend(x, [b]);
    assert [b][1..] == [];
    assert ToNat([b]) == B2N(b);
  }

  lemma ToNatSplit(x: Bv, k: nat)
    requires k <= |x|
    ensures ToNat(x) == ToNat(x[..k]) + Pow2(k) * ToNat(x[k..])
  {
    assert x == x[..k] + x[k..];
    ToNatAppend(x[..k], x[k..]);
  }

  lemma {:induction false} ToNatInjective(x: Bv, y: Bv)
    requires |x| == |y| && ToNat(x) == ToNat(y)
    ensures x == y
  {
    if |x| > 0 {
      ToNatInjective(x[1..], y[1..]);
      assert x == [x[0]] + x[1..];
      assert y == [y[0]] + y[1..];
    }
  }

  lemma {:induction false} ToNatFill(b: bool, w: nat)
    ensures ToNat(Fill(b, w)) == if b then Pow2(w) - 1 else 0
  {
    if w > 0 {
      assert Fill(b, w)[1..] == Fill(b, w - 1);
      ToNatFill(b, w - 1);
    }
  }

  lemma {:induction false} ToNatComplement(x: Bv)
    ensures ToNat(Complement(x)) == Pow2(|x|) - 1 - ToNat(x)
  {
    if |x| > 0 {
      assert Complement(x)[1..] == Complement(x[1..]);
      ToNatComplement(x[1..]);
    }
  }

  /** The remainder by an even number, from the low bit and the half. */
  lemma HalfMod(v: int, p: nat)
    requires p >= 1
    ensures v % (2 * p) == v % 2 + 2 * (v / 2 % p)
  {
    var h := v / 2;
    var q, r := h / p, h % p;
    assert h == q * p + r;
    MulAssoc(2, q, p);
    MulAssoc(q, 2, p);
    DivModUnique(v, 2 * p, q, v % 2 + 2 * r);
  }

  lemma FromIntHead(v: int, w: nat)
    requires w > 0
    ensures ToNat(FromInt(v, w)) == v % 2 + 2 * ToNat(FromInt(v / 2, w - 1))
  {
    assert FromInt(v, w)[1..] == FromInt(v / 2, w - 1);
  }

  lemma {:induction false} ToNatFromInt(v: int, w: nat)
    ensures ToNat(FromInt(v, w)) == v % Pow2(w)
    decreases w
  {
    if w == 0 {
      DivModUnique(v, 1, v, 0);
    } else {
      hide ToNat, FromInt, Pow2;
      ToNatFromInt(v / 2, w - 1);
      FromIntHead(v, w);
      Pow2Step(w - 1);
      HalfMod(v, Pow2(w - 1));
    }
  }

  lemma FromIntToNat(x: Bv)
    ensures FromInt(ToNat(x), |x|) == x
  {
    ToNatBound(x);
    ToNatFromInt(ToNat(x), |x|);
    DivModUnique(ToNat(x), Pow2(|x|), 0, ToNat(x));
    ToNatInjective(FromInt(ToNat(x), |x|), x);
  }

  /** A bit string is the w-bit wrap of every number congruent to its own. */
  lemma FromIntUnique(z: Bv, v: int, q: int)
    requires ToNat(z) == v + q * Pow2(|z|)
    ensures z == FromInt(v, |z|)
  {
    ToNatBound(z);
    var p := Pow2(|z|);
    MulDist(p, q, -q);
    assert v == (-q) * p + ToNat(z);
    DivModUnique(v, p, -q, ToNat(z));
    ToNatFromInt(v, |z|);
    ToNatInjective(z, FromInt(v, |z|));
  }

  lemma FromIntCongruent(v: int, u: int, q: int, w: nat)
    requires v == u + q * Pow2(w)
    ensures FromInt(v, w) == FromInt(u, w)
  {
    ToNatFromInt(v, w);
    ToNatFromInt(u, w);
    ModAddMul(u, q, Pow2(w));
    ToNatInjective(FromInt(v, w), FromInt(u, w));
  }

  /** Zeros above the most significant bit do not count. */
  lemma ToNatHighZeros(x: Bv, k: nat)
    ensures ToNat(x + Fill(false, k)) == ToNat(x)
  {
    ToNatAppend(x, Fill(false, k));
    ToNatFill(false, k);
  }

  /** Zeros below bit 0 shift left. */
  lemma ToNatLowZeros(n: nat, x: Bv)
    ensures ToNat(Fill(false, n) + x) == Pow2(n) * ToNat(x)
  {
    ToNatAppend(Fill(false, n), x);
    ToNatFill(false, n);
  }

  /** Cutting at bit n is division by 2^n. */
  lemma ToNatCut(x: Bv, n: nat)
    requires n <= |x|
    ensures ToNat(x) / Pow2(n) == ToNat(x[n..])
    ensures ToNat(x) % Pow2(n) == ToNat(x[..n])
  {
    hide *;
    ToNatSplit(x, n);
    ToNatBound(x[..n]);
    DivModUnique(ToNat(x), Pow2(n), ToNat(x[n..]), ToNat(x[..n]));
  }

  lemma SmallDiv(v: nat, m: nat)
    requires v < m
    ensures v / m == 0 && v % m == v
  {
    DivModUnique(v, m, 0, v);
  }

  /** A number below 2^k has no bit from k on; any such bit is worth 2^k. */
  lemma ToNatHigh(x: Bv, k: nat)
    requires k <= |x|
    ensures if ToNat(x[k..]) == 0 then ToNat(x) == ToNat(x[..k]) else ToNat(x) >= Pow2(k)
  {
    hide *;
    ToNatSplit(x, k);
    if ToNat(x[k..]) != 0 { MulMono(1, ToNat(x[k..]), Pow2(k)); }
  }

  /** Wrapping early does not change a later sum. */
  lemma FromIntEarly(x: Bv, u: int, d: int, w: nat)
    requires x == FromInt(u, w)
    ensures FromInt(ToNat(x) + d, w) == FromInt(u + d, w)
  {
    hide *;
    ToNatFromInt(u, w);
    assert u == u / Pow2(w) * Pow2(w) + u % Pow2(w);
    FromIntCongruent(u + d, ToNat(x) + d, u / Pow2(w), w);
  }

  lemma HalfThenDivide(v: nat, p: nat)
    requires p >= 1
    ensures v / (2 * p) == v / 2 / p
  {
    var q, r := v / 2 / p, v / 2 % p;
    assert v / 2 == p * q + r;
    assert v == 2 * (p * q + r) + v % 2;
    MulAssoc(2, p, q);
    var rest := 2 * r + v % 2;
    assert v == (2 * p) * q + rest && 0 <= rest < 2 * p;
    DivModUnique(v, 2 * p, q, rest);
  }

  /** Bit j of a number's word is the number shifted right j places, modulo 2. */
  lemma {:induction false} FromIntBit(v: nat, w: nat, j: nat)
    requires j < w
    ensures FromInt(v, w)[j] == (v / Pow2(j) % 2 == 1)
    decreases j
  {
    if j > 0 {
      FromIntBit(v / 2, w - 1, j - 1);
      HalfThenDivide(v, Pow2(j - 1));
    }
  }
}
