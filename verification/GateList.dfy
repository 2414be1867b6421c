/** The gates themselves: what every blasting rule appends to the arena, node
    for node, as functions of the arena and the operand words. */
module GateList {
  import opened Bits
  import opened BvOps
  import opened AigGraph
  import D = Dag

  function FirstTwo(r: (Nodes, Word, Lit)): (Nodes, Word) { (r.0, r.1) }

  function Quotient(r: (Nodes, Word, Word)): (Nodes, Word) { (r.0, r.1) }

  // ---------- single gates ----------

  function AndOf(ns: Nodes, x: Lit, y: Lit): (Nodes, Lit) { (ns + [Node.And(x, y)], Lit(|ns|, false)) }

  function OrOf(ns: Nodes, x: Lit, y: Lit): (Nodes, Lit) { (ns + [Node.And(Not(x), Not(y))], Lit(|ns|, true)) }

  function XorOf(ns: Nodes, x: Lit, y: Lit): (Nodes, Lit)
  {
    var p := AndOf(ns, x, Not(y));
    var q := AndOf(p.0, Not(x), y);
    OrOf(q.0, p.1, q.1)
  }

  function MuxOf(ns: Nodes, sel: Lit, t: Lit, e: Lit): (Nodes, Lit)
  {
    var p := AndOf(ns, sel, t);
    var q := AndOf(p.0, Not(sel), e);
    OrOf(q.0, p.1, q.1)
  }

  lemma Three(ns: Nodes, p: Node, q: Node, o: Node)
    ensures ns + [p] + [q] + [o] == ns + [p, q, o] && |ns + [p] + [q]| == |ns| + 2
  {
  }

  /** The exclusive or, gate by gate. */
  lemma XorIs(ns: Nodes, x: Lit, y: Lit)
    ensures var n := |ns|;
            XorOf(ns, x, y) == (ns + [Node.And(x, Not(y)), Node.And(Not(x), y), Node.And(Lit(n, true), Lit(n + 1, true))],
                                Lit(n + 2, true))
  {
    Three(ns, Node.And(x, Not(y)), Node.And(Not(x), y), Node.And(Lit(|ns|, true), Lit(|ns| + 1, true)));
  }

  /** The multiplexer, gate by gate. */
  lemma MuxIs(ns: Nodes, sel: Lit, t: Lit, e: Lit)
    ensures var n := |ns|;
            MuxOf(ns, sel, t, e) ==
            (ns + [Node.And(sel, t), Node.And(Not(sel), e), Node.And(Lit(n, true), Lit(n + 1, true))], Lit(n + 2, true))
  {
    Three(ns, Node.And(sel, t), Node.And(Not(sel), e), Node.And(Lit(|ns|, true), Lit(|ns| + 1, true)));
  }

  // ---------- bit by bit ----------

  /** The first k bits of a bitwise rule. */
  function Bitwise(ns: Nodes, op: BinOp, a: Word, b: Word, k: nat): (r: (Nodes, Word))
    requires k <= |a| == |b|
    ensures |r.1| == k
  {
    if k == 0 then (ns, []) else
    var r := Bitwise(ns, op, a, b, k - 1);
    var g := if op.And? then AndOf(r.0, a[k - 1], b[k - 1])
             else if op.Or? then OrOf(r.0, a[k - 1], b[k - 1]) else XorOf(r.0, a[k - 1], b[k - 1]);
    (g.0, r.1 + [g.1])
  }

  lemma BitwiseNone(ns: Nodes, op: BinOp, a: Word, b: Word)
    requires |a| == |b|
    ensures Bitwise(ns, op, a, b, 0) == (ns, [])
  {
  }

  /** One bit of a bitwise rule: one gate, or the three of an exclusive or. */
  lemma BitwiseNext(ns: Nodes, op: BinOp, a: Word, b: Word, k: nat)
    requires k < |a| == |b|
    ensures var r := Bitwise(ns, op, a, b, k);
            op.And? ==> Bitwise(ns, op, a, b, k + 1) == (r.0 + [Node.And(a[k], b[k])], r.1 + [Lit(|r.0|, false)])
    ensures var r := Bitwise(ns, op, a, b, k);
            op.Or? ==> Bitwise(ns, op, a, b, k + 1) == (r.0 + [Node.And(Not(a[k]), Not(b[k]))], r.1 + [Lit(|r.0|, true)])
    ensures var r := Bitwise(ns, op, a, b, k);
            var n := |r.0|;
            op.Xor? ==> (Bitwise(ns, op, a, b, k + 1) ==
              (r.0 + [Node.And(a[k], Not(b[k])), Node.And(Not(a[k]), b[k]), Node.And(Lit(n, true), Lit(n + 1, true))],
               r.1 + [Lit(n + 2, true)]))
  {
    hide XorOf;
    XorIs(Bitwise(ns, op, a, b, k).0, a[k], b[k]);
  }

  function NotWord(a: Word): (out: Word)
    ensures |out| == |a|
  {
    seq(|a|, i requires 0 <= i < |a| => Not(a[i]))
  }

  /** A multiplexer on each of the first k bits. */
  function IteOf(ns: Nodes, c: Lit, t: Word, e: Word, k: nat): (r: (Nodes, Word))
    requires k <= |t| == |e|
    ensures |r.1| == k
  {
    if k == 0 then (ns, []) else
    var r := IteOf(ns, c, t, e, k - 1);
    var g := MuxOf(r.0, c, t[k - 1], e[k - 1]);
    (g.0, r.1 + [g.1])
  }

  lemma IteNone(ns: Nodes, c: Lit, t: Word, e: Word)
    requires |t| == |e|
    ensures IteOf(ns, c, t, e, 0) == (ns, [])
  {
  }

  /** One bit of a conditional: the three gates of its multiplexer. */
  lemma IteNext(ns: Nodes, c: Lit, t: Word, e: Word, k: nat)
    requires k < |t| == |e|
    ensures var r := IteOf(ns, c, t, e, k);
            var n := |r.0|;
            IteOf(ns, c, t, e, k + 1) ==
            (r.0 + [Node.And(c, t[k]), Node.And(Not(c), e[k]), Node.And(Lit(n, true), Lit(n + 1, true))],
             r.1 + [Lit(n + 2, true)])
  {
    hide MuxOf;
    MuxIs(IteOf(ns, c, t, e, k).0, c, t[k], e[k]);
  }

  // ---------- adders and comparisons ----------

  /** Sum and carry of one column. */
  function AdderOf(ns: Nodes, x: Lit, y: Lit, c: Lit): (Nodes, Lit, Lit)
  {
    var p := XorOf(ns, x, y);
    var s := XorOf(p.0, p.1, c);
    var g := AndOf(s.0, x, y);
    var t := AndOf(g.0, p.1, c);
    var o := OrOf(t.0, g.1, t.1);
    (o.0, s.1, o.1)
  }

  function RippleOf(ns: Nodes, a: Word, b: Word, c: Lit, k: nat): (r: (Nodes, Word, Lit))
    requires k <= |a| == |b|
    ensures |r.1| == k
  {
    if k == 0 then (ns, [], c) else
    var r := RippleOf(ns, a, b, c, k - 1);
    var g := AdderOf(r.0, a[k - 1], b[k - 1], r.2);
    (g.0, r.1 + [g.1], g.2)
  }

  function SubOf(ns: Nodes, a: Word, b: Word): (r: (Nodes, Word, Lit))
    requires |a| == |b|
    ensures |r.1| == |a|
  {
    RippleOf(ns, a, NotWord(b), LIT_TRUE, |a|)
  }

  function UltOf(ns: Nodes, a: Word, b: Word): (Nodes, Lit)
    requires |a| == |b|
  {
    var r := SubOf(ns, a, b);
    (r.0, Not(r.2))
  }

  function SignFlipped(a: Word): (out: Word)
    requires |a| > 0
    ensures |out| == |a|
  {
    a[..|a| - 1] + [Not(a[|a| - 1])]
  }

  function SltOf(ns: Nodes, a: Word, b: Word): (Nodes, Lit)
    requires |a| == |b| > 0
  {
    UltOf(ns, SignFlipped(a), SignFlipped(b))
  }

  /** The first k bits of an equality chain. */
  function EqOf(ns: Nodes, a: Word, b: Word, k: nat): (Nodes, Lit)
    requires k <= |a| == |b|
  {
    if k == 0 then (ns, LIT_TRUE) else
    var r := EqOf(ns, a, b, k - 1);
    var x := XorOf(r.0, a[k - 1], b[k - 1]);
    AndOf(x.0, r.1, Not(x.1))
  }

  lemma EqNone(ns: Nodes, a: Word, b: Word)
    requires |a| == |b|
    ensures EqOf(ns, a, b, 0) == (ns, LIT_TRUE)
  {
  }

  /** One bit of the chain: the three gates of its exclusive or, and the
      conjunction so far. */
  lemma EqNext(ns: Nodes, a: Word, b: Word, k: nat)
    requires k < |a| == |b|
    ensures var r := EqOf(ns, a, b, k);
            var n := |r.0|;
            EqOf(ns, a, b, k + 1) ==
            (r.0 + [Node.And(a[k], Not(b[k])), Node.And(Not(a[k]), b[k]), Node.And(Lit(n, true), Lit(n + 1, true))]
             + [Node.And(r.1, Lit(n + 2, false))], Lit(n + 3, false))
  {
    hide XorOf;
    XorIs(EqOf(ns, a, b, k).0, a[k], b[k]);
  }

  function Negated(r: (Nodes, Lit)): (Nodes, Lit) { (r.0, Not(r.1)) }

  function CmpOf(ns: Nodes, op: CmpOp, a: Word, b: Word): (Nodes, Lit)
    requires |a| == |b| > 0
  {
    match op
    case Eq => EqOf(ns, a, b, |a|)
    case Ne => Negated(EqOf(ns, a, b, |a|))
    case Ult => UltOf(ns, a, b)
    case Ule => Negated(UltOf(ns, b, a))
    case Ugt => UltOf(ns, b, a)
    case Uge => Negated(UltOf(ns, a, b))
    case Slt => SltOf(ns, a, b)
    case Sle => Negated(SltOf(ns, b, a))
    case Sgt => SltOf(ns, b, a)
    case Sge => Negated(SltOf(ns, a, b))
  }

  // ---------- constants ----------

  /** The word of constants with these bits. */
  function ConstOf(v: Bv): (out: Word)
    ensures |out| == |v|
  {
    seq(|v|, i requires 0 <= i < |v| => if v[i] then LIT_TRUE else LIT_FALSE)
  }

  function Same(l: Lit, w: nat): (out: Word)
    ensures |out| == w
  {
    seq(w, i => l)
  }

  // ---------- shifts ----------

  /** The stages of a barrel at width w: the least s with w <= 2^s. */
  function Stages(w: nat, from: nat): (s: nat)
    requires from == 0 || Pow2(from - 1) < w
    ensures w <= Pow2(s) && from <= s && (s > 0 ==> Pow2(s - 1) < w)
    decreases w - from
  {
    if w <= Pow2(from) then from else
    Pow2Big(from);
    Stages(w, from + 1)
  }

  /** The disjunction of the bits from lo up to hi. */
  function AnyOf(ns: Nodes, b: Word, lo: nat, hi: nat): (Nodes, Lit)
    requires lo <= hi <= |b|
    decreases hi
  {
    if lo == hi then (ns, LIT_FALSE) else
    var r := AnyOf(ns, b, lo, hi - 1);
    OrOf(r.0, r.1, b[hi - 1])
  }

  lemma AnyNext(ns: Nodes, b: Word, lo: nat, hi: nat)
    requires lo <= hi < |b|
    ensures AnyOf(ns, b, lo, lo) == (ns, LIT_FALSE)
    ensures var r := AnyOf(ns, b, lo, hi);
            AnyOf(ns, b, lo, hi + 1) == (r.0 + [Node.And(Not(r.1), Not(b[hi]))], Lit(|r.0|, true))
  {
  }

  lemma AnyNone(ns: Nodes, b: Word, lo: nat)
    requires lo <= |b|
    ensures AnyOf(ns, b, lo, lo) == (ns, LIT_FALSE)
  {
  }

  function MovedRight(a: Word, s: nat, fill: Lit): (out: Word)
    ensures |out| == |a|
  {
    seq(|a|, i requires 0 <= i < |a| => if i + s < |a| then a[i + s] else fill)
  }

  function MovedLeft(a: Word, s: nat): (out: Word)
    ensures |out| == |a|
  {
    seq(|a|, i requires 0 <= i < |a| => if i >= s then a[i - s] else LIT_FALSE)
  }

  function Turned(a: Word, s: nat): (out: Word)
    ensures |out| == |a|
  {
    seq(|a|, i requires 0 <= i < |a| => a[(i + s) % |a|])
  }

  datatype Move = Right(fill: Lit) | Left | Turn

  function Moved(mv: Move, a: Word, s: nat): (out: Word)
    ensures |out| == |a|
  {
    match mv
    case Right(fill) => MovedRight(a, s, fill)
    case Left => MovedLeft(a, s)
    case Turn => Turned(a, s)
  }

  /** The first k stages of a barrel. */
  function BarrelOf(ns: Nodes, mv: Move, a: Word, b: Word, k: nat): (r: (Nodes, Word))
    requires k <= |b|
    ensures |r.1| == |a|
  {
    if k == 0 then (ns, a) else
    var r := BarrelOf(ns, mv, a, b, k - 1);
    IteOf(r.0, b[k - 1], Moved(mv, r.1, Pow2(k - 1)), r.1, |a|)
  }

  lemma BarrelNext(ns: Nodes, mv: Move, a: Word, b: Word, k: nat)
    requires k < |b|
    ensures var r := BarrelOf(ns, mv, a, b, k);
            BarrelOf(ns, mv, a, b, k + 1) == IteOf(r.0, b[k], Moved(mv, r.1, Pow2(k)), r.1, |a|)
  {
    hide Pow2, IteOf, Moved;
  }

  lemma BarrelNone(ns: Nodes, mv: Move, a: Word, b: Word)
    ensures BarrelOf(ns, mv, a, b, 0) == (ns, a)
  {
  }

  /** Everything becomes fill when the amount is beyond the stages. */
  function BeyondOf(ns: Nodes, cur: Word, b: Word, stages: nat, fill: Lit): (r: (Nodes, Word))
    requires |cur| == |b| && stages <= |b|
    ensures |r.1| == |b|
  {
    var o := AnyOf(ns, b, stages, |b|);
    IteOf(o.0, o.1, Same(fill, |b|), cur, |b|)
  }

  /** The stages are the only count that reaches the width in time. */
  lemma StagesAre(w: nat, s: nat)
    requires 1 <= w <= Pow2(s) && (s > 0 ==> Pow2(s - 1) < w)
    ensures Stages(w, 0) == s
  {
    hide Pow2;
    var s' := Stages(w, 0);
    if s' < s { Pow2Mono(s', s - 1); }
    if s < s' { Pow2Mono(s, s' - 1); }
  }

  /** No more stages than bits. */
  lemma StagesFit(w: nat)
    requires w > 0
    ensures Stages(w, 0) < w
  {
    var s := Stages(w, 0);
    if s > 0 { Pow2Big(s - 1); }
  }

  function ShiftOf(ns: Nodes, mv: Move, a: Word, b: Word): (r: (Nodes, Word))
    requires |a| == |b| > 0
    ensures |r.1| == |a|
  {
    StagesFit(|a|);
    var s := Stages(|a|, 0);
    var r := BarrelOf(ns, mv, a, b, s);
    BeyondOf(r.0, r.1, b, s, if mv.Right? then mv.fill else LIT_FALSE)
  }

  // ---------- multiplication and division ----------

  /** Row i of the multiplier, its cells from bit i up to bit j. */
  function CellsOf(ns: Nodes, acc: Word, a: Word, bi: Lit, i: nat, j: nat): (r: (Nodes, Word, Lit))
    requires i <= j <= |a| == |acc|
    ensures |r.1| == |a|
    decreases j
  {
    if i == j then (ns, acc, LIT_FALSE) else
    var r := CellsOf(ns, acc, a, bi, i, j - 1);
    var p := AndOf(r.0, a[j - 1 - i], bi);
    var g := AdderOf(p.0, r.1[j - 1], p.1, r.2);
    (g.0, r.1[j - 1 := g.1], g.2)
  }

  lemma CellsNext(ns: Nodes, acc: Word, a: Word, bi: Lit, i: nat, j: nat)
    requires i <= j < |a| == |acc|
    ensures var r := CellsOf(ns, acc, a, bi, i, j);
            var g := AdderOf(r.0 + [Node.And(a[j - i], bi)], r.1[j], Lit(|r.0|, false), r.2);
            CellsOf(ns, acc, a, bi, i, j + 1) == (g.0, r.1[j := g.1], g.2)
  {
    hide AdderOf;
  }

  lemma CellsNone(ns: Nodes, acc: Word, a: Word, bi: Lit, i: nat)
    requires i <= |a| == |acc|
    ensures CellsOf(ns, acc, a, bi, i, i) == (ns, acc, LIT_FALSE)
  {
  }

  /** The first k rows. */
  function RowsOf(ns: Nodes, a: Word, b: Word, k: nat): (r: (Nodes, Word))
    requires k <= |a| == |b|
    ensures |r.1| == |a|
  {
    if k == 0 then (ns, Same(LIT_FALSE, |a|)) else
    var r := RowsOf(ns, a, b, k - 1);
    var g := CellsOf(r.0, r.1, a, b[k - 1], k - 1, |a|);
    (g.0, g.1)
  }

  lemma RowsNext(ns: Nodes, a: Word, b: Word, k: nat)
    requires k < |a| == |b|
    ensures var r := RowsOf(ns, a, b, k);
            var g := CellsOf(r.0, r.1, a, b[k], k, |a|);
            RowsOf(ns, a, b, k + 1) == (g.0, g.1)
  {
    hide CellsOf;
  }

  lemma RowsNone(ns: Nodes, a: Word, b: Word)
    requires |a| == |b|
    ensures RowsOf(ns, a, b, 0) == (ns, Same(LIT_FALSE, |a|))
  {
  }

  function MulOf(ns: Nodes, a: Word, b: Word): (r: (Nodes, Word))
    requires |a| == |b|
    ensures |r.1| == |a|
  {
    RowsOf(ns, a, b, |a|)
  }

  /** One restoring step: the new remainder and the quotient bit. */
  function RestoreOf(ns: Nodes, rem: Word, x: Lit, b: Word): (r: (Nodes, Word, Lit))
    requires |rem| == |b| > 0
    ensures |r.1| == |b|
  {
    var shifted := [x] + rem[..|b| - 1];
    var d := SubOf(ns, shifted, b);
    var ge := OrOf(d.0, rem[|b| - 1], d.2);
    var m := IteOf(ge.0, ge.1, d.1, shifted, |b|);
    (m.0, m.1, ge.1)
  }

  /** The first k steps, from the top bit of the dividend down: quotient and
      remainder. */
  function DivideOf(ns: Nodes, a: Word, b: Word, k: nat): (r: (Nodes, Word, Word))
    requires k <= |a| == |b| && |a| > 0
    ensures |r.1| == |r.2| == |a|
  {
    if k == 0 then (ns, Same(LIT_FALSE, |a|), Same(LIT_FALSE, |a|)) else
    var r := DivideOf(ns, a, b, k - 1);
    var g := RestoreOf(r.0, r.2, a[|a| - k], b);
    (g.0, r.1[|a| - k := g.2], g.1)
  }

  lemma DivideNext(ns: Nodes, a: Word, b: Word, k: nat)
    requires k < |a| == |b|
    ensures var r := DivideOf(ns, a, b, k);
            var i := |a| - 1 - k;
            var g := RestoreOf(r.0, r.2, a[i], b);
            DivideOf(ns, a, b, k + 1) == (g.0, r.1[i := g.2], g.1)
  {
    hide RestoreOf;
  }

  lemma DivideNone(ns: Nodes, a: Word, b: Word)
    requires |a| == |b| > 0
    ensures DivideOf(ns, a, b, 0) == (ns, Same(LIT_FALSE, |a|), Same(LIT_FALSE, |a|))
  {
  }

  /** The standard's answers for a zero divisor. */
  function ZeroDivisorOf(ns: Nodes, a: Word, b: Word, quo: Word, rem: Word): (r: (Nodes, Word, Word))
    requires |a| == |b| == |quo| == |rem|
    ensures |r.1| == |r.2| == |a|
  {
    var nz := AnyOf(ns, b, 0, |b|);
    var q := IteOf(nz.0, Not(nz.1), Same(LIT_TRUE, |a|), quo, |a|);
    var r := IteOf(q.0, Not(nz.1), a, rem, |a|);
    (r.0, q.1, r.1)
  }

  function UdivremOf(ns: Nodes, a: Word, b: Word): (r: (Nodes, Word, Word))
    requires |a| == |b| > 0
    ensures |r.1| == |r.2| == |a|
  {
    var d := DivideOf(ns, a, b, |a|);
    ZeroDivisorOf(d.0, a, b, d.1, d.2)
  }

  /** a - q * b. */
  function RestOf(ns: Nodes, a: Word, q: Word, b: Word): (r: (Nodes, Word))
    requires |a| == |q| == |b|
    ensures |r.1| == |a|
  {
    var p := MulOf(ns, q, b);
    var s := SubOf(p.0, a, p.1);
    (s.0, s.1)
  }

  function UremOf(ns: Nodes, a: Word, b: Word): (r: (Nodes, Word))
    requires |a| == |b| > 0
    ensures |r.1| == |a|
  {
    var q := UdivremOf(ns, a, b);
    RestOf(q.0, a, q.1, b)
  }

  // ---------- rotation ----------

  function RotrOf(ns: Nodes, a: Word, b: Word): (r: (Nodes, Word))
    requires |a| == |b| > 0
    ensures |r.1| == |a|
  {
    StagesFit(|a|);
    var s := Stages(|a|, 0);
    var m := if |a| == Pow2(s) then (ns, b) else UremOf(ns, b, ConstOf(FromInt(|a|, |a|)));
    BarrelOf(m.0, Turn, a, m.1, s)
  }

  /** (w - b mod w) mod w. */
  function ReducedOf(ns: Nodes, b: Word): (r: (Nodes, Word))
    requires |b| > 0
    ensures |r.1| == |b|
  {
    var modulus := ConstOf(FromInt(|b|, |b|));
    var r := UremOf(ns, b, modulus);
    var d := SubOf(r.0, modulus, r.1);
    UremOf(d.0, d.1, modulus)
  }

  function LeftAmountOf(ns: Nodes, b: Word): (r: (Nodes, Word))
    requires |b| > 0
    ensures |r.1| == |b|
  {
    if |b| == Pow2(Stages(|b|, 0)) then FirstTwo(SubOf(ns, ConstOf(FromInt(0, |b|)), b)) else ReducedOf(ns, b)
  }

  function RotlOf(ns: Nodes, a: Word, b: Word): (r: (Nodes, Word))
    requires |a| == |b| > 0
    ensures |r.1| == |a|
  {
    var m := LeftAmountOf(ns, b);
    RotrOf(m.0, a, m.1)
  }

  // ---------- signed division ----------

  function SignMaskOf(ns: Nodes, a: Word): (r: (Nodes, Word))
    requires |a| > 0
    ensures |r.1| == |a|
  {
    ShiftOf(ns, Right(a[|a| - 1]), a, ConstOf(FromInt(|a| - 1, |a|)))
  }

  /** (x ^ y) - mask. */
  function FlipOf(ns: Nodes, x: Word, y: Word, mask: Word): (r: (Nodes, Word))
    requires |x| == |y| == |mask|
    ensures |r.1| == |x|
  {
    var f := Bitwise(ns, Xor, x, y, |x|);
    var s := SubOf(f.0, f.1, mask);
    (s.0, s.1)
  }

  /** Sign mask and magnitude. */
  function MagnitudeOf(ns: Nodes, a: Word): (r: (Nodes, Word, Word))
    requires |a| > 0
    ensures |r.1| == |r.2| == |a|
  {
    var m := SignMaskOf(ns, a);
    var g := FlipOf(m.0, m.1, a, m.1);
    (g.0, m.1, g.1)
  }

  function SdivTailOf(ns: Nodes, sa: Word, absA: Word, sb: Word, absB: Word): (r: (Nodes, Word))
    requires |sa| == |absA| == |sb| == |absB| > 0
    ensures |r.1| == |sa|
  {
    var q := UdivremOf(ns, absA, absB);
    var rs := Bitwise(q.0, Xor, sa, sb, |sa|);
    FlipOf(rs.0, q.1, rs.1, rs.1)
  }

  function SdivOf(ns: Nodes, a: Word, b: Word): (r: (Nodes, Word))
    requires |a| == |b| > 0
    ensures |r.1| == |a|
  {
    var x := MagnitudeOf(ns, a);
    var y := MagnitudeOf(x.0, b);
    SdivTailOf(y.0, x.1, x.2, y.1, y.2)
  }

  function SremOf(ns: Nodes, a: Word, b: Word): (r: (Nodes, Word))
    requires |a| == |b| > 0
    ensures |r.1| == |a|
  {
    var q := SdivOf(ns, a, b);
    RestOf(q.0, a, q.1, b)
  }

  // ---------- the operators ----------

  function BinOf(ns: Nodes, op: BinOp, a: Word, b: Word): (r: (Nodes, Word))
    requires |a| == |b| > 0
    ensures |r.1| == |a|
  {
    match op
    case Add => FirstTwo(RippleOf(ns, a, b, LIT_FALSE, |a|))
    case Sub => FirstTwo(SubOf(ns, a, b))
    case Mul => MulOf(ns, a, b)
    case Udiv => Quotient(UdivremOf(ns, a, b))
    case Urem => UremOf(ns, a, b)
    case Sdiv => SdivOf(ns, a, b)
    case Srem => SremOf(ns, a, b)
    case And => Bitwise(ns, op, a, b, |a|)
    case Or => Bitwise(ns, op, a, b, |a|)
    case Xor => Bitwise(ns, op, a, b, |a|)
    case Shl => ShiftOf(ns, Left, a, b)
    case Lshr => ShiftOf(ns, Right(LIT_FALSE), a, b)
    case Ashr => ShiftOf(ns, Right(a[|a| - 1]), a, b)
    case Rotr => RotrOf(ns, a, b)
    case Rotl => RotlOf(ns, a, b)
  }

  // ---------- the whole DAG ----------

  /** w fresh inputs. */
  function InputsOf(ns: Nodes, first: nat, w: nat): (r: (Nodes, Word))
    ensures |r.1| == w
  {
    (ns + seq(w, j requires 0 <= j < w => Input(first + j)), seq(w, j requires 0 <= j < w => Lit(|ns| + j, false)))
  }

  lemma InputsNext(ns: Nodes, first: nat, w: nat)
    ensures InputsOf(ns, first, 0) == (ns, [])
    ensures var r := InputsOf(ns, first, w);
            InputsOf(ns, first, w + 1) == (r.0 + [Input(first + w)], r.1 + [Lit(|r.0|, false)])
  {
    var r, r' := InputsOf(ns, first, w), InputsOf(ns, first, w + 1);
    assert InputsOf(ns, first, 0).0 == ns;
    assert r'.0 == r.0 + [Input(first + w)];
    assert r'.1 == r.1 + [Lit(|r.0|, false)];
  }

  function One(r: (Nodes, Lit)): (Nodes, Word) { (r.0, [r.1]) }

  /** The words are as wide as the nodes. */
  predicate WordsFit(words: seq<Word>, ws: seq<nat>)
  {
    |words| == |ws| && forall i :: 0 <= i < |ws| ==> |words[i]| == ws[i]
  }

  /** The nodes whose rule adds no gate. */
  predicate Gateless(node: D.DagNode)
  {
    node.Const? || node.BvNot? || node.Extract? || node.Concat? || node.ZeroExt? || node.SignExt?
  }

  function GatelessOf(words: seq<Word>, ws: seq<nat>, bits: seq<bool>, node: D.DagNode): (out: Word)
    requires WordsFit(words, ws) && D.NodeWf(ws, |bits|, node) && Gateless(node)
    ensures |out| == D.NodeWidth(ws, node)
  {
    match node
    case Const(s, w) => ConstOf(bits[s..s + w])
    case BvNot(a) => NotWord(words[a])
    case Extract(hi, lo, a) => words[a][lo..hi + 1]
    case Concat(a, b) => words[b] + words[a]
    case ZeroExt(a, extra) => words[a] + Same(LIT_FALSE, extra)
    case SignExt(a, extra) => words[a] + Same(words[a][|words[a]| - 1], extra)
  }

  predicate BooleanResult(node: D.DagNode) { node.Cmp? || node.Not? || node.BoolAnd? || node.BoolOr? }

  function BooleanOf(ns: Nodes, words: seq<Word>, ws: seq<nat>, nbits: nat, node: D.DagNode): (Nodes, Lit)
    requires WordsFit(words, ws) && D.NodeWf(ws, nbits, node) && BooleanResult(node)
  {
    match node
    case Cmp(op, a, b) => CmpOf(ns, op, words[a], words[b])
    case Not(a) => (ns, Not(words[a][0]))
    case BoolAnd(a, b) => AndOf(ns, words[a][0], words[b][0])
    case BoolOr(a, b) => OrOf(ns, words[a][0], words[b][0])
  }

  function GatesOf(ns: Nodes, words: seq<Word>, ws: seq<nat>, nbits: nat, node: D.DagNode): (r: (Nodes, Word))
    requires WordsFit(words, ws) && D.NodeWf(ws, nbits, node) && (node.Bin? || node.Neg? || node.Ite?)
    ensures |r.1| == D.NodeWidth(ws, node)
  {
    match node
    case Bin(op, a, b) => BinOf(ns, op, words[a], words[b])
    case Neg(a) => FirstTwo(SubOf(ns, ConstOf(FromInt(0, |words[a]|)), words[a]))
    case Ite(c, t, e) => IteOf(ns, words[c][0], words[t], words[e], |words[t]|)
  }

  /** What one DAG node appends, and its word. */
  function NodeOf(ns: Nodes, words: seq<Word>, ws: seq<nat>, bits: seq<bool>, nin: nat, node: D.DagNode): (r: (Nodes, Word))
    requires WordsFit(words, ws) && D.NodeWf(ws, |bits|, node)
    ensures |r.1| == D.NodeWidth(ws, node)
  {
    if node.Var? then InputsOf(ns, nin, node.w)
    else if Gateless(node) then (ns, GatelessOf(words, ws, bits, node))
    else if BooleanResult(node) then One(BooleanOf(ns, words, ws, |bits|, node))
    else GatesOf(ns, words, ws, |bits|, node)
  }

  /** The arena and the words after the first n nodes. */
  function DagOf(dag: D.Dag, bits: seq<bool>, n: nat): (r: (Nodes, seq<Word>))
    requires D.DagWf(dag, |bits|) && n <= |dag|
    ensures WordsFit(r.1, D.Widths(dag, n))
  {
    if n == 0 then ([False], []) else
    var r := DagOf(dag, bits, n - 1);
    assert D.WfAt(dag, |bits|, n - 1);
    var g := NodeOf(r.0, r.1, D.Widths(dag, n - 1), bits, D.Offset(dag, n - 1), dag[n - 1]);
    (g.0, r.1 + [g.1])
  }

  lemma DagNext(dag: D.Dag, bits: seq<bool>, n: nat)
    requires D.DagWf(dag, |bits|) && n < |dag|
    ensures DagOf(dag, bits, 0) == ([False], [])
    ensures D.NodeWf(D.Widths(dag, n), |bits|, dag[n])
    ensures var r := DagOf(dag, bits, n);
            var g := NodeOf(r.0, r.1, D.Widths(dag, n), bits, D.Offset(dag, n), dag[n]);
            DagOf(dag, bits, n + 1) == (g.0, r.1 + [g.1])
  {
    hide NodeOf, D.NodeWf;
    assert D.WfAt(dag, |bits|, n);
  }

  lemma DagNone(dag: D.Dag, bits: seq<bool>)
    requires D.DagWf(dag, |bits|)
    ensures DagOf(dag, bits, 0) == ([False], [])
  {
  }

  /** The literals of the roots. */
  function RootsOf(words: seq<Word>, roots: seq<nat>): (outs: Word)
    requires forall k :: 0 <= k < |roots| ==> roots[k] < |words| && |words[roots[k]]| == 1
    ensures |outs| == |roots|
  {
    seq(|roots|, k requires 0 <= k < |roots| => words[roots[k]][0])
  }

  lemma RootsThere(dag: D.Dag, bits: seq<bool>, roots: seq<nat>)
    requires D.QueryWf(dag, |bits|, roots)
    ensures var words := DagOf(dag, bits, |dag|).1;
            forall k :: 0 <= k < |roots| ==> roots[k] < |words| && |words[roots[k]]| == 1
  {
    hide DagOf, D.DagWf;
    forall k | 0 <= k < |roots|
      ensures roots[k] < |DagOf(dag, bits, |dag|).1| && |DagOf(dag, bits, |dag|).1[roots[k]]| == 1
    {
      assert D.RootWf(D.Widths(dag, |dag|), roots[k]);
    }
  }

  /** THE ENCODING of a query: its arena and the literals of its roots. */
  function QueryOf(dag: D.Dag, bits: seq<bool>, roots: seq<nat>): (r: (Nodes, Word))
    requires D.QueryWf(dag, |bits|, roots)
    ensures |r.1| == |roots|
  {
    var d := DagOf(dag, bits, |dag|);
    RootsThere(dag, bits, roots);
    (d.0, RootsOf(d.1, roots))
  }
}
