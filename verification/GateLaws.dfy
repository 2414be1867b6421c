/** The derived operators are the compositions they stand for: a node of one
    and the nodes of the other encode to the same arena, gate for gate. */
module GateLaws {
  import opened Wrappers
  import opened Bits
  import opened BvOps
  import opened AigGraph
  import opened GateList
  import D = Dag

  // ---------- one node more ----------

  lemma {:induction false} OffsetKept(dag: D.Dag, dag': D.Dag, n: nat)
    requires dag <= dag' && n <= |dag|
    ensures D.Offset(dag', n) == D.Offset(dag, n)
  {
    if n > 0 {
      OffsetKept(dag, dag', n - 1);
      assert dag'[n - 1] == dag[n - 1];
    }
  }

  lemma {:induction false} PrefixKept(dag: D.Dag, dag': D.Dag, bits: seq<bool>, n: nat)
    requires dag <= dag' && D.DagWf(dag, |bits|) && D.DagWf(dag', |bits|) && n <= |dag|
    ensures DagOf(dag', bits, n) == DagOf(dag, bits, n)
  {
    hide NodeOf, D.DagWf, D.NodeWf;
    if n == 0 {
      DagNone(dag, bits);
      DagNone(dag', bits);
    } else {
      PrefixKept(dag, dag', bits, n - 1);
      DagNext(dag, bits, n - 1);
      DagNext(dag', bits, n - 1);
      D.WidthsGrow(dag, dag', n - 1);
      OffsetKept(dag, dag', n - 1);
      assert dag'[n - 1] == dag[n - 1];
    }
  }

  /** The whole arena and its words. */
  function All(dag: D.Dag, bits: seq<bool>): (r: (Nodes, seq<Word>))
    requires D.DagWf(dag, |bits|)
    ensures |r.1| == |dag| && WordsFit(r.1, D.Widths(dag, |dag|))
  {
    DagOf(dag, bits, |dag|)
  }

  function Width(dag: D.Dag, a: nat): nat
    requires a < |dag|
  {
    D.Widths(dag, |dag|)[a]
  }

  lemma NodeStep(dag: D.Dag, bits: seq<bool>, nd: D.DagNode)
    requires D.DagWf(dag, |bits|) && D.NodeWf(D.Widths(dag, |dag|), |bits|, nd) && !nd.Var?
    ensures var dag', r := dag + [nd], All(dag, bits);
            D.DagWf(dag', |bits|) &&
            D.Widths(dag', |dag'|) == D.Widths(dag, |dag|) + [D.NodeWidth(D.Widths(dag, |dag|), nd)] &&
            var g := NodeOf(r.0, r.1, D.Widths(dag, |dag|), bits, 0, nd);
            All(dag', bits) == (g.0, r.1 + [g.1])
  {
    var dag' := dag + [nd];
    D.PushWf(dag, |bits|, nd);
    PrefixKept(dag, dag', bits, |dag|);
    D.WidthsGrow(dag, dag', |dag|);
    DagNext(dag', bits, |dag|);
    hide D.DagWf, D.NodeWf, DagOf, GatelessOf, BooleanOf, GatesOf, InputsOf;
  }

  lemma BinStep(dag: D.Dag, bits: seq<bool>, op: BinOp, a: nat, b: nat)
    requires D.DagWf(dag, |bits|) && D.SameWidth(D.Widths(dag, |dag|), a, b)
    ensures var dag', r := dag + [D.Bin(op, a, b)], All(dag, bits);
            D.DagWf(dag', |bits|) && D.Widths(dag', |dag'|) == D.Widths(dag, |dag|) + [Width(dag, a)] &&
            |r.1[a]| == |r.1[b]| > 0 &&
            var g := BinOf(r.0, op, r.1[a], r.1[b]);
            All(dag', bits) == (g.0, r.1 + [g.1])
  {
    hide D.DagWf, D.Widths, BinOf, All;
    NodeStep(dag, bits, D.Bin(op, a, b));
  }

  lemma ConstStep(dag: D.Dag, bits: seq<bool>, s: nat, w: nat)
    requires D.DagWf(dag, |bits|) && w > 0 && s + w <= |bits|
    ensures var dag', r := dag + [D.Const(s, w)], All(dag, bits);
            D.DagWf(dag', |bits|) && D.Widths(dag', |dag'|) == D.Widths(dag, |dag|) + [w] &&
            All(dag', bits) == (r.0, r.1 + [ConstOf(bits[s..s + w])])
  {
    hide D.DagWf, D.Widths, ConstOf, All;
    NodeStep(dag, bits, D.Const(s, w));
  }

  /** Two DAGs have one arena, and their last nodes one word. */
  predicate SameCircuit(dag: D.Dag, dag': D.Dag, bits: seq<bool>)
  {
    && |dag| > 0 && |dag'| > 0 && D.DagWf(dag, |bits|) && D.DagWf(dag', |bits|)
    && All(dag, bits).0 == All(dag', bits).0 && All(dag, bits).1[|dag| - 1] == All(dag', bits).1[|dag'| - 1]
  }

  /** The DAG's arena, and its last node's word. */
  predicate Ends(dag: D.Dag, bits: seq<bool>, r: (Nodes, Word))
  {
    |dag| > 0 && D.DagWf(dag, |bits|) && All(dag, bits).0 == r.0 && All(dag, bits).1[|dag| - 1] == r.1
  }

  lemma SameEnds(dag: D.Dag, dag': D.Dag, bits: seq<bool>, r: (Nodes, Word))
    requires Ends(dag, bits, r) && Ends(dag', bits, r)
    ensures SameCircuit(dag, dag', bits)
  {
  }

  lemma BinEnds(dag: D.Dag, bits: seq<bool>, op: BinOp, a: nat, b: nat)
    requires D.DagWf(dag, |bits|) && D.SameWidth(D.Widths(dag, |dag|), a, b)
    ensures var r := All(dag, bits);
            |r.1[a]| == |r.1[b]| > 0 && Ends(dag + [D.Bin(op, a, b)], bits, BinOf(r.0, op, r.1[a], r.1[b]))
  {
    hide D.DagWf, D.Widths, BinOf, All;
    BinStep(dag, bits, op, a, b);
  }

  // ---------- remainders ----------

  /** A quotient, its product with the divisor, and their difference. */
  lemma RestEnds(dag: D.Dag, bits: seq<bool>, op: BinOp, a: nat, b: nat)
    requires D.DagWf(dag, |bits|) && D.SameWidth(D.Widths(dag, |dag|), a, b)
    ensures var n, r := |dag|, All(dag, bits);
            |r.1[a]| == |r.1[b]| > 0 &&
            var q := BinOf(r.0, op, r.1[a], r.1[b]);
            Ends(dag + [D.Bin(op, a, b)] + [D.Bin(Mul, n, b)] + [D.Bin(Sub, a, n + 1)], bits, RestOf(q.0, r.1[a], q.1, r.1[b]))
  {
    hide D.DagWf, D.Widths, All, BinOf, MulOf, SubOf, Ends;
    var n, r := |dag|, All(dag, bits);
    BinStep(dag, bits, op, a, b);
    var q := BinOf(r.0, op, r.1[a], r.1[b]);
    var d1 := dag + [D.Bin(op, a, b)];
    BinStep(d1, bits, Mul, n, b);
    MulIs(q.0, q.1, r.1[b]);
    var p := MulOf(q.0, q.1, r.1[b]);
    var d2 := d1 + [D.Bin(Mul, n, b)];
    BinEnds(d2, bits, Sub, a, n + 1);
    SubIs(p.0, r.1[a], p.1);
  }

  lemma MulIs(ns: Nodes, a: Word, b: Word)
    requires |a| == |b| > 0
    ensures BinOf(ns, Mul, a, b) == MulOf(ns, a, b)
  {
  }

  lemma SubIs(ns: Nodes, a: Word, b: Word)
    requires |a| == |b| > 0
    ensures BinOf(ns, Sub, a, b) == (SubOf(ns, a, b).0, SubOf(ns, a, b).1)
  {
    hide SubOf;
  }

  lemma UremIs(ns: Nodes, a: Word, b: Word)
    requires |a| == |b| > 0
    ensures BinOf(ns, Urem, a, b) == UremOf(ns, a, b)
    ensures var q := BinOf(ns, Udiv, a, b); UremOf(ns, a, b) == RestOf(q.0, a, q.1, b)
  {
    hide UdivremOf, RestOf;
  }

  lemma SremIs(ns: Nodes, a: Word, b: Word)
    requires |a| == |b| > 0
    ensures var q := BinOf(ns, Sdiv, a, b); BinOf(ns, Srem, a, b) == RestOf(q.0, a, q.1, b)
  {
    hide SdivOf, RestOf;
  }

  /** BVUREM is a - (a / b) * b, gate for gate. */
  lemma UremLaw(dag: D.Dag, bits: seq<bool>, a: nat, b: nat)
    requires D.DagWf(dag, |bits|) && D.SameWidth(D.Widths(dag, |dag|), a, b)
    ensures var n := |dag|;
            SameCircuit(dag + [D.Bin(Urem, a, b)],
                        dag + [D.Bin(Udiv, a, b)] + [D.Bin(Mul, n, b)] + [D.Bin(Sub, a, n + 1)], bits)
  {
    hide D.DagWf, D.Widths, All, BinOf, RestOf, SameCircuit, Ends;
    RestEnds(dag, bits, Udiv, a, b);
    BinEnds(dag, bits, Urem, a, b);
    var r := All(dag, bits);
    UremIs(r.0, r.1[a], r.1[b]);
    var n := |dag|;
    SameEnds(dag + [D.Bin(Urem, a, b)], dag + [D.Bin(Udiv, a, b)] + [D.Bin(Mul, n, b)] + [D.Bin(Sub, a, n + 1)], bits,
             BinOf(r.0, Urem, r.1[a], r.1[b]));
  }

  /** BVSREM is a - (a sdiv b) * b, gate for gate. */
  lemma SremLaw(dag: D.Dag, bits: seq<bool>, a: nat, b: nat)
    requires D.DagWf(dag, |bits|) && D.SameWidth(D.Widths(dag, |dag|), a, b)
    ensures var n := |dag|;
            SameCircuit(dag + [D.Bin(Srem, a, b)],
                        dag + [D.Bin(Sdiv, a, b)] + [D.Bin(Mul, n, b)] + [D.Bin(Sub, a, n + 1)], bits)
  {
    hide D.DagWf, D.Widths, All, BinOf, RestOf, SameCircuit, Ends;
    RestEnds(dag, bits, Sdiv, a, b);
    BinEnds(dag, bits, Srem, a, b);
    var r := All(dag, bits);
    SremIs(r.0, r.1[a], r.1[b]);
    var n := |dag|;
    SameEnds(dag + [D.Bin(Srem, a, b)], dag + [D.Bin(Sdiv, a, b)] + [D.Bin(Mul, n, b)] + [D.Bin(Sub, a, n + 1)], bits,
             BinOf(r.0, Srem, r.1[a], r.1[b]));
  }

  // ---------- negation ----------

  lemma NegEnds(dag: D.Dag, bits: seq<bool>, a: nat)
    requires D.DagWf(dag, |bits|) && D.Word(D.Widths(dag, |dag|), a)
    ensures var r := All(dag, bits);
            |r.1[a]| == Width(dag, a) &&
            var g := SubOf(r.0, ConstOf(FromInt(0, Width(dag, a))), r.1[a]);
            Ends(dag + [D.Neg(a)], bits, (g.0, g.1))
  {
    hide D.DagWf, D.Widths, All, SubOf, FromInt;
    NodeStep(dag, bits, D.Neg(a));
  }

  /** BVNEG is 0 - a, gate for gate, wherever the table has the zeros. */
  lemma NegLaw(dag: D.Dag, bits: seq<bool>, a: nat, s: nat)
    requires D.DagWf(dag, |bits|) && D.Word(D.Widths(dag, |dag|), a)
    requires s + Width(dag, a) <= |bits| && bits[s..s + Width(dag, a)] == FromInt(0, Width(dag, a))
    ensures var n := |dag|;
            SameCircuit(dag + [D.Neg(a)], dag + [D.Const(s, Width(dag, a))] + [D.Bin(Sub, n, a)], bits)
  {
    hide D.DagWf, D.Widths, All, BinOf, SubOf, FromInt, SameCircuit, Ends;
    var n, w, r := |dag|, Width(dag, a), All(dag, bits);
    NegEnds(dag, bits, a);
    ConstStep(dag, bits, s, w);
    var d1 := dag + [D.Const(s, w)];
    BinEnds(d1, bits, Sub, n, a);
    var zero := ConstOf(FromInt(0, w));
    SubIs(r.0, zero, r.1[a]);
    SameEnds(dag + [D.Neg(a)], d1 + [D.Bin(Sub, n, a)], bits, BinOf(r.0, Sub, zero, r.1[a]));
  }

  // ---------- comparisons ----------

  lemma CmpStep(dag: D.Dag, bits: seq<bool>, op: CmpOp, a: nat, b: nat)
    requires D.DagWf(dag, |bits|) && D.SameWidth(D.Widths(dag, |dag|), a, b)
    ensures var dag', r := dag + [D.Cmp(op, a, b)], All(dag, bits);
            D.DagWf(dag', |bits|) && D.Widths(dag', |dag'|) == D.Widths(dag, |dag|) + [1] &&
            |r.1[a]| == |r.1[b]| > 0 &&
            var g := CmpOf(r.0, op, r.1[a], r.1[b]);
            All(dag', bits) == (g.0, r.1 + [[g.1]])
  {
    hide D.DagWf, D.Widths, CmpOf, All;
    NodeStep(dag, bits, D.Cmp(op, a, b));
  }

  lemma CmpEnds(dag: D.Dag, bits: seq<bool>, op: CmpOp, a: nat, b: nat)
    requires D.DagWf(dag, |bits|) && D.SameWidth(D.Widths(dag, |dag|), a, b)
    ensures var r := All(dag, bits);
            |r.1[a]| == |r.1[b]| > 0 && Ends(dag + [D.Cmp(op, a, b)], bits, One(CmpOf(r.0, op, r.1[a], r.1[b])))
  {
    hide D.DagWf, D.Widths, CmpOf, All;
    CmpStep(dag, bits, op, a, b);
  }

  lemma NotEnds(dag: D.Dag, bits: seq<bool>, a: nat)
    requires D.DagWf(dag, |bits|) && D.Boolean(D.Widths(dag, |dag|), a)
    ensures var r := All(dag, bits); |r.1[a]| == 1 && Ends(dag + [D.Not(a)], bits, (r.0, [Not(r.1[a][0])]))
  {
    hide D.DagWf, D.Widths, All;
    NodeStep(dag, bits, D.Not(a));
  }

  /** The comparison a negated one stands for. */
  function Opposite(op: CmpOp): Option<(CmpOp, bool)>
  {
    match op
    case Ne => Some((Eq, false))
    case Ule => Some((Ult, true))
    case Uge => Some((Ult, false))
    case Sle => Some((Slt, true))
    case Sge => Some((Slt, false))
    case _ => None
  }

  lemma OppositeIs(ns: Nodes, op: CmpOp, a: Word, b: Word)
    requires |a| == |b| > 0 && Opposite(op).Some?
    ensures var (op', swap) := Opposite(op).value;
            var g := CmpOf(ns, op', if swap then b else a, if swap then a else b);
            CmpOf(ns, op, a, b) == (g.0, Not(g.1))
  {
    hide EqOf, UltOf, SltOf;
  }

  /** DISTINCT and the non-strict comparisons are complements: of equality, or
      of the strict comparison, with the operands exchanged or not. */
  lemma NegatedLaw(dag: D.Dag, bits: seq<bool>, op: CmpOp, a: nat, b: nat)
    requires D.DagWf(dag, |bits|) && D.SameWidth(D.Widths(dag, |dag|), a, b) && Opposite(op).Some?
    ensures var (op', swap) := Opposite(op).value;
            SameCircuit(dag + [D.Cmp(op, a, b)],
                        dag + [if swap then D.Cmp(op', b, a) else D.Cmp(op', a, b)] + [D.Not(|dag|)], bits)
  {
    hide D.DagWf, D.Widths, All, CmpOf, SameCircuit, Ends;
    var (op', swap) := Opposite(op).value;
    var x, y := if swap then b else a, if swap then a else b;
    var r := All(dag, bits);
    CmpEnds(dag, bits, op, a, b);
    CmpStep(dag, bits, op', x, y);
    NotEnds(dag + [D.Cmp(op', x, y)], bits, |dag|);
    OppositeIs(r.0, op, r.1[a], r.1[b]);
    SameEnds(dag + [D.Cmp(op, a, b)], dag + [D.Cmp(op', x, y)] + [D.Not(|dag|)], bits, One(CmpOf(r.0, op, r.1[a], r.1[b])));
  }

  /** The greater-than comparisons are the less-than ones of exchanged
      operands. */
  lemma MirroredLaw(dag: D.Dag, bits: seq<bool>, signed: bool, a: nat, b: nat)
    requires D.DagWf(dag, |bits|) && D.SameWidth(D.Widths(dag, |dag|), a, b)
    ensures SameCircuit(dag + [D.Cmp(if signed then Sgt else Ugt, a, b)],
                        dag + [D.Cmp(if signed then Slt else Ult, b, a)], bits)
  {
    hide D.DagWf, D.Widths, All, UltOf, SltOf, SameCircuit, Ends;
    var op, op' := if signed then Sgt else Ugt, if signed then Slt else Ult;
    var r := All(dag, bits);
    CmpEnds(dag, bits, op, a, b);
    CmpEnds(dag, bits, op', b, a);
    SameEnds(dag + [D.Cmp(op, a, b)], dag + [D.Cmp(op', b, a)], bits, One(CmpOf(r.0, op, r.1[a], r.1[b])));
  }

  // ---------- signed division ----------

  /** ashr by c, then (mask ^ a) - mask. */
  function MagnitudeNodes(n: nat, a: nat, c: nat): D.Dag
  {
    [D.Bin(Ashr, a, c), D.Bin(Xor, n, a), D.Bin(Sub, n + 1, n)]
  }

  /** The sign mask and the magnitude, as three nodes. */
  lemma MagnitudeSteps(dag: D.Dag, bits: seq<bool>, a: nat, c: nat)
    requires D.DagWf(dag, |bits|) && D.SameWidth(D.Widths(dag, |dag|), a, c)
    requires All(dag, bits).1[c] == ConstOf(FromInt(Width(dag, a) - 1, Width(dag, a)))
    ensures var dag', r, w := dag + MagnitudeNodes(|dag|, a, c), All(dag, bits), Width(dag, a);
            D.DagWf(dag', |bits|) && D.Widths(dag', |dag'|) == D.Widths(dag, |dag|) + [w, w, w] && |r.1[a]| == w > 0 &&
            var g := MagnitudeOf(r.0, r.1[a]);
            All(dag', bits).0 == g.0 && r.1 + [g.1] <= All(dag', bits).1 && All(dag', bits).1[|dag| + 2] == g.2
  {
    hide D.DagWf, D.Widths, All, ShiftOf, Bitwise, SubOf, FromInt;
    var n := |dag|;
    BinStep(dag, bits, Ashr, a, c);
    var d1 := dag + [D.Bin(Ashr, a, c)];
    BinStep(d1, bits, Xor, n, a);
    var d2 := d1 + [D.Bin(Xor, n, a)];
    BinStep(d2, bits, Sub, n + 1, n);
    assert d2 + [D.Bin(Sub, n + 1, n)] == dag + MagnitudeNodes(n, a, c);
  }

  /** The unsigned quotient of the magnitudes, its sign put back. */
  function SdivTailNodes(n: nat, sa: nat, absA: nat, sb: nat, absB: nat): D.Dag
  {
    [D.Bin(Udiv, absA, absB), D.Bin(Xor, sa, sb), D.Bin(Xor, n, n + 1), D.Bin(Sub, n + 2, n + 1)]
  }

  lemma SdivTailSteps(dag: D.Dag, bits: seq<bool>, sa: nat, absA: nat, sb: nat, absB: nat)
    requires D.DagWf(dag, |bits|) && D.SameWidth(D.Widths(dag, |dag|), sa, absA)
    requires D.SameWidth(D.Widths(dag, |dag|), sa, sb) && D.SameWidth(D.Widths(dag, |dag|), sa, absB)
    ensures var dag', r := dag + SdivTailNodes(|dag|, sa, absA, sb, absB), All(dag, bits);
            D.DagWf(dag', |bits|) && |r.1[sa]| == |r.1[absA]| == |r.1[sb]| == |r.1[absB]| > 0 &&
            var g := SdivTailOf(r.0, r.1[sa], r.1[absA], r.1[sb], r.1[absB]);
            Ends(dag', bits, g)
  {
    hide D.DagWf, D.Widths, All, UdivremOf, Bitwise, SubOf;
    var n := |dag|;
    BinStep(dag, bits, Udiv, absA, absB);
    var d1 := dag + [D.Bin(Udiv, absA, absB)];
    BinStep(d1, bits, Xor, sa, sb);
    var d2 := d1 + [D.Bin(Xor, sa, sb)];
    BinStep(d2, bits, Xor, n, n + 1);
    var d3 := d2 + [D.Bin(Xor, n, n + 1)];
    BinStep(d3, bits, Sub, n + 2, n + 1);
    assert d3 + [D.Bin(Sub, n + 2, n + 1)] == dag + SdivTailNodes(n, sa, absA, sb, absB);
  }

  lemma SdivIs(ns: Nodes, a: Word, b: Word)
    requires |a| == |b| > 0
    ensures var x := MagnitudeOf(ns, a);
            var y := MagnitudeOf(x.0, b);
            BinOf(ns, Sdiv, a, b) == SdivTailOf(y.0, x.1, x.2, y.1, y.2)
  {
  }

  /** Both magnitudes, in order. */
  lemma TwoMagnitudes(dag: D.Dag, bits: seq<bool>, a: nat, b: nat, c: nat)
    requires D.DagWf(dag, |bits|) && D.SameWidth(D.Widths(dag, |dag|), a, c) && D.SameWidth(D.Widths(dag, |dag|), b, c)
    requires All(dag, bits).1[c] == ConstOf(FromInt(Width(dag, a) - 1, Width(dag, a)))
    ensures var n, r, w := |dag|, All(dag, bits), Width(dag, a);
            var d := dag + MagnitudeNodes(n, a, c) + MagnitudeNodes(n + 3, b, c);
            D.DagWf(d, |bits|) && |d| == n + 6 && (forall i :: n <= i < n + 6 ==> D.Widths(d, |d|)[i] == w) &&
            |r.1[a]| == |r.1[b]| == w > 0 &&
            var x := MagnitudeOf(r.0, r.1[a]);
            var y := MagnitudeOf(x.0, r.1[b]);
            var q := All(d, bits);
            q.0 == y.0 && q.1[n] == x.1 && q.1[n + 2] == x.2 && q.1[n + 3] == y.1 && q.1[n + 5] == y.2
  {
    hide D.DagWf, D.Widths, All, MagnitudeOf, FromInt, MagnitudeNodes;
    var n := |dag|;
    NodeCounts(n, a, c);
    MagnitudeSteps(dag, bits, a, c);
    var d1 := dag + MagnitudeNodes(n, a, c);
    NodeCounts(n + 3, b, c);
    MagnitudeSteps(d1, bits, b, c);
    Kept(d1, d1 + MagnitudeNodes(n + 3, b, c), bits);
    Kept(dag, d1, bits);
  }

  /** Earlier nodes keep their words. */
  lemma Kept(dag: D.Dag, dag': D.Dag, bits: seq<bool>)
    requires dag <= dag' && D.DagWf(dag, |bits|) && D.DagWf(dag', |bits|)
    ensures All(dag, bits).1 <= All(dag', bits).1
  {
    PrefixKept(dag, dag', bits, |dag|);
    WordsGrow(dag', bits, |dag|, |dag'|);
  }

  lemma {:induction false} WordsGrow(dag: D.Dag, bits: seq<bool>, m: nat, n: nat)
    requires D.DagWf(dag, |bits|) && m <= n <= |dag|
    ensures DagOf(dag, bits, m).1 <= DagOf(dag, bits, n).1
    decreases n
  {
    hide NodeOf, D.DagWf, D.NodeWf;
    if m < n {
      WordsGrow(dag, bits, m, n - 1);
      DagNext(dag, bits, n - 1);
    }
  }

  /** The magnitudes and what follows, once the constant is there. */
  lemma SdivEnds(dag: D.Dag, bits: seq<bool>, a: nat, b: nat, c: nat)
    requires D.DagWf(dag, |bits|) && D.SameWidth(D.Widths(dag, |dag|), a, c) && D.SameWidth(D.Widths(dag, |dag|), b, c)
    requires All(dag, bits).1[c] == ConstOf(FromInt(Width(dag, a) - 1, Width(dag, a)))
    ensures var n, r := |dag|, All(dag, bits);
            |r.1[a]| == |r.1[b]| > 0 &&
            var x := MagnitudeOf(r.0, r.1[a]);
            var y := MagnitudeOf(x.0, r.1[b]);
            Ends(dag + MagnitudeNodes(n, a, c) + MagnitudeNodes(n + 3, b, c) + SdivTailNodes(n + 6, n, n + 2, n + 3, n + 5), bits,
                 SdivTailOf(y.0, x.1, x.2, y.1, y.2))
  {
    hide D.DagWf, D.Widths, All, MagnitudeOf, SdivTailOf, FromInt, MagnitudeNodes, SdivTailNodes, Ends;
    var n := |dag|;
    TwoMagnitudes(dag, bits, a, b, c);
    SdivTailSteps(dag + MagnitudeNodes(n, a, c) + MagnitudeNodes(n + 3, b, c), bits, n, n + 2, n + 3, n + 5);
  }

  /** BVSDIV is the sign-mask construction over bvudiv, gate for gate, wherever
      the table has the constant w - 1. */
  lemma SdivLaw(dag: D.Dag, bits: seq<bool>, a: nat, b: nat, s: nat)
    requires D.DagWf(dag, |bits|) && D.SameWidth(D.Widths(dag, |dag|), a, b)
    requires s + Width(dag, a) <= |bits|
    requires bits[s..s + Width(dag, a)] == FromInt(Width(dag, a) - 1, Width(dag, a))
    ensures var n, w := |dag|, Width(dag, a);
            SameCircuit(dag + [D.Bin(Sdiv, a, b)],
                        dag + [D.Const(s, w)] + MagnitudeNodes(n + 1, a, n) + MagnitudeNodes(n + 4, b, n) +
                        SdivTailNodes(n + 7, n + 1, n + 3, n + 4, n + 6), bits)
  {
    hide D.DagWf, D.Widths, All, BinOf, MagnitudeOf, SdivTailOf, FromInt, MagnitudeNodes, SdivTailNodes, SameCircuit, Ends;
    var n, w, r := |dag|, Width(dag, a), All(dag, bits);
    BinEnds(dag, bits, Sdiv, a, b);
    SdivIs(r.0, r.1[a], r.1[b]);
    ConstStep(dag, bits, s, w);
    var d1 := dag + [D.Const(s, w)];
    SdivEnds(d1, bits, a, b, n);
    var d2 := d1 + MagnitudeNodes(n + 1, a, n) + MagnitudeNodes(n + 4, b, n);
    SameEnds(dag + [D.Bin(Sdiv, a, b)], d2 + SdivTailNodes(n + 7, n + 1, n + 3, n + 4, n + 6), bits,
             BinOf(r.0, Sdiv, r.1[a], r.1[b]));
  }

  lemma NodeCounts(n: nat, a: nat, c: nat)
    ensures |MagnitudeNodes(n, a, c)| == 3
  {
  }

  // ---------- left rotation ----------

  lemma RotrIs(ns: Nodes, a: Word, b: Word)
    requires |a| == |b| > 0
    ensures BinOf(ns, Rotr, a, b) == RotrOf(ns, a, b)
  {
    hide RotrOf;
  }

  lemma RotlIs(ns: Nodes, a: Word, b: Word)
    requires |a| == |b| > 0
    ensures BinOf(ns, Rotl, a, b) == RotrOf(LeftAmountOf(ns, b).0, a, LeftAmountOf(ns, b).1)
  {
    hide RotrOf, LeftAmountOf;
  }

  /** An amount built by some nodes, then a right rotation by it: the left
      rotation, when the amount is the left one. */
  lemma RotlByRight(dag: D.Dag, bits: seq<bool>, a: nat, b: nat, d: D.Dag, m: nat)
    requires D.DagWf(dag, |bits|) && D.SameWidth(D.Widths(dag, |dag|), a, b)
    requires D.DagWf(d, |bits|) && D.SameWidth(D.Widths(d, |d|), a, m)
    requires var r := All(dag, bits); var w := LeftAmountOf(r.0, r.1[b]);
             All(d, bits).0 == w.0 && All(d, bits).1[m] == w.1 && All(d, bits).1[a] == r.1[a]
    ensures SameCircuit(dag + [D.Bin(Rotl, a, b)], d + [D.Bin(Rotr, a, m)], bits)
  {
    hide D.DagWf, D.Widths, All, BinOf, RotrOf, LeftAmountOf, SameCircuit, Ends;
    var r, q := All(dag, bits), All(d, bits);
    BinEnds(dag, bits, Rotl, a, b);
    BinEnds(d, bits, Rotr, a, m);
    RotlIs(r.0, r.1[a], r.1[b]);
    RotrIs(q.0, q.1[a], q.1[m]);
    SameEnds(dag + [D.Bin(Rotl, a, b)], d + [D.Bin(Rotr, a, m)], bits, BinOf(r.0, Rotl, r.1[a], r.1[b]));
  }

  /** BVROTL is a right rotation: by 0 - b at a power-of-two width. */
  lemma RotlLaw(dag: D.Dag, bits: seq<bool>, a: nat, b: nat, s: nat)
    requires D.DagWf(dag, |bits|) && D.SameWidth(D.Widths(dag, |dag|), a, b)
    requires Width(dag, a) == Pow2(Stages(Width(dag, a), 0))
    requires s + Width(dag, a) <= |bits| && bits[s..s + Width(dag, a)] == FromInt(0, Width(dag, a))
    ensures var n, w := |dag|, Width(dag, a);
            SameCircuit(dag + [D.Bin(Rotl, a, b)],
                        dag + [D.Const(s, w)] + [D.Bin(Sub, n, b)] + [D.Bin(Rotr, a, n + 1)], bits)
  {
    hide D.DagWf, D.Widths, All, BinOf, SubOf, FromInt, Pow2, Stages, ReducedOf, SameCircuit;
    var n, w := |dag|, Width(dag, a);
    var r := All(dag, bits);
    ConstStep(dag, bits, s, w);
    var d1 := dag + [D.Const(s, w)];
    BinStep(d1, bits, Sub, n, b);
    SubIs(r.0, ConstOf(FromInt(0, w)), r.1[b]);
    RotlByRight(dag, bits, a, b, d1 + [D.Bin(Sub, n, b)], n + 1);
  }

  /** The reduced amount, in three nodes. */
  lemma ReducedSteps(dag: D.Dag, bits: seq<bool>, a: nat, b: nat, c: nat)
    requires D.DagWf(dag, |bits|) && D.SameWidth(D.Widths(dag, |dag|), a, b) && D.SameWidth(D.Widths(dag, |dag|), b, c)
    requires All(dag, bits).1[c] == ConstOf(FromInt(Width(dag, b), Width(dag, b)))
    ensures var n, r := |dag|, All(dag, bits);
            var d := dag + [D.Bin(Urem, b, c)] + [D.Bin(Sub, c, n)] + [D.Bin(Urem, n + 1, c)];
            D.DagWf(d, |bits|) && D.SameWidth(D.Widths(d, |d|), a, n + 2) && |r.1[b]| == Width(dag, b) > 0 &&
            var g := ReducedOf(r.0, r.1[b]);
            All(d, bits).0 == g.0 && All(d, bits).1[n + 2] == g.1 && All(d, bits).1[a] == r.1[a]
  {
    hide D.DagWf, D.Widths, All, BinOf, SubOf, FromInt, UremOf;
    var n, r, modulus := |dag|, All(dag, bits), ConstOf(FromInt(Width(dag, b), Width(dag, b)));
    BinStep(dag, bits, Urem, b, c);
    UremIs(r.0, r.1[b], modulus);
    var u := UremOf(r.0, r.1[b], modulus);
    var d1 := dag + [D.Bin(Urem, b, c)];
    BinStep(d1, bits, Sub, c, n);
    SubIs(u.0, modulus, u.1);
    var v := SubOf(u.0, modulus, u.1);
    var d2 := d1 + [D.Bin(Sub, c, n)];
    BinStep(d2, bits, Urem, n + 1, c);
    UremIs(v.0, v.1, modulus);
  }

  /** And by (w - b urem w) urem w at every other width. */
  lemma RotlReducedLaw(dag: D.Dag, bits: seq<bool>, a: nat, b: nat, s: nat)
    requires D.DagWf(dag, |bits|) && D.SameWidth(D.Widths(dag, |dag|), a, b)
    requires Width(dag, a) != Pow2(Stages(Width(dag, a), 0))
    requires s + Width(dag, a) <= |bits| && bits[s..s + Width(dag, a)] == FromInt(Width(dag, a), Width(dag, a))
    ensures var n, w := |dag|, Width(dag, a);
            SameCircuit(dag + [D.Bin(Rotl, a, b)],
                        dag + [D.Const(s, w)] + [D.Bin(Urem, b, n)] + [D.Bin(Sub, n, n + 1)] + [D.Bin(Urem, n + 2, n)] +
                        [D.Bin(Rotr, a, n + 3)], bits)
  {
    hide D.DagWf, D.Widths, All, ReducedOf, FromInt, Pow2, Stages, SameCircuit, SubOf;
    var n, w := |dag|, Width(dag, a);
    ConstStep(dag, bits, s, w);
    var d1 := dag + [D.Const(s, w)];
    ReducedSteps(d1, bits, a, b, n);
    RotlByRight(dag, bits, a, b, d1 + [D.Bin(Urem, b, n)] + [D.Bin(Sub, n, n + 1)] + [D.Bin(Urem, n + 2, n)], n + 3);
  }
}
