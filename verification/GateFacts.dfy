/** Where every gate of the encoding stands: positions, sizes, and the derived
    operators as the compositions they are. */
module GateFacts {
  import opened Bits
  import opened BvOps
  import opened AigGraph
  import opened GateList
  import D = Dag

  // ---------- bit by bit ----------

  /** The gates at position at are these. */
  predicate GatesAt(ns: Nodes, at: nat, gates: Nodes) { at + |gates| <= |ns| && ns[at..at + |gates|] == gates }

  lemma GatesStay(ns: Nodes, ns': Nodes, at: nat, gates: Nodes)
    requires GatesAt(ns, at, gates) && ns <= ns'
    ensures GatesAt(ns', at, gates)
  {
    assert ns'[at..at + |gates|] == ns[at..at + |gates|];
  }

  lemma GatesAdded(ns: Nodes, gates: Nodes)
    ensures GatesAt(ns + gates, |ns|, gates) && ns <= ns + gates
  {
    assert (ns + gates)[|ns|..|ns| + |gates|] == gates;
  }

  function XorGates(n: nat, x: Lit, y: Lit): Nodes
  {
    [Node.And(x, Not(y)), Node.And(Not(x), y), Node.And(Lit(n, true), Lit(n + 1, true))]
  }

  function MuxGates(n: nat, sel: Lit, t: Lit, e: Lit): Nodes
  {
    [Node.And(sel, t), Node.And(Not(sel), e), Node.And(Lit(n, true), Lit(n + 1, true))]
  }

  /** AND: bit k's gate is the k-th. */
  lemma {:induction false} AndAt(ns: Nodes, a: Word, b: Word, w: nat)
    requires w <= |a| == |b|
    ensures var r := Bitwise(ns, BinOp.And, a, b, w);
            ns <= r.0 && |r.0| == |ns| + w &&
            forall k :: 0 <= k < w ==> r.0[|ns| + k] == Node.And(a[k], b[k]) && r.1[k] == Lit(|ns| + k, false)
  {
    hide Bitwise;
    if w == 0 { BitwiseNone(ns, BinOp.And, a, b); } else {
      AndAt(ns, a, b, w - 1);
      BitwiseNext(ns, BinOp.And, a, b, w - 1);
    }
  }

  /** OR: likewise, by De Morgan. */
  lemma {:induction false} OrAt(ns: Nodes, a: Word, b: Word, w: nat)
    requires w <= |a| == |b|
    ensures var r := Bitwise(ns, BinOp.Or, a, b, w);
            ns <= r.0 && |r.0| == |ns| + w &&
            forall k :: 0 <= k < w ==> r.0[|ns| + k] == Node.And(Not(a[k]), Not(b[k])) && r.1[k] == Lit(|ns| + k, true)
  {
    hide Bitwise;
    if w == 0 { BitwiseNone(ns, BinOp.Or, a, b); } else {
      OrAt(ns, a, b, w - 1);
      BitwiseNext(ns, BinOp.Or, a, b, w - 1);
    }
  }

  /** XOR: bit k's three gates start at 3k. */
  lemma {:induction false} XorAt(ns: Nodes, a: Word, b: Word, w: nat)
    requires w <= |a| == |b|
    ensures var r := Bitwise(ns, BinOp.Xor, a, b, w);
            ns <= r.0 && |r.0| == |ns| + 3 * w &&
            forall k :: 0 <= k < w ==> GatesAt(r.0, |ns| + 3 * k, XorGates(|ns| + 3 * k, a[k], b[k])) &&
                                       r.1[k] == Lit(|ns| + 3 * k + 2, true)
  {
    hide Bitwise, GatesAt;
    if w == 0 { BitwiseNone(ns, BinOp.Xor, a, b); } else {
      XorAt(ns, a, b, w - 1);
      BitwiseNext(ns, BinOp.Xor, a, b, w - 1);
      var r, r' := Bitwise(ns, BinOp.Xor, a, b, w - 1), Bitwise(ns, BinOp.Xor, a, b, w);
      GatesAdded(r.0, XorGates(|r.0|, a[w - 1], b[w - 1]));
      forall k | 0 <= k < w - 1 ensures GatesAt(r'.0, |ns| + 3 * k, XorGates(|ns| + 3 * k, a[k], b[k])) {
        GatesStay(r.0, r'.0, |ns| + 3 * k, XorGates(|ns| + 3 * k, a[k], b[k]));
      }
    }
  }

  /** ITE: bit k's multiplexer starts at 3k. */
  lemma {:induction false} IteAt(ns: Nodes, c: Lit, t: Word, e: Word, w: nat)
    requires w <= |t| == |e|
    ensures var r := IteOf(ns, c, t, e, w);
            ns <= r.0 && |r.0| == |ns| + 3 * w &&
            forall k :: 0 <= k < w ==> GatesAt(r.0, |ns| + 3 * k, MuxGates(|ns| + 3 * k, c, t[k], e[k])) &&
                                       r.1[k] == Lit(|ns| + 3 * k + 2, true)
  {
    hide IteOf, GatesAt;
    if w == 0 { IteNone(ns, c, t, e); } else {
      IteAt(ns, c, t, e, w - 1);
      IteNext(ns, c, t, e, w - 1);
      var r, r' := IteOf(ns, c, t, e, w - 1), IteOf(ns, c, t, e, w);
      GatesAdded(r.0, MuxGates(|r.0|, c, t[w - 1], e[w - 1]));
      forall k | 0 <= k < w - 1 ensures GatesAt(r'.0, |ns| + 3 * k, MuxGates(|ns| + 3 * k, c, t[k], e[k])) {
        GatesStay(r.0, r'.0, |ns| + 3 * k, MuxGates(|ns| + 3 * k, c, t[k], e[k]));
      }
    }
  }

  // ---------- carries ----------

  /** The nine gates of an adder column at n: two exclusive ors, the two carry
      terms, their disjunction. */
  function AdderGates(n: nat, x: Lit, y: Lit, c: Lit): Nodes
  {
    var p := Lit(n + 2, true);
    XorGates(n, x, y) + XorGates(n + 3, p, c) +
    [Node.And(x, y), Node.And(p, c), Node.And(Lit(n + 6, true), Lit(n + 7, true))]
  }

  lemma AdderIs(ns: Nodes, x: Lit, y: Lit, c: Lit)
    ensures var n := |ns|;
            AdderOf(ns, x, y, c) == (ns + AdderGates(n, x, y, c), Lit(n + 5, true), Lit(n + 8, true))
  {
    var n, p := |ns|, Lit(|ns| + 2, true);
    XorIs(ns, x, y);
    var one := ns + XorGates(n, x, y);
    XorIs(one, p, c);
    var two := one + XorGates(n + 3, p, c);
    var tail := [Node.And(x, y), Node.And(p, c), Node.And(Lit(n + 6, true), Lit(n + 7, true))];
    Three(two, tail[0], tail[1], tail[2]);
    assert two + tail == ns + AdderGates(n, x, y, c);
  }

  /** The carry into column k of a ripple chain that starts at n. */
  function CarryInto(n: nat, c: Lit, k: nat): Lit { if k == 0 then c else Lit(n + 9 * k - 1, true) }

  /** ADD: column k's nine gates start at 9k, on the carry of column k - 1. */
  lemma {:induction false} RippleAt(ns: Nodes, a: Word, b: Word, c: Lit, w: nat)
    requires w <= |a| == |b|
    ensures var r := RippleOf(ns, a, b, c, w);
            var n := |ns|;
            ns <= r.0 && |r.0| == n + 9 * w && r.2 == CarryInto(n, c, w) &&
            forall k :: 0 <= k < w ==>
              GatesAt(r.0, n + 9 * k, AdderGates(n + 9 * k, a[k], b[k], CarryInto(n, c, k))) && r.1[k] == Lit(n + 9 * k + 5, true)
  {
    hide GatesAt, AdderOf, AdderGates;
    if w > 0 {
      RippleAt(ns, a, b, c, w - 1);
      var r, r', n := RippleOf(ns, a, b, c, w - 1), RippleOf(ns, a, b, c, w), |ns|;
      AdderIs(r.0, a[w - 1], b[w - 1], r.2);
      AdderSize(|r.0|, a[w - 1], b[w - 1], r.2);
      GatesAdded(r.0, AdderGates(|r.0|, a[w - 1], b[w - 1], r.2));
      forall k | 0 <= k < w - 1
        ensures GatesAt(r'.0, n + 9 * k, AdderGates(n + 9 * k, a[k], b[k], CarryInto(n, c, k)))
      {
        GatesStay(r.0, r'.0, n + 9 * k, AdderGates(n + 9 * k, a[k], b[k], CarryInto(n, c, k)));
      }
    }
  }

  lemma AdderSize(n: nat, x: Lit, y: Lit, c: Lit)
    ensures |AdderGates(n, x, y, c)| == 9
  {
  }

  /** EQ: bit k's four gates start at 4k, the last joining the answer so far. */
  lemma {:induction false} EqAt(ns: Nodes, a: Word, b: Word, w: nat)
    requires w <= |a| == |b|
    ensures var r := EqOf(ns, a, b, w);
            var n := |ns|;
            ns <= r.0 && |r.0| == n + 4 * w && r.1 == (if w == 0 then LIT_TRUE else Lit(n + 4 * w - 1, false)) &&
            forall k :: 0 <= k < w ==>
              GatesAt(r.0, n + 4 * k, XorGates(n + 4 * k, a[k], b[k]) + [EqGate(n, k)])
  {
    hide EqOf, GatesAt;
    if w == 0 { EqNone(ns, a, b); } else {
      EqAt(ns, a, b, w - 1);
      EqNext(ns, a, b, w - 1);
      var r, r', n := EqOf(ns, a, b, w - 1), EqOf(ns, a, b, w), |ns|;
      var gates := XorGates(|r.0|, a[w - 1], b[w - 1]) + [EqGate(n, w - 1)];
      GatesAdded(r.0, gates);
      assert r.0 + XorGates(|r.0|, a[w - 1], b[w - 1]) + [EqGate(n, w - 1)] == r.0 + gates;
      forall k | 0 <= k < w - 1 ensures GatesAt(r'.0, n + 4 * k, XorGates(n + 4 * k, a[k], b[k]) + [EqGate(n, k)]) {
        GatesStay(r.0, r'.0, n + 4 * k, XorGates(n + 4 * k, a[k], b[k]) + [EqGate(n, k)]);
      }
    }
  }

  function EqGate(n: nat, k: nat): Node
  {
    Node.And(if k == 0 then LIT_TRUE else Lit(n + 4 * k - 1, false), Lit(n + 4 * k + 2, false))
  }

  /** OR over a range: gate k joins bit lo + k. */
  lemma {:induction false} AnyAt(ns: Nodes, b: Word, lo: nat, hi: nat)
    requires lo <= hi <= |b|
    ensures var r := AnyOf(ns, b, lo, hi);
            ns <= r.0 && |r.0| == |ns| + hi - lo && r.1 == AnyLit(|ns|, hi - lo) &&
            forall k :: 0 <= k < hi - lo ==> r.0[|ns| + k] == Node.And(Not(AnyLit(|ns|, k)), Not(b[lo + k]))
    decreases hi
  {
    hide AnyOf;
    if lo == hi { AnyNone(ns, b, lo); } else {
      AnyAt(ns, b, lo, hi - 1);
      AnyNext(ns, b, lo, hi - 1);
    }
  }

  function AnyLit(n: nat, k: nat): Lit { if k == 0 then LIT_FALSE else Lit(n + k - 1, true) }

  // ---------- barrels ----------

  /** Where block k of equal blocks begins. */
  function Start(n: nat, size: nat, k: nat): (at: nat)
    ensures n <= at
  {
    if k == 0 then n else Start(n, size, k - 1) + size
  }

  lemma {:induction false} StartIs(n: nat, size: nat, k: nat)
    ensures Start(n, size, k) == n + k * size
  {
    if k > 0 {
      StartIs(n, size, k - 1);
      MulDist(size, k - 1, 1);
    }
  }

  /** The word after k stages of a barrel that starts at n. */
  function AfterStages(n: nat, a: Word, k: nat): (cur: Word)
    ensures |cur| == |a|
  {
    if k == 0 then a else
    seq(|a|, i requires 0 <= i < |a| => Lit(Start(n, 3 * |a|, k - 1) + 3 * i + 2, true))
  }

  /** Bit i of stage k: a multiplexer on amount bit k between the moved bit and
      the bit itself. */
  predicate StageBit(ns: Nodes, n: nat, mv: Move, a: Word, b: Word, k: nat, i: nat)
    requires k < |b| && i < |a|
  {
    var at, cur := Start(n, 3 * |a|, k) + 3 * i, AfterStages(n, a, k);
    GatesAt(ns, at, MuxGates(at, b[k], Moved(mv, cur, Pow2(k))[i], cur[i]))
  }

  /** SHIFTS AND ROTATIONS: stage k starts after k stages of 3w gates. */
  lemma {:induction false} BarrelAt(ns: Nodes, mv: Move, a: Word, b: Word, stages: nat)
    requires stages <= |b|
    ensures var r := BarrelOf(ns, mv, a, b, stages);
            ns <= r.0 && |r.0| == Start(|ns|, 3 * |a|, stages) && r.1 == AfterStages(|ns|, a, stages) &&
            forall k, i :: 0 <= k < stages && 0 <= i < |a| ==> StageBit(r.0, |ns|, mv, a, b, k, i)
  {
    hide BarrelOf, GatesAt, IteOf, Moved, MuxGates, Pow2;
    if stages == 0 { BarrelNone(ns, mv, a, b); } else {
      var k' := stages - 1;
      BarrelAt(ns, mv, a, b, k');
      BarrelNext(ns, mv, a, b, k');
      var r, r' := BarrelOf(ns, mv, a, b, k'), BarrelOf(ns, mv, a, b, stages);
      IteAt(r.0, b[k'], Moved(mv, r.1, Pow2(k')), r.1, |a|);
      assert r'.1 == AfterStages(|ns|, a, stages);
      forall k, i | 0 <= k < stages && 0 <= i < |a| ensures StageBit(r'.0, |ns|, mv, a, b, k, i) {
        if k < k' {
          assert StageBit(r.0, |ns|, mv, a, b, k, i);
          var at, cur := Start(|ns|, 3 * |a|, k) + 3 * i, AfterStages(|ns|, a, k);
          GatesStay(r.0, r'.0, at, MuxGates(at, b[k], Moved(mv, cur, Pow2(k))[i], cur[i]));
        }
      }
    }
  }

  // ---------- the multiplier ----------

  /** The carry into the cell of bit c, in a row that starts at n and bit i. */
  function CellCarry(n: nat, i: nat, c: nat): Lit
    requires i <= c
  {
    if c == i then LIT_FALSE else Lit(n + 10 * (c - i) - 1, true)
  }

  /** The ten gates of a cell at n: the partial product, and the adder. */
  function CellGates(n: nat, x: Lit, bi: Lit, o: Lit, carry: Lit): (gates: Nodes)
  {
    [Node.And(x, bi)] + AdderGates(n + 1, o, Lit(n, false), carry)
  }

  lemma CellSize(n: nat, x: Lit, bi: Lit, o: Lit, carry: Lit)
    ensures |CellGates(n, x, bi, o, carry)| == 10
  {
    AdderSize(n + 1, o, Lit(n, false), carry);
  }

  predicate CellBit(ns: Nodes, n: nat, acc: Word, a: Word, bi: Lit, i: nat, c: nat)
    requires i <= c < |a| == |acc|
  {
    var at := n + 10 * (c - i);
    GatesAt(ns, at, CellGates(at, a[c - i], bi, acc[c], CellCarry(n, i, c)))
  }

  /** The accumulator after a row's cells up to bit j. */
  function AfterCells(n: nat, acc: Word, i: nat, j: nat): (r: Word)
    requires i <= j <= |acc|
    ensures |r| == |acc|
  {
    seq(|acc|, c requires 0 <= c < |acc| => if i <= c < j then Lit(n + 10 * (c - i) + 6, true) else acc[c])
  }

  lemma CellStep(ns: Nodes, x: Lit, bi: Lit, o: Lit, carry: Lit)
    ensures var n := |ns|;
            AdderOf(ns + [Node.And(x, bi)], o, Lit(n, false), carry) ==
            (ns + CellGates(n, x, bi, o, carry), Lit(n + 6, true), Lit(n + 9, true))
  {
    var n := |ns|;
    AdderIs(ns + [Node.And(x, bi)], o, Lit(n, false), carry);
    hide AdderGates, AdderOf;
    assert ns + [Node.And(x, bi)] + AdderGates(n + 1, o, Lit(n, false), carry) == ns + CellGates(n, x, bi, o, carry);
  }

  /** A ROW: the cell of bit c is the (c - i)-th. */
  lemma {:induction false} CellsAt(ns: Nodes, acc: Word, a: Word, bi: Lit, i: nat, j: nat)
    requires i <= j <= |a| == |acc|
    ensures var r := CellsOf(ns, acc, a, bi, i, j);
            var n := |ns|;
            ns <= r.0 && |r.0| == n + 10 * (j - i) && r.1 == AfterCells(n, acc, i, j) && r.2 == CellCarry(n, i, j) &&
            forall c :: i <= c < j ==> CellBit(r.0, n, acc, a, bi, i, c)
    decreases j
  {
    hide CellsOf, GatesAt, AdderOf, CellGates;
    var n := |ns|;
    if i == j {
      CellsNone(ns, acc, a, bi, i);
      assert AfterCells(n, acc, i, i) == acc;
    } else {
      var c' := j - 1;
      CellsAt(ns, acc, a, bi, i, c');
      CellsNext(ns, acc, a, bi, i, c');
      var r, r' := CellsOf(ns, acc, a, bi, i, c'), CellsOf(ns, acc, a, bi, i, j);
      CellStep(r.0, a[c' - i], bi, r.1[c'], r.2);
      CellSize(|r.0|, a[c' - i], bi, r.1[c'], r.2);
      GatesAdded(r.0, CellGates(|r.0|, a[c' - i], bi, r.1[c'], r.2));
      assert r'.1 == AfterCells(n, acc, i, j);
      forall c | i <= c < j ensures CellBit(r'.0, n, acc, a, bi, i, c) {
        if c < c' {
          assert CellBit(r.0, n, acc, a, bi, i, c);
          var at := n + 10 * (c - i);
          GatesStay(r.0, r'.0, at, CellGates(at, a[c - i], bi, acc[c], CellCarry(n, i, c)));
        }
      }
    }
  }

  /** Where row i begins. */
  function RowStart(n: nat, w: nat, i: nat): nat
    requires i <= w
  {
    if i == 0 then n else RowStart(n, w, i - 1) + 10 * (w - (i - 1))
  }

  /** The accumulator before row i. */
  function AccBefore(n: nat, w: nat, i: nat): (acc: Word)
    requires i <= w
    ensures |acc| == w
  {
    if i == 0 then Same(LIT_FALSE, w) else AfterCells(RowStart(n, w, i - 1), AccBefore(n, w, i - 1), i - 1, w)
  }

  predicate MulBit(ns: Nodes, n: nat, a: Word, b: Word, i: nat, c: nat)
    requires i <= c < |a| == |b|
  {
    CellBit(ns, RowStart(n, |a|, i), AccBefore(n, |a|, i), a, b[i], i, c)
  }

  lemma CellStays(ns: Nodes, ns': Nodes, n: nat, acc: Word, a: Word, bi: Lit, i: nat, c: nat)
    requires i <= c < |a| == |acc| && ns <= ns' && CellBit(ns, n, acc, a, bi, i, c)
    ensures CellBit(ns', n, acc, a, bi, i, c)
  {
    var at := n + 10 * (c - i);
    GatesStay(ns, ns', at, CellGates(at, a[c - i], bi, acc[c], CellCarry(n, i, c)));
  }

  /** MUL: row i adds a, gated by bit i of b, from bit i up; its cells stand in
      order after the rows before it. */
  lemma {:induction false} MulAt(ns: Nodes, a: Word, b: Word, rows: nat)
    requires rows <= |a| == |b|
    ensures var r := RowsOf(ns, a, b, rows);
            var n := |ns|;
            ns <= r.0 && |r.0| == RowStart(n, |a|, rows) && r.1 == AccBefore(n, |a|, rows) &&
            forall i, c :: 0 <= i < rows && i <= c < |a| ==> MulBit(r.0, n, a, b, i, c)
  {
    hide RowsOf, CellsOf, CellBit, AfterCells, Same;
    var n, w := |ns|, |a|;
    if rows == 0 { RowsNone(ns, a, b); } else {
      var i' := rows - 1;
      MulAt(ns, a, b, i');
      RowsNext(ns, a, b, i');
      var r, r' := RowsOf(ns, a, b, i'), RowsOf(ns, a, b, rows);
      CellsAt(r.0, r.1, a, b[i'], i', w);
      forall i, c | 0 <= i < rows && i <= c < w ensures MulBit(r'.0, n, a, b, i, c) {
        if i < i' {
          assert MulBit(r.0, n, a, b, i, c);
          CellStays(r.0, r'.0, RowStart(n, w, i), AccBefore(n, w, i), a, b[i], i, c);
        }
      }
    }
  }

  lemma {:induction false} RowStartIs(n: nat, w: nat, i: nat)
    requires i <= w
    ensures RowStart(n, w, i) == n + 10 * (w * i) - 5 * (i * (i - 1))
  {
    if i > 0 {
      RowStartIs(n, w, i - 1);
      MulDist(w, i - 1, 1);
      MulDist(i - 1, i - 2, 2);
    }
  }

  // ---------- the divider ----------

  /** The remainder after a restoring step at n. */
  function RemAt(n: nat, w: nat): (rem: Word)
    ensures |rem| == w
  {
    seq(w, c requires 0 <= c < w => Lit(n + 9 * w + 1 + 3 * c + 2, true))
  }

  /** The remainder shifted up, with x brought in. */
  function ShiftedIn(rem: Word, x: Lit): (shifted: Word)
    requires |rem| > 0
    ensures |shifted| == |rem|
  {
    [x] + rem[..|rem| - 1]
  }

  /** Bit c of a restoring step at n: a column of shifted - b, and a multiplexer
      between that difference and the shifted remainder. */
  predicate RestoreBit(ns: Nodes, n: nat, shifted: Word, b: Word, c: nat)
    requires c < |shifted| == |b|
  {
    var w := |b|;
    && GatesAt(ns, n + 9 * c, AdderGates(n + 9 * c, shifted[c], Not(b[c]), CarryInto(n, LIT_TRUE, c)))
    && GatesAt(ns, n + 9 * w + 1 + 3 * c,
               MuxGates(n + 9 * w + 1 + 3 * c, Lit(n + 9 * w, true), Lit(n + 9 * c + 5, true), shifted[c]))
  }

  /** ONE STEP OF THE DIVIDER: subtract, decide, restore. */
  lemma RestoreAt(ns: Nodes, rem: Word, x: Lit, b: Word)
    requires |rem| == |b| > 0
    ensures var r := RestoreOf(ns, rem, x, b);
            var n, w := |ns|, |b|;
            ns <= r.0 && |r.0| == n + 12 * w + 1 && r.1 == RemAt(n, w) && r.2 == Lit(n + 9 * w, true) &&
            GatesAt(r.0, n + 9 * w, [Node.And(Not(rem[w - 1]), Not(CarryInto(n, LIT_TRUE, w)))]) &&
            forall c :: 0 <= c < w ==> RestoreBit(r.0, n, ShiftedIn(rem, x), b, c)
  {
    hide RippleOf, IteOf, GatesAt, AdderGates, MuxGates;
    var n, w := |ns|, |b|;
    var shifted := ShiftedIn(rem, x);
    var d := SubOf(ns, shifted, b);
    RippleAt(ns, shifted, NotWord(b), LIT_TRUE, w);
    var ge := OrOf(d.0, rem[w - 1], d.2);
    GatesAdded(d.0, [Node.And(Not(rem[w - 1]), Not(d.2))]);
    var r := IteOf(ge.0, ge.1, d.1, shifted, w);
    IteAt(ge.0, ge.1, d.1, shifted, w);
    assert r.1 == RemAt(n, w);
    GatesStay(ge.0, r.0, n + 9 * w, [Node.And(Not(rem[w - 1]), Not(d.2))]);
    forall c | 0 <= c < w ensures RestoreBit(r.0, n, shifted, b, c) {
      GatesStay(d.0, r.0, n + 9 * c, AdderGates(n + 9 * c, shifted[c], Not(b[c]), CarryInto(n, LIT_TRUE, c)));
    }
  }

  /** The remainder before step k of a division that starts at n. */
  function RemBefore(n: nat, w: nat, k: nat): (rem: Word)
    ensures |rem| == w
  {
    if k == 0 then Same(LIT_FALSE, w) else RemAt(Start(n, 12 * w + 1, k - 1), w)
  }

  predicate DivideBit(ns: Nodes, n: nat, a: Word, b: Word, k: nat, c: nat)
    requires k < |a| == |b| && c < |a|
  {
    var w, at := |a|, Start(n, 12 * |a| + 1, k);
    RestoreBit(ns, at, ShiftedIn(RemBefore(n, w, k), a[w - 1 - k]), b, c) &&
    GatesAt(ns, at + 9 * w, [Node.And(Not(RemBefore(n, w, k)[w - 1]), Not(CarryInto(at, LIT_TRUE, w)))])
  }

  lemma RestoreStays(ns: Nodes, ns': Nodes, n: nat, shifted: Word, b: Word, c: nat)
    requires c < |shifted| == |b| && ns <= ns' && RestoreBit(ns, n, shifted, b, c)
    ensures RestoreBit(ns', n, shifted, b, c)
  {
    hide GatesAt, AdderGates, MuxGates;
    var w := |b|;
    GatesStay(ns, ns', n + 9 * c, AdderGates(n + 9 * c, shifted[c], Not(b[c]), CarryInto(n, LIT_TRUE, c)));
    GatesStay(ns, ns', n + 9 * w + 1 + 3 * c,
              MuxGates(n + 9 * w + 1 + 3 * c, Lit(n + 9 * w, true), Lit(n + 9 * c + 5, true), shifted[c]));
  }

  /** The quotient after k steps: the bits decided so far, from the top. */
  function QuoAfter(n: nat, w: nat, k: nat): (quo: Word)
    requires k <= w
    ensures |quo| == w
  {
    seq(w, i requires 0 <= i < w => if i < w - k then LIT_FALSE else Lit(Start(n, 12 * w + 1, w - 1 - i) + 9 * w, true))
  }

  /** UDIV: step k stands after k steps of 12w + 1 gates and brings in dividend
      bit w - 1 - k. */
  lemma {:induction false} DivideAt(ns: Nodes, a: Word, b: Word, steps: nat)
    requires steps <= |a| == |b| && |a| > 0
    ensures var r := DivideOf(ns, a, b, steps);
            var n, w := |ns|, |a|;
            ns <= r.0 && |r.0| == Start(n, 12 * w + 1, steps) && r.1 == QuoAfter(n, w, steps) && r.2 == RemBefore(n, w, steps) &&
            forall k, c :: 0 <= k < steps && 0 <= c < w ==> DivideBit(r.0, n, a, b, k, c)
  {
    hide DivideOf, RestoreOf, RestoreBit, GatesAt, RemAt, Same, ShiftedIn;
    var n, w := |ns|, |a|;
    if steps == 0 {
      DivideNone(ns, a, b);
      AllFalse(n, w);
    } else {
      var k' := steps - 1;
      DivideAt(ns, a, b, k');
      DivideNext(ns, a, b, k');
      var r, r' := DivideOf(ns, a, b, k'), DivideOf(ns, a, b, steps);
      RestoreAt(r.0, r.2, a[w - 1 - k'], b);
      assert r'.1 == QuoAfter(n, w, steps);
      forall k, c | 0 <= k < steps && 0 <= c < w ensures DivideBit(r'.0, n, a, b, k, c) {
        if k < k' {
          assert DivideBit(r.0, n, a, b, k, c);
          var at := Start(n, 12 * w + 1, k);
          RestoreStays(r.0, r'.0, at, ShiftedIn(RemBefore(n, w, k), a[w - 1 - k]), b, c);
          GatesStay(r.0, r'.0, at + 9 * w, [Node.And(Not(RemBefore(n, w, k)[w - 1]), Not(CarryInto(at, LIT_TRUE, w)))]);
        }
      }
    }
  }

  lemma AllFalse(n: nat, w: nat)
    ensures QuoAfter(n, w, 0) == Same(LIT_FALSE, w)
  {
  }

  // ---------- sizes ----------

  function ShiftGates(w: nat): nat
    requires w > 0
  {
    StagesFit(w);
    Start(0, 3 * w, Stages(w, 0)) + (w - Stages(w, 0)) + 3 * w
  }

  function MulGates(w: nat): nat { 5 * (w * w) + 5 * w }

  function UdivGates(w: nat): nat { 12 * (w * w) + 8 * w }

  function UremGates(w: nat): nat { UdivGates(w) + MulGates(w) + 9 * w }

  function RotrGates(w: nat): nat
    requires w > 0
  {
    Start(0, 3 * w, Stages(w, 0)) + if w == Pow2(Stages(w, 0)) then 0 else UremGates(w)
  }

  function SdivGates(w: nat): nat
    requires w > 0
  {
    2 * ShiftGates(w) + UdivGates(w) + 39 * w
  }

  /** How many gates an operator takes at width w, exactly. */
  function BinGates(op: BinOp, w: nat): nat
    requires w > 0
  {
    match op
    case Add => 9 * w
    case Sub => 9 * w
    case Mul => MulGates(w)
    case Udiv => UdivGates(w)
    case Urem => UremGates(w)
    case And => w
    case Or => w
    case Xor => 3 * w
    case Shl => ShiftGates(w)
    case Lshr => ShiftGates(w)
    case Ashr => ShiftGates(w)
    case Rotr => RotrGates(w)
    case Rotl => RotrGates(w) + 9 * w + if w == Pow2(Stages(w, 0)) then 0 else 2 * UremGates(w)
    case Sdiv => SdivGates(w)
    case Srem => SdivGates(w) + MulGates(w) + 9 * w
  }

  /** r is ns and so many nodes more. */
  predicate Adds(ns: Nodes, r: Nodes, gates: nat) { ns <= r && |r| == |ns| + gates }

  lemma {:induction false} StartShift(n: nat, size: nat, k: nat)
    ensures Start(n, size, k) == n + Start(0, size, k)
  {
    if k > 0 { StartShift(n, size, k - 1); }
  }

  lemma SubSize(ns: Nodes, a: Word, b: Word)
    requires |a| == |b|
    ensures Adds(ns, SubOf(ns, a, b).0, 9 * |a|)
  {
    hide RippleOf, GatesAt;
    RippleAt(ns, a, NotWord(b), LIT_TRUE, |a|);
  }

  lemma BarrelSize(ns: Nodes, mv: Move, a: Word, b: Word, stages: nat)
    requires stages <= |b|
    ensures Adds(ns, BarrelOf(ns, mv, a, b, stages).0, Start(0, 3 * |a|, stages))
  {
    hide BarrelOf, StageBit;
    BarrelAt(ns, mv, a, b, stages);
    StartShift(|ns|, 3 * |a|, stages);
  }

  lemma IteSize(ns: Nodes, c: Lit, t: Word, e: Word)
    requires |t| == |e|
    ensures Adds(ns, IteOf(ns, c, t, e, |t|).0, 3 * |t|)
  {
    hide IteOf, GatesAt;
    IteAt(ns, c, t, e, |t|);
  }

  lemma AnySize(ns: Nodes, b: Word, lo: nat)
    requires lo <= |b|
    ensures Adds(ns, AnyOf(ns, b, lo, |b|).0, |b| - lo)
  {
    hide AnyOf;
    AnyAt(ns, b, lo, |b|);
  }

  lemma ShiftSize(ns: Nodes, mv: Move, a: Word, b: Word)
    requires |a| == |b| > 0
    ensures Adds(ns, ShiftOf(ns, mv, a, b).0, ShiftGates(|a|))
  {
    hide BarrelOf, IteOf, AnyOf, Stages, Start;
    StagesFit(|a|);
    var s := Stages(|a|, 0);
    var r := BarrelOf(ns, mv, a, b, s);
    BarrelSize(ns, mv, a, b, s);
    AnySize(r.0, b, s);
    var o := AnyOf(r.0, b, s, |b|);
    IteSize(o.0, o.1, Same(if mv.Right? then mv.fill else LIT_FALSE, |b|), r.1);
  }

  lemma MulSize(ns: Nodes, a: Word, b: Word)
    requires |a| == |b|
    ensures Adds(ns, MulOf(ns, a, b).0, MulGates(|a|))
  {
    hide RowsOf, MulBit, RowStart, AccBefore;
    var w := |a|;
    MulAt(ns, a, b, w);
    RowStartIs(|ns|, w, w);
    MulDist(w, w, -1);
  }

  lemma UdivSize(ns: Nodes, a: Word, b: Word)
    requires |a| == |b| > 0
    ensures Adds(ns, UdivremOf(ns, a, b).0, UdivGates(|a|))
  {
    hide DivideOf, IteOf, AnyOf, DivideBit, Start, RemBefore, QuoAfter;
    var w := |a|;
    DivideAt(ns, a, b, w);
    StartIs(|ns|, 12 * w + 1, w);
    MulDist(w, 12 * w, 1);
    MulAssoc(12, w, w);
    var d := DivideOf(ns, a, b, w);
    AnySize(d.0, b, 0);
    var nz := AnyOf(d.0, b, 0, w);
    IteSize(nz.0, Not(nz.1), Same(LIT_TRUE, w), d.1);
    var q := IteOf(nz.0, Not(nz.1), Same(LIT_TRUE, w), d.1, w);
    IteSize(q.0, Not(nz.1), a, d.2);
  }

  lemma RestSize(ns: Nodes, a: Word, q: Word, b: Word)
    requires |a| == |q| == |b|
    ensures Adds(ns, RestOf(ns, a, q, b).0, MulGates(|a|) + 9 * |a|)
  {
    hide MulOf, SubOf, MulGates;
    MulSize(ns, q, b);
    SubSize(MulOf(ns, q, b).0, a, MulOf(ns, q, b).1);
  }

  lemma UremSize(ns: Nodes, a: Word, b: Word)
    requires |a| == |b| > 0
    ensures Adds(ns, UremOf(ns, a, b).0, UremGates(|a|))
  {
    hide UdivremOf, RestOf, UdivGates, MulGates;
    var q := UdivremOf(ns, a, b);
    UdivSize(ns, a, b);
    RestSize(q.0, a, q.1, b);
  }

  lemma RotrSize(ns: Nodes, a: Word, b: Word)
    requires |a| == |b| > 0
    ensures Adds(ns, RotrOf(ns, a, b).0, RotrGates(|a|))
  {
    hide UremOf, BarrelOf, UremGates, Stages, Start, Pow2, FromInt;
    StagesFit(|a|);
    var s := Stages(|a|, 0);
    var modulus := ConstOf(FromInt(|a|, |a|));
    UremSize(ns, b, modulus);
    var m := if |a| == Pow2(s) then (ns, b) else UremOf(ns, b, modulus);
    BarrelSize(m.0, Turn, a, m.1, s);
  }

  lemma RotlSize(ns: Nodes, a: Word, b: Word)
    requires |a| == |b| > 0
    ensures Adds(ns, RotlOf(ns, a, b).0, BinGates(Rotl, |a|))
  {
    hide UremOf, SubOf, RotrOf, UremGates, RotrGates, Stages, Pow2, FromInt;
    var w := |a|;
    if w == Pow2(Stages(w, 0)) {
      SubSize(ns, ConstOf(FromInt(0, w)), b);
    } else {
      var modulus := ConstOf(FromInt(w, w));
      UremSize(ns, b, modulus);
      var r := UremOf(ns, b, modulus);
      SubSize(r.0, modulus, r.1);
      var d := SubOf(r.0, modulus, r.1);
      UremSize(d.0, d.1, modulus);
    }
    var m := LeftAmountOf(ns, b);
    RotrSize(m.0, a, m.1);
  }

  lemma FlipSize(ns: Nodes, x: Word, y: Word, mask: Word)
    requires |x| == |y| == |mask|
    ensures Adds(ns, FlipOf(ns, x, y, mask).0, 12 * |x|)
  {
    hide Bitwise, SubOf, GatesAt;
    XorAt(ns, x, y, |x|);
    var f := Bitwise(ns, BinOp.Xor, x, y, |x|);
    SubSize(f.0, f.1, mask);
  }

  lemma MagnitudeSize(ns: Nodes, a: Word)
    requires |a| > 0
    ensures Adds(ns, MagnitudeOf(ns, a).0, ShiftGates(|a|) + 12 * |a|)
  {
    hide ShiftOf, FlipOf, ShiftGates, FromInt;
    ShiftSize(ns, Right(a[|a| - 1]), a, ConstOf(FromInt(|a| - 1, |a|)));
    var m := SignMaskOf(ns, a);
    FlipSize(m.0, m.1, a, m.1);
  }

  lemma SdivSize(ns: Nodes, a: Word, b: Word)
    requires |a| == |b| > 0
    ensures Adds(ns, SdivOf(ns, a, b).0, SdivGates(|a|))
  {
    hide MagnitudeOf, UdivremOf, Bitwise, FlipOf, ShiftGates, UdivGates, GatesAt;
    var x := MagnitudeOf(ns, a);
    MagnitudeSize(ns, a);
    var y := MagnitudeOf(x.0, b);
    MagnitudeSize(x.0, b);
    var q := UdivremOf(y.0, x.2, y.2);
    UdivSize(y.0, x.2, y.2);
    XorAt(q.0, x.1, y.1, |a|);
    var rs := Bitwise(q.0, BinOp.Xor, x.1, y.1, |a|);
    FlipSize(rs.0, q.1, rs.1, rs.1);
  }

  lemma SremSize(ns: Nodes, a: Word, b: Word)
    requires |a| == |b| > 0
    ensures Adds(ns, SremOf(ns, a, b).0, SdivGates(|a|) + MulGates(|a|) + 9 * |a|)
  {
    hide SdivOf, RestOf, SdivGates, MulGates;
    SdivSize(ns, a, b);
    RestSize(SdivOf(ns, a, b).0, a, SdivOf(ns, a, b).1, b);
  }

  lemma ArithSize(ns: Nodes, op: BinOp, a: Word, b: Word)
    requires |a| == |b| > 0 && (op.Add? || op.Sub? || op.And? || op.Or? || op.Xor?)
    ensures Adds(ns, BinOf(ns, op, a, b).0, BinGates(op, |a|))
  {
    hide RippleOf, Bitwise, GatesAt;
    if op.Add? { RippleAt(ns, a, b, LIT_FALSE, |a|); }
    if op.Sub? { SubSize(ns, a, b); }
    if op.And? { AndAt(ns, a, b, |a|); }
    if op.Or? { OrAt(ns, a, b, |a|); }
    if op.Xor? { XorAt(ns, a, b, |a|); }
  }

  /** THE SIZE OF EVERY OPERATOR, to the gate. */
  lemma BinSize(ns: Nodes, op: BinOp, a: Word, b: Word)
    requires |a| == |b| > 0
    ensures Adds(ns, BinOf(ns, op, a, b).0, BinGates(op, |a|))
  {
    hide RippleOf, SubOf, MulOf, UdivremOf, UremOf, SdivOf, SremOf, Bitwise, ShiftOf, RotrOf, RotlOf;
    hide MulGates, UdivGates, UremGates, SdivGates, ShiftGates, RotrGates, Stages, Pow2;
    match op {
      case Mul => MulSize(ns, a, b);
      case Udiv => UdivSize(ns, a, b);
      case Urem => UremSize(ns, a, b);
      case Sdiv => SdivSize(ns, a, b);
      case Srem => SremSize(ns, a, b);
      case Shl => ShiftSize(ns, Left, a, b);
      case Lshr => ShiftSize(ns, Right(LIT_FALSE), a, b);
      case Ashr => ShiftSize(ns, Right(a[|a| - 1]), a, b);
      case Rotr => RotrSize(ns, a, b);
      case Rotl => RotlSize(ns, a, b);
      case _ => ArithSize(ns, op, a, b);
    }
  }

  // ---------- the whole encoding ----------

  function CmpGates(op: CmpOp, w: nat): nat { if op.Eq? || op.Ne? then 4 * w else 9 * w }

  lemma CmpSize(ns: Nodes, op: CmpOp, a: Word, b: Word)
    requires |a| == |b| > 0
    ensures Adds(ns, CmpOf(ns, op, a, b).0, CmpGates(op, |a|))
  {
    hide EqOf, SubOf, GatesAt;
    EqAt(ns, a, b, |a|);
    SubSize(ns, a, b);
    SubSize(ns, b, a);
    SubSize(ns, SignFlipped(a), SignFlipped(b));
    SubSize(ns, SignFlipped(b), SignFlipped(a));
  }

  /** How many arena nodes a DAG node takes. */
  function NodeGates(ws: seq<nat>, nbits: nat, node: D.DagNode): nat
    requires D.NodeWf(ws, nbits, node)
  {
    match node
    case Var(w) => w
    case Bin(op, a, _) => BinGates(op, ws[a])
    case Neg(a) => 9 * ws[a]
    case Ite(_, t, _) => 3 * ws[t]
    case Cmp(op, a, _) => CmpGates(op, ws[a])
    case BoolAnd(_, _) => 1
    case BoolOr(_, _) => 1
    case _ => 0
  }

  lemma NodeSize(ns: Nodes, words: seq<Word>, ws: seq<nat>, bits: seq<bool>, nin: nat, node: D.DagNode)
    requires WordsFit(words, ws) && D.NodeWf(ws, |bits|, node)
    ensures Adds(ns, NodeOf(ns, words, ws, bits, nin, node).0, NodeGates(ws, |bits|, node))
  {
    hide BinOf, SubOf, IteOf, CmpOf, BinGates, CmpGates, GatelessOf, FromInt;
    match node {
      case Bin(op, a, b) => BinSize(ns, op, words[a], words[b]);
      case Neg(a) => SubSize(ns, ConstOf(FromInt(0, |words[a]|)), words[a]);
      case Ite(c, t, e) => IteSize(ns, words[c][0], words[t], words[e]);
      case Cmp(op, a, b) => CmpSize(ns, op, words[a], words[b]);
      case _ =>
    }
  }

  /** The arena after n nodes: the false node, and theirs. */
  function DagGates(dag: D.Dag, nbits: nat, n: nat): nat
    requires D.DagWf(dag, nbits) && n <= |dag|
  {
    if n == 0 then 1 else
    assert D.WfAt(dag, nbits, n - 1);
    DagGates(dag, nbits, n - 1) + NodeGates(D.Widths(dag, n - 1), nbits, dag[n - 1])
  }

  lemma NextSize(dag: D.Dag, bits: seq<bool>, n: nat)
    requires D.DagWf(dag, |bits|) && n < |dag|
    ensures D.NodeWf(D.Widths(dag, n), |bits|, dag[n])
    ensures Adds(DagOf(dag, bits, n).0, DagOf(dag, bits, n + 1).0, NodeGates(D.Widths(dag, n), |bits|, dag[n]))
    ensures DagOf(dag, bits, n).1 <= DagOf(dag, bits, n + 1).1
  {
    hide NodeOf, NodeGates, D.DagWf, D.NodeWf, DagOf, D.Widths;
    DagNext(dag, bits, n);
    var r := DagOf(dag, bits, n);
    NodeSize(r.0, r.1, D.Widths(dag, n), bits, D.Offset(dag, n), dag[n]);
  }

  /** THE SIZE OF THE ENCODING: one node, and every node's own. */
  lemma {:induction false} DagSize(dag: D.Dag, bits: seq<bool>, n: nat)
    requires D.DagWf(dag, |bits|) && n <= |dag|
    ensures |DagOf(dag, bits, n).0| == DagGates(dag, |bits|, n)
  {
    hide NodeGates, D.DagWf, D.NodeWf, DagOf;
    if n == 0 { DagNone(dag, bits); } else {
      DagSize(dag, bits, n - 1);
      NextSize(dag, bits, n - 1);
    }
  }

  /** Encoding only ever appends. */
  lemma {:induction false} DagGrows(dag: D.Dag, bits: seq<bool>, m: nat, n: nat)
    requires D.DagWf(dag, |bits|) && m <= n <= |dag|
    ensures DagOf(dag, bits, m).0 <= DagOf(dag, bits, n).0 && DagOf(dag, bits, m).1 <= DagOf(dag, bits, n).1
    decreases n
  {
    hide NodeGates, D.DagWf, D.NodeWf, DagOf;
    if m < n {
      DagGrows(dag, bits, m, n - 1);
      NextSize(dag, bits, n - 1);
    }
  }

  /** THE BLOCK OF A NODE: the query's arena holds, from the sizes before it
      on, exactly what the node's rule appends there, over the words of the
      nodes before it. */
  lemma BlockOf(dag: D.Dag, bits: seq<bool>, roots: seq<nat>, i: nat)
    requires D.QueryWf(dag, |bits|, roots) && i < |dag|
    ensures var r, whole := DagOf(dag, bits, i), DagOf(dag, bits, |dag|);
            D.NodeWf(D.Widths(dag, i), |bits|, dag[i]) &&
            var g := NodeOf(r.0, r.1, D.Widths(dag, i), bits, D.Offset(dag, i), dag[i]);
            |r.0| == DagGates(dag, |bits|, i) && g.0 <= QueryOf(dag, bits, roots).0 &&
            r.1 <= whole.1 && whole.1[i] == g.1
  {
    hide NodeOf, DagGates, D.DagWf, D.NodeWf, DagOf;
    DagNext(dag, bits, i);
    DagSize(dag, bits, i);
    DagGrows(dag, bits, i + 1, |dag|);
    DagGrows(dag, bits, i, i + 1);
  }
}
