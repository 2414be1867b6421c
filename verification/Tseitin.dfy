/** The Tseitin encoding of an arena and its equisatisfiability. */
module Tseitin {
  import opened Dimacs
  import opened AigGraph
  import opened Compact

  /** Node i is variable i + 1; a complemented literal is negative. */
  function CnfLit(l: Lit): (c: I32)
    requires l.node + 1 <= I32_MAX
    ensures ValidLit(c)
  {
    if l.neg then -(l.node + 1) else l.node + 1
  }

  // ---------- specification ----------

  predicate Fits(ns: Nodes, outputs: Word)
  {
    |ns| <= I32_MAX && Wf(ns) && AllIn(ns, outputs)
  }

  /** The clauses of o = a & b, for o the variable of node i. */
  function GateClauses(nd: Node, i: nat): Cnf
    requires i + 1 <= I32_MAX && InPlace(nd, i)
  {
    match nd
    case And(x, y) =>
      var o: I32 := i + 1;
      [[-o, CnfLit(x)], [-o, CnfLit(y)], [o, -CnfLit(x), -CnfLit(y)]]
    case _ => []
  }

  function GatesCnf(ns: Nodes, n: nat): Cnf
    requires n <= |ns| <= I32_MAX && Wf(ns)
  {
    if n == 0 then [[-1]] else GatesCnf(ns, n - 1) + GateClauses(ns[n - 1], n - 1)
  }

  function UnitClauses(outputs: Word, m: nat): Cnf
    requires m <= |outputs| && forall j :: 0 <= j < |outputs| ==> outputs[j].node + 1 <= I32_MAX
  {
    if m == 0 then [] else UnitClauses(outputs, m - 1) + [[CnfLit(outputs[m - 1])]]
  }

  function TseitinCnf(ns: Nodes, outputs: Word): Cnf
    requires Fits(ns, outputs)
  {
    GatesCnf(ns, |ns|) + UnitClauses(outputs, |outputs|)
  }

  // ---------- implementation ----------

  method Encode(ns: Nodes, outputs: Word) returns (clauses: Cnf)
    requires Fits(ns, outputs)
    ensures clauses == TseitinCnf(ns, outputs)
  {
    clauses := [[-1]];
    for i := 0 to |ns|
      invariant clauses == GatesCnf(ns, i)
    {
      assert InPlace(ns[i], i);
      match ns[i] {
        case False =>
        case Input(_) =>
        case And(x, y) =>
          var o: I32 := i + 1;
          var la, lb := CnfLit(x), CnfLit(y);
          clauses := clauses + [[-o, la]];
          clauses := clauses + [[-o, lb]];
          clauses := clauses + [[o, -la, -lb]];
      }
      assert clauses == GatesCnf(ns, i) + GateClauses(ns[i], i);
    }
    for j := 0 to |outputs|
      invariant clauses == GatesCnf(ns, |ns|) + UnitClauses(outputs, j)
    {
      clauses := clauses + [[CnfLit(outputs[j])]];
    }
  }

  // ---------- meaning ----------

  /** alpha's value of a literal's node variable, complemented as needed. */
  ghost predicate AlphaLit(alpha: Alpha, l: Lit) { (l.node + 1 in alpha) != l.neg }

  lemma CnfLitTrue(alpha: Alpha, l: Lit)
    requires l.node + 1 <= I32_MAX
    ensures LitTrue(alpha, CnfLit(l)) <==> AlphaLit(alpha, l)
    ensures LitTrue(alpha, Neg(CnfLit(l))) <==> !AlphaLit(alpha, l)
  {
  }

  /** alpha respects node i: the constant, or the gate's equation. */
  ghost predicate Respects(ns: Nodes, alpha: Alpha, i: nat)
    requires i < |ns|
  {
    && (i == 0 ==> 1 !in alpha)
    && (ns[i].And? ==> (i + 1 in alpha <==> AlphaLit(alpha, ns[i].x) && AlphaLit(alpha, ns[i].y)))
  }

  lemma SatPair(alpha: Alpha, a: I32, b: I32)
    ensures Sat(alpha, [a, b]) <==> LitTrue(alpha, a) || LitTrue(alpha, b)
  {
    var c: Clause := [a, b];
    if LitTrue(alpha, a) { assert LitTrue(alpha, c[0]); }
    if LitTrue(alpha, b) { assert LitTrue(alpha, c[1]); }
  }

  lemma SatTriple(alpha: Alpha, a: I32, b: I32, d: I32)
    ensures Sat(alpha, [a, b, d]) <==> LitTrue(alpha, a) || LitTrue(alpha, b) || LitTrue(alpha, d)
  {
    var c: Clause := [a, b, d];
    if LitTrue(alpha, a) { assert LitTrue(alpha, c[0]); }
    if LitTrue(alpha, b) { assert LitTrue(alpha, c[1]); }
    if LitTrue(alpha, d) { assert LitTrue(alpha, c[2]); }
  }

  lemma SatUnit(alpha: Alpha, a: I32)
    ensures Sat(alpha, [a]) <==> LitTrue(alpha, a)
  {
    var c: Clause := [a];
    if LitTrue(alpha, a) { assert LitTrue(alpha, c[0]); }
  }

  lemma SatAllAppend(alpha: Alpha, p: Cnf, q: Cnf)
    ensures SatAll(alpha, p + q) <==> SatAll(alpha, p) && SatAll(alpha, q)
  {
    if SatAll(alpha, p + q) {
      forall i | 0 <= i < |p| ensures Sat(alpha, p[i]) { assert p[i] == (p + q)[i]; }
      forall i | 0 <= i < |q| ensures Sat(alpha, q[i]) { assert q[i] == (p + q)[|p| + i]; }
    }
  }

  lemma GateMeaning(alpha: Alpha, nd: Node, i: nat)
    requires i + 1 <= I32_MAX && InPlace(nd, i)
    ensures SatAll(alpha, GateClauses(nd, i)) <==>
            (nd.And? ==> (i + 1 in alpha <==> AlphaLit(alpha, nd.x) && AlphaLit(alpha, nd.y)))
  {
    if nd.And? {
      var o: I32, la, lb := i + 1, CnfLit(nd.x), CnfLit(nd.y);
      var cs := GateClauses(nd, i);
      SatPair(alpha, -o, la);
      SatPair(alpha, -o, lb);
      SatTriple(alpha, o, -la, -lb);
      CnfLitTrue(alpha, nd.x);
      CnfLitTrue(alpha, nd.y);
      assert Neg(la) == -la && Neg(lb) == -lb && Neg(-o) == o;
      assert cs[0] == [-o, la] && cs[1] == [-o, lb] && cs[2] == [o, -la, -lb];
      assert SatAll(alpha, cs) <==> Sat(alpha, cs[0]) && Sat(alpha, cs[1]) && Sat(alpha, cs[2]);
    }
  }

  lemma {:induction false} GatesMeaning(ns: Nodes, alpha: Alpha, n: nat)
    requires n <= |ns| <= I32_MAX && Wf(ns)
    ensures SatAll(alpha, GatesCnf(ns, n)) <==>
            1 !in alpha && forall i :: 0 <= i < n ==> Respects(ns, alpha, i)
  {
    hide GateClauses;
    if n == 0 {
      SatUnit(alpha, -1);
      SatAllOne(alpha, [-1]);
    } else {
      GatesMeaning(ns, alpha, n - 1);
      assert InPlace(ns[n - 1], n - 1);
      GateMeaning(alpha, ns[n - 1], n - 1);
      SatAllAppend(alpha, GatesCnf(ns, n - 1), GateClauses(ns[n - 1], n - 1));
      assert SatAll(alpha, GateClauses(ns[n - 1], n - 1)) && 1 !in alpha <==> Respects(ns, alpha, n - 1) && 1 !in alpha;
    }
  }

  lemma {:induction false} UnitsMeaning(alpha: Alpha, outputs: Word, m: nat)
    requires m <= |outputs| && forall j :: 0 <= j < |outputs| ==> outputs[j].node + 1 <= I32_MAX
    ensures SatAll(alpha, UnitClauses(outputs, m)) <==> forall j :: 0 <= j < m ==> AlphaLit(alpha, outputs[j])
  {
    if m > 0 {
      UnitsMeaning(alpha, outputs, m - 1);
      SatUnit(alpha, CnfLit(outputs[m - 1]));
      CnfLitTrue(alpha, outputs[m - 1]);
      SatAllAppend(alpha, UnitClauses(outputs, m - 1), [[CnfLit(outputs[m - 1])]]);
      SatAllOne(alpha, [CnfLit(outputs[m - 1])]);
    }
  }

  lemma SatAllOne(alpha: Alpha, c: Clause)
    ensures SatAll(alpha, [c]) <==> Sat(alpha, c)
  {
    var cs: Cnf := [c];
    if SatAll(alpha, cs) { assert Sat(alpha, cs[0]); }
  }

  ghost predicate OutputsTrue(ns: Nodes, inp: seq<bool>, outputs: Word)
  {
    forall j :: 0 <= j < |outputs| ==> LV(ns, inp, outputs[j])
  }

  /** alpha is the simulation of ns under inp. */
  ghost predicate IsSimulation(ns: Nodes, inp: seq<bool>, alpha: Alpha)
  {
    forall i :: 0 <= i < |ns| ==> (i + 1 in alpha <==> NodeValue(ns, inp, i))
  }

  /** Simulation values satisfy the CNF exactly when every output is true. */
  lemma SimulationSatisfies(ns: Nodes, outputs: Word, inp: seq<bool>, alpha: Alpha)
    requires Fits(ns, outputs) && IsSimulation(ns, inp, alpha)
    ensures SatAll(alpha, TseitinCnf(ns, outputs)) <==> OutputsTrue(ns, inp, outputs)
  {
    forall l | In(ns, l) ensures AlphaLit(alpha, l) <==> LV(ns, inp, l) {
      assert l.node + 1 in alpha <==> NodeValue(ns, inp, l.node);
    }
    forall i | 0 <= i < |ns| ensures Respects(ns, alpha, i) {
      assert InPlace(ns[i], i);
      assert i + 1 in alpha <==> NodeValue(ns, inp, i);
    }
    assert 0 + 1 in alpha <==> NodeValue(ns, inp, 0);
    GatesMeaning(ns, alpha, |ns|);
    UnitsMeaning(alpha, outputs, |outputs|);
    SatAllAppend(alpha, GatesCnf(ns, |ns|), UnitClauses(outputs, |outputs|));
  }

  // ---------- reading an input back ----------

  function InputCount(ns: Nodes): (m: nat)
    ensures forall i :: 0 <= i < |ns| && ns[i].Input? ==> ns[i].k < m
  {
    if |ns| == 0 then 0 else
    var m, last := InputCount(ns[..|ns| - 1]), ns[|ns| - 1];
    assert forall i :: 0 <= i < |ns| - 1 ==> ns[..|ns| - 1][i] == ns[i];
    if last.Input? && last.k >= m then last.k + 1 else m
  }

  ghost predicate SetInput(ns: Nodes, alpha: Alpha, k: nat)
  {
    exists i :: 0 <= i < |ns| && ns[i] == Input(k) && i + 1 in alpha
  }

  /** The input assignment alpha gives to the input nodes. */
  ghost function InputsOf(ns: Nodes, alpha: Alpha): seq<bool>
  {
    seq(InputCount(ns), k => k >= 0 && SetInput(ns, alpha, k))
  }

  lemma {:induction false} AlphaIsSimulation(ns: Nodes, alpha: Alpha, i: nat)
    requires Wf(ns) && DistinctInputs(ns) && i < |ns|
    requires 1 !in alpha && forall j :: 0 <= j < |ns| ==> Respects(ns, alpha, j)
    ensures i + 1 in alpha <==> NodeValue(ns, InputsOf(ns, alpha), i)
    decreases i
  {
    assert Respects(ns, alpha, i) && InPlace(ns[i], i);
    match ns[i]
    case False =>
    case Input(k) =>
      if SetInput(ns, alpha, k) {
        var j :| 0 <= j < |ns| && ns[j] == Input(k) && j + 1 in alpha;
        assert j == i;
      }
    case And(x, y) =>
      AlphaIsSimulation(ns, alpha, x.node);
      AlphaIsSimulation(ns, alpha, y.node);
  }

  /** With distinct inputs, any satisfying assignment is a simulation of the
      inputs it chooses, on every node. */
  lemma SatisfyingIsSimulation(ns: Nodes, outputs: Word, alpha: Alpha)
    requires Fits(ns, outputs) && DistinctInputs(ns) && SatAll(alpha, TseitinCnf(ns, outputs))
    ensures IsSimulation(ns, InputsOf(ns, alpha), alpha) && OutputsTrue(ns, InputsOf(ns, alpha), outputs)
  {
    SatAllAppend(alpha, GatesCnf(ns, |ns|), UnitClauses(outputs, |outputs|));
    GatesMeaning(ns, alpha, |ns|);
    forall i | 0 <= i < |ns| ensures i + 1 in alpha <==> NodeValue(ns, InputsOf(ns, alpha), i) {
      AlphaIsSimulation(ns, alpha, i);
    }
    SimulationSatisfies(ns, outputs, InputsOf(ns, alpha), alpha);
  }

  ghost function SimulationAlpha(ns: Nodes, inp: seq<bool>): Alpha
  {
    iset v: nat | NodeTrue(ns, inp, v)
  }

  ghost predicate NodeTrue(ns: Nodes, inp: seq<bool>, v: nat) { v >= 1 && NodeValue(ns, inp, v - 1) }

  /** EQUISATISFIABILITY. */
  lemma Equisatisfiable(ns: Nodes, outputs: Word)
    requires Fits(ns, outputs) && DistinctInputs(ns)
    ensures Satisfiable(TseitinCnf(ns, outputs)) <==> exists inp :: OutputsTrue(ns, inp, outputs)
  {
    if exists inp :: OutputsTrue(ns, inp, outputs) {
      var inp :| OutputsTrue(ns, inp, outputs);
      SimulationSatisfies(ns, outputs, inp, SimulationAlpha(ns, inp));
    }
    if Satisfiable(TseitinCnf(ns, outputs)) {
      var alpha: Alpha :| SatAll(alpha, TseitinCnf(ns, outputs));
      SatisfyingIsSimulation(ns, outputs, alpha);
    }
  }

  // ---------- size and literals ----------

  function GateCount(ns: Nodes, n: nat): (g: nat)
    requires n <= |ns|
    ensures g <= n
  {
    if n == 0 then 0 else GateCount(ns, n - 1) + if ns[n - 1].And? then 1 else 0
  }

  lemma {:induction false} GatesSize(ns: Nodes, n: nat)
    requires n <= |ns| <= I32_MAX && Wf(ns)
    ensures |GatesCnf(ns, n)| == 1 + 3 * GateCount(ns, n) && ValidCnf(GatesCnf(ns, n))
  {
    hide GateClauses;
    if n > 0 {
      GatesSize(ns, n - 1);
      assert InPlace(ns[n - 1], n - 1);
      GateClausesSize(ns[n - 1], n - 1);
    }
  }

  lemma GateClausesSize(nd: Node, i: nat)
    requires i + 1 <= I32_MAX && InPlace(nd, i)
    ensures |GateClauses(nd, i)| == (if nd.And? then 3 else 0) && ValidCnf(GateClauses(nd, i))
  {
  }

  lemma {:induction false} UnitsSize(outputs: Word, m: nat)
    requires m <= |outputs| && forall j :: 0 <= j < |outputs| ==> outputs[j].node + 1 <= I32_MAX
    ensures |UnitClauses(outputs, m)| == m && ValidCnf(UnitClauses(outputs, m))
  {
    if m > 0 { UnitsSize(outputs, m - 1); }
  }

  /** One clause for the constant, three a gate, one an output; every literal
      is one the refutation checker accepts. */
  lemma CnfSize(ns: Nodes, outputs: Word)
    requires Fits(ns, outputs)
    ensures |TseitinCnf(ns, outputs)| == 1 + 3 * GateCount(ns, |ns|) + |outputs|
    ensures ValidCnf(TseitinCnf(ns, outputs))
  {
    GatesSize(ns, |ns|);
    UnitsSize(outputs, |outputs|);
  }

  // ---------- positions ----------

  /** The DIMACS number of a literal, spelled out. */
  function Dimacs32(l: Lit): int { if l.neg then 0 - l.node - 1 else l.node + 1 }

  lemma {:induction false} GateAt(ns: Nodes, n: nat, i: nat)
    requires i < n <= |ns| <= I32_MAX && Wf(ns) && ns[i].And?
    ensures var k, cs := 1 + 3 * GateCount(ns, i), GatesCnf(ns, n);
            k + 3 <= |cs| && cs[k..k + 3] == GateClauses(ns[i], i)
  {
    hide GateClauses, ValidCnf;
    GatesSize(ns, n);
    GatesSize(ns, n - 1);
    var k := 1 + 3 * GateCount(ns, i);
    assert InPlace(ns[n - 1], n - 1);
    GateClausesSize(ns[n - 1], n - 1);
    if i < n - 1 {
      GateAt(ns, n - 1, i);
      assert GatesCnf(ns, n)[k..k + 3] == GatesCnf(ns, n - 1)[k..k + 3];
    } else {
      assert GatesCnf(ns, n)[k..k + 3] == GateClauses(ns[i], i);
    }
  }

  lemma {:induction false} FirstClause(ns: Nodes, n: nat)
    requires n <= |ns| <= I32_MAX && Wf(ns)
    ensures |GatesCnf(ns, n)| > 0 && GatesCnf(ns, n)[0] == [-1]
  {
    if n > 0 { FirstClause(ns, n - 1); }
  }

  lemma {:induction false} UnitAt(outputs: Word, m: nat, j: nat)
    requires j < m <= |outputs| && forall k :: 0 <= k < |outputs| ==> outputs[k].node + 1 <= I32_MAX
    ensures |UnitClauses(outputs, m)| == m && UnitClauses(outputs, m)[j] == [CnfLit(outputs[j])]
  {
    UnitsSize(outputs, m - 1);
    if j < m - 1 { UnitAt(outputs, m - 1, j); }
  }

  /** EVERY CLAUSE BY ITS POSITION, on which refutations rely: the constant,
      then per gate the two implications and their converse in this order, each
      gate after those of the gates before it, then the outputs. */
  lemma ClausePositions(ns: Nodes, outputs: Word)
    requires Fits(ns, outputs)
    ensures var cs := TseitinCnf(ns, outputs);
            && |cs| == 1 + 3 * GateCount(ns, |ns|) + |outputs| && cs[0] == [-1]
            && (forall i :: 0 <= i < |ns| && ns[i].And? ==>
                  var k := 1 + 3 * GateCount(ns, i);
                  var o, a, b := i + 1, Dimacs32(ns[i].x), Dimacs32(ns[i].y);
                  k + 2 < |cs| && cs[k] == [0 - o, a] && cs[k + 1] == [0 - o, b] && cs[k + 2] == [o, 0 - a, 0 - b])
            && (forall j :: 0 <= j < |outputs| ==> cs[1 + 3 * GateCount(ns, |ns|) + j] == [Dimacs32(outputs[j])])
  {
    hide GatesCnf, UnitClauses, GateCount, ValidCnf;
    CnfSize(ns, outputs);
    GatesSize(ns, |ns|);
    FirstClause(ns, |ns|);
    var cs := TseitinCnf(ns, outputs);
    forall i | 0 <= i < |ns| && ns[i].And?
      ensures var k := 1 + 3 * GateCount(ns, i);
              var o, a, b := i + 1, Dimacs32(ns[i].x), Dimacs32(ns[i].y);
              k + 2 < |cs| && cs[k] == [0 - o, a] && cs[k + 1] == [0 - o, b] && cs[k + 2] == [o, 0 - a, 0 - b]
    {
      GateAt(ns, |ns|, i);
      assert InPlace(ns[i], i);
      var k, three := 1 + 3 * GateCount(ns, i), GateClauses(ns[i], i);
      assert cs[k..k + 3] == three;
      assert cs[k] == cs[k..k + 3][0] && cs[k + 1] == cs[k..k + 3][1] && cs[k + 2] == cs[k..k + 3][2];
    }
    forall j | 0 <= j < |outputs| ensures cs[1 + 3 * GateCount(ns, |ns|) + j] == [Dimacs32(outputs[j])] {
      UnitAt(outputs, |outputs|, j);
    }
  }
}
