/** The query re-checks: a refutation of the CNF re-encoded from a DAG, and a
    model of the DAG, each against the DAG's own semantics. */
module Query {
  import opened Wrappers
  import opened Bits
  import opened Dimacs
  import opened Dag
  import LratTheorems
  import Compact
  import Tseitin
  import Encoder
  import G = GateList
  import SatWitness
  import AigGraph
  import Lrat

  // ---------- capacity, computed without overflow ----------

  /** A machine index; every value given this type is proved to be one. */
  type Usize = x: nat | x <= USIZE_MAX

  /** 1 + n * budget(w) fits a machine index, no step on the way leaving its
      range; for no nodes at all, budget(w) itself must still fit. */
  method EncodeFits(w: Usize, n: Usize) returns (r: bool)
    ensures r <==> Encoder.NodeBudget(w) <= USIZE_MAX && 1 + n * Encoder.NodeBudget(w) <= USIZE_MAX
    ensures n >= 1 ==> (r <==> 1 + n * Encoder.NodeBudget(w) <= USIZE_MAX)
  {
    ghost var B := Encoder.NodeBudget(w);
    if n >= 1 { MulMono(1, n, B); }
    FitFacts(w, n);
    var max: Usize := USIZE_MAX;
    if w > max / 70 { return false; }
    var w70: Usize := 70 * w;
    if w > 0 && w70 > max / w { return false; }
    assert w70 * w <= max;
    var sq: Usize := w70 * w;
    var lin: Usize := 70 * w;
    var room: Usize := max - lin;
    if sq > room { return false; }
    var s: Usize := sq + lin;
    if s > max - 1 { return false; }
    var gb: Usize := s + 1;
    assert gb == B;
    if n > 0 && gb > max / n { return false; }
    assert n * gb <= max;
    var total: Usize := n * gb;
    return total < max;
  }

  lemma FitFacts(w: nat, n: nat)
    ensures Encoder.NodeBudget(w) == 70 * w * w + 70 * w + 1
    ensures w > 0 ==> (70 * w > USIZE_MAX / w <==> 70 * w * w > USIZE_MAX)
    ensures n > 0 ==> (Encoder.NodeBudget(w) > USIZE_MAX / n <==> n * Encoder.NodeBudget(w) > USIZE_MAX)
  {
    MulAssoc(70, w, w);
    if w > 0 { ProductBound(70 * w, w, USIZE_MAX); }
    if n > 0 { ProductBound(Encoder.NodeBudget(w), n, USIZE_MAX); }
  }

  lemma ProductBound(x: nat, y: nat, max: nat)
    requires y > 0
    ensures x > max / y <==> x * y > max
  {
    var q := max / y;
    assert max == q * y + max % y;
    if x > q { MulMono(q + 1, x, y); } else { MulMono(x, q, y); }
  }

  /** 1 + 3 * nodes + outs is below the largest machine index. */
  method TseitinFits(nodes: nat, outs: nat) returns (r: bool)
    ensures r <==> 1 + 3 * nodes + outs < USIZE_MAX
  {
    var max: Usize := USIZE_MAX;
    if nodes > max / 3 { return false; }
    var three: Usize := 3 * nodes;
    if outs > max - 2 { return false; }
    var room: Usize := max - 2 - outs;
    return three <= room;
  }

  // ---------- the checks both re-checks run first ----------

  ghost predicate WithinCapacity(ns: Dag, W: nat)
  {
    W <= USIZE_MAX && Encoder.NodeBudget(W) <= USIZE_MAX && 1 + |ns| * Encoder.NodeBudget(W) <= USIZE_MAX
  }

  ghost predicate IsMaxWidth(ws: seq<nat>, W: nat)
  {
    (forall i :: 0 <= i < |ws| ==> ws[i] <= W) && (W == 0 || W in ws)
  }

  /** The query is beyond the capacity the encoding is sized for. */
  ghost predicate BeyondCapacity(ns: Dag)
  {
    forall W: nat :: IsMaxWidth(Widths(ns, |ns|), W) ==> !WithinCapacity(ns, W)
  }

  ghost predicate RootsBound(ns: Dag, roots: seq<nat>) { forall k :: 0 <= k < |roots| ==> roots[k] < |ns| }

  /** The first bad node, or in a well-formed DAG the first bad root. */
  ghost predicate FirstBad(error: QueryError, ns: Dag, nbits: nat, roots: seq<nat>)
  {
    match error
    case NodeNotWellFormed(i) => i < |ns| && !WfAt(ns, nbits, i) && forall j :: 0 <= j < i ==> WfAt(ns, nbits, j)
    case BadRoot(k) =>
      && DagWf(ns, nbits) && k < |roots| && !RootWf(Widths(ns, |ns|), roots[k])
      && forall j :: 0 <= j < k ==> RootWf(Widths(ns, |ns|), roots[j])
    case TooLarge => QueryWf(ns, nbits, roots)
    case Check(_) => QueryWf(ns, nbits, roots)
  }

  method Admit(ns: Dag, nbits: nat, roots: seq<nat>) returns (r: Result<nat, QueryError>)
    requires |ns| <= USIZE_MAX
    ensures r.Ok? ==> QueryWf(ns, nbits, roots) && RootsBound(ns, roots)
    ensures r.Ok? ==> IsMaxWidth(Widths(ns, |ns|), r.value) && WithinCapacity(ns, r.value)
    ensures r.Err? ==> !r.error.Check? && FirstBad(r.error, ns, nbits, roots)
    ensures r.Err? && r.error.TooLarge? ==> BeyondCapacity(ns)
  {
    var wf := CheckWf(ns, nbits);
    if wf.Err? { return Err(wf.error); }
    var ws := wf.value;
    var rootsOk := CheckRoots(ws, roots);
    if rootsOk.Err? { return Err(rootsOk.error); }
    var wmax := MaxWidth(ws);
    forall W: nat | IsMaxWidth(ws, W) ensures W == wmax {}
    if wmax > USIZE_MAX { return Err(TooLarge); }
    var fits := EncodeFits(wmax, |ns|);
    if !fits { return Err(TooLarge); }
    return Ok(wmax);
  }

  // ---------- the refutation ----------

  /** cnf is satisfiable exactly when some assignment makes every root true. */
  ghost predicate Faithful(cnf: Cnf, ns: Dag, bits: seq<bool>, roots: seq<nat>)
    requires RootsBound(ns, roots)
  {
    ValidCnf(cnf) && (Satisfiable(cnf) <==> DagSat(ns, bits, roots))
  }

  lemma QueryBounds(ns: Dag, nbits: nat, roots: seq<nat>)
    requires QueryWf(ns, nbits, roots)
    ensures RootsBound(ns, roots)
  {
  }

  /** A raw arena and the literals of the roots in it. */
  datatype Arena = Arena(raw: AigGraph.Nodes, outs: AigGraph.Word)

  ghost predicate ArenaOk(a: Arena) { AigGraph.Wf(a.raw) && AigGraph.AllIn(a.raw, a.outs) }

  /** The arena encodes the query, no larger than budgeted. */
  ghost predicate Encodes(a: Arena, ns: Dag, bits: seq<bool>, roots: seq<nat>, W: nat)
    requires RootsBound(ns, roots)
  {
    && ArenaOk(a) && |a.outs| == |roots| && |a.raw| <= 1 + |ns| * Encoder.NodeBudget(W)
    && Encoder.InputsOk(a.raw, Offset(ns, |ns|))
    && forall inp, k :: 0 <= k < |roots| ==>
         AigGraph.LV(a.raw, inp, a.outs[k]) == Truth(DagVal(ns, bits, EnvOf(ns, inp), roots[k]))
  }

  /** The arena compacted along the hints, and the image of each node. */
  ghost function CompactedOf(a: Arena, hints: seq<nat>): (AigGraph.Nodes, AigGraph.Word)
    requires ArenaOk(a)
  {
    Compact.Compacted(a.raw, hints, |a.raw|)
  }

  /** The compacted arena has too many nodes for a variable each, or too many
      clauses for an index. */
  ghost predicate Overflows(a: Arena, hints: seq<nat>)
    requires ArenaOk(a)
  {
    var nodes := |CompactedOf(a, hints).0|;
    nodes > I32_MAX || 1 + 3 * nodes + |a.outs| >= USIZE_MAX
  }

  /** The root literals in the compacted arena. */
  ghost function OutsOf(a: Arena, hints: seq<nat>): (outs: AigGraph.Word)
    requires ArenaOk(a)
    ensures |outs| == |a.outs| && AigGraph.AllIn(CompactedOf(a, hints).0, outs)
    ensures forall k :: 0 <= k < |outs| ==> outs[k] == Compact.MapLit(CompactedOf(a, hints).1, a.outs[k])
  {
    Compact.CompactedSound(a.raw, hints, |a.raw|);
    var image := CompactedOf(a, hints).1;
    seq(|a.outs|, k requires 0 <= k < |a.outs| => Compact.MapLit(image, a.outs[k]))
  }

  /** The clauses of an arena along the hints, or none when they overflow. */
  ghost function CnfOf(a: Arena, hints: seq<nat>): Option<Cnf>
    requires ArenaOk(a)
  {
    if Overflows(a, hints) then None else
    Compact.CompactedSound(a.raw, hints, |a.raw|);
    Some(Tseitin.TseitinCnf(CompactedOf(a, hints).0, OutsOf(a, hints)))
  }

  /** Compaction never grows an arena, so a query whose budget fits never
      overflows. */
  lemma BudgetFits(a: Arena, ns: Dag, bits: seq<bool>, roots: seq<nat>, hints: seq<nat>, W: nat)
    requires RootsBound(ns, roots) && Encodes(a, ns, bits, roots, W) && CnfOf(a, hints).None?
    ensures var nodes := 1 + |ns| * Encoder.NodeBudget(W);
            nodes > I32_MAX || 1 + 3 * nodes + |roots| >= USIZE_MAX
  {
    hide Encoder.NodeBudget;
    Compact.CompactedSound(a.raw, hints, |a.raw|);
  }

  /** The clauses of an encoding are satisfiable exactly when the DAG is. */
  lemma CnfFaithful(a: Arena, ns: Dag, bits: seq<bool>, roots: seq<nat>, hints: seq<nat>, W: nat)
    requires RootsBound(ns, roots) && Encodes(a, ns, bits, roots, W) && CnfOf(a, hints).Some?
    ensures Faithful(CnfOf(a, hints).value, ns, bits, roots) && |CnfOf(a, hints).value| < USIZE_MAX
  {
    hide Encoder.NodeBudget, Tseitin.TseitinCnf, Compact.Compacted;
    var (nodes, image) := CompactedOf(a, hints);
    var outs := OutsOf(a, hints);
    Compact.CompactedSound(a.raw, hints, |a.raw|);
    Tseitin.CnfSize(nodes, outs);
    Tseitin.Equisatisfiable(nodes, outs);
    LoweredMeaning(ns, bits, roots, a.raw, a.outs, nodes, image, outs);
  }

  /** Re-encode: raw arena, compaction along untrusted hints, clauses.  a is
      the arena built on the way. */
  method Lower(ns: Dag, bits: seq<bool>, roots: seq<nat>, hints: seq<nat>, ghost W: nat)
    returns (r: Option<Cnf>, ghost a: Arena)
    requires QueryWf(ns, |bits|, roots)
    requires forall i :: 0 <= i < |ns| ==> Widths(ns, |ns|)[i] <= W
    requires 1 + |ns| * Encoder.NodeBudget(W) <= USIZE_MAX
    ensures RootsBound(ns, roots) && Encodes(a, ns, bits, roots, W) && r == CnfOf(a, hints)
    ensures (a.raw, a.outs) == G.QueryOf(ns, bits, roots)
    ensures r.Some? ==> Faithful(r.value, ns, bits, roots) && |r.value| < USIZE_MAX
  {
    hide Encoder.NodeBudget, Faithful, Tseitin.TseitinCnf, Compact.Compacted, G.QueryOf;
    var raw, words, outs := Encoder.Encode(ns, bits, roots, W);
    QueryBounds(ns, |bits|, roots);
    a := Arena(raw.nodes, outs);
    var aig, image := Compact.Compact(raw.nodes, hints);
    Compact.CompactedSound(raw.nodes, hints, |raw.nodes|);
    var outs2 := Compact.MapWord(image, outs);
    assert outs2 == OutsOf(a, hints);
    var fits := TseitinFits(|aig.nodes|, |outs2|);
    if |aig.nodes| > I32_MAX || !fits { return None, a; }
    var cnf := Tseitin.Encode(aig.nodes, outs2);
    CnfFaithful(a, ns, bits, roots, hints, W);
    return Some(cnf), a;
  }

  /** The compacted outputs are true exactly on the models of the roots. */
  lemma LoweredMeaning(ns: Dag, bits: seq<bool>, roots: seq<nat>, raw: AigGraph.Nodes, outs: AigGraph.Word,
                       aig: AigGraph.Nodes, image: AigGraph.Word, outs2: AigGraph.Word)
    requires RootsBound(ns, roots) && |outs| == |roots| == |outs2| && AigGraph.AllIn(raw, outs)
    requires Compact.Carries(raw, aig, image) && |image| == |raw|
    requires forall k :: 0 <= k < |outs| ==> outs2[k] == Compact.MapLit(image, outs[k])
    requires forall inp, k :: 0 <= k < |roots| ==>
               AigGraph.LV(raw, inp, outs[k]) == Truth(DagVal(ns, bits, EnvOf(ns, inp), roots[k]))
    ensures (exists inp :: Tseitin.OutputsTrue(aig, inp, outs2)) <==> DagSat(ns, bits, roots)
  {
    forall inp ensures Tseitin.OutputsTrue(aig, inp, outs2) <==> RootsTrue(ns, bits, EnvOf(ns, inp), roots) {
      forall k | 0 <= k < |outs|
        ensures AigGraph.LV(aig, inp, outs2[k]) == Truth(DagVal(ns, bits, EnvOf(ns, inp), roots[k]))
      {
        Compact.MapLitValue(raw, aig, image, inp, outs[k]);
      }
    }
    SatByInputs(ns, bits, roots);
  }

  /** COMPLETENESS: a faithful CNF has an accepted refutation exactly when no
      assignment to the DAG's variables makes every root true. */
  lemma FaithfulRefutable(cnf: Cnf, ns: Dag, bits: seq<bool>, roots: seq<nat>)
    requires RootsBound(ns, roots) && Faithful(cnf, ns, bits, roots)
    ensures (exists steps :: Lrat.Verdict(cnf, steps).Ok?) <==> !DagSat(ns, bits, roots)
  {
    LratTheorems.RefutableIffUnsatisfiable(cnf);
  }

  /** What the re-check says of an arena: a refusal of its size, or the verdict
      of the steps on its clauses. */
  ghost function VerdictOf(a: Arena, hints: seq<nat>, steps: seq<Lrat.Step>): Result<Cnf, QueryError>
    requires ArenaOk(a)
  {
    match CnfOf(a, hints)
    case None => Err(TooLarge)
    case Some(cnf) =>
      if |cnf| + |steps| > USIZE_MAX then Err(TooLarge) else
      var verdict := Lrat.Verdict(cnf, steps);
      if verdict.Err? then Err(Check(verdict.error)) else Ok(cnf)
  }

  /** The arena built for a query the re-check does not turn away: the one the
      encoding rules list, gate for gate. */
  ghost predicate ArenaFor(a: Option<Arena>, ns: Dag, bits: seq<bool>, roots: seq<nat>)
  {
    && (a.Some? <==> QueryWf(ns, |bits|, roots) && !BeyondCapacity(ns))
    && (a.Some? ==> (a.value.raw, a.value.outs) == G.QueryOf(ns, bits, roots))
    && (a.Some? ==> RootsBound(ns, roots) && exists W: nat ::
          IsMaxWidth(Widths(ns, |ns|), W) && Encodes(a.value, ns, bits, roots, W))
  }

  /** These hints and steps refute the arena's clauses. */
  ghost predicate Refutes(a: Option<Arena>, hints: seq<nat>, steps: seq<Lrat.Step>)
  {
    a.Some? && ArenaOk(a.value) && VerdictOf(a.value, hints, steps).Ok?
  }

  /** THE QUERY RE-CHECK.  A malformed query is refused at its first bad node
      or root, one beyond capacity as too large; otherwise a is the arena built
      from it, the answer is the verdict of the steps on that arena's clauses,
      and those are satisfiable exactly when the DAG is.  So an accepted
      certificate refutes the DAG, whatever its hints and steps. */
  method CheckQuery(ns: Dag, bits: seq<bool>, roots: seq<nat>, hints: seq<nat>, steps: seq<Lrat.Step>)
    returns (r: Result<Cnf, QueryError>, ghost a: Option<Arena>)
    requires |ns| <= USIZE_MAX
    ensures ArenaFor(a, ns, bits, roots)
    ensures a.None? ==> r.Err? && !r.error.Check? && (r.error.TooLarge? ==> BeyondCapacity(ns))
    ensures a.Some? ==> ArenaOk(a.value) && r == VerdictOf(a.value, hints, steps)
    ensures r.Ok? <==> Refutes(a, hints, steps)
    ensures a.Some? && CnfOf(a.value, hints).Some? ==> RootsBound(ns, roots) && Faithful(CnfOf(a.value, hints).value, ns, bits, roots)
    ensures r.Ok? ==> QueryWf(ns, |bits|, roots) && RootsBound(ns, roots) && !DagSat(ns, bits, roots)
    ensures r.Ok? ==> Faithful(r.value, ns, bits, roots) && Lrat.Verdict(r.value, steps).Ok?
    ensures r.Err? ==> FirstBad(r.error, ns, |bits|, roots)
  {
    hide Faithful, BeyondCapacity, DagSat, Lrat.Verdict, CnfOf, Encoder.NodeBudget, Widths, G.QueryOf;
    var admitted := Admit(ns, |bits|, roots);
    if admitted.Err? { return Err(admitted.error), None; }
    var lowered, arena := Lower(ns, bits, roots, hints, admitted.value);
    a := Some(arena);
    WithinNotBeyond(ns, admitted.value);
    if lowered.None? { return Err(TooLarge), a; }
    var cnf := lowered.value;
    if |steps| > USIZE_MAX - |cnf| { return Err(TooLarge), a; }
    var verdict := Lrat.CheckSteps(cnf, steps);
    if verdict.Err? { return Err(Check(verdict.error)), a; }
    FaithfulRefutable(cnf, ns, bits, roots);
    return Ok(cnf), a;
  }

  lemma WithinNotBeyond(ns: Dag, W: nat)
    requires IsMaxWidth(Widths(ns, |ns|), W) && WithinCapacity(ns, W)
    ensures !BeyondCapacity(ns)
  {
  }

  // ---------- the model ----------

  datatype ModelError =
    | Query(query: QueryError)
    | ModelTooShort(needed: nat, given: nat)
    | RootFalse(root: nat)

  /** The input bits the variables take, refused past the machine index. */
  method DagNin(ns: Dag) returns (r: Result<nat, ModelError>)
    ensures r == if Offset(ns, |ns|) <= USIZE_MAX then Ok(Offset(ns, |ns|)) else Err(Query(TooLarge))
  {
    r := VarOffset(ns, |ns|);
  }

  /** Where node's bits start in the input list. */
  method VarOffset(ns: Dag, node: nat) returns (r: Result<nat, ModelError>)
    ensures r == if node <= |ns| && Offset(ns, node) <= USIZE_MAX then Ok(Offset(ns, node)) else Err(Query(TooLarge))
  {
    if node > |ns| { return Err(Query(TooLarge)); }
    var nin := 0;
    for i := 0 to node
      invariant nin == Offset(ns, i) <= USIZE_MAX
    {
      var nd := ns[i];
      if nd.Var? {
        if nd.w > USIZE_MAX - nin {
          OffsetMono(ns, i + 1, node);
          return Err(Query(TooLarge));
        }
        nin := nin + nd.w;
      }
    }
    return Ok(nin);
  }

  lemma {:induction false} OffsetMono(ns: Dag, i: nat, n: nat)
    requires i <= n <= |ns|
    ensures Offset(ns, i) <= Offset(ns, n)
  {
    if i < n { OffsetMono(ns, i, n - 1); }
  }

  lemma {:induction false} OffsetBound(ns: Dag, W: nat, n: nat)
    requires n <= |ns| && forall i :: 0 <= i < |ns| ==> Widths(ns, |ns|)[i] <= W
    ensures Offset(ns, n) <= n * W
  {
    if n > 0 {
      OffsetBound(ns, W, n - 1);
      WidthOf(ns, n - 1);
      MulDist(W, n - 1, 1);
    }
  }

  /** Root k is the first the inputs make false. */
  ghost predicate FirstFalse(ns: Dag, bits: seq<bool>, roots: seq<nat>, inp: seq<bool>, k: nat)
    requires RootsBound(ns, roots)
  {
    && k < |roots| && !Truth(DagVal(ns, bits, EnvOf(ns, inp), roots[k]))
    && forall j :: 0 <= j < k ==> Truth(DagVal(ns, bits, EnvOf(ns, inp), roots[j]))
  }

  /** The inputs are long enough and make every root of the query true. */
  ghost predicate ModelOk(ns: Dag, bits: seq<bool>, roots: seq<nat>, inp: seq<bool>)
  {
    && QueryWf(ns, |bits|, roots) && !BeyondCapacity(ns) && RootsBound(ns, roots)
    && Offset(ns, |ns|) <= |inp| && RootsTrue(ns, bits, EnvOf(ns, inp), roots)
  }

  /** THE MODEL RE-CHECK.  Within capacity it accepts exactly the input lists
      that are long enough and make every root true. */
  method CheckQueryModel(ns: Dag, bits: seq<bool>, roots: seq<nat>, inp: seq<bool>)
    returns (r: Result<Unit, ModelError>)
    requires |ns| <= USIZE_MAX
    ensures r.Ok? <==> ModelOk(ns, bits, roots, inp)
    ensures r.Ok? ==> QueryWf(ns, |bits|, roots) && RootsBound(ns, roots)
    ensures r.Ok? ==> Offset(ns, |ns|) <= |inp| && RootsTrue(ns, bits, EnvOf(ns, inp), roots)
    ensures r.Err? && r.error.ModelTooShort? ==>
              r.error == ModelTooShort(Offset(ns, |ns|), |inp|) && |inp| < Offset(ns, |ns|)
    ensures r.Err? && r.error.RootFalse? ==>
              RootsBound(ns, roots) && Offset(ns, |ns|) <= |inp| && FirstFalse(ns, bits, roots, inp, r.error.root)
    ensures r.Err? && r.error.Query? ==>
              FirstBad(r.error.query, ns, |bits|, roots) && !r.error.query.Check? &&
              (r.error.query.TooLarge? ==> BeyondCapacity(ns))
  {
    var admitted := Admit(ns, |bits|, roots);
    if admitted.Err? { return Err(Query(admitted.error)); }
    OffsetBound(ns, admitted.value, |ns|);
    CapacityCoversInputs(|ns|, admitted.value);
    var nin := DagNin(ns);
    WithinNotBeyond(ns, admitted.value);
    if |inp| < nin.value { return Err(ModelTooShort(nin.value, |inp|)); }
    r := EvalRoots(ns, bits, roots, inp, admitted.value);
  }

  /** Encode, simulate and read the asserted outputs. */
  method EvalRoots(ns: Dag, bits: seq<bool>, roots: seq<nat>, inp: seq<bool>, ghost W: nat)
    returns (r: Result<Unit, ModelError>)
    requires QueryWf(ns, |bits|, roots) && RootsBound(ns, roots) && Offset(ns, |ns|) <= |inp|
    requires forall i :: 0 <= i < |ns| ==> Widths(ns, |ns|)[i] <= W
    ensures r.Ok? <==> RootsTrue(ns, bits, EnvOf(ns, inp), roots)
    ensures r.Err? ==> r.error.RootFalse? && FirstFalse(ns, bits, roots, inp, r.error.root)
  {
    var raw, words, outs := Encoder.Encode(ns, bits, roots, W);
    var vals := AigGraph.Simulate(raw.nodes, inp);
    for k := 0 to |outs|
      invariant forall j :: 0 <= j < k ==> Truth(DagVal(ns, bits, EnvOf(ns, inp), roots[j]))
    {
      assert AigGraph.LV(raw.nodes, inp, outs[k]) == Truth(DagVal(ns, bits, EnvOf(ns, inp), roots[k]));
      assert AigGraph.In(raw.nodes, outs[k]);
      if !AigGraph.EvalLit(vals, outs[k]) { return Err(RootFalse(k)); }
    }
    return Ok(Unit);
  }

  lemma CapacityCoversInputs(n: nat, W: nat)
    requires 1 + n * Encoder.NodeBudget(W) <= USIZE_MAX
    ensures n * W <= USIZE_MAX
  {
    MulMono(W, Encoder.NodeBudget(W), n);
  }

  /** No query has both an accepted refutation and an accepted model. */
  method QueryVerdictsExclusive(ns: Dag, bits: seq<bool>, roots: seq<nat>, hints: seq<nat>, steps: seq<Lrat.Step>,
                                inp: seq<bool>) returns (refuted: bool, modelled: bool)
    requires |ns| <= USIZE_MAX
    ensures !(refuted && modelled)
    ensures refuted ==> RootsBound(ns, roots) && !DagSat(ns, bits, roots)
    ensures modelled ==> RootsBound(ns, roots) && DagSat(ns, bits, roots)
  {
    var q, _ := CheckQuery(ns, bits, roots, hints, steps);
    var m := CheckQueryModel(ns, bits, roots, inp);
    refuted, modelled := q.Ok?, m.Ok?;
  }

  /** Is value's w low bits the input bits from offset?  Bits of value from w
      on are not read. */
  method CheckInputValue(inp: seq<bool>, offset: nat, w: nat, value: nat) returns (r: bool)
    ensures r <==> w <= 128 && offset + w <= |inp| &&
                   forall j :: 0 <= j < w ==> inp[offset + j] == SatWitness.BitOf(value, j)
  {
    if w > 128 || offset > |inp| || w > |inp| - offset { return false; }
    for j := 0 to w
      invariant forall i :: 0 <= i < j ==> inp[offset + i] == SatWitness.BitOf(value, i)
    {
      ghost var agrees := inp[offset + j] == SatWitness.BitOf(value, j);
      var bit := value / Pow2(j) % 2;
      if inp[offset + j] {
        if bit != 1 { return false; }
      } else if bit != 0 {
        return false;
      }
    }
    return true;
  }
}
