/** The certificates about the trees themselves: refutations and models of
    the query as asked, names included. */
module TreeCert {
  import opened Wrappers
  import opened Bits
  import opened Dag
  import opened Sliver
  import opened SliverSound
  import opened Tree
  import opened FlatState
  import opened TreeSound
  import opened ModelInputs
  import opened Pullback
  import opened SliverWidths
  import SliverCheck
  import SliverModel
  import Query
  import Flatten
  import FlatList
  import FlatSpec
  import FlatLeaves
  import SatWitness
  import AigGraph
  import Lrat
  import T = TermCheck
  import TS = TermSound

  // ---------- refutations ----------

  /** Sorted, every variable and every function at one width. */
  ghost predicate TreesOk(ts: seq<TBool>)
  {
    FlatSpec.AllSorted(ts) && Functional(TreeUses(ts).vars) && Functional(TreeUses(ts).funs)
  }

  /** The closed nodes of a list. */
  function Cores(nodes: seq<ExtNode>): (core: Dag)
    requires forall i :: 0 <= i < |nodes| ==> nodes[i].Core?
    ensures |core| == |nodes| && forall i :: 0 <= i < |nodes| ==> nodes[i] == Core(core[i])
  {
    seq(|nodes|, i requires 0 <= i < |nodes| => nodes[i].nd)
  }

  /** Closed trees whose flattening, node for node, a term map takes onto the
      DAG; no more nodes than an index can name. */
  ghost predicate TreesCertified(ts: seq<TBool>, m: seq<nat>, ns: Dag, bits: seq<bool>, roots: seq<nat>)
    requires |ns| <= USIZE_MAX
  {
    var (st, troots) := FlatList.PutAll(false, ts);
    TreesOk(ts) && FlatLeaves.AllCore(st) && |st.nodes| <= USIZE_MAX &&
    TS.Certified(Cores(st.nodes), st.bits, troots, m, ns, bits, roots)
  }

  /** A closed flattening is the closed trees'. */
  lemma ClosedFlat(st: St, troots: seq<nat>, ts: seq<TBool>)
    requires Flatten.FlatOf(st, troots, ts)
    ensures FlatLeaves.AllCore(st) <==> Flatten.AllClosed(ts)
  {
  }

  lemma ProjectedCores(nodes: seq<ExtNode>, core: Dag)
    requires |core| == |nodes| && forall i :: 0 <= i < |nodes| ==> nodes[i] == Core(core[i])
    ensures core == Cores(nodes)
  {
  }

  /** Closed trees: flatten, project, and re-check the term certificate.  It
      accepts exactly when the trees flatten to closed nodes, the map takes
      those onto the DAG, and these hints and steps refute the DAG's arena. */
  method CheckTreeUnsat(ts: seq<TBool>, m: seq<nat>, ns: Dag, bits: seq<bool>, roots: seq<nat>, hints: seq<nat>,
                        steps: seq<Lrat.Step>) returns (ok: bool, ghost a: Option<Query.Arena>)
    requires |ns| <= USIZE_MAX
    ensures TreesCertified(ts, m, ns, bits, roots) ==> Query.ArenaFor(a, ns, bits, roots)
    ensures ok <==> TreesCertified(ts, m, ns, bits, roots) && Query.Refutes(a, hints, steps)
    ensures ok ==> Query.ArenaFor(a, ns, bits, roots) && Flatten.AllClosed(ts)
    ensures ok ==> !TreeSat(ts)
  {
    hide FlatList.PutAll, TS.Certified, Query.ArenaFor, Query.Refutes, StOk, TreeSat, MeansBool, TreeUses, Functional, DagSat;
    a := None;
    var flat := Flatten.FlattenTree(ts);
    if flat.Err? { return false, None; }
    var f := flat.value;
    ClosedFlat(f.State(), f.roots, ts);
    var core := Flatten.ProjectCore(f.nodes);
    if core.Err? || |core.value| > USIZE_MAX { return false, None; }
    ProjectedCores(f.nodes, core.value);
    ProjectedSat(f.State(), f.roots, ts, core.value);
    var term, arena := TS.CheckTermUnsat(core.value, f.bits, f.roots, m, ns, bits, roots, hints, steps);
    ok, a := term, arena;
  }

  /** The untrusted half of an extended certificate: the map and tables from
      the flattened query onto the core, and the core. */
  datatype Advice = Advice(m: seq<nat>, rtab: seq<nat>, ctab: seq<nat>, cargs: seq<nat>,
                           t: Dag, tbits: seq<bool>, troots: seq<nat>)

  function InputOf(nodes: seq<ExtNode>, bits: seq<bool>, side: seq<nat>, roots: seq<nat>, a: Advice): Input
  {
    Input(nodes, bits, side, roots, a.m, a.rtab, a.ctab, a.cargs, a.t, a.tbits, a.troots)
  }

  /** The query the advice is about: the trees' flattening, node for node. */
  ghost function InputFor(ts: seq<TBool>, a: Advice): Input
  {
    var (st, troots) := FlatList.PutAll(false, ts);
    InputOf(st.nodes, st.bits, st.side, troots, a)
  }

  /** Trees whose flattening the advice eliminates, onto a core that a term map
      takes onto the DAG. */
  ghost predicate ExtCertified(ts: seq<TBool>, a: Advice, m: seq<nat>, ns: Dag, bits: seq<bool>, roots: seq<nat>)
  {
    |ns| <= USIZE_MAX && TreesOk(ts) && Accepted(InputFor(ts, a)) && TS.Certified(a.t, a.tbits, a.troots, m, ns, bits, roots)
  }

  /** END TO END: no interpretation of the variables, arrays and functions by
      name makes every asserted tree true.  It accepts exactly when the trees
      flatten, both correspondences hold, and these hints and steps refute the
      DAG's arena. */
  method CheckExtTreeUnsat(ts: seq<TBool>, a: Advice, m: seq<nat>, ns: Dag, bits: seq<bool>, roots: seq<nat>,
                           hints: seq<nat>, steps: seq<Lrat.Step>) returns (ok: bool, ghost arena: Option<Query.Arena>)
    requires |a.t| <= USIZE_MAX && |ns| <= USIZE_MAX
    ensures TreesOk(ts) ==> Query.ArenaFor(arena, ns, bits, roots)
    ensures ok <==> ExtCertified(ts, a, m, ns, bits, roots) && Query.Refutes(arena, hints, steps)
    ensures ok ==> !TreeSat(ts)
  {
    hide FlatList.PutAll, TS.Certified, Query.ArenaFor, Query.Refutes, StOk, TreeSat, MeansBool, TreeUses, Functional, Accepted;
    hide ExtSat;
    arena := None;
    var flat := Flatten.FlattenTree(ts);
    if flat.Err? { return false, None; }
    var f := flat.value;
    var x := InputOf(f.nodes, f.bits, f.side, f.roots, a);
    FlattenedSat(x, f.State(), f.roots, ts);
    var sliver, built := SliverModel.CheckSliverUnsat(x, m, ns, bits, roots, hints, steps);
    ok, arena := sliver, built;
  }

  // ---------- the model binding ----------

  /** The w low bits of value are the input block of node d. */
  predicate BoundAt(ns: Dag, inp: seq<bool>, d: nat, w: nat, value: nat)
  {
    && d <= |ns| && Offset(ns, d) <= USIZE_MAX && w <= 128 && Offset(ns, d) + w <= |inp|
    && forall j :: 0 <= j < w ==> inp[Offset(ns, d) + j] == SatWitness.BitOf(value, j)
  }

  method CheckBoundAt(ns: Dag, inp: seq<bool>, d: nat, w: nat, value: nat) returns (r: bool)
    ensures r == BoundAt(ns, inp, d, w, value)
  {
    var offset := Query.VarOffset(ns, d);
    if offset.Err? { return false; }
    if w > |inp| || offset.value > |inp| - w { return false; }
    r := Query.CheckInputValue(inp, offset.value, w, value);
  }

  /** Variable k's value is at its image's input block; a variable without an
      image is unconstrained. */
  predicate VarBound(varNode: seq<nat>, varWidth: seq<nat>, m: seq<nat>, ns: Dag, inp: seq<bool>, values: seq<nat>, k: nat)
    requires k < |varNode| == |varWidth| == |values|
  {
    T.MapAt(m, varNode[k]) == NONE || BoundAt(ns, inp, T.MapAt(m, varNode[k]), varWidth[k], values[k])
  }

  predicate TreeModelOk(varNode: seq<nat>, varWidth: seq<nat>, m: seq<nat>, ns: Dag, inp: seq<bool>, values: seq<nat>)
  {
    && |varNode| == |varWidth| == |values|
    && forall k :: 0 <= k < |varNode| ==> VarBound(varNode, varWidth, m, ns, inp, values, k)
  }

  method CheckTreeModel(varNode: seq<nat>, varWidth: seq<nat>, m: seq<nat>, ns: Dag, inp: seq<bool>, values: seq<nat>)
    returns (ok: bool)
    ensures ok == TreeModelOk(varNode, varWidth, m, ns, inp, values)
  {
    if |varWidth| != |varNode| || |values| != |varNode| { return false; }
    ok := true;
    for k := 0 to |varNode|
      invariant ok ==> forall j :: 0 <= j < k ==> VarBound(varNode, varWidth, m, ns, inp, values, j)
      invariant !ok ==> exists j :: 0 <= j < k && !VarBound(varNode, varWidth, m, ns, inp, values, j)
    {
      var d := T.MapAt(m, varNode[k]);
      var bound := CheckBoundAt(ns, inp, d, varWidth[k], values[k]);
      assert VarBound(varNode, varWidth, m, ns, inp, values, k) <==> (d == NONE || bound);
      if d != NONE && !bound { ok := false; }
    }
  }

  /** Through both maps: the core image is a variable of the right width. */
  predicate ExtVarBound(varNode: seq<nat>, varWidth: seq<nat>, em: seq<nat>, t: Dag, m: seq<nat>, ns: Dag, inp: seq<bool>,
                        values: seq<nat>, k: nat)
    requires k < |varNode| == |varWidth| == |values|
  {
    var d := T.MapAt(em, varNode[k]);
    d == NONE ||
    (d < |t| && t[d] == Var(varWidth[k]) &&
     (T.MapAt(m, d) == NONE || BoundAt(ns, inp, T.MapAt(m, d), varWidth[k], values[k])))
  }

  predicate ExtTreeModelOk(varNode: seq<nat>, varWidth: seq<nat>, em: seq<nat>, t: Dag, m: seq<nat>, ns: Dag,
                           inp: seq<bool>, values: seq<nat>)
  {
    && |varNode| == |varWidth| == |values|
    && forall k :: 0 <= k < |varNode| ==> ExtVarBound(varNode, varWidth, em, t, m, ns, inp, values, k)
  }

  method CheckTreeModelExt(varNode: seq<nat>, varWidth: seq<nat>, em: seq<nat>, t: Dag, m: seq<nat>, ns: Dag,
                           inp: seq<bool>, values: seq<nat>) returns (ok: bool)
    ensures ok == ExtTreeModelOk(varNode, varWidth, em, t, m, ns, inp, values)
  {
    if |varWidth| != |varNode| || |values| != |varNode| { return false; }
    ok := true;
    for k := 0 to |varNode|
      invariant ok ==> forall j :: 0 <= j < k ==> ExtVarBound(varNode, varWidth, em, t, m, ns, inp, values, j)
      invariant !ok ==> exists j :: 0 <= j < k && !ExtVarBound(varNode, varWidth, em, t, m, ns, inp, values, j)
    {
      ghost var before, bound := ok, ExtVarBound(varNode, varWidth, em, t, m, ns, inp, values, k);
      var d := T.MapAt(em, varNode[k]);
      if d != NONE {
        if d >= |t| {
          ok := false;
        } else {
          if t[d] != Var(varWidth[k]) { ok := false; }
          var d' := T.MapAt(m, d);
          var at := CheckBoundAt(ns, inp, d', varWidth[k], values[k]);
          if d' != NONE && !at { ok := false; }
        }
      }
      assert ok <==> before && bound;
    }
  }

  /** A bound value is the word the image variable reads. */
  lemma BoundValue(ns: Dag, inp: seq<bool>, d: nat, w: nat, value: nat)
    requires BoundAt(ns, inp, d, w, value) && d < |ns| && ns[d] == Var(w)
    ensures EnvOf(ns, inp)[d] == FromInt(value, w)
  {
    var word := InputBits(inp, Offset(ns, d), w);
    forall j | 0 <= j < w ensures word[j] == FromInt(value, w)[j] {
      FromIntBit(value, w, j);
      assert inp[Offset(ns, d) + j] == SatWitness.BitOf(value, j);
      assert word[j] == AigGraph.InputBit(inp, Offset(ns, d) + j);
    }
    assert word == FromInt(value, w);
  }

  // ---------- models of closed trees ----------

  /** The interpretation gives every named variable its listed value. */
  ghost predicate GivesValues(st: St, values: seq<nat>, I: Interp)
    requires |values| == |st.varNode| == |st.varWidth|
  {
    forall k :: 0 <= k < |values| ==> VarNamed(I, NameOf(st.names, k), st.varWidth[k]) == FromInt(values[k], st.varWidth[k])
  }

  /** The named values agree with the DAG's inputs along the term map. */
  lemma NamedAgree(st: St, core: Dag, m: seq<nat>, ns: Dag, bits: seq<bool>, inp: seq<bool>, values: seq<nat>, I: Interp)
    requires StOk(st) && CoreOf(st, core) && |m| == |core| && |ns| <= USIZE_MAX
    requires TS.Checked(T.PairOf(core, st.bits, m, ns, bits))
    requires TreeModelOk(st.varNode, st.varWidth, m, ns, inp, values) && GivesValues(st, values, I)
    ensures var p := T.PairOf(core, st.bits, m, ns, bits);
            TS.Agree(p, ModelOf(st, I, TS.Pulled(p, EnvOf(ns, inp))).env, EnvOf(ns, inp))
  {
    hide ExtWf, MemosOk, Tidy, TableOk, DagWf;
    var p, env' := T.PairOf(core, st.bits, m, ns, bits), EnvOf(ns, inp);
    var free := TS.Pulled(p, env');
    var mdl := ModelOf(st, I, free);
    ModelOfMatches(st, I, free);
    CoreEnvOk(st, core, mdl);
    TS.PulledAgrees(p, env');
    forall i | 0 <= i < |core| && core[i].Var? && T.Mapped(p, i) ensures mdl.env[i] == env'[m[i]] {
      assert st.nodes[i] == Core(core[i]);
      assert T.StepOk(p, T.ZeroVals(core, st.bits), i);
      if IsTabled(st, i) {
        var k := TableEntry(st, i);
        assert VarBound(st.varNode, st.varWidth, m, ns, inp, values, k);
        BoundValue(ns, inp, m[i], st.varWidth[k], values[k]);
      }
    }
  }

  /** A model of closed trees: every interpretation that gives the named
      variables the listed values makes every asserted tree true. */
  method CheckTreeSat(ts: seq<TBool>, m: seq<nat>, ns: Dag, bits: seq<bool>, roots: seq<nat>, inp: seq<bool>,
                      values: seq<nat>) returns (ok: bool, names: NameTable, widths: seq<nat>)
    requires |ns| <= USIZE_MAX
    ensures var st := FlatList.PutAll(false, ts).0;
            ok <==> TreesCertified(ts, m, ns, bits, roots) && Query.ModelOk(ns, bits, roots, inp) &&
                    TreeModelOk(st.varNode, st.varWidth, m, ns, inp, values)
    ensures ok ==> var st := FlatList.PutAll(false, ts).0; names == st.names && widths == st.varWidth
    ensures ok ==> |names.starts| == |widths| == |values|
    ensures ok ==> (set k | 0 <= k < |widths| :: (NameOf(names, k), widths[k])) == TreeUses(ts).vars
    ensures ok ==> forall I: Interp ::
              (forall k :: 0 <= k < |values| ==> VarNamed(I, NameOf(names, k), widths[k]) == FromInt(values[k], widths[k]))
              ==> Holds(ts, I)
  {
    hide FlatList.PutAll, T.Accepted, T.Blames, Query.BeyondCapacity, Query.ModelOk, TreeModelOk, Query.FirstBad, RootsTrue;
    hide Functional, TreeUses, StOk, Holds;
    names, widths := NameTable([], [], []), [];
    var flat := Flatten.FlattenTree(ts);
    if flat.Err? { return false, names, widths; }
    var f := flat.value;
    ghost var st := f.State();
    ClosedFlat(st, f.roots, ts);
    names, widths := f.names, f.varWidth;
    var core := Flatten.ProjectCore(f.nodes);
    if core.Err? || |core.value| > USIZE_MAX { return false, names, widths; }
    ProjectedCores(f.nodes, core.value);
    CoreWf(st, f.roots, ts, core.value);
    var corr := T.CheckTermDag(core.value, f.bits, f.roots, m, ns, bits, roots);
    var query := Query.CheckQueryModel(ns, bits, roots, inp);
    var bound := CheckTreeModel(f.varNode, f.varWidth, m, ns, inp, values);
    ok := corr.Ok? && query.Ok? && bound;
    if ok {
      ListedNames(st, f.roots, ts, m, ns, inp, values);
      forall I: Interp | GivesValues(st, values, I) ensures Holds(ts, I) {
        NamedModel(st, f.roots, ts, core.value, m, ns, bits, roots, inp, values, I);
      }
    }
  }

  /** A checked model lists one value for every variable of the table. */
  lemma ListedNames(st: St, troots: seq<nat>, ts: seq<TBool>, m: seq<nat>, ns: Dag, inp: seq<bool>, values: seq<nat>)
    requires Flatten.FlatOf(st, troots, ts) && TreeModelOk(st.varNode, st.varWidth, m, ns, inp, values)
    ensures |values| == |st.varNode| == |st.varWidth| == |st.names.starts|
    ensures (set k | 0 <= k < |st.varWidth| :: (NameOf(st.names, k), st.varWidth[k])) == TreeUses(ts).vars
  {
    Flatten.FlatTables(st, troots, ts);
    ListedUses(st, troots, ts);
  }

  lemma NamedModel(st: St, troots: seq<nat>, ts: seq<TBool>, core: Dag, m: seq<nat>, ns: Dag, bits: seq<bool>,
                   roots: seq<nat>, inp: seq<bool>, values: seq<nat>, I: Interp)
    requires Flatten.FlatOf(st, troots, ts) && CoreOf(st, core) && |ns| <= USIZE_MAX
    requires T.Accepted(core, st.bits, troots, m, ns, bits, roots)
    requires Query.RootsBound(ns, roots) && RootsTrue(ns, bits, EnvOf(ns, inp), roots)
    requires TreeModelOk(st.varNode, st.varWidth, m, ns, inp, values) && GivesValues(st, values, I)
    ensures Holds(ts, I)
  {
    hide StOk, Matches, Holds, RootsTrue, ModelOf, CoreOf, TreeModelOk, GivesValues, DagWf;
    var p := T.PairOf(core, st.bits, m, ns, bits);
    var free := TS.Pulled(p, EnvOf(ns, inp));
    var mdl := ModelOf(st, I, free);
    CoreWf(st, troots, ts, core);
    NamedAgree(st, core, m, ns, bits, inp, values, I);
    TS.RootsTogether(p, troots, roots, mdl.env, EnvOf(ns, inp));
    ModelOfMatches(st, I, free);
    CoreRootsMatch(st, troots, ts, core, I, mdl);
  }

  // ---------- models of extended trees ----------

  /** The first named variable from k on with image d. */
  function FirstImage(varNode: seq<nat>, em: seq<nat>, d: nat, k: nat): (r: nat)
    requires k <= |varNode|
    ensures k <= r <= |varNode| && (r < |varNode| ==> T.MapAt(em, varNode[r]) == d)
    ensures forall j :: k <= j < r ==> T.MapAt(em, varNode[j]) != d
    decreases |varNode| - k
  {
    if k == |varNode| || T.MapAt(em, varNode[k]) == d then k else FirstImage(varNode, em, d, k + 1)
  }

  /** The core assignment: the DAG's inputs where the term map reaches, the
      listed value of a named variable elsewhere, zero otherwise. */
  function CoreValues(varNode: seq<nat>, em: seq<nat>, t: Dag, m: seq<nat>, ns: Dag, inp: seq<bool>, values: seq<nat>)
    : (env: Env)
    ensures |env| == |t|
  {
    seq(|t|, d requires 0 <= d < |t| =>
      if !t[d].Var? then []
      else if d < |m| && m[d] < |ns| then At(EnvOf(ns, inp), m[d])
      else
        var k := FirstImage(varNode, em, d, 0);
        if k < |varNode| && k < |values| then FromInt(values[k], t[d].w) else Fill(false, t[d].w))
  }

  lemma CoreValuesAgree(varNode: seq<nat>, em: seq<nat>, p: T.Pair, inp: seq<bool>, values: seq<nat>)
    requires TS.Checked(p)
    ensures TS.Agree(p, CoreValues(varNode, em, p.t, p.m, p.ns, inp, values), EnvOf(p.ns, inp))
  {
    hide DagWf;
    var env := CoreValues(varNode, em, p.t, p.m, p.ns, inp, values);
    forall i | 0 <= i < |p.t| && p.t[i].Var? ensures |env[i]| == p.t[i].w {
      assert T.StepOk(p, T.ZeroVals(p.t, p.tbits), i);
    }
  }

  /** Everything accepted about an extended model. */
  ghost predicate ModelAccepted(st: St, ts: seq<TBool>, x: Input, m: seq<nat>, ns: Dag, bits: seq<bool>, roots: seq<nat>,
                                inp: seq<bool>, values: seq<nat>)
  {
    && Flatten.FlatOf(st, x.eroots, ts) && QueryOf(x, st, x.eroots)
    && Accepted(x) && |x.t| <= USIZE_MAX && |ns| <= USIZE_MAX
    && T.Accepted(x.t, x.tbits, x.troots, m, ns, bits, roots)
    && Query.RootsBound(ns, roots) && RootsTrue(ns, bits, EnvOf(ns, inp), roots)
    && ExtTreeModelOk(st.varNode, st.varWidth, x.m, x.t, m, ns, inp, values)
  }

  ghost function CoreFor(st: St, x: Input, m: seq<nat>, ns: Dag, inp: seq<bool>, values: seq<nat>): Env
  {
    CoreValues(st.varNode, x.m, x.t, m, ns, inp, values)
  }

  /** The core assignment is a model of the core, read off its input list, and
      the query's calls are narrow. */
  lemma CoreIsModel(st: St, ts: seq<TBool>, x: Input, m: seq<nat>, ns: Dag, bits: seq<bool>, roots: seq<nat>,
                    inp: seq<bool>, values: seq<nat>)
    requires ModelAccepted(st, ts, x, m, ns, bits, roots, inp, values)
    ensures |values| == |st.varNode| == |st.varWidth|
    ensures CoreModel(x, CoreFor(st, x, m, ns, inp, values)) && NarrowCalls(x)
    ensures EnvOk(x.t, CoreFor(st, x, m, ns, inp, values))
    ensures EnvOf(x.t, InputsOfEnv(x.t, CoreFor(st, x, m, ns, inp, values), |x.t|)) == CoreFor(st, x, m, ns, inp, values)
  {
    hide StOk, RootsTrue, Accepted, NarrowCalls, CoreModel;
    var p := T.PairOf(x.t, x.tbits, m, ns, bits);
    var core := CoreFor(st, x, m, ns, inp, values);
    CoreValuesAgree(st.varNode, x.m, p, inp, values);
    RootsInRange(x);
    TS.RootsTogether(p, x.troots, roots, core, EnvOf(ns, inp));
    CoreModelIs(x, core);
    EnvGivenBack(x.t, core);
    assert NarrowQuery(x) by { TreesNarrow(st, x); }
    NarrowFromQuery(x);
  }

  lemma CoreModelIs(x: Input, core: Env)
    requires EnvOk(x.t, core) && (forall k :: 0 <= k < |x.troots| ==> x.troots[k] < |x.t|)
    requires RootsTrue(x.t, x.tbits, core, x.troots)
    ensures CoreModel(x, core)
  {
  }

  /** TREES ARE NARROW: no node of a flattening is wider than 128 bits. */
  lemma TreesNarrow(st: St, x: Input)
    requires StOk(st) && x.e == st.nodes
    ensures NarrowQuery(x)
  {
    hide ExtWf, ExtWidths, VarsOk, MemosOk, TableOk;
    forall i | 0 <= i < |x.e| ensures ExtWidths(x.e, |x.e|)[i] <= MODEL_BITS { assert StWidth(st, i) <= MAX_WIDTH; }
  }

  /** Every core variable the DAG has is bound there to its named value. */
  ghost predicate ModelBound(t: Dag, vars: VarTable, model: Bindings, m: seq<nat>, ns: Dag, inp: seq<bool>)
  {
    forall d :: 0 <= d < |t| && d < |m| && t[d].Var? && m[d] < |ns| ==>
      BoundAt(ns, inp, m[d], t[d].w, ValueOf(vars, model, d))
  }

  /** THE CORE ASSIGNMENT BY NAME IS A CORE MODEL when the DAG's is a model of
      the DAG and the bindings of the variables it has were checked. */
  lemma BoundCoreModel(x: Input, vars: VarTable, model: Bindings, m: seq<nat>, ns: Dag, bits: seq<bool>, roots: seq<nat>,
                       inp: seq<bool>)
    requires Accepted(x) && |x.t| <= USIZE_MAX && |ns| <= USIZE_MAX
    requires T.Accepted(x.t, x.tbits, x.troots, m, ns, bits, roots)
    requires Query.RootsBound(ns, roots) && RootsTrue(ns, bits, EnvOf(ns, inp), roots)
    requires ModelBound(x.t, vars, model, m, ns, inp)
    ensures CoreModel(x, ModelEnv(x.t, vars, model))
  {
    hide Accepted, RootsTrue, DagWf, ValueOf, CoreModel, ModelWord, BoundAt;
    var p, env := T.PairOf(x.t, x.tbits, m, ns, bits), ModelEnv(x.t, vars, model);
    forall d | 0 <= d < |x.t| && x.t[d].Var? && T.Mapped(p, d) ensures env[d] == EnvOf(ns, inp)[m[d]] {
      assert T.StepOk(p, T.ZeroVals(x.t, x.tbits), d);
      BoundWidth(ns, inp, m[d], x.t[d].w, ValueOf(vars, model, d));
      ModelWordIs(ValueOf(vars, model, d), x.t[d].w);
      BoundValue(ns, inp, m[d], x.t[d].w, ValueOf(vars, model, d));
    }
    RootsInRange(x);
    TS.RootsTogether(p, x.troots, roots, env, EnvOf(ns, inp));
    CoreModelIs(x, env);
  }

  lemma BoundWidth(ns: Dag, inp: seq<bool>, d: nat, w: nat, value: nat)
    requires BoundAt(ns, inp, d, w, value)
    ensures w <= 128
  {
  }

  // ---------- the tables, by name ----------

  /** The named tables of a model: the variables' values, and the cells and
      results under their array and function names. */
  datatype Listing = Listing(names: NameTable, widths: seq<nat>, values: seq<nat>, anames: NameTable, cells: Cells,
                             fnames: NameTable, fwidths: seq<nat>, results: Results)

  ghost predicate VarsGiven(l: Listing, I: Interp)
  {
    forall k :: 0 <= k < |l.values| && k < |l.widths| ==>
      VarNamed(I, NameOf(l.names, k), l.widths[k]) == FromInt(l.values[k], l.widths[k])
  }

  /** A listed cell of an array, at its 32-bit index. */
  ghost predicate CellsGiven(l: Listing, I: Interp)
  {
    forall name: Tree.Name, v: Bv :: |v| == 32 && (name, ToNat(v)) in l.cells ==>
      ArrayNamed(I, name, v) == FromInt(l.cells[(name, ToNat(v))], 8)
  }

  /** A listed tuple of a function, at its result width. */
  ghost predicate ResultsGiven(l: Listing, I: Interp)
  {
    forall g: nat, args: seq<Bv> :: g < |l.fwidths| && (NameOf(l.fnames, g), Numbers(args)) in l.results ==>
      FunNamed(I, NameOf(l.fnames, g), l.fwidths[g], args) ==
        FromInt(l.results[(NameOf(l.fnames, g), Numbers(args))], l.fwidths[g])
  }

  /** The interpretation gives everything listed its listed number. */
  ghost predicate Gives(l: Listing, I: Interp) { VarsGiven(l, I) && CellsGiven(l, I) && ResultsGiven(l, I) }

  /** Every listed cell is of a named array, every tuple of a named function. */
  ghost predicate Named(l: Listing)
  {
    && |l.names.starts| == |l.widths| == |l.values| && |l.fnames.starts| == |l.fwidths|
    && (forall key :: key in l.cells ==> FlatList.Listed(l.anames, key.0))
    && (forall key :: key in l.results ==> FlatList.Listed(l.fnames, key.0))
  }

  /** The names of a table, by id. */
  function NamesOf(tab: NameTable): (names: seq<Tree.Name>)
    ensures |names| == |tab.starts| && forall k :: 0 <= k < |names| ==> names[k] == NameOf(tab, k)
  {
    seq(|tab.starts|, k requires 0 <= k < |tab.starts| => NameOf(tab, k))
  }

  function BlockOf(anames: NameTable, fnames: NameTable): Block { Block([], NamesOf(anames), NamesOf(fnames)) }

  ghost function Names(st: St): Block { BlockOf(st.anames, st.fnames) }

  /** The listing a flattening and a core model give. */
  ghost function ListingOf(st: St, x: Input, core: Env, values: seq<nat>): Listing
  {
    Listing(st.names, st.varWidth, values, st.anames, CellTable(x, Names(st), core), st.fnames, st.funcWidth,
            ResultTable(x, Names(st), core))
  }

  /** A read entry's array is a named one. */
  lemma ReadNamed(st: St, x: Input, p: nat)
    requires StOk(st) && x.e == st.nodes && Accepted(x) && |x.t| <= USIZE_MAX && p < Reads(x)
    ensures RArray(x, p) < |st.anames.starts|
  {
    hide ExtWf, DagWf, VarsOk, MemosOk, TableOk, CallsOk, Congruent, ExtRootsCorr;
    var d := RVar(x, p);
    assert ReadEntryOk(x, p);
    assert Live(x, d);
    var i: nat :| i < |x.e| && Reaches(x, i, d);
    ReachClass(x, i, d);
    assert IsRead(x, d);
    assert StepOk(x, i) && IdsOk(st, st.nodes[i]);
    var q :| 0 <= q < Reads(x) && ReadFor(x, q, d, x.e[i].aid, T.MapAt(x.m, x.e[i].idx));
    assert ReadEntryOk(x, q);
  }

  /** A call entry's function is a named one, at its result width. */
  lemma CallNamed(st: St, x: Input, p: nat)
    requires StOk(st) && x.e == st.nodes && Accepted(x) && |x.t| <= USIZE_MAX && p < Calls(x)
    ensures CFunc(x, p) < |st.funcWidth| && CVar(x, p) < |x.t| && x.t[CVar(x, p)] == Var(st.funcWidth[CFunc(x, p)])
  {
    hide ExtWf, DagWf, VarsOk, MemosOk, TableOk, ReadsOk, CallsOk, Congruent, ExtRootsCorr, CArgs, ArgImages;
    var i := EntryCall(x, p);
    assert StepOk(x, i) && IdsOk(st, st.nodes[i]);
  }

  /** A FLATTENING NAMES EVERYTHING ONCE: every entry's array and function is
      listed, and no name twice. */
  lemma TreesNamed(st: St, x: Input)
    requires StOk(st) && x.e == st.nodes && Accepted(x) && |x.t| <= USIZE_MAX
    ensures Listed(x, Names(st)) && NamesOnce(Names(st))
  {
    hide Accepted, ExtWf, MemosOk, Tidy, VarsOk, NameOf;
    forall p: nat | p < Reads(x) ensures RArray(x, p) < |st.anames.starts| { ReadNamed(st, x, p); }
    forall p: nat | p < Calls(x) ensures CFunc(x, p) < |st.fnames.starts| { CallNamed(st, x, p); }
  }

  lemma TablesNamed(st: St, x: Input, core: Env, values: seq<nat>)
    requires StOk(st) && x.e == st.nodes && Accepted(x) && |x.t| <= USIZE_MAX
    requires |values| == |st.varNode| == |st.varWidth|
    ensures Named(ListingOf(st, x, core, values))
  {
    hide Accepted, ExtWf, MemosOk, Tidy, IndexVal, CallVals, IndexNumber, CellNumber, Cut, Cuts, NameOf, NamesOnce;
    var l, b := ListingOf(st, x, core, values), Names(st);
    TreesNamed(st, x);
    forall key | key in l.cells ensures FlatList.Listed(l.anames, key.0) {
      var p := LastInsertion(CellKeys(x, b, core, Reads(x)), CellNumbers(x, core, Reads(x)), Reads(x), key);
      assert key.0 == NameOf(l.anames, RArray(x, p));
    }
    forall key | key in l.results ensures FlatList.Listed(l.fnames, key.0) {
      var p := LastInsertion(CallKeys(x, b, core, Calls(x)), ResultNumbers(x, core, Calls(x)), Calls(x), key);
      assert key.0 == NameOf(l.fnames, CFunc(x, p));
    }
  }

  /** A matching model of a listed interpretation holds the tables' numbers. */
  lemma GivesTables(st: St, x: Input, core: Env, values: seq<nat>, I: Interp, mdl: Model)
    requires StOk(st) && x.e == st.nodes && Accepted(x) && |x.t| <= USIZE_MAX && CoreModel(x, core) && NarrowCalls(x)
    requires Gives(ListingOf(st, x, core, values), I) && Matches(st, I, mdl)
    ensures TablesHeld(x, Names(st), mdl, core)
  {
    hide Accepted, CoreModel, NarrowCalls, StOk, ToNat, FromInt, CellTable, ResultTable, IndexVal, CallVals, VarMatches, NameOf;
    hide Listed, NamesOnce, CellsKept, ResultsKept, Numbers;
    var b := Names(st);
    TreesNamed(st, x);
    CellsNeverLost(x, b, core);
    NarrowNeverLost(x, b, core);
    forall p: nat | p < Reads(x) ensures CellListed(x, b, mdl, core, p) {
      CoreModelMeans(x, core);
      CellWords(x, core, p);
      CellInTable(x, b, core, p);
      ReadNamed(st, x, p);
    }
    forall p: nat | p < Calls(x) ensures ResultListed(x, b, mdl, core, p) {
      ResultInTable(x, b, core, p);
      CallNamed(st, x, p);
      FunctionIds(st);
    }
  }

  lemma FunctionIds(st: St)
    requires StOk(st)
    ensures |st.funcWidth| == |st.fnames.starts|
  {
  }

  // ---------- what a listed model means ----------

  /** A named variable's listed value is its image's. */
  lemma NamedImage(st: St, ts: seq<TBool>, x: Input, m: seq<nat>, ns: Dag, bits: seq<bool>, roots: seq<nat>,
                   inp: seq<bool>, values: seq<nat>, i: nat, k: nat)
    requires ModelAccepted(st, ts, x, m, ns, bits, roots, inp, values)
    requires i < |x.e| && x.e[i].Core? && x.e[i].nd.Var? && Mapped(x, i) && TabledAt(st, i, k)
    ensures k < |values| && At(CoreFor(st, x, m, ns, inp, values), x.m[i]) == FromInt(values[k], st.varWidth[k])
  {
    hide ModelAccepted, Accepted, StOk, FromInt, BoundAt;
    var d := x.m[i];
    NamedFacts(st, ts, x, m, ns, bits, roots, inp, values, d, k);
    if d < |m| && m[d] < |ns| {
      BoundValue(ns, inp, m[d], st.varWidth[k], values[k]);
    } else {
      var r := FirstImage(st.varNode, x.m, d, 0);
      assert VarImage(x, i, d) && VarImage(x, st.varNode[r], d);
      VarImageUnique(x, i, st.varNode[r], d);
    }
  }

  /** What acceptance says of one name and one core variable. */
  lemma NamedFacts(st: St, ts: seq<TBool>, x: Input, m: seq<nat>, ns: Dag, bits: seq<bool>, roots: seq<nat>,
                   inp: seq<bool>, values: seq<nat>, d: nat, k: nat)
    requires ModelAccepted(st, ts, x, m, ns, bits, roots, inp, values) && k < |st.varNode| && d < |x.t|
    ensures VarsOk(st) && Accepted(x) && |x.t| <= USIZE_MAX && x.e == st.nodes && |x.e| == |x.m|
    ensures |values| == |st.varNode| == |st.varWidth|
    ensures ExtVarBound(st.varNode, st.varWidth, x.m, x.t, m, ns, inp, values, k)
    ensures |m| == |x.t| && T.StepOk(T.PairOf(x.t, x.tbits, m, ns, bits), T.ZeroVals(x.t, x.tbits), d)
  {
    hide Flatten.FlatOf, RootsTrue, Query.RootsBound, ExtWf, DagWf, ReadsOk, CallsOk, Congruent, ExtRootsCorr, StepOk, T.StepOk;
    FlatVars(st, x, ts);
  }

  lemma FlatVars(st: St, x: Input, ts: seq<TBool>)
    requires Flatten.FlatOf(st, x.eroots, ts)
    ensures VarsOk(st) && StOk(st)
  {
  }

  lemma ModelFacts(st: St, ts: seq<TBool>, x: Input, m: seq<nat>, ns: Dag, bits: seq<bool>, roots: seq<nat>,
                   inp: seq<bool>, values: seq<nat>)
    requires ModelAccepted(st, ts, x, m, ns, bits, roots, inp, values)
    ensures Flatten.FlatOf(st, x.eroots, ts) && StOk(st) && QueryOf(x, st, x.eroots)
    ensures Accepted(x) && |x.t| <= USIZE_MAX && |x.e| == |x.m|
  {
  }

  /** EVERY LISTED INTERPRETATION SATISFIES the trees. */
  lemma GivesHolds(st: St, ts: seq<TBool>, x: Input, m: seq<nat>, ns: Dag, bits: seq<bool>, roots: seq<nat>,
                   inp: seq<bool>, values: seq<nat>, I: Interp)
    requires ModelAccepted(st, ts, x, m, ns, bits, roots, inp, values)
    requires Gives(ListingOf(st, x, CoreFor(st, x, m, ns, inp, values), values), I)
    ensures Holds(ts, I)
  {
    hide ModelAccepted, Flatten.FlatOf, StOk, Matches, Holds, RootsTrue, ExtRootsTrue, Accepted, Gives, Pulled, ModelOf;
    hide NarrowCalls, TablesHeld, CoreModel, CoreFor, CellHeld, CallHeld;
    var core := CoreFor(st, x, m, ns, inp, values);
    ModelFacts(st, ts, x, m, ns, bits, roots, inp, values);
    var free := Pulled(x, core).env;
    var mdl := ModelOf(st, I, free);
    CoreIsModel(st, ts, x, m, ns, bits, roots, inp, values);
    CoreModelMeans(x, core);
    ModelOfMatches(st, I, free);
    GivesTables(st, x, core, values, I, mdl);
    TreesNamed(st, x);
    TablesAreEntries(x, Names(st), mdl, core);
    forall i: nat | i < |x.e| && x.e[i].Core? && x.e[i].nd.Var? && Mapped(x, i) ensures mdl.env[i] == At(core, x.m[i]) {
      GivesImage(st, ts, x, m, ns, bits, roots, inp, values, I, i);
    }
    assert Interprets(x, mdl, core);
    RootsInRange(x);
    InterpretationSatisfies(x, mdl, core);
    RootsMatch(x, st, x.eroots, ts, I, mdl);
  }

  /** A mapped variable of the query has its image's value. */
  lemma GivesImage(st: St, ts: seq<TBool>, x: Input, m: seq<nat>, ns: Dag, bits: seq<bool>, roots: seq<nat>,
                   inp: seq<bool>, values: seq<nat>, I: Interp, i: nat)
    requires ModelAccepted(st, ts, x, m, ns, bits, roots, inp, values)
    requires Gives(ListingOf(st, x, CoreFor(st, x, m, ns, inp, values), values), I)
    requires i < |x.e| == |x.m| && x.e[i].Core? && x.e[i].nd.Var? && Mapped(x, i)
    ensures var core := CoreFor(st, x, m, ns, inp, values);
            At(ModelOf(st, I, Pulled(x, core).env).env, i) == At(core, x.m[i])
  {
    hide ModelAccepted, Flatten.FlatOf, StOk, CellsGiven, ResultsGiven, CellTable, ResultTable, CoreFor, Accepted, Pulled;
    var core := CoreFor(st, x, m, ns, inp, values);
    ModelFacts(st, ts, x, m, ns, bits, roots, inp, values);
    CoreIsModel(st, ts, x, m, ns, bits, roots, inp, values);
    if IsTabled(st, i) {
      NamedImage(st, ts, x, m, ns, bits, roots, inp, values, i, TableEntry(st, i));
    } else {
      PulledImage(x, core, i);
    }
  }

  lemma PulledImage(x: Input, core: Env, i: nat)
    requires Accepted(x) && |x.t| <= USIZE_MAX && EnvOk(x.t, core)
    requires i < |x.e| == |x.m| && x.e[i].Core? && x.e[i].nd.Var? && Mapped(x, i)
    ensures |Pulled(x, core).env| == |x.e| && Pulled(x, core).env[i] == At(core, x.m[i])
    ensures |At(core, x.m[i])| == x.e[i].nd.w
  {
    hide ExtWf, DagWf, ReadsOk, CallsOk, Congruent, ExtRootsCorr, AnyRead, AnyCall;
    assert StepOk(x, i);
  }

  /** The listed values of the named variables, and the pulled-back ones of
      the nodes no name owns. */
  ghost function ListedEnv(st: St, x: Input, core: Env, values: seq<nat>): Env
    requires |values| == |st.varNode| == |st.varWidth| && |x.e| == |x.m|
  {
    seq(|x.e|, i requires 0 <= i < |x.e| =>
      if IsTabled(st, i) then FromInt(values[TableEntry(st, i)], st.varWidth[TableEntry(st, i)])
      else At(Pulled(x, core).env, i))
  }

  /** The model the listing denotes: what is listed, zero elsewhere. */
  ghost function ListedModel(st: St, x: Input, core: Env, values: seq<nat>): Model
    requires |values| == |st.varNode| == |st.varWidth| && |x.e| == |x.m|
  {
    FromTables(Names(st), ListedEnv(st, x, core, values), CellTable(x, Names(st), core), ResultTable(x, Names(st), core))
  }

  lemma ListedModelOk(st: St, x: Input, core: Env, values: seq<nat>)
    requires StOk(st) && |values| == |st.varNode| == |st.varWidth| && |x.e| == |x.m| && x.e == st.nodes
    ensures ModelOk(st.nodes, ListedModel(st, x, core, values))
  {
    hide ExtWf, MemosOk, Tidy, CellTable, ResultTable, FromInt, NameOf, TableOk;
  }

  /** An interpretation that matches it gives the listed numbers. */
  lemma ListedVars(st: St, x: Input, core: Env, values: seq<nat>, I: Interp)
    requires StOk(st) && |values| == |st.varNode| == |st.varWidth| && |x.e| == |x.m| && x.e == st.nodes
    requires Matches(st, I, ListedModel(st, x, core, values))
    ensures VarsGiven(ListingOf(st, x, core, values), I)
  {
    hide ExtWf, MemosOk, Tidy, CellTable, ResultTable, FromInt, NameOf, TableOk;
    forall k | 0 <= k < |values|
      ensures VarNamed(I, NameOf(st.names, k), st.varWidth[k]) == FromInt(values[k], st.varWidth[k])
    {
      assert VarMatches(st, I, ListedModel(st, x, core, values), k);
      assert TabledAt(st, st.varNode[k], k);
      assert TableEntry(st, st.varNode[k]) == k;
    }
  }

  lemma ListedTables(st: St, x: Input, core: Env, values: seq<nat>, I: Interp)
    requires |values| == |st.varNode| == |st.varWidth| && |x.e| == |x.m| && |st.fnames.starts| == |st.funcWidth|
    requires Named(ListingOf(st, x, core, values)) && Matches(st, I, ListedModel(st, x, core, values))
    ensures CellsGiven(ListingOf(st, x, core, values), I) && ResultsGiven(ListingOf(st, x, core, values), I)
  {
    hide CellsGiven, ResultsGiven, Named, ListingOf, ListedModel, Matches;
    ListedCells(st, x, core, values, I);
    ListedResults(st, x, core, values, I);
  }

  lemma ListedCells(st: St, x: Input, core: Env, values: seq<nat>, I: Interp)
    requires |values| == |st.varNode| == |st.varWidth| && |x.e| == |x.m| && |st.fnames.starts| == |st.funcWidth|
    requires Named(ListingOf(st, x, core, values)) && Matches(st, I, ListedModel(st, x, core, values))
    ensures CellsGiven(ListingOf(st, x, core, values), I)
  {
    hide CellTable, ResultTable, FromInt, ToNat, Numbers, NameOf, VarMatches, FunAt, FunNamed;
    var l, mdl := ListingOf(st, x, core, values), ListedModel(st, x, core, values);
    forall name: Tree.Name, v: Bv | (name, ToNat(v)) in l.cells
      ensures ArrayNamed(I, name, v) == FromInt(l.cells[(name, ToNat(v))], 8)
    {
      assert FlatList.Listed(l.anames, name);
      var a: nat :| a < |l.anames.starts| && NameOf(l.anames, a) == name;
      assert (a, v) in mdl.arrays;
    }
  }

  lemma ListedResults(st: St, x: Input, core: Env, values: seq<nat>, I: Interp)
    requires |values| == |st.varNode| == |st.varWidth| && |x.e| == |x.m| && |st.fnames.starts| == |st.funcWidth|
    requires Named(ListingOf(st, x, core, values)) && Matches(st, I, ListedModel(st, x, core, values))
    ensures ResultsGiven(ListingOf(st, x, core, values), I)
  {
    hide CellTable, ResultTable, FromInt, ToNat, Numbers, NameOf, VarMatches, ArrayAt, ArrayNamed;
    var l, mdl := ListingOf(st, x, core, values), ListedModel(st, x, core, values);
    forall g: nat, args: seq<Bv> | g < |l.fwidths| && (NameOf(l.fnames, g), Numbers(args)) in l.results
      ensures FunNamed(I, NameOf(l.fnames, g), l.fwidths[g], args) ==
                FromInt(l.results[(NameOf(l.fnames, g), Numbers(args))], l.fwidths[g])
    {
      assert (g, st.funcWidth[g], args) in mdl.funs;
    }
  }

  /** So some interpretation gives the listing. */
  lemma ListingGiven(st: St, x: Input, core: Env, values: seq<nat>) returns (I: Interp)
    requires StOk(st) && |values| == |st.varNode| == |st.varWidth| && |x.e| == |x.m| && x.e == st.nodes
    requires Named(ListingOf(st, x, core, values))
    ensures Gives(ListingOf(st, x, core, values), I)
  {
    hide StOk, Named, ListingOf, ListedModel, Matches, InterpOf, VarsGiven, CellsGiven, ResultsGiven;
    ListedModelOk(st, x, core, values);
    I := InterpOf(st, ListedModel(st, x, core, values));
    InterpOfMatches(st, ListedModel(st, x, core, values));
    ListedVars(st, x, core, values, I);
    FunctionIds(st);
    ListedTables(st, x, core, values, I);
  }

  /** What acceptance means of the listing. */
  lemma ListingMeans(st: St, ts: seq<TBool>, x: Input, m: seq<nat>, ns: Dag, bits: seq<bool>, roots: seq<nat>,
                     inp: seq<bool>, values: seq<nat>)
    requires ModelAccepted(st, ts, x, m, ns, bits, roots, inp, values)
    ensures var l := ListingOf(st, x, CoreFor(st, x, m, ns, inp, values), values);
            && Named(l) && (forall I: Interp :: Gives(l, I) ==> Holds(ts, I)) && (exists I: Interp :: Gives(l, I))
  {
    hide ModelAccepted, Named, Gives, Holds, ListingOf, CoreFor, Accepted, StOk, Flatten.FlatOf, CoreModel, NarrowCalls;
    var core := CoreFor(st, x, m, ns, inp, values);
    ModelFacts(st, ts, x, m, ns, bits, roots, inp, values);
    CoreIsModel(st, ts, x, m, ns, bits, roots, inp, values);
    TablesNamed(st, x, core, values);
    forall I: Interp | Gives(ListingOf(st, x, core, values), I) ensures Holds(ts, I) {
      GivesHolds(st, ts, x, m, ns, bits, roots, inp, values, I);
    }
    var I := ListingGiven(st, x, core, values);
  }

  /** The names and functions of a flattening, as its tables list them. */
  lemma ListedUses(st: St, roots: seq<nat>, ts: seq<TBool>)
    requires Flatten.FlatOf(st, roots, ts)
    ensures (set k | 0 <= k < |st.varWidth| :: (NameOf(st.names, k), st.varWidth[k])) == TreeUses(ts).vars
    ensures (set k | 0 <= k < |st.funcWidth| :: (NameOf(st.fnames, k), st.funcWidth[k])) == TreeUses(ts).funs
  {
    hide StOk, MeansBool, TreeUses, NameOf;
    assert FlatLeaves.UsesIn(st) == TreeUses(ts);
  }

  /** The stacked checks of an extended model. */
  method CheckExtModel(x: Input, varNode: seq<nat>, varWidth: seq<nat>, m: seq<nat>, ns: Dag, bits: seq<bool>,
                       roots: seq<nat>, inp: seq<bool>, values: seq<nat>) returns (ok: bool)
    requires |x.t| <= USIZE_MAX && |ns| <= USIZE_MAX
    ensures ok <==> Accepted(x) && TS.Certified(x.t, x.tbits, x.troots, m, ns, bits, roots) &&
                    Query.ModelOk(ns, bits, roots, inp) && ExtTreeModelOk(varNode, varWidth, x.m, x.t, m, ns, inp, values)
    ensures ok ==> Accepted(x) && T.Accepted(x.t, x.tbits, x.troots, m, ns, bits, roots)
    ensures ok ==> Query.RootsBound(ns, roots) && RootsTrue(ns, bits, EnvOf(ns, inp), roots)
    ensures ok ==> ExtTreeModelOk(varNode, varWidth, x.m, x.t, m, ns, inp, values)
  {
    hide Accepted, T.Accepted, RootsTrue, ExtTreeModelOk, SliverCheck.Blames, T.Blames, Query.BeyondCapacity, Query.ModelOk;
    var sliver := SliverCheck.CheckSliverLowering(x);
    if sliver.Err? { return false; }
    var corr := T.CheckTermDag(x.t, x.tbits, x.troots, m, ns, bits, roots);
    if corr.Err? { return false; }
    var query := Query.CheckQueryModel(ns, bits, roots, inp);
    if query.Err? { return false; }
    ok := CheckTreeModelExt(varNode, varWidth, x.m, x.t, m, ns, inp, values);
  }

  /** The tables of an accepted model. */
  method ListModel(x: Input, varNode: seq<nat>, b: Block, m: seq<nat>, ns: Dag, inp: seq<bool>, values: seq<nat>)
    returns (cells: Cells, results: Results)
    requires Accepted(x) && Listed(x, b)
    requires var core := CoreValues(varNode, x.m, x.t, m, ns, inp, values);
             EnvOk(x.t, core) && EnvOf(x.t, InputsOfEnv(x.t, core, |x.t|)) == core
    ensures var core := CoreValues(varNode, x.m, x.t, m, ns, inp, values);
            cells == CellTable(x, b, core) && results == ResultTable(x, b, core)
  {
    hide Accepted, Listed, CellTable, ResultTable, CoreValues;
    var core := CoreValues(varNode, x.m, x.t, m, ns, inp, values);
    var tables := PullbackTables(x, b, InputsOfEnv(x.t, core, |x.t|));
    cells, results := tables.value.0, tables.value.1;
  }

  /** A MODEL OF EXTENDED TREES, as returned: every interpretation that gives
      the listed variables, cells and results their numbers makes every
      asserted tree true, whatever it holds elsewhere; and one does. */
  method CheckExtTreeSat(ts: seq<TBool>, a: Advice, m: seq<nat>, ns: Dag, bits: seq<bool>, roots: seq<nat>,
                         inp: seq<bool>, values: seq<nat>) returns (r: Option<Listing>)
    requires |a.t| <= USIZE_MAX && |ns| <= USIZE_MAX
    ensures var st := FlatList.PutAll(false, ts).0;
            r.Some? <==> ExtCertified(ts, a, m, ns, bits, roots) && Query.ModelOk(ns, bits, roots, inp) &&
                         ExtTreeModelOk(st.varNode, st.varWidth, a.m, a.t, m, ns, inp, values)
    ensures r.Some? ==> var st := FlatList.PutAll(false, ts).0;
              |a.m| == |st.nodes| && r.value == ListingOf(st, InputFor(ts, a), CoreFor(st, InputFor(ts, a), m, ns, inp, values), values)
    ensures r.Some? ==> r.value.values == values && Named(r.value)
    ensures r.Some? ==> var l := r.value;
              (set k | 0 <= k < |l.widths| :: (NameOf(l.names, k), l.widths[k])) == TreeUses(ts).vars
    ensures r.Some? ==> var l := r.value;
              (set k | 0 <= k < |l.fwidths| :: (NameOf(l.fnames, k), l.fwidths[k])) == TreeUses(ts).funs
    ensures r.Some? ==> forall I: Interp :: Gives(r.value, I) ==> Holds(ts, I)
    ensures r.Some? ==> exists I: Interp :: Gives(r.value, I)
  {
    hide Named, Gives, Holds, TreeUses, NameOf, Flatten.FlatOf, Accepted, T.Accepted, RootsTrue, ExtTreeModelOk, StOk;
    hide CoreValues, CellTable, ResultTable, Listed, NamesOnce, CoreModel, NarrowCalls, ModelAccepted, FlatList.PutAll;
    hide TS.Certified, Query.ModelOk, Functional;
    var flat := Flatten.FlattenTree(ts);
    if flat.Err? { return None; }
    var f := flat.value;
    ghost var st := f.State();
    var x := InputOf(f.nodes, f.bits, f.side, f.roots, a);
    var ok := CheckExtModel(x, f.varNode, f.varWidth, m, ns, bits, roots, inp, values);
    if !ok { return None; }
    AcceptedModel(st, ts, x, m, ns, bits, roots, inp, values);
    CoreIsModel(st, ts, x, m, ns, bits, roots, inp, values);
    ModelFacts(st, ts, x, m, ns, bits, roots, inp, values);
    TreesNamed(st, x);
    var cells, results := ListModel(x, f.varNode, BlockOf(f.anames, f.fnames), m, ns, inp, values);
    ListedUses(st, f.roots, ts);
    ListingMeans(st, ts, x, m, ns, bits, roots, inp, values);
    return Some(Listing(f.names, f.varWidth, values, f.anames, cells, f.fnames, f.funcWidth, results));
  }

  lemma AcceptedModel(st: St, ts: seq<TBool>, x: Input, m: seq<nat>, ns: Dag, bits: seq<bool>, roots: seq<nat>,
                      inp: seq<bool>, values: seq<nat>)
    requires Flatten.FlatOf(st, x.eroots, ts) && QueryOf(x, st, x.eroots)
    requires Accepted(x) && |x.t| <= USIZE_MAX && |ns| <= USIZE_MAX
    requires T.Accepted(x.t, x.tbits, x.troots, m, ns, bits, roots)
    requires Query.RootsBound(ns, roots) && RootsTrue(ns, bits, EnvOf(ns, inp), roots)
    requires ExtTreeModelOk(st.varNode, st.varWidth, x.m, x.t, m, ns, inp, values)
    ensures ModelAccepted(st, ts, x, m, ns, bits, roots, inp, values)
  {
  }
}
