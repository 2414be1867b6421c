/** What a flattening means for the trees it came from: interpretations by
    name and models of the node list are carried to each other, and the
    certificates speak about the trees. */
module TreeSound {
  import opened Bits
  import opened Dag
  import opened Sliver
  import opened SliverSound
  import opened Tree
  import opened FlatState
  import opened FlatLeaves
  import Flatten

  // ---------- from names to nodes, and back ----------

  ghost predicate TabledAt(st: St, i: nat, k: nat) { k < |st.varNode| && k < |st.varWidth| && st.varNode[k] == i }

  ghost predicate IsTabled(st: St, i: nat) { exists k: nat :: TabledAt(st, i, k) }

  ghost function TableEntry(st: St, i: nat): (k: nat)
    requires IsTabled(st, i)
    ensures TabledAt(st, i, k)
  {
    var k: nat :| TabledAt(st, i, k); k
  }

  /** The model an interpretation of the names gives; free gives the variable
      nodes no name owns. */
  ghost function ModelOf(st: St, I: Interp, free: Env): Model
  {
    Model(
      seq(|st.nodes|, i requires 0 <= i < |st.nodes| =>
        if IsTabled(st, i)
        then var k := TableEntry(st, i); VarNamed(I, NameOf(st.names, k), st.varWidth[k])
        else if st.nodes[i].Core? && st.nodes[i].nd.Var? then Sized(At(free, i), st.nodes[i].nd.w) else []),
      imap key: (nat, Bv) | key.0 < |st.anames.starts| :: ArrayNamed(I, NameOf(st.anames, key.0), key.1),
      imap key: (nat, nat, seq<Bv>) | key.0 < |st.funcWidth| && st.funcWidth[key.0] == key.1 ::
        FunNamed(I, NameOf(st.fnames, key.0), key.1, key.2))
  }

  lemma ModelOfMatches(st: St, I: Interp, free: Env)
    requires StOk(st)
    ensures Matches(st, I, ModelOf(st, I, free)) && ModelOk(st.nodes, ModelOf(st, I, free))
  {
    hide ExtWf, MemosOk, Tidy;
    var mdl := ModelOf(st, I, free);
    forall k: nat | k < |st.varNode| ensures VarMatches(st, I, mdl, k) {
      assert TabledAt(st, st.varNode[k], k);
      assert TableEntry(st, st.varNode[k]) == k;
    }
  }

  ghost predicate ArrayId(st: St, name: Name, a: nat) { a < |st.anames.starts| && NameOf(st.anames, a) == name }

  ghost predicate HasArray(st: St, name: Name) { exists a: nat :: ArrayId(st, name, a) }

  ghost function ArrayIdOf(st: St, name: Name): (a: nat)
    requires HasArray(st, name)
    ensures ArrayId(st, name, a)
  {
    var a: nat :| ArrayId(st, name, a); a
  }

  ghost predicate FunId(st: St, name: Name, g: nat) { g < |st.fnames.starts| && NameOf(st.fnames, g) == name }

  ghost predicate HasFun(st: St, name: Name) { exists g: nat :: FunId(st, name, g) }

  ghost function FunIdOf(st: St, name: Name): (g: nat)
    requires HasFun(st, name)
    ensures FunId(st, name, g)
  {
    var g: nat :| FunId(st, name, g); g
  }

  ghost predicate VarId(st: St, name: Name, k: nat) { k < |st.varNode| && NameOf(st.names, k) == name }

  ghost predicate HasVar(st: St, name: Name) { exists k: nat :: VarId(st, name, k) }

  ghost function VarIdOf(st: St, name: Name): (k: nat)
    requires HasVar(st, name)
    ensures VarId(st, name, k)
  {
    var k: nat :| VarId(st, name, k); k
  }

  /** The interpretation a model of the node list gives. */
  ghost function InterpOf(st: St, mdl: Model): Interp
  {
    Interp(
      imap name: Name | HasVar(st, name) :: At(mdl.env, st.varNode[VarIdOf(st, name)]),
      imap key: (Name, Bv) | HasArray(st, key.0) :: ArrayAt(mdl, ArrayIdOf(st, key.0), key.1),
      imap key: (Name, nat, seq<Bv>) | HasFun(st, key.0) :: FunAt(mdl, FunIdOf(st, key.0), key.1, key.2))
  }

  lemma InterpOfMatches(st: St, mdl: Model)
    requires StOk(st) && ModelOk(st.nodes, mdl)
    ensures Matches(st, InterpOf(st, mdl), mdl)
  {
    hide StOk, InterpOf, NameOf, ArrayAt, ArrayNamed, FunAt, FunNamed, VarMatches;
    var I := InterpOf(st, mdl);
    Flatten.StTables(st);
    forall k: nat | k < |st.varNode| ensures VarMatches(st, I, mdl, k) { VarFound(st, mdl, k); }
    forall a: nat, v | a < |st.anames.starts| ensures ArrayAt(mdl, a, v) == ArrayNamed(I, NameOf(st.anames, a), v) {
      ArrayFound(st, mdl, a, v);
    }
    forall g: nat, args | g < |st.funcWidth|
      ensures FunAt(mdl, g, st.funcWidth[g], args) == FunNamed(I, NameOf(st.fnames, g), st.funcWidth[g], args)
    {
      FunFound(st, mdl, g, args);
    }
  }

  lemma VarFound(st: St, mdl: Model, k: nat)
    requires StOk(st) && ModelOk(st.nodes, mdl) && k < |st.varNode|
    ensures VarMatches(st, InterpOf(st, mdl), mdl, k)
  {
    hide ExtWf, MemosOk, Tidy, NameOf;
    assert VarId(st, NameOf(st.names, k), k);
    assert VarIdOf(st, NameOf(st.names, k)) == k;
  }

  lemma ArrayFound(st: St, mdl: Model, a: nat, v: Bv)
    requires StOk(st) && a < |st.anames.starts|
    ensures ArrayAt(mdl, a, v) == ArrayNamed(InterpOf(st, mdl), NameOf(st.anames, a), v)
  {
    hide ExtWf, MemosOk, VarsOk, Tidy, NameOf;
    assert ArrayId(st, NameOf(st.anames, a), a);
    assert ArrayIdOf(st, NameOf(st.anames, a)) == a;
  }

  lemma FunFound(st: St, mdl: Model, g: nat, args: seq<Bv>)
    requires StOk(st) && g < |st.funcWidth|
    ensures FunAt(mdl, g, st.funcWidth[g], args) ==
              FunNamed(InterpOf(st, mdl), NameOf(st.fnames, g), st.funcWidth[g], args)
  {
    hide ExtWf, MemosOk, VarsOk, Tidy, NameOf;
    assert FunId(st, NameOf(st.fnames, g), g);
    assert FunIdOf(st, NameOf(st.fnames, g)) == g;
  }

  // ---------- the extended query of the trees ----------

  /** x's query is the flattening's. */
  ghost predicate QueryOf(x: Input, st: St, roots: seq<nat>)
  {
    x.e == st.nodes && x.ebits == st.bits && x.eside == st.side && x.eroots == roots
  }

  lemma {:induction false} SameVals(x: Input, st: St, mdl: Model, n: nat)
    requires x.e == st.nodes && x.ebits == st.bits && x.eside == st.side && n <= |x.e|
    ensures ExtVals(x, mdl, n) == ExtVals(Q(st), mdl, n)
  {
    if n > 0 { SameVals(x, st, mdl, n - 1); }
  }

  /** Matching interpretation and model: the trees hold exactly when the roots
      are true. */
  lemma RootsMatch(x: Input, st: St, roots: seq<nat>, ts: seq<TBool>, I: Interp, mdl: Model)
    requires Flatten.FlatOf(st, roots, ts) && QueryOf(x, st, roots) && Matches(st, I, mdl)
    ensures forall k :: 0 <= k < |x.eroots| ==> x.eroots[k] < |x.e|
    ensures ExtRootsTrue(x, mdl) <==> Holds(ts, I)
  {
    hide StOk, Matches, UsesIn, AllCore, ExtVals;
    forall k | 0 <= k < |ts| ensures roots[k] < |st.nodes| && ExtVal(x, mdl, roots[k]) == [BoolVal(ts[k], I)] {
      assert MeansBool(st, roots[k], ts[k]);
      SameVals(x, st, mdl, roots[k] + 1);
    }
  }

  /** THE FLATTENING KEEPS SATISFIABILITY, under every interpretation of the
      names. */
  lemma FlattenedSat(x: Input, st: St, roots: seq<nat>, ts: seq<TBool>)
    requires Flatten.FlatOf(st, roots, ts) && QueryOf(x, st, roots)
    ensures forall k :: 0 <= k < |x.eroots| ==> x.eroots[k] < |x.e|
    ensures ExtSat(x) <==> TreeSat(ts)
  {
    hide StOk, Matches, UsesIn, AllCore, ExtRootsTrue, Holds, ModelOf, InterpOf;
    var any := Interp(imap[], imap[], imap[]);
    ModelOfMatches(st, any, []);
    RootsMatch(x, st, roots, ts, any, ModelOf(st, any, []));
    if TreeSat(ts) {
      var I: Interp :| Holds(ts, I);
      ModelOfMatches(st, I, []);
      RootsMatch(x, st, roots, ts, I, ModelOf(st, I, []));
    }
    if ExtSat(x) {
      var mdl: Model :| ModelOk(x.e, mdl) && ExtRootsTrue(x, mdl);
      InterpOfMatches(st, mdl);
      RootsMatch(x, st, roots, ts, InterpOf(st, mdl), mdl);
    }
  }

  // ---------- the term of closed trees ----------

  /** The node list of a closed state. */
  ghost predicate CoreOf(st: St, core: Dag)
  {
    |core| == |st.nodes| && forall i :: 0 <= i < |core| ==> st.nodes[i] == Core(core[i])
  }

  lemma {:induction false} CoreWidths(st: St, core: Dag, n: nat)
    requires CoreOf(st, core) && n <= |core|
    ensures ExtWidths(st.nodes, n) == Widths(core, n)
  {
    if n > 0 {
      CoreWidths(st, core, n - 1);
      assert st.nodes[n - 1] == Core(core[n - 1]);
    }
  }

  lemma {:induction false} CoreVals(st: St, core: Dag, mdl: Model, n: nat)
    requires CoreOf(st, core) && n <= |core|
    ensures ExtVals(Q(st), mdl, n) == DagVals(core, st.bits, mdl.env, n)
  {
    if n > 0 {
      CoreVals(st, core, mdl, n - 1);
      assert st.nodes[n - 1] == Core(core[n - 1]);
    }
  }

  /** The term is well-formed with boolean roots. */
  lemma CoreWf(st: St, roots: seq<nat>, ts: seq<TBool>, core: Dag)
    requires Flatten.FlatOf(st, roots, ts) && CoreOf(st, core)
    ensures QueryWf(core, |st.bits|, roots)
    ensures forall k :: 0 <= k < |roots| ==> roots[k] < |core|
  {
    hide Matches, UsesIn, AllCore, TableOk, MemosOk, Tidy;
    forall i | 0 <= i < |core| ensures WfAt(core, |st.bits|, i) {
      CoreWidths(st, core, i);
      assert ExtWfAt(st.nodes, |st.bits|, st.side, i);
    }
    CoreWidths(st, core, |core|);
    forall k | 0 <= k < |roots| ensures RootWf(Widths(core, |core|), roots[k]) { assert MeansBool(st, roots[k], ts[k]); }
  }

  lemma CoreRootsMatch(st: St, roots: seq<nat>, ts: seq<TBool>, core: Dag, I: Interp, mdl: Model)
    requires Flatten.FlatOf(st, roots, ts) && CoreOf(st, core) && Matches(st, I, mdl)
    requires forall k :: 0 <= k < |roots| ==> roots[k] < |core|
    ensures RootsTrue(core, st.bits, mdl.env, roots) <==> Holds(ts, I)
  {
    hide StOk, Matches, UsesIn, AllCore, ExtVals, DagVals;
    forall k | 0 <= k < |ts| ensures DagVal(core, st.bits, mdl.env, roots[k]) == [BoolVal(ts[k], I)] {
      assert MeansBool(st, roots[k], ts[k]);
      CoreVals(st, core, mdl, roots[k] + 1);
    }
  }

  lemma CoreEnvOk(st: St, core: Dag, mdl: Model)
    requires CoreOf(st, core)
    ensures ModelOk(st.nodes, mdl) <==> EnvOk(core, mdl.env)
  {
    if ModelOk(st.nodes, mdl) {
      forall i | 0 <= i < |core| && core[i].Var? ensures |mdl.env[i]| == core[i].w {
        assert st.nodes[i] == Core(core[i]);
      }
    }
  }

  /** THE TERM KEEPS SATISFIABILITY of closed trees. */
  lemma ProjectedSat(st: St, roots: seq<nat>, ts: seq<TBool>, core: Dag)
    requires Flatten.FlatOf(st, roots, ts) && CoreOf(st, core)
    ensures forall k :: 0 <= k < |roots| ==> roots[k] < |core|
    ensures DagSat(core, st.bits, roots) <==> TreeSat(ts)
  {
    hide StOk, Matches, UsesIn, AllCore, Holds, RootsTrue, ModelOf, InterpOf, CoreOf;
    CoreWf(st, roots, ts, core);
    if TreeSat(ts) {
      var I: Interp :| Holds(ts, I);
      ModelOfMatches(st, I, []);
      CoreRootsMatch(st, roots, ts, core, I, ModelOf(st, I, []));
      CoreEnvOk(st, core, ModelOf(st, I, []));
    }
    if DagSat(core, st.bits, roots) {
      var env: Env :| EnvOk(core, env) && RootsTrue(core, st.bits, env, roots);
      var mdl := Model(env, imap[], imap[]);
      CoreEnvOk(st, core, mdl);
      InterpOfMatches(st, mdl);
      CoreRootsMatch(st, roots, ts, core, InterpOf(st, mdl), mdl);
    }
  }
}
