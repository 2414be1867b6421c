/** Widths across an accepted sliver correspondence: a mapped node is as wide
    as its image, so a query that fits in the tables' numbers has call entries
    that do. */
module SliverWidths {
  import opened Wrappers
  import opened Bits
  import opened Dag
  import opened Sliver
  import opened SliverSound
  import opened ModelInputs
  import opened Pullback

  /** The values have the widths. */
  ghost predicate Fit(ws: seq<nat>, vs: seq<Bv>)
  {
    |vs| == |ws| && forall k :: 0 <= k < |ws| ==> |vs[k]| == ws[k]
  }

  lemma NodeValWidth(ws: seq<nat>, node: DagNode, bits: seq<bool>, vs: seq<Bv>, own: Bv)
    requires NodeWf(ws, |bits|, node) && Fit(ws, vs) && (node.Var? ==> |own| == node.w)
    ensures |NodeVal(node, bits, vs, own)| == NodeWidth(ws, node)
  {
  }

  lemma {:induction false} ChainWidth(ws: seq<nat>, eside: seq<nat>, vs: seq<Bv>, v: Bv, off: nat, k: nat, base: Bv)
    requires ChainWf(ws, eside, off, k) && Fit(ws, vs) && |base| == 8
    ensures |ReadChain(eside, vs, v, off, k, base)| == 8
    decreases k
  {
    if k > 0 {
      assert LevelWf(ws, eside, off + 2 * 0);
      forall l | 0 <= l < k - 1 ensures LevelWf(ws, eside, off + 2 + 2 * l) {
        assert LevelWf(ws, eside, off + 2 * (l + 1));
      }
      ChainWidth(ws, eside, vs, v, off + 2, k - 1, base);
    }
  }

  /** Every extended node's value has its width. */
  lemma {:induction false} ExtValWidths(x: Input, mdl: Model, n: nat)
    requires ExtWf(x.e, |x.ebits|, x.eside) && ModelOk(x.e, mdl) && n <= |x.e|
    ensures Fit(ExtWidths(x.e, n), ExtVals(x, mdl, n))
  {
    hide NodeVal, NodeWidth, NodeWf, ReadChain, ArgVals;
    if n > 0 {
      ExtValWidths(x, mdl, n - 1);
      var ws, vs := ExtWidths(x.e, n - 1), ExtVals(x, mdl, n - 1);
      assert ExtWfAt(x.e, |x.ebits|, x.eside, n - 1);
      match x.e[n - 1] {
        case Core(nd) => NodeValWidth(ws, nd, x.ebits, vs, At(mdl.env, n - 1));
        case Select(aid, j, s, k) => ChainWidth(ws, x.eside, vs, At(vs, j), s, k, ArrayAt(mdl, aid, At(vs, j)));
        case Call(_, _, _, _) =>
      }
    }
  }

  ghost function AnyModel(x: Input): (mdl: Model)
    ensures ModelOk(x.e, mdl)
  {
    Model(seq(|x.e|, i requires 0 <= i < |x.e| =>
      if x.e[i].Core? && x.e[i].nd.Var? then Fill(false, x.e[i].nd.w) else []), imap[], imap[])
  }

  /** A MAPPED NODE IS AS WIDE AS ITS IMAGE. */
  lemma MappedWidth(x: Input, i: nat)
    requires Accepted(x) && |x.t| <= USIZE_MAX && i < |x.e| == |x.m| && Mapped(x, i)
    ensures Widths(x.t, |x.t|)[x.m[i]] == ExtWidths(x.e, |x.e|)[i]
  {
    hide ReadsOk, CallsOk, Congruent, ExtRootsCorr, StepOk, ExtVals, DagVal, Pushed, ExtWf, DagWf;
    var mdl := AnyModel(x);
    var env := Pushed(x, mdl);
    PushedEqual(x, mdl, |x.e|);
    assert Equal(x, mdl, env, i);
    ExtValWidths(x, mdl, |x.e|);
    ExtValAt(x, mdl, i, |x.e|);
    ValWidth(x.t, x.tbits, env, x.m[i]);
  }

  /** No query node is wider than the numbers the tables hold. */
  predicate NarrowQuery(x: Input) { forall i :: 0 <= i < |x.e| ==> ExtWidths(x.e, |x.e|)[i] <= MODEL_BITS }

  /** A narrow query has narrow call entries: every entry is reached by a call
      of the query, and its arguments are images of that call's. */
  lemma NarrowFromQuery(x: Input)
    requires Accepted(x) && |x.t| <= USIZE_MAX && NarrowQuery(x)
    ensures NarrowCalls(x)
  {
    hide Accepted, Widths, ExtWidths;
    forall p: nat | p < Calls(x) ensures NarrowEntry(x, p) {
      var i := EntryCall(x, p);
      MappedWidth(x, i);
      forall l: nat | l < CArity(x, p) ensures Widths(x.t, |x.t|)[CArgs(x, p)[l]] <= MODEL_BITS {
        EntryArgument(x, p, i, l);
        MappedWidth(x, x.eside[x.e[i].s + l]);
      }
    }
  }

  /** The query's call that an entry is registered for. */
  lemma EntryCall(x: Input, p: nat) returns (i: nat)
    requires Accepted(x) && |x.t| <= USIZE_MAX && p < Calls(x)
    ensures i < |x.e| == |x.m| && x.e[i].Call? && Mapped(x, i) && CallFor(x, p, i)
  {
    hide ExtWf, DagWf, ReadsOk, Congruent, ExtRootsCorr, CArgs;
    var d := CVar(x, p);
    assert CallEntryOk(x, p);
    assert Live(x, d);
    i :| i < |x.e| && Reaches(x, i, d);
    ReachClass(x, i, d);
    assert IsCall(x, d);
    assert StepOk(x, i);
    var q :| 0 <= q < Calls(x) && CallFor(x, q, i);
    assert CallEntryOk(x, q);
  }

  lemma EntryArgument(x: Input, p: nat, i: nat, l: nat)
    requires Accepted(x) && |x.t| <= USIZE_MAX && p < Calls(x)
    requires i < |x.e| == |x.m| && x.e[i].Call? && CallFor(x, p, i) && l < CArity(x, p)
    ensures x.e[i].s + l < |x.eside| && x.eside[x.e[i].s + l] < |x.e|
    ensures Mapped(x, x.eside[x.e[i].s + l]) && x.m[x.eside[x.e[i].s + l]] == CArgs(x, p)[l]
  {
    hide DagWf, ReadsOk, CallsOk, Congruent, ExtRootsCorr, StepOk, ExtWidths;
    assert ExtWfAt(x.e, |x.ebits|, x.eside, i);
    assert ArgWf(ExtWidths(x.e, i), x.eside, x.e[i].s + l);
    assert CArgs(x, p)[l] == ArgImages(x, x.e[i].s, x.e[i].n)[l] == ArgImage(x, x.e[i].s + l);
  }
}
