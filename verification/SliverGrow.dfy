/** The elimination of an extended query keeps every step of the sliver check:
    nodes, table entries and clauses are only ever added. */
module SliverGrow {
  import opened BvOps
  import opened Dag
  import opened Sliver
  import opened SliverElim
  import FlatState
  import T = TermCheck

  // ---------- growing a core ----------

  /** Image nodes of the operands' widths: the mapped node is well-formed, and
      as wide. */
  lemma MappedWf(ews: seq<nat>, ws: seq<nat>, m: seq<nat>, nbits: nat, nd: DagNode)
    requires NodeWf(ews, nbits, nd) && |m| == |ews|
    requires forall k :: 0 <= k < |m| ==> m[k] < |ws| && ws[m[k]] == ews[k]
    ensures NodeWf(ws, nbits, T.MapNode(m, nd)) && NodeWidth(ws, T.MapNode(m, nd)) == NodeWidth(ews, nd)
  {
  }

  // ---------- the states of the elimination ----------

  /** y has at least x's nodes, map entries and table entries; its other table
      variables are later nodes. */
  predicate Grows(x: Input, y: Input)
  {
    && x.e <= y.e && x.ebits == y.ebits && x.eside == y.eside && x.tbits == y.tbits
    && x.m <= y.m && x.t <= y.t && x.rtab <= y.rtab && x.ctab <= y.ctab && x.cargs <= y.cargs
    && |x.rtab| % 3 == |y.rtab| % 3 == 0 && |x.ctab| % 4 == |y.ctab| % 4 == 0
    && (forall p :: Reads(x) <= p < Reads(y) ==> |x.t| <= RVar(y, p))
    && (forall p :: Calls(x) <= p < Calls(y) ==> |x.t| <= CVar(y, p))
  }

  lemma GrowsFurther(x: Input, y: Input, z: Input)
    requires Grows(x, y) && Grows(y, z)
    ensures Grows(x, z)
  {
    forall p | Reads(x) <= p < Reads(z) ensures |x.t| <= RVar(z, p) {
      if p < Reads(y) { ReadKept(y, z, p); }
    }
    forall p | Calls(x) <= p < Calls(z) ensures |x.t| <= CVar(z, p) {
      if p < Calls(y) { CallKept(y, z, p); }
    }
  }

  lemma ReadKept(x: Input, y: Input, p: nat)
    requires Grows(x, y) && p < Reads(x)
    ensures p < Reads(y) && RVar(y, p) == RVar(x, p) && RArray(y, p) == RArray(x, p) && RIndex(y, p) == RIndex(x, p)
  {
  }

  lemma CallKept(x: Input, y: Input, p: nat)
    requires Grows(x, y) && p < Calls(x)
    ensures p < Calls(y) && CVar(y, p) == CVar(x, p) && CFunc(y, p) == CFunc(x, p)
    ensures CFirst(y, p) == CFirst(x, p) && CArity(y, p) == CArity(x, p)
    ensures ArgsInRange(x, p) ==> ArgsInRange(y, p) && CArgs(y, p) == CArgs(x, p)
  {
  }

  /** Extended node k's image is as wide as the node. */
  predicate ImageFits(x: Input, k: nat)
    requires k < |x.e| == |x.m|
  {
    x.m[k] < |x.t| && Widths(x.t, |x.t|)[x.m[k]] == ExtWidths(x.e, |x.e|)[k]
  }

  /** Both lists are well-formed, the map is total and keeps widths, and the
      tables are in order. */
  predicate Ready(x: Input)
  {
    && |x.m| == |x.e| && x.tbits == x.ebits && ExtWf(x.e, |x.ebits|, x.eside) && DagWf(x.t, |x.tbits|)
    && (forall k :: 0 <= k < |x.e| ==> ImageFits(x, k))
    && ReadsOk(x) && CallsOk(x)
  }

  /** Select i reads read entry p's variable. */
  predicate ReadOwner(x: Input, p: nat, i: nat)
    requires p < Reads(x) && |x.e| == |x.m|
  {
    i < |x.e| && x.e[i].Select? && EndOf(x, i) == Base(RVar(x, p))
  }

  predicate CallOwner(x: Input, p: nat, i: nat)
    requires p < Calls(x) && |x.e| == |x.m|
  {
    i < |x.e| && x.e[i].Call? && CallFor(x, p, i) && CVar(x, p) < |x.t| && x.t[CVar(x, p)] == Var(x.e[i].w)
  }

  predicate ReadOwned(x: Input, p: nat)
    requires p < Reads(x) && |x.e| == |x.m|
  {
    exists i :: 0 <= i < |x.e| && ReadOwner(x, p, i)
  }

  predicate CallOwned(x: Input, p: nat)
    requires p < Calls(x) && |x.e| == |x.m|
  {
    exists i :: 0 <= i < |x.e| && CallOwner(x, p, i)
  }

  /** Every node corresponds and every table entry is reached. */
  predicate Settled(x: Input)
    requires |x.m| == |x.e|
  {
    && (forall i :: 0 <= i < |x.e| ==> StepOk(x, i))
    && (forall p :: 0 <= p < Reads(x) ==> ReadOwned(x, p)) && (forall p :: 0 <= p < Calls(x) ==> CallOwned(x, p))
  }

  // ---------- what growing keeps ----------

  lemma ReadEntryKept(x: Input, y: Input, p: nat)
    requires Grows(x, y) && p < Reads(x) && ReadsOk(x)
    ensures p < Reads(y) && ReadEntryOk(y, p)
  {
    hide Widths;
    assert ReadEntryOk(x, p);
    ReadKept(x, y, p);
    WidthStays(x.t, y.t, RIndex(x, p));
    forall q | 0 <= q < p
      ensures RVar(y, q) != RVar(y, p) && !(RArray(y, q) == RArray(y, p) && RIndex(y, q) == RIndex(y, p))
    {
      ReadKept(x, y, q);
    }
  }

  lemma NotRead(x: Input, y: Input, d: nat)
    requires Grows(x, y) && d < |x.t| && !IsRead(x, d)
    ensures !IsRead(y, d)
  {
    forall p | 0 <= p < Reads(y) ensures RVar(y, p) != d {
      if p < Reads(x) { ReadKept(x, y, p); }
    }
  }

  lemma NotCall(x: Input, y: Input, d: nat)
    requires Grows(x, y) && d < |x.t| && !IsCall(x, d)
    ensures !IsCall(y, d)
  {
    forall p | 0 <= p < Calls(y) ensures CVar(y, p) != d {
      if p < Calls(x) { CallKept(x, y, p); }
    }
  }

  lemma CallEntryKept(x: Input, y: Input, p: nat)
    requires Grows(x, y) && p < Calls(x) && CallsOk(x)
    ensures p < Calls(y) && CallEntryOk(y, p)
  {
    assert CallEntryOk(x, p);
    CallKept(x, y, p);
    NotRead(x, y, CVar(x, p));
    forall q | 0 <= q < p ensures CVar(y, q) != CVar(y, p) && (ArgsInRange(y, q) ==> !SameCall(y, q, p)) {
      assert CallEntryOk(x, q);
      CallKept(x, y, q);
    }
  }

  lemma {:induction false} WalkKept(x: Input, y: Input, j: nat, off: nat, k: nat, cur: nat)
    requires Grows(x, y) && |x.m| == |x.e| && j < |x.e| && ChainWf(ExtWidths(x.e, |x.e|), x.eside, off, k)
    requires Walk(x, j, off, k, cur) != Broken
    ensures Walk(y, j, off, k, cur) == Walk(x, j, off, k, cur)
    decreases k
  {
    hide ExtWidths;
    if k > 0 {
      assert LevelWf(ExtWidths(x.e, |x.e|), x.eside, off + 2 * 0);
      assert SideAt(x.eside, off) < |x.e| && SideAt(x.eside, off + 1) < |x.e|;
      forall l | 0 <= l < k - 1 ensures LevelWf(ExtWidths(x.e, |x.e|), x.eside, off + 2 + 2 * l) {
        assert LevelWf(ExtWidths(x.e, |x.e|), x.eside, off + 2 * (l + 1));
      }
      var xc, jc := ExtConst(x.e, SideAt(x.eside, off)), ExtConst(x.e, j);
      if xc.Some? && jc.Some? {
        if !SameConst(x, xc.value, jc.value) { WalkKept(x, y, j, off + 2, k - 1, cur); }
      } else {
        WalkKept(x, y, j, off + 2, k - 1, x.t[cur].e);
      }
    }
  }

  /** The stores of a select name nodes of the whole list. */
  lemma ChainWhole(e: seq<ExtNode>, side: seq<nat>, i: nat, off: nat, n: nat)
    requires i <= |e| && ChainWf(ExtWidths(e, i), side, off, n)
    ensures ChainWf(ExtWidths(e, |e|), side, off, n)
  {
    hide ExtWidths;
    FlatState.ExtWidthsPrefix(e, i, |e|);
    var ws := ExtWidths(e, |e|);
    assert ws[..i] == ExtWidths(e, i);
    forall l | 0 <= l < n ensures LevelWf(ws, side, off + 2 * l) {
      assert LevelWf(ExtWidths(e, i), side, off + 2 * l);
    }
  }

  lemma EndKept(x: Input, y: Input, i: nat)
    requires Grows(x, y) && |x.m| == |x.e| && |y.m| == |y.e| && ExtWf(x.e, |x.ebits|, x.eside)
    requires i < |x.e| && x.e[i].Select? && EndOf(x, i) != Broken
    ensures EndOf(y, i) == EndOf(x, i)
  {
    hide Walk, ExtWidths;
    assert ExtWfAt(x.e, |x.ebits|, x.eside, i);
    ChainWhole(x.e, x.eside, i, x.e[i].s, x.e[i].n);
    WalkKept(x, y, x.e[i].idx, x.e[i].s, x.e[i].n, x.m[i]);
  }

  predicate ArgThere(x: Input, off: nat) { SideAt(x.eside, off) < |x.m| }

  lemma ArgImagesKept(x: Input, y: Input, s: nat, n: nat)
    requires Grows(x, y) && forall off :: s <= off < s + n ==> ArgThere(x, off)
    ensures ArgImages(y, s, n) == ArgImages(x, s, n)
  {
    forall l | 0 <= l < n ensures ArgImages(y, s, n)[l] == ArgImages(x, s, n)[l] { assert ArgThere(x, s + l); }
  }

  lemma ArgsKept(x: Input, y: Input, i: nat)
    requires Grows(x, y) && |x.m| == |x.e| && ExtWf(x.e, |x.ebits|, x.eside) && i < |x.e| && x.e[i].Call?
    ensures ArgImages(y, x.e[i].s, x.e[i].n) == ArgImages(x, x.e[i].s, x.e[i].n)
  {
    hide ExtWidths;
    var s, n := x.e[i].s, x.e[i].n;
    assert ExtWfAt(x.e, |x.ebits|, x.eside, i);
    forall off | s <= off < s + n ensures ArgThere(x, off) { assert ArgWf(ExtWidths(x.e, i), x.eside, off); }
    ArgImagesKept(x, y, s, n);
  }

  lemma CallForKept(x: Input, y: Input, p: nat, i: nat)
    requires Grows(x, y) && |x.m| == |x.e| && |y.m| == |y.e| && ExtWf(x.e, |x.ebits|, x.eside)
    requires i < |x.e| && x.e[i].Call? && p < Calls(x) && CallFor(x, p, i)
    ensures p < Calls(y) && CallFor(y, p, i) && CVar(y, p) == CVar(x, p)
  {
    hide ExtWf, ArgsInRange, ArgImages, CArgs;
    CallKept(x, y, p);
    ArgsKept(x, y, i);
  }

  /** Operands before the node keep their images. */
  lemma MapNodeKept(ws: seq<nat>, nbits: nat, m: seq<nat>, m': seq<nat>, nd: DagNode)
    requires NodeWf(ws, nbits, nd) && |ws| <= |m| && m <= m'
    ensures T.MapNode(m', nd) == T.MapNode(m, nd)
  {
  }

  lemma CoreKept(x: Input, y: Input, i: nat)
    requires Grows(x, y) && Ready(x) && |y.m| == |y.e| && i < |x.e| && x.e[i].Core? && Mapped(x, i) && CoreOk(x, i)
    ensures Mapped(y, i) && CoreOk(y, i)
  {
    hide ReadsOk, CallsOk, NodeWf, ExtWidths, Widths, IsRead, IsCall;
    assert ImageFits(x, i) && ExtWfAt(x.e, |x.ebits|, x.eside, i);
    var nd := x.e[i].nd;
    if nd.Var? {
      NotRead(x, y, x.m[i]);
      NotCall(x, y, x.m[i]);
      forall k | 0 <= k < i ensures !VarImage(y, k, x.m[i]) { assert !VarImage(x, k, x.m[i]); }
    } else {
      MapNodeKept(ExtWidths(x.e, i), |x.ebits|, x.m, y.m, nd);
    }
  }

  /** Growing keeps every step. */
  lemma StepKept(x: Input, y: Input, i: nat)
    requires Grows(x, y) && Ready(x) && |y.m| == |y.e| && i < |x.e| && StepOk(x, i)
    ensures StepOk(y, i)
  {
    hide ReadsOk, CallsOk, ExtWf, DagWf, Walk, Widths, ExtWidths, CoreOk, EndOf, CallFor;
    assert ImageFits(x, i);
    if x.m[i] != NONE {
      match x.e[i] {
        case Core(_) => CoreKept(x, y, i);
        case Select(aid, j, _, _) =>
          EndKept(x, y, i);
          if EndOf(x, i).Base? {
            var p :| 0 <= p < Reads(x) && ReadFor(x, p, EndOf(x, i).cur, aid, T.MapAt(x.m, j));
            IndexBefore(x, i);
            ReadKept(x, y, p);
            assert ReadFor(y, p, EndOf(y, i).cur, aid, T.MapAt(y.m, j));
          }
        case Call(_, _, _, _) =>
          var p :| 0 <= p < Calls(x) && CallFor(x, p, i);
          CallForKept(x, y, p, i);
      }
    }
  }

  lemma IndexBefore(x: Input, i: nat)
    requires ExtWf(x.e, |x.ebits|, x.eside) && i < |x.e| && x.e[i].Select?
    ensures x.e[i].idx < i
  {
    assert ExtWfAt(x.e, |x.ebits|, x.eside, i);
  }

  lemma ReadOwnerKept(x: Input, y: Input, p: nat, i: nat)
    requires Grows(x, y) && |x.m| == |x.e| && |y.m| == |y.e| && ExtWf(x.e, |x.ebits|, x.eside)
    requires p < Reads(x) && ReadOwner(x, p, i)
    ensures p < Reads(y) && ReadOwner(y, p, i)
  {
    hide EndOf, ExtWf;
    ReadKept(x, y, p);
    EndKept(x, y, i);
  }

  // ---------- one node ----------

  /** More core nodes and entries under the same extended nodes. */
  lemma ReadyKept(x: Input, y: Input)
    requires Grows(x, y) && Ready(x) && y.e == x.e && y.m == x.m && DagWf(y.t, |y.tbits|)
    requires forall p :: Reads(x) <= p < Reads(y) ==> ReadEntryOk(y, p)
    requires forall p :: Calls(x) <= p < Calls(y) ==> CallEntryOk(y, p)
    ensures Ready(y)
  {
    hide ExtWf, DagWf, Widths, ExtWidths, ReadEntryOk, CallEntryOk;
    forall k | 0 <= k < |y.e| ensures ImageFits(y, k) {
      assert ImageFits(x, k);
      WidthStays(x.t, y.t, x.m[k]);
    }
    forall p | 0 <= p < Reads(y) ensures ReadEntryOk(y, p) {
      if p < Reads(x) { ReadEntryKept(x, y, p); }
    }
    forall p | 0 <= p < Calls(y) ensures CallEntryOk(y, p) {
      if p < Calls(x) { CallEntryKept(x, y, p); }
    }
  }

  /** The next core node. */
  lemma PushReady(x: Input, nd: DagNode)
    requires Ready(x) && NodeWf(Widths(x.t, |x.t|), |x.tbits|, nd)
    ensures var y := x.(t := x.t + [nd]);
            Grows(x, y) && Ready(y) && Widths(y.t, |y.t|) == Widths(x.t, |x.t|) + [NodeWidth(Widths(x.t, |x.t|), nd)]
  {
    hide ExtWf, DagWf, NodeWf, NodeWidth, ReadEntryOk, CallEntryOk, ImageFits;
    PushWf(x.t, |x.tbits|, nd);
    ReadyKept(x, x.(t := x.t + [nd]));
  }

  /** Another state of the same extended nodes and calls, with node d in it. */
  predicate Reached(x: Input, y: Input, d: nat)
  {
    Grows(x, y) && Ready(y) && y.e == x.e && y.m == x.m && d < |y.t|
  }

  lemma NewRead(x: Input, aid: nat, xj: nat)
    requires Ready(x) && xj < |x.t| && Widths(x.t, |x.t|)[xj] == 32
    requires forall q :: 0 <= q < Reads(x) ==> !(RArray(x, q) == aid && RIndex(x, q) == xj)
    ensures var y := x.(t := x.t + [Var(8)], rtab := x.rtab + [|x.t|, aid, xj]);
            Reached(x, y, |x.t|) && Widths(y.t, |y.t|)[|x.t|] == 8 && Reads(y) == Reads(x) + 1
    ensures var y := x.(t := x.t + [Var(8)], rtab := x.rtab + [|x.t|, aid, xj]); ReadFor(y, Reads(x), |x.t|, aid, xj)
  {
    hide ExtWf, DagWf, ImageFits, Widths, NodeWf;
    var y := x.(t := x.t + [Var(8)], rtab := x.rtab + [|x.t|, aid, xj]);
    assert NodeWf(Widths(x.t, |x.t|), |x.tbits|, Var(8)) by { VarWf(Widths(x.t, |x.t|), |x.tbits|, 8); }
    PushWf(x.t, |x.tbits|, Var(8));
    var n := Reads(x);
    assert Grows(x, y);
    assert ReadEntryOk(y, n) by {
      forall q | 0 <= q < n ensures RVar(y, q) != RVar(y, n) && !(RArray(y, q) == RArray(y, n) && RIndex(y, q) == RIndex(y, n)) {
        assert ReadEntryOk(x, q);
        ReadKept(x, y, q);
      }
    }
    ReadyKept(x, y);
  }

  lemma VarWf(ws: seq<nat>, nbits: nat, w: nat)
    requires w > 0
    ensures NodeWf(ws, nbits, Var(w))
  {
  }

  /** The variable of a read is registered; a new entry is its own. */
  lemma ReadVarReady(x: Input, aid: nat, xj: nat)
    requires Ready(x) && xj < |x.t| && Widths(x.t, |x.t|)[xj] == 32
    ensures var (y, d) := ReadVar(x, aid, xj);
            Reached(x, y, d) && Widths(y.t, |y.t|)[d] == 8 && y.ctab == x.ctab &&
            (exists p :: 0 <= p < Reads(y) && ReadFor(y, p, d, aid, xj)) &&
            (forall p :: Reads(x) <= p < Reads(y) ==> RVar(y, p) == d)
  {
    hide ExtWf, DagWf, ImageFits, Widths, CallEntryOk;
    var p := FindRead(x, aid, xj, 0);
    if p < Reads(x) {
      assert ReadEntryOk(x, p);
      assert ReadFor(x, p, RVar(x, p), aid, xj);
      WidthOf(x.t, RVar(x, p));
      assert Grows(x, x);
    } else {
      NewRead(x, aid, xj);
    }
  }

  lemma ConstAgree(x: Input, k: nat)
    requires ExtWf(x.e, |x.ebits|, x.eside) && k < |x.e|
    ensures ConstBits(x, k).Some? <==> ExtConst(x.e, k).Some?
    ensures ConstBits(x, k).Some? ==>
              var (s, w) := ExtConst(x.e, k).value; s + w <= |x.ebits| && ConstBits(x, k).value == x.ebits[s..s + w]
  {
    assert ExtWfAt(x.e, |x.ebits|, x.eside, k);
  }

  lemma SameConstBits(x: Input, a: nat, b: nat)
    requires ExtWf(x.e, |x.ebits|, x.eside) && a < |x.e| && b < |x.e| && ConstBits(x, a).Some? && ConstBits(x, b).Some?
    ensures ExtConst(x.e, a).Some? && ExtConst(x.e, b).Some?
    ensures SameConst(x, ExtConst(x.e, a).value, ExtConst(x.e, b).value) <==> ConstBits(x, a) == ConstBits(x, b)
  {
    hide ExtWf, ConstBits, ExtConst;
    ConstAgree(x, a);
    ConstAgree(x, b);
    var (s, w) := ExtConst(x.e, a).value;
    var (s', w') := ExtConst(x.e, b).value;
    assert |x.ebits[s..s + w]| == w && |x.ebits[s'..s' + w']| == w';
  }

  /** The walk from cur ends well: resolved, or at a registered variable. */
  predicate EndsWell(x: Input, aid: nat, j: nat, end: WalkEnd)
  {
    match end
    case Broken => false
    case Resolved => true
    case Base(d) => exists p :: 0 <= p < Reads(x) && ReadFor(x, p, d, aid, T.MapAt(x.m, j))
  }

  /** What reading through k stores leaves behind. */
  predicate ReadDone(x: Input, y: Input, aid: nat, j: nat, off: nat, k: nat, cur: nat)
  {
    && Reached(x, y, cur) && Widths(y.t, |y.t|)[cur] == 8 && y.ctab == x.ctab
    && EndsWell(y, aid, j, Walk(y, j, off, k, cur))
    && forall p :: Reads(x) <= p < Reads(y) ==> Walk(y, j, off, k, cur) == Base(RVar(y, p))
  }

  /** The store at off of k has an index and a value in the list. */
  lemma TopLevel(x: Input, off: nat, k: nat)
    requires Ready(x) && k > 0 && ChainWf(ExtWidths(x.e, |x.e|), x.eside, off, k)
    ensures SideAt(x.eside, off) < |x.e| && SideAt(x.eside, off + 1) < |x.e|
    ensures ImageFits(x, SideAt(x.eside, off)) && ExtWidths(x.e, |x.e|)[SideAt(x.eside, off)] == 32
    ensures ImageFits(x, SideAt(x.eside, off + 1)) && ExtWidths(x.e, |x.e|)[SideAt(x.eside, off + 1)] == 8
    ensures ChainWf(ExtWidths(x.e, |x.e|), x.eside, off + 2, k - 1)
  {
    hide ExtWidths, Widths, ExtWf, DagWf, ReadsOk, CallsOk;
    assert LevelWf(ExtWidths(x.e, |x.e|), x.eside, off + 2 * 0);
    forall l | 0 <= l < k - 1 ensures LevelWf(ExtWidths(x.e, |x.e|), x.eside, off + 2 + 2 * l) {
      assert LevelWf(ExtWidths(x.e, |x.e|), x.eside, off + 2 * (l + 1));
    }
  }

  lemma EndsKept(x: Input, y: Input, aid: nat, j: nat, end: WalkEnd)
    requires Grows(x, y) && x.m == y.m && EndsWell(x, aid, j, end)
    ensures EndsWell(y, aid, j, end)
  {
    if end.Base? {
      var p :| 0 <= p < Reads(x) && ReadFor(x, p, end.cur, aid, T.MapAt(x.m, j));
      ReadKept(x, y, p);
      assert ReadFor(y, p, end.cur, aid, T.MapAt(y.m, j));
    }
  }

  /** One conditional on top of a finished read. */
  lemma IteDone(x: Input, y: Input, aid: nat, j: nat, off: nat, k: nat, rest: nat)
    requires Ready(x) && j < |x.e| && ExtWidths(x.e, |x.e|)[j] == 32 && k > 0
    requires ChainWf(ExtWidths(x.e, |x.e|), x.eside, off, k) && ReadDone(x, y, aid, j, off + 2, k - 1, rest)
    requires !(ExtConst(x.e, SideAt(x.eside, off)).Some? && ExtConst(x.e, j).Some?)
    ensures var c := |y.t|;
            var z := y.(t := y.t + [Cmp(Eq, T.MapAt(x.m, SideAt(x.eside, off)), T.MapAt(x.m, j)),
                                    Ite(c, T.MapAt(x.m, SideAt(x.eside, off + 1)), rest)]);
            ReadDone(x, z, aid, j, off, k, c + 1)
  {
    hide ExtWidths, Widths, ExtWf, DagWf, ReadsOk, CallsOk, ChainWf, ExtConst;
    TopLevel(x, off, k);
    var i, v, c := SideAt(x.eside, off), SideAt(x.eside, off + 1), |y.t|;
    assert ImageFits(y, i) && ImageFits(y, v) && ImageFits(y, j);
    var eq := y.(t := y.t + [Cmp(Eq, x.m[i], x.m[j])]);
    PushReady(y, Cmp(Eq, x.m[i], x.m[j]));
    var z := eq.(t := eq.t + [Ite(c, x.m[v], rest)]);
    PushReady(eq, Ite(c, x.m[v], rest));
    assert z.t == y.t + [Cmp(Eq, x.m[i], x.m[j]), Ite(c, x.m[v], rest)];
    GrowsFurther(y, eq, z);
    GrowsFurther(x, y, z);
    WalkKept(y, z, j, off + 2, k - 1, rest);
    assert IteLevel(z, j, off, c + 1);
    EndsKept(y, z, aid, j, Walk(y, j, off + 2, k - 1, rest));
    assert ExtConst(z.e, i) == ExtConst(x.e, i) && ExtConst(z.e, j) == ExtConst(x.e, j);
    assert Walk(z, j, off, k, c + 1) == Walk(z, j, off + 2, k - 1, rest);
    assert Widths(z.t, |z.t|)[c + 1] == 8;
    assert Reached(x, z, c + 1);
    forall p | Reads(x) <= p < Reads(z) ensures Walk(z, j, off, k, c + 1) == Base(RVar(z, p)) { ReadKept(y, z, p); }
  }

  lemma {:induction false} ReadThroughDone(x: Input, aid: nat, j: nat, off: nat, k: nat)
    requires Ready(x) && j < |x.e| && ExtWidths(x.e, |x.e|)[j] == 32 && ChainWf(ExtWidths(x.e, |x.e|), x.eside, off, k)
    ensures var (y, cur) := ReadThrough(x, aid, j, off, k); ReadDone(x, y, aid, j, off, k, cur)
    decreases k
  {
    hide ExtWidths, Widths, ExtWf, DagWf, ReadEntryOk, CallEntryOk, ReadVar, ChainWf, ConstBits, ExtConst, T.BitsEq;
    assert ImageFits(x, j);
    if k == 0 {
      ReadVarReady(x, aid, x.m[j]);
    } else {
      TopLevel(x, off, k);
      var i, v := SideAt(x.eside, off), SideAt(x.eside, off + 1);
      ConstAgree(x, i);
      ConstAgree(x, j);
      if ConstBits(x, i).Some? && ConstBits(x, j).Some? {
        SameConstBits(x, i, j);
        if ConstBits(x, i) != ConstBits(x, j) {
          ReadThroughDone(x, aid, j, off + 2, k - 1);
        }
      } else {
        ReadThroughDone(x, aid, j, off + 2, k - 1);
        var (y, rest) := ReadThrough(x, aid, j, off + 2, k - 1);
        IteDone(x, y, aid, j, off, k, rest);
      }
    }
  }

  /** What a call leaves behind. */
  predicate CallDone(x: Input, y: Input, fid: nat, w: nat, args: seq<nat>, d: nat)
  {
    && Reached(x, y, d) && y.t[d] == Var(w) && y.rtab == x.rtab
    && (exists p :: 0 <= p < Calls(y) && CVar(y, p) == d && CallIs(y, p, fid, args))
    && (forall p :: Calls(x) <= p < Calls(y) ==> CVar(y, p) == d && CallIs(y, p, fid, args))
  }

  /** A state with one call entry more, on a fresh variable. */
  function WithEntry(x: Input, fid: nat, w: nat, args: seq<nat>): Input
  {
    x.(t := x.t + [Var(w)], ctab := x.ctab + [|x.t|, fid, |x.cargs|, |args|], cargs := x.cargs + args)
  }

  lemma EntryIs(x: Input, fid: nat, w: nat, args: seq<nat>)
    requires |x.rtab| % 3 == 0 && |x.ctab| % 4 == 0 && (forall l :: 0 <= l < |args| ==> args[l] < |x.t|)
    ensures var y, n := WithEntry(x, fid, w, args), Calls(x);
            Grows(x, y) && Calls(y) == n + 1 && CVar(y, n) == |x.t| && CallIs(y, n, fid, args)
  {
    var y, n := WithEntry(x, fid, w, args), Calls(x);
    assert CFirst(y, n) == |x.cargs| && CArity(y, n) == |args|;
    forall l | CFirst(y, n) <= l < CFirst(y, n) + CArity(y, n) ensures y.cargs[l] < |y.t| {
      assert y.cargs[l] == args[l - |x.cargs|];
    }
    assert CArgs(y, n) == args;
  }

  lemma NewCall(x: Input, fid: nat, w: nat, args: seq<nat>)
    requires Ready(x) && w > 0 && (forall l :: 0 <= l < |args| ==> args[l] < |x.t|)
    requires forall q :: 0 <= q < Calls(x) ==> !CallIs(x, q, fid, args)
    ensures CallDone(x, WithEntry(x, fid, w, args), fid, w, args, |x.t|)
  {
    hide ExtWf, DagWf, ImageFits, Widths, NodeWf, ReadEntryOk, ArgsInRange, CArgs;
    var y, n := WithEntry(x, fid, w, args), Calls(x);
    VarWf(Widths(x.t, |x.t|), |x.tbits|, w);
    PushWf(x.t, |x.tbits|, Var(w));
    EntryIs(x, fid, w, args);
    assert CallEntryOk(y, n) by {
      forall p | 0 <= p < Reads(y) ensures RVar(y, p) != |x.t| { ReadBelow(x, p); }
      forall q | 0 <= q < n ensures CVar(y, q) != CVar(y, n) && (ArgsInRange(y, q) ==> !SameCall(y, q, n)) {
        CallKept(x, y, q);
        assert CallEntryOk(x, q) && !CallIs(x, q, fid, args);
      }
    }
    ReadyKept(x, y);
  }

  /** Table variables are nodes. */
  lemma ReadBelow(x: Input, p: nat)
    requires ReadsOk(x) && p < Reads(x)
    ensures RVar(x, p) < |x.t|
  {
    assert ReadEntryOk(x, p);
  }

  lemma CallVarDone(x: Input, fid: nat, w: nat, args: seq<nat>)
    requires Ready(x) && w > 0 && (forall l :: 0 <= l < |args| ==> args[l] < |x.t|)
    requires forall p :: 0 <= p < Calls(x) && CFunc(x, p) == fid && CArity(x, p) == |args| ==>
               CVar(x, p) < |x.t| && x.t[CVar(x, p)] == Var(w)
    ensures var (y, d) := CallVar(x, fid, w, args); CallDone(x, y, fid, w, args, d)
  {
    hide ExtWf, DagWf, ImageFits, Widths, ReadEntryOk, CallEntryOk;
    var p := FindCall(x, fid, args, 0);
    if p < Calls(x) {
      assert CArity(x, p) == |args|;
      assert Grows(x, x);
    } else { NewCall(x, fid, w, args); }
  }

  // ---------- one extended node ----------

  /** Calls of the node's function and arity before it are as wide. */
  predicate WidthFits(x: Input, node: ExtNode)
  {
    node.Call? ==> forall i :: 0 <= i < |x.e| && x.e[i].Call? && x.e[i].fid == node.fid && x.e[i].n == node.n ==>
                     x.e[i].w == node.w
  }

  lemma ExtPush(e: seq<ExtNode>, nbits: nat, side: seq<nat>, node: ExtNode)
    requires ExtWf(e, nbits, side) && ExtNodeWf(ExtWidths(e, |e|), nbits, side, node)
    ensures ExtWf(e + [node], nbits, side)
    ensures ExtWidths(e + [node], |e| + 1) == ExtWidths(e, |e|) + [ExtNodeWidth(ExtWidths(e, |e|), node)]
  {
    hide ExtNodeWf, ExtNodeWidth;
    FlatState.WidthsKept(e, e + [node], |e|);
    forall i | 0 <= i < |e| + 1 ensures ExtWfAt(e + [node], nbits, side, i) {
      if i < |e| {
        FlatState.WidthsKept(e, e + [node], i);
        assert ExtWfAt(e, nbits, side, i);
      }
    }
  }

  /** The node and its image join the lists. */
  lemma Joined(y: Input, node: ExtNode, d: nat)
    requires Ready(y) && ExtNodeWf(ExtWidths(y.e, |y.e|), |y.ebits|, y.eside, node)
    requires d < |y.t| && Widths(y.t, |y.t|)[d] == ExtNodeWidth(ExtWidths(y.e, |y.e|), node)
    ensures var z := y.(e := y.e + [node], m := y.m + [d]); Grows(y, z) && Ready(z)
  {
    hide ExtWf, DagWf, Widths, ExtNodeWf, ExtNodeWidth, ReadEntryOk, CallEntryOk;
    var z := y.(e := y.e + [node], m := y.m + [d]);
    ExtPush(y.e, |y.ebits|, y.eside, node);
    forall k | 0 <= k < |z.e| ensures ImageFits(z, k) {
      if k < |y.e| { assert ImageFits(y, k); }
    }
    assert Grows(y, z);
    forall p | 0 <= p < Reads(z) ensures ReadEntryOk(z, p) { ReadEntryKept(y, z, p); }
    forall p | 0 <= p < Calls(z) ensures CallEntryOk(z, p) { CallEntryKept(y, z, p); }
  }

  lemma CallOwnerKept(x: Input, y: Input, p: nat, i: nat)
    requires Grows(x, y) && |x.m| == |x.e| && |y.m| == |y.e| && ExtWf(x.e, |x.ebits|, x.eside)
    requires p < Calls(x) && CallOwner(x, p, i)
    ensures p < Calls(y) && CallOwner(y, p, i)
  {
    hide ExtWf, CallFor;
    CallForKept(x, y, p, i);
  }

  lemma MoreEntries(x: Input, y: Input)
    requires Grows(x, y)
    ensures |x.e| <= |y.e| && Reads(x) <= Reads(y) && Calls(x) <= Calls(y)
  {
  }

  /** Growing keeps every step and every owner. */
  lemma SettledKept(x: Input, z: Input)
    requires Grows(x, z) && Ready(x) && Settled(x) && |z.m| == |z.e|
    ensures forall i :: 0 <= i < |x.e| ==> StepOk(z, i)
    ensures forall p :: 0 <= p < Reads(x) ==> p < Reads(z) && ReadOwned(z, p)
    ensures forall p :: 0 <= p < Calls(x) ==> p < Calls(z) && CallOwned(z, p)
  {
    hide Grows, ExtWf, DagWf, ReadsOk, CallsOk, StepOk, ImageFits, ReadOwner, CallOwner;
    MoreEntries(x, z);
    forall i | 0 <= i < |x.e| ensures StepOk(z, i) { StepKept(x, z, i); }
    forall p | 0 <= p < Reads(x) ensures p < Reads(z) && ReadOwned(z, p) {
      assert ReadOwned(x, p);
      var i :| 0 <= i < |x.e| && ReadOwner(x, p, i);
      ReadOwnerKept(x, z, p, i);
    }
    forall p | 0 <= p < Calls(x) ensures p < Calls(z) && CallOwned(z, p) {
      assert CallOwned(x, p);
      var i :| 0 <= i < |x.e| && CallOwner(x, p, i);
      CallOwnerKept(x, z, p, i);
    }
  }

  /** The node's image is as wide, the node corresponds, and it owns every new
      table entry. */
  predicate Added(x: Input, node: ExtNode)
    requires |x.m| == |x.e|
  {
    var (y, d) := Image(x, node);
    var z := AddNode(x, node);
    && Reached(x, y, d) && Widths(y.t, |y.t|)[d] == ExtNodeWidth(ExtWidths(x.e, |x.e|), node)
    && |z.m| == |z.e| && Grows(y, z) && StepOk(z, |x.e|)
    && (forall p :: Reads(x) <= p < Reads(z) ==> ReadOwner(z, p, |x.e|))
    && (forall p :: Calls(x) <= p < Calls(z) ==> CallOwner(z, p, |x.e|))
  }

  lemma MappedNodeWf(x: Input, nd: DagNode)
    requires Ready(x) && NodeWf(ExtWidths(x.e, |x.e|), |x.ebits|, nd)
    ensures NodeWf(Widths(x.t, |x.t|), |x.tbits|, T.MapNode(x.m, nd))
    ensures NodeWidth(Widths(x.t, |x.t|), T.MapNode(x.m, nd)) == NodeWidth(ExtWidths(x.e, |x.e|), nd)
  {
    hide NodeWf, NodeWidth, T.MapNode, ExtWf, DagWf, ReadsOk, CallsOk, Widths, ExtWidths;
    forall k | 0 <= k < |x.m| ensures x.m[k] < |x.t| && Widths(x.t, |x.t|)[x.m[k]] == ExtWidths(x.e, |x.e|)[k] {
      assert ImageFits(x, k);
    }
    MappedWf(ExtWidths(x.e, |x.e|), Widths(x.t, |x.t|), x.m, |x.ebits|, nd);
  }

  lemma FreshVar(x: Input, z: Input, d: nat)
    requires Ready(x) && z.rtab == x.rtab && z.ctab == x.ctab && d >= |x.t|
    ensures !IsRead(z, d) && !IsCall(z, d)
  {
    forall p | 0 <= p < Reads(z) ensures RVar(z, p) != d { ReadBelow(x, p); }
    forall p | 0 <= p < Calls(z) ensures CVar(z, p) != d { assert CallEntryOk(x, p); }
  }

  lemma CoreAdded(x: Input, nd: DagNode)
    requires Ready(x) && ExtNodeWf(ExtWidths(x.e, |x.e|), |x.ebits|, x.eside, Core(nd))
    ensures Added(x, Core(nd))
  {
    hide ExtWf, DagWf, ReadsOk, CallsOk, Widths, ExtWidths, NodeWf, NodeWidth, IsRead, IsCall;
    MappedNodeWf(x, nd);
    PushReady(x, T.MapNode(x.m, nd));
    var (y, d) := Image(x, Core(nd));
    Joined(y, Core(nd), d);
    var z, i := AddNode(x, Core(nd)), |x.e|;
    FreshVar(x, z, d);
    if nd.Var? {
      forall k | 0 <= k < i ensures !VarImage(z, k, d) { assert ImageFits(x, k); }
    } else if nd.Const? {
      ConstThere(ExtWidths(x.e, |x.e|), |x.ebits|, nd);
    } else {
      MapNodeKept(ExtWidths(x.e, |x.e|), |x.ebits|, x.m, z.m, nd);
    }
    assert CoreOk(z, i);
  }

  lemma ConstThere(ws: seq<nat>, nbits: nat, nd: DagNode)
    requires NodeWf(ws, nbits, nd) && nd.Const?
    ensures nd.s + nd.w <= nbits
  {
  }

  lemma SelectAdded(x: Input, aid: nat, j: nat, s: nat, n: nat)
    requires Ready(x) && ExtNodeWf(ExtWidths(x.e, |x.e|), |x.ebits|, x.eside, Select(aid, j, s, n))
    ensures Added(x, Select(aid, j, s, n))
  {
    hide ExtWf, DagWf, ReadsOk, CallsOk, Widths, ExtWidths, ReadThrough, Walk, ChainWf;
    var node, i := Select(aid, j, s, n), |x.e|;
    ReadThroughDone(x, aid, j, s, n);
    var (y, d) := Image(x, node);
    Joined(y, node, d);
    var z := AddNode(x, node);
    WalkKept(y, z, j, s, n, d);
    assert EndOf(z, i) == Walk(y, j, s, n, d);
    if EndOf(z, i).Base? {
      var p :| 0 <= p < Reads(y) && ReadFor(y, p, EndOf(z, i).cur, aid, T.MapAt(y.m, j));
      assert ReadFor(z, p, EndOf(z, i).cur, aid, T.MapAt(z.m, j));
    }
    assert StepOk(z, i) by { assert SelectOk(z, i); }
    forall p | Reads(x) <= p < Reads(z) ensures ReadOwner(z, p, i) { assert RVar(z, p) == RVar(y, p); }
    assert Calls(z) == Calls(x);
  }

  /** An entry of the node's function and arity has a variable as wide. */
  lemma EntryWidth(x: Input, node: ExtNode, p: nat)
    requires |x.m| == |x.e| && Settled(x) && node.Call? && WidthFits(x, node)
    requires p < Calls(x) && CFunc(x, p) == node.fid && CArity(x, p) == node.n
    ensures CVar(x, p) < |x.t| && x.t[CVar(x, p)] == Var(node.w)
  {
    hide StepOk, ReadOwned, ArgImages, ArgsInRange;
    assert CallOwned(x, p);
    var i :| 0 <= i < |x.e| && CallOwner(x, p, i);
    assert |CArgs(x, p)| == x.e[i].n;
  }

  lemma CallAdded(x: Input, fid: nat, w: nat, s: nat, n: nat)
    requires Ready(x) && Settled(x) && ExtNodeWf(ExtWidths(x.e, |x.e|), |x.ebits|, x.eside, Call(fid, w, s, n))
    requires WidthFits(x, Call(fid, w, s, n))
    ensures Added(x, Call(fid, w, s, n))
  {
    hide ExtWf, DagWf, ReadsOk, CallsOk, Widths, ExtWidths, CallVar, ArgImages;
    var node, i := Call(fid, w, s, n), |x.e|;
    var args := ArgImages(x, s, n);
    forall off | s <= off < s + n ensures ArgThere(x, off) { assert ArgWf(ExtWidths(x.e, i), x.eside, off); }
    forall l | 0 <= l < n ensures args[l] < |x.t| {
      assert ArgThere(x, s + l);
      assert ImageFits(x, SideAt(x.eside, s + l));
    }
    forall p | 0 <= p < Calls(x) && CFunc(x, p) == fid && CArity(x, p) == |args|
      ensures CVar(x, p) < |x.t| && x.t[CVar(x, p)] == Var(w)
    {
      EntryWidth(x, node, p);
    }
    CallVarDone(x, fid, w, args);
    var (y, d) := Image(x, node);
    WidthOf(y.t, d);
    Joined(y, node, d);
    var z := AddNode(x, node);
    GrowsFurther(x, y, z);
    ArgImagesKept(x, z, s, n);
    assert Calls(z) == Calls(y) && Reads(z) == Reads(x);
    forall p | Calls(x) <= p < Calls(z) ensures CallOwner(z, p, i) { CallKept(y, z, p); }
    var p :| 0 <= p < Calls(y) && CVar(y, p) == d && CallIs(y, p, fid, args);
    CallKept(y, z, p);
    assert CallOwner(z, p, i);
  }

  lemma NodeAdded(x: Input, node: ExtNode)
    requires Ready(x) && Settled(x) && WidthFits(x, node)
    requires ExtNodeWf(ExtWidths(x.e, |x.e|), |x.ebits|, x.eside, node)
    ensures var z := AddNode(x, node); Grows(x, z) && Ready(z) && Settled(z) && z.e == x.e + [node]
  {
    hide Ready, Settled, Image, StepOk, ExtNodeWf, ExtNodeWidth;
    assert |x.m| == |x.e| by { Lengths(x); }
    match node {
      case Core(nd) => CoreAdded(x, nd);
      case Select(aid, j, s, n) => SelectAdded(x, aid, j, s, n);
      case Call(fid, w, s, n) => CallAdded(x, fid, w, s, n);
    }
    var (y, d) := Image(x, node);
    var z := AddNode(x, node);
    Joined(y, node, d);
    GrowsFurther(x, y, z);
    AllSettled(x, node);
  }

  lemma Lengths(x: Input)
    requires Ready(x)
    ensures |x.m| == |x.e|
  {
  }

  lemma AllSettled(x: Input, node: ExtNode)
    requires Ready(x) && Settled(x) && Added(x, node) && Grows(x, AddNode(x, node))
    ensures Settled(AddNode(x, node))
  {
    hide Ready, Image, StepOk, ReadOwner, CallOwner, Grows;
    Lengths(x);
    var z := AddNode(x, node);
    SettledKept(x, z);
    assert |z.e| == |x.e| + 1;
    forall p | Reads(x) <= p < Reads(z) ensures ReadOwned(z, p) { assert ReadOwner(z, p, |x.e|); }
    forall p | Calls(x) <= p < Calls(z) ensures CallOwned(z, p) { assert CallOwner(z, p, |x.e|); }
  }

  // ---------- the whole query ----------

  function ArgWidth(g: Goal, i: nat, l: nat): nat
    requires i < |g.e| && g.e[i].Call?
  {
    WidthAt(ExtWidths(g.e, |g.e|), SideAt(g.side, g.e[i].s + l))
  }

  /** Two calls of one function with one number of arguments are as wide, and
      so are their arguments. */
  predicate SameSignature(g: Goal, i: nat, j: nat)
    requires i < |g.e| && j < |g.e| && g.e[i].Call? && g.e[j].Call?
  {
    g.e[i].fid == g.e[j].fid && g.e[i].n == g.e[j].n ==>
      g.e[i].w == g.e[j].w && forall l :: 0 <= l < g.e[i].n ==> ArgWidth(g, i, l) == ArgWidth(g, j, l)
  }

  predicate OneSignature(g: Goal)
  {
    forall i, j :: 0 <= i < |g.e| && 0 <= j < |g.e| && g.e[i].Call? && g.e[j].Call? ==> SameSignature(g, i, j)
  }

  lemma EmptyReady(g: Goal)
    ensures Ready(Empty(g)) && Settled(Empty(g))
  {
  }

  lemma {:induction false} NodesAdded(g: Goal, n: nat)
    requires ExtWf(g.e, |g.bits|, g.side) && OneSignature(g) && n <= |g.e|
    ensures var x := AddNodes(g, n);
            Ready(x) && Settled(x) && x.e == g.e[..n] && x.ebits == g.bits && x.eside == g.side
  {
    hide Ready, Settled, AddNode, ExtWf, OneSignature, ExtNodeWf;
    if n == 0 {
      EmptyReady(g);
    } else {
      NodesAdded(g, n - 1);
      var x := AddNodes(g, n - 1);
      NextWf(g, n - 1);
      NextWidth(g, x, n - 1);
      NodeAdded(x, g.e[n - 1]);
      assert g.e[..n] == g.e[..n - 1] + [g.e[n - 1]];
    }
  }

  lemma NextWf(g: Goal, i: nat)
    requires ExtWf(g.e, |g.bits|, g.side) && i < |g.e|
    ensures ExtNodeWf(ExtWidths(g.e[..i], i), |g.bits|, g.side, g.e[i])
  {
    FlatState.WidthsKept(g.e[..i], g.e, i);
    assert ExtWfAt(g.e, |g.bits|, g.side, i);
  }

  lemma NextWidth(g: Goal, x: Input, i: nat)
    requires OneSignature(g) && i < |g.e| && x.e == g.e[..i]
    ensures WidthFits(x, g.e[i])
  {
    if g.e[i].Call? {
      forall k | 0 <= k < i && x.e[k].Call? && x.e[k].fid == g.e[i].fid && x.e[k].n == g.e[i].n
        ensures x.e[k].w == g.e[i].w
      {
        assert SameSignature(g, k, i);
      }
    }
  }

  // ---------- the clauses ----------

  lemma WidthPositive(t: Dag, nbits: nat, d: nat)
    requires DagWf(t, nbits) && d < |t|
    ensures Widths(t, |t|)[d] > 0
  {
    assert WfAt(t, nbits, d);
    WidthOf(t, d);
  }

  /** Two nodes of one width may be compared. */
  predicate Comparable(t: Dag, a: nat, b: nat)
  {
    a < |t| && b < |t| && Widths(t, |t|)[a] == Widths(t, |t|)[b]
  }

  lemma ComparableStays(t: Dag, t': Dag, a: nat, b: nat)
    requires Comparable(t, a, b) && t <= t'
    ensures Comparable(t', a, b)
  {
    hide Widths;
    WidthStays(t, t', a);
    WidthStays(t, t', b);
  }

  predicate Truthy(t: Dag, d: nat) { d < |t| && Widths(t, |t|)[d] == 1 }

  lemma PushEq(t: Dag, nbits: nat, a: nat, b: nat)
    requires DagWf(t, nbits) && Comparable(t, a, b)
    ensures var t' := t + [Cmp(Eq, a, b)]; DagWf(t', nbits) && Truthy(t', |t|)
  {
    hide DagWf, Widths;
    WidthPositive(t, nbits, a);
    PushWf(t, nbits, Cmp(Eq, a, b));
  }

  lemma PushBool(t: Dag, nbits: nat, nd: DagNode)
    requires DagWf(t, nbits) && NodeWf(Widths(t, |t|), nbits, nd) && (nd.Not? || nd.BoolAnd? || nd.BoolOr?)
    ensures DagWf(t + [nd], nbits) && Truthy(t + [nd], |t|)
  {
    hide DagWf, Widths;
    PushWf(t, nbits, nd);
  }

  lemma ClauseWf(t: Dag, nbits: nat, ante: nat, vp: nat, vq: nat)
    requires DagWf(t, nbits) && Truthy(t, ante) && Comparable(t, vp, vq)
    ensures DagWf(Clause(t, ante, vp, vq), nbits)
  {
    hide DagWf, Widths;
    var t1 := t + [Not(ante)];
    PushBool(t, nbits, Not(ante));
    ComparableStays(t, t1, vp, vq);
    PushEq(t1, nbits, vp, vq);
    var t2 := t1 + [Cmp(Eq, vp, vq)];
    WidthStays(t1, t2, |t|);
    PushBool(t2, nbits, BoolOr(|t|, |t| + 1));
    assert Clause(t, ante, vp, vq) == t2 + [BoolOr(|t|, |t| + 1)];
  }

  predicate ArgPair(t: Dag, cargs: seq<nat>, sp: nat, sq: nat, l: nat)
    requires sp + l < |cargs| && sq + l < |cargs|
  {
    Comparable(t, cargs[sp + l], cargs[sq + l])
  }

  lemma {:induction false} EqualitiesWf(t: Dag, nbits: nat, cargs: seq<nat>, sp: nat, sq: nat, k: nat)
    requires k >= 1 && sp + k <= |cargs| && sq + k <= |cargs| && DagWf(t, nbits)
    requires forall l :: 0 <= l < k ==> ArgPair(t, cargs, sp, sq, l)
    ensures var t' := Equalities(t, cargs, sp, sq, k); DagWf(t', nbits) && Truthy(t', |t'| - 1)
  {
    hide DagWf, Widths, Comparable;
    assert ArgPair(t, cargs, sp, sq, k - 1);
    var a, b := cargs[sp + k - 1], cargs[sq + k - 1];
    if k == 1 {
      PushEq(t, nbits, a, b);
    } else {
      EqualitiesWf(t, nbits, cargs, sp, sq, k - 1);
      var t1 := Equalities(t, cargs, sp, sq, k - 1);
      ComparableStays(t, t1, a, b);
      PushEq(t1, nbits, a, b);
      var t2 := t1 + [Cmp(Eq, a, b)];
      WidthStays(t1, t2, |t1| - 1);
      PushBool(t2, nbits, BoolAnd(|t1| - 1, |t1|));
      assert t1 + [Cmp(Eq, a, b), BoolAnd(|t1| - 1, |t1|)] == t2 + [BoolAnd(|t1| - 1, |t1|)];
    }
  }

  lemma {:induction false} EqualitiesAre(x: Input, t: Dag, sp: nat, sq: nat, k: nat)
    requires k >= 1 && sp + k <= |x.cargs| && sq + k <= |x.cargs| && Equalities(t, x.cargs, sp, sq, k) <= x.t
    ensures AnteOk(x, sp, sq, k, |Equalities(t, x.cargs, sp, sq, k)| - 1)
  {
    if k > 1 { EqualitiesAre(x, t, sp, sq, k - 1); }
  }

  /** Call entries that owe a root are as wide, argument for argument. */
  predicate PairAgrees(x: Input, p: nat, q: nat)
    requires p < Calls(x) && q < Calls(x) && CallPair(x, p, q)
  {
    && Comparable(x.t, CVar(x, p), CVar(x, q)) && ArgsInRange(x, p) && ArgsInRange(x, q)
    && forall l :: 0 <= l < CArity(x, p) ==> ArgPair(x.t, x.cargs, CFirst(x, p), CFirst(x, q), l)
  }

  predicate EntriesAgree(x: Input)
  {
    forall p, q :: 0 <= p < Calls(x) && 0 <= q < Calls(x) && CallPair(x, p, q) ==> PairAgrees(x, p, q)
  }

  /** Argument l of an entry is as wide as argument l of the call that owns
      it. */
  lemma OwnerArg(g: Goal, x: Input, p: nat, i: nat, l: nat)
    requires Ready(x) && x.e == g.e && x.eside == g.side
    requires p < Calls(x) && CallOwner(x, p, i) && l < CArity(x, p)
    ensures ArgsInRange(x, p) && CArity(x, p) == x.e[i].n
    ensures x.cargs[CFirst(x, p) + l] < |x.t| &&
            Widths(x.t, |x.t|)[x.cargs[CFirst(x, p) + l]] == ArgWidth(g, i, l)
  {
    hide ExtWf, DagWf, ReadsOk, CallsOk, Widths, ExtWidths, ArgImages;
    var s := x.e[i].s;
    assert CArgs(x, p) == ArgImages(x, s, x.e[i].n);
    assert x.cargs[CFirst(x, p) + l] == CArgs(x, p)[l] == ArgImage(x, s + l);
    assert ArgThere(x, s + l) by { ArgOf(x, i, l); }
    assert ImageFits(x, SideAt(x.eside, s + l));
  }

  lemma ArgOf(x: Input, i: nat, l: nat)
    requires Ready(x) && i < |x.e| && x.e[i].Call? && l < x.e[i].n
    ensures ArgThere(x, x.e[i].s + l)
  {
    assert ExtWfAt(x.e, |x.ebits|, x.eside, i);
    assert ArgWf(ExtWidths(x.e, i), x.eside, x.e[i].s + l);
  }

  lemma Agreed(g: Goal, x: Input)
    requires Ready(x) && Settled(x) && OneSignature(g) && x.e == g.e && x.eside == g.side
    ensures EntriesAgree(x)
  {
    hide Ready, StepOk, ReadOwned, CallOwner, Widths, ArgWidth, OneSignature;
    Lengths(x);
    forall p, q | 0 <= p < Calls(x) && 0 <= q < Calls(x) && CallPair(x, p, q) ensures PairAgrees(x, p, q) {
      assert CallOwned(x, p) && CallOwned(x, q);
      var i :| 0 <= i < |x.e| && CallOwner(x, p, i);
      var j :| 0 <= j < |x.e| && CallOwner(x, q, j);
      OwnersAgree(g, x, p, q, i, j);
    }
  }

  lemma OwnersAgree(g: Goal, x: Input, p: nat, q: nat, i: nat, j: nat)
    requires Ready(x) && OneSignature(g) && x.e == g.e && x.eside == g.side
    requires p < Calls(x) && q < Calls(x) && CallPair(x, p, q) && CallOwner(x, p, i) && CallOwner(x, q, j)
    ensures PairAgrees(x, p, q)
  {
    hide Ready, ArgWidth, ArgImages, Widths;
    assert |CArgs(x, p)| == x.e[i].n && |CArgs(x, q)| == x.e[j].n;
    assert SameSignature(g, i, j);
    VarWidth(x.t, CVar(x, p), x.e[i].w);
    VarWidth(x.t, CVar(x, q), x.e[j].w);
    forall l | 0 <= l < CArity(x, p) ensures ArgPair(x.t, x.cargs, CFirst(x, p), CFirst(x, q), l) {
      OwnerArg(g, x, p, i, l);
      OwnerArg(g, x, q, j, l);
    }
  }

  lemma VarWidth(t: Dag, d: nat, w: nat)
    requires d < |t| && t[d] == Var(w)
    ensures Widths(t, |t|)[d] == w
  {
    WidthOf(t, d);
  }

  // ---------- one root ----------

  lemma ReadClause(x: Input, p: nat, q: nat)
    requires Ready(x) && p < Reads(x) && q < Reads(x)
    ensures DagWf(OwedClause(x, OwedRead(p, q)), |x.tbits|)
  {
    hide DagWf, Widths, Clause, ExtWf, ImageFits, CallsOk;
    assert ReadEntryOk(x, p) && ReadEntryOk(x, q);
    var a, b := RIndex(x, p), RIndex(x, q);
    PushEq(x.t, |x.tbits|, a, b);
    VarWidth(x.t, RVar(x, p), 8);
    VarWidth(x.t, RVar(x, q), 8);
    ComparableStays(x.t, x.t + [Cmp(Eq, a, b)], RVar(x, p), RVar(x, q));
    ClauseWf(x.t + [Cmp(Eq, a, b)], |x.tbits|, |x.t|, RVar(x, p), RVar(x, q));
  }

  lemma CallClause(x: Input, p: nat, q: nat)
    requires Ready(x) && p < Calls(x) && q < Calls(x) && CallPair(x, p, q) && PairAgrees(x, p, q)
    ensures Paired(x, OwedCall(p, q)) && DagWf(OwedClause(x, OwedCall(p, q)), |x.tbits|)
  {
    hide DagWf, Widths, Clause, Equalities, ExtWf, ImageFits, CallsOk, ReadsOk, Comparable, Truthy;
    if CArity(x, p) == 0 {
      PushEq(x.t, |x.tbits|, CVar(x, p), CVar(x, q));
    } else {
      var t' := Equalities(x.t, x.cargs, CFirst(x, p), CFirst(x, q), CArity(x, p));
      EqualitiesWf(x.t, |x.tbits|, x.cargs, CFirst(x, p), CFirst(x, q), CArity(x, p));
      ComparableStays(x.t, t', CVar(x, p), CVar(x, q));
      ClauseWf(t', |x.tbits|, |t'| - 1, CVar(x, p), CVar(x, q));
    }
  }

  lemma ClauseShape(y: Input, t: Dag, ante: nat, vp: nat, vq: nat)
    requires Clause(t, ante, vp, vq) <= y.t && ante < |t|
    ensures Implication(y, |t| + 2, ante, vp, vq) && t <= y.t && |Clause(t, ante, vp, vq)| == |t| + 3
  {
    var c := Clause(t, ante, vp, vq);
    assert c[|t|] == Not(ante) && c[|t| + 1] == Cmp(Eq, vp, vq) && c[|t| + 2] == BoolOr(|t|, |t| + 1);
    assert c[..|t|] == t;
  }

  /** y has x's tables and the pair's clause. */
  predicate HasClause(x: Input, y: Input, o: Owed)
  {
    Paired(x, o) && y.rtab == x.rtab && y.ctab == x.ctab && y.cargs == x.cargs && Paired(y, o) && OwedClause(x, o) <= y.t
  }

  /** The clause is the pair's root in every larger core. */
  lemma ReadRoot(x: Input, y: Input, p: nat, q: nat)
    requires HasClause(x, y, OwedRead(p, q))
    ensures RootOk(y, OwedRead(p, q), |OwedClause(x, OwedRead(p, q))| - 1)
  {
    hide Implication, Clause;
    var t := x.t + [Cmp(Eq, RIndex(x, p), RIndex(x, q))];
    ClauseShape(y, t, |x.t|, RVar(x, p), RVar(x, q));
    assert y.t[|x.t|] == t[|x.t|];
  }

  lemma CallRoot(x: Input, y: Input, p: nat, q: nat)
    requires HasClause(x, y, OwedCall(p, q))
    ensures RootOk(y, OwedCall(p, q), |OwedClause(x, OwedCall(p, q))| - 1)
  {
    hide Implication, Clause, Equalities, AnteOk, ArgsInRange;
    InRange(x, p);
    InRange(x, q);
    InRange(y, p);
    InRange(y, q);
    if CArity(x, p) > 0 {
      var t' := Equalities(x.t, x.cargs, CFirst(x, p), CFirst(x, q), CArity(x, p));
      ClauseShape(y, t', |t'| - 1, CVar(x, p), CVar(x, q));
      EqualitiesAre(y, x.t, CFirst(x, p), CFirst(x, q), CArity(x, p));
    }
  }

  lemma InRange(x: Input, p: nat)
    requires p < Calls(x) && ArgsInRange(x, p)
    ensures CFirst(x, p) + CArity(x, p) <= |x.cargs|
  {
  }

  // ---------- all roots ----------

  /** A pair of the list owes a root over entries in order. */
  predicate Owing(x: Input, o: Owed)
  {
    Paired(x, o) && (o.OwedCall? ==> CallPair(x, o.p, o.q))
  }

  lemma OwesOwing(x: Input, o: Owed)
    requires Ready(x) && Owes(x, o)
    ensures Owing(x, o)
  {
    hide ExtWf, DagWf, ImageFits, ReadsOk, ReadPair;
    if o.OwedCall? { assert CallEntryOk(x, o.p) && CallEntryOk(x, o.q); }
  }

  /** Only nodes and roots were added. */
  predicate OnlyRoots(x: Input, y: Input) { x.t <= y.t && y == x.(t := y.t, troots := y.troots) }

  lemma OwingKept(x: Input, y: Input, o: Owed)
    requires OnlyRoots(x, y) && Owing(x, o)
    ensures Owing(y, o)
  {
  }

  lemma AgreeKept(x: Input, y: Input)
    requires OnlyRoots(x, y) && EntriesAgree(x)
    ensures EntriesAgree(y)
  {
    hide Comparable;
    forall p, q | 0 <= p < Calls(y) && 0 <= q < Calls(y) && CallPair(y, p, q) ensures PairAgrees(y, p, q) {
      assert CallPair(x, p, q) && PairAgrees(x, p, q);
      ComparableStays(x.t, y.t, CVar(x, p), CVar(x, q));
      forall l | 0 <= l < CArity(y, p) ensures ArgPair(y.t, y.cargs, CFirst(y, p), CFirst(y, q), l) {
        assert ArgPair(x.t, x.cargs, CFirst(x, p), CFirst(x, q), l);
        ComparableStays(x.t, y.t, x.cargs[CFirst(x, p) + l], x.cargs[CFirst(x, q) + l]);
      }
    }
  }

  /** One clause more. */
  lemma RootAdded(x: Input, o: Owed)
    requires Ready(x) && EntriesAgree(x) && Owing(x, o)
    ensures var y := x.(t := OwedClause(x, o), troots := x.troots + [|OwedClause(x, o)| - 1]);
            Grows(x, y) && Ready(y) && EntriesAgree(y)
  {
    hide DagWf, ExtWf, ImageFits, OwedClause, ReadEntryOk, CallEntryOk, PairAgrees;
    var y := x.(t := OwedClause(x, o), troots := x.troots + [|OwedClause(x, o)| - 1]);
    match o {
      case OwedRead(p, q) => ReadClause(x, p, q);
      case OwedCall(p, q) => CallClause(x, p, q);
    }
    ReadyKept(x, y);
    AgreeKept(x, y);
  }

  lemma {:induction false} RootsAdded(x: Input, os: seq<Owed>)
    requires Ready(x) && EntriesAgree(x) && forall k :: 0 <= k < |os| ==> Owing(x, os[k])
    ensures var y := AddRoots(x, os); OnlyRoots(x, y) && Grows(x, y) && Ready(y) && EntriesAgree(y)
  {
    hide Ready, EntriesAgree, OwedClause, Paired;
    if os == [] {
      SameGrows(x);
    } else {
      var n := |os| - 1;
      RootsAdded(x, os[..n]);
      var y := AddRoots(x, os[..n]);
      OwingKept(x, y, os[n]);
      RootAdded(y, os[n]);
      GrowsFurther(x, y, AddRoots(x, os));
    }
  }

  lemma SameGrows(x: Input)
    requires Ready(x)
    ensures Grows(x, x)
  {
  }

  /** Root k is the clause of pair k, added on top of the ones before it. */
  lemma {:induction false} RootIs(x: Input, os: seq<Owed>, k: nat)
    requires Ready(x) && EntriesAgree(x) && (forall n :: 0 <= n < |os| ==> Owing(x, os[n])) && k < |os|
    ensures var y := AddRoots(x, os);
            HasClause(AddRoots(x, os[..k]), y, os[k]) && |y.troots| == |x.troots| + |os| && x.troots <= y.troots &&
            y.troots[|x.troots| + k] == |OwedClause(AddRoots(x, os[..k]), os[k])| - 1
    decreases |os|
  {
    hide Ready, EntriesAgree, OwedClause, Paired;
    var n := |os| - 1;
    var y := AddRoots(x, os[..n]);
    RootsAdded(x, os[..n]);
    RootCount(x, os[..n]);
    OwingKept(x, y, os[n]);
    OwingKept(x, AddRoots(x, os), os[k]);
    if k < n {
      RootIs(x, os[..n], k);
      assert os[..n][..k] == os[..k];
    }
  }

  lemma {:induction false} RootCount(x: Input, os: seq<Owed>)
    requires forall n :: 0 <= n < |os| ==> Owing(x, os[n])
    ensures |AddRoots(x, os).troots| == |x.troots| + |os| && x.troots <= AddRoots(x, os).troots
  {
    hide OwedClause, Paired;
    if os != [] {
      RootCount(x, os[..|os| - 1]);
      OwingKept(x, AddRoots(x, os[..|os| - 1]), os[|os| - 1]);
    }
  }
}
