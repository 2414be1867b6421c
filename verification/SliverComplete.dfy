/** Completeness of the sliver check: the elimination of an extended query is
    accepted, and some total lowering is exactly when calls of one function and
    arity agree in their widths. */
module SliverComplete {
  import opened Wrappers
  import opened Dag
  import opened Sliver
  import opened SliverElim
  import opened SliverGrow
  import SliverSound
  import SliverWidths
  import Pullback
  import Dimacs
  import Lrat
  import Query
  import T = TermCheck
  import TS = TermSound

  // ---------- the owed pairs stay ----------

  /** b has a's tables and at least its nodes. */
  predicate SameTables(a: Input, b: Input)
  {
    ReadsOk(a) && a.rtab == b.rtab && a.ctab == b.ctab && a.t <= b.t && a.tbits == b.tbits
  }

  lemma ReadPairKept(a: Input, b: Input, p: nat, q: nat)
    requires SameTables(a, b) && p < Reads(a) && q < Reads(a)
    ensures ReadPair(b, p, q) <==> ReadPair(a, p, q)
  {
    hide ReadsOk, Widths;
    Indexed(a, p);
    Indexed(a, q);
  }

  lemma Indexed(x: Input, p: nat)
    requires ReadsOk(x) && p < Reads(x)
    ensures RIndex(x, p) < |x.t|
  {
    assert ReadEntryOk(x, p);
  }

  lemma {:induction false} ReadRowKept(a: Input, b: Input, p: nat, q: nat)
    requires SameTables(a, b) && p < q && p < Reads(a)
    ensures ReadRow(b, p, q) == ReadRow(a, p, q)
    decreases Reads(a) - q
  {
    hide ReadPair, SameTables;
    SameReads(a, b);
    if q < Reads(a) {
      ReadPairKept(a, b, p, q);
      ReadRowKept(a, b, p, q + 1);
    }
  }

  lemma SameReads(a: Input, b: Input)
    requires SameTables(a, b)
    ensures Reads(a) == Reads(b) && Calls(a) == Calls(b)
  {
  }

  lemma {:induction false} ReadPairsKept(a: Input, b: Input, p: nat)
    requires SameTables(a, b)
    ensures ReadPairs(b, p) == ReadPairs(a, p)
    decreases Reads(a) - p
  {
    hide ReadRow, SameTables;
    SameReads(a, b);
    if p < Reads(a) {
      ReadRowKept(a, b, p, p + 1);
      ReadPairsKept(a, b, p + 1);
    }
  }

  lemma {:induction false} CallRowKept(a: Input, b: Input, p: nat, q: nat)
    requires SameTables(a, b) && p < q
    ensures CallRow(b, p, q) == CallRow(a, p, q)
    decreases Calls(a) - q
  {
    if q < Calls(a) { CallRowKept(a, b, p, q + 1); }
  }

  lemma {:induction false} CallPairsKept(a: Input, b: Input, p: nat)
    requires SameTables(a, b)
    ensures CallPairs(b, p) == CallPairs(a, p)
    decreases Calls(a) - p
  {
    hide CallRow, SameTables;
    SameReads(a, b);
    if p < Calls(a) {
      CallRowKept(a, b, p, p + 1);
      CallPairsKept(a, b, p + 1);
    }
  }

  lemma OwedKept(a: Input, b: Input)
    requires SameTables(a, b)
    ensures AllOwed(b) == AllOwed(a)
  {
    hide ReadPairs, CallPairs;
    ReadPairsKept(a, b, 0);
    CallPairsKept(a, b, 0);
  }

  // ---------- the elimination is accepted ----------

  predicate RootsListed(g: Goal) { forall k :: 0 <= k < |g.roots| ==> g.roots[k] < |g.e| }

  /** x is a lowering of the query that leaves no node out. */
  predicate Lowers(x: Input, g: Goal)
  {
    && x.e == g.e && x.ebits == g.bits && x.eside == g.side && x.eroots == g.roots && |x.m| == |x.e|
    && (forall k :: 0 <= k < |x.e| ==> Mapped(x, k)) && |x.t| <= USIZE_MAX
  }

  lemma RootedReady(g: Goal)
    requires ExtWf(g.e, |g.bits|, g.side) && OneSignature(g)
    ensures var x := Rooted(g); Ready(x) && Settled(x) && EntriesAgree(x) && x.e == g.e && x.ebits == g.bits && x.eside == g.side
  {
    hide Ready, OneSignature, EntriesAgree, StepOk, AddNodes, ReadOwned, CallOwned;
    var y, x := AddNodes(g, |g.e|), Rooted(g);
    NodesAdded(g, |g.e|);
    assert g.e[..|g.e|] == g.e;
    Rerooted(y, x);
    SettledKept(y, x);
    Lengths(y);
    Agreed(g, x);
  }

  /** Readiness does not look at the roots. */
  lemma Rerooted(x: Input, y: Input)
    requires Ready(x) && y == x.(eroots := y.eroots, troots := y.troots)
    ensures Grows(x, y) && Ready(y) && |y.m| == |y.e|
  {
    hide ExtWf, DagWf, ImageFits, ReadEntryOk, CallEntryOk;
    assert Grows(x, y);
    ReadyKept(x, y);
  }

  lemma Owings(x: Input)
    requires Ready(x)
    ensures forall k :: 0 <= k < |AllOwed(x)| ==> Owing(x, AllOwed(x)[k])
  {
    hide Ready, AllOwed, Owing, Owes;
    forall k | 0 <= k < |AllOwed(x)| ensures Owing(x, AllOwed(x)[k]) { OwesOwing(x, AllOwed(x)[k]); }
  }

  /** Every owner reaches its entry's variable. */
  lemma OwnersLive(x: Input)
    requires Ready(x) && Settled(x)
    ensures forall p :: 0 <= p < Reads(x) ==> Live(x, RVar(x, p))
    ensures forall p :: 0 <= p < Calls(x) ==> Live(x, CVar(x, p))
  {
    hide ExtWf, DagWf, ReadsOk, CallsOk, StepOk, EndOf, Widths, ExtWidths;
    forall p | 0 <= p < Reads(x) ensures Live(x, RVar(x, p)) {
      assert ReadOwned(x, p);
      var i :| 0 <= i < |x.e| && ReadOwner(x, p, i);
      assert ImageFits(x, i);
      assert Reaches(x, i, RVar(x, p));
    }
    forall p | 0 <= p < Calls(x) ensures Live(x, CVar(x, p)) {
      assert CallOwned(x, p);
      var i :| 0 <= i < |x.e| && CallOwner(x, p, i);
      assert ImageFits(x, i);
      assert Reaches(x, i, CVar(x, p));
    }
  }

  lemma PairRoot(x: Input, y: Input, o: Owed)
    requires HasClause(x, y, o)
    ensures RootOk(y, o, |OwedClause(x, o)| - 1)
  {
    match o {
      case OwedRead(p, q) => ReadRoot(x, y, p, q);
      case OwedCall(p, q) => CallRoot(x, y, p, q);
    }
  }

  /** Every owed root is there, in order. */
  lemma EliminatedCongruent(g: Goal)
    requires ExtWf(g.e, |g.bits|, g.side) && OneSignature(g)
    ensures Congruent(Eliminated(g)) && |Rooted(g).troots| == |g.roots| && Rooted(g).troots <= Eliminated(g).troots
  {
    hide Ready, OneSignature, EntriesAgree, Settled, Rooted, AllOwed, OwedClause, Paired, RootOk, AddRoots, HasClause;
    RootedReady(g);
    var x := Rooted(g);
    var os, y := AllOwed(x), Eliminated(g);
    Owings(x);
    RootsAdded(x, os);
    TablesOf(x, y);
    OwedKept(x, y);
    RootCount(x, os);
    forall k | 0 <= k < |os| ensures RootOk(y, os[k], y.troots[|g.roots| + k]) {
      RootIs(x, os, k);
      PairRoot(AddRoots(x, os[..k]), y, os[k]);
    }
  }

  lemma TablesOf(x: Input, y: Input)
    requires Ready(x) && OnlyRoots(x, y)
    ensures SameTables(x, y)
  {
  }

  /** THE ELIMINATION IS ACCEPTED: whenever the query's calls agree in their
      widths and the core has no more nodes than an index can name. */
  lemma EliminationAccepted(g: Goal)
    requires ExtWf(g.e, |g.bits|, g.side) && RootsListed(g) && OneSignature(g) && |Eliminated(g).t| <= USIZE_MAX
    ensures Lowers(Eliminated(g), g) && Accepted(Eliminated(g))
  {
    hide OneSignature, EntriesAgree, Settled, Rooted, AllOwed, AddRoots, StepOk, Live, ExtWf, DagWf, ReadEntryOk, CallEntryOk;
    hide Congruent, Widths, ExtWidths;
    RootedReady(g);
    var x, y := Rooted(g), Eliminated(g);
    Owings(x);
    RootsAdded(x, AllOwed(x));
    StillSettled(x, y);
    OwnersLive(y);
    EliminatedCongruent(g);
    forall k | 0 <= k < |y.e| ensures Mapped(y, k) { assert ImageFits(y, k); }
    forall k | 0 <= k < |y.eroots| ensures T.MapAt(y.m, y.eroots[k]) == y.troots[k] != NONE {
      assert ImageFits(y, g.roots[k]);
      assert y.troots[k] == x.troots[k];
    }
  }

  lemma StillSettled(x: Input, y: Input)
    requires Ready(x) && Settled(x) && Ready(y) && Grows(x, y) && OnlyRoots(x, y)
    ensures Settled(y) && (forall i :: 0 <= i < |y.e| ==> StepOk(y, i))
  {
    hide StepOk, ReadOwned, CallOwned, ExtWf, DagWf, ReadEntryOk, CallEntryOk, ImageFits;
    SettledKept(x, y);
  }

  // ---------- and only then ----------

  /** A call's entry: its variable is as wide, its arguments are the images of
      the call's. */
  lemma CallEntryOf(g: Goal, x: Input, i: nat) returns (p: nat)
    requires Accepted(x) && Lowers(x, g) && i < |x.e| && x.e[i].Call?
    ensures p < Calls(x) && ArgsInRange(x, p) && CFunc(x, p) == x.e[i].fid && CArity(x, p) == x.e[i].n
    ensures CVar(x, p) < |x.t| && x.t[CVar(x, p)] == Var(x.e[i].w)
    ensures forall l :: 0 <= l < x.e[i].n ==> CArgs(x, p)[l] < |x.t| && Widths(x.t, |x.t|)[CArgs(x, p)[l]] == ArgWidth(g, i, l)
  {
    hide ExtWf, DagWf, ReadsOk, CallsOk, Congruent, ExtRootsCorr, Widths, ExtWidths, ArgImages;
    assert Mapped(x, i) && StepOk(x, i) && CallOk(x, i);
    p :| 0 <= p < Calls(x) && CallFor(x, p, i);
    assert |CArgs(x, p)| == x.e[i].n;
    forall l | 0 <= l < x.e[i].n
      ensures CArgs(x, p)[l] < |x.t| && Widths(x.t, |x.t|)[CArgs(x, p)[l]] == ArgWidth(g, i, l)
    {
      SliverWidths.EntryArgument(x, p, i, l);
      SliverWidths.MappedWidth(x, x.eside[x.e[i].s + l]);
    }
  }

  /** Two entries of one function and arity are as wide. */
  lemma EntriesWide(x: Input, p: nat, q: nat)
    requires Accepted(x) && p < Calls(x) && q < Calls(x) && CallPair(x, p, q)
    ensures CVar(x, p) < |x.t| && CVar(x, q) < |x.t| && x.t[CVar(x, p)] == x.t[CVar(x, q)]
  {
    hide ExtWf, DagWf, ReadsOk, StepOk, AllOwed, CallRootOk, ReadRootOk;
    assert CallEntryOk(x, p) && CallEntryOk(x, q);
    if p != q {
      var o := if p < q then OwedCall(p, q) else OwedCall(q, p);
      OwedListed(x, o);
      var n :| 0 <= n < |AllOwed(x)| && AllOwed(x)[n] == o;
      assert RootOk(x, o, x.troots[|x.eroots| + n]);
      SliverSound.CallPairWidth(x, o.p, o.q, x.troots[|x.eroots| + n]);
    }
  }

  /** WIDTHS MUST AGREE: an accepted lowering that leaves no node out has calls
      of one function and arity agree. */
  lemma LoweredSignature(g: Goal, x: Input)
    requires Accepted(x) && Lowers(x, g)
    ensures OneSignature(g)
  {
    hide Accepted, Lowers, Widths, ArgWidth;
    forall i, j | 0 <= i < |g.e| && 0 <= j < |g.e| && g.e[i].Call? && g.e[j].Call? ensures SameSignature(g, i, j) {
      CallsAgree(g, x, i, j);
    }
  }

  lemma CallsAgree(g: Goal, x: Input, i: nat, j: nat)
    requires Accepted(x) && Lowers(x, g) && i < |g.e| && j < |g.e| && g.e[i].Call? && g.e[j].Call?
    ensures SameSignature(g, i, j)
  {
    hide Accepted, Widths, ArgWidth;
    if g.e[i].fid == g.e[j].fid && g.e[i].n == g.e[j].n {
      var p := CallEntryOf(g, x, i);
      var q := CallEntryOf(g, x, j);
      EntriesWide(x, p, q);
      forall l | 0 <= l < g.e[i].n ensures ArgWidth(g, i, l) == ArgWidth(g, j, l) {
        Pullback.ArgumentWidths(x, p, q, l);
      }
    }
  }

  /** COMPLETENESS: a well-formed extended query whose elimination fits in an
      index has an accepted lowering that leaves no node out exactly when its
      calls of one function and arity agree in their widths. */
  lemma LoweringExists(g: Goal)
    requires ExtWf(g.e, |g.bits|, g.side) && RootsListed(g) && |Eliminated(g).t| <= USIZE_MAX
    ensures (exists x :: Lowers(x, g) && Accepted(x)) <==> OneSignature(g)
  {
    hide Accepted, OneSignature, Eliminated, ExtWf, Lowers;
    if OneSignature(g) {
      EliminationAccepted(g);
      assert Lowers(Eliminated(g), g) && Accepted(Eliminated(g));
    }
    if x :| Lowers(x, g) && Accepted(x) { LoweredSignature(g, x); }
  }

  // ---------- every unsatisfiable query can be certified ----------

  /** The map that keeps every node. */
  function Same(n: nat): (m: seq<nat>)
    ensures |m| == n && forall i :: 0 <= i < n ==> m[i] == i
  {
    seq(n, i requires 0 <= i < n => i)
  }

  lemma SameNode(ws: seq<nat>, nbits: nat, m: seq<nat>, nd: DagNode)
    requires NodeWf(ws, nbits, nd) && |ws| <= |m| && forall i :: 0 <= i < |m| ==> m[i] == i
    ensures T.MapNode(m, nd) == nd
  {
  }

  /** Every term corresponds to itself. */
  lemma TermIsItself(t: Dag, bits: seq<bool>, roots: seq<nat>)
    requires DagWf(t, |bits|) && |t| <= USIZE_MAX && forall k :: 0 <= k < |roots| ==> roots[k] < |t|
    ensures T.Accepted(t, bits, roots, Same(|t|), t, bits, roots)
  {
    hide NodeWf, Widths, DagVals, T.ConstFlags;
    var m := Same(|t|);
    var p := T.PairOf(t, bits, m, t, bits);
    forall i | 0 <= i < |t| ensures T.StepOk(p, T.ZeroVals(t, bits), i) {
      assert WfAt(t, |bits|, i);
      SameNode(Widths(t, i), |bits|, m, t[i]);
      if t[i].Const? { ConstThere(Widths(t, i), |bits|, t[i]); }
    }
  }

  predicate BooleanRoots(g: Goal) { forall k :: 0 <= k < |g.roots| ==> RootWf(ExtWidths(g.e, |g.e|), g.roots[k]) }

  lemma BooleanNode(t: Dag, r: nat)
    requires r < |t| && (t[r].BoolOr? || t[r].Cmp?)
    ensures RootWf(Widths(t, |t|), r)
  {
    WidthOf(t, r);
  }

  /** A lowering of boolean roots has boolean roots. */
  lemma LoweredRoots(g: Goal, x: Input)
    requires Accepted(x) && Lowers(x, g) && BooleanRoots(g)
    ensures QueryWf(x.t, |x.tbits|, x.troots)
  {
    hide ExtWf, DagWf, ReadsOk, CallsOk, StepOk, Live, Widths, ExtWidths, AllOwed, AnteOk;
    forall k | 0 <= k < |x.troots| ensures RootWf(Widths(x.t, |x.t|), x.troots[k]) {
      if k < |x.eroots| {
        assert T.MapAt(x.m, x.eroots[k]) == x.troots[k];
        assert RootWf(ExtWidths(g.e, |g.e|), g.roots[k]);
        assert Mapped(x, x.eroots[k]);
        SliverWidths.MappedWidth(x, x.eroots[k]);
      } else {
        assert RootOk(x, AllOwed(x)[k - |x.eroots|], x.troots[k]);
        BooleanNode(x.t, x.troots[k]);
      }
    }
  }

  /** Some steps refute the clauses. */
  ghost predicate Refutable(cnf: Dimacs.Cnf) { exists steps :: Lrat.Verdict(cnf, steps).Ok? }

  /** The lowering's own core, kept as it is, is certified; and where its
      arena's clauses fit, some steps refute them exactly when no interpretation
      makes every root of the query true. */
  ghost predicate Decided(x: Input, a: Option<Query.Arena>)
    requires |x.t| <= USIZE_MAX
  {
    && TS.Certified(x.t, x.tbits, x.troots, Same(|x.t|), x.t, x.tbits, x.troots)
    && (forall k :: 0 <= k < |x.eroots| ==> x.eroots[k] < |x.e|)
    && a.Some? && Query.ArenaOk(a.value)
    && (Query.CnfOf(a.value, []).Some? ==> (Refutable(Query.CnfOf(a.value, []).value) <==> !SliverSound.ExtSat(x)))
  }

  lemma AcceptedDecided(x: Input, a: Option<Query.Arena>)
    requires Accepted(x) && |x.t| <= USIZE_MAX && QueryWf(x.t, |x.tbits|, x.troots) && !Query.BeyondCapacity(x.t)
    requires Query.ArenaFor(a, x.t, x.tbits, x.troots)
    ensures Decided(x, a)
  {
    hide Accepted, Query.CnfOf, Query.BeyondCapacity, Query.Faithful, Widths, T.Accepted;
    hide SliverSound.ExtSat, DagSat, Lrat.Verdict;
    TermIsItself(x.t, x.tbits, x.troots);
    SliverSound.SliverSatIffCoreSat(x);
    if Query.CnfOf(a.value, []).Some? {
      var W: nat :| Query.IsMaxWidth(Widths(x.t, |x.t|), W) && Query.Encodes(a.value, x.t, x.tbits, x.troots, W);
      Query.CnfFaithful(a.value, x.t, x.tbits, x.troots, [], W);
      Query.FaithfulRefutable(Query.CnfOf(a.value, []).value, x.t, x.tbits, x.troots);
    }
  }

  /** EVERY UNSATISFIABLE QUERY CAN BE CERTIFIED: an extended query whose calls
      agree in their widths, eliminated, kept as it is and encoded. */
  lemma SliverCertifiable(g: Goal, a: Option<Query.Arena>)
    requires ExtWf(g.e, |g.bits|, g.side) && BooleanRoots(g) && OneSignature(g)
    requires |Eliminated(g).t| <= USIZE_MAX && !Query.BeyondCapacity(Eliminated(g).t)
    requires Query.ArenaFor(a, Eliminated(g).t, Eliminated(g).tbits, Eliminated(g).troots)
    ensures Accepted(Eliminated(g)) && Decided(Eliminated(g), a)
  {
    hide OneSignature, Eliminated, Accepted, Query.ArenaFor, Query.BeyondCapacity, ExtWidths, Decided;
    EliminationAccepted(g);
    LoweredRoots(g, Eliminated(g));
    AcceptedDecided(Eliminated(g), a);
  }
}
