/** Exactly which pairs of table entries owe a congruence root, and in which
    order. */
module SliverExact {
  import opened Dag
  import opened Sliver
  import opened SliverSound

  // ---------- which pairs ----------

  predicate IsConst(x: Input, d: nat) { d < |x.t| && x.t[d].Const? }

  lemma ConstValue(x: Input, env: Env, d: nat)
    requires DagWf(x.t, |x.tbits|) && IsConst(x, d)
    ensures x.t[d].s + x.t[d].w <= |x.tbits| && x.t[d].w > 0
    ensures DagVal(x.t, x.tbits, env, d) == x.tbits[x.t[d].s..x.t[d].s + x.t[d].w]
  {
    hide DagVals, DagWf;
    assert WfAt(x.t, |x.tbits|, d) by { NodeThere(x, d); }
    DagValAt(x.t, x.tbits, env, d, |x.t|);
  }

  lemma NodeThere(x: Input, d: nat)
    requires DagWf(x.t, |x.tbits|) && d < |x.t|
    ensures WfAt(x.t, |x.tbits|, d)
  {
  }

  lemma ListedOwes(x: Input, o: Owed)
    ensures o in AllOwed(x) <==> Owes(x, o)
  {
    hide Owes;
    if Owes(x, o) { OwedListed(x, o); }
  }

  /** EXACTLY WHICH READS OWE A ROOT: two entries of one array, unless both
      their indices are constants of different values. */
  lemma ReadsOwe(x: Input, env: Env, p: nat, q: nat)
    requires DagWf(x.t, |x.tbits|) && p < q < Reads(x)
    ensures RArray(x, p) != RArray(x, q) ==> OwedRead(p, q) !in AllOwed(x)
    ensures RArray(x, p) == RArray(x, q) && !(IsConst(x, RIndex(x, p)) && IsConst(x, RIndex(x, q))) ==>
              OwedRead(p, q) in AllOwed(x)
    ensures RArray(x, p) == RArray(x, q) && IsConst(x, RIndex(x, p)) && IsConst(x, RIndex(x, q)) ==>
              (OwedRead(p, q) in AllOwed(x) <==> IndexVal(x, env, p) == IndexVal(x, env, q))
  {
    hide DagWf, DagVal, AllOwed;
    ListedOwes(x, OwedRead(p, q));
    if IsConst(x, RIndex(x, p)) && IsConst(x, RIndex(x, q)) {
      ConstValue(x, env, RIndex(x, p));
      ConstValue(x, env, RIndex(x, q));
    }
  }

  /** And exactly which calls: two entries of one function and arity. */
  lemma CallsOwe(x: Input, p: nat, q: nat)
    requires p < q < Calls(x)
    ensures OwedCall(p, q) in AllOwed(x) <==> CFunc(x, p) == CFunc(x, q) && CArity(x, p) == CArity(x, q)
  {
    hide AllOwed;
    ListedOwes(x, OwedCall(p, q));
  }

  /** Nothing else owes one. */
  lemma OnlyPairs(x: Input, o: Owed)
    requires o in AllOwed(x)
    ensures o.p < o.q < if o.OwedRead? then Reads(x) else Calls(x)
  {
    hide AllOwed;
    ListedOwes(x, o);
  }

  // ---------- in which order ----------

  /** Reads before calls, then by first entry, then by second. */
  predicate Before(o: Owed, o': Owed)
  {
    if o.OwedRead? != o'.OwedRead? then o.OwedRead? else o.p < o'.p || (o.p == o'.p && o.q < o'.q)
  }

  predicate InOrder(os: seq<Owed>) { forall j, k :: 0 <= j < k < |os| ==> Before(os[j], os[k]) }

  lemma JoinOrder(a: seq<Owed>, b: seq<Owed>)
    requires InOrder(a) && InOrder(b) && forall o, o' :: o in a && o' in b ==> Before(o, o')
    ensures InOrder(a + b)
  {
    forall j, k | 0 <= j < k < |a + b| ensures Before((a + b)[j], (a + b)[k]) {
      if j < |a| <= k { assert a[j] in a && b[k - |a|] in b; }
    }
  }

  lemma {:induction false} ReadRowOrder(x: Input, p: nat, q: nat)
    requires p < q
    ensures InOrder(ReadRow(x, p, q)) && forall o :: o in ReadRow(x, p, q) ==> o.OwedRead? && o.p == p && q <= o.q
    decreases Reads(x) - q
  {
    hide ReadPair;
    if q < Reads(x) {
      ReadRowOrder(x, p, q + 1);
      JoinOrder(if ReadPair(x, p, q) then [OwedRead(p, q)] else [], ReadRow(x, p, q + 1));
    }
  }

  lemma {:induction false} ReadPairsOrder(x: Input, p: nat)
    ensures InOrder(ReadPairs(x, p)) && forall o :: o in ReadPairs(x, p) ==> o.OwedRead? && p <= o.p
    decreases Reads(x) - p
  {
    hide ReadRow;
    if p < Reads(x) {
      ReadRowOrder(x, p, p + 1);
      ReadPairsOrder(x, p + 1);
      JoinOrder(ReadRow(x, p, p + 1), ReadPairs(x, p + 1));
    }
  }

  lemma {:induction false} CallRowOrder(x: Input, p: nat, q: nat)
    requires p < q
    ensures InOrder(CallRow(x, p, q)) && forall o :: o in CallRow(x, p, q) ==> o.OwedCall? && o.p == p && q <= o.q
    decreases Calls(x) - q
  {
    hide CallPair;
    if q < Calls(x) {
      CallRowOrder(x, p, q + 1);
      JoinOrder(if CallPair(x, p, q) then [OwedCall(p, q)] else [], CallRow(x, p, q + 1));
    }
  }

  lemma {:induction false} CallPairsOrder(x: Input, p: nat)
    ensures InOrder(CallPairs(x, p)) && forall o :: o in CallPairs(x, p) ==> o.OwedCall? && p <= o.p
    decreases Calls(x) - p
  {
    hide CallRow;
    if p < Calls(x) {
      CallRowOrder(x, p, p + 1);
      CallPairsOrder(x, p + 1);
      JoinOrder(CallRow(x, p, p + 1), CallPairs(x, p + 1));
    }
  }

  /** THE ORDER OF THE OWED ROOTS: reads first, each pair once, by first and
      then second entry; with the pairs above this fixes the whole list. */
  lemma OwedOrder(x: Input)
    ensures InOrder(AllOwed(x))
  {
    hide ReadPairs, CallPairs;
    ReadPairsOrder(x, 0);
    CallPairsOrder(x, 0);
    JoinOrder(ReadPairs(x, 0), CallPairs(x, 0));
  }
}
