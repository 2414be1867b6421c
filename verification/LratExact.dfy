/** What the refutation checker accepts, said without its own steps: which
    deletions succeed, which hints propagate to a conflict, and which step
    lists are refutations. */
module LratExact {
  import opened Wrappers
  import opened Dimacs
  import opened Lrat

  // ---------- deletion ----------

  /** The k-th id names a live clause not listed before it. */
  predicate Deletable(slots: Slots, ids: seq<nat>, k: nat)
    requires k < |ids|
  {
    && 0 < ids[k] <= |slots| && slots[ids[k] - 1].Some?
    && forall j :: 0 <= j < k ==> ids[j] != ids[k]
  }

  /** The slots after are those before without the listed ones. */
  predicate Removed(before: Slots, ids: seq<nat>, after: Slots)
  {
    && |after| == |before|
    && forall i :: 0 <= i < |before| ==> after[i] == if (i + 1) as nat in ids then None else before[i]
  }

  /** The error of an id that cannot be deleted. */
  function DeleteError(slots: Slots, id: nat, step: nat): CoreError
  {
    if id == 0 || id > |slots| then UnknownId(step, id) else DeletedId(step, id)
  }

  /** EXACTLY WHICH DELETIONS SUCCEED: those of live clauses, each listed once;
      they remove those clauses and no others.  A refusal names the first id
      that is unknown, dead or repeated. */
  lemma {:induction false} DeleteExact(slots: Slots, ids: seq<nat>, step: nat)
    ensures DeleteAll(slots, ids, step).Ok? <==> forall k: nat :: k < |ids| ==> Deletable(slots, ids, k)
    ensures DeleteAll(slots, ids, step).Ok? ==> Removed(slots, ids, DeleteAll(slots, ids, step).value)
    ensures DeleteAll(slots, ids, step).Err? ==>
              exists k: nat :: k < |ids| && !Deletable(slots, ids, k) && (forall j: nat :: j < k ==> Deletable(slots, ids, j)) &&
                               DeleteAll(slots, ids, step).error == DeleteError(slots, ids[k], step)
    decreases |ids|
  {
    if ids == [] { return; }
    if LiveClause(slots, ids[0], step).Err? {
      assert !Deletable(slots, ids, 0);
      return;
    }
    assert Deletable(slots, ids, 0);
    var rest := slots[ids[0] - 1 := None];
    DeleteExact(rest, ids[1..], step);
    forall k: nat | k < |ids| - 1 ensures Deletable(rest, ids[1..], k) <==> Deletable(slots, ids, k + 1) {
      DeletableRest(slots, ids, k);
    }
    if DeleteAll(slots, ids, step).Ok? {
      forall k: nat | k < |ids| ensures Deletable(slots, ids, k) { if k > 0 { assert Deletable(rest, ids[1..], k - 1); } }
      RemovedRest(slots, ids, DeleteAll(slots, ids, step).value);
    } else {
      var k: nat :| k < |ids| - 1 && !Deletable(rest, ids[1..], k) && (forall j: nat :: j < k ==> Deletable(rest, ids[1..], j)) &&
                    DeleteAll(rest, ids[1..], step).error == DeleteError(rest, ids[1..][k], step);
      forall j: nat | j < k + 1 ensures Deletable(slots, ids, j) { if j > 0 { assert Deletable(rest, ids[1..], j - 1); } }
      assert !Deletable(slots, ids, k + 1);
    }
  }

  lemma DeletableRest(slots: Slots, ids: seq<nat>, k: nat)
    requires k + 1 < |ids| && 0 < ids[0] <= |slots|
    ensures Deletable(slots[ids[0] - 1 := None], ids[1..], k) <==> Deletable(slots, ids, k + 1)
  {
    if Deletable(slots[ids[0] - 1 := None], ids[1..], k) {
      forall j | 0 <= j < k + 1 ensures ids[j] != ids[k + 1] { if j > 0 { assert ids[1..][j - 1] == ids[j]; } }
    }
    if Deletable(slots, ids, k + 1) {
      forall j | 0 <= j < k ensures ids[1..][j] != ids[1..][k] { assert ids[j + 1] != ids[k + 1]; }
    }
  }

  lemma RemovedRest(slots: Slots, ids: seq<nat>, after: Slots)
    requires ids != [] && 0 < ids[0] <= |slots| && Removed(slots[ids[0] - 1 := None], ids[1..], after)
    ensures Removed(slots, ids, after)
  {
    forall i | 0 <= i < |slots| ensures after[i] == if (i + 1) as nat in ids then None else slots[i] {
      assert (i + 1) as nat in ids <==> i + 1 == ids[0] || (i + 1) as nat in ids[1..];
    }
  }

  // ---------- propagation ----------

  predicate LiveAt(slots: Slots, hints: seq<nat>, k: nat) { k < |hints| && 0 < hints[k] <= |slots| && slots[hints[k] - 1].Some? }

  /** The literals assumed true after the first k hints: each adds what its
      clause leaves open. */
  ghost function Assumed(slots: Slots, I: set<int>, hints: seq<nat>, k: nat): set<int>
  {
    if k == 0 then I else
    var before := Assumed(slots, I, hints, k - 1);
    if LiveAt(slots, hints, k - 1) then before + Open(before, slots[hints[k - 1] - 1].value) else before
  }

  /** Hint k's clause has no true literal. */
  ghost predicate Unsatisfied(slots: Slots, I: set<int>, hints: seq<nat>, k: nat)
    requires LiveAt(slots, hints, k)
  {
    forall l :: l in slots[hints[k] - 1].value ==> l !in Assumed(slots, I, hints, k)
  }

  /** Hint k is live and leaves exactly one literal open. */
  ghost predicate UnitAt(slots: Slots, I: set<int>, hints: seq<nat>, k: nat)
  {
    LiveAt(slots, hints, k) && Unsatisfied(slots, I, hints, k) &&
    var c := slots[hints[k] - 1].value;
    exists u :: u in c && Open(Assumed(slots, I, hints, k), c) == {u as int}
  }

  /** Hint k is live and leaves none open. */
  ghost predicate ConflictAt(slots: Slots, I: set<int>, hints: seq<nat>, k: nat)
  {
    LiveAt(slots, hints, k) && Unsatisfied(slots, I, hints, k) &&
    Open(Assumed(slots, I, hints, k), slots[hints[k] - 1].value) == {}
  }

  ghost predicate UnitsBefore(slots: Slots, I: set<int>, hints: seq<nat>, k: nat)
  {
    forall j: nat :: j < k ==> UnitAt(slots, I, hints, j)
  }

  /** The first k hints are units and the next is a conflict. */
  ghost predicate ConflictsAt(slots: Slots, I: set<int>, hints: seq<nat>, k: nat)
  {
    k < |hints| && UnitsBefore(slots, I, hints, k) && ConflictAt(slots, I, hints, k)
  }

  /** Hint k is the first that is neither: its error. */
  ghost predicate StuckAt(slots: Slots, I: set<int>, hints: seq<nat>, k: nat, step: nat, error: CoreError)
  {
    && k < |hints| && UnitsBefore(slots, I, hints, k)
    && !UnitAt(slots, I, hints, k) && !ConflictAt(slots, I, hints, k)
    && error == if LiveAt(slots, hints, k) then HintNotUnit(step, hints[k]) else DeleteError(slots, hints[k], step)
  }

  /** A set that is the open literals of a live clause with one left. */
  lemma HeadClass(slots: Slots, I: set<int>, hints: seq<nat>)
    requires LiveAt(slots, hints, 0)
    ensures var kind := Classify(I, slots[hints[0] - 1].value);
            && (kind.Falsified? <==> ConflictAt(slots, I, hints, 0)) && (kind.UnitOn? <==> UnitAt(slots, I, hints, 0))
            && (kind.UnitOn? ==> Assumed(slots, I, hints, 1) == I + {kind.lit as int})
  {
    var c := slots[hints[0] - 1].value;
    assert Assumed(slots, I, hints, 0) == I;
    assert Unsatisfied(slots, I, hints, 0) <==> !exists l :: l in c && l in I;
  }

  /** Propagation after the first hint is propagation from what it leaves. */
  lemma {:induction false} AssumedRest(slots: Slots, I: set<int>, hints: seq<nat>, k: nat)
    requires hints != []
    ensures Assumed(slots, Assumed(slots, I, hints, 1), hints[1..], k) == Assumed(slots, I, hints, k + 1)
  {
    if k > 0 {
      AssumedRest(slots, I, hints, k - 1);
      assert LiveAt(slots, hints[1..], k - 1) <==> LiveAt(slots, hints, k);
    } else {
      assert Assumed(slots, Assumed(slots, I, hints, 1), hints[1..], 0) == Assumed(slots, I, hints, 1);
    }
  }

  lemma AtRest(slots: Slots, I: set<int>, hints: seq<nat>, k: nat)
    requires hints != []
    ensures UnitAt(slots, Assumed(slots, I, hints, 1), hints[1..], k) <==> UnitAt(slots, I, hints, k + 1)
    ensures ConflictAt(slots, Assumed(slots, I, hints, 1), hints[1..], k) <==> ConflictAt(slots, I, hints, k + 1)
  {
    hide Assumed, Open;
    AssumedRest(slots, I, hints, k);
    assert LiveAt(slots, hints[1..], k) <==> LiveAt(slots, hints, k + 1);
  }

  lemma BeforeRest(slots: Slots, I: set<int>, hints: seq<nat>, k: nat)
    requires hints != [] && UnitAt(slots, I, hints, 0)
    ensures UnitsBefore(slots, Assumed(slots, I, hints, 1), hints[1..], k) <==> UnitsBefore(slots, I, hints, k + 1)
  {
    hide UnitAt, Assumed;
    forall j: nat | j < k
      ensures UnitAt(slots, Assumed(slots, I, hints, 1), hints[1..], j) <==> UnitAt(slots, I, hints, j + 1)
    {
      AtRest(slots, I, hints, j);
    }
    if UnitsBefore(slots, Assumed(slots, I, hints, 1), hints[1..], k) {
      forall j: nat | j < k + 1 ensures UnitAt(slots, I, hints, j) {
        if j > 0 { assert UnitAt(slots, Assumed(slots, I, hints, 1), hints[1..], j - 1); }
      }
    }
  }

  /** EXACTLY WHICH HINTS ARE ACCEPTED: unit clauses up to one that is a
      conflict.  A refusal names the first hint that is neither, or says that
      every hint was a unit. */
  lemma {:induction false} PropagationExact(slots: Slots, I: set<int>, hints: seq<nat>, step: nat)
    ensures RunHints(slots, I, hints, step).Ok? <==> exists k: nat :: ConflictsAt(slots, I, hints, k)
    ensures var r := RunHints(slots, I, hints, step);
            r.Err? ==> if r.error == HintsExhausted(step) then UnitsBefore(slots, I, hints, |hints|)
                       else exists k: nat :: StuckAt(slots, I, hints, k, step, r.error)
    decreases |hints|
  {
    hide UnitAt, ConflictAt, Classify, Assumed, UnitsBefore;
    if hints == [] {
      assert UnitsBefore(slots, I, hints, 0) by { NoneBefore(slots, I, hints); }
      return;
    }
    NoneBefore(slots, I, hints);
    if !LiveAt(slots, hints, 0) {
      NotLive(slots, I, hints);
      FirstStops(slots, I, hints);
      assert StuckAt(slots, I, hints, 0, step, DeleteError(slots, hints[0], step));
      return;
    }
    HeadClass(slots, I, hints);
    if ConflictAt(slots, I, hints, 0) {
      assert ConflictsAt(slots, I, hints, 0);
    } else if !UnitAt(slots, I, hints, 0) {
      FirstStops(slots, I, hints);
      assert StuckAt(slots, I, hints, 0, step, HintNotUnit(step, hints[0]));
    } else {
      PropagationRest(slots, I, hints, step);
    }
  }

  lemma NoneBefore(slots: Slots, I: set<int>, hints: seq<nat>)
    ensures UnitsBefore(slots, I, hints, 0)
  {
  }

  lemma NotLive(slots: Slots, I: set<int>, hints: seq<nat>)
    requires !LiveAt(slots, hints, 0)
    ensures !UnitAt(slots, I, hints, 0) && !ConflictAt(slots, I, hints, 0)
  {
  }

  /** A first hint that is neither stops the run. */
  lemma FirstStops(slots: Slots, I: set<int>, hints: seq<nat>)
    requires !UnitAt(slots, I, hints, 0) && !ConflictAt(slots, I, hints, 0)
    ensures forall k: nat :: !ConflictsAt(slots, I, hints, k)
  {
    hide UnitAt, ConflictAt;
  }

  lemma {:induction false} PropagationRest(slots: Slots, I: set<int>, hints: seq<nat>, step: nat)
    requires hints != [] && UnitAt(slots, I, hints, 0) && !ConflictAt(slots, I, hints, 0) && LiveAt(slots, hints, 0)
    ensures RunHints(slots, I, hints, step).Ok? <==> exists k: nat :: ConflictsAt(slots, I, hints, k)
    ensures var r := RunHints(slots, I, hints, step);
            r.Err? ==> if r.error == HintsExhausted(step) then UnitsBefore(slots, I, hints, |hints|)
                       else exists k: nat :: StuckAt(slots, I, hints, k, step, r.error)
    decreases |hints|, 0
  {
    hide UnitAt, ConflictAt, Classify, Assumed, UnitsBefore;
    HeadClass(slots, I, hints);
    var I', rest := Assumed(slots, I, hints, 1), hints[1..];
    PropagationExact(slots, I', rest, step);
    assert RunHints(slots, I, hints, step) == RunHints(slots, I', rest, step);
    forall k: nat ensures ConflictsAt(slots, I', rest, k) <==> ConflictsAt(slots, I, hints, k + 1) {
      BeforeRest(slots, I, hints, k);
      AtRest(slots, I, hints, k);
    }
    if k: nat :| ConflictsAt(slots, I, hints, k) { assert ConflictsAt(slots, I', rest, k - 1); }
    var r := RunHints(slots, I, hints, step);
    if r.Err? && r.error != HintsExhausted(step) {
      var k: nat :| StuckAt(slots, I', rest, k, step, r.error);
      BeforeRest(slots, I, hints, k);
      AtRest(slots, I, hints, k);
      assert StuckAt(slots, I, hints, k + 1, step, r.error);
    }
    BeforeRest(slots, I, hints, |rest|);
  }

  /** The clause propagates to a conflict, or is a tautology. */
  ghost predicate Propagates(slots: Slots, c: Clause, hints: seq<nat>)
  {
    Tautology(c) || exists k: nat :: ConflictsAt(slots, Negated(c), hints, k)
  }

  // ---------- whole runs ----------

  /** One step leads from a database to the next. */
  ghost predicate StepTo(db: Slots, s: Step, db': Slots)
  {
    match s
    case Delete(ids) => (forall k: nat :: k < |ids| ==> Deletable(db, ids, k)) && Removed(db, ids, db')
    case Add(id, clause, hints) =>
      ValidClause(clause) && id == |db| + 1 && Propagates(db, clause, hints) && db' == db + [Some(clause)]
  }

  predicate AddsEmpty(s: Step) { s.Add? && s.clause == [] }

  lemma StepExact(db: Slots, s: Step, step: nat)
    ensures ApplyStep(db, s, step).Ok? <==> exists db' :: StepTo(db, s, db')
    ensures forall db' :: StepTo(db, s, db') ==> ApplyStep(db, s, step) == Ok((db', AddsEmpty(s)))
  {
    hide DeleteAll, RunHints, ConflictsAt, Tautology, Deletable;
    match s {
      case Delete(ids) =>
        DeleteExact(db, ids, step);
        if DeleteAll(db, ids, step).Ok? { assert StepTo(db, s, DeleteAll(db, ids, step).value); }
        forall db' | StepTo(db, s, db') ensures DeleteAll(db, ids, step) == Ok(db') {
          assert db' == DeleteAll(db, ids, step).value;
        }
      case Add(id, clause, hints) =>
        PropagationExact(db, Negated(clause), hints, step);
        if ApplyStep(db, s, step).Ok? { assert StepTo(db, s, db + [Some(clause)]); }
    }
  }

  /** The databases before each of the first k + 1 steps, the first k steps
      taken and none adding the empty clause. */
  ghost predicate History(dbs: seq<Slots>, steps: seq<Step>, k: nat)
  {
    && k <= |steps| && |dbs| == k + 1
    && forall j :: 0 <= j < k ==> StepTo(dbs[j], steps[j], dbs[j + 1]) && !AddsEmpty(steps[j])
  }

  /** The databases are the run's, and step k adds the empty clause. */
  ghost predicate Refutes(db: Slots, steps: seq<Step>, dbs: seq<Slots>, k: nat)
  {
    && History(dbs, steps, k) && dbs[0] == db && k < |steps| && AddsEmpty(steps[k])
    && exists end :: StepTo(dbs[k], steps[k], end)
  }

  /** The databases are the run's, and step k fails. */
  ghost predicate FailsAt(db: Slots, steps: seq<Step>, dbs: seq<Slots>, k: nat, step: nat, error: CoreError)
  {
    && History(dbs, steps, k) && dbs[0] == db && k < |steps| && !(exists db' :: StepTo(dbs[k], steps[k], db'))
    && ApplyStep(dbs[k], steps[k], step + k) == Err(error)
  }

  lemma HistoryCons(db: Slots, dbs: seq<Slots>, steps: seq<Step>, k: nat)
    requires steps != [] && History(dbs, steps[1..], k) && StepTo(db, steps[0], dbs[0]) && !AddsEmpty(steps[0])
    ensures History([db] + dbs, steps, k + 1)
  {
    hide StepTo;
    forall j | 0 <= j < k + 1
      ensures StepTo(([db] + dbs)[j], steps[j], ([db] + dbs)[j + 1]) && !AddsEmpty(steps[j])
    {
      if j > 0 { assert steps[j] == steps[1..][j - 1]; }
    }
  }

  lemma HistoryTail(dbs: seq<Slots>, steps: seq<Step>, k: nat)
    requires k > 0 && History(dbs, steps, k)
    ensures History(dbs[1..], steps[1..], k - 1)
  {
    hide StepTo;
    forall j | 0 <= j < k - 1
      ensures StepTo(dbs[1..][j], steps[1..][j], dbs[1..][j + 1]) && !AddsEmpty(steps[1..][j])
    {
      assert StepTo(dbs[j + 1], steps[j + 1], dbs[j + 2]);
    }
  }

  /** A run that ends well, spelled out. */
  lemma {:induction false} RunMeans(db: Slots, steps: seq<Step>, step: nat) returns (dbs: seq<Slots>, k: nat)
    ensures var r := RunSteps(db, steps, step);
            if r.Ok? then Refutes(db, steps, dbs, k)
            else if r.error == NoEmptyClause then History(dbs, steps, |steps|) && dbs[0] == db
            else FailsAt(db, steps, dbs, k, step, r.error)
    decreases |steps|
  {
    hide StepTo, ApplyStep;
    dbs, k := [db], 0;
    if steps == [] { return; }
    StepExact(db, steps[0], step);
    var r := ApplyStep(db, steps[0], step);
    ApplyNotEmpty(db, steps[0], step);
    if r.Err? {
      assert FailsAt(db, steps, dbs, 0, step, r.error);
      return;
    }
    if AddsEmpty(steps[0]) {
      assert Refutes(db, steps, dbs, 0);
      return;
    }
    var db' :| StepTo(db, steps[0], db');
    var dbs', k' := RunMeans(db', steps[1..], step + 1);
    dbs, k := [db] + dbs', k' + 1;
    var run := RunSteps(db, steps, step);
    if run.Err? && run.error == NoEmptyClause {
      HistoryCons(db, dbs', steps, |steps| - 1);
    } else {
      HistoryCons(db, dbs', steps, k');
      assert dbs[k] == dbs'[k'] && steps[k] == steps[1..][k'];
    }
  }

  lemma ApplyNotEmpty(db: Slots, s: Step, step: nat)
    ensures ApplyStep(db, s, step).Err? ==> ApplyStep(db, s, step).error != NoEmptyClause
  {
    hide Deletable, Removed, UnitsBefore, ConflictsAt;
    match s {
      case Delete(ids) => DeleteExact(db, ids, step);
      case Add(id, clause, hints) => PropagationExact(db, Negated(clause), hints, step);
    }
  }

  lemma {:induction false} RefutesRuns(db: Slots, steps: seq<Step>, dbs: seq<Slots>, k: nat, step: nat)
    requires Refutes(db, steps, dbs, k)
    ensures RunSteps(db, steps, step).Ok?
    decreases k
  {
    hide StepTo, ApplyStep;
    StepExact(db, steps[0], step);
    if k > 0 {
      assert StepTo(dbs[0], steps[0], dbs[1]) && !AddsEmpty(steps[0]);
      HistoryTail(dbs, steps, k);
      assert dbs[1..][k - 1] == dbs[k] && steps[1..][k - 1] == steps[k];
      RefutesRuns(dbs[1], steps[1..], dbs[1..], k - 1, step + 1);
    }
  }

  /** EXACTLY WHICH STEP LISTS ARE REFUTATIONS of a CNF: from its clauses, some
      first steps each delete live clauses or add one that propagates, and the
      next adds the empty clause; later steps are not read. */
  lemma VerdictExact(cnf: Cnf, steps: seq<Step>)
    ensures Verdict(cnf, steps).Ok? <==>
              ValidCnf(cnf) && exists dbs, k: nat :: Refutes(Loaded(cnf), steps, dbs, k)
    ensures ValidCnf(cnf) && Verdict(cnf, steps).Err? ==>
              var e := Verdict(cnf, steps).error;
              exists dbs, k: nat ::
                if e == NoEmptyClause then k == |steps| && History(dbs, steps, k) && dbs[0] == Loaded(cnf)
                else FailsAt(Loaded(cnf), steps, dbs, k, 0, e)
  {
    hide RunSteps, Refutes, FailsAt, History;
    if ValidCnf(cnf) {
      var dbs, k := RunMeans(Loaded(cnf), steps, 0);
      if dbs, k: nat :| Refutes(Loaded(cnf), steps, dbs, k) { RefutesRuns(Loaded(cnf), steps, dbs, k, 0); }
      if Verdict(cnf, steps).Err? && Verdict(cnf, steps).error == NoEmptyClause {
        assert History(dbs, steps, |steps|) && dbs[0] == Loaded(cnf) by { HistoryStart(dbs, steps); }
      }
    }
  }

  lemma HistoryStart(dbs: seq<Slots>, steps: seq<Step>)
    requires History(dbs, steps, |steps|)
    ensures |dbs| > 0
  {
  }
}
