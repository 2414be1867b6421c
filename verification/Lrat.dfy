/** The LRAT/RUP checker: clause database, partial assignment, hint-driven
    unit propagation and the step loop. */
module Lrat {
  import opened Wrappers
  import opened Dimacs

  datatype Step =
    | Add(id: nat, clause: Clause, hints: seq<nat>)
    | Delete(ids: seq<nat>)

  datatype CoreError =
    | InvalidCnfLiteral(clauseIndex: nat)
    | InvalidStepLiteral(step: nat)
    | NonSequentialId(step: nat, expected: nat, found: nat)
    | UnknownId(step: nat, id: nat)
    | DeletedId(step: nat, id: nat)
    | HintNotUnit(step: nat, hint: nat)
    | HintsExhausted(step: nat)
    | NoEmptyClause

  datatype HintClass = Satisfied | Falsified | UnitOn(lit: I32) | Multi

  /** The clause with id k + 1, if it is still live. */
  type Slots = seq<Option<Clause>>

  // ---------- specification: RUP over the set of literals assumed true ----------

  /** The literals assumed when c is assumed false. */
  ghost function Negated(c: Clause): set<int> { set l | l in c :: Neg(l) }

  ghost predicate Tautology(c: Clause) { exists i, j :: 0 <= i < |c| && 0 <= j < |c| && c[i] == Neg(c[j]) }

  /** The literals of c that are not false when exactly the literals of I are true. */
  ghost function Open(I: set<int>, c: Clause): set<int> { set l | l in c && Neg(l) !in I }

  ghost function Classify(I: set<int>, c: Clause): HintClass
  {
    if exists l :: l in c && l in I then Satisfied
    else if Open(I, c) == {} then Falsified
    else if exists u :: u in c && Open(I, c) == {u as int} then
      var u :| u in c && Open(I, c) == {u as int}; UnitOn(u)
    else Multi
  }

  function LiveClause(slots: Slots, id: nat, step: nat): Result<Clause, CoreError>
  {
    if id == 0 || id > |slots| then Err(UnknownId(step, id))
    else if slots[id - 1].Some? then Ok(slots[id - 1].value)
    else Err(DeletedId(step, id))
  }

  /** Unit propagation through the hints, starting from the literals of I. */
  ghost function RunHints(slots: Slots, I: set<int>, hints: seq<nat>, step: nat): Result<Unit, CoreError>
    decreases |hints|
  {
    if hints == [] then Err(HintsExhausted(step)) else
    var live := LiveClause(slots, hints[0], step);
    if live.Err? then Err(live.error) else
    match Classify(I, live.value)
    case Falsified => Ok(Unit)
    case UnitOn(u) => RunHints(slots, I + {u}, hints[1..], step)
    case _ => Err(HintNotUnit(step, hints[0]))
  }

  ghost function Rup(slots: Slots, c: Clause, hints: seq<nat>, step: nat): Result<Unit, CoreError>
  {
    if Tautology(c) then Ok(Unit) else RunHints(slots, Negated(c), hints, step)
  }

  function DeleteAll(slots: Slots, ids: seq<nat>, step: nat): Result<Slots, CoreError>
    decreases |ids|
  {
    if ids == [] then Ok(slots) else
    var live := LiveClause(slots, ids[0], step);
    if live.Err? then Err(live.error) else DeleteAll(slots[ids[0] - 1 := None], ids[1..], step)
  }

  /** One step: the database after it and whether it added the empty clause. */
  ghost function ApplyStep(slots: Slots, s: Step, step: nat): Result<(Slots, bool), CoreError>
  {
    match s
    case Delete(ids) =>
      var r := DeleteAll(slots, ids, step);
      if r.Err? then Err(r.error) else Ok((r.value, false))
    case Add(id, clause, hints) =>
      if !ValidClause(clause) then Err(InvalidStepLiteral(step))
      else if id != |slots| + 1 then Err(NonSequentialId(step, |slots| + 1, id))
      else
        var r := Rup(slots, clause, hints, step);
        if r.Err? then Err(r.error) else Ok((slots + [Some(clause)], clause == []))
  }

  ghost function RunSteps(slots: Slots, steps: seq<Step>, step: nat): Result<Unit, CoreError>
    decreases |steps|
  {
    if steps == [] then Err(NoEmptyClause) else
    var r := ApplyStep(slots, steps[0], step);
    if r.Err? then Err(r.error)
    else if r.value.1 then Ok(Unit)
    else RunSteps(r.value.0, steps[1..], step + 1)
  }

  function Loaded(cnf: Cnf): (s: Slots)
    ensures |s| == |cnf| && forall i :: 0 <= i < |cnf| ==> s[i] == Some(cnf[i])
  {
    seq(|cnf|, i requires 0 <= i < |cnf| => Some(cnf[i]))
  }

  /** The index of the first clause with an invalid literal. */
  function FirstInvalid(cnf: Cnf): (k: nat)
    requires !ValidCnf(cnf)
    ensures k < |cnf| && !ValidClause(cnf[k]) && forall i :: 0 <= i < k ==> ValidClause(cnf[i])
  {
    if !ValidClause(cnf[0]) then 0 else
    assert !ValidCnf(cnf[1..]) by {
      var i :| 0 <= i < |cnf| && !ValidClause(cnf[i]);
      assert cnf[1..][i - 1] == cnf[i];
    }
    1 + FirstInvalid(cnf[1..])
  }

  /** What the checker answers: the first invalid CNF clause, or the run. */
  ghost function Verdict(cnf: Cnf, steps: seq<Step>): Result<Unit, CoreError>
  {
    if ValidCnf(cnf) then RunSteps(Loaded(cnf), steps, 0)
    else
      Err(InvalidCnfLiteral(FirstInvalid(cnf)))
  }

  // ---------- the partial assignment ----------

  /** The literal over v that has the value b. */
  function Literal(v: nat, b: bool): int { if b then v else Neg(v) }

  /** The literals made true by a table of variable values. */
  ghost function ViewOf(values: seq<Option<bool>>): set<int>
  {
    set v: nat | v < |values| && values[v].Some? :: Literal(v, values[v].value)
  }

  lemma InView(values: seq<Option<bool>>, lit: int)
    requires lit != 0
    ensures lit in ViewOf(values) <==>
            LitVar(lit) < |values| && values[LitVar(lit)] == Some(lit > 0)
  {
    var v := LitVar(lit);
    if v < |values| && values[v] == Some(lit > 0) {
      assert Literal(v, values[v].value) == lit;
    }
    if lit in ViewOf(values) {
      var u: nat :| u < |values| && values[u].Some? && lit == Literal(u, values[u].value);
      assert u == v;
    }
  }

  class Assignment {
    var values: seq<Option<bool>>

    ghost predicate Valid()
      reads this
    {
      |values| > 0 ==> values[0].None?
    }

    /** The literals made true so far. */
    ghost function View(): set<int>
      reads this
    {
      ViewOf(values)
    }

    constructor ()
      ensures Valid() && View() == {}
    {
      values := [];
    }

    function Value(lit: I32): (r: Option<bool>)
      requires ValidLit(lit) && Valid()
      reads this
      ensures r == Some(true) <==> lit as int in View()
      ensures r == Some(false) <==> Neg(lit) in View()
    {
      InView(values, lit);
      InView(values, Neg(lit));
      var v := LitVar(lit);
      if v >= |values| then None
      else
        match values[v]
        case None => None
        case Some(b) => if lit > 0 then Some(b) else Some(!b)
    }

    /** Make lit true; reports whether it was already false. */
    method AssignTrue(lit: I32) returns (conflict: bool)
      requires ValidLit(lit) && Valid()
      modifies this
      ensures Valid()
      ensures conflict <==> Neg(lit) in old(View())
      ensures View() == if conflict then old(View()) else old(View()) + {lit as int}
    {
      var current := Value(lit);
      match current
      case Some(sign) => conflict := !sign;
      case None =>
        var v := LitVar(lit);
        ghost var was := values;
        while |values| <= v
          invariant |was| <= |values| && values[..|was|] == was
          invariant forall k :: |was| <= k < |values| ==> values[k].None?
          invariant |was| <= v ==> |values| <= v + 1
        {
          values := values + [None];
        }
        ghost var grown := values;
        values := values[v := Some(lit > 0)];
        conflict := false;
        SetView(was, grown, v, lit > 0);
    }
  }

  lemma SetView(was: seq<Option<bool>>, grown: seq<Option<bool>>, v: nat, b: bool)
    requires |was| <= |grown| && grown[..|was|] == was
    requires forall k :: |was| <= k < |grown| ==> grown[k].None?
    requires v < |grown| && grown[v].None?
    ensures ViewOf(grown[v := Some(b)]) == ViewOf(was) + {Literal(v, b)}
  {
    var now := grown[v := Some(b)];
    assert forall k :: 0 <= k < |was| ==> was[k] == grown[k];
    forall l | l in ViewOf(was) ensures l in ViewOf(now) {
      var u: nat :| u < |was| && was[u].Some? && l == Literal(u, was[u].value);
      assert now[u] == was[u];
    }
    forall l | l in ViewOf(now) ensures l in ViewOf(was) + {Literal(v, b)} {
      var u: nat :| u < |now| && now[u].Some? && l == Literal(u, now[u].value);
      if u != v { assert now[u] == grown[u] == was[u]; }
    }
    assert now[v] == Some(b);
  }

  // ---------- the clause database ----------

  /** Assume the negation of every literal of clause; true on a tautology. */
  method AssumeNegation(assignment: Assignment, clause: Clause) returns (conflict: bool)
    requires ValidClause(clause) && assignment.Valid() && assignment.View() == {}
    modifies assignment
    ensures assignment.Valid()
    ensures conflict <==> Tautology(clause)
    ensures !conflict ==> assignment.View() == Negated(clause)
  {
    var i := 0;
    while i < |clause|
      invariant 0 <= i <= |clause| && assignment.Valid()
      invariant assignment.View() == Negated(clause[..i]) && !Tautology(clause[..i])
    {
      assert clause[..i + 1] == clause[..i] + [clause[i]];
      var clash := assignment.AssignTrue(-clause[i]);
      if clash {
        assert Neg(Neg(clause[i])) in Negated(clause[..i]);
        var l :| l in clause[..i] && Neg(l) == clause[i] as int;
        var j :| 0 <= j < i && clause[j] == l;
        assert clause[j] == Neg(clause[i]);
        return true;
      }
      NegatedSnoc(clause, i);
      i := i + 1;
    }
    assert clause[..|clause|] == clause;
    return false;
  }

  lemma NegatedSnoc(clause: Clause, i: nat)
    requires i < |clause| && ValidClause(clause)
    requires clause[i] as int !in Negated(clause[..i]) && !Tautology(clause[..i])
    ensures Negated(clause[..i + 1]) == Negated(clause[..i]) + {Neg(clause[i])}
    ensures !Tautology(clause[..i + 1])
  {
    assert clause[..i + 1] == clause[..i] + [clause[i]];
  }

  /** Classify one hint clause; duplicate literals are collapsed. */
  method ClassifyHint(assignment: Assignment, clause: Clause) returns (r: HintClass)
    requires ValidClause(clause) && assignment.Valid()
    ensures r == Classify(assignment.View(), clause)
  {
    var unassigned: Clause := [];
    ghost var I := assignment.View();
    var i := 0;
    while i < |clause|
      invariant 0 <= i <= |clause|
      invariant forall k :: 0 <= k < i ==> clause[k] as int !in I
      invariant forall l: I32 :: l in unassigned <==> l in clause[..i] && Neg(l) !in I
      invariant forall j, k :: 0 <= j < k < |unassigned| ==> unassigned[j] != unassigned[k]
      invariant forall k :: 0 <= k < |unassigned| ==> unassigned[k] in clause
    {
      assert clause[..i + 1] == clause[..i] + [clause[i]];
      var lit := clause[i];
      var value := assignment.Value(lit);
      match value {
        case Some(true) => return Satisfied;
        case Some(false) =>
        case None => if lit !in unassigned { unassigned := unassigned + [lit]; }
      }
      i := i + 1;
    }
    assert clause[..|clause|] == clause;
    var U := Open(I, clause);
    if |unassigned| == 0 {
      r := Falsified;
      assert U == {};
    } else if |unassigned| == 1 {
      r := UnitOn(unassigned[0]);
      assert unassigned[0] as int in U;
      forall l | l in U ensures l == unassigned[0] as int { assert l as I32 in unassigned; }
      assert U == {unassigned[0] as int};
    } else {
      r := Multi;
      assert unassigned[0] in unassigned && unassigned[1] in unassigned;
      assert unassigned[0] as int in U && unassigned[1] as int in U;
    }
  }

  ghost predicate ValidSlots(slots: Slots)
  {
    forall i :: 0 <= i < |slots| && slots[i].Some? ==> ValidClause(slots[i].value)
  }

  class ClauseDb {
    var slots: Slots

    /** Load the input CNF as live clauses 1..|cnf|, validating every literal. */
    method Load(cnf: Cnf) returns (r: Result<Unit, CoreError>)
      modifies this
      ensures r.Ok? <==> ValidCnf(cnf)
      ensures r.Ok? ==> slots == Loaded(cnf)
      ensures r.Err? ==> r == Err(InvalidCnfLiteral(FirstInvalid(cnf)))
    {
      slots := [];
      for i := 0 to |cnf|
        invariant |slots| == i && forall k :: 0 <= k < i ==> slots[k] == Some(cnf[k])
        invariant forall k :: 0 <= k < i ==> ValidClause(cnf[k])
      {
        var invalid := HasInvalidLiteral(cnf[i]);
        if invalid { return Err(InvalidCnfLiteral(i)); }
        slots := slots + [Some(cnf[i])];
      }
      return Ok(Unit);
    }

    /** Verify one RUP addition: propagate the negated clause through the hints. */
    method CheckRup(newClause: Clause, hints: seq<nat>, step: nat) returns (r: Result<Unit, CoreError>)
      requires ValidSlots(slots) && ValidClause(newClause)
      ensures r == Rup(slots, newClause, hints, step)
    {
      var assignment := new Assignment();
      var tautology := AssumeNegation(assignment, newClause);
      if tautology { return Ok(Unit); }
      ghost var goal := Rup(slots, newClause, hints, step);
      var outcome: Option<Result<Unit, CoreError>> := None;
      var i := 0;
      while outcome.None? && i < |hints|
        invariant 0 <= i <= |hints| && assignment.Valid() && fresh(assignment)
        invariant outcome.None? ==> RunHints(slots, assignment.View(), hints[i..], step) == goal
        invariant outcome.Some? ==> outcome.value == goal
      {
        var id := hints[i];
        assert hints[i..][1..] == hints[i + 1..];
        var live := LiveClause(slots, id, step);
        match live {
          case Err(e) => outcome := Some(Err(e));
          case Ok(clause) =>
            var kind := ClassifyHint(assignment, clause);
            match kind {
              case Falsified => outcome := Some(Ok(Unit));
              case UnitOn(unit) =>
                assert unit as int in Open(assignment.View(), clause);
                var conflict := assignment.AssignTrue(unit);
                assert !conflict;
              case Satisfied => outcome := Some(Err(HintNotUnit(step, id)));
              case Multi => outcome := Some(Err(HintNotUnit(step, id)));
            }
        }
        i := i + 1;
      }
      r := if outcome.Some? then outcome.value else Err(HintsExhausted(step));
    }

    /** Mark every id dead; unknown or dead ids are rejected. */
    method ApplyDelete(ids: seq<nat>, step: nat) returns (r: Result<Unit, CoreError>)
      requires ValidSlots(slots)
      modifies this
      ensures ValidSlots(slots)
      ensures r.Ok? ==> DeleteAll(old(slots), ids, step) == Ok(slots)
      ensures r.Err? ==> DeleteAll(old(slots), ids, step) == Err(r.error)
    {
      var i := 0;
      while i < |ids|
        invariant 0 <= i <= |ids| && ValidSlots(slots)
        invariant DeleteAll(slots, ids[i..], step) == DeleteAll(old(slots), ids, step)
      {
        assert ids[i..][1..] == ids[i + 1..];
        var live := LiveClause(slots, ids[i], step);
        if live.Err? { return Err(live.error); }
        slots := slots[ids[i] - 1 := None];
        i := i + 1;
      }
      return Ok(Unit);
    }

    /** Verify one addition and append its clause; reports whether it was empty. */
    method ApplyAdd(id: nat, clause: Clause, hints: seq<nat>, step: nat) returns (r: Result<bool, CoreError>)
      requires ValidSlots(slots)
      modifies this
      ensures ValidSlots(slots)
      ensures r.Ok? ==> ApplyStep(old(slots), Add(id, clause, hints), step) == Ok((slots, r.value))
      ensures r.Err? ==> ApplyStep(old(slots), Add(id, clause, hints), step) == Err(r.error)
      ensures r.Err? ==> slots == old(slots)
    {
      var invalid := HasInvalidLiteral(clause);
      if invalid { return Err(InvalidStepLiteral(step)); }
      var expected := |slots| + 1;
      if id != expected { return Err(NonSequentialId(step, expected, id)); }
      var rup := CheckRup(clause, hints, step);
      if rup.Err? { return Err(rup.error); }
      slots := slots + [Some(clause)];
      return Ok(|clause| == 0);
    }
  }

  /** Does the clause contain 0 or the least i32, whose negation overflows? */
  method HasInvalidLiteral(clause: Clause) returns (r: bool)
    ensures r <==> !ValidClause(clause)
  {
    for i := 0 to |clause|
      invariant forall k :: 0 <= k < i ==> ValidLit(clause[k])
    {
      if clause[i] == 0 || clause[i] == I32_MIN { return true; }
    }
    return false;
  }

  /** Check a parsed step list against the input CNF. */
  method CheckSteps(cnf: Cnf, steps: seq<Step>) returns (r: Result<Unit, CoreError>)
    ensures r == Verdict(cnf, steps)
  {
    var db := new ClauseDb;
    var loaded := db.Load(cnf);
    if loaded.Err? { return Err(loaded.error); }
    var outcome: Option<Result<Unit, CoreError>> := None;
    var k := 0;
    while outcome.None? && k < |steps|
      invariant 0 <= k <= |steps| && fresh(db) && ValidSlots(db.slots)
      invariant outcome.None? ==> RunSteps(db.slots, steps[k..], k) == Verdict(cnf, steps)
      invariant outcome.Some? ==> outcome.value == Verdict(cnf, steps)
    {
      assert steps[k..][1..] == steps[k + 1..];
      match steps[k] {
        case Delete(ids) =>
          var deleted := db.ApplyDelete(ids, k);
          if deleted.Err? { outcome := Some(Err(deleted.error)); }
        case Add(id, clause, hints) =>
          var added := db.ApplyAdd(id, clause, hints, k);
          match added {
            case Err(e) => outcome := Some(Err(e));
            case Ok(isEmpty) => if isEmpty { outcome := Some(Ok(Unit)); }
          }
      }
      k := k + 1;
    }
    r := if outcome.Some? then outcome.value else Err(NoEmptyClause);
  }
}
