/** What an accepted refutation means, and that every unsatisfiable CNF has one. */
module LratTheorems {
  import opened Wrappers
  import opened Dimacs
  import opened Lrat
  import opened Bits

  // ---------- soundness ----------

  ghost predicate Models(alpha: Alpha, I: set<int>) { forall l :: l in I ==> LitTrue(alpha, l) }

  /** alpha satisfies every live clause, and those clauses are well-formed. */
  ghost predicate SatLive(alpha: Alpha, slots: Slots)
  {
    forall i :: 0 <= i < |slots| && slots[i].Some? ==> ValidClause(slots[i].value) && Sat(alpha, slots[i].value)
  }

  /** Propagation only adds literals every model of the live clauses has, so
      it can reach a conflict only if no assignment extends the start. */
  lemma {:induction false} HintsSound(slots: Slots, I: set<int>, hints: seq<nat>, step: nat, alpha: Alpha)
    requires Models(alpha, I) && SatLive(alpha, slots)
    ensures RunHints(slots, I, hints, step).Err?
    decreases |hints|
  {
    if hints == [] { return; }
    var live := LiveClause(slots, hints[0], step);
    if live.Err? { return; }
    var c := live.value;
    var k :| 0 <= k < |c| && LitTrue(alpha, c[k]);
    assert c[k] as int in Open(I, c);
    var kind := Classify(I, c);
    if kind.UnitOn? {
      assert Open(I, c) == {kind.lit as int};
      HintsSound(slots, I + {kind.lit as int}, hints[1..], step, alpha);
    }
  }

  /** A clause that passes the RUP check is satisfied by every assignment that
      satisfies the live clauses. */
  lemma RupSound(slots: Slots, c: Clause, hints: seq<nat>, step: nat, alpha: Alpha)
    requires ValidClause(c) && SatLive(alpha, slots) && Rup(slots, c, hints, step).Ok?
    ensures Sat(alpha, c)
  {
    if Tautology(c) {
      var i, j :| 0 <= i < |c| && 0 <= j < |c| && c[i] == Neg(c[j]);
      assert LitTrue(alpha, c[i]) || LitTrue(alpha, c[j]);
    } else if !Sat(alpha, c) {
      forall l | l in Negated(c) ensures LitTrue(alpha, l) {
        var x :| x in c && l == Neg(x);
        var i :| 0 <= i < |c| && c[i] == x;
        assert !LitTrue(alpha, c[i]);
      }
      HintsSound(slots, Negated(c), hints, step, alpha);
    }
  }

  lemma {:induction false} DeleteSound(slots: Slots, ids: seq<nat>, step: nat, alpha: Alpha)
    requires SatLive(alpha, slots) && DeleteAll(slots, ids, step).Ok?
    ensures SatLive(alpha, DeleteAll(slots, ids, step).value)
    decreases |ids|
  {
    if ids != [] { DeleteSound(slots[ids[0] - 1 := None], ids[1..], step, alpha); }
  }

  /** Every step, an addition or a deletion, keeps every live clause implied. */
  lemma StepSound(slots: Slots, s: Step, step: nat, alpha: Alpha)
    requires SatLive(alpha, slots) && ApplyStep(slots, s, step).Ok?
    ensures SatLive(alpha, ApplyStep(slots, s, step).value.0)
    ensures !ApplyStep(slots, s, step).value.1
  {
    match s
    case Delete(ids) => DeleteSound(slots, ids, step, alpha);
    case Add(id, clause, hints) => RupSound(slots, clause, hints, step, alpha);
  }

  lemma {:induction false} RunSound(slots: Slots, steps: seq<Step>, step: nat, alpha: Alpha)
    requires SatLive(alpha, slots)
    ensures RunSteps(slots, steps, step).Err?
    decreases |steps|
  {
    if steps == [] { return; }
    var r := ApplyStep(slots, steps[0], step);
    if r.Ok? {
      StepSound(slots, steps[0], step, alpha);
      RunSound(r.value.0, steps[1..], step + 1, alpha);
    }
  }

  /** SOUNDNESS: an accepted step list proves the CNF unsatisfiable. */
  lemma RefutationSound(cnf: Cnf, steps: seq<Step>)
    requires Verdict(cnf, steps).Ok?
    ensures !Satisfiable(cnf)
  {
    if Satisfiable(cnf) {
      var alpha: Alpha :| SatAll(alpha, cnf);
      RunSound(Loaded(cnf), steps, 0, alpha);
    }
  }

  // ---------- completeness ----------

  /** Running steps leads from one database to another without finishing. */
  ghost predicate Reaches(slots: Slots, steps: seq<Step>, step: nat, end: Slots)
    decreases |steps|
  {
    if steps == [] then slots == end else
    var r := ApplyStep(slots, steps[0], step);
    r.Ok? && !r.value.1 && Reaches(r.value.0, steps[1..], step + 1, end)
  }

  lemma {:induction false} ReachesThen(slots: Slots, s1: seq<Step>, step: nat, mid: Slots, s2: seq<Step>)
    requires Reaches(slots, s1, step, mid)
    ensures RunSteps(slots, s1 + s2, step) == RunSteps(mid, s2, step + |s1|)
    ensures forall end :: Reaches(mid, s2, step + |s1|, end) ==> Reaches(slots, s1 + s2, step, end)
    decreases |s1|
  {
    if s1 == [] {
      assert s1 + s2 == s2;
    } else {
      assert (s1 + s2)[1..] == s1[1..] + s2;
      ReachesThen(ApplyStep(slots, s1[0], step).value.0, s1[1..], step + 1, mid, s2);
    }
  }

  /** The clause excluding the assignment of path to variables 1..|path|. */
  function Excluding(path: seq<bool>): (c: Clause)
    requires |path| <= I32_MAX
    ensures |c| == |path| && ValidClause(c)
    ensures forall i :: 0 <= i < |path| ==> c[i] as int == if path[i] then -(i + 1) else i + 1
  {
    seq(|path|, i requires 0 <= i < |path| => if path[i] then -(i + 1) else i + 1)
  }

  ghost predicate VarsBelow(cnf: Cnf, n: nat)
  {
    forall i, j :: 0 <= i < |cnf| && 0 <= j < |cnf[i]| ==> LitVar(cnf[i][j]) <= n
  }

  lemma NegatedExcluding(path: seq<bool>, l: int)
    requires |path| <= I32_MAX && l != 0
    ensures l in Negated(Excluding(path)) <==> LitVar(l) <= |path| && path[LitVar(l) - 1] == (l > 0)
    ensures !Tautology(Excluding(path))
  {
    var c := Excluding(path);
    if LitVar(l) <= |path| && path[LitVar(l) - 1] == (l > 0) {
      assert c[LitVar(l) - 1] in c;
      assert l == Neg(c[LitVar(l) - 1]);
    }
    if l in Negated(c) {
      var x :| x in c && l == Neg(x);
      var i :| 0 <= i < |c| && c[i] == x;
    }
  }

  predicate Chosen(path: seq<bool>, v: nat) { 1 <= v <= |path| && path[v - 1] }

  /** A total assignment falsifies some clause, and that clause alone refutes
      the assignment by RUP. */
  lemma LeafRup(cnf: Cnf, path: seq<bool>, slots: Slots, step: nat) returns (hints: seq<nat>)
    requires ValidCnf(cnf) && !Satisfiable(cnf) && VarsBelow(cnf, |path|) && |path| <= I32_MAX
    requires Loaded(cnf) <= slots
    ensures Rup(slots, Excluding(path), hints, step).Ok?
  {
    var alpha: Alpha := iset v: nat | Chosen(path, v);
    assert !SatAll(alpha, cnf);
    var k :| 0 <= k < |cnf| && !Sat(alpha, cnf[k]);
    hints := [k + 1];
    var c, I := cnf[k], Negated(Excluding(path));
    assert slots[k] == Loaded(cnf)[k];
    NegatedExcluding(path, 1);
    forall i | 0 <= i < |c| ensures Neg(c[i]) in I && c[i] as int !in I {
      assert !LitTrue(alpha, c[i]);
      NegatedExcluding(path, c[i]);
      NegatedExcluding(path, Neg(c[i]));
    }
    assert Open(I, c) == {};
    assert Classify(I, c) == Falsified;
  }

  /** Two clauses that exclude both extensions of a path refute the path:
      the first is unit on the new variable, the second is then falsified. */
  lemma JoinRup(path: seq<bool>, slots: Slots, idT: nat, idF: nat, step: nat)
    requires |path| < I32_MAX
    requires 0 < idT <= |slots| && slots[idT - 1] == Some(Excluding(path + [true]))
    requires 0 < idF <= |slots| && slots[idF - 1] == Some(Excluding(path + [false]))
    ensures Rup(slots, Excluding(path), [idF, idT], step).Ok?
  {
    var n, I := |path|, Negated(Excluding(path));
    var cT, cF := Excluding(path + [true]), Excluding(path + [false]);
    NegatedExcluding(path, 1);
    forall i | 0 <= i < n ensures cF[i] == cT[i] && Neg(cF[i]) in I && cF[i] as int !in I {
      NegatedExcluding(path, cF[i]);
      NegatedExcluding(path, Neg(cF[i]));
    }
    NegatedExcluding(path, n + 1);
    NegatedExcluding(path, -(n + 1));
    assert cF[n] == n + 1 && cF[n] in cF;
    assert Open(I, cF) == {n + 1};
    assert Classify(I, cF) == UnitOn(cF[n]);
    var I' := I + {n + 1};
    assert Neg(cT[n]) == n + 1;
    assert Open(I', cT) == {};
    forall i | 0 <= i < |cT| ensures cT[i] as int !in I' {}
    assert Classify(I', cT) == Falsified;
    assert RunHints(slots, I', [idT], step) == Ok(Unit);
    assert [idF, idT][1..] == [idT];
    assert I' == I + {cF[n] as int};
  }

  /** Steps after which the clause excluding a path passes the RUP check. */
  lemma {:induction false} Prepare(cnf: Cnf, n: nat, path: seq<bool>, slots: Slots, step: nat)
    returns (steps: seq<Step>, mid: Slots, hints: seq<nat>)
    requires ValidCnf(cnf) && !Satisfiable(cnf) && VarsBelow(cnf, n) && n <= I32_MAX
    requires |path| <= n && Loaded(cnf) <= slots
    ensures Reaches(slots, steps, step, mid) && slots <= mid
    ensures Rup(mid, Excluding(path), hints, step + |steps|).Ok?
    ensures |steps| == Pow2(n - |path| + 1) - 2
    decreases n - |path|, 0
  {
    hide Rup, Loaded, ValidCnf, Satisfiable, VarsBelow, Excluding;
    if |path| == n {
      hints := LeafRup(cnf, path, slots, step);
      mid, steps := slots, [];
    } else {
      var sT, midT := Derive(cnf, n, path + [true], slots, step);
      var sF, midF := Derive(cnf, n, path + [false], midT, step + |sT|);
      ReachesThen(slots, sT, step, midT, sF);
      mid, steps := midF, sT + sF;
      hints := [|midF|, |midT|];
      assert midF[|midT| - 1] == midT[|midT| - 1];
      JoinRup(path, midF, |midT|, |midF|, step + |steps|);
    }
  }

  /** Steps that derive the clause excluding a non-empty path. */
  lemma {:induction false} Derive(cnf: Cnf, n: nat, path: seq<bool>, slots: Slots, step: nat)
    returns (steps: seq<Step>, end: Slots)
    requires ValidCnf(cnf) && !Satisfiable(cnf) && VarsBelow(cnf, n) && n <= I32_MAX
    requires 0 < |path| <= n && Loaded(cnf) <= slots
    ensures Reaches(slots, steps, step, end)
    ensures slots < end && end[|end| - 1] == Some(Excluding(path))
    ensures |steps| == Pow2(n - |path| + 1) - 1
    decreases n - |path|, 1
  {
    var pre, mid, hints := Prepare(cnf, n, path, slots, step);
    var add := Add(|mid| + 1, Excluding(path), hints);
    end := mid + [Some(Excluding(path))];
    assert Excluding(path) != [];
    assert [add][1..] == [];
    assert Reaches(mid, [add], step + |pre|, end);
    ReachesThen(slots, pre, step, mid, [add]);
    steps := pre + [add];
  }

  /** COMPLETENESS: every unsatisfiable CNF of valid literals over variables
      1..n has an accepted refutation, of 2^(n+1) - 1 additions. */
  lemma RefutationComplete(cnf: Cnf, n: nat) returns (steps: seq<Step>)
    requires ValidCnf(cnf) && !Satisfiable(cnf) && VarsBelow(cnf, n) && n <= I32_MAX
    ensures Verdict(cnf, steps).Ok?
    ensures |steps| == Pow2(n + 1) - 1
  {
    var pre, mid, hints := Prepare(cnf, n, [], Loaded(cnf), 0);
    assert Excluding([]) == [];
    var last := [Add(|mid| + 1, [], hints)];
    assert RunSteps(mid, last, |pre|).Ok?;
    ReachesThen(Loaded(cnf), pre, 0, mid, last);
    steps := pre + last;
  }

  /** The checker decides exactly unsatisfiability: some step list is accepted
      if and only if the CNF is well-formed and unsatisfiable. */
  lemma RefutableIffUnsatisfiable(cnf: Cnf)
    ensures (exists steps :: Verdict(cnf, steps).Ok?) <==> ValidCnf(cnf) && !Satisfiable(cnf)
  {
    if exists steps :: Verdict(cnf, steps).Ok? {
      var steps :| Verdict(cnf, steps).Ok?;
      RefutationSound(cnf, steps);
    }
    if ValidCnf(cnf) && !Satisfiable(cnf) {
      var steps := RefutationComplete(cnf, I32_MAX);
    }
  }
}
