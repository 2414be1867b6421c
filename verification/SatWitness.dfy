/** The SAT twin of the refutation checker: satisfying assignments and the
    model bindings read off them. */
module SatWitness {
  import opened Wrappers
  import opened Bits
  import opened Dimacs
  import Lrat
  import LratTheorems

  datatype SatWitnessError =
    | InvalidCnfLiteral(clauseIndex: nat)
    | AssignmentTooShort(variable: nat)
    | UnsatisfiedClause(clauseIndex: nat)
    | BindingMismatch(bit: nat)
    | BindingTooWide(bits: nat)

  /** A literal the assignment gives a value to; a[v - 1] is variable v. */
  predicate Usable(l: I32, a: seq<bool>) { ValidLit(l) && LitVar(l) <= |a| }

  predicate Holds(l: I32, a: seq<bool>)
    requires Usable(l, a)
  {
    a[LitVar(l) - 1] == (l > 0)
  }

  /** The first i literals are usable and false: the scan passes over them. */
  predicate Skips(c: Clause, a: seq<bool>, i: nat)
  {
    i <= |c| && forall j :: 0 <= j < i ==> Usable(c[j], a) && !Holds(c[j], a)
  }

  /** The scan stops at literal i because it is true. */
  predicate TrueAt(c: Clause, a: seq<bool>, i: nat)
  {
    i < |c| && Skips(c, a, i) && Usable(c[i], a) && Holds(c[i], a)
  }

  predicate Accepts(c: Clause, a: seq<bool>) { exists i :: 0 <= i < |c| && TrueAt(c, a, i) }

  /** Why literal l stops a scan of clause k. */
  function Complaint(l: I32, k: nat): SatWitnessError
  {
    if !ValidLit(l) then InvalidCnfLiteral(k) else AssignmentTooShort(LitVar(l))
  }

  ghost function AlphaOf(a: seq<bool>): Alpha { iset v: nat | LratTheorems.Chosen(a, v) }

  method ClauseSatisfied(c: Clause, a: seq<bool>, k: nat) returns (r: Result<bool, SatWitnessError>)
    ensures r.Ok? ==> if r.value then Accepts(c, a) else Skips(c, a, |c|)
    ensures r.Err? ==> exists i :: 0 <= i < |c| && Skips(c, a, i) && !Usable(c[i], a) && r.error == Complaint(c[i], k)
  {
    var sat := false;
    var i := 0;
    while !sat && i < |c|
      invariant 0 <= i <= |c|
      invariant if sat then Accepts(c, a) else Skips(c, a, i)
    {
      var lit := c[i];
      if lit == 0 || lit == I32_MIN { return Err(InvalidCnfLiteral(k)); }
      var v := LitVar(lit);
      if v > |a| { return Err(AssignmentTooShort(v)); }
      var value := a[v - 1];
      if (lit > 0 && value) || (lit < 0 && !value) {
        assert TrueAt(c, a, i);
        sat := true;
      }
      i := i + 1;
    }
    return Ok(sat);
  }

  /** Accept iff every clause has a true literal with only usable, false
      literals before it; the first clause without one is reported. */
  method CheckSat(cnf: Cnf, a: seq<bool>) returns (r: Result<Unit, SatWitnessError>)
    ensures r.Ok? <==> forall k :: 0 <= k < |cnf| ==> Accepts(cnf[k], a)
    ensures r.Err? ==>
              exists k :: 0 <= k < |cnf| && (forall j :: 0 <= j < k ==> Accepts(cnf[j], a)) &&
                          ((r.error == UnsatisfiedClause(k) && Skips(cnf[k], a, |cnf[k]|)) ||
                           exists i :: 0 <= i < |cnf[k]| && Skips(cnf[k], a, i) && !Usable(cnf[k][i], a) &&
                                       r.error == Complaint(cnf[k][i], k))
  {
    for k := 0 to |cnf|
      invariant forall j :: 0 <= j < k ==> Accepts(cnf[j], a)
    {
      var sat := ClauseSatisfied(cnf[k], a, k);
      if sat.Err? { return Err(sat.error); }
      if !sat.value { return Err(UnsatisfiedClause(k)); }
    }
    return Ok(Unit);
  }

  /** SOUNDNESS: an accepted assignment satisfies the CNF. */
  lemma WitnessSound(cnf: Cnf, a: seq<bool>)
    requires forall k :: 0 <= k < |cnf| ==> Accepts(cnf[k], a)
    ensures SatAll(AlphaOf(a), cnf)
  {
    forall k | 0 <= k < |cnf| ensures Sat(AlphaOf(a), cnf[k]) {
      var i :| 0 <= i < |cnf[k]| && TrueAt(cnf[k], a, i);
      assert LitTrue(AlphaOf(a), cnf[k][i]);
    }
  }

  /** Over a CNF all of whose literals are usable, acceptance is satisfaction. */
  lemma WitnessExact(cnf: Cnf, a: seq<bool>)
    requires forall k, i :: 0 <= k < |cnf| && 0 <= i < |cnf[k]| ==> Usable(cnf[k][i], a)
    ensures (forall k :: 0 <= k < |cnf| ==> Accepts(cnf[k], a)) <==> SatAll(AlphaOf(a), cnf)
  {
    if forall k :: 0 <= k < |cnf| ==> Accepts(cnf[k], a) {
      WitnessSound(cnf, a);
    }
    if SatAll(AlphaOf(a), cnf) {
      forall k | 0 <= k < |cnf| ensures Accepts(cnf[k], a) {
        var c := cnf[k];
        var t :| 0 <= t < |c| && LitTrue(AlphaOf(a), c[t]);
        FirstTrue(c, a, 0, t);
      }
    }
  }

  lemma {:induction false} FirstTrue(c: Clause, a: seq<bool>, i: nat, t: nat)
    requires Skips(c, a, i) && i <= t < |c| && LitTrue(AlphaOf(a), c[t])
    requires forall j :: 0 <= j < |c| ==> Usable(c[j], a)
    ensures Accepts(c, a)
    decreases t - i
  {
    if Holds(c[i], a) {
      assert TrueAt(c, a, i);
    } else {
      assert Skips(c, a, i + 1);
      FirstTrue(c, a, i + 1, t);
    }
  }

  /** No CNF has both an accepted refutation and an accepted assignment. */
  lemma VerdictsExclusive(cnf: Cnf, steps: seq<Lrat.Step>, a: seq<bool>)
    requires Lrat.Verdict(cnf, steps).Ok?
    ensures exists k :: 0 <= k < |cnf| && !Accepts(cnf[k], a)
  {
    if forall k :: 0 <= k < |cnf| ==> Accepts(cnf[k], a) {
      WitnessSound(cnf, a);
      LratTheorems.RefutationSound(cnf, steps);
    }
  }

  // ---------- model bindings ----------

  function BitOf(value: nat, k: nat): bool { value / Pow2(k) % 2 == 1 }

  /** Bit k of value is the truth value of literal bits[k]. */
  predicate Bound(a: seq<bool>, bits: seq<I32>, value: nat, k: nat)
    requires k < |bits|
  {
    Usable(bits[k], a) && Holds(bits[k], a) == BitOf(value, k)
  }

  /** Check one model binding; nothing is said of value's bits from |bits| on. */
  method CheckBinding(a: seq<bool>, bits: seq<I32>, value: nat) returns (r: Result<Unit, SatWitnessError>)
    ensures r.Ok? <==> |bits| <= 128 && forall k :: 0 <= k < |bits| ==> Bound(a, bits, value, k)
    ensures r.Err? ==>
              (|bits| > 128 && r.error == BindingTooWide(|bits|)) ||
              exists k :: 0 <= k < |bits| && !Bound(a, bits, value, k) &&
                          (forall j :: 0 <= j < k ==> Bound(a, bits, value, j)) &&
                          r.error == if Usable(bits[k], a) then BindingMismatch(k) else Complaint(bits[k], k)
  {
    if |bits| > 128 { return Err(BindingTooWide(|bits|)); }
    for k := 0 to |bits|
      invariant forall j :: 0 <= j < k ==> Bound(a, bits, value, j)
    {
      var lit := bits[k];
      ghost var agrees := Bound(a, bits, value, k);
      if lit == 0 || lit == I32_MIN { return Err(InvalidCnfLiteral(k)); }
      var v := LitVar(lit);
      if v > |a| { return Err(AssignmentTooShort(v)); }
      var bit := value / Pow2(k) % 2;
      if lit > 0 {
        if a[v - 1] {
          if bit != 1 { return Err(BindingMismatch(k)); }
        } else if bit != 0 {
          return Err(BindingMismatch(k));
        }
      } else if a[v - 1] {
        if bit != 0 { return Err(BindingMismatch(k)); }
      } else if bit != 1 {
        return Err(BindingMismatch(k));
      }
    }
    return Ok(Unit);
  }
}
