/** Clauses over DIMACS literals and what it means to satisfy them. */
module Dimacs {
  const I32_MAX: int := 0x7FFF_FFFF
  const I32_MIN: int := -0x8000_0000

  type I32 = x: int | -0x8000_0000 <= x <= 0x7FFF_FFFF

  type Clause = seq<I32>
  type Cnf = seq<Clause>

  /** A total assignment: the set of true variables. */
  type Alpha = iset<nat>

  /** A literal whose variable and negation are meaningful. */
  predicate ValidLit(l: int) { l != 0 && I32_MIN < l <= I32_MAX }

  predicate ValidClause(c: Clause) { forall i :: 0 <= i < |c| ==> ValidLit(c[i]) }

  predicate ValidCnf(cnf: Cnf) { forall i :: 0 <= i < |cnf| ==> ValidClause(cnf[i]) }

  /** The complement of a literal. */
  function Neg(l: int): int { -l }

  function LitVar(l: int): nat { if l >= 0 then l else -l }

  ghost predicate LitTrue(alpha: Alpha, l: int) { if l > 0 then l in alpha else Neg(l) !in alpha }

  ghost predicate Sat(alpha: Alpha, c: Clause) { exists i :: 0 <= i < |c| && LitTrue(alpha, c[i]) }

  ghost predicate SatAll(alpha: Alpha, cnf: Cnf) { forall i :: 0 <= i < |cnf| ==> Sat(alpha, cnf[i]) }

  ghost predicate Satisfiable(cnf: Cnf) { exists alpha: Alpha :: SatAll(alpha, cnf) }
}
