/** Clauses over integer literals and their satisfaction. */
module Cnf {

  /** A non-zero literal; the negative of a variable is its negation. */
  type Clause = seq<int>

  /** The set of variables that are true. */
  type Assignment = set<int>

  predicate Holds(tau: Assignment, lit: int) {
    if lit > 0 then lit in tau else -lit !in tau
  }

  predicate Satisfies(tau: Assignment, c: Clause) {
    exists lit :: lit in c && Holds(tau, lit)
  }

  predicate Models(tau: Assignment, f: seq<Clause>) {
    forall c :: c in f ==> Satisfies(tau, c)
  }

  /** Every assignment that satisfies `f` satisfies `c`. */
  ghost predicate Implies(f: iset<Clause>, c: Clause) {
    forall tau :: ModelsAll(tau, f) ==> Satisfies(tau, c)
  }

  ghost predicate ModelsAll(tau: Assignment, f: iset<Clause>) {
    forall c :: c in f ==> Satisfies(tau, c)
  }

  lemma ModelsAppend(tau: Assignment, f: seq<Clause>, g: seq<Clause>)
    ensures Models(tau, f + g) <==> Models(tau, f) && Models(tau, g)
  {
  }
}
