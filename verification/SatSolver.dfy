/**
  The wrapper around the incremental SAT solver. Clauses are permanent,
  assumptions last for one call, and `model` is only rebuilt when the call
  answers SAT. The search itself is an exhaustive one; callers only see the
  contract of `Solve`, which any solver meets.
 */
module SatSolver {
  import opened Cnf

  const SAT_V := 10
  const UNSAT_V := 20

  ghost predicate AllHold(tau: Assignment, lits: seq<int>) {
    forall lit :: lit in lits ==> Holds(tau, lit)
  }

  /** The values of variables 1 to `n`. */
  function Values(tau: Assignment, n: nat): seq<bool> {
    seq(n, i => (i + 1) in tau)
  }

  function Abs(lit: int): nat {
    if lit < 0 then -lit else lit
  }

  function ClauseVariables(c: Clause): (vs: seq<int>)
    ensures forall lit :: lit in c ==> Abs(lit) in vs
  {
    if c == [] then [] else [Abs(c[0])] + ClauseVariables(c[1..])
  }

  /** The variables of the clauses, possibly with repetitions. */
  function Variables(f: seq<Clause>): (vs: seq<int>)
    ensures forall c, lit :: c in f && lit in c ==> Abs(lit) in vs
  {
    if f == [] then []
    else
      assert forall c :: c in f ==> c == f[0] || c in f[1..];
      ClauseVariables(f[0]) + Variables(f[1..])
  }

  /** Satisfaction only depends on the variables that occur. */
  lemma RestrictModel(tau: Assignment, f: seq<Clause>, vs: set<int>)
    requires forall c, lit :: c in f && lit in c ==> Abs(lit) in vs
    requires Models(tau, f)
    ensures Models(tau * vs, f)
  {
  }

  /** Tries every assignment that extends `tau` by some of `vars`. */
  method Search(f: seq<Clause>, vars: seq<int>, tau: Assignment) returns (found: bool, m: Assignment)
    ensures found ==> Models(m, f)
    ensures !found ==> forall s: set<int> :: (forall v :: v in s ==> v in vars) ==> !Models(tau + s, f)
    decreases |vars|
  {
    m := tau;
    if vars == [] {
      found := Models(tau, f);
      if !found {
        forall s: set<int> | forall v :: v in s ==> v in vars
          ensures !Models(tau + s, f)
        {
          assert s == {} by { assert forall v :: v !in s; }
          assert tau + s == tau;
        }
      }
    } else {
      found, m := Search(f, vars[1..], tau);
      if !found {
        found, m := Search(f, vars[1..], tau + {vars[0]});
        if !found {
          forall s: set<int> | forall v :: v in s ==> v in vars
            ensures !Models(tau + s, f)
          {
            var rest := s - {vars[0]};
            assert forall v :: v in rest ==> v in vars[1..];
            if vars[0] in s {
              assert tau + s == tau + {vars[0]} + rest;
            } else {
              assert s == rest;
            }
          }
        }
      }
    }
  }

  class CadicalSatSolver {
    var clauses: seq<Clause>
    var assumptions: seq<int>
    var model: seq<bool>
    const decisionVars: nat

    constructor (nArgs: nat)
      ensures clauses == [] && assumptions == [] && decisionVars == nArgs
      ensures model == seq(nArgs, _ => false)
    {
      clauses, assumptions, decisionVars := [], [], nArgs;
      model := seq(nArgs, _ => false);
    }

    method AddClause(clause: Clause)
      requires 0 !in clause
      modifies this`clauses
      ensures clauses == old(clauses) + [clause]
    {
      clauses := clauses + [clause];
    }

    method AddClause2(lit1: int, lit2: int)
      requires lit1 != 0 && lit2 != 0
      modifies this`clauses
      ensures clauses == old(clauses) + [[lit1, lit2]]
    {
      clauses := clauses + [[lit1, lit2]];
    }

    method Assume(lit: int)
      requires lit != 0
      modifies this`assumptions
      ensures assumptions == old(assumptions) + [lit]
    {
      assumptions := assumptions + [lit];
    }

    /** Decides the clauses under the assumptions, which are then dropped. After
        an UNSAT answer `model` is still the one of the last SAT answer. */
    method Solve() returns (sat: int)
      modifies this`assumptions, this`model
      ensures assumptions == []
      ensures sat == SAT_V || sat == UNSAT_V
      ensures sat == SAT_V ==> exists tau ::
                Models(tau, clauses) && AllHold(tau, old(assumptions)) && model == Values(tau, decisionVars)
      ensures sat == UNSAT_V ==>
                && model == old(model)
                && forall tau :: Models(tau, clauses) ==> !AllHold(tau, old(assumptions))
    {
      var units := seq(|assumptions|, i requires 0 <= i < |assumptions| reads this => [assumptions[i]]);
      var f := clauses + units;
      forall tau: Assignment
        ensures Models(tau, f) <==> Models(tau, clauses) && AllHold(tau, assumptions)
      {
        ModelsAppend(tau, clauses, units);
        UnitsHold(tau, assumptions, units);
      }
      var vars := Variables(f);
      var found, m := Search(f, vars, {});
      if found {
        model := Values(m, decisionVars);
        sat := SAT_V;
      } else {
        forall tau: Assignment
          ensures !Models(tau, f)
        {
          var vs := set v | v in vars;
          assert {} + tau * vs == tau * vs;
          assert !Models(tau * vs, f);
          if Models(tau, f) { RestrictModel(tau, f, vs); }
        }
        sat := UNSAT_V;
      }
      assumptions := [];
    }
  }

  lemma UnitsHold(tau: Assignment, lits: seq<int>, units: seq<Clause>)
    requires |units| == |lits| && forall i :: 0 <= i < |lits| ==> units[i] == [lits[i]]
    ensures Models(tau, units) <==> AllHold(tau, lits)
  {
    if Models(tau, units) {
      forall lit | lit in lits
        ensures Holds(tau, lit)
      {
        var i :| 0 <= i < |lits| && lits[i] == lit;
        assert units[i] in units && Satisfies(tau, units[i]);
      }
    }
    if AllHold(tau, lits) {
      forall c | c in units
        ensures Satisfies(tau, c)
      {
        var i :| 0 <= i < |units| && units[i] == c;
        assert c[0] == lits[i] && c[0] in c;
      }
    }
  }
}
