/**
  Abstract argumentation (Dung 1995) over a finite set of arguments.

  A framework is an attack relation `R`; every notion is relative to a set `A`
  of active arguments, the sub-framework that is still in play. These are the
  textbook definitions: nothing here refers to the solver or to sequences.
 */
module Dung {

  type Arg = nat
  type Relation = set<(Arg, Arg)>

  /** Some member of `S` attacks `b`. */
  ghost predicate Hits(R: Relation, S: set<Arg>, b: Arg) {
    exists a :: a in S && (a, b) in R
  }

  /** Some member of `S` attacks some member of `T`. */
  ghost predicate HitsSet(R: Relation, S: set<Arg>, T: set<Arg>) {
    exists b :: b in T && Hits(R, S, b)
  }

  ghost predicate ConflictFree(R: Relation, S: set<Arg>) {
    forall a, b :: a in S && b in S ==> (a, b) !in R
  }

  /** Every active attacker of `a` is attacked by `S`. */
  ghost predicate Defends(R: Relation, A: set<Arg>, S: set<Arg>, a: Arg) {
    forall b :: b in A && (b, a) in R ==> Hits(R, S, b)
  }

  ghost predicate Admissible(R: Relation, A: set<Arg>, S: set<Arg>) {
    && S <= A
    && ConflictFree(R, S)
    && forall a :: a in S ==> Defends(R, A, S, a)
  }

  /** Initial sets are the minimal non-empty admissible sets. */
  ghost predicate Initial(R: Relation, A: set<Arg>, S: set<Arg>) {
    && Admissible(R, A, S)
    && S != {}
    && forall T {:trigger Admissible(R, A, T)} :: T < S && T != {} ==> !Admissible(R, A, T)
  }

  ghost predicate Preferred(R: Relation, A: set<Arg>, S: set<Arg>) {
    && Admissible(R, A, S)
    && forall T {:trigger Admissible(R, A, T)} :: S < T ==> !Admissible(R, A, T)
  }

  ghost predicate Complete(R: Relation, A: set<Arg>, S: set<Arg>) {
    && Admissible(R, A, S)
    && forall a :: a in A && Defends(R, A, S, a) ==> a in S
  }

  ghost predicate Stable(R: Relation, A: set<Arg>, S: set<Arg>) {
    && S <= A
    && ConflictFree(R, S)
    && forall a :: a in A && a !in S ==> Hits(R, S, a)
  }

  /** The characteristic function of the sub-framework. */
  ghost function Characteristic(R: Relation, A: set<Arg>, S: set<Arg>): set<Arg> {
    set a | a in A && Defends(R, A, S, a)
  }

  /** The grounded extension is the least fixed point of `Characteristic`; it is
      even below every pre-fixed point. */
  ghost predicate Grounded(R: Relation, A: set<Arg>, G: set<Arg>) {
    && Characteristic(R, A, G) == G
    && forall X :: Characteristic(R, A, X) <= X ==> G <= X
  }

  /** Strong admissibility (Baroni and Giacomin): every member is defended by a
      strongly admissible subset that does not contain it. */
  ghost predicate StronglyAdmissible(R: Relation, A: set<Arg>, S: set<Arg>)
    decreases S, 2
  {
    && S <= A
    && forall a {:trigger Supported(R, A, S, a)} :: a in S ==> Supported(R, A, S, a)
  }

  ghost predicate Supported(R: Relation, A: set<Arg>, S: set<Arg>, a: Arg)
    decreases S, 1
  {
    exists T :: Supports(R, A, S, T, a)
  }

  ghost predicate Supports(R: Relation, A: set<Arg>, S: set<Arg>, T: set<Arg>, a: Arg)
    decreases S, 0
  {
    T < S && a !in T && StronglyAdmissible(R, A, T) && Defends(R, A, T, a)
  }

  /** The arguments that are neither in `S` nor attacked by it. */
  ghost function Reduct(R: Relation, A: set<Arg>, S: set<Arg>): set<Arg> {
    set b | b in A && b !in S && !Hits(R, S, b)
  }

  // ---------------------------------------------------------------- modularity

  /** Reducing twice is reducing by the union. */
  lemma ReductTwice(R: Relation, A: set<Arg>, S: set<Arg>, T: set<Arg>)
    ensures Reduct(R, Reduct(R, A, S), T) == Reduct(R, A, S + T)
  {
  }

  lemma ReductAntitone(R: Relation, A: set<Arg>, S: set<Arg>, T: set<Arg>)
    requires S <= T
    ensures Reduct(R, A, T) <= Reduct(R, A, S)
  {
  }

  /** One half of modularity: admissible sets of the reduct extend `S`. */
  lemma ExtendAdmissible(R: Relation, A: set<Arg>, S: set<Arg>, T: set<Arg>)
    requires Admissible(R, A, S) && Admissible(R, Reduct(R, A, S), T)
    ensures Admissible(R, A, S + T)
  {
  }

  /** The other half: what is left of an admissible superset is admissible. */
  lemma RestrictAdmissible(R: Relation, A: set<Arg>, S: set<Arg>, E: set<Arg>)
    requires S <= E && Admissible(R, A, E)
    ensures Admissible(R, Reduct(R, A, S), E - S)
  {
  }

  lemma HitsMonotone(R: Relation, S: set<Arg>, T: set<Arg>, b: Arg)
    requires S <= T && Hits(R, S, b)
    ensures Hits(R, T, b)
  {
  }

  /** Modularity of admissibility along an admissible set. */
  lemma Modularity(R: Relation, A: set<Arg>, S: set<Arg>, E: set<Arg>)
    requires Admissible(R, A, S) && S <= E
    ensures Admissible(R, A, E) <==> Admissible(R, Reduct(R, A, S), E - S)
  {
    if Admissible(R, A, E) {
      RestrictAdmissible(R, A, S, E);
    }
    if Admissible(R, Reduct(R, A, S), E - S) {
      ExtendAdmissible(R, A, S, E - S);
      assert S + (E - S) == E;
    }
  }

  // ---------------------------------------------------- sets and their reducts

  /** Every non-empty admissible set includes an initial set. */
  lemma InitialWithin(R: Relation, A: set<Arg>, E: set<Arg>) returns (S: set<Arg>)
    requires Admissible(R, A, E) && E != {}
    ensures S <= E && Initial(R, A, S)
    decreases E
  {
    if Initial(R, A, E) {
      S := E;
    } else {
      var T :| T < E && T != {} && Admissible(R, A, T);
      S := InitialWithin(R, A, T);
    }
  }

  /** An argument defended by an admissible set is in it, or in its reduct with
      no attacker left there; and conversely. */
  lemma DefendedMeansUnattackedInReduct(R: Relation, A: set<Arg>, E: set<Arg>, a: Arg)
    requires Admissible(R, A, E) && a in A && a !in E
    ensures Defends(R, A, E, a) <==>
            a in Reduct(R, A, E) && forall b :: b in Reduct(R, A, E) ==> (b, a) !in R
  {
  }

  /** An admissible set is complete exactly when its reduct has no unattacked
      argument. */
  lemma CompleteIffNoUnattacked(R: Relation, A: set<Arg>, E: set<Arg>)
    requires Admissible(R, A, E)
    ensures Complete(R, A, E) <==>
            forall a :: a in Reduct(R, A, E) ==> Hits(R, Reduct(R, A, E), a)
  {
    var Q := Reduct(R, A, E);
    forall a | a in A && a !in E
      ensures Defends(R, A, E, a) <==> a in Q && !Hits(R, Q, a)
    {
      DefendedMeansUnattackedInReduct(R, A, E, a);
    }
  }

  /** An admissible set is preferred exactly when its reduct has no initial set. */
  lemma PreferredIffNoInitial(R: Relation, A: set<Arg>, E: set<Arg>)
    requires Admissible(R, A, E)
    ensures Preferred(R, A, E) <==> forall S :: !Initial(R, Reduct(R, A, E), S)
  {
    var Q := Reduct(R, A, E);
    if S :| Initial(R, Q, S) {
      ExtendAdmissible(R, A, E, S);
      assert E < E + S;
    }
    if T :| E < T && Admissible(R, A, T) {
      RestrictAdmissible(R, A, E, T);
      var x :| x in T && x !in E;
      assert x in T - E;
      var S := InitialWithin(R, Q, T - E);
    }
  }

  /** An admissible set is stable exactly when its reduct is empty. */
  lemma StableIffReductEmpty(R: Relation, A: set<Arg>, E: set<Arg>)
    ensures Stable(R, A, E) <==> E <= A && ConflictFree(R, E) && Reduct(R, A, E) == {}
  {
    if Reduct(R, A, E) == {} {
      forall a | a in A && a !in E
        ensures Hits(R, E, a)
      {
        assert a !in Reduct(R, A, E);
      }
    }
  }

  lemma StableIsAdmissible(R: Relation, A: set<Arg>, E: set<Arg>)
    requires Stable(R, A, E)
    ensures Admissible(R, A, E)
  {
  }

  /** A strongly admissible set that is not exhausted by `U` has a member
      outside `U` that `U` defends. */
  lemma {:induction false} NextDefended(R: Relation, A: set<Arg>, E: set<Arg>, U: set<Arg>) returns (a: Arg)
    requires StronglyAdmissible(R, A, E) && !(E <= U)
    ensures a in E && a !in U && Defends(R, A, U, a)
    decreases E
  {
    a :| a in E && a !in U;
    assert Supported(R, A, E, a);
    var T :| Supports(R, A, E, T, a);
    if T <= U {
      forall b | b in A && (b, a) in R
        ensures Hits(R, U, b)
      {
        HitsMonotone(R, T, U, b);
      }
    } else {
      a := NextDefended(R, A, T, U);
    }
  }

  /** An unattacked argument is an initial set on its own. */
  lemma UnattackedIsInitial(R: Relation, A: set<Arg>, a: Arg)
    requires a in A && !Hits(R, A, a)
    ensures Initial(R, A, {a})
  {
  }
}
