/**
  `enumerate_initial`: the nested minimise/block loop around the incremental
  solver. Every model found on the way down to a minimal set is blocked for
  good, and nothing is lost by it.
 */
module InitialSets {
  import opened Dung
  import opened Serialisation
  import opened Framework
  import opened Cnf
  import opened SatSolver
  import opened Encodings

  /** The active arguments that are true in the solver's model. */
  function Chosen(model: seq<bool>, members: seq<nat>): set<nat>
    requires Below(members, |model|)
  {
    set k | 0 <= k < |members| && model[members[k]] :: members[k]
  }

  ghost predicate Avoids(T: set<nat>, blocked: set<set<nat>>) {
    forall B :: B in blocked ==> !(B <= T)
  }

  /** The clauses are the encoding plus one blocking clause for each blocked set. */
  ghost predicate Represents(clauses: seq<Clause>, encoding: seq<Clause>, members: seq<nat>, blocked: set<set<nat>>) {
    forall tau :: Models(tau, clauses) <==> Models(tau, encoding) && Avoids(Accepted(tau, members), blocked)
  }

  ghost predicate Candidate(R: Relation, st: State, T: set<nat>) {
    Acceptable(R, st, T) && T != {}
  }

  /** A candidate that no blocking clause excludes. */
  ghost predicate Open(R: Relation, st: State, blocked: set<set<nat>>, T: set<nat>) {
    Candidate(R, st, T) && Avoids(T, blocked)
  }

  ghost function OpenSets(R: Relation, st: State, blocked: set<set<nat>>): set<set<nat>> {
    set T | T <= st.active && Open(R, st, blocked, T)
  }

  // ------------------------------------------------------------------- one solver call

  lemma ModelIsChosen(tau: Assignment, members: seq<nat>, n: nat)
    requires 2 * n <= INT32_MAX && Below(members, n)
    ensures Chosen(Values(tau, n), members) == Accepted(tau, members)
  {
  }

  /** A solver model accepts an open set. */
  lemma ModelIsOpen(af: AF, active: IterableBitSet, clauses: seq<Clause>, blocked: set<set<nat>>, tau: Assignment)
    requires af.Valid() && active.Over(af.args)
    requires Represents(clauses, Encoding(af.attackers, active.members, active.bitset), active.members, blocked)
    requires Models(tau, clauses)
    ensures Open(af.Attacks(), active.View(), blocked, Accepted(tau, active.members))
  {
    EncodingSound(tau, af.attackers, active.members, active.bitset);
  }

  /** Every open set is accepted by some model. */
  lemma OpenHasModel(af: AF, active: IterableBitSet, clauses: seq<Clause>, blocked: set<set<nat>>, T: set<nat>)
    returns (tau: Assignment)
    requires af.Valid() && active.Over(af.args)
    requires Represents(clauses, Encoding(af.attackers, active.members, active.bitset), active.members, blocked)
    requires Open(af.Attacks(), active.View(), blocked, T)
    ensures Models(tau, clauses) && Accepted(tau, active.members) == T
  {
    tau := EncodingComplete(af.attackers, active.members, active.bitset, T);
  }

  /** The loop over the active arguments after a SAT answer: a clause that excludes
      the supersets of the model, and assumptions that keep to its subsets. */
  method Narrow(af: AF, active: IterableBitSet, solver: CadicalSatSolver) returns (clause: Clause)
    requires af.Valid() && active.Over(af.args)
    requires |solver.model| == af.args && solver.assumptions == []
    modifies solver`assumptions
    ensures 0 !in clause
    ensures var M := Chosen(solver.model, active.members);
            && (forall tau :: Satisfies(tau, clause) <==> !(M <= Accepted(tau, active.members)))
            && (forall tau :: AllHold(tau, solver.assumptions) <==> Accepted(tau, active.members) <= M)
  {
    var members, model := active.members, solver.model;
    clause := [];
    for i := 0 to |members|
      invariant forall lit :: lit in clause <==>
                  exists k :: 0 <= k < i && model[members[k]] && lit == -AcceptedVar(members[k])
      invariant forall lit :: lit in solver.assumptions <==>
                  exists k :: 0 <= k < i && !model[members[k]] && lit == -AcceptedVar(members[k])
    {
      var arg := members[i];
      VariablesDistinct(af.args, arg, arg);
      if model[arg] {
        clause := clause + [-AcceptedVar(arg)];
      } else {
        solver.Assume(-AcceptedVar(arg));
      }
    }
    NarrowMeaning(af.args, members, model, clause, solver.assumptions);
  }

  lemma NarrowMeaning(args: nat, members: seq<nat>, model: seq<bool>, clause: Clause, assumptions: seq<int>)
    requires 2 * args <= INT32_MAX && |model| == args && Below(members, args) && NoDup(members)
    requires forall lit :: lit in clause <==>
               exists k :: 0 <= k < |members| && model[members[k]] && lit == -AcceptedVar(members[k])
    requires forall lit :: lit in assumptions <==>
               exists k :: 0 <= k < |members| && !model[members[k]] && lit == -AcceptedVar(members[k])
    ensures 0 !in clause
    ensures var M := Chosen(model, members);
            && (forall tau :: Satisfies(tau, clause) <==> !(M <= Accepted(tau, members)))
            && (forall tau :: AllHold(tau, assumptions) <==> Accepted(tau, members) <= M)
  {
    var M := Chosen(model, members);
    forall k | 0 <= k < |members|
      ensures AcceptedVar(members[k]) > 0
      ensures members[k] in M <==> model[members[k]]
    {
      VariablesDistinct(args, members[k], members[k]);
    }
    forall tau: Assignment
      ensures Satisfies(tau, clause) <==> !(M <= Accepted(tau, members))
      ensures AllHold(tau, assumptions) <==> Accepted(tau, members) <= M
    {
      ExcludesMeaning(tau, members, M, clause);
      KeepsMeaning(tau, members, M, assumptions);
    }
  }

  lemma ExcludesMeaning(tau: Assignment, members: seq<nat>, M: set<nat>, clause: Clause)
    requires forall k :: 0 <= k < |members| ==> AcceptedVar(members[k]) > 0
    requires M <= Elems(members)
    requires forall lit :: lit in clause <==>
               exists k :: 0 <= k < |members| && members[k] in M && lit == -AcceptedVar(members[k])
    ensures Satisfies(tau, clause) <==> !(M <= Accepted(tau, members))
  {
    if Satisfies(tau, clause) {
      var lit :| lit in clause && Holds(tau, lit);
      var k :| 0 <= k < |members| && members[k] in M && lit == -AcceptedVar(members[k]);
      assert members[k] !in Accepted(tau, members);
    }
    if a :| a in M && a !in Accepted(tau, members) {
      var k :| 0 <= k < |members| && members[k] == a;
      assert -AcceptedVar(members[k]) in clause && Holds(tau, -AcceptedVar(members[k]));
    }
  }

  lemma KeepsMeaning(tau: Assignment, members: seq<nat>, M: set<nat>, assumptions: seq<int>)
    requires forall k :: 0 <= k < |members| ==> AcceptedVar(members[k]) > 0
    requires forall lit :: lit in assumptions <==>
               exists k :: 0 <= k < |members| && members[k] !in M && lit == -AcceptedVar(members[k])
    ensures AllHold(tau, assumptions) <==> Accepted(tau, members) <= M
  {
    var S := Accepted(tau, members);
    if a :| a in S && a !in M {
      var k :| 0 <= k < |members| && members[k] == a;
      assert -AcceptedVar(members[k]) in assumptions && !Holds(tau, -AcceptedVar(members[k]));
    }
    if S <= M {
      forall lit | lit in assumptions
        ensures Holds(tau, lit)
      {
        var k :| 0 <= k < |members| && members[k] !in M && lit == -AcceptedVar(members[k]);
        assert members[k] !in S;
      }
    }
  }

  lemma AddBlockingClause(clauses: seq<Clause>, encoding: seq<Clause>, members: seq<nat>, blocked: set<set<nat>>,
                          clause: Clause, M: set<nat>)
    requires Represents(clauses, encoding, members, blocked)
    requires forall tau :: Satisfies(tau, clause) <==> !(M <= Accepted(tau, members))
    ensures Represents(clauses + [clause], encoding, members, blocked + {M})
  {
  }

  // ------------------------------------------------------------------ the inner loop

  /** `M` is the last set found on the way down: it was open before, and it is
      below every set blocked since. */
  ghost predicate Reached(R: Relation, st: State, before: set<set<nat>>, blocked: set<set<nat>>, M: set<nat>) {
    && Open(R, st, before, M)
    && before + {M} <= blocked
    && forall B :: B in blocked && B !in before ==> M <= B
  }

  /** When the last found set admits no open subset, it is minimal: blocking it
      and the larger sets above it has hidden nothing smaller. */
  lemma LastIsMinimal(R: Relation, st: State, before: set<set<nat>>, blocked: set<set<nat>>, M: set<nat>)
    requires Reached(R, st, before, blocked, M)
    requires forall T :: Open(R, st, blocked, T) ==> !(T <= M)
    ensures MinimalAcceptable(R, st, M)
  {
  }

  /** The first model found. */
  lemma ReachFirst(R: Relation, st: State, before: set<set<nat>>, M: set<nat>)
    requires Open(R, st, before, M)
    ensures Reached(R, st, before, before + {M}, M)
  {
  }

  /** A model found below the last one is strictly smaller. */
  lemma ReachNext(R: Relation, st: State, before: set<set<nat>>, blocked: set<set<nat>>, M: set<nat>, N: set<nat>)
    requires Reached(R, st, before, blocked, M)
    requires Open(R, st, blocked, N) && N <= M
    ensures Reached(R, st, before, blocked + {N}, N)
    ensures |N| < |M|
  {
    assert M in blocked && !(M <= N);
    ProperSubsetSize(N, M);
    forall B | B in before
      ensures !(B <= N)
    {
      assert B in blocked;
    }
    forall B | B in blocked + {N} && B !in before
      ensures N <= B
    {
      if B != N { assert M <= B; }
    }
  }

  /** Shrinks a model to a minimal one. Returns false iff no candidate is open. */
  method Minimise(af: AF, active: IterableBitSet, solver: CadicalSatSolver, ghost before: set<set<nat>>)
    returns (found: bool, ghost blocked: set<set<nat>>)
    requires af.Valid() && active.Over(af.args)
    requires solver.decisionVars == af.args && |solver.model| == af.args && solver.assumptions == []
    requires Represents(solver.clauses, Encoding(af.attackers, active.members, active.bitset), active.members, before)
    modifies solver
    ensures |solver.model| == af.args && solver.assumptions == []
    ensures Represents(solver.clauses, Encoding(af.attackers, active.members, active.bitset), active.members, blocked)
    ensures !found ==> blocked == before && forall T :: !Open(af.Attacks(), active.View(), before, T)
    ensures found ==>
              var M := Chosen(solver.model, active.members);
              && MinimalAcceptable(af.Attacks(), active.View(), M)
              && Reached(af.Attacks(), active.View(), before, blocked, M)
  {
    ghost var R, st := af.Attacks(), active.View();
    var members := active.members;
    ghost var encoding := Encoding(af.attackers, members, active.bitset);
    found, blocked := false, before;
    ghost var bound := st.active;
    while true
      invariant |solver.model| == af.args
      invariant Represents(solver.clauses, encoding, members, blocked)
      invariant forall tau :: AllHold(tau, solver.assumptions) <==> Accepted(tau, members) <= bound
      invariant !found ==> blocked == before && bound == st.active
      invariant found ==> bound == Chosen(solver.model, members) && Reached(R, st, before, blocked, bound)
      decreases !found, |bound|
    {
      var sat := solver.Solve();
      if sat == UNSAT_V {
        NoneBelow(af, active, solver.clauses, blocked, bound);
        if found { LastIsMinimal(R, st, before, blocked, bound); }
        break;
      }
      ghost var next := Chosen(solver.model, members);
      FoundBelow(af, active, solver.clauses, blocked, bound, solver.model);
      if found { ReachNext(R, st, before, blocked, bound, next); } else { ReachFirst(R, st, before, next); }
      found := true;
      bound := next;
      var clause := Narrow(af, active, solver);
      AddBlockingClause(solver.clauses, encoding, members, blocked, clause, bound);
      solver.AddClause(clause);
      blocked := blocked + {bound};
    }
  }

  /** What an UNSAT answer means when the assumptions keep below `bound`. */
  lemma NoneBelow(af: AF, active: IterableBitSet, clauses: seq<Clause>, blocked: set<set<nat>>, bound: set<nat>)
    requires af.Valid() && active.Over(af.args)
    requires Represents(clauses, Encoding(af.attackers, active.members, active.bitset), active.members, blocked)
    requires forall tau :: Models(tau, clauses) ==> !(Accepted(tau, active.members) <= bound)
    ensures forall T :: Open(af.Attacks(), active.View(), blocked, T) ==> !(T <= bound)
  {
    forall T | Open(af.Attacks(), active.View(), blocked, T)
      ensures !(T <= bound)
    {
      var tau := OpenHasModel(af, active, clauses, blocked, T);
    }
  }

  /** What a SAT answer means. */
  lemma FoundBelow(af: AF, active: IterableBitSet, clauses: seq<Clause>, blocked: set<set<nat>>, bound: set<nat>,
                   model: seq<bool>)
    requires af.Valid() && active.Over(af.args) && |model| == af.args
    requires Represents(clauses, Encoding(af.attackers, active.members, active.bitset), active.members, blocked)
    requires exists tau :: Models(tau, clauses) && Accepted(tau, active.members) <= bound && model == Values(tau, af.args)
    ensures Open(af.Attacks(), active.View(), blocked, Chosen(model, active.members))
    ensures Chosen(model, active.members) <= bound
  {
    var tau :| Models(tau, clauses) && Accepted(tau, active.members) <= bound && model == Values(tau, af.args);
    ModelIsChosen(tau, active.members, af.args);
    ModelIsOpen(af, active, clauses, blocked, tau);
  }

  lemma ProperSubsetSize(a: set<nat>, b: set<nat>)
    requires a <= b && !(b <= a)
    ensures |a| < |b|
  {
    var x :| x in b && x !in a;
    SubsetSize(a, b - {x});
  }

  // ------------------------------------------------------------------ the outer loop

  /** Every blocked set includes a returned one, and the returned ones are blocked. */
  ghost predicate Tracks(result: seq<seq<nat>>, blocked: set<set<nat>>) {
    && (forall i :: 0 <= i < |result| ==> Elems(result[i]) in blocked)
    && (forall B {:trigger Covers(result, B)} :: B in blocked ==> Covers(result, B))
  }

  /** Some returned set is included in `B`. */
  ghost predicate Covers(result: seq<seq<nat>>, B: set<nat>) {
    exists i :: 0 <= i < |result| && Elems(result[i]) <= B
  }

  /** The listed sets are minimal acceptable sets, in array order, each once. */
  ghost predicate ListsInitial(R: Relation, st: State, members: seq<nat>, result: seq<seq<nat>>) {
    && (forall i :: 0 <= i < |result| ==>
          && MinimalAcceptable(R, st, Elems(result[i]))
          && KeepsOrder(members, result[i]) && (NoDup(members) ==> NoDup(result[i])))
    && (forall i, j :: 0 <= i < j < |result| ==> Elems(result[i]) != Elems(result[j]))
  }

  ghost predicate AllInitial(R: Relation, st: State, result: seq<seq<nat>>) {
    forall S {:trigger Returned(result, S)} :: MinimalAcceptable(R, st, S) ==> Returned(result, S)
  }

  ghost predicate Returned(result: seq<seq<nat>>, S: set<nat>) {
    exists i :: 0 <= i < |result| && Elems(result[i]) == S
  }

  /** The invariant of the outer loop, as a statement about the clause set: its
      models accept exactly the candidates that include no returned set. */
  lemma ProjectedModels(af: AF, active: IterableBitSet, clauses: seq<Clause>, blocked: set<set<nat>>,
                        result: seq<seq<nat>>, T: set<nat>)
    requires af.Valid() && active.Over(af.args)
    requires Represents(clauses, Encoding(af.attackers, active.members, active.bitset), active.members, blocked)
    requires Tracks(result, blocked)
    ensures (exists tau :: Models(tau, clauses) && Accepted(tau, active.members) == T) <==>
            && Candidate(af.Attacks(), active.View(), T)
            && !Covers(result, T)
  {
    AvoidsResults(result, blocked, T);
    if tau :| Models(tau, clauses) && Accepted(tau, active.members) == T {
      ModelIsOpen(af, active, clauses, blocked, tau);
    }
    if Open(af.Attacks(), active.View(), blocked, T) {
      var tau := OpenHasModel(af, active, clauses, blocked, T);
    }
  }

  lemma AvoidsResults(result: seq<seq<nat>>, blocked: set<set<nat>>, T: set<nat>)
    requires Tracks(result, blocked)
    ensures Avoids(T, blocked) <==> !Covers(result, T)
  {
    if !Avoids(T, blocked) {
      var B :| B in blocked && B <= T;
      assert Covers(result, B);
      var i :| 0 <= i < |result| && Elems(result[i]) <= B;
      assert Elems(result[i]) <= T;
    }
  }

  /** The clause that the source keeps commented out would exclude nothing more. */
  lemma ComplementClauseRedundant(clauses: seq<Clause>, encoding: seq<Clause>, members: seq<nat>,
                                  blocked: set<set<nat>>, result: seq<seq<nat>>, i: nat, complement: Clause, tau: Assignment)
    requires Represents(clauses, encoding, members, blocked) && Tracks(result, blocked) && i < |result|
    requires forall lit :: lit in complement <==> exists a :: a in result[i] && lit == -AcceptedVar(a)
    requires Below(result[i], INT32_MAX) && forall a :: a in result[i] ==> a in members
    ensures Models(tau, clauses + [complement]) <==> Models(tau, clauses)
  {
    ModelsAppend(tau, clauses, [complement]);
    if Models(tau, clauses) {
      var S := Elems(result[i]);
      assert !(S <= Accepted(tau, members));
      var a :| a in S && a !in Accepted(tau, members);
      assert AcceptedVar(a) == a + 1;
      assert Holds(tau, -AcceptedVar(a)) && -AcceptedVar(a) in complement;
      assert Satisfies(tau, complement);
    }
  }

  lemma OutOfOpenSets(R: Relation, st: State, blocked: set<set<nat>>, result: seq<seq<nat>>)
    requires Tracks(result, blocked)
    requires forall i :: 0 <= i < |result| ==> MinimalAcceptable(R, st, Elems(result[i]))
    requires forall T :: !Open(R, st, blocked, T)
    ensures AllInitial(R, st, result)
  {
    forall S | MinimalAcceptable(R, st, S)
      ensures Returned(result, S)
    {
      assert !Open(R, st, blocked, S);
      AvoidsResults(result, blocked, S);
      var i :| 0 <= i < |result| && Elems(result[i]) <= S;
      assert Elems(result[i]) == S;
    }
  }

  lemma FewerOpen(R: Relation, st: State, before: set<set<nat>>, blocked: set<set<nat>>, M: set<nat>)
    requires before + {M} <= blocked && Open(R, st, before, M)
    ensures OpenSets(R, st, blocked) < OpenSets(R, st, before)
  {
    forall T | Open(R, st, blocked, T)
      ensures Open(R, st, before, T)
    {
    }
    assert M in OpenSets(R, st, before) && !Avoids(M, blocked);
  }

  lemma TracksMore(result: seq<seq<nat>>, before: set<set<nat>>, blocked: set<set<nat>>, e: seq<nat>)
    requires Tracks(result, before)
    requires before + {Elems(e)} <= blocked
    requires forall B :: B in blocked && B !in before ==> Elems(e) <= B
    ensures Tracks(result + [e], blocked)
  {
    var longer := result + [e];
    forall i | 0 <= i < |longer|
      ensures Elems(longer[i]) in blocked
    {
    }
    forall B | B in blocked
      ensures Covers(longer, B)
    {
      if B in before {
        assert Covers(result, B);
        var i :| 0 <= i < |result| && Elems(result[i]) <= B;
        assert longer[i] == result[i];
      } else {
        assert longer[|result|] == e;
      }
    }
  }

  /** The next set found is new: it includes no blocked set, and the returned ones
      are blocked. */
  lemma ListsMore(R: Relation, st: State, members: seq<nat>, result: seq<seq<nat>>, before: set<set<nat>>, e: seq<nat>)
    requires ListsInitial(R, st, members, result) && Tracks(result, before) && Avoids(Elems(e), before)
    requires MinimalAcceptable(R, st, Elems(e)) && KeepsOrder(members, e) && (NoDup(members) ==> NoDup(e))
    ensures ListsInitial(R, st, members, result + [e])
  {
  }

  /** The minimal acceptable sets of the active sub-framework, each exactly once. */
  method EnumerateInitial(af: AF, active: IterableBitSet) returns (result: seq<seq<nat>>)
    requires af.Valid() && active.Over(af.args)
    ensures ListsInitial(af.Attacks(), active.View(), active.members, result)
    ensures AllInitial(af.Attacks(), active.View(), result)
  {
    ghost var R, st := af.Attacks(), active.View();
    result := [];
    if active.members == [] {
      return;
    }
    var members := active.members;
    ghost var encoding := Encoding(af.attackers, members, active.bitset);
    var solver := new CadicalSatSolver(af.args);
    AdmissibleNonempty(af, active, solver);
    assert solver.clauses == encoding;
    ghost var blocked: set<set<nat>> := {};
    while true
      invariant solver.decisionVars == |solver.model| == af.args && solver.assumptions == []
      invariant Represents(solver.clauses, encoding, members, blocked)
      invariant Tracks(result, blocked)
      invariant ListsInitial(R, st, members, result)
      decreases OpenSets(R, st, blocked)
    {
      var found, nowBlocked := Minimise(af, active, solver, blocked);
      if found {
        var extension := Extract(solver.model, members);
        TracksMore(result, blocked, nowBlocked, extension);
        ListsMore(R, st, members, result, blocked, extension);
        FewerOpen(R, st, blocked, nowBlocked, Elems(extension));
        result := result + [extension];
        blocked := nowBlocked;
      } else {
        assert R == af.Attacks() && st == active.View();
        OutOfOpenSets(R, st, blocked, result);
        break;
      }
    }
  }

  /** Reads the found set off the solver's model, in array order. */
  method Extract(model: seq<bool>, members: seq<nat>) returns (extension: seq<nat>)
    requires Below(members, |model|)
    ensures Elems(extension) == Chosen(model, members)
    ensures KeepsOrder(members, extension) && (NoDup(members) ==> NoDup(extension))
  {
    extension := [];
    for i := 0 to |members|
      invariant extension == Select(members[..i], Chosen(model, members))
    {
      assert members[..i + 1][..i] == members[..i];
      assert members[i] in Chosen(model, members) <==> model[members[i]];
      if model[members[i]] {
        extension := extension + [members[i]];
      }
    }
    assert members[..|members|] == members;
    SelectAll(members, Chosen(model, members));
    SelectOrder(members, Chosen(model, members));
  }
}
