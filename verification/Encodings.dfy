/**
  The CNF encoding of "non-empty admissible set of the active sub-framework",
  with one variable for acceptance and one for rejection of each argument.
 */
module Encodings {
  import opened Dung
  import opened Serialisation
  import opened Framework
  import opened Cnf
  import opened SatSolver

  // ----------------------------------------------------------- the clauses, listed

  /** Accepting `arg` rejects its first `j` attackers whose bit is set. */
  function RejectClauses(args: nat, arg: nat, atts: seq<nat>, bits: seq<bool>, j: nat): seq<Clause>
    requires j <= |atts| && Below(atts, |bits|)
  {
    if j == 0 then []
    else
      RejectClauses(args, arg, atts, bits, j - 1) +
      (if bits[atts[j - 1]] then [[-AcceptedVar(arg), RejectedVar(args, atts[j - 1])]] else [])
  }

  /** The acceptance variables of those attackers. */
  function AttackerLits(atts: seq<nat>, bits: seq<bool>, j: nat): Clause
    requires j <= |atts| && Below(atts, |bits|)
  {
    if j == 0 then []
    else AttackerLits(atts, bits, j - 1) + (if bits[atts[j - 1]] then [AcceptedVar(atts[j - 1])] else [])
  }

  function ArgumentClauses(args: nat, arg: nat, atts: seq<nat>, bits: seq<bool>): seq<Clause>
    requires Below(atts, |bits|)
  {
    [[-AcceptedVar(arg), -RejectedVar(args, arg)]] +
    RejectClauses(args, arg, atts, bits, |atts|) +
    [AttackerLits(atts, bits, |atts|) + [-RejectedVar(args, arg)]]
  }

  function AllArgumentClauses(attackers: seq<seq<nat>>, members: seq<nat>, bits: seq<bool>, i: nat): seq<Clause>
    requires i <= |members| && ListsWithin(attackers, |bits|)
    requires Below(members, |bits|)
  {
    if i == 0 then []
    else
      AllArgumentClauses(attackers, members, bits, i - 1) +
      ArgumentClauses(|bits|, members[i - 1], attackers[members[i - 1]], bits)
  }

  function NonEmptyClause(members: seq<nat>, i: nat): Clause
    requires i <= |members|
  {
    if i == 0 then [] else NonEmptyClause(members, i - 1) + [AcceptedVar(members[i - 1])]
  }

  function Encoding(attackers: seq<seq<nat>>, members: seq<nat>, bits: seq<bool>): seq<Clause>
    requires ListsWithin(attackers, |bits|)
    requires Below(members, |bits|)
  {
    AllArgumentClauses(attackers, members, bits, |members|) + [NonEmptyClause(members, |members|)]
  }

  lemma {:induction false} LitsNonZero(members: seq<nat>, bits: seq<bool>, i: nat)
    requires 2 * |bits| <= INT32_MAX && i <= |members|
    requires Below(members, |bits|)
    ensures 0 !in AttackerLits(members, bits, i) && 0 !in NonEmptyClause(members, i)
  {
    if i > 0 {
      LitsNonZero(members, bits, i - 1);
      VariablesDistinct(|bits|, members[i - 1], members[i - 1]);
    }
  }

  /** The body of the outer loop: the clauses of one argument. */
  method EncodeArgument(args: nat, arg: nat, atts: seq<nat>, bits: seq<bool>, solver: CadicalSatSolver)
    requires args == |bits| && 2 * args <= INT32_MAX && arg < args && Below(atts, args)
    modifies solver`clauses
    ensures solver.clauses == old(solver.clauses) + ArgumentClauses(args, arg, atts, bits)
  {
    VariablesDistinct(args, arg, arg);
    solver.AddClause2(-AcceptedVar(arg), -RejectedVar(args, arg));
    ghost var before := solver.clauses;
    var outClause := [];
    for j := 0 to |atts|
      invariant outClause == AttackerLits(atts, bits, j)
      invariant solver.clauses == before + RejectClauses(args, arg, atts, bits, j)
    {
      if bits[atts[j]] {
        VariablesDistinct(args, atts[j], atts[j]);
        solver.AddClause2(-AcceptedVar(arg), RejectedVar(args, atts[j]));
        outClause := outClause + [AcceptedVar(atts[j])];
      }
    }
    LitsNonZero(atts, bits, |atts|);
    outClause := outClause + [-RejectedVar(args, arg)];
    solver.AddClause(outClause);
  }

  method AdmissibleNonempty(af: AF, active: IterableBitSet, solver: CadicalSatSolver)
    requires af.Valid() && active.Over(af.args)
    modifies solver`clauses
    ensures solver.clauses == old(solver.clauses) + Encoding(af.attackers, active.members, active.bitset)
  {
    var members, bits := active.members, active.bitset;
    var nonEmptyClause := [];
    for i := 0 to |members|
      invariant nonEmptyClause == NonEmptyClause(members, i)
      invariant solver.clauses == old(solver.clauses) + AllArgumentClauses(af.attackers, members, bits, i)
    {
      nonEmptyClause := nonEmptyClause + [AcceptedVar(members[i])];
      EncodeArgument(af.args, members[i], af.attackers[members[i]], bits, solver);
    }
    LitsNonZero(members, bits, |members|);
    solver.AddClause(nonEmptyClause);
  }

  // ----------------------------------------------------------- the clauses, meaning

  predicate IsAccepted(tau: Assignment, a: nat) {
    AcceptedVar(a) in tau
  }

  predicate IsRejected(args: nat, tau: Assignment, a: nat) {
    RejectedVar(args, a) in tau
  }

  /** The accepted active arguments of an assignment. */
  function Accepted(tau: Assignment, members: seq<nat>): set<nat> {
    set a | a in members && AcceptedVar(a) in tau
  }

  /** What an assignment has to respect at one argument. */
  ghost predicate Respects(args: nat, tau: Assignment, a: nat, atts: seq<nat>, bits: seq<bool>)
    requires Below(atts, |bits|)
  {
    && !(IsAccepted(tau, a) && IsRejected(args, tau, a))
    && (IsAccepted(tau, a) ==> forall b :: b in atts && bits[b] ==> IsRejected(args, tau, b))
    && (IsRejected(args, tau, a) ==> exists b :: b in atts && bits[b] && IsAccepted(tau, b))
  }

  lemma {:induction false} RejectMeaning(tau: Assignment, arg: nat, atts: seq<nat>, bits: seq<bool>, j: nat)
    requires 2 * |bits| <= INT32_MAX && arg < |bits| && j <= |atts|
    requires Below(atts, |bits|)
    ensures Models(tau, RejectClauses(|bits|, arg, atts, bits, j)) <==>
            forall k :: 0 <= k < j && bits[atts[k]] && IsAccepted(tau, arg) ==> IsRejected(|bits|, tau, atts[k])
  {
    if j > 0 {
      RejectMeaning(tau, arg, atts, bits, j - 1);
      var b := atts[j - 1];
      VariablesDistinct(|bits|, arg, b);
      var c := [-AcceptedVar(arg), RejectedVar(|bits|, b)];
      ModelsAppend(tau, RejectClauses(|bits|, arg, atts, bits, j - 1), if bits[b] then [c] else []);
      PairMeaning(tau, -AcceptedVar(arg), RejectedVar(|bits|, b));
      assert Models(tau, [c]) <==> Satisfies(tau, c) by { assert c in [c]; }
    }
  }

  lemma PairMeaning(tau: Assignment, x: int, y: int)
    ensures Satisfies(tau, [x, y]) <==> Holds(tau, x) || Holds(tau, y)
  {
  }

  lemma {:induction false} AttackerMeaning(tau: Assignment, atts: seq<nat>, bits: seq<bool>, j: nat)
    requires 2 * |bits| <= INT32_MAX && j <= |atts|
    requires Below(atts, |bits|)
    ensures Satisfies(tau, AttackerLits(atts, bits, j)) <==>
            exists k :: 0 <= k < j && bits[atts[k]] && IsAccepted(tau, atts[k])
  {
    if j > 0 {
      AttackerMeaning(tau, atts, bits, j - 1);
      VariablesDistinct(|bits|, atts[j - 1], atts[j - 1]);
      SatisfiesAppend(tau, AttackerLits(atts, bits, j - 1), AcceptedVar(atts[j - 1]));
      assert AttackerLits(atts, bits, j - 1) + [] == AttackerLits(atts, bits, j - 1);
    }
  }

  lemma SatisfiesAppend(tau: Assignment, c: Clause, lit: int)
    ensures Satisfies(tau, c + [lit]) <==> Satisfies(tau, c) || Holds(tau, lit)
  {
  }

  lemma ArgumentMeaning(tau: Assignment, arg: nat, atts: seq<nat>, bits: seq<bool>)
    requires 2 * |bits| <= INT32_MAX && arg < |bits|
    requires Below(atts, |bits|)
    ensures Models(tau, ArgumentClauses(|bits|, arg, atts, bits)) <==> Respects(|bits|, tau, arg, atts, bits)
  {
    var args := |bits|;
    VariablesDistinct(args, arg, arg);
    var first := [-AcceptedVar(arg), -RejectedVar(args, arg)];
    var last := AttackerLits(atts, bits, |atts|) + [-RejectedVar(args, arg)];
    ModelsAppend(tau, [first] + RejectClauses(args, arg, atts, bits, |atts|), [last]);
    ModelsAppend(tau, [first], RejectClauses(args, arg, atts, bits, |atts|));
    PairMeaning(tau, -AcceptedVar(arg), -RejectedVar(args, arg));
    RejectMeaning(tau, arg, atts, bits, |atts|);
    AttackerMeaning(tau, atts, bits, |atts|);
    SatisfiesAppend(tau, AttackerLits(atts, bits, |atts|), -RejectedVar(args, arg));
    assert Models(tau, [first]) <==> Satisfies(tau, first) by { assert first in [first]; }
    assert Models(tau, [last]) <==> Satisfies(tau, last) by { assert last in [last]; }
  }

  lemma {:induction false} AllArgumentsMeaning(tau: Assignment, attackers: seq<seq<nat>>, members: seq<nat>, bits: seq<bool>, i: nat)
    requires 2 * |bits| <= INT32_MAX && i <= |members| && ListsWithin(attackers, |bits|)
    requires Below(members, |bits|)
    ensures Models(tau, AllArgumentClauses(attackers, members, bits, i)) <==>
            forall k :: 0 <= k < i ==> Respects(|bits|, tau, members[k], attackers[members[k]], bits)
  {
    if i > 0 {
      AllArgumentsMeaning(tau, attackers, members, bits, i - 1);
      var a := members[i - 1];
      ModelsAppend(tau, AllArgumentClauses(attackers, members, bits, i - 1), ArgumentClauses(|bits|, a, attackers[a], bits));
      ArgumentMeaning(tau, a, attackers[a], bits);
    }
  }

  lemma {:induction false} NonEmptyMeaning(tau: Assignment, args: nat, members: seq<nat>, i: nat)
    requires 2 * args <= INT32_MAX && i <= |members| && Below(members, args)
    ensures Satisfies(tau, NonEmptyClause(members, i)) <==> exists k :: 0 <= k < i && IsAccepted(tau, members[k])
  {
    if i > 0 {
      NonEmptyMeaning(tau, args, members, i - 1);
      VariablesDistinct(args, members[i - 1], members[i - 1]);
      SatisfiesAppend(tau, NonEmptyClause(members, i - 1), AcceptedVar(members[i - 1]));
    }
  }

  /** The whole formula, read as a condition on acceptance and rejection. */
  lemma EncodingMeaning(tau: Assignment, attackers: seq<seq<nat>>, members: seq<nat>, bits: seq<bool>)
    requires 2 * |bits| <= INT32_MAX && ListsWithin(attackers, |bits|)
    requires Below(members, |bits|)
    ensures Models(tau, Encoding(attackers, members, bits)) <==>
            && (forall a :: a in members ==> Respects(|bits|, tau, a, attackers[a], bits))
            && Accepted(tau, members) != {}
  {
    var all, last := AllArgumentClauses(attackers, members, bits, |members|), NonEmptyClause(members, |members|);
    ModelsAppend(tau, all, [last]);
    assert Models(tau, [last]) <==> Satisfies(tau, last) by { assert last in [last]; }
    AllArgumentsMeaning(tau, attackers, members, bits, |members|);
    NonEmptyMeaning(tau, |bits|, members, |members|);
    if Accepted(tau, members) != {} {
      var a :| a in Accepted(tau, members);
      var k :| 0 <= k < |members| && members[k] == a;
      assert IsAccepted(tau, members[k]);
    }
    if k :| 0 <= k < |members| && IsAccepted(tau, members[k]) {
      assert members[k] in Accepted(tau, members);
    }
  }

  // --------------------------------------------------------------------- exactness

  /** Every satisfying assignment accepts a non-empty acceptable set. */
  lemma EncodingSound(tau: Assignment, attackers: seq<seq<nat>>, members: seq<nat>, bits: seq<bool>)
    requires 2 * |bits| <= INT32_MAX && ListsWithin(attackers, |bits|)
    requires Marked(members, bits)
    requires Models(tau, Encoding(attackers, members, bits))
    ensures Acceptable(RelationOf(attackers), ViewOf(members, bits), Accepted(tau, members))
    ensures Accepted(tau, members) != {}
  {
    var args, R, st, S := |bits|, RelationOf(attackers), ViewOf(members, bits), Accepted(tau, members);
    EncodingMeaning(tau, attackers, members, bits);
    RelationMeans(attackers);
    forall a, b | a in S && b in S
      ensures (b, a) !in R
    {
      assert Respects(args, tau, a, attackers[a], bits) && Respects(args, tau, b, attackers[b], bits);
    }
    forall a | a in S
      ensures Defends(R, st.active, S + st.stale, a)
    {
      forall b | b in st.active && (b, a) in R
        ensures Hits(R, S + st.stale, b)
      {
        assert Respects(args, tau, a, attackers[a], bits);
        assert IsRejected(args, tau, b);
        assert Respects(args, tau, b, attackers[b], bits);
        var c :| c in attackers[b] && bits[c] && IsAccepted(tau, c);
        assert c in S + st.stale && (c, b) in R;
      }
    }
  }

  /** The assignment that shows an acceptable set: stale arguments are both
      accepted and rejected, which no clause forbids. */
  ghost function Witness(args: nat, R: Relation, st: State, S: set<nat>): Assignment {
    AcceptedVars(S + st.stale) + RejectedVars(args, RejectedBy(R, st, S))
  }

  ghost function RejectedBy(R: Relation, st: State, S: set<nat>): set<nat> {
    st.stale + set b | b in st.active && b !in S && Hits(R, S + st.stale, b)
  }

  ghost function AcceptedVars(S: set<nat>): set<int> {
    set a | a in S :: AcceptedVar(a)
  }

  ghost function RejectedVars(args: nat, S: set<nat>): set<int> {
    set a | a in S :: RejectedVar(args, a)
  }

  lemma WitnessValues(args: nat, X: set<nat>, Y: set<nat>, a: nat)
    requires 2 * args <= INT32_MAX && a < args
    requires (forall x :: x in X ==> x < args) && forall y :: y in Y ==> y < args
    ensures IsAccepted(AcceptedVars(X) + RejectedVars(args, Y), a) <==> a in X
    ensures IsRejected(args, AcceptedVars(X) + RejectedVars(args, Y), a) <==> a in Y
  {
  }

  /** Every non-empty acceptable set is accepted by a satisfying assignment. */
  lemma EncodingComplete(attackers: seq<seq<nat>>, members: seq<nat>, bits: seq<bool>, S: set<nat>)
    returns (tau: Assignment)
    requires 2 * |bits| <= INT32_MAX && ListsWithin(attackers, |bits|)
    requires Marked(members, bits)
    requires Acceptable(RelationOf(attackers), ViewOf(members, bits), S) && S != {}
    ensures Models(tau, Encoding(attackers, members, bits))
    ensures Accepted(tau, members) == S
  {
    var args, R, st := |bits|, RelationOf(attackers), ViewOf(members, bits);
    tau := Witness(args, R, st, S);
    forall a: nat | a < args
      ensures IsAccepted(tau, a) <==> a in S + st.stale
      ensures IsRejected(args, tau, a) <==> a in st.stale || (a in st.active && a !in S && Hits(R, S + st.stale, a))
    {
      WitnessValues(args, S + st.stale, RejectedBy(R, st, S), a);
    }
    forall a | a in members
      ensures Respects(args, tau, a, attackers[a], bits)
    {
      RespectsAt(R, st, tau, attackers, members, bits, S, a);
    }
    assert Accepted(tau, members) == S by {
      forall a: nat
        ensures a in Accepted(tau, members) <==> a in S
      {
        if a in members { assert IsAccepted(tau, a) <==> a in S; }
      }
    }
    EncodingMeaning(tau, attackers, members, bits);
  }

  lemma RespectsAt(R: Relation, st: State, tau: Assignment, attackers: seq<seq<nat>>, members: seq<nat>,
                   bits: seq<bool>, S: set<nat>, a: nat)
    requires ListsWithin(attackers, |bits|) && R == RelationOf(attackers) && st == ViewOf(members, bits)
    requires Marked(members, bits)
    requires Acceptable(R, st, S) && a in members
    requires forall x: nat :: x < |bits| ==> (IsAccepted(tau, x) <==> x in S + st.stale)
    requires forall x: nat :: x < |bits| ==>
               (IsRejected(|bits|, tau, x) <==> x in st.stale || (x in st.active && x !in S && Hits(R, S + st.stale, x)))
    ensures Respects(|bits|, tau, a, attackers[a], bits)
  {
    RelationMeans(attackers);
    assert forall b :: b in attackers[a] <==> (b, a) in R;
  }
}
