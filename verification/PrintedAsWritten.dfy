/**
  What the entry points print with the reduct as the code computes it: what holds on
  every framework, and exactly when the output is the meant one.
 */
module PrintedAsWritten {
  import opened Dung
  import opened Serialisation
  import opened StaleBits
  import opened TasksAsWritten
  import opened AsMeant
  import opened Framework
  import opened Output
  import opened Enumeration

  /** Some printed sequence has union `E`. */
  ghost predicate HasUnion(printed: seq<Sequence>, E: set<Arg>) {
    exists w :: Listed(printed, w) && Union(w) == E
  }

  /** ES-AD prints every admissible set, and nothing else exactly when doubly attacked
      arguments never stand in for a defence. ES-PR prints meant sequences only exactly
      under the same condition; a union it prints is preferred iff it is repaired. */
  method AdmissibleSequencesAsWritten(af: AF, active: IterableBitSet, preferred: bool) returns (printed: seq<Sequence>)
    requires af.Valid() && active.Over(af.args) && active.View() == Full(Elems(active.members))
    ensures PrintedInOrder(active.members, printed)
    ensures !preferred ==> forall E :: Admissible(af.Attacks(), Elems(active.members), E) ==> HasUnion(printed, E)
    ensures !preferred ==>
              ((forall w :: Listed(printed, w) ==> Admissible(af.Attacks(), Elems(active.members), Union(w))) <==>
               NeverFalselyDefended(af.Attacks(), Elems(active.members)))
    ensures preferred ==>
              ((forall w :: Listed(printed, w) ==> Emitted(PR, Meant, af.Attacks(), active.View(), w)) <==>
               NeverFalselyDefended(af.Attacks(), Elems(active.members)))
    ensures preferred ==>
              forall w :: Listed(printed, w) ==>
                (Preferred(af.Attacks(), Elems(active.members), Union(w)) <==> Repaired(af.Attacks(), Elems(active.members), w))
  {
    assert Sets([]) == [];
    OrderlySelf(active.members);
    printed := EnumerateSequencesAdmissible(AsWritten, active.members, af, active, preferred, []);
    ListedInOrder(active.members, printed, Runs(if preferred then PR else AD, AsWritten, af.Attacks(), active.View()));
    ghost var R, A := af.Attacks(), Elems(active.members);
    ListedRuns(active.members, printed, if preferred then PR else AD, AsWritten, R, Full(A));
    if preferred { PrintedByPreferred(printed, R, A); } else { PrintedByAdmissible(printed, R, A); }
  }

  lemma PrintedByAdmissible(printed: seq<Sequence>, R: Relation, A: set<Arg>)
    requires forall w :: Listed(printed, w) <==> Emitted(AD, AsWritten, R, Full(A), w)
    ensures forall E :: Admissible(R, A, E) ==> HasUnion(printed, E)
    ensures (forall w :: Listed(printed, w) ==> Admissible(R, A, Union(w))) <==> NeverFalselyDefended(R, A)
  {
    forall E | Admissible(R, A, E)
      ensures HasUnion(printed, E)
    {
      AdmissibleIsPrinted(R, A, E);
    }
    SoundIffAsMeant(R, A);
  }

  lemma PrintedByPreferred(printed: seq<Sequence>, R: Relation, A: set<Arg>)
    requires forall w :: Listed(printed, w) <==> Emitted(PR, AsWritten, R, Full(A), w)
    ensures (forall w :: Listed(printed, w) ==> Emitted(PR, Meant, R, Full(A), w)) <==> NeverFalselyDefended(R, A)
    ensures forall w :: Listed(printed, w) ==> (Preferred(R, A, Union(w)) <==> Repaired(R, A, w))
  {
    PreferredAsWrittenIff(R, A);
    forall w | Listed(printed, w)
      ensures Preferred(R, A, Union(w)) <==> Repaired(R, A, w)
    {
      PrintedPreferred(R, A, w);
    }
  }

  /** ES-CO prints every complete extension, and meant sequences only exactly when ES-AD
      is sound and no run is stopped by masked arguments alone. */
  method CompleteSequencesAsWritten(af: AF, active: IterableBitSet) returns (printed: seq<Sequence>)
    requires af.Valid() && active.Over(af.args) && active.View() == Full(Elems(active.members))
    ensures PrintedInOrder(active.members, printed)
    ensures forall E :: Complete(af.Attacks(), Elems(active.members), E) ==> HasUnion(printed, E)
    ensures (forall w :: Listed(printed, w) ==> Emitted(CO, Meant, af.Attacks(), active.View(), w)) <==>
            && NeverFalselyDefended(af.Attacks(), Elems(active.members))
            && NeverAllHidden(af.Attacks(), Elems(active.members))
    ensures NeverFalselyDefended(af.Attacks(), Elems(active.members)) ==>
              ((forall w :: Listed(printed, w) ==> Complete(af.Attacks(), Elems(active.members), Union(w))) <==>
               NeverAllHidden(af.Attacks(), Elems(active.members)))
  {
    assert Sets([]) == [];
    OrderlySelf(active.members);
    printed := EnumerateSequencesComplete(AsWritten, active.members, af, active, []);
    ListedInOrder(active.members, printed, Runs(CO, AsWritten, af.Attacks(), active.View()));
    ghost var R, A := af.Attacks(), Elems(active.members);
    ListedRuns(active.members, printed, CO, AsWritten, R, Full(A));
    PrintedByComplete(printed, R, A);
  }

  lemma PrintedByComplete(printed: seq<Sequence>, R: Relation, A: set<Arg>)
    requires forall w :: Listed(printed, w) <==> Emitted(CO, AsWritten, R, Full(A), w)
    ensures forall E :: Complete(R, A, E) ==> HasUnion(printed, E)
    ensures (forall w :: Listed(printed, w) ==> Emitted(CO, Meant, R, Full(A), w)) <==>
            NeverFalselyDefended(R, A) && NeverAllHidden(R, A)
    ensures NeverFalselyDefended(R, A) ==>
              ((forall w :: Listed(printed, w) ==> Complete(R, A, Union(w))) <==> NeverAllHidden(R, A))
  {
    forall E | Complete(R, A, E)
      ensures HasUnion(printed, E)
    {
      CompleteIsPrinted(R, A, E);
    }
    CompleteAsWrittenIff(R, A);
    if NeverFalselyDefended(R, A) { CompleteSoundIff(R, A); }
  }

  /** ES-ST prints every stable extension, and meant sequences only exactly when runs
      with a false step get stuck; a union it prints is stable iff it is repaired. */
  method StableSequencesAsWritten(af: AF, active: IterableBitSet) returns (printed: seq<Sequence>)
    requires af.Valid() && active.Over(af.args) && active.View() == Full(Elems(active.members))
    ensures PrintedInOrder(active.members, printed)
    ensures forall E :: Stable(af.Attacks(), Elems(active.members), E) ==> HasUnion(printed, E)
    ensures (forall w :: Listed(printed, w) ==> Emitted(ST, Meant, af.Attacks(), active.View(), w)) <==>
            FalseStepsGetStuck(af.Attacks(), Elems(active.members))
    ensures forall w :: Listed(printed, w) ==>
              (Stable(af.Attacks(), Elems(active.members), Union(w)) <==> Repaired(af.Attacks(), Elems(active.members), w))
  {
    assert Sets([]) == [];
    OrderlySelf(active.members);
    printed := EnumerateSequencesStable(AsWritten, active.members, af, active, []);
    ListedInOrder(active.members, printed, Runs(ST, AsWritten, af.Attacks(), active.View()));
    ghost var R, A := af.Attacks(), Elems(active.members);
    ListedRuns(active.members, printed, ST, AsWritten, R, Full(A));
    PrintedByStable(printed, R, A);
  }

  lemma PrintedByStable(printed: seq<Sequence>, R: Relation, A: set<Arg>)
    requires forall w :: Listed(printed, w) <==> Emitted(ST, AsWritten, R, Full(A), w)
    ensures forall E :: Stable(R, A, E) ==> HasUnion(printed, E)
    ensures (forall w :: Listed(printed, w) ==> Emitted(ST, Meant, R, Full(A), w)) <==> FalseStepsGetStuck(R, A)
    ensures forall w :: Listed(printed, w) ==> (Stable(R, A, Union(w)) <==> Repaired(R, A, w))
  {
    forall E | Stable(R, A, E)
      ensures HasUnion(printed, E)
    {
      StableIsPrinted(R, A, E);
    }
    StableAsWrittenIff(R, A);
    forall w | Listed(printed, w)
      ensures Stable(R, A, Union(w)) <==> Repaired(R, A, w)
    {
      PrintedStable(R, A, w);
    }
  }

  /** Every union ES-SA prints is strongly admissible. ES-GR prints the grounded
      extension exactly when some meant sequence for it has no masked step, and nothing
      else exactly when masked arguments alone never stop it. */
  method StronglyAdmissibleSequencesAsWritten(af: AF, active: IterableBitSet, grounded: bool)
    returns (printed: seq<Sequence>)
    requires af.Valid() && active.Over(af.args) && active.View() == Full(Elems(active.members))
    ensures PrintedInOrder(active.members, printed) && InArrayOrder(active.members, printed)
    ensures forall w :: Listed(printed, w) ==> StronglyAdmissible(af.Attacks(), Elems(active.members), Union(w))
    ensures !grounded ==>
              forall w :: Listed(printed, w) <==>
                Emitted(SA, Meant, af.Attacks(), active.View(), w) && Unmasked(af.Attacks(), Elems(active.members), w)
    ensures grounded ==>
              ((exists w :: Listed(printed, w) && Grounded(af.Attacks(), Elems(active.members), Union(w))) <==>
               exists w :: Emitted(GR, Meant, af.Attacks(), active.View(), w) && Unmasked(af.Attacks(), Elems(active.members), w))
    ensures grounded ==>
              ((forall w :: Listed(printed, w) ==> Grounded(af.Attacks(), Elems(active.members), Union(w))) <==>
               NeverStoppedEarly(af.Attacks(), Elems(active.members)))
  {
    assert Sets([]) == [];
    OrderlySelf(active.members);
    printed := EnumerateSequencesStronglyAdmissible(AsWritten, active.members, af, active, grounded, []);
    ListedInOrder(active.members, printed, Runs(if grounded then GR else SA, AsWritten, af.Attacks(), active.View()));
    ghost var R, A := af.Attacks(), Elems(active.members);
    ListedRuns(active.members, printed, if grounded then GR else SA, AsWritten, R, Full(A));
    if grounded { PrintedByGrounded(printed, R, A); } else { PrintedByStrong(printed, R, A); }
  }

  lemma PrintedByStrong(printed: seq<Sequence>, R: Relation, A: set<Arg>)
    requires forall w :: Listed(printed, w) <==> Emitted(SA, AsWritten, R, Full(A), w)
    ensures forall w :: Listed(printed, w) <==> Emitted(SA, Meant, R, Full(A), w) && Unmasked(R, A, w)
    ensures forall w :: Listed(printed, w) ==> StronglyAdmissible(R, A, Union(w))
  {
    forall w: seq<set<Arg>>
      ensures Listed(printed, w) <==> Emitted(SA, Meant, R, Full(A), w) && Unmasked(R, A, w)
      ensures Listed(printed, w) ==> StronglyAdmissible(R, A, Union(w))
    {
      StrongAsWrittenIff(R, A, w);
      if Listed(printed, w) { StrongSoundAsWritten(R, A, w); }
    }
  }

  lemma PrintedByGrounded(printed: seq<Sequence>, R: Relation, A: set<Arg>)
    requires forall w :: Listed(printed, w) <==> Emitted(GR, AsWritten, R, Full(A), w)
    ensures forall w :: Listed(printed, w) ==> StronglyAdmissible(R, A, Union(w))
    ensures (exists w :: Listed(printed, w) && Grounded(R, A, Union(w))) <==>
            exists w :: Emitted(GR, Meant, R, Full(A), w) && Unmasked(R, A, w)
    ensures (forall w :: Listed(printed, w) ==> Grounded(R, A, Union(w))) <==> NeverStoppedEarly(R, A)
  {
    forall w | Listed(printed, w)
      ensures StronglyAdmissible(R, A, Union(w))
    {
      assert Emitted(SA, AsWritten, R, Full(A), w);
      StrongSoundAsWritten(R, A, w);
    }
    GroundedPrintedIff(R, A);
    GroundedSoundIff(R, A);
  }

  /** ES-UC prints the meant sequences exactly when the filter always keeps the same
      sets, and admissible unions only exactly when it keeps no falsely defended set;
      with `maximal` a printed union is complete iff it is repaired. */
  method UnchallengedSequencesAsWritten(af: AF, active: IterableBitSet, maximal: bool) returns (printed: seq<Sequence>)
    requires af.Valid() && active.Over(af.args) && active.View() == Full(Elems(active.members))
    ensures PrintedInOrder(active.members, printed)
    ensures (forall w :: Listed(printed, w) <==> Emitted(UC(maximal), Meant, af.Attacks(), active.View(), w)) <==>
            KeepsTheSame(af.Attacks(), Elems(active.members))
    ensures !maximal ==>
              ((forall w :: Listed(printed, w) ==> Admissible(af.Attacks(), Elems(active.members), Union(w))) <==>
               KeepsDefended(af.Attacks(), Elems(active.members)))
    ensures maximal ==>
              forall w :: Listed(printed, w) ==>
                (Complete(af.Attacks(), Elems(active.members), Union(w)) <==> Repaired(af.Attacks(), Elems(active.members), w))
  {
    assert Sets([]) == [];
    OrderlySelf(active.members);
    printed := EnumerateSequencesUnchallenged(AsWritten, active.members, af, active, maximal, []);
    ListedInOrder(active.members, printed, Runs(UC(maximal), AsWritten, af.Attacks(), active.View()));
    ghost var R, A := af.Attacks(), Elems(active.members);
    ListedRuns(active.members, printed, UC(maximal), AsWritten, R, Full(A));
    PrintedByUnchallenged(printed, R, A, maximal);
  }

  lemma PrintedByUnchallenged(printed: seq<Sequence>, R: Relation, A: set<Arg>, maximal: bool)
    requires forall w :: Listed(printed, w) <==> Emitted(UC(maximal), AsWritten, R, Full(A), w)
    ensures (forall w :: Listed(printed, w) <==> Emitted(UC(maximal), Meant, R, Full(A), w)) <==> KeepsTheSame(R, A)
    ensures !maximal ==> ((forall w :: Listed(printed, w) ==> Admissible(R, A, Union(w))) <==> KeepsDefended(R, A))
    ensures maximal ==> forall w :: Listed(printed, w) ==> (Complete(R, A, Union(w)) <==> Repaired(R, A, w))
  {
    UnchallengedAsWrittenIff(R, A, maximal);
    UnchallengedSoundIff(R, A);
    if maximal {
      forall w | Listed(printed, w)
        ensures Complete(R, A, Union(w)) <==> Repaired(R, A, w)
      {
        PrintedUnchallenged(R, A, w);
      }
    }
  }

  /** AS-AD prints something for every credulously accepted argument, and for no other
      where ES-AD is sound. */
  method ArgumentSequencesAsWritten(af: AF, active: IterableBitSet, argument: nat) returns (printed: seq<Sequence>)
    requires af.Valid() && active.Over(af.args) && active.View() == Full(Elems(active.members))
    ensures Lists(active.members, printed, [], AnswersOf(AsWritten, af.Attacks(), active.View(), argument))
    ensures (exists E :: Admissible(af.Attacks(), Elems(active.members), E) && argument in E) ==> printed != []
    ensures NeverFalselyDefended(af.Attacks(), Elems(active.members)) && printed != [] ==>
              exists E :: Admissible(af.Attacks(), Elems(active.members), E) && argument in E
  {
    assert Sets([]) == [];
    OrderlySelf(active.members);
    printed := SequencesArgumentAdmissible(AsWritten, active.members, af, active, argument, []);
    PrintedByQuery(active.members, printed, af.Attacks(), Elems(active.members), argument);
  }

  lemma PrintedByQuery(order: seq<nat>, printed: seq<Sequence>, R: Relation, A: set<Arg>, q: Arg)
    requires Lists(order, printed, [], AnswersOf(AsWritten, R, Full(A), q))
    ensures (exists E :: Admissible(R, A, E) && q in E) ==> printed != []
    ensures NeverFalselyDefended(R, A) && printed != [] ==> exists E :: Admissible(R, A, E) && q in E
  {
    if E :| Admissible(R, A, E) && q in E {
      CredulousIsAnswered(R, A, E, q);
      var w :| Answers(AsWritten, R, Full(A), q, w);
      assert Listed(printed, [] + w);
    }
    if NeverFalselyDefended(R, A) && printed != [] {
      var w := Sets(printed[0]);
      assert w[0..] == w;
      AnswersAsMeantIff(R, A);
      assert Answers(Meant, R, Full(A), q, w);
      QueryIsCredulous(R, A, q);
    }
  }
}
