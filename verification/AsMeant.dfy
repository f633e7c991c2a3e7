/**
  Exactly when each recursion, with the reduct the code computes, prints what is
  meant. The conditions speak of the attack relation and of meant runs; only the one
  for ES-ST follows runs as written, after their first false step.
 */
module AsMeant {
  import opened Dung
  import opened Serialisation
  import opened StaleBits
  import opened TasksAsWritten

  // ------------------------------------------------------- runs that go on until they stop

  lemma {:induction false} PathConcat(rule: ChoiceRule, mode: Mode, R: Relation, st: State,
                                      v: seq<set<Arg>>, w: seq<set<Arg>>)
    ensures Path(rule, mode, R, st, v + w) <==>
            Path(rule, mode, R, st, v) && Path(rule, mode, R, After(mode, R, st, v), w)
    ensures After(mode, R, st, v + w) == After(mode, R, After(mode, R, st, v), w)
    decreases |v|
  {
    if v == [] {
      assert v + w == w;
    } else {
      PathConcat(rule, mode, R, Next(mode, R, st, v[0]), v[1..], w);
      assert (v + w)[1..] == v[1..] + w;
    }
  }

  /** Every run is the beginning of one that stops because nothing is on offer. */
  lemma ContinueToStop(rule: ChoiceRule, mode: Mode, R: Relation, st: State, w: seq<set<Arg>>) returns (x: seq<set<Arg>>)
    requires Path(rule, mode, R, st, w)
    ensures Emitted(Task(rule, NoChoiceLeft), mode, R, st, w + x)
  {
    x := RunToStop(rule, mode, R, After(mode, R, st, w));
    PathConcat(rule, mode, R, st, w, x);
  }

  ghost predicate PrintsOnlyMeant(task: Task, R: Relation, A: set<Arg>) {
    forall w :: Emitted(task, AsWritten, R, Full(A), w) ==> Emitted(task, Meant, R, Full(A), w)
  }

  ghost predicate SameRuns(rule: ChoiceRule, R: Relation, A: set<Arg>) {
    forall w :: Path(rule, AsWritten, R, Full(A), w) <==> Path(rule, Meant, R, Full(A), w)
  }

  /** If all maximal runs in one mode are runs in the other, so are all runs. */
  lemma MaximalRunsDecide(rule: ChoiceRule, mode: Mode, other: Mode, R: Relation, A: set<Arg>, w: seq<set<Arg>>)
    requires forall v :: Emitted(Task(rule, NoChoiceLeft), mode, R, Full(A), v) ==> Path(rule, other, R, Full(A), v)
    requires Path(rule, mode, R, Full(A), w)
    ensures Path(rule, other, R, Full(A), w)
  {
    var x := ContinueToStop(rule, mode, R, Full(A), w);
    PathPrefix(rule, other, R, Full(A), w + x, |w|);
    assert (w + x)[..|w|] == w;
  }

  /** With the same runs, the same ones stop. */
  lemma SameRunsSameStops(rule: ChoiceRule, R: Relation, A: set<Arg>, w: seq<set<Arg>>)
    requires SameRuns(rule, R, A) && Path(rule, Meant, R, Full(A), w)
    ensures forall S :: Choice(rule, R, After(AsWritten, R, Full(A), w), S) <==>
                        Choice(rule, R, After(Meant, R, Full(A), w), S)
  {
    forall S: set<Arg>
      ensures Choice(rule, R, After(AsWritten, R, Full(A), w), S) <==> Choice(rule, R, After(Meant, R, Full(A), w), S)
    {
      PathSnoc(rule, AsWritten, R, Full(A), w, S);
      PathSnoc(rule, Meant, R, Full(A), w, S);
    }
  }

  /** A recursion that prints its maximal runs prints the meant ones exactly when all
      its runs are the meant ones. */
  lemma MaximalAsMeantIff(rule: ChoiceRule, R: Relation, A: set<Arg>)
    ensures PrintsAsMeant(Task(rule, NoChoiceLeft), R, A) <==> SameRuns(rule, R, A)
  {
    if PrintsAsMeant(Task(rule, NoChoiceLeft), R, A) {
      forall w: seq<set<Arg>>
        ensures Path(rule, AsWritten, R, Full(A), w) <==> Path(rule, Meant, R, Full(A), w)
      {
        if Path(rule, AsWritten, R, Full(A), w) { MaximalRunsDecide(rule, AsWritten, Meant, R, A, w); }
        if Path(rule, Meant, R, Full(A), w) { MaximalRunsDecide(rule, Meant, AsWritten, R, A, w); }
      }
    }
    if SameRuns(rule, R, A) {
      forall w: seq<set<Arg>>
        ensures Emitted(Task(rule, NoChoiceLeft), AsWritten, R, Full(A), w) <==>
                Emitted(Task(rule, NoChoiceLeft), Meant, R, Full(A), w)
      {
        if Path(rule, Meant, R, Full(A), w) { SameRunsSameStops(rule, R, A, w); }
      }
    }
  }

  // ----------------------------------------------------------------------------- ES-PR

  lemma SameRunsIff(R: Relation, A: set<Arg>)
    ensures SameRuns(AnyInitial, R, A) <==> NeverFalselyDefended(R, A)
  {
    SoundIffAsMeant(R, A);
    assert PrintsAsMeant(AD, R, A) <==> SameRuns(AnyInitial, R, A) by {
      forall w: seq<set<Arg>>, mode: Mode
        ensures Emitted(AD, mode, R, Full(A), w) <==> Path(AnyInitial, mode, R, Full(A), w)
      {
      }
    }
  }

  /** ES-PR prints the meant sequences, or even only meant sequences, exactly when
      ES-AD is sound. */
  lemma PreferredAsWrittenIff(R: Relation, A: set<Arg>)
    ensures PrintsAsMeant(PR, R, A) <==> NeverFalselyDefended(R, A)
    ensures PrintsOnlyMeant(PR, R, A) <==> NeverFalselyDefended(R, A)
  {
    MaximalAsMeantIff(AnyInitial, R, A);
    SameRunsIff(R, A);
    if PrintsOnlyMeant(PR, R, A) {
      OnlyMeantIsSound(R, A);
    }
  }

  lemma OnlyMeantIsSound(R: Relation, A: set<Arg>)
    requires forall v :: Emitted(PR, AsWritten, R, Full(A), v) ==> Path(AnyInitial, Meant, R, Full(A), v)
    ensures NeverFalselyDefended(R, A)
  {
    forall w | Path(AnyInitial, AsWritten, R, Full(A), w)
      ensures Admissible(R, A, Union(w))
    {
      MaximalRunsDecide(AnyInitial, AsWritten, Meant, R, A, w);
      PathIsAdmissible(AnyInitial, R, A, w);
    }
    SoundIffAsMeant(R, A);
  }

  /** A run for a preferred extension is printed by ES-PR exactly when its last stale
      bits help to defend nothing that is left. */
  lemma PreferredStopAsWritten(R: Relation, A: set<Arg>, w: seq<set<Arg>>)
    requires Path(AnyInitial, AsWritten, R, Full(A), w) && Preferred(R, A, Union(w))
    ensures Emitted(PR, AsWritten, R, Full(A), w) <==> NoFalseDefence(R, After(AsWritten, R, Full(A), w))
  {
    var st := After(AsWritten, R, Full(A), w);
    SameActive(R, A, w);
    PreferredIffNoInitial(R, A, Union(w));
    if Emitted(PR, AsWritten, R, Full(A), w) {
      forall S: set<Arg>
        ensures !(S != {} && Acceptable(R, st, S))
      {
        if S != {} && Acceptable(R, st, S) { AcceptableIsOffered(R, st, S); }
      }
    }
    if NoFalseDefence(R, st) {
      InitialSetsCorrectIff(R, st);
      assert forall S :: !Choice(AnyInitial, R, st, S);
    }
  }

  // ----------------------------------------------------------------------------- ES-ST

  /** A run of initial sets that is also offered as written. */
  ghost predicate CommonRun(R: Relation, A: set<Arg>, w: seq<set<Arg>>) {
    Path(AnyInitial, Meant, R, Full(A), w) && Path(AnyInitial, AsWritten, R, Full(A), w)
  }

  /** After the common run `w`, the set `S` is offered and does not defend itself. */
  ghost predicate FalseStep(R: Relation, A: set<Arg>, w: seq<set<Arg>>, S: set<Arg>) {
    && CommonRun(R, A, w)
    && MinimalAcceptable(R, RunState(R, A, w), S)
    && !Admissible(R, Reduct(R, A, Union(w)), S)
  }

  /** Every run that is not meant has a first false step. */
  lemma {:induction false} FirstFalseStep(R: Relation, A: set<Arg>, w: seq<set<Arg>>)
    returns (v: seq<set<Arg>>, S: set<Arg>, x: seq<set<Arg>>)
    requires Path(AnyInitial, AsWritten, R, Full(A), w) && !Path(AnyInitial, Meant, R, Full(A), w)
    ensures w == v + [S] + x && FalseStep(R, A, v, S)
    decreases |w|
  {
    var front, last := w[..|w| - 1], w[|w| - 1];
    assert w == front + [last];
    PathSnoc(AnyInitial, AsWritten, R, Full(A), front, last);
    if Path(AnyInitial, Meant, R, Full(A), front) {
      v, S, x := front, last, [];
      LastIsFalse(R, A, front, last);
    } else {
      v, S, x := FirstFalseStep(R, A, front);
      x := x + [last];
    }
  }

  lemma LastIsFalse(R: Relation, A: set<Arg>, v: seq<set<Arg>>, S: set<Arg>)
    requires Path(AnyInitial, AsWritten, R, Full(A), v + [S]) && !Path(AnyInitial, Meant, R, Full(A), v + [S])
    requires Path(AnyInitial, Meant, R, Full(A), v)
    ensures FalseStep(R, A, v, S)
  {
    PathSnoc(AnyInitial, AsWritten, R, Full(A), v, S);
    PathSnoc(AnyInitial, Meant, R, Full(A), v, S);
    RunStateIsState(R, A, v);
    if Admissible(R, Reduct(R, A, Union(v)), S) { DefendedStep(R, A, v, S); }
  }

  lemma DefendedStep(R: Relation, A: set<Arg>, v: seq<set<Arg>>, S: set<Arg>)
    requires MinimalAcceptable(R, RunState(R, A, v), S) && Admissible(R, Reduct(R, A, Union(v)), S)
    ensures Choice(AnyInitial, R, After(Meant, R, Full(A), v), S)
  {
    MinimalIsInitial(R, RunState(R, A, v), S);
    CleanInitial(R, Reduct(R, A, Union(v)), S);
    MeantStates(R, A, v);
  }

  lemma FalseStepIsNotMeant(R: Relation, A: set<Arg>, w: seq<set<Arg>>, S: set<Arg>)
    requires FalseStep(R, A, w, S)
    ensures Path(AnyInitial, AsWritten, R, Full(A), w + [S]) && !Path(AnyInitial, Meant, R, Full(A), w + [S])
  {
    RunStateIsState(R, A, w);
    MeantStates(R, A, w);
    PathSnoc(AnyInitial, AsWritten, R, Full(A), w, S);
    PathSnoc(AnyInitial, Meant, R, Full(A), w, S);
    CleanInitial(R, Reduct(R, A, Union(w)), S);
  }

  /** No false step can be continued until every argument is chosen or attacked. */
  ghost predicate FalseStepsGetStuck(R: Relation, A: set<Arg>) {
    forall w, S, x :: FalseStep(R, A, w, S) && Path(AnyInitial, AsWritten, R, After(AsWritten, R, Full(A), w + [S]), x) ==>
      Reduct(R, A, Union(w + [S] + x)) != {}
  }

  /** ES-ST prints only meant sequences exactly when every run with a false step gets
      stuck; where ES-AD is sound it prints all of them. */
  lemma StableAsWrittenIff(R: Relation, A: set<Arg>)
    ensures PrintsOnlyMeant(ST, R, A) <==> FalseStepsGetStuck(R, A)
    ensures NeverFalselyDefended(R, A) ==> PrintsAsMeant(ST, R, A)
  {
    if FalseStepsGetStuck(R, A) {
      forall w | Emitted(ST, AsWritten, R, Full(A), w)
        ensures Emitted(ST, Meant, R, Full(A), w)
      {
        StuckRunsAreMeant(R, A, w);
      }
    }
    if PrintsOnlyMeant(ST, R, A) {
      forall w, S, x | FalseStep(R, A, w, S) && Path(AnyInitial, AsWritten, R, After(AsWritten, R, Full(A), w + [S]), x)
        ensures Reduct(R, A, Union(w + [S] + x)) != {}
      {
        FalseFinish(R, A, w, S, x);
      }
    }
    if NeverFalselyDefended(R, A) {
      SameRunsIff(R, A);
      forall w: seq<set<Arg>>
        ensures Emitted(ST, AsWritten, R, Full(A), w) <==> Emitted(ST, Meant, R, Full(A), w)
      {
        SameActive(R, A, w);
        MeantStates(R, A, w);
      }
    }
  }

  lemma StuckRunsAreMeant(R: Relation, A: set<Arg>, w: seq<set<Arg>>)
    requires FalseStepsGetStuck(R, A) && Emitted(ST, AsWritten, R, Full(A), w)
    ensures Emitted(ST, Meant, R, Full(A), w)
  {
    SameActive(R, A, w);
    MeantStates(R, A, w);
    if !Path(AnyInitial, Meant, R, Full(A), w) {
      var v, S, x := FirstFalseStep(R, A, w);
      PathConcat(AnyInitial, AsWritten, R, Full(A), v + [S], x);
    }
  }

  lemma FalseFinish(R: Relation, A: set<Arg>, w: seq<set<Arg>>, S: set<Arg>, x: seq<set<Arg>>)
    requires PrintsOnlyMeant(ST, R, A)
    requires FalseStep(R, A, w, S) && Path(AnyInitial, AsWritten, R, After(AsWritten, R, Full(A), w + [S]), x)
    ensures Reduct(R, A, Union(w + [S] + x)) != {}
  {
    FalseStepIsNotMeant(R, A, w, S);
    NotMeantGoesOn(R, A, w + [S], x);
  }

  lemma NotMeantGoesOn(R: Relation, A: set<Arg>, v: seq<set<Arg>>, x: seq<set<Arg>>)
    requires PrintsOnlyMeant(ST, R, A)
    requires Path(AnyInitial, AsWritten, R, Full(A), v) && !Path(AnyInitial, Meant, R, Full(A), v)
    requires Path(AnyInitial, AsWritten, R, After(AsWritten, R, Full(A), v), x)
    ensures Reduct(R, A, Union(v + x)) != {}
  {
    PathConcat(AnyInitial, AsWritten, R, Full(A), v, x);
    PathConcat(AnyInitial, Meant, R, Full(A), v, x);
    SameActive(R, A, v + x);
    assert !Emitted(ST, AsWritten, R, Full(A), v + x);
  }

  // ------------------------------------------------------------- unattacked arguments

  /** `E` defends `a` and does not contain it. */
  ghost predicate Missed(R: Relation, A: set<Arg>, E: set<Arg>, a: Arg) {
    a in A && a !in E && Defends(R, A, E, a)
  }

  /** An argument that the last set of `w` and an earlier one both attack attacks `a`:
      its stale bit hides that `a` is unattacked. */
  ghost predicate Masked(R: Relation, A: set<Arg>, w: seq<set<Arg>>, a: Arg) {
    Hits(R, Retouched(R, A, w), a)
  }

  /** As written, an argument is seen as unattacked iff it is missed and not masked. */
  lemma UnattackedAsWritten(R: Relation, A: set<Arg>, w: seq<set<Arg>>, a: Arg)
    requires Path(AnyInitial, Meant, R, Full(A), w)
    ensures Unattacked(R, After(Meant, R, Full(A), w), a) <==> Missed(R, A, Union(w), a)
    ensures Unattacked(R, After(AsWritten, R, Full(A), w), a) <==> Missed(R, A, Union(w), a) && !Masked(R, A, w, a)
  {
    RunStateIsState(R, A, w);
    MeantStates(R, A, w);
    PathIsAdmissible(AnyInitial, R, A, w);
    UnattackedIffDefended(R, A, Union(w), a);
    HitsEither(R, Reduct(R, A, Union(w)), Retouched(R, A, w), a);
  }

  ghost predicate MissesNothing(R: Relation, A: set<Arg>, E: set<Arg>) {
    forall a :: !Missed(R, A, E, a)
  }

  ghost predicate MissesOnlyMasked(R: Relation, A: set<Arg>, w: seq<set<Arg>>) {
    forall a :: Missed(R, A, Union(w), a) ==> Masked(R, A, w, a)
  }

  ghost predicate NothingUnattacked(R: Relation, st: State) {
    forall a :: !Unattacked(R, st, a)
  }

  lemma MissedOrMasked(R: Relation, A: set<Arg>, w: seq<set<Arg>>)
    requires Path(AnyInitial, Meant, R, Full(A), w)
    ensures NothingUnattacked(R, After(AsWritten, R, Full(A), w)) <==> MissesOnlyMasked(R, A, w)
    ensures NothingUnattacked(R, After(Meant, R, Full(A), w)) <==> MissesNothing(R, A, Union(w))
  {
    var written, meant, E := After(AsWritten, R, Full(A), w), After(Meant, R, Full(A), w), Union(w);
    forall a: Arg
      ensures Unattacked(R, written, a) <==> Missed(R, A, E, a) && !Masked(R, A, w, a)
    {
      UnattackedAsWritten(R, A, w, a);
    }
    forall a: Arg
      ensures Unattacked(R, meant, a) <==> Missed(R, A, E, a)
    {
      UnattackedAsWritten(R, A, w, a);
    }
  }

  lemma HitsEither(R: Relation, S: set<Arg>, T: set<Arg>, a: Arg)
    ensures Hits(R, S + T, a) <==> Hits(R, S, a) || Hits(R, T, a)
  {
  }

  // ----------------------------------------------------------------------------- ES-CO

  /** An argument seen as unattacked is acceptable on its own. */
  lemma UnattackedIsMinimal(R: Relation, st: State, a: Arg)
    requires Unattacked(R, st, a)
    ensures MinimalAcceptable(R, st, {a})
  {
  }

  /** After a meant run ES-CO stops exactly when every argument it misses is masked. */
  lemma CompleteStopAsWritten(R: Relation, A: set<Arg>, w: seq<set<Arg>>)
    requires Path(AnyInitial, Meant, R, Full(A), w)
    ensures Stops(CO, R, After(AsWritten, R, Full(A), w)) <==> MissesOnlyMasked(R, A, w)
    ensures Stops(CO, R, After(Meant, R, Full(A), w)) <==> MissesNothing(R, A, Union(w))
  {
    CompleteStops(R, After(AsWritten, R, Full(A), w));
    CompleteStops(R, After(Meant, R, Full(A), w));
    MissedOrMasked(R, A, w);
  }

  lemma CompleteStops(R: Relation, st: State)
    ensures Stops(CO, R, st) <==> NothingUnattacked(R, st)
  {
    if a: Arg :| Unattacked(R, st, a) {
      UnattackedIsMinimal(R, st, a);
    }
  }

  /** Something is missed, and all of it is hidden by arguments of `D`. */
  ghost predicate AllHidden(R: Relation, A: set<Arg>, E: set<Arg>, D: set<Arg>) {
    && (exists a :: Missed(R, A, E, a))
    && forall a :: Missed(R, A, E, a) ==> Hits(R, D, a)
  }

  /** Choose any admissible set `U` and then any initial set `L` of what it leaves:
      the arguments both of them attack do not hide everything they miss. */
  ghost predicate NeverAllHidden(R: Relation, A: set<Arg>) {
    forall U, L :: Admissible(R, A, U) && Initial(R, Reduct(R, A, U), L) ==>
      !AllHidden(R, A, U + L, HitAgain(R, A, U, L))
  }

  lemma HiddenOnRuns(R: Relation, A: set<Arg>, w: seq<set<Arg>>)
    requires NeverAllHidden(R, A) && Path(AnyInitial, Meant, R, Full(A), w)
    ensures !AllHidden(R, A, Union(w), Retouched(R, A, w))
  {
    if w != [] {
      var n := |w| - 1;
      assert w == w[..n] + [w[n]];
      LastStep(R, A, w[..n], w[n]);
      UnionSnoc(w[..n], w[n]);
    }
  }

  /** ES-CO prints the meant sequences, or even only meant sequences, exactly when
      ES-AD is sound and no run is stopped by masked arguments alone. */
  lemma CompleteAsWrittenIff(R: Relation, A: set<Arg>)
    ensures PrintsAsMeant(CO, R, A) <==> NeverFalselyDefended(R, A) && NeverAllHidden(R, A)
    ensures PrintsOnlyMeant(CO, R, A) <==> NeverFalselyDefended(R, A) && NeverAllHidden(R, A)
  {
    SameRunsIff(R, A);
    if NeverFalselyDefended(R, A) && NeverAllHidden(R, A) {
      forall w: seq<set<Arg>>
        ensures Emitted(CO, AsWritten, R, Full(A), w) <==> Emitted(CO, Meant, R, Full(A), w)
      {
        if Path(AnyInitial, Meant, R, Full(A), w) {
          CompleteStopAsWritten(R, A, w);
          HiddenOnRuns(R, A, w);
        }
      }
    }
    if PrintsOnlyMeant(CO, R, A) {
      OnlyMeantCompletes(R, A);
      SoundNeedsUnhidden(R, A);
    }
  }

  lemma OnlyMeantCompletes(R: Relation, A: set<Arg>)
    requires PrintsOnlyMeant(CO, R, A)
    ensures NeverFalselyDefended(R, A)
    ensures forall w :: Emitted(CO, AsWritten, R, Full(A), w) ==> Complete(R, A, Union(w))
  {
    forall v | Emitted(PR, AsWritten, R, Full(A), v)
      ensures Path(AnyInitial, Meant, R, Full(A), v)
    {
      assert forall a :: !Choice(AnyInitial, R, After(AsWritten, R, Full(A), v), {a});
      assert Emitted(CO, AsWritten, R, Full(A), v);
    }
    OnlyMeantIsSound(R, A);
    forall w | Emitted(CO, AsWritten, R, Full(A), w)
      ensures Complete(R, A, Union(w))
    {
      CompleteStop(R, A, w);
    }
  }

  /** Where ES-AD is sound, every union ES-CO prints is complete exactly when no run
      is stopped by masked arguments alone. */
  lemma CompleteSoundIff(R: Relation, A: set<Arg>)
    requires NeverFalselyDefended(R, A)
    ensures (forall w :: Emitted(CO, AsWritten, R, Full(A), w) ==> Complete(R, A, Union(w))) <==> NeverAllHidden(R, A)
  {
    if NeverAllHidden(R, A) {
      CompleteAsWrittenIff(R, A);
      forall w | Emitted(CO, AsWritten, R, Full(A), w)
        ensures Complete(R, A, Union(w))
      {
        CompleteStop(R, A, w);
      }
    }
    if forall w :: Emitted(CO, AsWritten, R, Full(A), w) ==> Complete(R, A, Union(w)) {
      SoundNeedsUnhidden(R, A);
    }
  }

  lemma SoundNeedsUnhidden(R: Relation, A: set<Arg>)
    requires NeverFalselyDefended(R, A)
    requires forall w :: Emitted(CO, AsWritten, R, Full(A), w) ==> Complete(R, A, Union(w))
    ensures NeverAllHidden(R, A)
  {
    SameRunsIff(R, A);
    forall U, L | Admissible(R, A, U) && Initial(R, Reduct(R, A, U), L)
      ensures !AllHidden(R, A, U + L, HitAgain(R, A, U, L))
    {
      var w := RunFor(R, A, U, L);
      CompleteStopAsWritten(R, A, w);
    }
  }

  /** A union printed by ES-CO is complete exactly when the sequence is repaired and
      nothing it leaves is unattacked. */
  lemma PrintedComplete(R: Relation, A: set<Arg>, w: seq<set<Arg>>)
    requires Emitted(CO, AsWritten, R, Full(A), w)
    ensures Complete(R, A, Union(w)) <==>
            && Repaired(R, A, w)
            && forall a :: a in Reduct(R, A, Union(w)) ==> Hits(R, Reduct(R, A, Union(w)), a)
  {
    AdmissibleIffRepaired(R, A, w);
    if Admissible(R, A, Union(w)) { CompleteIffNoUnattacked(R, A, Union(w)); }
  }

  // ------------------------------------------------------------------- ES-SA and ES-GR

  lemma {:induction false} StrongPathIsPath(R: Relation, A: set<Arg>, w: seq<set<Arg>>)
    requires Path(UnattackedArgument, Meant, R, Full(A), w)
    ensures Path(AnyInitial, Meant, R, Full(A), w)
    decreases |w|
  {
    if w != [] {
      ChoiceIsInitial(UnattackedArgument, R, A, w[0]);
      CleanInitial(R, A, w[0]);
      StrongPathIsPath(R, Reduct(R, A, w[0]), w[1..]);
    }
  }

  /** No argument is masked at the moment it is chosen. */
  ghost predicate Unmasked(R: Relation, A: set<Arg>, w: seq<set<Arg>>) {
    forall k, a :: 0 <= k < |w| && a in w[k] ==> !Masked(R, A, w[..k], a)
  }

  /** ES-SA as written prints exactly the meant sequences in which no argument is
      masked at the moment it is chosen. */
  lemma {:induction false} StrongAsWrittenIff(R: Relation, A: set<Arg>, w: seq<set<Arg>>)
    ensures Emitted(SA, AsWritten, R, Full(A), w) <==> Emitted(SA, Meant, R, Full(A), w) && Unmasked(R, A, w)
    decreases |w|
  {
    if w != [] {
      var n := |w| - 1;
      var v, S := w[..n], w[n];
      assert w == v + [S];
      assert forall k :: 0 <= k <= n ==> v[..k] == w[..k];
      StrongAsWrittenIff(R, A, v);
      PathSnoc(UnattackedArgument, AsWritten, R, Full(A), v, S);
      PathSnoc(UnattackedArgument, Meant, R, Full(A), v, S);
      if Path(UnattackedArgument, Meant, R, Full(A), v) {
        StrongChoiceIff(R, A, v, S);
      }
    }
  }

  lemma StrongChoiceIff(R: Relation, A: set<Arg>, v: seq<set<Arg>>, S: set<Arg>)
    requires Path(UnattackedArgument, Meant, R, Full(A), v)
    ensures Choice(UnattackedArgument, R, After(AsWritten, R, Full(A), v), S) <==>
            && Choice(UnattackedArgument, R, After(Meant, R, Full(A), v), S)
            && forall a :: a in S ==> !Masked(R, A, v, a)
  {
    StrongPathIsPath(R, A, v);
    forall a: Arg
      ensures Unattacked(R, After(AsWritten, R, Full(A), v), a) <==>
              Unattacked(R, After(Meant, R, Full(A), v), a) && !Masked(R, A, v, a)
    {
      UnattackedAsWritten(R, A, v, a);
    }
  }

  /** So ES-SA as written is sound on every framework. */
  lemma StrongSoundAsWritten(R: Relation, A: set<Arg>, w: seq<set<Arg>>)
    requires Emitted(SA, AsWritten, R, Full(A), w)
    ensures StronglyAdmissible(R, A, Union(w))
  {
    StrongAsWrittenIff(R, A, w);
    StronglyAdmissibleUnions(R, A, Union(w));
  }

  /** ES-GR as written prints exactly the meant unmasked runs that miss nothing but
      masked arguments. */
  lemma GroundedAsWrittenIff(R: Relation, A: set<Arg>, w: seq<set<Arg>>)
    ensures Emitted(GR, AsWritten, R, Full(A), w) <==>
            && Emitted(SA, Meant, R, Full(A), w) && Unmasked(R, A, w)
            && MissesOnlyMasked(R, A, w)
    ensures Emitted(GR, Meant, R, Full(A), w) <==> Emitted(SA, Meant, R, Full(A), w) && MissesNothing(R, A, Union(w))
  {
    StrongAsWrittenIff(R, A, w);
    if Path(UnattackedArgument, Meant, R, Full(A), w) {
      StrongPathIsPath(R, A, w);
      MissedOrMasked(R, A, w);
      StrongStops(R, After(Meant, R, Full(A), w));
      StrongStops(R, After(AsWritten, R, Full(A), w));
    }
  }

  lemma StrongStops(R: Relation, st: State)
    ensures Stops(GR, R, st) <==> NothingUnattacked(R, st)
  {
    if a: Arg :| Unattacked(R, st, a) {
      assert Choice(UnattackedArgument, R, st, {a});
    }
  }

  /** ES-GR as written prints the grounded extension exactly when some meant
      sequence for it has no masked step. */
  lemma GroundedPrintedIff(R: Relation, A: set<Arg>)
    ensures (exists w :: Emitted(GR, AsWritten, R, Full(A), w) && Grounded(R, A, Union(w))) <==>
            exists w :: Emitted(GR, Meant, R, Full(A), w) && Unmasked(R, A, w)
  {
    if w :| Emitted(GR, AsWritten, R, Full(A), w) && Grounded(R, A, Union(w)) {
      GroundedAsWrittenIff(R, A, w);
      GroundedMissesNothing(R, A, Union(w));
      assert Emitted(GR, Meant, R, Full(A), w) && Unmasked(R, A, w);
    }
    if w :| Emitted(GR, Meant, R, Full(A), w) && Unmasked(R, A, w) {
      GroundedAsWrittenIff(R, A, w);
      GroundedRuns(R, A, w);
      assert Emitted(GR, AsWritten, R, Full(A), w);
    }
  }

  lemma GroundedMissesNothing(R: Relation, A: set<Arg>, G: set<Arg>)
    requires Grounded(R, A, G)
    ensures MissesNothing(R, A, G)
  {
    forall a | a in A && Defends(R, A, G, a)
      ensures a in G
    {
      assert a in Characteristic(R, A, G);
    }
  }

  /** Each meant unmasked run that misses something misses something not masked. */
  ghost predicate NeverStoppedEarly(R: Relation, A: set<Arg>) {
    forall w :: Emitted(SA, Meant, R, Full(A), w) && Unmasked(R, A, w) ==>
      !AllHidden(R, A, Union(w), Retouched(R, A, w))
  }

  /** Everything ES-GR as written prints is grounded exactly when masked arguments
      alone never stop it. */
  lemma GroundedSoundIff(R: Relation, A: set<Arg>)
    ensures (forall w :: Emitted(GR, AsWritten, R, Full(A), w) ==> Grounded(R, A, Union(w))) <==> NeverStoppedEarly(R, A)
  {
    forall w: seq<set<Arg>>
      ensures Emitted(GR, AsWritten, R, Full(A), w) && !Grounded(R, A, Union(w)) <==>
              && Emitted(SA, Meant, R, Full(A), w) && Unmasked(R, A, w)
              && AllHidden(R, A, Union(w), Retouched(R, A, w))
    {
      UngroundedIff(R, A, w);
    }
  }

  lemma UngroundedIff(R: Relation, A: set<Arg>, w: seq<set<Arg>>)
    ensures Emitted(GR, AsWritten, R, Full(A), w) && !Grounded(R, A, Union(w)) <==>
            && Emitted(SA, Meant, R, Full(A), w) && Unmasked(R, A, w)
            && AllHidden(R, A, Union(w), Retouched(R, A, w))
  {
    GroundedAsWrittenIff(R, A, w);
    if Grounded(R, A, Union(w)) {
      GroundedMissesNothing(R, A, Union(w));
    } else if Emitted(GR, AsWritten, R, Full(A), w) && MissesNothing(R, A, Union(w)) {
      GroundedRuns(R, A, w);
    }
  }

  // ----------------------------------------------------------------------------- AS-AD

  /** AS-AD gives the meant answers to all queries exactly when ES-AD is sound. */
  lemma AnswersAsMeantIff(R: Relation, A: set<Arg>)
    ensures (forall q, w :: Answers(AsWritten, R, Full(A), q, w) <==> Answers(Meant, R, Full(A), q, w)) <==>
            NeverFalselyDefended(R, A)
    ensures (forall q, w :: Answers(AsWritten, R, Full(A), q, w) ==> Answers(Meant, R, Full(A), q, w)) <==>
            NeverFalselyDefended(R, A)
  {
    SameRunsIff(R, A);
    if forall q, w :: Answers(AsWritten, R, Full(A), q, w) ==> Answers(Meant, R, Full(A), q, w) {
      forall w | Path(AnyInitial, AsWritten, R, Full(A), w)
        ensures Admissible(R, A, Union(w))
      {
        EveryRunAnswers(AsWritten, R, A, w);
        PathIsAdmissible(AnyInitial, R, A, w);
      }
      SoundIffAsMeant(R, A);
    }
  }

  /** A run answers the query for any argument of its last set. */
  lemma EveryRunAnswers(mode: Mode, R: Relation, A: set<Arg>, w: seq<set<Arg>>)
    requires Path(AnyInitial, mode, R, Full(A), w)
    ensures w != [] ==> exists q :: Answers(mode, R, Full(A), q, w)
  {
    PathShape(AnyInitial, mode, R, Full(A), w);
    if w != [] {
      var q :| q in w[|w| - 1];
      assert forall i :: 0 <= i < |w| - 1 ==> w[i] !! w[|w| - 1];
      assert Answers(mode, R, Full(A), q, w);
    }
  }

  // ----------------------------------------------------------------------------- ES-UC

  /** On every meant run the challenge filter keeps the same sets with and without the
      stale bits. */
  ghost predicate KeepsTheSame(R: Relation, A: set<Arg>) {
    forall w :: Path(UnchallengedInitial, Meant, R, Full(A), w) ==>
      forall S :: Choice(UnchallengedInitial, R, RunState(R, A, w), S) <==>
                  Choice(UnchallengedInitial, R, Full(Reduct(R, A, Union(w))), S)
  }

  /** ES-UC prints exactly the meant sequences, with and without `maximal`, exactly
      when the filter always keeps the same sets. */
  lemma UnchallengedAsWrittenIff(R: Relation, A: set<Arg>, maximal: bool)
    ensures PrintsAsMeant(UC(maximal), R, A) <==> KeepsTheSame(R, A)
  {
    MaximalAsMeantIff(UnchallengedInitial, R, A);
    SameKeptRunsIff(R, A);
    if !maximal {
      assert PrintsAsMeant(UC(false), R, A) <==> SameRuns(UnchallengedInitial, R, A) by {
        forall w: seq<set<Arg>>, mode: Mode
          ensures Emitted(UC(false), mode, R, Full(A), w) <==> Path(UnchallengedInitial, mode, R, Full(A), w)
        {
        }
      }
    }
  }

  lemma SameKeptRunsIff(R: Relation, A: set<Arg>)
    ensures SameRuns(UnchallengedInitial, R, A) <==> KeepsTheSame(R, A)
  {
    if SameRuns(UnchallengedInitial, R, A) {
      forall w | Path(UnchallengedInitial, Meant, R, Full(A), w)
        ensures forall S :: Choice(UnchallengedInitial, R, RunState(R, A, w), S) <==>
                            Choice(UnchallengedInitial, R, Full(Reduct(R, A, Union(w))), S)
      {
        KeptStates(R, A, w);
        SameRunsSameStops(UnchallengedInitial, R, A, w);
      }
    }
    if KeepsTheSame(R, A) {
      forall w: seq<set<Arg>>
        ensures Path(UnchallengedInitial, AsWritten, R, Full(A), w) <==> Path(UnchallengedInitial, Meant, R, Full(A), w)
      {
        KeptPaths(R, A, w);
      }
    }
  }

  lemma KeptStates(R: Relation, A: set<Arg>, w: seq<set<Arg>>)
    requires Path(UnchallengedInitial, Meant, R, Full(A), w)
    ensures After(AsWritten, R, Full(A), w) == RunState(R, A, w)
    ensures After(Meant, R, Full(A), w) == Full(Reduct(R, A, Union(w)))
  {
    UnchallengedPathIsPath(Meant, R, Full(A), w);
    RunStateIsState(R, A, w);
    MeantStates(R, A, w);
  }

  lemma {:induction false} KeptPaths(R: Relation, A: set<Arg>, w: seq<set<Arg>>)
    requires KeepsTheSame(R, A)
    ensures Path(UnchallengedInitial, AsWritten, R, Full(A), w) <==> Path(UnchallengedInitial, Meant, R, Full(A), w)
    decreases |w|
  {
    if w != [] {
      var n := |w| - 1;
      var v, S := w[..n], w[n];
      assert w == v + [S];
      KeptPaths(R, A, v);
      PathSnoc(UnchallengedInitial, AsWritten, R, Full(A), v, S);
      PathSnoc(UnchallengedInitial, Meant, R, Full(A), v, S);
      if Path(UnchallengedInitial, Meant, R, Full(A), v) { KeptStates(R, A, v); }
    }
  }

  /** Each set of `w` is initial in what the earlier ones leave, and survives the filter
      when stale bits are taken into account. */
  ghost predicate KeptRun(R: Relation, A: set<Arg>, w: seq<set<Arg>>)
    decreases |w|
  {
    w == [] ||
    var v, S := w[..|w| - 1], w[|w| - 1];
    && KeptRun(R, A, v)
    && Initial(R, Reduct(R, A, Union(v)), S)
    && Choice(UnchallengedInitial, R, RunState(R, A, v), S)
  }

  /** After such a run, whatever survives the filter next defends itself. */
  ghost predicate KeepsDefended(R: Relation, A: set<Arg>) {
    forall w, S :: KeptRun(R, A, w) && Choice(UnchallengedInitial, R, RunState(R, A, w), S) ==>
      Admissible(R, Reduct(R, A, Union(w)), S)
  }

  /** ES-UC prints only admissible unions exactly when its runs are meant runs of
      initial sets, and exactly when the filter never keeps a falsely defended set. */
  lemma UnchallengedSoundIff(R: Relation, A: set<Arg>)
    ensures (forall w :: Emitted(UC(false), AsWritten, R, Full(A), w) ==> Admissible(R, A, Union(w))) <==>
            KeepsDefended(R, A)
    ensures (forall w :: Emitted(UC(false), AsWritten, R, Full(A), w) ==> Path(AnyInitial, Meant, R, Full(A), w)) <==>
            KeepsDefended(R, A)
  {
    if KeepsDefended(R, A) {
      forall w | Emitted(UC(false), AsWritten, R, Full(A), w)
        ensures Path(AnyInitial, Meant, R, Full(A), w) && Admissible(R, A, Union(w))
      {
        DefendedIsKept(R, A, w);
        KeptPath(R, A, w);
        PathIsAdmissible(AnyInitial, R, A, w);
      }
    }
    if forall w :: Emitted(UC(false), AsWritten, R, Full(A), w) ==> Path(AnyInitial, Meant, R, Full(A), w) {
      forall w | Emitted(UC(false), AsWritten, R, Full(A), w)
        ensures Admissible(R, A, Union(w))
      {
        PathIsAdmissible(AnyInitial, R, A, w);
      }
    }
    if forall w :: Emitted(UC(false), AsWritten, R, Full(A), w) ==> Admissible(R, A, Union(w)) {
      forall w, S | KeptRun(R, A, w) && Choice(UnchallengedInitial, R, RunState(R, A, w), S)
        ensures Admissible(R, Reduct(R, A, Union(w)), S)
      {
        KeptRunIsRun(R, A, w, S);
      }
    }
  }

  /** Such a run is one of both recursions: of ES-AD as meant, of ES-UC as written. */
  lemma {:induction false} KeptPath(R: Relation, A: set<Arg>, w: seq<set<Arg>>)
    requires KeptRun(R, A, w)
    ensures Path(AnyInitial, Meant, R, Full(A), w) && Path(UnchallengedInitial, AsWritten, R, Full(A), w)
    decreases |w|
  {
    if w != [] {
      var v, S := w[..|w| - 1], w[|w| - 1];
      assert w == v + [S];
      KeptPath(R, A, v);
      KeptStep(R, A, v, S);
    }
  }

  lemma KeptStep(R: Relation, A: set<Arg>, v: seq<set<Arg>>, S: set<Arg>)
    requires Path(AnyInitial, Meant, R, Full(A), v) && Path(UnchallengedInitial, AsWritten, R, Full(A), v)
    ensures Path(AnyInitial, Meant, R, Full(A), v + [S]) <==> Initial(R, Reduct(R, A, Union(v)), S)
    ensures Path(UnchallengedInitial, AsWritten, R, Full(A), v + [S]) <==>
            Choice(UnchallengedInitial, R, RunState(R, A, v), S)
  {
    RunStateIsState(R, A, v);
    MeantStates(R, A, v);
    PathSnoc(AnyInitial, Meant, R, Full(A), v, S);
    PathSnoc(UnchallengedInitial, AsWritten, R, Full(A), v, S);
    CleanInitial(R, Reduct(R, A, Union(v)), S);
  }

  lemma {:induction false} DefendedIsKept(R: Relation, A: set<Arg>, w: seq<set<Arg>>)
    requires KeepsDefended(R, A) && Path(UnchallengedInitial, AsWritten, R, Full(A), w)
    ensures KeptRun(R, A, w)
    decreases |w|
  {
    if w != [] {
      var v, S := w[..|w| - 1], w[|w| - 1];
      assert w == v + [S];
      PathPrefix(UnchallengedInitial, AsWritten, R, Full(A), w, |v|);
      DefendedIsKept(R, A, v);
      KeptPath(R, A, v);
      KeptStep(R, A, v, S);
      MinimalIsInitial(R, RunState(R, A, v), S);
    }
  }

  lemma KeptRunIsRun(R: Relation, A: set<Arg>, w: seq<set<Arg>>, S: set<Arg>)
    requires forall x :: Emitted(UC(false), AsWritten, R, Full(A), x) ==> Admissible(R, A, Union(x))
    requires KeptRun(R, A, w) && Choice(UnchallengedInitial, R, RunState(R, A, w), S)
    ensures Admissible(R, Reduct(R, A, Union(w)), S)
  {
    KeptPath(R, A, w);
    KeptStep(R, A, w, S);
    RunStateIsState(R, A, w);
    PathIsAdmissible(AnyInitial, R, A, w);
    assert Emitted(UC(false), AsWritten, R, Full(A), w + [S]);
    AdmissibleStep(R, A, w, S);
  }
}
