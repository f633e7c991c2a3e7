/**
  `get_reduct` clears the bit of an attacked argument only if that argument is
  still in the active array. This module says exactly which runs notice.
 */
module StaleBits {
  import opened Dung
  import opened Serialisation

  /** All attacks are between arguments of `A`, as in the framework a run starts with. */
  ghost predicate Within(R: Relation, A: set<Arg>) {
    forall p :: p in R ==> p.0 in A && p.1 in A
  }

  // ------------------------------------------------------------- paths, from the end

  lemma {:induction false} PathSnoc(rule: ChoiceRule, mode: Mode, R: Relation, st: State, w: seq<set<Arg>>, S: set<Arg>)
    ensures Path(rule, mode, R, st, w + [S]) <==>
            Path(rule, mode, R, st, w) && Choice(rule, R, After(mode, R, st, w), S)
    ensures After(mode, R, st, w + [S]) == Next(mode, R, After(mode, R, st, w), S)
    decreases |w|
  {
    if w == [] {
      assert w + [S] == [S];
    } else {
      PathSnoc(rule, mode, R, Next(mode, R, st, w[0]), w[1..], S);
      assert (w + [S])[1..] == w[1..] + [S];
    }
  }

  lemma {:induction false} UnionSnoc(w: seq<set<Arg>>, S: set<Arg>)
    ensures Union(w + [S]) == Union(w) + S
  {
    if w == [] {
      assert w + [S] == [S];
    } else {
      UnionSnoc(w[1..], S);
      assert (w + [S])[1..] == w[1..] + [S];
    }
  }

  lemma {:induction false} PathPrefix(rule: ChoiceRule, mode: Mode, R: Relation, st: State, w: seq<set<Arg>>, k: nat)
    requires Path(rule, mode, R, st, w) && k <= |w|
    ensures Path(rule, mode, R, st, w[..k])
    decreases |w| - k
  {
    if k == |w| {
      assert w[..k] == w;
    } else {
      PathPrefix(rule, mode, R, st, w, k + 1);
      assert w[..k + 1] == w[..k] + [w[k]];
      PathSnoc(rule, mode, R, st, w[..k], w[k]);
    }
  }

  /** The array is the exact reduct in both modes; only the bits differ. */
  lemma {:induction false} SameActive(R: Relation, A: set<Arg>, w: seq<set<Arg>>)
    ensures After(AsWritten, R, Full(A), w).active == Reduct(R, A, Union(w))
    decreases |w|
  {
    if w == [] {
      assert Reduct(R, A, {}) == A;
    } else {
      var k := |w| - 1;
      assert w == w[..k] + [w[k]];
      SameActive(R, A, w[..k]);
      PathSnoc(AnyInitial, AsWritten, R, Full(A), w[..k], w[k]);
      UnionSnoc(w[..k], w[k]);
      ReductTwice(R, A, Union(w[..k]), w[k]);
    }
  }

  /** The stale bits depend on the last set and on what was inactive before it. */
  lemma StaleAfter(R: Relation, A: set<Arg>, w: seq<set<Arg>>, S: set<Arg>)
    ensures After(AsWritten, R, Full(A), w + [S]) ==
            State(Reduct(R, A, Union(w) + S), Leftover(R, Reduct(R, A, Union(w)), S))
  {
    SameActive(R, A, w);
    PathSnoc(AnyInitial, AsWritten, R, Full(A), w, S);
    ReductTwice(R, A, Union(w), S);
  }

  /** What `L` attacks and was gone before: `U` attacks it too, or it never was in `A`. */
  ghost function HitAgain(R: Relation, A: set<Arg>, U: set<Arg>, L: set<Arg>): set<Arg> {
    set p | p in R && p.0 in L && (p.1 !in A || Hits(R, U, p.1)) :: p.1
  }

  lemma LeftoverIsHitAgain(R: Relation, A: set<Arg>, U: set<Arg>, L: set<Arg>)
    requires Admissible(R, A, U) && Initial(R, Reduct(R, A, U), L)
    ensures Leftover(R, Reduct(R, A, U), L) == HitAgain(R, A, U, L)
  {
    ExtendAdmissible(R, A, U, L);
    assert ConflictFree(R, U + L);
  }

  // ----------------------------------------------------- when are there no stale bits

  /** Two sets of the sequence attack one and the same argument. */
  ghost predicate SharedTarget(R: Relation, w: seq<set<Arg>>) {
    exists i, j, b: Arg :: 0 <= i < j < |w| && Hits(R, w[i], b) && Hits(R, w[j], b)
  }

  /** `b` is stale after `w + [S]` iff `S` attacks it and an earlier set already did. */
  lemma StaleIffHitTwice(R: Relation, A: set<Arg>, w: seq<set<Arg>>, S: set<Arg>, b: Arg)
    requires Within(R, A) && Path(AnyInitial, Meant, R, Full(A), w + [S])
    ensures b in Leftover(R, Reduct(R, A, Union(w)), S) <==> Hits(R, S, b) && Hits(R, Union(w), b)
  {
    PathIsAdmissible(AnyInitial, R, A, w + [S]);
    UnionSnoc(w, S);
    var Q := Reduct(R, A, Union(w));
    if Hits(R, S, b) {
      var a :| a in S && (a, b) in R;
      assert b !in Union(w + [S]);
      assert b in Leftover(R, Q, S) <==> b !in Q by {
        if b !in Q {
          var p := (a, b);
          assert p in R && p.0 in S && p.1 !in Q;
        }
      }
    }
  }

  /** The bitset agrees with the array after every step of a run exactly when no
      two of its sets attack a common argument. */
  lemma {:induction false} BitsAgreeIff(R: Relation, A: set<Arg>, w: seq<set<Arg>>)
    requires Within(R, A) && Path(AnyInitial, Meant, R, Full(A), w)
    ensures (forall k :: 0 <= k <= |w| ==> After(AsWritten, R, Full(A), w[..k]).stale == {}) <==> !SharedTarget(R, w)
    decreases |w|
  {
    if w == [] {
      assert w[..0] == [];
    } else {
      var n := |w| - 1;
      var v, S := w[..n], w[n];
      assert w == v + [S] && w[..|w|] == w;
      PathPrefix(AnyInitial, Meant, R, Full(A), w, n);
      BitsAgreeIff(R, A, v);
      assert forall k :: 0 <= k <= n ==> w[..k] == v[..k];
      StaleAfter(R, A, v, S);
      LastStaleIffShared(R, A, v, S);
      SharedSnoc(R, v, S);
    }
  }

  lemma LastStaleIffShared(R: Relation, A: set<Arg>, v: seq<set<Arg>>, S: set<Arg>)
    requires Within(R, A) && Path(AnyInitial, Meant, R, Full(A), v + [S])
    ensures Leftover(R, Reduct(R, A, Union(v)), S) == {} <==>
            forall b: Arg :: !(Hits(R, S, b) && Hits(R, Union(v), b))
  {
    forall b: Arg
      ensures b in Leftover(R, Reduct(R, A, Union(v)), S) <==> Hits(R, S, b) && Hits(R, Union(v), b)
    {
      StaleIffHitTwice(R, A, v, S, b);
    }
  }

  lemma SharedSnoc(R: Relation, v: seq<set<Arg>>, S: set<Arg>)
    ensures SharedTarget(R, v + [S]) <==>
            SharedTarget(R, v) || exists b: Arg :: Hits(R, S, b) && Hits(R, Union(v), b)
  {
    var w := v + [S];
    if SharedTarget(R, v) {
      var i, j, b: Arg :| 0 <= i < j < |v| && Hits(R, v[i], b) && Hits(R, v[j], b);
      assert w[i] == v[i] && w[j] == v[j];
    }
    if b: Arg :| Hits(R, S, b) && Hits(R, Union(v), b) {
      InUnion(v);
      var a :| a in Union(v) && (a, b) in R;
      var i :| 0 <= i < |v| && a in v[i];
      assert Hits(R, w[i], b) && Hits(R, w[|v|], b);
    }
    if SharedTarget(R, w) {
      var i, j, b: Arg :| 0 <= i < j < |w| && Hits(R, w[i], b) && Hits(R, w[j], b);
      assert w[i] == v[i];
      if j < |v| {
        assert w[j] == v[j];
      } else {
        InUnion(v);
        assert forall x :: x in v[i] ==> x in Union(v);
        HitsMonotone(R, v[i], Union(v), b);
      }
    }
  }

  /** The arguments that the last set of `w` and an earlier one both attack. */
  ghost function Retouched(R: Relation, A: set<Arg>, w: seq<set<Arg>>): set<Arg> {
    if w == [] then {} else HitAgain(R, A, Union(w[..|w| - 1]), w[|w| - 1])
  }

  /** The state a meant run leads to, told from the framework and the sets alone. */
  ghost function RunState(R: Relation, A: set<Arg>, w: seq<set<Arg>>): State {
    State(Reduct(R, A, Union(w)), Retouched(R, A, w))
  }

  lemma RunStateIsState(R: Relation, A: set<Arg>, w: seq<set<Arg>>)
    requires Path(AnyInitial, Meant, R, Full(A), w)
    ensures After(AsWritten, R, Full(A), w) == RunState(R, A, w)
  {
    SameActive(R, A, w);
    if w != [] {
      var n := |w| - 1;
      assert w == w[..n] + [w[n]];
      LastStep(R, A, w[..n], w[n]);
    }
  }

  // --------------------------------------- ES-AD as written: sound iff it is as meant

  /** Some non-empty part of `S` is admissible. */
  ghost predicate HasAdmissiblePart(R: Relation, Q: set<Arg>, S: set<Arg>) {
    exists T :: T <= S && T != {} && Admissible(R, Q, T)
  }

  /** A set that can be defended with the help of stale bits still has a part that
      needs no help. */
  ghost predicate NoFalseDefence(R: Relation, st: State) {
    forall S {:trigger Acceptable(R, st, S)} ::
      S != {} && Acceptable(R, st, S) ==> HasAdmissiblePart(R, st.active, S)
  }

  /** Stale bits only ever weaken what is required. */
  lemma AdmissibleIsAcceptable(R: Relation, st: State, S: set<Arg>)
    requires Admissible(R, st.active, S)
    ensures Acceptable(R, st, S)
  {
  }

  lemma MinimalWithin(R: Relation, st: State, E: set<Arg>) returns (S: set<Arg>)
    requires Acceptable(R, st, E) && E != {}
    ensures S <= E && MinimalAcceptable(R, st, S)
    decreases E
  {
    if MinimalAcceptable(R, st, E) {
      S := E;
    } else {
      var T :| T < E && T != {} && Acceptable(R, st, T);
      S := MinimalWithin(R, st, T);
    }
  }

  /** `enumerate_initial` answers as meant on a state exactly when every set that
      stale bits help to defend has an admissible part; and exactly when each set it
      returns defends itself. */
  lemma InitialSetsCorrectIff(R: Relation, st: State)
    ensures NoFalseDefence(R, st) <==> forall S :: MinimalAcceptable(R, st, S) <==> Initial(R, st.active, S)
    ensures NoFalseDefence(R, st) <==> forall S :: MinimalAcceptable(R, st, S) ==> Admissible(R, st.active, S)
  {
    if NoFalseDefence(R, st) {
      forall S: set<Arg>
        ensures MinimalAcceptable(R, st, S) ==> Admissible(R, st.active, S)
      {
        if MinimalAcceptable(R, st, S) { MinimalIsAdmissible(R, st, S); }
      }
    }
    if forall S :: MinimalAcceptable(R, st, S) ==> Admissible(R, st.active, S) {
      SelfDefenceSuffices(R, st);
    }
  }

  lemma MinimalIsAdmissible(R: Relation, st: State, S: set<Arg>)
    requires NoFalseDefence(R, st) && MinimalAcceptable(R, st, S)
    ensures Admissible(R, st.active, S)
  {
    var T :| T <= S && T != {} && Admissible(R, st.active, T);
    AdmissibleIsAcceptable(R, st, T);
    assert T == S;
  }

  lemma SelfDefenceSuffices(R: Relation, st: State)
    requires forall S :: MinimalAcceptable(R, st, S) ==> Admissible(R, st.active, S)
    ensures NoFalseDefence(R, st)
    ensures forall S :: MinimalAcceptable(R, st, S) <==> Initial(R, st.active, S)
  {
    forall S | S != {} && Acceptable(R, st, S)
      ensures HasAdmissiblePart(R, st.active, S)
    {
      var T := MinimalWithin(R, st, S);
    }
    forall S: set<Arg>
      ensures MinimalAcceptable(R, st, S) <==> Initial(R, st.active, S)
    {
      if MinimalAcceptable(R, st, S) { MinimalIsInitial(R, st, S); }
      if Initial(R, st.active, S) {
        AdmissibleIsAcceptable(R, st, S);
        var T := MinimalWithin(R, st, S);
        assert T == S;
      }
    }
  }

  /** An offered set that defends itself is initial. */
  lemma MinimalIsInitial(R: Relation, st: State, S: set<Arg>)
    requires MinimalAcceptable(R, st, S) && Admissible(R, st.active, S)
    ensures Initial(R, st.active, S)
  {
    forall T | T < S && T != {}
      ensures !Admissible(R, st.active, T)
    {
      if Admissible(R, st.active, T) { AdmissibleIsAcceptable(R, st, T); }
    }
  }

  /** All runs of ES-AD as written are sound. */
  ghost predicate SoundAsWritten(R: Relation, A: set<Arg>) {
    forall w :: Emitted(AD, AsWritten, R, Full(A), w) ==> Admissible(R, A, Union(w))
  }

  /** A recursion prints the same sequences with the reduct as written and as meant. */
  ghost predicate PrintsAsMeant(task: Task, R: Relation, A: set<Arg>) {
    forall w :: Emitted(task, AsWritten, R, Full(A), w) <==> Emitted(task, Meant, R, Full(A), w)
  }

  /** Choose any admissible set `U` and then any initial set `L` of what it leaves.
      The arguments both of them attack must not stand in for a real defence of
      anything that is left. This speaks of the framework alone. */
  ghost predicate NeverFalselyDefended(R: Relation, A: set<Arg>) {
    forall U, L :: Admissible(R, A, U) && Initial(R, Reduct(R, A, U), L) ==>
      NoFalseDefence(R, State(Reduct(R, A, U + L), HitAgain(R, A, U, L)))
  }

  /** After a step that keeps the union admissible, the chosen set defended itself. */
  lemma AdmissibleStep(R: Relation, A: set<Arg>, w: seq<set<Arg>>, S: set<Arg>)
    requires Admissible(R, A, Union(w))
    requires MinimalAcceptable(R, After(AsWritten, R, Full(A), w), S)
    ensures Admissible(R, A, Union(w + [S])) <==> Admissible(R, Reduct(R, A, Union(w)), S)
    ensures Admissible(R, A, Union(w + [S])) ==> Choice(AnyInitial, R, After(Meant, R, Full(A), w), S)
  {
    var Q := Reduct(R, A, Union(w));
    SameActive(R, A, w);
    MeantStates(R, A, w);
    UnionSnoc(w, S);
    Modularity(R, A, Union(w), Union(w) + S);
    assert Union(w) + S - Union(w) == S;
    if Admissible(R, Q, S) {
      MinimalIsInitial(R, After(AsWritten, R, Full(A), w), S);
      CleanInitial(R, Q, S);
    }
  }

  lemma PrefixesSnoc(R: Relation, A: set<Arg>, v: seq<set<Arg>>, S: set<Arg>)
    ensures (forall k :: 0 <= k <= |v + [S]| ==> Admissible(R, A, Union((v + [S])[..k]))) <==>
            && (forall k :: 0 <= k <= |v| ==> Admissible(R, A, Union(v[..k])))
            && Admissible(R, A, Union(v + [S]))
  {
    var w := v + [S];
    assert w[..|w|] == w;
    assert forall k :: 0 <= k <= |v| ==> w[..k] == v[..k];
  }

  /** A run as written is a meant run exactly when every union on the way is admissible. */
  lemma {:induction false} MeantIffAdmissible(R: Relation, A: set<Arg>, w: seq<set<Arg>>)
    requires Path(AnyInitial, AsWritten, R, Full(A), w)
    ensures Path(AnyInitial, Meant, R, Full(A), w) <==> forall k :: 0 <= k <= |w| ==> Admissible(R, A, Union(w[..k]))
    decreases |w|
  {
    if w == [] {
      assert w[..0] == [];
    } else {
      var n := |w| - 1;
      var v, S := w[..n], w[n];
      assert w == v + [S];
      PathSnoc(AnyInitial, AsWritten, R, Full(A), v, S);
      PathSnoc(AnyInitial, Meant, R, Full(A), v, S);
      MeantIffAdmissible(R, A, v);
      PrefixesSnoc(R, A, v, S);
      assert v[..n] == v;
      if Path(AnyInitial, Meant, R, Full(A), v) {
        AdmissibleStep(R, A, v, S);
      }
      if Path(AnyInitial, Meant, R, Full(A), w) {
        PathIsAdmissible(AnyInitial, R, A, w);
      }
    }
  }

  /** A state offers the same sets in both modes iff no stale bit helps falsely. */
  lemma SameOffersIff(R: Relation, A: set<Arg>, w: seq<set<Arg>>)
    ensures NoFalseDefence(R, After(AsWritten, R, Full(A), w)) <==>
            forall S :: Choice(AnyInitial, R, After(AsWritten, R, Full(A), w), S) <==>
                        Choice(AnyInitial, R, After(Meant, R, Full(A), w), S)
  {
    SameActive(R, A, w);
    MeantStates(R, A, w);
    var Q, st := Reduct(R, A, Union(w)), After(AsWritten, R, Full(A), w);
    InitialSetsCorrectIff(R, st);
    forall S: set<Arg>
      ensures Choice(AnyInitial, R, Full(Q), S) <==> Initial(R, Q, S)
      ensures Choice(AnyInitial, R, st, S) <==> MinimalAcceptable(R, st, S)
    {
      CleanInitial(R, Q, S);
    }
  }

  /** The condition on pairs of sets is a condition on the states of the meant runs
      (`DefendedOnRun` is the other direction). */
  lemma RunsGiveDefended(R: Relation, A: set<Arg>)
    requires forall w :: Path(AnyInitial, Meant, R, Full(A), w) ==> NoFalseDefence(R, After(AsWritten, R, Full(A), w))
    ensures NeverFalselyDefended(R, A)
  {
    forall U, L | Admissible(R, A, U) && Initial(R, Reduct(R, A, U), L)
      ensures NoFalseDefence(R, State(Reduct(R, A, U + L), HitAgain(R, A, U, L)))
    {
      var w := RunFor(R, A, U, L);
    }
  }

  lemma DefendedOnRun(R: Relation, A: set<Arg>, w: seq<set<Arg>>)
    requires NeverFalselyDefended(R, A) && Path(AnyInitial, Meant, R, Full(A), w)
    ensures NoFalseDefence(R, After(AsWritten, R, Full(A), w))
  {
    if w == [] {
      forall S | S != {} && Acceptable(R, Full(A), S)
        ensures HasAdmissiblePart(R, A, S)
      {
        CleanAcceptable(R, A, S);
      }
    } else {
      var n := |w| - 1;
      assert w == w[..n] + [w[n]];
      LastStep(R, A, w[..n], w[n]);
    }
  }

  /** The last step of a meant run, told from the framework and the sets alone. */
  lemma LastStep(R: Relation, A: set<Arg>, w: seq<set<Arg>>, S: set<Arg>)
    requires Path(AnyInitial, Meant, R, Full(A), w + [S])
    ensures Admissible(R, A, Union(w)) && Initial(R, Reduct(R, A, Union(w)), S)
    ensures After(AsWritten, R, Full(A), w + [S]) == State(Reduct(R, A, Union(w) + S), HitAgain(R, A, Union(w), S))
  {
    PathSnoc(AnyInitial, Meant, R, Full(A), w, S);
    PathIsAdmissible(AnyInitial, R, A, w);
    MeantStates(R, A, w);
    CleanInitial(R, Reduct(R, A, Union(w)), S);
    StaleAfter(R, A, w, S);
    LeftoverIsHitAgain(R, A, Union(w), S);
  }

  /** Every admissible set followed by an initial set of its reduct ends a meant run. */
  lemma RunFor(R: Relation, A: set<Arg>, U: set<Arg>, L: set<Arg>) returns (w: seq<set<Arg>>)
    requires Admissible(R, A, U) && Initial(R, Reduct(R, A, U), L)
    ensures Path(AnyInitial, Meant, R, Full(A), w)
    ensures After(AsWritten, R, Full(A), w) == State(Reduct(R, A, U + L), HitAgain(R, A, U, L))
    ensures w != [] && w[|w| - 1] == L && Union(w[..|w| - 1]) == U && Union(w) == U + L
  {
    var v := Serialise(R, A, U);
    MeantStates(R, A, v);
    CleanInitial(R, Reduct(R, A, U), L);
    PathSnoc(AnyInitial, Meant, R, Full(A), v, L);
    LastStep(R, A, v, L);
    UnionSnoc(v, L);
    w := v + [L];
    assert w[..|w| - 1] == v;
  }

  /** If every printed union is admissible, the runs as written are the meant runs. */
  lemma {:induction false} SoundPaths(R: Relation, A: set<Arg>, w: seq<set<Arg>>)
    requires SoundAsWritten(R, A)
    ensures Path(AnyInitial, AsWritten, R, Full(A), w) <==> Path(AnyInitial, Meant, R, Full(A), w)
    decreases |w|
  {
    if w != [] {
      var n := |w| - 1;
      var v, S := w[..n], w[n];
      assert w == v + [S];
      SoundPaths(R, A, v);
      PathSnoc(AnyInitial, AsWritten, R, Full(A), v, S);
      PathSnoc(AnyInitial, Meant, R, Full(A), v, S);
      if Path(AnyInitial, Meant, R, Full(A), v) {
        SoundStep(R, A, v);
        SameOffersIff(R, A, v);
      }
    }
  }

  lemma SoundStep(R: Relation, A: set<Arg>, w: seq<set<Arg>>)
    requires SoundAsWritten(R, A)
    requires Path(AnyInitial, AsWritten, R, Full(A), w)
    ensures NoFalseDefence(R, After(AsWritten, R, Full(A), w))
  {
    var st := After(AsWritten, R, Full(A), w);
    SameActive(R, A, w);
    assert Emitted(AD, AsWritten, R, Full(A), w);
    forall S | MinimalAcceptable(R, st, S)
      ensures Admissible(R, st.active, S)
    {
      PathSnoc(AnyInitial, AsWritten, R, Full(A), w, S);
      assert Emitted(AD, AsWritten, R, Full(A), w + [S]);
      AdmissibleStep(R, A, w, S);
    }
    InitialSetsCorrectIff(R, st);
  }

  /** If no state of the meant runs is falsely defended, the runs are the same. */
  lemma {:induction false} DefendedPaths(R: Relation, A: set<Arg>, w: seq<set<Arg>>)
    requires NeverFalselyDefended(R, A)
    ensures Path(AnyInitial, AsWritten, R, Full(A), w) <==> Path(AnyInitial, Meant, R, Full(A), w)
    decreases |w|
  {
    if w != [] {
      var n := |w| - 1;
      var v, S := w[..n], w[n];
      assert w == v + [S];
      DefendedPaths(R, A, v);
      PathSnoc(AnyInitial, AsWritten, R, Full(A), v, S);
      PathSnoc(AnyInitial, Meant, R, Full(A), v, S);
      if Path(AnyInitial, Meant, R, Full(A), v) {
        DefendedOnRun(R, A, v);
        SameOffersIff(R, A, v);
      }
    }
  }

  /** ES-AD as written prints only admissible unions exactly when it prints
      exactly the meant sequences, and exactly when doubly attacked arguments never
      stand in for a defence. */
  lemma SoundIffAsMeant(R: Relation, A: set<Arg>)
    ensures SoundAsWritten(R, A) <==> PrintsAsMeant(AD, R, A)
    ensures SoundAsWritten(R, A) <==> NeverFalselyDefended(R, A)
  {
    if SoundAsWritten(R, A) { SoundGivesAsMeant(R, A); }
    if NeverFalselyDefended(R, A) {
      forall w: seq<set<Arg>>
        ensures Emitted(AD, AsWritten, R, Full(A), w) <==> Emitted(AD, Meant, R, Full(A), w)
      {
        DefendedPaths(R, A, w);
      }
    }
    if PrintsAsMeant(AD, R, A) {
      forall w | Emitted(AD, AsWritten, R, Full(A), w)
        ensures Admissible(R, A, Union(w))
      {
        PathIsAdmissible(AnyInitial, R, A, w);
      }
    }
  }

  lemma SoundGivesAsMeant(R: Relation, A: set<Arg>)
    requires SoundAsWritten(R, A)
    ensures PrintsAsMeant(AD, R, A) && NeverFalselyDefended(R, A)
  {
    forall w: seq<set<Arg>>
      ensures Path(AnyInitial, AsWritten, R, Full(A), w) <==> Path(AnyInitial, Meant, R, Full(A), w)
    {
      SoundPaths(R, A, w);
    }
    forall w | Path(AnyInitial, Meant, R, Full(A), w)
      ensures NoFalseDefence(R, After(AsWritten, R, Full(A), w))
    {
      SoundStep(R, A, w);
    }
    RunsGiveDefended(R, A);
  }

  /** A guard that can be checked beforehand: if no meant sequence has two sets
      that attack a common argument, the code does what is meant. */
  lemma NoSharedTargetsSuffice(R: Relation, A: set<Arg>)
    requires Within(R, A)
    requires forall w :: Path(AnyInitial, Meant, R, Full(A), w) ==> !SharedTarget(R, w)
    ensures SoundAsWritten(R, A)
  {
    forall w | Path(AnyInitial, Meant, R, Full(A), w)
      ensures NoFalseDefence(R, After(AsWritten, R, Full(A), w))
    {
      BitsAgreeIff(R, A, w);
      assert w[..|w|] == w;
      SameActive(R, A, w);
      var Q := Reduct(R, A, Union(w));
      assert After(AsWritten, R, Full(A), w) == Full(Q);
      forall S: set<Arg>
        ensures MinimalAcceptable(R, Full(Q), S) <==> Initial(R, Q, S)
      {
        CleanInitial(R, Q, S);
      }
      InitialSetsCorrectIff(R, Full(Q));
    }
    RunsGiveDefended(R, A);
    SoundIffAsMeant(R, A);
  }

  /** In particular it does on every framework in which no argument has two attackers. */
  lemma SingleAttackersSuffice(R: Relation, A: set<Arg>)
    requires Within(R, A)
    requires forall a, b, c :: (a, c) in R && (b, c) in R ==> a == b
    ensures SoundAsWritten(R, A)
  {
    forall w | Path(AnyInitial, Meant, R, Full(A), w)
      ensures !SharedTarget(R, w)
    {
      PathShape(AnyInitial, Meant, R, Full(A), w);
      forall i, j, b: Arg | 0 <= i < j < |w| && Hits(R, w[i], b)
        ensures !Hits(R, w[j], b)
      {
        assert w[i] !! w[j];
      }
    }
    NoSharedTargetsSuffice(R, A);
  }
}
