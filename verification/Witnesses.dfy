/**
  Small frameworks on which the reduct as the code computes it changes what a
  recursion prints.
 */
module Witnesses {
  import opened Dung
  import opened Serialisation
  import opened StaleBits
  import opened TasksAsWritten
  import opened AsMeant

  /** One step of a run that chooses a single argument. */
  lemma SingleStep(R: Relation, st: State, a: Arg, next: State)
    requires a in st.active && (a, a) !in R
    requires forall b :: b in st.active && (b, a) in R ==> Hits(R, {a} + st.stale, b)
    requires forall b :: b in next.active <==> b in st.active && b != a && (a, b) !in R
    requires forall b :: b in next.stale <==> b !in st.active && (a, b) in R
    ensures MinimalAcceptable(R, st, {a})
    ensures Next(AsWritten, R, st, {a}) == next
  {
  }

  lemma TwoSteps(rule: ChoiceRule, mode: Mode, R: Relation, s0: State, S: set<Arg>, s1: State, T: set<Arg>, s2: State)
    requires Choice(rule, R, s0, S) && Next(mode, R, s0, S) == s1
    requires Choice(rule, R, s1, T) && Next(mode, R, s1, T) == s2
    ensures Path(rule, mode, R, s0, [S, T]) && After(mode, R, s0, [S, T]) == s2
  {
    assert [S, T] == [S] + [T];
    PathSnoc(rule, mode, R, s0, [S], T);
    PathSnoc(rule, mode, R, s0, [], S);
    assert [] + [S] == [S];
  }

  lemma ThirdStep(rule: ChoiceRule, mode: Mode, R: Relation, s0: State, S: set<Arg>, T: set<Arg>, U: set<Arg>)
    requires Path(rule, mode, R, s0, [S, T])
    ensures Path(rule, mode, R, s0, [S, T, U]) <==> Choice(rule, R, After(mode, R, s0, [S, T]), U)
  {
    assert [S, T, U] == [S, T] + [U];
    PathSnoc(rule, mode, R, s0, [S, T], U);
  }

  // ------------------------------------------------------- ES-AD, ES-PR, ES-CO, ES-ST, AS-AD

  /** Arguments 0 and 1 attack 2, 2 attacks 3, 3 attacks 4. */
  function SharedChain(): Relation {
    {(0, 2), (1, 2), (2, 3), (3, 4)}
  }

  /** As written, ES-AD, ES-PR, ES-CO and ES-ST all print the sequence
      [0], [1], [4], [3] for it, although 3 attacks 4. */
  lemma AsWrittenIsUnsound()
    ensures var R, A, w := SharedChain(), {0, 1, 2, 3, 4}, [{0}, {1}, {4}, {3}];
            && Within(R, A)
            && Emitted(AD, AsWritten, R, Full(A), w)
            && Emitted(PR, AsWritten, R, Full(A), w)
            && Emitted(CO, AsWritten, R, Full(A), w)
            && Emitted(ST, AsWritten, R, Full(A), w)
            && !ConflictFree(R, Union(w))
  {
    SharedChainRun();
    EmptyStops(SharedChain(), State({}, {4}));
    SharedChainConflict();
  }

  lemma EmptyStops(R: Relation, st: State)
    requires st.active == {}
    ensures Stops(AD, R, st) && Stops(PR, R, st) && Stops(CO, R, st) && Stops(ST, R, st)
  {
  }

  lemma SharedChainConflict()
    ensures Within(SharedChain(), {0, 1, 2, 3, 4})
    ensures !ConflictFree(SharedChain(), Union([{0}, {1}, {4}, {3}]))
  {
  }

  lemma SharedChainRun()
    ensures var w := [{0}, {1}, {4}, {3}];
            && Path(AnyInitial, AsWritten, SharedChain(), Full({0, 1, 2, 3, 4}), w)
            && After(AsWritten, SharedChain(), Full({0, 1, 2, 3, 4}), w) == State({}, {4})
  {
    var R := SharedChain();
    var s0, s1 := Full({0, 1, 2, 3, 4}), State({1, 3, 4}, {});
    SingleStep(R, s0, 0, s1);
    SingleStep(R, s1, 1, State({3, 4}, {2}));
    SharedChainTail();
    assert [{0}, {1}, {4}, {3}][1..] == [{1}, {4}, {3}];
    assert [{1}, {4}, {3}][1..] == [{4}, {3}];
    assert Path(AnyInitial, AsWritten, R, s1, [{1}, {4}, {3}]);
    assert After(AsWritten, R, s1, [{1}, {4}, {3}]) == State({}, {4});
  }

  lemma SharedChainTail()
    ensures var w := [{4}, {3}];
            && Path(AnyInitial, AsWritten, SharedChain(), State({3, 4}, {2}), w)
            && After(AsWritten, SharedChain(), State({3, 4}, {2}), w) == State({}, {4})
  {
  }

  /** AS-AD prints [0], [1], [4] when asked for 4, although 4 is in no admissible set. */
  lemma AsWrittenAnswersWrongly(E: set<Arg>)
    ensures Answers(AsWritten, SharedChain(), Full({0, 1, 2, 3, 4}), 4, [{0}, {1}, {4}])
    ensures Admissible(SharedChain(), {0, 1, 2, 3, 4}, E) ==> 4 !in E
  {
    var R, A, w: seq<set<Arg>> := SharedChain(), {0, 1, 2, 3, 4}, [{0}, {1}, {4}, {3}];
    SharedChainRun();
    PathPrefix(AnyInitial, AsWritten, R, Full(A), w, 3);
    assert w[..3] == [{0}, {1}, {4}];
    SharedChainRejects(E);
  }

  lemma SharedChainRejects(E: set<Arg>)
    ensures 4 in E ==> exists a :: a in E && !Defends(SharedChain(), {0, 1, 2, 3, 4}, E, a)
  {
    var R, A: set<Arg> := SharedChain(), {0, 1, 2, 3, 4};
    assert !Defends(R, A, E, 2) by { assert (0, 2) in R && !Hits(R, E, 0); }
    assert 2 in E || !Defends(R, A, E, 4) by { assert (3, 4) in R && (Hits(R, E, 3) ==> 2 in E); }
  }

  // --------------------------------------------------------------------- ES-UC and ES-PR

  /** Arguments 0 and 1 attack 2, 2 attacks 3, 3 attacks itself and 4. */
  function SelfAttack(): Relation {
    {(0, 2), (1, 2), (2, 3), (3, 3), (3, 4)}
  }

  /** If all remaining attackers of `a` attack themselves, nothing challenges it. */
  lemma SingleUnchallenged(R: Relation, st: State, a: Arg)
    requires forall b :: b in st.active && (b, a) in R ==> (b, b) in R
    ensures !Challenged(R, st, {a})
  {
  }

  /** ES-UC prints [0], [1], [4], although nothing defends 4 against 3. */
  lemma AsWrittenKeepsUndefended()
    ensures var R, A, w := SelfAttack(), {0, 1, 2, 3, 4}, [{0}, {1}, {4}];
            Emitted(UC(false), AsWritten, R, Full(A), w) && !Admissible(R, A, Union(w))
  {
    SelfAttackChoices();
    SelfAttackLastChoice();
    TwoSteps(UnchallengedInitial, AsWritten, SelfAttack(), Full({0, 1, 2, 3, 4}), {0}, State({1, 3, 4}, {}), {1}, State({3, 4}, {2}));
    ThirdStep(UnchallengedInitial, AsWritten, SelfAttack(), Full({0, 1, 2, 3, 4}), {0}, {1}, {4});
    SelfAttackUndefended();
  }

  lemma SelfAttackChoices()
    ensures var R, s0, s1, s2 := SelfAttack(), Full({0, 1, 2, 3, 4}), State({1, 3, 4}, {}), State({3, 4}, {2});
            && Choice(UnchallengedInitial, R, s0, {0}) && Next(AsWritten, R, s0, {0}) == s1
            && Choice(UnchallengedInitial, R, s1, {1}) && Next(AsWritten, R, s1, {1}) == s2
  {
    var R, s0, s1, s2 := SelfAttack(), Full({0, 1, 2, 3, 4}), State({1, 3, 4}, {}), State({3, 4}, {2});
    SingleStep(R, s0, 0, s1);
    SingleStep(R, s1, 1, s2);
    SingleUnchallenged(R, s0, 0);
    SingleUnchallenged(R, s1, 1);
  }

  lemma SelfAttackLastChoice()
    ensures Choice(UnchallengedInitial, SelfAttack(), State({3, 4}, {2}), {4})
  {
    SelfAttackOffers(State({3, 4}, {2}));
    SingleUnchallenged(SelfAttack(), State({3, 4}, {2}), 4);
  }

  lemma SelfAttackUndefended()
    ensures !Admissible(SelfAttack(), {0, 1, 2, 3, 4}, Union([{0}, {1}, {4}]))
  {
    var R, A: set<Arg>, E := SelfAttack(), {0, 1, 2, 3, 4}, Union([{0}, {1}, {4}]);
    assert E == {0, 1, 4} by { ThreeSets({0}, {1}, {4}); }
    assert (3, 4) in R && !Hits(R, E, 3);
    assert !Defends(R, A, E, 4);
  }

  lemma ThreeSets(S: set<Arg>, T: set<Arg>, U: set<Arg>)
    ensures Union([S, T, U]) == S + T + U
  {
    assert [S, T, U][1..] == [T, U] && [T, U][1..] == [U] && [U][1..] == [];
    assert Union([U]) == U && Union([T, U]) == T + U;
  }

  /** Its preferred extension {0, 1} is never printed by ES-PR: each run for it goes on
      to choose 4. */
  lemma AsWrittenMissesPreferred(w: seq<set<Arg>>)
    ensures Preferred(SelfAttack(), {0, 1, 2, 3, 4}, {0, 1})
    ensures Union(w) == {0, 1} ==> !Emitted(PR, AsWritten, SelfAttack(), Full({0, 1, 2, 3, 4}), w)
  {
    SelfAttackPreferred();
    if Union(w) == {0, 1} && Path(AnyInitial, AsWritten, SelfAttack(), Full({0, 1, 2, 3, 4}), w) {
      SelfAttackGoesOn(w);
    }
  }

  lemma SelfAttackPreferred()
    ensures Preferred(SelfAttack(), {0, 1, 2, 3, 4}, {0, 1})
  {
    var R, A: set<Arg> := SelfAttack(), {0, 1, 2, 3, 4};
    forall T: set<Arg> | {0, 1} < T
      ensures !Admissible(R, A, T)
    {
      assert 2 in T ==> !ConflictFree(R, T) by { assert (0, 2) in R; }
      assert 3 in T ==> !ConflictFree(R, T) by { assert (3, 3) in R; }
      assert Hits(R, T, 3) ==> 2 in T || 3 in T;
      assert 4 in T && !Hits(R, T, 3) ==> !Defends(R, A, T, 4) by { assert (3, 4) in R; }
    }
  }

  lemma SelfAttackGoesOn(w: seq<set<Arg>>)
    requires Path(AnyInitial, AsWritten, SelfAttack(), Full({0, 1, 2, 3, 4}), w) && Union(w) == {0, 1}
    ensures Choice(AnyInitial, SelfAttack(), After(AsWritten, SelfAttack(), Full({0, 1, 2, 3, 4}), w), {4})
  {
    var R, A: set<Arg> := SelfAttack(), {0, 1, 2, 3, 4};
    var n := |w| - 1;
    var v, S := w[..n], w[n];
    assert w == v + [S];
    UnionSnoc(v, S);
    PathSnoc(AnyInitial, AsWritten, R, Full(A), v, S);
    SameActive(R, A, v);
    StaleAfter(R, A, v, S);
    PathShape(AnyInitial, AsWritten, R, Full(A), w);
    assert v != [] by {
      assert v == [] ==> S == {0, 1};
      SelfAttackPair();
    }
    assert w[0] != {} && w[0] == v[0] && v[0] <= Union(v);
    SelfAttackStale(Union(v), S);
    SelfAttackOffers(After(AsWritten, R, Full(A), w));
  }

  lemma SelfAttackPair()
    ensures !MinimalAcceptable(SelfAttack(), Full({0, 1, 2, 3, 4}), {0, 1})
  {
    assert {0} < {0, 1};
    assert Acceptable(SelfAttack(), Full({0, 1, 2, 3, 4}), {0});
  }

  lemma SelfAttackStale(U: set<Arg>, S: set<Arg>)
    requires U != {} && S != {} && U + S == {0, 1}
    ensures Reduct(SelfAttack(), {0, 1, 2, 3, 4}, U + S) == {3, 4}
    ensures 2 in Leftover(SelfAttack(), Reduct(SelfAttack(), {0, 1, 2, 3, 4}, U), S)
  {
    var R, A: set<Arg> := SelfAttack(), {0, 1, 2, 3, 4};
    var u, a :| u in U && a in S;
    assert (u, 2) in R && (a, 2) in R;
    assert Hits(R, U, 2);
    var p := (a, 2);
    assert p in R && p.0 in S && p.1 !in Reduct(R, A, U);
    assert (0, 2) in R && Hits(R, U + S, 2);
  }

  lemma SelfAttackOffers(st: State)
    requires st.active == {3, 4} && 2 in st.stale
    ensures MinimalAcceptable(SelfAttack(), st, {4})
  {
    assert (2, 3) in SelfAttack() && Hits(SelfAttack(), {4} + st.stale, 3);
  }

  /** Arguments 0 and 1 attack 2, 2 attacks 3, 3 attacks 4, and 4 and 5 attack each other. */
  function ChainAndPair(): Relation {
    {(0, 2), (1, 2), (2, 3), (3, 4), (4, 5), (5, 4)}
  }

  /** ES-UC never prints the meant sequence [0], [1], [5]: with the stale bit of 2, the
      set {4} seems defended and challenges {5}. */
  lemma AsWrittenLosesUnchallenged()
    ensures var R, A, w := ChainAndPair(), {0, 1, 2, 3, 4, 5}, [{0}, {1}, {5}];
            Emitted(UC(false), Meant, R, Full(A), w) && !Emitted(UC(false), AsWritten, R, Full(A), w)
  {
    var R, s0, s1 := ChainAndPair(), Full({0, 1, 2, 3, 4, 5}), State({1, 3, 4, 5}, {});
    ChainAndPairFirst();
    ChainAndPairSecond();
    TwoSteps(UnchallengedInitial, AsWritten, R, s0, {0}, s1, {1}, State({3, 4, 5}, {2}));
    ThirdStep(UnchallengedInitial, AsWritten, R, s0, {0}, {1}, {5});
    TwoSteps(UnchallengedInitial, Meant, R, s0, {0}, s1, {1}, Full({3, 4, 5}));
    ThirdStep(UnchallengedInitial, Meant, R, s0, {0}, {1}, {5});
    ChainAndPairChallenge();
    ChainAndPairKeeps();
  }

  lemma ChainAndPairFirst()
    ensures var R, s0, s1 := ChainAndPair(), Full({0, 1, 2, 3, 4, 5}), State({1, 3, 4, 5}, {});
            && Choice(UnchallengedInitial, R, s0, {0})
            && Next(AsWritten, R, s0, {0}) == s1 && Next(Meant, R, s0, {0}) == s1
  {
    SingleStep(ChainAndPair(), Full({0, 1, 2, 3, 4, 5}), 0, State({1, 3, 4, 5}, {}));
    SingleUnchallenged(ChainAndPair(), Full({0, 1, 2, 3, 4, 5}), 0);
  }

  lemma ChainAndPairSecond()
    ensures var R, s1 := ChainAndPair(), State({1, 3, 4, 5}, {});
            && Choice(UnchallengedInitial, R, s1, {1})
            && Next(AsWritten, R, s1, {1}) == State({3, 4, 5}, {2}) && Next(Meant, R, s1, {1}) == Full({3, 4, 5})
  {
    SingleStep(ChainAndPair(), State({1, 3, 4, 5}, {}), 1, State({3, 4, 5}, {2}));
    SingleUnchallenged(ChainAndPair(), State({1, 3, 4, 5}, {}), 1);
  }

  lemma ChainAndPairChallenge()
    ensures Challenged(ChainAndPair(), State({3, 4, 5}, {2}), {5})
  {
    var R, s2 := ChainAndPair(), State({3, 4, 5}, {2});
    SingleStep(R, s2, 4, State({3}, {}));
    assert (4, 5) in R && Hits(R, {4}, 5) && HitsSet(R, {4}, {5});
  }

  lemma ChainAndPairKeeps()
    ensures Choice(UnchallengedInitial, ChainAndPair(), Full({3, 4, 5}), {5})
  {
    var R, Q: set<Arg> := ChainAndPair(), {3, 4, 5};
    SingleStep(R, Full(Q), 5, State({3}, {}));
    forall T | HitsSet(R, T, {5})
      ensures !MinimalAcceptable(R, Full(Q), T)
    {
      CleanAcceptable(R, Q, T);
      assert 4 in T;
      assert T <= Q ==> !Defends(R, Q, T, 4) by { assert (3, 4) in R; }
    }
  }

  // ------------------------------------------------------------------ ES-SA, ES-GR and ES-CO

  /** 0 attacks 1 and 2; 3 attacks 1 and 1 attacks 4; 4 attacks 2 and 2 attacks 3. */
  function MutualMask(): Relation {
    {(0, 1), (0, 2), (3, 1), (1, 4), (4, 2), (2, 3)}
  }

  /** Its grounded extension is {0, 3, 4}, and as written neither ES-GR nor ES-SA
      ever prints it. */
  lemma AsWrittenMissesGrounded(w: seq<set<Arg>>)
    ensures Within(MutualMask(), {0, 1, 2, 3, 4})
    ensures Grounded(MutualMask(), {0, 1, 2, 3, 4}, {0, 3, 4})
    ensures Union(w) == {0, 3, 4} ==>
            && !Emitted(SA, AsWritten, MutualMask(), Full({0, 1, 2, 3, 4}), w)
            && !Emitted(GR, AsWritten, MutualMask(), Full({0, 1, 2, 3, 4}), w)
  {
    MutualMaskGrounded();
    MutualMaskUnprinted(w, {0, 1, 2, 3, 4});
  }

  lemma MutualMaskUnprinted(w: seq<set<Arg>>, A: set<Arg>)
    requires A == {0, 1, 2, 3, 4}
    ensures Within(MutualMask(), A)
    ensures Union(w) == {0, 3, 4} ==>
            && !Emitted(SA, AsWritten, MutualMask(), Full(A), w)
            && !Emitted(GR, AsWritten, MutualMask(), Full(A), w)
  {
    StrongAsWrittenIff(MutualMask(), A, w);
    if Union(w) == {0, 3, 4} && Path(UnattackedArgument, Meant, MutualMask(), Full(A), w) {
      MutualMaskMasked(w);
    }
  }

  lemma MutualMaskMasked(w: seq<set<Arg>>)
    requires Path(UnattackedArgument, Meant, MutualMask(), Full({0, 1, 2, 3, 4}), w) && Union(w) == {0, 3, 4}
    ensures !Unmasked(MutualMask(), {0, 1, 2, 3, 4}, w)
  {
    MutualMaskOrder(w);
    assert w[..2] == [w[0], w[1]];
    if w[1] == {3} {
      MutualMasking(w[..2], 3, 1, 4);
      assert 4 in w[2];
    } else {
      MutualMasking(w[..2], 4, 2, 3);
      assert 3 in w[2];
    }
  }

  lemma MutualMasking(v: seq<set<Arg>>, x: Arg, b: Arg, y: Arg)
    requires v == [{0}, {x}] && (x == 3 || x == 4) && b == x - 2 && y == 7 - x
    ensures Masked(MutualMask(), {0, 1, 2, 3, 4}, v, y)
  {
    var R, A: set<Arg> := MutualMask(), {0, 1, 2, 3, 4};
    assert v[..1] == [{0}] && Union([{0}]) == {0};
    var p := (x, b);
    assert p in R && (0, b) in R && Hits(R, {0}, b);
    assert b in HitAgain(R, A, {0}, {x});
    assert (b, y) in R;
  }

  /** Instead ES-GR and ES-CO print [0], [3], whose union is admissible but defends 4
      without containing it. */
  lemma AsWrittenStopsEarly()
    ensures var R, A, w := MutualMask(), {0, 1, 2, 3, 4}, [{0}, {3}];
            && Emitted(GR, AsWritten, R, Full(A), w) && Emitted(CO, AsWritten, R, Full(A), w)
            && !Complete(R, A, Union(w))
  {
    MutualMaskChoices();
    TwoSteps(UnattackedArgument, AsWritten, MutualMask(), Full({0, 1, 2, 3, 4}), {0}, State({3, 4}, {}), {3}, State({4}, {1}));
    TwoSteps(AnyInitial, AsWritten, MutualMask(), Full({0, 1, 2, 3, 4}), {0}, State({3, 4}, {}), {3}, State({4}, {1}));
    MutualMaskStops();
    assert Union([{0}, {3}]) == {0, 3} by {
      assert [{0}, {3}][1..] == [{3}] && Union([{3}]) == {3};
    }
    MutualMaskDefended({0, 3});
  }

  lemma MutualMaskChoices()
    ensures var R, s0, s1 := MutualMask(), Full({0, 1, 2, 3, 4}), State({3, 4}, {});
            && Choice(UnattackedArgument, R, s0, {0}) && Choice(AnyInitial, R, s0, {0}) && Next(AsWritten, R, s0, {0}) == s1
            && Choice(UnattackedArgument, R, s1, {3}) && Choice(AnyInitial, R, s1, {3})
            && Next(AsWritten, R, s1, {3}) == State({4}, {1})
  {
    MutualMaskStep(Full({0, 1, 2, 3, 4}), 0, State({3, 4}, {}));
    MutualMaskStep(State({3, 4}, {}), 3, State({4}, {1}));
  }

  lemma MutualMaskStep(st: State, a: Arg, next: State)
    requires a in st.active && !Hits(MutualMask(), st.active + st.stale, a)
    requires forall b :: b in next.active <==> b in st.active && b != a && (a, b) !in MutualMask()
    requires forall b :: b in next.stale <==> b !in st.active && (a, b) in MutualMask()
    ensures Choice(UnattackedArgument, MutualMask(), st, {a}) && Choice(AnyInitial, MutualMask(), st, {a})
    ensures Next(AsWritten, MutualMask(), st, {a}) == next
  {
    UnattackedIsMinimal(MutualMask(), st, a);
    SingleStep(MutualMask(), st, a, next);
    assert Unattacked(MutualMask(), st, a);
  }

  lemma MutualMaskStops()
    ensures Stops(GR, MutualMask(), State({4}, {1})) && Stops(CO, MutualMask(), State({4}, {1}))
  {
    var R, s2 := MutualMask(), State({4}, {1});
    assert (1, 4) in R && 1 in s2.active + s2.stale;
    StrongStops(R, s2);
    CompleteStops(R, s2);
  }

  lemma MutualMaskGrounded()
    ensures Grounded(MutualMask(), {0, 1, 2, 3, 4}, {0, 3, 4})
  {
    var R, A: set<Arg>, G: set<Arg> := MutualMask(), {0, 1, 2, 3, 4}, {0, 3, 4};
    MutualMaskDefended(G);
    assert !Hits(R, G, 0) && !Hits(R, G, 3) && !Hits(R, G, 4);
    assert !Defends(R, A, G, 1) by { assert (0, 1) in R; }
    assert !Defends(R, A, G, 2) by { assert (0, 2) in R; }
    forall X | Characteristic(R, A, X) <= X
      ensures G <= X
    {
      assert 0 in X by { assert Defends(R, A, X, 0); }
      MutualMaskDefended(X);
    }
  }

  lemma MutualMaskDefended(X: set<Arg>)
    requires 0 in X
    ensures var R, A: set<Arg> := MutualMask(), {0, 1, 2, 3, 4};
            Defends(R, A, X, 0) && Defends(R, A, X, 3) && Defends(R, A, X, 4)
  {
  }

  /** A meant sequence for {0, 3, 4} starts with 0. */
  lemma MutualMaskOrder(w: seq<set<Arg>>)
    requires Path(UnattackedArgument, Meant, MutualMask(), Full({0, 1, 2, 3, 4}), w) && Union(w) == {0, 3, 4}
    ensures |w| == 3 && w[0] == {0}
    ensures (w[1] == {3} && w[2] == {4}) || (w[1] == {4} && w[2] == {3})
  {
    var R, A: set<Arg> := MutualMask(), {0, 1, 2, 3, 4};
    PathShape(UnattackedArgument, Meant, R, Full(A), w);
    PathIsSingletons(Meant, R, Full(A), w);
    SingletonsCount(w);
    assert |{0, 3, 4}| == 3;
    InUnion(w);
    assert w[0] <= Union(w) && w[1] <= Union(w) && w[2] <= Union(w);
    MutualMaskFirst(w[0]);
    assert w[1] == {3} || w[1] == {4} by { SingletonIn(w[1], {3, 4}); }
    assert w[2] == {3} || w[2] == {4} by { SingletonIn(w[2], {3, 4}); }
  }

  lemma MutualMaskFirst(S: set<Arg>)
    requires Choice(UnattackedArgument, MutualMask(), Full({0, 1, 2, 3, 4}), S) && S <= {0, 3, 4}
    ensures S == {0}
  {
  }

  lemma SingletonIn(S: set<Arg>, T: set<Arg>)
    requires |S| == 1 && S <= T
    ensures exists x :: x in T && S == {x}
  {
    var x :| x in S;
    SubsetSize(S - {x}, S);
    assert |S - {x}| == 0;
    assert S == {x};
  }
}
