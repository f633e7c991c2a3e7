/**
  The recursions with the reduct the code computes: what each of them still
  guarantees on every framework, and exactly when it prints what is meant.
 */
module TasksAsWritten {
  import opened Dung
  import opened Serialisation
  import opened StaleBits

  // ------------------------------------------- what is printed on every framework

  /** From any state, stale bits or not, every admissible set can be built up. */
  lemma {:induction false} SerialiseAsWritten(R: Relation, st: State, E: set<Arg>) returns (w: seq<set<Arg>>)
    requires Admissible(R, st.active, E)
    ensures Path(AnyInitial, AsWritten, R, st, w) && Union(w) == E
    decreases E
  {
    if E == {} {
      w := [];
    } else {
      AdmissibleIsAcceptable(R, st, E);
      var S := MinimalWithin(R, st, E);
      RestrictAdmissible(R, st.active, S, E);
      assert E - S < E;
      var rest := SerialiseAsWritten(R, Next(AsWritten, R, st, S), E - S);
      w := [S] + rest;
      assert w[1..] == rest;
    }
  }

  /** ES-AD prints every admissible set. */
  lemma AdmissibleIsPrinted(R: Relation, A: set<Arg>, E: set<Arg>)
    requires Admissible(R, A, E)
    ensures exists w :: Emitted(AD, AsWritten, R, Full(A), w) && Union(w) == E
  {
    var w := SerialiseAsWritten(R, Full(A), E);
    assert Emitted(AD, AsWritten, R, Full(A), w);
  }

  /** ES-ST prints every stable extension. */
  lemma StableIsPrinted(R: Relation, A: set<Arg>, E: set<Arg>)
    requires Stable(R, A, E)
    ensures exists w :: Emitted(ST, AsWritten, R, Full(A), w) && Union(w) == E
  {
    StableIsAdmissible(R, A, E);
    var w := SerialiseAsWritten(R, Full(A), E);
    SameActive(R, A, w);
    StableIffReductEmpty(R, A, E);
    assert Emitted(ST, AsWritten, R, Full(A), w);
  }

  /** ES-CO prints every complete extension. */
  lemma CompleteIsPrinted(R: Relation, A: set<Arg>, E: set<Arg>)
    requires Complete(R, A, E)
    ensures exists w :: Emitted(CO, AsWritten, R, Full(A), w) && Union(w) == E
  {
    var w := SerialiseAsWritten(R, Full(A), E);
    CompleteIffNoUnattacked(R, A, E);
    var st := After(AsWritten, R, Full(A), w);
    SameActive(R, A, w);
    forall a | a in st.active
      ensures !Unattacked(R, st, a)
    {
      HitsMonotone(R, st.active, st.active + st.stale, a);
    }
    assert Emitted(CO, AsWritten, R, Full(A), w);
  }

  /** AS-AD prints something for every credulously accepted argument. */
  lemma CredulousIsAnswered(R: Relation, A: set<Arg>, E: set<Arg>, q: Arg)
    requires Admissible(R, A, E) && q in E
    ensures exists w :: Answers(AsWritten, R, Full(A), q, w)
  {
    var w := SerialiseAsWritten(R, Full(A), E);
    var v := CutAt(AnyInitial, AsWritten, R, Full(A), w, q);
    assert Answers(AsWritten, R, Full(A), q, v);
  }

  // -------------------------------------------- what a printed sequence is worth

  /** Each attacker left when a set was chosen is attacked by that set or a later one. */
  ghost predicate Repaired(R: Relation, A: set<Arg>, w: seq<set<Arg>>) {
    forall k, a, b :: 0 <= k < |w| && a in w[k] && b in Reduct(R, A, Union(w[..k])) && (b, a) in R ==>
      Hits(R, Union(w[k..]), b)
  }

  lemma {:induction false} UnionConcat(v: seq<set<Arg>>, w: seq<set<Arg>>)
    ensures Union(v + w) == Union(v) + Union(w)
  {
    if v == [] {
      assert v + w == w;
    } else {
      UnionConcat(v[1..], w);
      assert (v + w)[1..] == v[1..] + w;
    }
  }

  /** What a run chooses is part of the reduct by what it chose before. */
  lemma StepWithin(R: Relation, A: set<Arg>, w: seq<set<Arg>>, k: nat)
    requires Path(AnyInitial, AsWritten, R, Full(A), w) && k < |w|
    ensures w[k] <= Reduct(R, A, Union(w[..k])) && ConflictFree(R, w[k])
    ensures Union(w) == Union(w[..k]) + Union(w[k..]) && w[k] <= Union(w[k..])
  {
    PathPrefix(AnyInitial, AsWritten, R, Full(A), w, k + 1);
    assert w[..k + 1] == w[..k] + [w[k]];
    LastWithin(R, A, w[..k], w[k]);
    SplitUnion(w, k);
  }

  lemma LastWithin(R: Relation, A: set<Arg>, v: seq<set<Arg>>, S: set<Arg>)
    requires Path(AnyInitial, AsWritten, R, Full(A), v + [S])
    ensures S <= Reduct(R, A, Union(v)) && ConflictFree(R, S)
  {
    PathSnoc(AnyInitial, AsWritten, R, Full(A), v, S);
    SameActive(R, A, v);
  }

  lemma SplitUnion(w: seq<set<Arg>>, k: nat)
    requires k < |w|
    ensures Union(w) == Union(w[..k]) + Union(w[k..]) && w[k] <= Union(w[k..])
  {
    UnionConcat(w[..k], w[k..]);
    assert w == w[..k] + w[k..];
  }

  /** Whatever comes later was still there. */
  lemma LaterStepWithin(R: Relation, A: set<Arg>, w: seq<set<Arg>>, k: nat, m: nat)
    requires Path(AnyInitial, AsWritten, R, Full(A), w) && k <= m < |w|
    ensures w[m] <= Reduct(R, A, Union(w[..k]))
  {
    StepWithin(R, A, w, m);
    assert w[..m] == w[..k] + w[k..m];
    UnionConcat(w[..k], w[k..m]);
    ReductAntitone(R, A, Union(w[..k]), Union(w[..m]));
  }

  lemma LaterWithin(R: Relation, A: set<Arg>, w: seq<set<Arg>>, k: nat)
    requires Path(AnyInitial, AsWritten, R, Full(A), w) && k < |w|
    ensures Union(w[k..]) <= Reduct(R, A, Union(w[..k]))
  {
    var tail, Q := w[k..], Reduct(R, A, Union(w[..k]));
    InUnion(tail);
    forall i | 0 <= i < |tail|
      ensures tail[i] <= Q
    {
      LaterStepWithin(R, A, w, k, k + i);
    }
  }

  /** A printed union is admissible exactly when every attacker that was waved
      through on account of a stale bit is attacked after all. */
  lemma AdmissibleIffRepaired(R: Relation, A: set<Arg>, w: seq<set<Arg>>)
    requires Path(AnyInitial, AsWritten, R, Full(A), w)
    ensures Admissible(R, A, Union(w)) <==> Repaired(R, A, w)
  {
    if Admissible(R, A, Union(w)) { AdmissibleIsRepaired(R, A, w); }
    if Repaired(R, A, w) { RepairedIsAdmissible(R, A, w); }
  }

  lemma AdmissibleIsRepaired(R: Relation, A: set<Arg>, w: seq<set<Arg>>)
    requires Path(AnyInitial, AsWritten, R, Full(A), w) && Admissible(R, A, Union(w))
    ensures Repaired(R, A, w)
  {
    forall k, a, b | 0 <= k < |w| && a in w[k] && b in Reduct(R, A, Union(w[..k])) && (b, a) in R
      ensures Hits(R, Union(w[k..]), b)
    {
      StepWithin(R, A, w, k);
      assert Defends(R, A, Union(w), a) && Hits(R, Union(w), b);
      var c :| c in Union(w) && (c, b) in R;
      assert c !in Union(w[..k]);
    }
  }

  /** In a repaired run no chosen argument is attacked by a chosen one: such an
      attacker came later, was itself attacked later still, and so on. */
  lemma {:induction false} NothingAttacks(R: Relation, A: set<Arg>, w: seq<set<Arg>>, j: nat)
    requires Path(AnyInitial, AsWritten, R, Full(A), w) && Repaired(R, A, w) && j < |w|
    ensures forall x :: x in w[j] ==> !Hits(R, Union(w), x)
    decreases |w| - j
  {
    StepWithin(R, A, w, j);
    LaterWithin(R, A, w, j);
    forall x | x in w[j]
      ensures !Hits(R, Union(w), x)
    {
      if Hits(R, Union(w), x) {
        var c :| c in Union(w) && (c, x) in R;
        AttackerComesLater(R, A, w, j, x, c);
        assert Hits(R, Union(w[j..]), c);
        HitsMonotone(R, Union(w[j..]), Union(w), c);
        InUnion(w);
        var m :| 0 <= m < |w| && c in w[m];
        ChosenLater(R, A, w, j, m, c);
        NothingAttacks(R, A, w, m);
      }
    }
  }

  lemma AttackerComesLater(R: Relation, A: set<Arg>, w: seq<set<Arg>>, j: nat, x: Arg, c: Arg)
    requires Path(AnyInitial, AsWritten, R, Full(A), w) && j < |w|
    requires x in w[j] && c in Union(w) && (c, x) in R
    ensures c in Union(w[j..]) && c !in w[j] && c in Reduct(R, A, Union(w[..j]))
  {
    StepWithin(R, A, w, j);
    LaterWithin(R, A, w, j);
    var U := Union(w[..j]);
    assert c in U ==> Hits(R, U, x);
  }

  lemma EarlierInUnion(w: seq<set<Arg>>, j: nat, m: nat)
    requires m < j <= |w|
    ensures w[m] <= Union(w[..j])
  {
    InUnion(w[..j]);
    assert w[..j][m] == w[m];
  }

  lemma ChosenLater(R: Relation, A: set<Arg>, w: seq<set<Arg>>, j: nat, m: nat, c: Arg)
    requires Path(AnyInitial, AsWritten, R, Full(A), w) && j < |w| && m < |w|
    requires c in w[m] && c !in w[j] && c in Reduct(R, A, Union(w[..j]))
    ensures m > j
  {
    if m < j { EarlierInUnion(w, j, m); }
  }

  lemma RepairedIsAdmissible(R: Relation, A: set<Arg>, w: seq<set<Arg>>)
    requires Path(AnyInitial, AsWritten, R, Full(A), w) && Repaired(R, A, w)
    ensures Admissible(R, A, Union(w))
  {
    InUnion(w);
    forall a | a in Union(w)
      ensures a in A && !Hits(R, Union(w), a) && Defends(R, A, Union(w), a)
    {
      var k :| 0 <= k < |w| && a in w[k];
      StepWithin(R, A, w, k);
      NothingAttacks(R, A, w, k);
      forall b | b in A && (b, a) in R
        ensures Hits(R, Union(w), b)
      {
        AttackerIsAttacked(R, A, w, k, a, b);
      }
    }
  }

  lemma AttackerIsAttacked(R: Relation, A: set<Arg>, w: seq<set<Arg>>, k: nat, a: Arg, b: Arg)
    requires Path(AnyInitial, AsWritten, R, Full(A), w) && Repaired(R, A, w)
    requires k < |w| && a in w[k] && b in A && (b, a) in R
    ensures Hits(R, Union(w), b)
  {
    StepWithin(R, A, w, k);
    if b in Reduct(R, A, Union(w[..k])) {
      HitsMonotone(R, Union(w[k..]), Union(w), b);
    } else {
      var U := Union(w[..k]);
      assert b in U ==> Hits(R, U, a);
      HitsMonotone(R, U, Union(w), b);
    }
  }

  lemma AcceptableIsOffered(R: Relation, st: State, E: set<Arg>)
    requires Acceptable(R, st, E) && E != {}
    ensures exists S :: Choice(AnyInitial, R, st, S)
  {
    var S := MinimalWithin(R, st, E);
    assert Choice(AnyInitial, R, st, S);
  }

  /** What ES-PR prints is preferred exactly when it is repaired. */
  lemma PrintedPreferred(R: Relation, A: set<Arg>, w: seq<set<Arg>>)
    requires Emitted(PR, AsWritten, R, Full(A), w)
    ensures Preferred(R, A, Union(w)) <==> Repaired(R, A, w)
  {
    AdmissibleIffRepaired(R, A, w);
    if Repaired(R, A, w) {
      var st := After(AsWritten, R, Full(A), w);
      SameActive(R, A, w);
      forall S: set<Arg>
        ensures !Initial(R, st.active, S)
      {
        if Initial(R, st.active, S) {
          AdmissibleIsAcceptable(R, st, S);
          AcceptableIsOffered(R, st, S);
        }
      }
      PreferredIffNoInitial(R, A, Union(w));
    }
  }

  /** What ES-ST prints is stable exactly when it is repaired. */
  lemma PrintedStable(R: Relation, A: set<Arg>, w: seq<set<Arg>>)
    requires Emitted(ST, AsWritten, R, Full(A), w)
    ensures Stable(R, A, Union(w)) <==> Repaired(R, A, w)
  {
    AdmissibleIffRepaired(R, A, w);
    SameActive(R, A, w);
    StableIffReductEmpty(R, A, Union(w));
    if Stable(R, A, Union(w)) { StableIsAdmissible(R, A, Union(w)); }
  }

  /** What ES-UC prints with `maximal` is complete exactly when it is repaired. */
  lemma PrintedUnchallenged(R: Relation, A: set<Arg>, w: seq<set<Arg>>)
    requires Emitted(UC(true), AsWritten, R, Full(A), w)
    ensures Complete(R, A, Union(w)) <==> Repaired(R, A, w)
  {
    UnchallengedPathIsPath(AsWritten, R, Full(A), w);
    AdmissibleIffRepaired(R, A, w);
    if Repaired(R, A, w) {
      var st := After(AsWritten, R, Full(A), w);
      SameActive(R, A, w);
      forall a | a in st.active
        ensures Hits(R, st.active, a)
      {
        if !Hits(R, st.active, a) {
          assert MinimalAcceptable(R, st, {a});
          assert Choice(UnchallengedInitial, R, st, {a});
        }
      }
      CompleteIffNoUnattacked(R, A, Union(w));
    }
  }

  lemma {:induction false} UnchallengedPathIsPath(mode: Mode, R: Relation, st: State, w: seq<set<Arg>>)
    requires Path(UnchallengedInitial, mode, R, st, w)
    ensures Path(AnyInitial, mode, R, st, w)
    decreases |w|
  {
    if w != [] { UnchallengedPathIsPath(mode, R, Next(mode, R, st, w[0]), w[1..]); }
  }
}
