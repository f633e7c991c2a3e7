/**
  Serialisation sequences: the runs of the solver's recursions, as a state
  machine, and what the sequences they print mean.

  A state is the pair of views the solver keeps of the remaining arguments: the
  array, and the bitset. `stale` holds the arguments whose bit is set although
  they are not in the array. `Meant` is the reduct the algorithms are designed
  around (no stale bits); `AsWritten` is the one the code computes.
 */
module Serialisation {
  import opened Dung

  datatype State = State(active: set<Arg>, stale: set<Arg>)

  datatype Mode = AsWritten | Meant

  /** Which sets a recursion may append to its sequence. */
  datatype ChoiceRule = AnyInitial | UnattackedArgument | UnchallengedInitial

  /** When a recursion prints the sequence it has built. */
  datatype StopRule = Always | NoChoiceLeft | NoUnattackedInitial | NothingActive

  datatype Task = Task(rule: ChoiceRule, stop: StopRule)

  const AD := Task(AnyInitial, Always)
  const PR := Task(AnyInitial, NoChoiceLeft)
  const CO := Task(AnyInitial, NoUnattackedInitial)
  const ST := Task(AnyInitial, NothingActive)
  const SA := Task(UnattackedArgument, Always)
  const GR := Task(UnattackedArgument, NoChoiceLeft)

  function UC(maximal: bool): Task {
    Task(UnchallengedInitial, if maximal then NoChoiceLeft else Always)
  }

  /** The state in which array and bitset both hold `A`. */
  function Full(A: set<Arg>): State {
    State(A, {})
  }

  // ------------------------------------------------------- what a state offers

  /** What the clauses require of a set: admissibility, except that an attacker
      with a stale attacker counts as defeated. */
  ghost predicate Acceptable(R: Relation, st: State, S: set<Arg>) {
    && S <= st.active
    && ConflictFree(R, S)
    && forall a :: a in S ==> Defends(R, st.active, S + st.stale, a)
  }

  ghost predicate MinimalAcceptable(R: Relation, st: State, S: set<Arg>) {
    && Acceptable(R, st, S)
    && S != {}
    && forall T {:trigger Acceptable(R, st, T)} :: T < S && T != {} ==> !Acceptable(R, st, T)
  }

  /** No attacker of `a` has its bit set. */
  ghost predicate Unattacked(R: Relation, st: State, a: Arg) {
    a in st.active && !Hits(R, st.active + st.stale, a)
  }

  ghost predicate Challenged(R: Relation, st: State, S: set<Arg>) {
    exists T :: MinimalAcceptable(R, st, T) && HitsSet(R, T, S)
  }

  ghost predicate Choice(rule: ChoiceRule, R: Relation, st: State, S: set<Arg>) {
    match rule
    case AnyInitial => MinimalAcceptable(R, st, S)
    case UnattackedArgument => exists a :: S == {a} && Unattacked(R, st, a)
    case UnchallengedInitial => MinimalAcceptable(R, st, S) && !Challenged(R, st, S)
  }

  ghost predicate Stops(task: Task, R: Relation, st: State) {
    match task.stop
    case Always => true
    case NoChoiceLeft => forall S :: !Choice(task.rule, R, st, S)
    case NoUnattackedInitial => forall a :: !(MinimalAcceptable(R, st, {a}) && Unattacked(R, st, a))
    case NothingActive => st.active == {}
  }

  // ------------------------------------------------------------------- the runs

  /** The inactive arguments that `S` attacks: their bits are set and not cleared. */
  ghost function Leftover(R: Relation, A: set<Arg>, S: set<Arg>): set<Arg> {
    set p | p in R && p.0 in S && p.1 !in A :: p.1
  }

  ghost function Next(mode: Mode, R: Relation, st: State, S: set<Arg>): State {
    State(Reduct(R, st.active, S),
          if mode == Meant then {} else Leftover(R, st.active, S))
  }

  ghost predicate Path(rule: ChoiceRule, mode: Mode, R: Relation, st: State, w: seq<set<Arg>>)
    decreases |w|
  {
    w == [] ||
    (Choice(rule, R, st, w[0]) && Path(rule, mode, R, Next(mode, R, st, w[0]), w[1..]))
  }

  ghost function After(mode: Mode, R: Relation, st: State, w: seq<set<Arg>>): State
    decreases |w|
  {
    if w == [] then st else After(mode, R, Next(mode, R, st, w[0]), w[1..])
  }

  /** `w` is one of the sequences the recursion for `task` prints from `st`. */
  ghost predicate Emitted(task: Task, mode: Mode, R: Relation, st: State, w: seq<set<Arg>>) {
    Path(task.rule, mode, R, st, w) && Stops(task, R, After(mode, R, st, w))
  }

  ghost function Union(w: seq<set<Arg>>): set<Arg> {
    if w == [] then {} else w[0] + Union(w[1..])
  }

  // -------------------------------------------------------- clean states, paths

  /** With no stale bit the clauses ask for plain admissibility. */
  lemma CleanAcceptable(R: Relation, A: set<Arg>, S: set<Arg>)
    ensures Acceptable(R, Full(A), S) <==> Admissible(R, A, S)
  {
  }

  lemma CleanInitial(R: Relation, A: set<Arg>, S: set<Arg>)
    ensures MinimalAcceptable(R, Full(A), S) <==> Initial(R, A, S)
  {
    forall T: set<Arg>
      ensures Acceptable(R, Full(A), T) <==> Admissible(R, A, T)
    {
      CleanAcceptable(R, A, T);
    }
  }

  lemma CleanUnattacked(R: Relation, A: set<Arg>, a: Arg)
    ensures Unattacked(R, Full(A), a) <==> a in A && !Hits(R, A, a)
  {
  }

  /** Whatever the rule, a choice is an initial set. */
  lemma ChoiceIsInitial(rule: ChoiceRule, R: Relation, A: set<Arg>, S: set<Arg>)
    requires Choice(rule, R, Full(A), S)
    ensures Initial(R, A, S)
  {
    CleanInitial(R, A, S);
    if rule == UnattackedArgument {
      var a :| S == {a} && Unattacked(R, Full(A), a);
      CleanUnattacked(R, A, a);
      UnattackedIsInitial(R, A, a);
    }
  }

  /** Only the union of a sequence matters for the state it leads to. */
  lemma {:induction false} MeantStates(R: Relation, A: set<Arg>, w: seq<set<Arg>>)
    ensures After(Meant, R, Full(A), w) == Full(Reduct(R, A, Union(w)))
    decreases |w|
  {
    if w == [] {
      assert Reduct(R, A, {}) == A;
    } else {
      MeantStates(R, Reduct(R, A, w[0]), w[1..]);
      ReductTwice(R, A, w[0], Union(w[1..]));
    }
  }

  /** Completeness of the plain recursion: every admissible set is serialisable. */
  lemma {:induction false} Serialise(R: Relation, A: set<Arg>, E: set<Arg>) returns (w: seq<set<Arg>>)
    requires Admissible(R, A, E)
    ensures Path(AnyInitial, Meant, R, Full(A), w) && Union(w) == E
    decreases E
  {
    if E == {} {
      w := [];
    } else {
      var S := InitialWithin(R, A, E);
      CleanInitial(R, A, S);
      RestrictAdmissible(R, A, S, E);
      assert E - S < E;
      var rest := Serialise(R, Reduct(R, A, S), E - S);
      w := [S] + rest;
      assert w[1..] == rest;
    }
  }

  /** Soundness of every recursion: what it has built so far is admissible. */
  lemma {:induction false} PathIsAdmissible(rule: ChoiceRule, R: Relation, A: set<Arg>, w: seq<set<Arg>>)
    requires Path(rule, Meant, R, Full(A), w)
    ensures Admissible(R, A, Union(w))
    decreases |w|
  {
    if w != [] {
      ChoiceIsInitial(rule, R, A, w[0]);
      PathIsAdmissible(rule, R, Reduct(R, A, w[0]), w[1..]);
      ExtendAdmissible(R, A, w[0], Union(w[1..]));
    }
  }

  /** A choice is non-empty and leaves strictly fewer arguments. */
  lemma ChoiceShrinks(rule: ChoiceRule, mode: Mode, R: Relation, st: State, S: set<Arg>)
    requires Choice(rule, R, st, S)
    ensures S != {} && S <= st.active
    ensures Next(mode, R, st, S).active <= st.active - S
    ensures |Next(mode, R, st, S).active| < |st.active|
  {
    var x :| x in S;
    SubsetSize(Next(mode, R, st, S).active, st.active - {x});
  }

  /** The sets of a sequence are non-empty and pairwise disjoint subsets of the
      active arguments, in either mode, so a run is no longer than the array. */
  lemma {:induction false} PathShape(rule: ChoiceRule, mode: Mode, R: Relation, st: State, w: seq<set<Arg>>)
    requires Path(rule, mode, R, st, w)
    ensures |w| <= |st.active|
    ensures forall i :: 0 <= i < |w| ==> w[i] != {} && w[i] <= st.active
    ensures forall i, j :: 0 <= i < j < |w| ==> w[i] !! w[j]
    decreases |w|
  {
    if w != [] {
      ChoiceShrinks(rule, mode, R, st, w[0]);
      PathShape(rule, mode, R, Next(mode, R, st, w[0]), w[1..]);
      assert forall i :: 0 < i < |w| ==> w[i] == w[1..][i - 1];
    }
  }

  lemma {:induction false} SubsetSize<T>(a: set<T>, b: set<T>)
    requires a <= b
    ensures |a| <= |b|
    decreases b
  {
    if a != {} {
      var x :| x in a;
      SubsetSize(a - {x}, b - {x});
    }
  }

  // ------------------------------------------------- what the stop tests compute

  /** ES-AD: the printed unions are exactly the admissible sets. */
  lemma AdmissibleUnions(R: Relation, A: set<Arg>, E: set<Arg>)
    ensures (exists w :: Emitted(AD, Meant, R, Full(A), w) && Union(w) == E) <==> Admissible(R, A, E)
  {
    if w :| Emitted(AD, Meant, R, Full(A), w) && Union(w) == E {
      PathIsAdmissible(AnyInitial, R, A, w);
    }
    if Admissible(R, A, E) {
      var w := Serialise(R, A, E);
      assert Emitted(AD, Meant, R, Full(A), w);
    }
  }

  /** ES-PR: stopping when no initial set is left characterises preferred
      extensions, sequence by sequence. */
  lemma PreferredStop(R: Relation, A: set<Arg>, w: seq<set<Arg>>)
    requires Path(AnyInitial, Meant, R, Full(A), w)
    ensures Emitted(PR, Meant, R, Full(A), w) <==> Preferred(R, A, Union(w))
  {
    PathIsAdmissible(AnyInitial, R, A, w);
    MeantStates(R, A, w);
    var Q := Reduct(R, A, Union(w));
    forall S: set<Arg>
      ensures Choice(AnyInitial, R, Full(Q), S) <==> Initial(R, Q, S)
    {
      CleanInitial(R, Q, S);
    }
    PreferredIffNoInitial(R, A, Union(w));
  }

  /** ES-CO: stopping when no unattacked initial set is left characterises
      complete extensions. */
  lemma CompleteStop(R: Relation, A: set<Arg>, w: seq<set<Arg>>)
    requires Path(AnyInitial, Meant, R, Full(A), w)
    ensures Emitted(CO, Meant, R, Full(A), w) <==> Complete(R, A, Union(w))
  {
    PathIsAdmissible(AnyInitial, R, A, w);
    MeantStates(R, A, w);
    var Q := Reduct(R, A, Union(w));
    forall a: Arg
      ensures MinimalAcceptable(R, Full(Q), {a}) && Unattacked(R, Full(Q), a) <==> a in Q && !Hits(R, Q, a)
    {
      CleanUnattacked(R, Q, a);
      CleanInitial(R, Q, {a});
      if a in Q && !Hits(R, Q, a) { UnattackedIsInitial(R, Q, a); }
    }
    CompleteIffNoUnattacked(R, A, Union(w));
  }

  /** ES-ST: stopping on the empty array characterises stable extensions. */
  lemma StableStop(R: Relation, A: set<Arg>, w: seq<set<Arg>>)
    requires Path(AnyInitial, Meant, R, Full(A), w)
    ensures Emitted(ST, Meant, R, Full(A), w) <==> Stable(R, A, Union(w))
  {
    PathIsAdmissible(AnyInitial, R, A, w);
    MeantStates(R, A, w);
    StableIffReductEmpty(R, A, Union(w));
  }

  /** The unions printed by ES-PR, ES-CO and ES-ST are exactly the preferred, the
      complete and the stable extensions. */
  lemma ExtensionUnions(R: Relation, A: set<Arg>, E: set<Arg>)
    ensures (exists w :: Emitted(PR, Meant, R, Full(A), w) && Union(w) == E) <==> Preferred(R, A, E)
    ensures (exists w :: Emitted(CO, Meant, R, Full(A), w) && Union(w) == E) <==> Complete(R, A, E)
    ensures (exists w :: Emitted(ST, Meant, R, Full(A), w) && Union(w) == E) <==> Stable(R, A, E)
  {
    forall w | Path(AnyInitial, Meant, R, Full(A), w)
      ensures Emitted(PR, Meant, R, Full(A), w) <==> Preferred(R, A, Union(w))
      ensures Emitted(CO, Meant, R, Full(A), w) <==> Complete(R, A, Union(w))
      ensures Emitted(ST, Meant, R, Full(A), w) <==> Stable(R, A, Union(w))
    {
      PreferredStop(R, A, w);
      CompleteStop(R, A, w);
      StableStop(R, A, w);
    }
    if Stable(R, A, E) { StableIsAdmissible(R, A, E); }
    if Admissible(R, A, E) {
      var w := Serialise(R, A, E);
      assert Path(AnyInitial, Meant, R, Full(A), w);
    }
  }

  // --------------------------------------------- grounded and strongly admissible

  /** An argument is unattacked in the reduct of an admissible set exactly when it
      is outside the set and defended by it. */
  lemma UnattackedIffDefended(R: Relation, A: set<Arg>, E: set<Arg>, a: Arg)
    requires Admissible(R, A, E)
    ensures Unattacked(R, Full(Reduct(R, A, E)), a) <==> a in A && a !in E && Defends(R, A, E, a)
  {
  }

  /** Everything chosen by the grounded recursion lies in every pre-fixed point. */
  lemma {:induction false} PathBelowFixpoints(R: Relation, A: set<Arg>, U: set<Arg>, w: seq<set<Arg>>, X: set<Arg>)
    requires Admissible(R, A, U) && U <= X && Characteristic(R, A, X) <= X
    requires Path(UnattackedArgument, Meant, R, Full(Reduct(R, A, U)), w)
    ensures Union(w) <= X
    decreases |w|
  {
    if w != [] {
      var a := StrongStep(R, A, U, w[0]);
      forall b | b in A && (b, a) in R
        ensures Hits(R, X, b)
      {
        HitsMonotone(R, U, X, b);
      }
      assert a in Characteristic(R, A, X);
      PathBelowFixpoints(R, A, U + w[0], w[1..], X);
    }
  }

  /** ES-GR: whatever order the arguments were chosen in, the printed sequence
      lists the grounded extension, one argument at a time. */
  lemma GroundedRuns(R: Relation, A: set<Arg>, w: seq<set<Arg>>)
    requires Emitted(GR, Meant, R, Full(A), w)
    ensures Grounded(R, A, Union(w))
    ensures forall i :: 0 <= i < |w| ==> |w[i]| == 1
    ensures forall i, j :: 0 <= i < j < |w| ==> w[i] !! w[j]
  {
    PathShape(UnattackedArgument, Meant, R, Full(A), w);
    PathIsSingletons(Meant, R, Full(A), w);
    GroundedStop(R, A, w);
    forall X | Characteristic(R, A, X) <= X
      ensures Union(w) <= X
    {
      assert Reduct(R, A, {}) == A;
      PathBelowFixpoints(R, A, {}, w, X);
    }
  }

  lemma GroundedStop(R: Relation, A: set<Arg>, w: seq<set<Arg>>)
    requires Emitted(GR, Meant, R, Full(A), w)
    ensures Characteristic(R, A, Union(w)) == Union(w)
  {
    var E := Union(w);
    PathIsAdmissible(UnattackedArgument, R, A, w);
    MeantStates(R, A, w);
    forall a | a in A && a !in E
      ensures !Defends(R, A, E, a)
    {
      UnattackedIffDefended(R, A, E, a);
      assert !Choice(UnattackedArgument, R, Full(Reduct(R, A, E)), {a});
    }
  }

  lemma {:induction false} PathIsSingletons(mode: Mode, R: Relation, st: State, w: seq<set<Arg>>)
    requires Path(UnattackedArgument, mode, R, st, w)
    ensures forall i :: 0 <= i < |w| ==> |w[i]| == 1
    decreases |w|
  {
    if w != [] {
      PathIsSingletons(mode, R, Next(mode, R, st, w[0]), w[1..]);
      forall i | 0 <= i < |w|
        ensures |w[i]| == 1
      {
        if 0 < i { assert w[i] == w[1..][i - 1]; }
      }
    }
  }

  /** Confluence: two complete runs print the same set. */
  lemma GroundedConfluence(R: Relation, A: set<Arg>, v: seq<set<Arg>>, w: seq<set<Arg>>)
    requires Emitted(GR, Meant, R, Full(A), v) && Emitted(GR, Meant, R, Full(A), w)
    ensures Union(v) == Union(w) && |v| == |w|
  {
    GroundedRuns(R, A, v);
    GroundedRuns(R, A, w);
    SingletonsCount(v);
    SingletonsCount(w);
  }

  lemma {:induction false} SingletonsCount(w: seq<set<Arg>>)
    requires forall i :: 0 <= i < |w| ==> |w[i]| == 1
    requires forall i, j :: 0 <= i < j < |w| ==> w[i] !! w[j]
    ensures |Union(w)| == |w|
  {
    if w != [] {
      SingletonsCount(w[1..]);
      InUnion(w[1..]);
      assert w[0] !! Union(w[1..]) by {
        forall x | x in Union(w[1..])
          ensures x !in w[0]
        {
          var i :| 0 <= i < |w[1..]| && x in w[1..][i];
          assert w[1..][i] == w[i + 1];
        }
      }
    }
  }

  lemma {:induction false} InUnion(w: seq<set<Arg>>)
    ensures forall x :: x in Union(w) <==> exists i :: 0 <= i < |w| && x in w[i]
  {
    if w != [] {
      InUnion(w[1..]);
      forall x: Arg
        ensures x in Union(w) <==> exists i :: 0 <= i < |w| && x in w[i]
      {
        if x in Union(w[1..]) {
          var i :| 0 <= i < |w[1..]| && x in w[1..][i];
          assert x in w[i + 1];
        }
        if i :| 0 < i < |w| && x in w[i] {
          assert x in w[1..][i - 1];
        }
      }
    }
  }

  /** From any stage, a strongly admissible superset can be completed. */
  lemma {:induction false} SerialiseStrongly(R: Relation, A: set<Arg>, U: set<Arg>, E: set<Arg>)
    returns (w: seq<set<Arg>>)
    requires Admissible(R, A, U) && U <= E && StronglyAdmissible(R, A, E)
    ensures Path(UnattackedArgument, Meant, R, Full(Reduct(R, A, U)), w)
    ensures U + Union(w) == E
    decreases E - U
  {
    if U == E {
      w := [];
    } else {
      var a := NextDefended(R, A, E, U);
      var Q := Reduct(R, A, U);
      UnattackedIffDefended(R, A, U, a);
      assert Choice(UnattackedArgument, R, Full(Q), {a});
      ChoiceIsInitial(UnattackedArgument, R, Q, {a});
      ExtendAdmissible(R, A, U, {a});
      ReductTwice(R, A, U, {a});
      var rest := SerialiseStrongly(R, A, U + {a}, E);
      w := [{a}] + rest;
      assert w[1..] == rest;
    }
  }

  /** One step of the recursion, seen from the whole framework: it adds an
      argument that what was chosen before defends. */
  lemma StrongStep(R: Relation, A: set<Arg>, U: set<Arg>, S: set<Arg>) returns (a: Arg)
    requires Admissible(R, A, U) && Choice(UnattackedArgument, R, Full(Reduct(R, A, U)), S)
    ensures S == {a} && a in A && a !in U && Defends(R, A, U, a)
    ensures Admissible(R, A, U + S)
    ensures Next(Meant, R, Full(Reduct(R, A, U)), S) == Full(Reduct(R, A, U + S))
  {
    var Q := Reduct(R, A, U);
    a :| S == {a} && Unattacked(R, Full(Q), a);
    UnattackedIffDefended(R, A, U, a);
    ChoiceIsInitial(UnattackedArgument, R, Q, S);
    ExtendAdmissible(R, A, U, S);
    ReductTwice(R, A, U, S);
  }

  /** Every prefix of a run supports the argument chosen next. */
  lemma {:induction false} PathIsStrong(R: Relation, A: set<Arg>, U: set<Arg>, w: seq<set<Arg>>)
    requires Admissible(R, A, U) && StronglyAdmissible(R, A, U)
    requires Path(UnattackedArgument, Meant, R, Full(Reduct(R, A, U)), w)
    ensures StronglyAdmissible(R, A, U + Union(w))
    decreases |w|
  {
    if w == [] {
      assert U + Union(w) == U;
    } else {
      var a := StrongStep(R, A, U, w[0]);
      GrowStrong(R, A, U, a);
      PathIsStrong(R, A, U + w[0], w[1..]);
      assert U + w[0] + Union(w[1..]) == U + Union(w);
    }
  }

  lemma {:induction false} GrowStrong(R: Relation, A: set<Arg>, U: set<Arg>, a: Arg)
    requires StronglyAdmissible(R, A, U) && a in A && a !in U && Defends(R, A, U, a)
    ensures StronglyAdmissible(R, A, U + {a})
  {
    forall x | x in U + {a}
      ensures Supported(R, A, U + {a}, x)
    {
      if x == a {
        assert Supports(R, A, U + {a}, U, a);
      } else {
        assert Supported(R, A, U, x);
        var T :| Supports(R, A, U, T, x);
        assert Supports(R, A, U + {a}, T, x);
      }
    }
  }

  /** ES-SA: the printed unions are exactly the strongly admissible sets. */
  lemma StronglyAdmissibleUnions(R: Relation, A: set<Arg>, E: set<Arg>)
    ensures (exists w :: Emitted(SA, Meant, R, Full(A), w) && Union(w) == E) <==> StronglyAdmissible(R, A, E)
  {
    assert Reduct(R, A, {}) == A;
    if w :| Emitted(SA, Meant, R, Full(A), w) && Union(w) == E {
      PathIsStrong(R, A, {}, w);
      assert {} + Union(w) == E;
    }
    if StronglyAdmissible(R, A, E) {
      var w := SerialiseStrongly(R, A, {}, E);
      assert {} + Union(w) == Union(w);
      assert Emitted(SA, Meant, R, Full(A), w);
    }
  }

  /** Any stage of the grounded recursion can be continued until it stops. */
  lemma {:induction false} RunToStop(rule: ChoiceRule, mode: Mode, R: Relation, st: State) returns (w: seq<set<Arg>>)
    ensures Emitted(Task(rule, NoChoiceLeft), mode, R, st, w)
    decreases |st.active|
  {
    if S :| Choice(rule, R, st, S) {
      ChoiceShrinks(rule, mode, R, st, S);
      var rest := RunToStop(rule, mode, R, Next(mode, R, st, S));
      w := [S] + rest;
      assert w[1..] == rest;
    } else {
      w := [];
    }
  }

  /** The grounded extension exists, and ES-GR prints it. */
  lemma GroundedIsPrinted(R: Relation, A: set<Arg>, G: set<Arg>)
    ensures (exists w :: Emitted(GR, Meant, R, Full(A), w) && Union(w) == G) <==> Grounded(R, A, G)
  {
    var w := RunToStop(UnattackedArgument, Meant, R, Full(A));
    GroundedRuns(R, A, w);
    forall v | Emitted(GR, Meant, R, Full(A), v)
      ensures Grounded(R, A, Union(v))
    {
      GroundedRuns(R, A, v);
    }
  }

  // ------------------------------------------------------------------ unchallenged

  /** Attack between initial sets is symmetric. */
  lemma InitialSetsAttackBack(R: Relation, A: set<Arg>, S: set<Arg>, T: set<Arg>)
    requires Initial(R, A, S) && Initial(R, A, T)
    ensures HitsSet(R, S, T) <==> HitsSet(R, T, S)
  {
  }

  /** Sets that survive the challenge filter can all be accepted together. */
  lemma UnchallengedTogether(R: Relation, A: set<Arg>, S: set<Arg>, T: set<Arg>)
    requires Choice(UnchallengedInitial, R, Full(A), S) && Choice(UnchallengedInitial, R, Full(A), T)
    ensures !HitsSet(R, S, T) && !HitsSet(R, T, S)
    ensures Admissible(R, A, S + T)
  {
  }

  lemma UnattackedIsUnchallenged(R: Relation, A: set<Arg>, a: Arg)
    requires a in A && !Hits(R, A, a)
    ensures Choice(UnchallengedInitial, R, Full(A), {a})
  {
  }

  /** ES-UC with `maximal`: every printed union is a complete extension. */
  lemma UnchallengedIsComplete(R: Relation, A: set<Arg>, w: seq<set<Arg>>)
    requires Emitted(UC(true), Meant, R, Full(A), w)
    ensures Complete(R, A, Union(w))
  {
    PathIsAdmissible(UnchallengedInitial, R, A, w);
    MeantStates(R, A, w);
    var Q := Reduct(R, A, Union(w));
    forall a | a in Q
      ensures Hits(R, Q, a)
    {
      if !Hits(R, Q, a) { UnattackedIsUnchallenged(R, Q, a); }
    }
    CompleteIffNoUnattacked(R, A, Union(w));
  }

  // -------------------------------------------------------------- query for one argument

  /** AS-AD: sequences whose last set contains `q` and no earlier one does. */
  ghost predicate Answers(mode: Mode, R: Relation, st: State, q: Arg, w: seq<set<Arg>>) {
    && w != []
    && Path(AnyInitial, mode, R, st, w)
    && q in w[|w| - 1]
    && forall i :: 0 <= i < |w| - 1 ==> q !in w[i]
  }

  /** Some sequence is printed for `q` iff `q` is in some admissible set. */
  lemma QueryIsCredulous(R: Relation, A: set<Arg>, q: Arg)
    ensures (exists w :: Answers(Meant, R, Full(A), q, w)) <==> exists E :: Admissible(R, A, E) && q in E
  {
    if w :| Answers(Meant, R, Full(A), q, w) {
      PathIsAdmissible(AnyInitial, R, A, w);
      InUnion(w);
      assert q in Union(w);
    }
    if E :| Admissible(R, A, E) && q in E {
      var w := Serialise(R, A, E);
      var v := CutAt(AnyInitial, Meant, R, Full(A), w, q);
      assert Answers(Meant, R, Full(A), q, v);
    }
  }

  /** The shortest prefix of a path that reaches `q`. */
  lemma {:induction false} CutAt(rule: ChoiceRule, mode: Mode, R: Relation, st: State, w: seq<set<Arg>>, q: Arg)
    returns (v: seq<set<Arg>>)
    requires Path(rule, mode, R, st, w) && q in Union(w)
    ensures v != [] && v <= w && Path(rule, mode, R, st, v)
    ensures q in v[|v| - 1] && forall i :: 0 <= i < |v| - 1 ==> q !in v[i]
    decreases |w|
  {
    if q in w[0] {
      v := [w[0]];
    } else {
      var rest := CutAt(rule, mode, R, Next(mode, R, st, w[0]), w[1..], q);
      v := [w[0]] + rest;
      assert v[1..] == rest;
    }
  }
}
