/**
  The recursions ES-AD, ES-CO, ES-ST, ES-GR, ES-UC and AS-AD. Each is proved to
  print exactly the runs it is meant for, each once, with the reduct as written and
  with the meant one (`mode`). The entry points then say what that amounts to
  with the meant reduct.
 */
module Enumeration {
  import opened Dung
  import opened Serialisation
  import opened Framework
  import opened InitialSets
  import opened Algorithms
  import opened Output

  /** The sets returned by `enumerate_initial` are what the recursion may choose from. */
  lemma OffersInitial(order: seq<nat>, R: Relation, st: State, members: seq<nat>, offered: seq<seq<nat>>)
    requires ListsInitial(R, st, members, offered) && AllInitial(R, st, offered) && NoDup(members)
    requires Orderly(order, members)
    ensures Distinct(offered)
    ensures OffersAll(AnyInitial, R, st, offered) && OffersAll(UnchallengedInitial, R, st, offered)
    ensures forall k :: 0 <= k < |offered| ==> Choice(AnyInitial, R, st, Elems(offered[k])) && NoDup(offered[k])
    ensures Tidy(order, offered)
  {
    forall k | 0 <= k < |offered|
      ensures Orderly(order, offered[k])
    {
      OrderlyMeans(order, members);
      KeepsOrderTwice(order, members, offered[k]);
      OrderlyMeans(order, offered[k]);
    }
  }

  lemma TidySnoc(order: seq<nat>, sequence: Sequence, e: seq<nat>)
    requires Tidy(order, sequence) && Orderly(order, e)
    ensures Tidy(order, sequence + [e]) && Sets(sequence + [e]) == Sets(sequence) + [Elems(e)]
  {
  }

  /** The state and the sequence of the recursive call. */
  method Descend(mode: Mode, ghost order: seq<nat>, ghost rule: ChoiceRule, af: AF, active: IterableBitSet, next: seq<nat>, sequence: Sequence)
    returns (newActive: IterableBitSet, newSequence: Sequence)
    requires af.Valid() && active.Over(af.args) && Orderly(order, active.members)
    requires Tidy(order, sequence) && Orderly(order, next)
    requires Choice(rule, af.Attacks(), active.View(), Elems(next))
    ensures newActive.Over(af.args) && Orderly(order, newActive.members)
    ensures newActive.View() == Next(mode, af.Attacks(), active.View(), Elems(next))
    ensures |newActive.View().active| < |active.View().active|
    ensures newSequence == sequence + [next] && Tidy(order, newSequence)
    ensures Sets(newSequence) == Sets(sequence) + [Elems(next)]
  {
    ChoiceShrinks(rule, mode, af.Attacks(), active.View(), Elems(next));
    TidySnoc(order, sequence, next);
    newSequence := sequence + [next];
    newActive := TakeReduct(mode, af, active, next);
    OrderlyMeans(order, active.members);
    KeepsOrderTwice(order, active.members, newActive.members);
    OrderlyMeans(order, newActive.members);
  }

  // ------------------------------------------------------------------------ ES-AD

  method EnumerateSequencesAdmissible(mode: Mode, ghost order: seq<nat>, af: AF, active: IterableBitSet, preferred: bool, sequence: Sequence)
    returns (printed: seq<Sequence>)
    requires af.Valid() && active.Over(af.args) && Orderly(order, active.members) && Tidy(order, sequence)
    ensures Prints(order, printed, Sets(sequence), if preferred then PR else AD, mode, af.Attacks(), active.View())
    decreases |active.View().active|
  {
    ghost var task, R, st := if preferred then PR else AD, af.Attacks(), active.View();
    var isMaximal := true;
    var initialSets := EnumerateInitial(af, active);
    OffersInitial(order, R, st, active.members, initialSets);
    printed := [];
    LoopStart(order, Sets(sequence), task, mode, R, st, initialSets);
    for i := 0 to |initialSets|
      invariant Lists(order, printed, Sets(sequence), RunsUnder(task, mode, R, st, initialSets, i))
      invariant isMaximal <==> i == 0
    {
      isMaximal := false;
      var next := initialSets[i];
      assert Choice(task.rule, R, st, Elems(next));
      var newActive, newSequence := Descend(mode, order, task.rule, af, active, next, sequence);
      var more := EnumerateSequencesAdmissible(mode, order, af, newActive, preferred, newSequence);
      LoopStep(order, printed, more, Sets(sequence), task, mode, R, st, initialSets, i);
      printed := printed + more;
    }
    assert Stops(task, R, st) <==> !preferred || isMaximal by { PreferredTest(R, st, initialSets); }
    LoopEnd(order, printed, sequence, task, mode, R, st, initialSets);
    if !preferred || isMaximal {
      printed := printed + [sequence];
    }
  }

  lemma PreferredTest(R: Relation, st: State, offered: seq<seq<nat>>)
    requires OffersAll(AnyInitial, R, st, offered)
    requires forall k :: 0 <= k < |offered| ==> Choice(AnyInitial, R, st, Elems(offered[k]))
    ensures Stops(PR, R, st) <==> offered == []
  {
    forall S | Choice(AnyInitial, R, st, S)
      ensures offered != []
    {
      assert Returned(offered, S);
    }
    if offered != [] { assert Choice(AnyInitial, R, st, Elems(offered[0])); }
  }

  // ------------------------------------------------------------------ ES-CO, ES-GR

  /** The scan over the attackers of an argument: does any have its bit set? */
  method SeesAttacker(af: AF, active: IterableBitSet, arg: nat) returns (attacked: bool)
    requires af.Valid() && active.Over(af.args) && arg < af.args
    ensures attacked <==> Hits(af.Attacks(), active.View().active + active.View().stale, arg)
  {
    ghost var R, B := af.Attacks(), active.View().active + active.View().stale;
    af.AttacksMeaning();
    var atts := af.attackers[arg];
    attacked := false;
    for i := 0 to |atts|
      invariant !attacked && forall k :: 0 <= k < i ==> !active.bitset[atts[k]]
    {
      active.BitMeaning(af.args, atts[i]);
      if active.bitset[atts[i]] {
        attacked := true;
        assert (atts[i], arg) in R;
        break;
      }
    }
    if !attacked {
      forall b | b in B
        ensures (b, arg) !in R
      {
        active.BitMeaning(af.args, b);
      }
    }
  }

  method EnumerateSequencesComplete(mode: Mode, ghost order: seq<nat>, af: AF, active: IterableBitSet, sequence: Sequence)
    returns (printed: seq<Sequence>)
    requires af.Valid() && active.Over(af.args) && Orderly(order, active.members) && Tidy(order, sequence)
    ensures Prints(order, printed, Sets(sequence), CO, mode, af.Attacks(), active.View())
    decreases |active.View().active|
  {
    ghost var R, st := af.Attacks(), active.View();
    var hasUnattackedInitialSet := false;
    var initialSets := EnumerateInitial(af, active);
    OffersInitial(order, R, st, active.members, initialSets);
    printed := [];
    LoopStart(order, Sets(sequence), CO, mode, R, st, initialSets);
    for i := 0 to |initialSets|
      invariant Lists(order, printed, Sets(sequence), RunsUnder(CO, mode, R, st, initialSets, i))
      invariant hasUnattackedInitialSet <==> UnattackedAmong(R, st, initialSets, i)
    {
      var next := initialSets[i];
      assert Choice(CO.rule, R, st, Elems(next));
      var unattacked := IsUnattackedSingleton(af, active, next);
      hasUnattackedInitialSet := hasUnattackedInitialSet || unattacked;
      var newActive, newSequence := Descend(mode, order, CO.rule, af, active, next, sequence);
      var more := EnumerateSequencesComplete(mode, order, af, newActive, newSequence);
      LoopStep(order, printed, more, Sets(sequence), CO, mode, R, st, initialSets, i);
      printed := printed + more;
    }
    assert Stops(CO, R, st) <==> !hasUnattackedInitialSet by { CompleteTest(R, st, initialSets); }
    LoopEnd(order, printed, sequence, CO, mode, R, st, initialSets);
    if !hasUnattackedInitialSet {
      printed := printed + [sequence];
    }
  }

  ghost predicate UnattackedSingleton(R: Relation, st: State, e: seq<nat>) {
    |e| == 1 && Unattacked(R, st, e[0])
  }

  ghost predicate UnattackedAmong(R: Relation, st: State, offered: seq<seq<nat>>, i: nat)
    requires i <= |offered|
  {
    i > 0 && (UnattackedAmong(R, st, offered, i - 1) || UnattackedSingleton(R, st, offered[i - 1]))
  }

  lemma {:induction false} UnattackedAmongMeans(R: Relation, st: State, offered: seq<seq<nat>>, i: nat)
    requires i <= |offered|
    ensures UnattackedAmong(R, st, offered, i) <==> exists k :: 0 <= k < i && UnattackedSingleton(R, st, offered[k])
  {
    if i > 0 { UnattackedAmongMeans(R, st, offered, i - 1); }
  }

  method IsUnattackedSingleton(af: AF, active: IterableBitSet, s: seq<nat>) returns (unattacked: bool)
    requires af.Valid() && active.Over(af.args) && Elems(s) <= active.View().active
    ensures unattacked <==> UnattackedSingleton(af.Attacks(), active.View(), s)
  {
    unattacked := false;
    if |s| == 1 {
      assert s[0] in Elems(s);
      var isAttacked := SeesAttacker(af, active, s[0]);
      unattacked := !isAttacked;
    }
  }

  lemma CompleteTest(R: Relation, st: State, offered: seq<seq<nat>>)
    requires OffersAll(AnyInitial, R, st, offered)
    requires forall k :: 0 <= k < |offered| ==> Choice(AnyInitial, R, st, Elems(offered[k])) && NoDup(offered[k])
    ensures Stops(CO, R, st) <==> !UnattackedAmong(R, st, offered, |offered|)
  {
    UnattackedAmongMeans(R, st, offered, |offered|);
    if k :| 0 <= k < |offered| && UnattackedSingleton(R, st, offered[k]) {
      FoundSingleton(R, st, offered[k]);
    }
    if a: Arg :| MinimalAcceptable(R, st, {a}) && Unattacked(R, st, a) {
      assert Returned(offered, {a});
      FindSingleton(R, st, offered, a);
    }
  }

  lemma FoundSingleton(R: Relation, st: State, e: seq<nat>)
    requires MinimalAcceptable(R, st, Elems(e)) && UnattackedSingleton(R, st, e)
    ensures !Stops(CO, R, st)
  {
  }

  lemma FindSingleton(R: Relation, st: State, offered: seq<seq<nat>>, a: Arg)
    requires Returned(offered, {a}) && Unattacked(R, st, a)
    requires forall k :: 0 <= k < |offered| ==> NoDup(offered[k])
    ensures exists k :: 0 <= k < |offered| && UnattackedSingleton(R, st, offered[k])
  {
    var k :| 0 <= k < |offered| && Elems(offered[k]) == {a};
    SingletonList(offered[k], a);
    assert UnattackedSingleton(R, st, offered[k]);
  }

  lemma SingletonList(s: seq<nat>, a: nat)
    requires NoDup(s) && Elems(s) == {a}
    ensures s == [a]
  {
    assert a in Elems(s);
    assert |s| > 1 ==> s[0] != s[1];
    forall i | 0 <= i < |s|
      ensures s[i] == a
    {
      assert s[i] in Elems(s);
    }
  }

  /** `v` extends `w`, or where they first differ `v` has the argument that comes first
      in the array. */
  ghost predicate Earlier(order: seq<nat>, v: seq<set<Arg>>, w: seq<set<Arg>>) {
    (w <= v && |w| < |v|) || exists n, x, y :: DifferAt(v, w, n, x, y) && Before(order, x, y)
  }

  /** The first difference is at `n`: one has the single argument `x`, the other `y`. */
  ghost predicate DifferAt(v: seq<set<Arg>>, w: seq<set<Arg>>, n: nat, x: Arg, y: Arg) {
    n < |v| && n < |w| && v[..n] == w[..n] && v[n] == {x} && w[n] == {y}
  }

  ghost predicate InArrayOrder(order: seq<nat>, out: seq<Sequence>) {
    out == [] ||
    var n := |out| - 1;
    InArrayOrder(order, out[..n]) && forall i :: 0 <= i < n ==> Earlier(order, Sets(out[i]), Sets(out[n]))
  }

  lemma {:induction false} InArrayOrderMeans(order: seq<nat>, out: seq<Sequence>)
    ensures InArrayOrder(order, out) <==> forall i, j :: 0 <= i < j < |out| ==> Earlier(order, Sets(out[i]), Sets(out[j]))
  {
    if out != [] { InArrayOrderMeans(order, out[..|out| - 1]); }
  }

  lemma OrderStep(order: seq<nat>, out: seq<Sequence>, child: seq<Sequence>, pre: seq<set<Arg>>, task: Task, mode: Mode,
                  R: Relation, st: State, members: seq<nat>, offered: seq<seq<nat>>, i: int)
    requires Orderly(order, members) && |offered| == |members| && 0 <= i < |members|
    requires forall k :: 0 <= k < |members| ==> offered[k] == [members[k]]
    requires Lists(order, out, pre, RunsUnder(task, mode, R, st, offered, i))
    requires Prints(order, child, pre + [{members[i]}], task, mode, R, Next(mode, R, st, {members[i]}))
    requires InArrayOrder(order, out) && InArrayOrder(order, child)
    ensures InArrayOrder(order, out + child)
  {
    var both := out + child;
    InArrayOrderMeans(order, out);
    InArrayOrderMeans(order, child);
    InArrayOrderMeans(order, both);
    OrderlyMeans(order, members);
    forall a, b | 0 <= a < b < |both|
      ensures Earlier(order, Sets(both[a]), Sets(both[b]))
    {
      if a < |out| <= b {
        var v, w := Sets(out[a]), Sets(child[b - |out|]);
        assert pre <= v && v[|pre|..] in RunsUnder(task, mode, R, st, offered, i);
        assert pre + [{members[i]}] <= w;
        OrderAcross(order, pre, members, offered, i, v, w);
      } else if b < |out| {
        assert both[a] == out[a] && both[b] == out[b];
      } else {
        assert both[a] == child[a - |out|] && both[b] == child[b - |out|];
      }
    }
  }

  lemma OrderAcross(order: seq<nat>, pre: seq<set<Arg>>, members: seq<nat>, offered: seq<seq<nat>>, i: int,
                    v: seq<set<Arg>>, w: seq<set<Arg>>)
    requires KeepsOrder(order, members) && |offered| == |members| && 0 <= i < |members|
    requires forall k :: 0 <= k < |members| ==> offered[k] == [members[k]]
    requires pre <= v && Starts(v[|pre|..], offered, i) && pre + [{members[i]}] <= w
    ensures Earlier(order, v, w)
  {
    var k :| 0 <= k < i && v[|pre|..][0] == Elems(offered[k]);
    assert Elems(offered[k]) == {members[k]};
    assert w[|pre|] == (pre + [{members[i]}])[|pre|];
    assert DifferAt(v, w, |pre|, members[k], members[i]);
  }

  lemma OrderEnd(order: seq<nat>, out: seq<Sequence>, sequence: Sequence, task: Task, mode: Mode, R: Relation, st: State,
                 offered: seq<seq<nat>>)
    requires Lists(order, out, Sets(sequence), RunsUnder(task, mode, R, st, offered, |offered|))
    requires InArrayOrder(order, out)
    ensures InArrayOrder(order, out + [sequence])
  {
    var longer, pre := out + [sequence], Sets(sequence);
    InArrayOrderMeans(order, out);
    InArrayOrderMeans(order, longer);
    forall a, b | 0 <= a < b < |longer|
      ensures Earlier(order, Sets(longer[a]), Sets(longer[b]))
    {
      if b == |out| {
        assert pre <= Sets(out[a]) && Sets(out[a])[|pre|..] in RunsUnder(task, mode, R, st, offered, |offered|);
      } else {
        assert longer[a] == out[a] && longer[b] == out[b];
      }
    }
  }

  ghost function Singles(members: seq<nat>): seq<seq<nat>> {
    seq(|members|, k requires 0 <= k < |members| => [members[k]])
  }

  method EnumerateSequencesStronglyAdmissible(mode: Mode, ghost order: seq<nat>, af: AF, active: IterableBitSet,
                                              grounded: bool, sequence: Sequence)
    returns (printed: seq<Sequence>)
    requires af.Valid() && active.Over(af.args) && Orderly(order, active.members) && Tidy(order, sequence)
    ensures Prints(order, printed, Sets(sequence), if grounded then GR else SA, mode, af.Attacks(), active.View())
    ensures InArrayOrder(order, printed)
    decreases |active.View().active|, 2
  {
    ghost var task, R, st := if grounded then GR else SA, af.Attacks(), active.View();
    var isMaximal;
    isMaximal, printed := ArgumentLoop(mode, order, af, active, grounded, sequence);
    assert Stops(task, R, st) <==> !grounded || isMaximal by { GroundedTest(R, st, active.members); }
    OffersArguments(R, st, active.members, Singles(active.members));
    OrderEnd(order, printed, sequence, task, mode, R, st, Singles(active.members));
    LoopEnd(order, printed, sequence, task, mode, R, st, Singles(active.members));
    if !grounded || isMaximal {
      printed := printed + [sequence];
    }
  }

  /** The loop over the active arguments, with the flag it maintains. */
  method ArgumentLoop(mode: Mode, ghost order: seq<nat>, af: AF, active: IterableBitSet, grounded: bool, sequence: Sequence)
    returns (isMaximal: bool, printed: seq<Sequence>)
    requires af.Valid() && active.Over(af.args) && Orderly(order, active.members) && Tidy(order, sequence)
    ensures Lists(order, printed, Sets(sequence), RunsUnder(if grounded then GR else SA, mode, af.Attacks(), active.View(),
                                                            Singles(active.members), |active.members|))
    ensures InArrayOrder(order, printed)
    ensures isMaximal <==> NoneUnattacked(af.Attacks(), active.View(), active.members, |active.members|)
    decreases |active.View().active|, 1
  {
    isMaximal, printed := true, [];
    LoopStart(order, Sets(sequence), if grounded then GR else SA, mode, af.Attacks(), active.View(), Singles(active.members));
    for i := 0 to |active.members|
      invariant Lists(order, printed, Sets(sequence), RunsUnder(if grounded then GR else SA, mode, af.Attacks(), active.View(),
                                                                Singles(active.members), i))
      invariant InArrayOrder(order, printed)
      invariant isMaximal <==> NoneUnattacked(af.Attacks(), active.View(), active.members, i)
    {
      isMaximal, printed := TryArgument(mode, order, af, active, grounded, sequence, i, isMaximal, printed);
    }
  }

  /** The body of the loop: recurses if no attacker of the argument has its bit set. */
  method TryArgument(mode: Mode, ghost order: seq<nat>, af: AF, active: IterableBitSet, grounded: bool,
                     sequence: Sequence, i: nat, wasMaximal: bool, soFar: seq<Sequence>)
    returns (isMaximal: bool, printed: seq<Sequence>)
    requires af.Valid() && active.Over(af.args) && Orderly(order, active.members) && Tidy(order, sequence)
    requires i < |active.members|
    requires Lists(order, soFar, Sets(sequence), RunsUnder(if grounded then GR else SA, mode, af.Attacks(), active.View(),
                                                           Singles(active.members), i))
    requires InArrayOrder(order, soFar)
    requires wasMaximal <==> NoneUnattacked(af.Attacks(), active.View(), active.members, i)
    ensures Lists(order, printed, Sets(sequence), RunsUnder(if grounded then GR else SA, mode, af.Attacks(), active.View(),
                                                            Singles(active.members), i + 1))
    ensures InArrayOrder(order, printed)
    ensures isMaximal <==> NoneUnattacked(af.Attacks(), active.View(), active.members, i + 1)
    decreases |active.View().active|, 0
  {
    ghost var task, R, st := if grounded then GR else SA, af.Attacks(), active.View();
    ghost var offered := Singles(active.members);
    OffersArguments(R, st, active.members, offered);
    var arg := active.members[i];
    SingletonChoice(R, st, arg);
    assert Elems(offered[i]) == {arg};
    var attacked := SeesAttacker(af, active, arg);
    assert Unattacked(R, st, arg) <==> !attacked;
    isMaximal := wasMaximal && attacked;
    if attacked {
      LoopSkip(order, soFar, Sets(sequence), task, mode, R, st, offered, i);
      printed := soFar;
    } else {
      SingleOrderly(order, active.members, i);
      var newActive, newSequence := Descend(mode, order, task.rule, af, active, [arg], sequence);
      var more := EnumerateSequencesStronglyAdmissible(mode, order, af, newActive, grounded, newSequence);
      OrderStep(order, soFar, more, Sets(sequence), task, mode, R, st, active.members, offered, i);
      LoopStep(order, soFar, more, Sets(sequence), task, mode, R, st, offered, i);
      printed := soFar + more;
    }
  }

  lemma SingleOrderly(order: seq<nat>, members: seq<nat>, i: nat)
    requires Orderly(order, members) && i < |members|
    ensures Orderly(order, [members[i]])
  {
    OrderlyMeans(order, members);
    OrderlyMeans(order, [members[i]]);
  }

  ghost predicate NoneUnattacked(R: Relation, st: State, members: seq<nat>, i: nat)
    requires i <= |members|
  {
    i == 0 || (NoneUnattacked(R, st, members, i - 1) && !Unattacked(R, st, members[i - 1]))
  }

  lemma {:induction false} NoneUnattackedMeans(R: Relation, st: State, members: seq<nat>, i: nat)
    requires i <= |members|
    ensures NoneUnattacked(R, st, members, i) <==> forall k :: 0 <= k < i ==> !Unattacked(R, st, members[k])
  {
    if i > 0 { NoneUnattackedMeans(R, st, members, i - 1); }
  }

  lemma SingletonChoice(R: Relation, st: State, a: Arg)
    ensures Choice(UnattackedArgument, R, st, {a}) <==> Unattacked(R, st, a)
  {
  }

  lemma OffersArguments(R: Relation, st: State, members: seq<nat>, offered: seq<seq<nat>>)
    requires st.active == Elems(members) && NoDup(members)
    requires |offered| == |members| && forall k :: 0 <= k < |members| ==> offered[k] == [members[k]]
    ensures Distinct(offered) && OffersAll(UnattackedArgument, R, st, offered)
  {
    assert forall k :: 0 <= k < |members| ==> Elems(offered[k]) == {members[k]};
    forall i, j | 0 <= i < j < |offered|
      ensures Elems(offered[i]) != Elems(offered[j])
    {
      assert members[i] in Elems(offered[i]) && members[i] !in Elems(offered[j]);
    }
    forall S | Choice(UnattackedArgument, R, st, S)
      ensures Returned(offered, S)
    {
      var a :| S == {a} && Unattacked(R, st, a);
      var k :| 0 <= k < |members| && members[k] == a;
      assert Elems(offered[k]) == S;
    }
  }

  lemma GroundedTest(R: Relation, st: State, members: seq<nat>)
    requires st.active == Elems(members)
    ensures Stops(GR, R, st) <==> NoneUnattacked(R, st, members, |members|)
  {
    NoneUnattackedMeans(R, st, members, |members|);
    if k :| 0 <= k < |members| && Unattacked(R, st, members[k]) {
      SingletonChoice(R, st, members[k]);
    }
    if S :| Choice(UnattackedArgument, R, st, S) {
      var a :| S == {a} && Unattacked(R, st, a);
      var k :| 0 <= k < |members| && members[k] == a;
    }
  }

  // ------------------------------------------------------------------------ ES-ST

  method EnumerateSequencesStable(mode: Mode, ghost order: seq<nat>, af: AF, active: IterableBitSet, sequence: Sequence)
    returns (printed: seq<Sequence>)
    requires af.Valid() && active.Over(af.args) && Orderly(order, active.members) && Tidy(order, sequence)
    ensures Prints(order, printed, Sets(sequence), ST, mode, af.Attacks(), active.View())
    decreases |active.View().active|
  {
    ghost var R, st := af.Attacks(), active.View();
    if active.members == [] {
      assert OffersAll(AnyInitial, R, st, []) && st.active == {};
      LoopStart(order, Sets(sequence), ST, mode, R, st, []);
      LoopEnd(order, [], sequence, ST, mode, R, st, []);
      printed := [] + [sequence];
      return;
    }
    assert active.members[0] in st.active;
    var initialSets := EnumerateInitial(af, active);
    OffersInitial(order, R, st, active.members, initialSets);
    printed := [];
    LoopStart(order, Sets(sequence), ST, mode, R, st, initialSets);
    for i := 0 to |initialSets|
      invariant Lists(order, printed, Sets(sequence), RunsUnder(ST, mode, R, st, initialSets, i))
    {
      var next := initialSets[i];
      assert Choice(ST.rule, R, st, Elems(next));
      var newActive, newSequence := Descend(mode, order, ST.rule, af, active, next, sequence);
      var more := EnumerateSequencesStable(mode, order, af, newActive, newSequence);
      LoopStep(order, printed, more, Sets(sequence), ST, mode, R, st, initialSets, i);
      printed := printed + more;
    }
    LoopEnd(order, printed, sequence, ST, mode, R, st, initialSets);
  }

  // ------------------------------------------------------------------------ ES-UC

  ghost predicate AttackersMarked(attackers: seq<seq<nat>>, bits: seq<bool>, s: seq<nat>, i: nat, marks: seq<bool>)
    requires ListsWithin(attackers, |bits|) && |marks| == |bits| && i <= |s| && Below(s, |bits|)
  {
    forall b :: 0 <= b < |bits| ==> (marks[b] <==> bits[b] && exists k :: 0 <= k < i && b in attackers[s[k]])
  }

  /** Marks the attackers of a set whose bit is set. */
  method MarkAttackers(af: AF, active: IterableBitSet, s: seq<nat>) returns (marks: seq<bool>)
    requires af.Valid() && active.Over(af.args) && Below(s, af.args)
    ensures |marks| == af.args && AttackersMarked(af.attackers, active.bitset, s, |s|, marks)
  {
    marks := seq(af.args, _ => false);
    for i := 0 to |s|
      invariant |marks| == af.args && AttackersMarked(af.attackers, active.bitset, s, i, marks)
    {
      var atts := af.attackers[s[i]];
      ghost var marks0 := marks;
      for j := 0 to |atts|
        invariant |marks| == af.args
        invariant forall b :: 0 <= b < af.args ==> (marks[b] <==> active.bitset[b] && (marks0[b] || b in atts[..j]))
      {
        assert atts[..j + 1] == atts[..j] + [atts[j]];
        marks := marks[atts[j] := active.bitset[atts[j]]];
      }
      assert atts[..|atts|] == atts;
    }
  }

  /** The scan of one initial set for a marked argument. */
  method MeetsMark(marks: seq<bool>, s: seq<nat>) returns (meets: bool)
    requires Below(s, |marks|)
    ensures meets <==> exists j :: 0 <= j < |s| && marks[s[j]]
  {
    meets := false;
    for j := 0 to |s|
      invariant !meets && forall l :: 0 <= l < j ==> !marks[s[l]]
    {
      if marks[s[j]] {
        meets := true;
        break;
      }
    }
  }

  ghost predicate HitAmong(R: Relation, offered: seq<seq<nat>>, i: int, S: set<nat>)
    requires i <= |offered|
  {
    exists k :: 0 <= k < i && HitsSet(R, Elems(offered[k]), S)
  }

  /** Does one of the initial sets attack the given one? */
  method IsChallenged(af: AF, active: IterableBitSet, s: seq<nat>, initialSets: seq<seq<nat>>) returns (challenged: bool)
    requires af.Valid() && active.Over(af.args) && Elems(s) <= active.View().active
    requires forall k :: 0 <= k < |initialSets| ==> Elems(initialSets[k]) <= active.View().active
    ensures challenged <==> HitAmong(af.Attacks(), initialSets, |initialSets|, Elems(s))
  {
    ghost var R := af.Attacks();
    ActiveBelow(af.args, active, s);
    var marks := MarkAttackers(af, active, s);
    challenged := false;
    for i := 0 to |initialSets|
      invariant !challenged && !HitAmong(R, initialSets, i, Elems(s))
    {
      ActiveBelow(af.args, active, initialSets[i]);
      var meets := MeetsMark(marks, initialSets[i]);
      MarkMeaning(af, active, s, initialSets[i], marks);
      if meets {
        challenged := true;
        break;
      }
    }
  }

  ghost function SetsOf(offered: seq<seq<nat>>): iset<set<Arg>> {
    iset k | 0 <= k < |offered| :: Elems(offered[k])
  }

  ghost function InitialSetsOf(R: Relation, st: State): iset<set<Arg>> {
    iset S | MinimalAcceptable(R, st, S)
  }

  /** A list of exactly the initial sets is what both rules choose from. */
  lemma OfferMeans(R: Relation, st: State, offered: seq<seq<nat>>)
    ensures SetsOf(offered) == InitialSetsOf(R, st) <==>
            && OffersAll(AnyInitial, R, st, offered)
            && forall k :: 0 <= k < |offered| ==> Choice(AnyInitial, R, st, Elems(offered[k]))
  {
    if SetsOf(offered) == InitialSetsOf(R, st) {
      forall S | Choice(AnyInitial, R, st, S)
        ensures Returned(offered, S)
      {
        assert S in SetsOf(offered);
      }
      forall k | 0 <= k < |offered|
        ensures Choice(AnyInitial, R, st, Elems(offered[k]))
      {
        assert Elems(offered[k]) in SetsOf(offered);
      }
    }
    if OffersAll(AnyInitial, R, st, offered) && forall k :: 0 <= k < |offered| ==> Choice(AnyInitial, R, st, Elems(offered[k])) {
      forall S: set<Arg>
        ensures S in SetsOf(offered) <==> S in InitialSetsOf(R, st)
      {
        if S in InitialSetsOf(R, st) { assert Choice(AnyInitial, R, st, S) && Returned(offered, S); }
      }
    }
  }

  /** The filter as a whole: a set is kept iff no initial set attacks it. */
  method IsKept(af: AF, active: IterableBitSet, s: seq<nat>, initialSets: seq<seq<nat>>) returns (kept: bool)
    requires af.Valid() && active.Over(af.args)
    requires s in initialSets && SetsOf(initialSets) == InitialSetsOf(af.Attacks(), active.View())
    ensures kept <==> Choice(UnchallengedInitial, af.Attacks(), active.View(), Elems(s))
  {
    OfferMeans(af.Attacks(), active.View(), initialSets);
    var challenged := IsChallenged(af, active, s, initialSets);
    ChallengeFilter(af.Attacks(), active.View(), initialSets, Elems(s));
    kept := !challenged;
  }

  lemma ActiveBelow(args: nat, active: IterableBitSet, s: seq<nat>)
    requires active.Over(args) && Elems(s) <= active.View().active
    ensures Below(s, args) && forall k :: 0 <= k < |s| ==> active.bitset[s[k]]
  {
    forall k | 0 <= k < |s|
      ensures s[k] < args && active.bitset[s[k]]
    {
      assert s[k] in Elems(s);
    }
  }

  lemma MarkMeaning(af: AF, active: IterableBitSet, s: seq<nat>, t: seq<nat>, marks: seq<bool>)
    requires af.Valid() && active.Over(af.args) && Below(s, af.args) && |marks| == af.args
    requires AttackersMarked(af.attackers, active.bitset, s, |s|, marks)
    requires Below(t, af.args) && forall j :: 0 <= j < |t| ==> active.bitset[t[j]]
    ensures (exists j :: 0 <= j < |t| && marks[t[j]]) <==> HitsSet(af.Attacks(), Elems(t), Elems(s))
  {
    var R := af.Attacks();
    af.AttacksMeaning();
    if j :| 0 <= j < |t| && marks[t[j]] {
      var k :| 0 <= k < |s| && t[j] in af.attackers[s[k]];
      assert s[k] in Elems(s) && t[j] in Elems(t) && (t[j], s[k]) in R;
      assert Hits(R, Elems(t), s[k]);
    }
    if HitsSet(R, Elems(t), Elems(s)) {
      var a :| a in Elems(s) && Hits(R, Elems(t), a);
      var b :| b in Elems(t) && (b, a) in R;
      var k :| 0 <= k < |s| && s[k] == a;
      var j :| 0 <= j < |t| && t[j] == b;
      assert b in af.attackers[s[k]];
      assert marks[t[j]];
    }
  }

  /** The filter keeps exactly the sets that may be chosen. */
  lemma ChallengeFilter(R: Relation, st: State, offered: seq<seq<nat>>, S: set<nat>)
    requires OffersAll(AnyInitial, R, st, offered) && MinimalAcceptable(R, st, S)
    requires forall k :: 0 <= k < |offered| ==> Choice(AnyInitial, R, st, Elems(offered[k]))
    ensures Choice(UnchallengedInitial, R, st, S) <==> !HitAmong(R, offered, |offered|, S)
  {
    if T :| MinimalAcceptable(R, st, T) && HitsSet(R, T, S) {
      assert Choice(AnyInitial, R, st, T) && Returned(offered, T);
      var k :| 0 <= k < |offered| && Elems(offered[k]) == T;
    }
  }

  ghost predicate NoneChosen(R: Relation, st: State, offered: seq<seq<nat>>, i: nat)
    requires i <= |offered|
  {
    i == 0 || (NoneChosen(R, st, offered, i - 1) && !Choice(UnchallengedInitial, R, st, Elems(offered[i - 1])))
  }

  lemma {:induction false} NoneChosenMeans(R: Relation, st: State, offered: seq<seq<nat>>, i: nat)
    requires i <= |offered|
    ensures NoneChosen(R, st, offered, i) <==>
            forall k :: 0 <= k < i ==> !Choice(UnchallengedInitial, R, st, Elems(offered[k]))
  {
    if i > 0 { NoneChosenMeans(R, st, offered, i - 1); }
  }

  lemma UnchallengedTest(maximal: bool, R: Relation, st: State, offered: seq<seq<nat>>)
    requires OffersAll(UnchallengedInitial, R, st, offered)
    ensures Stops(UC(maximal), R, st) <==> !maximal || NoneChosen(R, st, offered, |offered|)
  {
    NoneChosenMeans(R, st, offered, |offered|);
    if S :| Choice(UnchallengedInitial, R, st, S) {
      assert Returned(offered, S);
      var k :| 0 <= k < |offered| && Elems(offered[k]) == S;
    }
  }

  method EnumerateSequencesUnchallenged(mode: Mode, ghost order: seq<nat>, af: AF, active: IterableBitSet, maximal: bool, sequence: Sequence)
    returns (printed: seq<Sequence>)
    requires af.Valid() && active.Over(af.args) && Orderly(order, active.members) && Tidy(order, sequence)
    ensures Prints(order, printed, Sets(sequence), UC(maximal), mode, af.Attacks(), active.View())
    decreases |active.View().active|, 2
  {
    var initialSets := EnumerateInitial(af, active);
    OffersInitial(order, af.Attacks(), active.View(), active.members, initialSets);
    OfferMeans(af.Attacks(), active.View(), initialSets);
    var isMaximal;
    isMaximal, printed := UnchallengedLoop(mode, order, af, active, maximal, sequence, initialSets);
    UnchallengedTest(maximal, af.Attacks(), active.View(), initialSets);
    LoopEnd(order, printed, sequence, UC(maximal), mode, af.Attacks(), active.View(), initialSets);
    if !maximal || isMaximal {
      printed := printed + [sequence];
    }
  }

  /** The loop over the initial sets, with the flag it maintains. */
  method UnchallengedLoop(mode: Mode, ghost order: seq<nat>, af: AF, active: IterableBitSet, maximal: bool, sequence: Sequence,
                          initialSets: seq<seq<nat>>)
    returns (isMaximal: bool, printed: seq<Sequence>)
    requires af.Valid() && active.Over(af.args) && Orderly(order, active.members) && Tidy(order, sequence)
    requires Distinct(initialSets) && Tidy(order, initialSets) && SetsOf(initialSets) == InitialSetsOf(af.Attacks(), active.View())
    ensures isMaximal <==> NoneChosen(af.Attacks(), active.View(), initialSets, |initialSets|)
    ensures Lists(order, printed, Sets(sequence),
                  RunsUnder(UC(maximal), mode, af.Attacks(), active.View(), initialSets, |initialSets|))
    decreases |active.View().active|, 1
  {
    isMaximal, printed := true, [];
    LoopStart(order, Sets(sequence), UC(maximal), mode, af.Attacks(), active.View(), initialSets);
    for i := 0 to |initialSets|
      invariant Lists(order, printed, Sets(sequence),
                      RunsUnder(UC(maximal), mode, af.Attacks(), active.View(), initialSets, i))
      invariant isMaximal <==> NoneChosen(af.Attacks(), active.View(), initialSets, i)
    {
      isMaximal, printed := TryUnchallenged(mode, order, af, active, maximal, sequence, initialSets, i, isMaximal, printed);
    }
  }

  /** The body of the loop: recurses if the set is kept. */
  method TryUnchallenged(mode: Mode, ghost order: seq<nat>, af: AF, active: IterableBitSet, maximal: bool, sequence: Sequence,
                         initialSets: seq<seq<nat>>, i: nat, wasMaximal: bool, soFar: seq<Sequence>)
    returns (isMaximal: bool, printed: seq<Sequence>)
    requires af.Valid() && active.Over(af.args) && Orderly(order, active.members) && Tidy(order, sequence) && i < |initialSets|
    requires Distinct(initialSets) && Tidy(order, initialSets) && SetsOf(initialSets) == InitialSetsOf(af.Attacks(), active.View())
    requires Lists(order, soFar, Sets(sequence), RunsUnder(UC(maximal), mode, af.Attacks(), active.View(), initialSets, i))
    requires wasMaximal <==> NoneChosen(af.Attacks(), active.View(), initialSets, i)
    ensures isMaximal <==> NoneChosen(af.Attacks(), active.View(), initialSets, i + 1)
    ensures Lists(order, printed, Sets(sequence), RunsUnder(UC(maximal), mode, af.Attacks(), active.View(), initialSets, i + 1))
    decreases |active.View().active|, 0
  {
    ghost var task, R, st := UC(maximal), af.Attacks(), active.View();
    var kept := IsKept(af, active, initialSets[i], initialSets);
    isMaximal := wasMaximal && !kept;
    if !kept {
      LoopSkip(order, soFar, Sets(sequence), task, mode, R, st, initialSets, i);
      printed := soFar;
    } else {
      var newActive, newSequence := Descend(mode, order, task.rule, af, active, initialSets[i], sequence);
      var more := EnumerateSequencesUnchallenged(mode, order, af, newActive, maximal, newSequence);
      LoopStep(order, soFar, more, Sets(sequence), task, mode, R, st, initialSets, i);
      printed := soFar + more;
    }
  }

  // ------------------------------------------------------------------------ AS-AD

  ghost function AnswersOf(mode: Mode, R: Relation, st: State, q: Arg): iset<seq<set<Arg>>> {
    iset w | Answers(mode, R, st, q, w)
  }

  ghost function AnswersUnder(mode: Mode, R: Relation, st: State, q: Arg, offered: seq<seq<nat>>, i: int): iset<seq<set<Arg>>>
    requires i <= |offered|
  {
    iset w | Answers(mode, R, st, q, w) && Starts(w, offered, i)
  }

  /** What is still to be printed for `q` after a sequence that ends in `last`. */
  ghost function Pending(mode: Mode, R: Relation, st: State, q: Arg, last: seq<set<Arg>>): iset<seq<set<Arg>>> {
    if last != [] && q in last[|last| - 1] then iset{[]} else AnswersOf(mode, R, st, q)
  }

  /** The scan of the last set: does it contain the argument, does it attack it? */
  method ScanLast(af: AF, s: seq<nat>, argument: nat) returns (contains: bool, attacks: bool)
    requires af.Valid() && Below(s, af.args) && ConflictFree(af.Attacks(), Elems(s))
    ensures contains <==> argument in s
    ensures attacks <==> Hits(af.Attacks(), Elems(s), argument)
  {
    contains, attacks := false, false;
    for i := 0 to |s|
      invariant !contains && !attacks
      invariant forall k :: 0 <= k < i ==> s[k] != argument && (s[k], argument) !in af.Attacks()
    {
      var arg := s[i];
      assert arg in Elems(s);
      if argument == arg {
        contains := true;
        break;
      }
      var targets := af.attacked[arg];
      af.AttackedLists(arg, argument);
      for j := 0 to |targets|
        invariant !attacks && argument !in targets[..j]
      {
        if argument == targets[j] {
          attacks := true;
          break;
        }
      }
      if attacks {
        assert Hits(af.Attacks(), Elems(s), argument);
        break;
      }
      assert targets[..|targets|] == targets;
    }
    if contains {
      assert argument in Elems(s);
    } else if !attacks {
      assert forall a :: a in Elems(s) ==> (a, argument) !in af.Attacks();
    }
  }

  /** An argument that is no longer active is never reached: pruning loses nothing. */
  lemma PruningLosesNothing(mode: Mode, R: Relation, st: State, q: Arg)
    requires q !in st.active
    ensures AnswersOf(mode, R, st, q) == iset{}
  {
    forall w: seq<set<Arg>>
      ensures !Answers(mode, R, st, q, w)
    {
      if Path(AnyInitial, mode, R, st, w) { PathShape(AnyInitial, mode, R, st, w); }
    }
  }

  /** The answers that start with `S` are the pending ones after choosing `S`. */
  lemma AnswersAfter(mode: Mode, R: Relation, st: State, q: Arg, S: set<Arg>, w: seq<set<Arg>>)
    requires MinimalAcceptable(R, st, S)
    ensures w in Prefixed(S, Pending(mode, R, Next(mode, R, st, S), q, [S])) <==>
            Answers(mode, R, st, q, w) && w[0] == S
  {
    if w != [] && w[0] == S {
      var v := w[1..];
      if q in S {
        assert w[1..] == [] <==> |w| == 1;
        assert |w| > 1 ==> !Answers(mode, R, st, q, w);
        assert Choice(AnyInitial, R, st, w[0]);
        assert v == [] ==> Path(AnyInitial, mode, R, st, w);
      } else {
        assert forall i :: 0 <= i < |v| ==> v[i] == w[i + 1];
        if Answers(mode, R, Next(mode, R, st, S), q, v) {
          forall i | 0 <= i < |w| - 1
            ensures q !in w[i]
          {
            if i > 0 { assert w[i] == v[i - 1]; }
          }
        }
        if Answers(mode, R, st, q, w) {
          assert v != [] && v[|v| - 1] == w[|w| - 1];
        }
      }
    }
  }

  lemma QueryStep(order: seq<nat>, out: seq<Sequence>, child: seq<Sequence>, pre: seq<set<Arg>>, mode: Mode, R: Relation,
                  st: State, q: Arg, offered: seq<seq<nat>>, i: int)
    requires 0 <= i < |offered| && Distinct(offered) && MinimalAcceptable(R, st, Elems(offered[i]))
    requires Lists(order, out, pre, AnswersUnder(mode, R, st, q, offered, i))
    requires Lists(order, child, pre + [Elems(offered[i])],
                   Pending(mode, R, Next(mode, R, st, Elems(offered[i])), q, [Elems(offered[i])]))
    ensures Lists(order, out + child, pre, AnswersUnder(mode, R, st, q, offered, i + 1))
  {
    var S := Elems(offered[i]);
    var P := Pending(mode, R, Next(mode, R, st, S), q, [S]);
    var V, W := AnswersUnder(mode, R, st, q, offered, i), Prefixed(S, P);
    ListsChild(order, child, pre, S, P);
    forall w: seq<set<Arg>>
      ensures w in W <==> Answers(mode, R, st, q, w) && w[0] == S
    {
      AnswersAfter(mode, R, st, q, S, w);
    }
    ListsAppend(order, out, child, pre, V, W);
    assert V + W == AnswersUnder(mode, R, st, q, offered, i + 1);
  }

  lemma QueryEnd(mode: Mode, R: Relation, st: State, q: Arg, offered: seq<seq<nat>>)
    requires OffersAll(AnyInitial, R, st, offered)
    ensures AnswersUnder(mode, R, st, q, offered, |offered|) == AnswersOf(mode, R, st, q)
  {
    forall w | Answers(mode, R, st, q, w)
      ensures Starts(w, offered, |offered|)
    {
      assert Choice(AnyInitial, R, st, w[0]) && Returned(offered, w[0]);
    }
  }

  /** What the recursion knows about the sequence it extends: its last set is
      conflict-free, and what it touches is no longer active. */
  ghost predicate LastIsSettled(R: Relation, st: State, args: nat, sequence: Sequence) {
    sequence != [] ==>
      var last := sequence[|sequence| - 1];
      && Below(last, args)
      && ConflictFree(R, Elems(last))
      && forall b :: b in st.active ==> b !in last && !Hits(R, Elems(last), b)
  }

  method SequencesArgumentAdmissible(mode: Mode, ghost order: seq<nat>, af: AF, active: IterableBitSet, argument: nat, sequence: Sequence)
    returns (printed: seq<Sequence>)
    requires af.Valid() && active.Over(af.args) && Orderly(order, active.members) && Tidy(order, sequence)
    requires LastIsSettled(af.Attacks(), active.View(), af.args, sequence)
    ensures Lists(order, printed, Sets(sequence), Pending(mode, af.Attacks(), active.View(), argument, Sets(sequence)))
    decreases |active.View().active|, 2
  {
    ghost var R, st := af.Attacks(), active.View();
    var containsArgument, attacksArgument := false, false;
    if sequence != [] {
      containsArgument, attacksArgument := ScanLast(af, sequence[|sequence| - 1], argument);
    }
    if containsArgument {
      ListsSelf(order, sequence);
      return [sequence];
    }
    if attacksArgument {
      PruningLosesNothing(mode, R, st, argument);
      ListsNothing(order, Sets(sequence));
      return [];
    }
    var initialSets := EnumerateInitial(af, active);
    OffersInitial(order, R, st, active.members, initialSets);
    OfferMeans(R, st, initialSets);
    printed := QueryLoop(mode, order, af, active, argument, sequence, initialSets);
    QueryEnd(mode, R, st, argument, initialSets);
  }

  /** The loop over the initial sets. */
  method QueryLoop(mode: Mode, ghost order: seq<nat>, af: AF, active: IterableBitSet, argument: nat, sequence: Sequence,
                   initialSets: seq<seq<nat>>)
    returns (printed: seq<Sequence>)
    requires af.Valid() && active.Over(af.args) && Orderly(order, active.members) && Tidy(order, sequence)
    requires Distinct(initialSets) && Tidy(order, initialSets)
    requires SetsOf(initialSets) == InitialSetsOf(af.Attacks(), active.View())
    ensures Lists(order, printed, Sets(sequence),
                  AnswersUnder(mode, af.Attacks(), active.View(), argument, initialSets, |initialSets|))
    decreases |active.View().active|, 1
  {
    printed := [];
    assert AnswersUnder(mode, af.Attacks(), active.View(), argument, initialSets, 0) == iset{};
    for i := 0 to |initialSets|
      invariant Lists(order, printed, Sets(sequence),
                      AnswersUnder(mode, af.Attacks(), active.View(), argument, initialSets, i))
    {
      printed := QueryNext(mode, order, af, active, argument, sequence, initialSets, i, printed);
    }
  }

  /** The body of the loop. */
  method QueryNext(mode: Mode, ghost order: seq<nat>, af: AF, active: IterableBitSet, argument: nat, sequence: Sequence,
                   initialSets: seq<seq<nat>>, i: nat, soFar: seq<Sequence>)
    returns (printed: seq<Sequence>)
    requires af.Valid() && active.Over(af.args) && Orderly(order, active.members) && Tidy(order, sequence)
    requires i < |initialSets| && Distinct(initialSets) && Tidy(order, initialSets)
    requires SetsOf(initialSets) == InitialSetsOf(af.Attacks(), active.View())
    requires Lists(order, soFar, Sets(sequence), AnswersUnder(mode, af.Attacks(), active.View(), argument, initialSets, i))
    ensures Lists(order, printed, Sets(sequence),
                  AnswersUnder(mode, af.Attacks(), active.View(), argument, initialSets, i + 1))
    decreases |active.View().active|, 0
  {
    ghost var R, st := af.Attacks(), active.View();
    var next := initialSets[i];
    OfferMeans(R, st, initialSets);
    assert Choice(AnyInitial, R, st, Elems(next));
    var newActive, newSequence := Descend(mode, order, AnyInitial, af, active, next, sequence);
    SettledNext(af, active, mode, next, sequence);
    var more := SequencesArgumentAdmissible(mode, order, af, newActive, argument, newSequence);
    PendingLast(mode, R, Next(mode, R, st, Elems(next)), argument, Sets(sequence), Elems(next));
    QueryStep(order, soFar, more, Sets(sequence), mode, R, st, argument, initialSets, i);
    printed := soFar + more;
  }

  lemma SettledNext(af: AF, active: IterableBitSet, mode: Mode, next: seq<nat>, sequence: Sequence)
    requires af.Valid() && active.Over(af.args) && MinimalAcceptable(af.Attacks(), active.View(), Elems(next))
    ensures LastIsSettled(af.Attacks(), Next(mode, af.Attacks(), active.View(), Elems(next)), af.args, sequence + [next])
  {
    forall k | 0 <= k < |next|
      ensures next[k] < af.args
    {
      assert next[k] in Elems(next);
    }
  }

  lemma PendingLast(mode: Mode, R: Relation, st: State, q: Arg, pre: seq<set<Arg>>, S: set<Arg>)
    ensures Pending(mode, R, st, q, pre + [S]) == Pending(mode, R, st, q, [S])
  {
  }

  // -------------------------------------------------------------------- entry points

  /** Each sequence is printed once and after all its extensions; inside a set, arguments
      are in the order of the array. */
  ghost predicate PrintedInOrder(order: seq<nat>, printed: seq<Sequence>) {
    && (forall i, j :: 0 <= i < j < |printed| ==> !(Sets(printed[i]) <= Sets(printed[j])))
    && (forall i, k :: 0 <= i < |printed| && 0 <= k < |printed[i]| ==>
          NoDup(printed[i][k]) && KeepsOrder(order, printed[i][k]))
  }

  lemma ListedInOrder(order: seq<nat>, printed: seq<Sequence>, W: iset<seq<set<Arg>>>)
    requires Lists(order, printed, [], W)
    ensures PrintedInOrder(order, printed)
  {
    forall i, k | 0 <= i < |printed| && 0 <= k < |printed[i]|
      ensures NoDup(printed[i][k]) && KeepsOrder(order, printed[i][k])
    {
      assert Tidy(order, printed[i]);
      OrderlyMeans(order, printed[i][k]);
    }
  }

  /** ES-AD and ES-PR: every admissible set, respectively every preferred extension,
      and nothing else. */
  method AdmissibleSequences(af: AF, active: IterableBitSet, preferred: bool) returns (printed: seq<Sequence>)
    requires af.Valid() && active.Over(af.args) && active.View() == Full(Elems(active.members))
    ensures PrintedInOrder(active.members, printed)
    ensures forall E :: (exists i :: 0 <= i < |printed| && Union(Sets(printed[i])) == E) <==>
              if preferred then Preferred(af.Attacks(), Elems(active.members), E)
              else Admissible(af.Attacks(), Elems(active.members), E)
  {
    assert Sets([]) == [];
    OrderlySelf(active.members);
    printed := EnumerateSequencesAdmissible(Meant, active.members, af, active, preferred, []);
    ListedInOrder(active.members, printed, Runs(if preferred then PR else AD, Meant, af.Attacks(), active.View()));
    ghost var R, A := af.Attacks(), Elems(active.members);
    forall E: set<Arg>
      ensures (exists i :: 0 <= i < |printed| && Union(Sets(printed[i])) == E) <==>
              if preferred then Preferred(R, A, E) else Admissible(R, A, E)
    {
      ListedUnions(active.members, printed, if preferred then PR else AD, Meant, R, Full(A), E);
      if preferred { ExtensionUnions(R, A, E); } else { AdmissibleUnions(R, A, E); }
    }
  }

  /** ES-CO: every complete extension and nothing else. */
  method CompleteSequences(af: AF, active: IterableBitSet) returns (printed: seq<Sequence>)
    requires af.Valid() && active.Over(af.args) && active.View() == Full(Elems(active.members))
    ensures PrintedInOrder(active.members, printed)
    ensures forall E :: (exists i :: 0 <= i < |printed| && Union(Sets(printed[i])) == E) <==>
              Complete(af.Attacks(), Elems(active.members), E)
  {
    assert Sets([]) == [];
    OrderlySelf(active.members);
    printed := EnumerateSequencesComplete(Meant, active.members, af, active, []);
    ListedInOrder(active.members, printed, Runs(CO, Meant, af.Attacks(), active.View()));
    ghost var R, A := af.Attacks(), Elems(active.members);
    forall E: set<Arg>
      ensures (exists i :: 0 <= i < |printed| && Union(Sets(printed[i])) == E) <==> Complete(R, A, E)
    {
      ListedUnions(active.members, printed, CO, Meant, R, Full(A), E);
      ExtensionUnions(R, A, E);
    }
  }

  /** ES-ST: every stable extension and nothing else. */
  method StableSequences(af: AF, active: IterableBitSet) returns (printed: seq<Sequence>)
    requires af.Valid() && active.Over(af.args) && active.View() == Full(Elems(active.members))
    ensures PrintedInOrder(active.members, printed)
    ensures forall E :: (exists i :: 0 <= i < |printed| && Union(Sets(printed[i])) == E) <==>
              Stable(af.Attacks(), Elems(active.members), E)
  {
    assert Sets([]) == [];
    OrderlySelf(active.members);
    printed := EnumerateSequencesStable(Meant, active.members, af, active, []);
    ListedInOrder(active.members, printed, Runs(ST, Meant, af.Attacks(), active.View()));
    ghost var R, A := af.Attacks(), Elems(active.members);
    forall E: set<Arg>
      ensures (exists i :: 0 <= i < |printed| && Union(Sets(printed[i])) == E) <==> Stable(R, A, E)
    {
      ListedUnions(active.members, printed, ST, Meant, R, Full(A), E);
      ExtensionUnions(R, A, E);
    }
  }

  /** ES-SA and ES-GR: every strongly admissible set, respectively the grounded
      extension, and nothing else. */
  method StronglyAdmissibleSequences(af: AF, active: IterableBitSet, grounded: bool) returns (printed: seq<Sequence>)
    requires af.Valid() && active.Over(af.args) && active.View() == Full(Elems(active.members))
    ensures PrintedInOrder(active.members, printed) && InArrayOrder(active.members, printed)
    ensures forall E :: (exists i :: 0 <= i < |printed| && Union(Sets(printed[i])) == E) <==>
              if grounded then Grounded(af.Attacks(), Elems(active.members), E)
              else StronglyAdmissible(af.Attacks(), Elems(active.members), E)
  {
    assert Sets([]) == [];
    OrderlySelf(active.members);
    printed := EnumerateSequencesStronglyAdmissible(Meant, active.members, af, active, grounded, []);
    ListedInOrder(active.members, printed, Runs(if grounded then GR else SA, Meant, af.Attacks(), active.View()));
    ghost var R, A := af.Attacks(), Elems(active.members);
    forall E: set<Arg>
      ensures (exists i :: 0 <= i < |printed| && Union(Sets(printed[i])) == E) <==>
              if grounded then Grounded(R, A, E) else StronglyAdmissible(R, A, E)
    {
      ListedUnions(active.members, printed, if grounded then GR else SA, Meant, R, Full(A), E);
      if grounded { GroundedIsPrinted(R, A, E); } else { StronglyAdmissibleUnions(R, A, E); }
    }
  }

  /** ES-UC: every printed union is admissible, and with `maximal` even complete. */
  method UnchallengedSequences(af: AF, active: IterableBitSet, maximal: bool) returns (printed: seq<Sequence>)
    requires af.Valid() && active.Over(af.args) && active.View() == Full(Elems(active.members))
    ensures PrintedInOrder(active.members, printed) && Prints(active.members, printed, [], UC(maximal), Meant, af.Attacks(), active.View())
    ensures forall i :: 0 <= i < |printed| ==>
              if maximal then Complete(af.Attacks(), Elems(active.members), Union(Sets(printed[i])))
              else Admissible(af.Attacks(), Elems(active.members), Union(Sets(printed[i])))
  {
    assert Sets([]) == [];
    OrderlySelf(active.members);
    printed := EnumerateSequencesUnchallenged(Meant, active.members, af, active, maximal, []);
    ListedInOrder(active.members, printed, Runs(UC(maximal), Meant, af.Attacks(), active.View()));
    ghost var R, A := af.Attacks(), Elems(active.members);
    forall i | 0 <= i < |printed|
      ensures if maximal then Complete(R, A, Union(Sets(printed[i]))) else Admissible(R, A, Union(Sets(printed[i])))
    {
      assert Sets(printed[i])[0..] == Sets(printed[i]);
      PathIsAdmissible(UnchallengedInitial, R, A, Sets(printed[i]));
      if maximal { UnchallengedIsComplete(R, A, Sets(printed[i])); }
    }
  }

  /** AS-AD: something is printed iff the argument is credulously accepted, and
      then each printed sequence ends with the first set that contains it. */
  method ArgumentSequences(af: AF, active: IterableBitSet, argument: nat) returns (printed: seq<Sequence>)
    requires af.Valid() && active.Over(af.args) && active.View() == Full(Elems(active.members))
    ensures Lists(active.members, printed, [], AnswersOf(Meant, af.Attacks(), active.View(), argument))
    ensures printed != [] <==> exists E :: Admissible(af.Attacks(), Elems(active.members), E) && argument in E
  {
    OrderlySelf(active.members);
    printed := SequencesArgumentAdmissible(Meant, active.members, af, active, argument, []);
    ghost var R, A := af.Attacks(), Elems(active.members);
    assert Sets([]) == [];
    QueryIsCredulous(R, A, argument);
    if printed != [] {
      assert Sets(printed[0])[0..] == Sets(printed[0]);
      assert Answers(Meant, R, Full(A), argument, Sets(printed[0]));
    }
    if w :| Answers(Meant, R, Full(A), argument, w) {
      assert Listed(printed, [] + w);
    }
  }
}
