/**
  What a recursion prints: lists of sequences, compared with the set of runs of
  the state machine they have to list. Printing is modelled as appending to the
  returned list.
 */
module Output {
  import opened Dung
  import opened Serialisation
  import opened Framework
  import opened InitialSets

  /** A printed sequence: the arguments of each set in the order they were found. */
  type Sequence = seq<seq<nat>>

  ghost function Sets(p: Sequence): seq<set<Arg>> {
    seq(|p|, i requires 0 <= i < |p| => Elems(p[i]))
  }

  /** A list without repetition that keeps to the given order. */
  ghost predicate Orderly(order: seq<nat>, e: seq<nat>) {
    e == [] ||
    var n := |e| - 1;
    && Orderly(order, e[..n])
    && e[n] in order && e[n] !in e[..n] && forall i :: 0 <= i < n ==> Before(order, e[i], e[n])
  }

  lemma {:induction false} OrderlyMeans(order: seq<nat>, e: seq<nat>)
    ensures Orderly(order, e) <==> NoDup(e) && KeepsOrder(order, e)
  {
    if e != [] {
      var n := |e| - 1;
      OrderlyMeans(order, e[..n]);
      assert forall i :: 0 <= i < n ==> e[..n][i] == e[i];
    }
  }

  lemma OrderlySelf(s: seq<nat>)
    requires NoDup(s)
    ensures Orderly(s, s)
  {
    OrderlyMeans(s, s);
  }

  /** Inside a set no argument is repeated, and arguments are in array order. */
  ghost predicate Tidy(order: seq<nat>, p: Sequence) {
    forall i :: 0 <= i < |p| ==> Orderly(order, p[i])
  }

  /** `out` lists exactly the extensions of `pre` by the members of `W`, each once, and
      each after all its extensions. */
  ghost predicate Lists(order: seq<nat>, out: seq<Sequence>, pre: seq<set<Arg>>, W: iset<seq<set<Arg>>>) {
    && (forall i :: 0 <= i < |out| ==> Tidy(order, out[i]))
    && (forall i :: 0 <= i < |out| ==> pre <= Sets(out[i]) && Sets(out[i])[|pre|..] in W)
    && (forall w {:trigger Listed(out, pre + w)} :: w in W ==> Listed(out, pre + w))
    && (forall i, j {:trigger Sets(out[i]), Sets(out[j])} :: 0 <= i < j < |out| ==> !(Sets(out[i]) <= Sets(out[j])))
  }

  ghost predicate Listed(out: seq<Sequence>, w: seq<set<Arg>>) {
    exists i :: 0 <= i < |out| && Sets(out[i]) == w
  }

  /** The sequences the recursion for `task` has to print from a state. */
  ghost function Runs(task: Task, mode: Mode, R: Relation, st: State): iset<seq<set<Arg>>> {
    iset w | Emitted(task, mode, R, st, w)
  }

  ghost predicate Prints(order: seq<nat>, out: seq<Sequence>, pre: seq<set<Arg>>, task: Task, mode: Mode, R: Relation, st: State) {
    Lists(order, out, pre, Runs(task, mode, R, st))
  }

  // ----------------------------------------------------------------- list algebra

  lemma ListsNothing(order: seq<nat>, pre: seq<set<Arg>>)
    ensures Lists(order, [], pre, iset{})
  {
  }

  lemma ListsSelf(order: seq<nat>, p: Sequence)
    requires Tidy(order, p)
    ensures Lists(order, [p], Sets(p), iset{[]})
  {
    assert Sets(p) + [] == Sets(p);
    assert [p][0] == p;
  }

  /** No member of `V` is the beginning of one of `W`. */
  ghost predicate NoneBegins(V: iset<seq<set<Arg>>>, W: iset<seq<set<Arg>>>) {
    forall v, w :: v in V && w in W ==> !(v <= w)
  }

  lemma ListsAppend(order: seq<nat>, a: seq<Sequence>, b: seq<Sequence>, pre: seq<set<Arg>>,
                    V: iset<seq<set<Arg>>>, W: iset<seq<set<Arg>>>)
    requires Lists(order, a, pre, V) && Lists(order, b, pre, W) && NoneBegins(V, W)
    ensures Lists(order, a + b, pre, V + W)
  {
    var c := a + b;
    assert forall i :: 0 <= i < |c| ==> c[i] == if i < |a| then a[i] else b[i - |a|];
    forall w | w in V + W
      ensures Listed(c, pre + w)
    {
      assert Listed(a, pre + w) || Listed(b, pre + w);
      ListedMore(a, b, pre + w);
    }
    forall i, j | 0 <= i < j < |c|
      ensures !(Sets(c[i]) <= Sets(c[j]))
    {
      if i < |a| <= j { BeginsNone(a[i], b[j - |a|], pre, V, W); }
    }
  }

  lemma ListedMore(a: seq<Sequence>, b: seq<Sequence>, w: seq<set<Arg>>)
    requires Listed(a, w) || Listed(b, w)
    ensures Listed(a + b, w)
  {
    if Listed(a, w) {
      var i :| 0 <= i < |a| && Sets(a[i]) == w;
      assert (a + b)[i] == a[i];
    } else {
      var i :| 0 <= i < |b| && Sets(b[i]) == w;
      assert (a + b)[|a| + i] == b[i];
    }
  }

  lemma BeginsNone(p: Sequence, q: Sequence, pre: seq<set<Arg>>, V: iset<seq<set<Arg>>>, W: iset<seq<set<Arg>>>)
    requires NoneBegins(V, W) && pre <= Sets(p) && pre <= Sets(q) && Sets(p)[|pre|..] in V && Sets(q)[|pre|..] in W
    ensures !(Sets(p) <= Sets(q))
  {
    var v, w := Sets(p)[|pre|..], Sets(q)[|pre|..];
    if |v| <= |w| {
      var m :| 0 <= m < |v| && v[m] != w[m];
      assert Sets(p)[|pre| + m] != Sets(q)[|pre| + m];
    }
  }

  ghost function Prefixed(S: set<Arg>, W: iset<seq<set<Arg>>>): iset<seq<set<Arg>>> {
    iset w | w != [] && w[0] == S && w[1..] in W
  }

  lemma ListsChild(order: seq<nat>, out: seq<Sequence>, pre: seq<set<Arg>>, S: set<Arg>, W: iset<seq<set<Arg>>>)
    requires Lists(order, out, pre + [S], W)
    ensures Lists(order, out, pre, Prefixed(S, W))
  {
    forall i | 0 <= i < |out|
      ensures pre <= Sets(out[i]) && Sets(out[i])[|pre|..] in Prefixed(S, W)
    {
      var w := Sets(out[i])[|pre|..];
      assert (pre + [S])[|pre|] == S && w[1..] == Sets(out[i])[|pre| + 1..];
    }
    forall w | w in Prefixed(S, W)
      ensures Listed(out, pre + w)
    {
      assert pre + [S] + w[1..] == pre + w;
      assert Listed(out, pre + [S] + w[1..]);
    }
  }

  // ------------------------------------------------- the loop over the sets on offer

  /** `w` starts with one of the first `i` listed sets. */
  ghost predicate Starts(w: seq<set<Arg>>, offered: seq<seq<nat>>, i: int)
    requires i <= |offered|
  {
    w != [] && exists k :: 0 <= k < i && w[0] == Elems(offered[k])
  }

  ghost function RunsUnder(task: Task, mode: Mode, R: Relation, st: State, offered: seq<seq<nat>>, i: int): iset<seq<set<Arg>>>
    requires i <= |offered|
  {
    iset w | Emitted(task, mode, R, st, w) && Starts(w, offered, i)
  }

  ghost predicate Distinct(offered: seq<seq<nat>>) {
    forall i, j {:trigger Elems(offered[i]), Elems(offered[j])} ::
      0 <= i < j < |offered| ==> Elems(offered[i]) != Elems(offered[j])
  }

  ghost predicate OffersAll(rule: ChoiceRule, R: Relation, st: State, offered: seq<seq<nat>>) {
    forall S {:trigger Returned(offered, S)} :: Choice(rule, R, st, S) ==> Returned(offered, S)
  }

  lemma LoopStart(order: seq<nat>, pre: seq<set<Arg>>, task: Task, mode: Mode, R: Relation, st: State, offered: seq<seq<nat>>)
    ensures Lists(order, [], pre, RunsUnder(task, mode, R, st, offered, 0))
  {
  }

  /** One iteration that recurses. */
  lemma LoopStep(order: seq<nat>, out: seq<Sequence>, child: seq<Sequence>, pre: seq<set<Arg>>, task: Task, mode: Mode, R: Relation,
                 st: State, offered: seq<seq<nat>>, i: int)
    requires 0 <= i < |offered| && Distinct(offered)
    requires Choice(task.rule, R, st, Elems(offered[i]))
    requires Lists(order, out, pre, RunsUnder(task, mode, R, st, offered, i))
    requires Prints(order, child, pre + [Elems(offered[i])], task, mode, R, Next(mode, R, st, Elems(offered[i])))
    ensures Lists(order, out + child, pre, RunsUnder(task, mode, R, st, offered, i + 1))
  {
    var S := Elems(offered[i]);
    var V := RunsUnder(task, mode, R, st, offered, i);
    var W := Prefixed(S, Runs(task, mode, R, Next(mode, R, st, S)));
    ListsChild(order, child, pre, S, Runs(task, mode, R, Next(mode, R, st, S)));
    ListsAppend(order, out, child, pre, V, W);
    forall w: seq<set<Arg>>
      ensures w in V + W <==> w in RunsUnder(task, mode, R, st, offered, i + 1)
    {
    }
    assert V + W == RunsUnder(task, mode, R, st, offered, i + 1);
  }

  /** One iteration that passes over a set that may not be chosen. */
  lemma LoopSkip(order: seq<nat>, out: seq<Sequence>, pre: seq<set<Arg>>, task: Task, mode: Mode, R: Relation,
                 st: State, offered: seq<seq<nat>>, i: int)
    requires 0 <= i < |offered| && !Choice(task.rule, R, st, Elems(offered[i]))
    requires Lists(order, out, pre, RunsUnder(task, mode, R, st, offered, i))
    ensures Lists(order, out, pre, RunsUnder(task, mode, R, st, offered, i + 1))
  {
  }

  /** After the loop, the termination condition decides about the sequence itself. */
  lemma LoopEnd(order: seq<nat>, out: seq<Sequence>, sequence: Sequence, task: Task, mode: Mode, R: Relation, st: State, offered: seq<seq<nat>>)
    requires Tidy(order, sequence) && OffersAll(task.rule, R, st, offered)
    requires Lists(order, out, Sets(sequence), RunsUnder(task, mode, R, st, offered, |offered|))
    ensures Prints(order, if Stops(task, R, st) then out + [sequence] else out, Sets(sequence), task, mode, R, st)
  {
    var V := RunsUnder(task, mode, R, st, offered, |offered|);
    forall w | Emitted(task, mode, R, st, w) && w != []
      ensures w in V
    {
      assert Returned(offered, w[0]);
    }
    if Stops(task, R, st) {
      ListsSelf(order, sequence);
      ListsAppend(order, out, [sequence], Sets(sequence), V, iset{[]});
      assert V + iset{[]} == Runs(task, mode, R, st);
    } else {
      assert V == Runs(task, mode, R, st);
    }
  }

  /** The unions of a complete listing are the unions of the runs. */
  lemma ListedUnions(order: seq<nat>, out: seq<Sequence>, task: Task, mode: Mode, R: Relation, st: State, E: set<Arg>)
    requires Prints(order, out, [], task, mode, R, st)
    ensures (exists i :: 0 <= i < |out| && Union(Sets(out[i])) == E) <==>
            exists w :: Emitted(task, mode, R, st, w) && Union(w) == E
  {
    if i :| 0 <= i < |out| && Union(Sets(out[i])) == E {
      assert Sets(out[i])[0..] == Sets(out[i]);
      assert Emitted(task, mode, R, st, Sets(out[i]));
    }
    if w :| Emitted(task, mode, R, st, w) && Union(w) == E {
      assert Listed(out, [] + w);
      assert [] + w == w;
    }
  }

  /** A complete listing holds exactly the runs. */
  lemma ListedRuns(order: seq<nat>, out: seq<Sequence>, task: Task, mode: Mode, R: Relation, st: State)
    requires Prints(order, out, [], task, mode, R, st)
    ensures forall w :: Listed(out, w) <==> Emitted(task, mode, R, st, w)
  {
    forall w: seq<set<Arg>>
      ensures Listed(out, w) <==> Emitted(task, mode, R, st, w)
    {
      if Listed(out, w) {
        var i :| 0 <= i < |out| && Sets(out[i]) == w;
        assert Sets(out[i])[0..] == Sets(out[i]);
      }
      if Emitted(task, mode, R, st, w) {
        assert Listed(out, [] + w);
        assert [] + w == w;
      }
    }
  }
}
