/**
  `get_reduct` and `get_cone`: the two operations on the array/bitset pair.
 */
module Algorithms {
  import opened Options
  import opened Dung
  import opened Serialisation
  import opened Framework

  // -------------------------------------------------------------------- the reduct

  /** `b` is one of the first `i` arguments or attacked by one of them. */
  ghost predicate Touched(R: Relation, arguments: seq<nat>, i: int, b: nat)
    requires i <= |arguments|
  {
    exists k :: 0 <= k < i && (b == arguments[k] || (arguments[k], b) in R)
  }

  lemma TouchedMeaning(R: Relation, A: set<nat>, arguments: seq<nat>, b: nat)
    ensures Touched(R, arguments, |arguments|, b) <==> b in arguments || Hits(R, Elems(arguments), b)
    ensures b in A ==> (Touched(R, arguments, |arguments|, b) <==> b !in Reduct(R, A, Elems(arguments)))
    ensures b !in A ==> (Touched(R, arguments, |arguments|, b) <==>
                         b in arguments || b in Leftover(R, A, Elems(arguments)))
  {
  }

  /** First loop: sets the bits of the given arguments and of all they attack,
      active or not. */
  method Touch(af: AF, arguments: seq<nat>) returns (bits: array<bool>)
    requires af.Valid() && Below(arguments, af.args)
    ensures fresh(bits) && bits.Length == af.args
    ensures forall b :: 0 <= b < af.args ==> (bits[b] <==> Touched(af.Attacks(), arguments, |arguments|, b))
  {
    ghost var R := af.Attacks();
    bits := new bool[af.args](_ => false);
    for i := 0 to |arguments|
      invariant fresh(bits)
      invariant forall b :: 0 <= b < af.args ==> (bits[b] <==> Touched(R, arguments, i, b))
    {
      var arg1 := arguments[i];
      var targets := af.attacked[arg1];
      bits[arg1] := true;
      for j := 0 to |targets|
        invariant fresh(bits)
        invariant forall b :: 0 <= b < af.args ==>
                    (bits[b] <==> Touched(R, arguments, i, b) || b == arg1 || b in targets[..j])
      {
        bits[targets[j]] := true;
      }
      assert targets[..|targets|] == targets;
      forall b: nat | b < af.args
        ensures Touched(R, arguments, i + 1, b) <==> Touched(R, arguments, i, b) || b == arg1 || b in targets
      {
        af.AttackedLists(arg1, b);
      }
    }
  }

  /** Second loop: flips the bit of every active argument and collects those whose
      bit was not set. */
  method FlipActive(members: seq<nat>, bits: array<bool>, ghost untouched: set<nat>) returns (kept: seq<nat>)
    requires Below(members, bits.Length) && NoDup(members)
    requires forall k :: 0 <= k < |members| ==> (bits[members[k]] <==> members[k] !in untouched)
    modifies bits
    ensures kept == Select(members, untouched)
    ensures KeepsOrder(members, kept) && NoDup(kept) && Elems(kept) == untouched * Elems(members)
    ensures forall b :: 0 <= b < bits.Length ==> bits[b] == if b in members then !old(bits[b]) else old(bits[b])
  {
    kept := [];
    for i := 0 to |members|
      invariant kept == Select(members[..i], untouched)
      invariant forall b :: 0 <= b < bits.Length ==> bits[b] == if b in members[..i] then !old(bits[b]) else old(bits[b])
    {
      var arg := members[i];
      assert arg !in members[..i];
      assert members[..i + 1] == members[..i] + [arg] && members[..i + 1][..i] == members[..i];
      if !bits[arg] {
        bits[arg] := true;
        kept := kept + [arg];
      } else {
        bits[arg] := false;
      }
    }
    assert members[..|members|] == members;
    SelectMeans(members, untouched);
  }

  lemma SelectMeans(members: seq<nat>, S: set<nat>)
    requires NoDup(members)
    ensures KeepsOrder(members, Select(members, S)) && NoDup(Select(members, S))
    ensures Elems(Select(members, S)) == S * Elems(members)
  {
    SelectOrder(members, S);
  }

  /** What the two loops leave behind. */
  lemma ReductView(R: Relation, members: seq<nat>, arguments: seq<nat>, bits: seq<bool>)
    requires Below(members, |bits|) && Below(arguments, |bits|) && NoDup(members)
    requires forall p :: p in R ==> p.1 < |bits|
    requires forall b :: 0 <= b < |bits| ==>
               (bits[b] <==> if b in members then !Touched(R, arguments, |arguments|, b)
                             else Touched(R, arguments, |arguments|, b))
    ensures var target := Reduct(R, Elems(members), Elems(arguments));
            && Marked(Select(members, target), bits)
            && ViewOf(Select(members, target), bits) ==
               State(target, (Elems(arguments) - Elems(members)) + Leftover(R, Elems(members), Elems(arguments)))
  {
    var A, S := Elems(members), Elems(arguments);
    var target := Reduct(R, A, S);
    var kept := Select(members, target);
    SelectAll(members, target);
    forall b: nat | b < |bits|
      ensures bits[b] <==> if b in A then b in target else b in S || b in Leftover(R, A, S)
    {
      TouchedMeaning(R, A, arguments, b);
    }
    assert forall k :: 0 <= k < |kept| ==> kept[k] in kept;
    assert ViewOf(kept, bits).stale == (S - A) + Leftover(R, A, S);
  }

  /** The reduct as the code computes it. The array is exact; the bits of touched
      arguments that were not active stay set. */
  method GetReduct(af: AF, active: IterableBitSet, arguments: seq<nat>) returns (reduct: IterableBitSet)
    requires af.Valid() && active.Over(af.args) && Below(arguments, af.args)
    ensures reduct.Over(af.args)
    ensures KeepsOrder(active.members, reduct.members)
    ensures reduct.View().active == Reduct(af.Attacks(), Elems(active.members), Elems(arguments))
    ensures reduct.View().stale == (Elems(arguments) - Elems(active.members)) +
                                   Leftover(af.Attacks(), Elems(active.members), Elems(arguments))
  {
    ghost var R := af.Attacks();
    af.AttacksMeaning();
    ghost var target := Reduct(R, Elems(active.members), Elems(arguments));
    var bits := Touch(af, arguments);
    forall k | 0 <= k < |active.members|
      ensures bits[active.members[k]] <==> active.members[k] !in target
    {
      TouchedMeaning(R, Elems(active.members), arguments, active.members[k]);
    }
    var kept := FlipActive(active.members, bits, target);
    ReductView(R, active.members, arguments, bits[..]);
    reduct := new IterableBitSet(kept, bits[..]);
  }

  /** Array and bitset of the reduct agree iff the chosen active set attacks no
      inactive argument. */
  lemma ReductAgreesIff(R: Relation, st: State, S: set<nat>)
    ensures Next(AsWritten, R, st, S) == Next(Meant, R, st, S) <==> forall b: Arg :: Hits(R, S, b) ==> b in st.active
  {
    forall b: Arg | b !in st.active
      ensures Hits(R, S, b) <==> b in Leftover(R, st.active, S)
    {
      if a :| a in S && (a, b) in R {
        var p := (a, b);
        assert p in R && p.0 in S;
      }
    }
    if b: Arg :| Hits(R, S, b) && b !in st.active {
      assert b in Next(AsWritten, R, st, S).stale;
    }
    if forall b: Arg :: Hits(R, S, b) ==> b in st.active {
      assert Leftover(R, st.active, S) == {};
    }
  }

  /** The step of the recursions: the reduct as written, or with its stale bits
      cleared as the algorithms mean it. */
  method TakeReduct(mode: Mode, af: AF, active: IterableBitSet, arguments: seq<nat>) returns (reduct: IterableBitSet)
    requires af.Valid() && active.Over(af.args) && Elems(arguments) <= Elems(active.members)
    ensures reduct.Over(af.args)
    ensures reduct.View() == Next(mode, af.Attacks(), active.View(), Elems(arguments))
    ensures KeepsOrder(active.members, reduct.members)
  {
    forall k | 0 <= k < |arguments|
      ensures arguments[k] < af.args
    {
      assert arguments[k] in Elems(arguments);
    }
    reduct := GetReduct(af, active, arguments);
    assert reduct.View() == Next(AsWritten, af.Attacks(), active.View(), Elems(arguments));
    if mode == Meant {
      var members := reduct.members;
      reduct := new IterableBitSet(members, seq(af.args, b => b in members));
      assert reduct.View().stale == {};
    }
  }

  // ---------------------------------------------------------------------- the cone

  /** A chain of attacks inside `B`. */
  ghost predicate AttackPath(R: Relation, B: set<Arg>, p: seq<Arg>) {
    && p != []
    && (forall i :: 0 <= i < |p| ==> p[i] in B)
    && (forall i :: 0 <= i < |p| - 1 ==> (p[i], p[i + 1]) in R)
  }

  ghost predicate Reaches(R: Relation, B: set<Arg>, x: Arg, q: Arg) {
    exists p :: AttackPath(R, B, p) && p[0] == x && p[|p| - 1] == q
  }

  /** The arguments from which `q` can be reached along attacks inside `B`. */
  ghost function Cone(R: Relation, B: set<Arg>, q: Arg): set<Arg> {
    set x | x in B && Reaches(R, B, x, q)
  }

  lemma ConeStep(R: Relation, B: set<Arg>, q: Arg, b: Arg, a: Arg)
    requires a in Cone(R, B, q) && b in B && (b, a) in R
    ensures b in Cone(R, B, q)
  {
    var p :| AttackPath(R, B, p) && p[0] == a && p[|p| - 1] == q;
    var longer := [b] + p;
    assert AttackPath(R, B, longer) && longer[0] == b && longer[|longer| - 1] == q;
  }

  lemma {:induction false} ConeLeast(R: Relation, B: set<Arg>, V: set<Arg>, p: seq<Arg>)
    requires AttackPath(R, B, p) && p[|p| - 1] in V
    requires forall a, b :: a in V && b in B && (b, a) in R ==> b in V
    ensures p[0] in V
    decreases |p|
  {
    if |p| > 1 {
      assert AttackPath(R, B, p[1..]);
      ConeLeast(R, B, V, p[1..]);
      assert (p[0], p[1]) in R;
    }
  }

  /** Acceptance of an argument only depends on its cone. */
  lemma ConeKeepsAdmissible(R: Relation, A: set<Arg>, q: Arg, E: set<Arg>)
    requires Admissible(R, A, E)
    ensures Admissible(R, A, E * Cone(R, A, q))
  {
    var C := Cone(R, A, q);
    forall a | a in E * C
      ensures Defends(R, A, E * C, a)
    {
      assert Defends(R, A, E, a);
      forall b | b in A && (b, a) in R
        ensures Hits(R, E * C, b)
      {
        ConeStep(R, A, q, b, a);
        assert Hits(R, E, b);
        var c :| c in E && (c, b) in R;
        ConeStep(R, A, q, c, b);
        assert c in E * C;
      }
    }
  }

  /** The attackers of visited arguments are visited or still to come. */
  ghost predicate Closed(R: Relation, B: set<Arg>, visited: set<Arg>, stack: seq<Arg>) {
    forall a, b :: a in visited && b in B && (b, a) in R ==> b in visited || b in stack
  }

  /** A visited argument that is still on the stack has all its unvisited attackers
      above it, so it has none left when it is popped again. */
  ghost predicate AboveOnStack(R: Relation, B: set<Arg>, visited: set<Arg>, stack: seq<Arg>) {
    forall i, b :: 0 <= i < |stack| && stack[i] in visited && b in B && b !in visited && (b, stack[i]) in R ==>
      b in stack[i + 1..]
  }

  /** Pushes the unvisited attackers whose bit is set. */
  method PushAttackers(attackers: seq<nat>, active: seq<bool>, visited: seq<bool>, stack0: seq<nat>)
    returns (stack: seq<nat>)
    requires |active| == |visited| && Below(attackers, |visited|)
    ensures stack0 <= stack && (Below(stack0, |visited|) ==> Below(stack, |visited|))
    ensures forall b :: b in stack[|stack0|..] <==> b in attackers && !visited[b] && active[b]
  {
    stack := stack0;
    for i := 0 to |attackers|
      invariant stack0 <= stack && (Below(stack0, |visited|) ==> Below(stack, |visited|))
      invariant forall b :: b in stack[|stack0|..] <==> b in attackers[..i] && !visited[b] && active[b]
    {
      assert attackers[..i + 1] == attackers[..i] + [attackers[i]];
      if !visited[attackers[i]] && active[attackers[i]] {
        assert (stack + [attackers[i]])[|stack0|..] == stack[|stack0|..] + [attackers[i]];
        stack := stack + [attackers[i]];
      }
    }
    assert attackers[..|attackers|] == attackers;
  }

  /** What the search keeps. */
  ghost predicate Searching(R: Relation, B: set<Arg>, q: Arg, visited: set<Arg>, stack: seq<Arg>) {
    && Closed(R, B, visited, stack)
    && AboveOnStack(R, B, visited, stack)
    && visited <= Cone(R, B, q)
    && (forall x :: x in stack ==> x in Cone(R, B, q))
    && (q in visited || q in stack)
  }

  /** One round: `arg` is popped and visited, and its unvisited attackers are put on
      top of what was below it. */
  lemma ConeRound(R: Relation, B: set<Arg>, q: Arg, visited0: set<Arg>, stack: seq<Arg>, arg: Arg, pushed: seq<Arg>)
    requires Searching(R, B, q, visited0, stack + [arg])
    requires forall b :: b in pushed <==> b in B && (b, arg) in R && b !in visited0 + {arg}
    ensures Searching(R, B, q, visited0 + {arg}, stack + pushed)
    ensures arg in visited0 ==> pushed == []
  {
    var visited, before, after := visited0 + {arg}, stack + [arg], stack + pushed;
    assert before[|stack|] == arg && arg in before;
    PoppedAgain(R, B, visited0, stack, arg, pushed);
    forall i | |stack| <= i < |after|
      ensures after[i] !in visited
    {
      assert after[i] == pushed[i - |stack|] && pushed[i - |stack|] in pushed;
    }
    forall i, b | 0 <= i < |stack| && after[i] in visited && b in B && b !in visited && (b, after[i]) in R
      ensures b in after[i + 1..]
    {
      assert after[i + 1..] == stack[i + 1..] + pushed && before[i + 1..] == stack[i + 1..] + [arg];
      if after[i] != arg { assert before[i] == after[i] && b in before[i + 1..]; }
    }
    forall x | x in pushed
      ensures x in Cone(R, B, q)
    {
      ConeStep(R, B, q, x, arg);
    }
  }

  /** An argument that is popped again has no unvisited attacker. */
  lemma PoppedAgain(R: Relation, B: set<Arg>, visited: set<Arg>, stack: seq<Arg>, arg: Arg, pushed: seq<Arg>)
    requires AboveOnStack(R, B, visited, stack + [arg])
    requires forall b :: b in pushed <==> b in B && (b, arg) in R && b !in visited + {arg}
    ensures arg in visited ==> pushed == []
  {
    var before := stack + [arg];
    assert before[|stack|] == arg && before[|stack| + 1..] == [];
    assert |pushed| > 0 ==> pushed[0] in pushed;
    if arg in visited {
      forall b
        ensures b !in pushed
      {
        assert b !in before[|stack| + 1..];
      }
    }
  }

  lemma ConeDone(R: Relation, B: set<Arg>, q: Arg, visited: set<Arg>)
    requires Searching(R, B, q, visited, [])
    ensures visited == Cone(R, B, q)
  {
    forall x | x in Cone(R, B, q)
      ensures x in visited
    {
      var p :| AttackPath(R, B, p) && p[0] == x && p[|p| - 1] == q;
      ConeLeast(R, B, visited, p);
    }
  }

  lemma SearchStart(R: Relation, B: set<Arg>, q: Arg)
    requires q in B
    ensures Searching(R, B, q, {}, [q])
  {
  }

  lemma PushedMeaning(af: AF, active: IterableBitSet, bits: seq<bool>, visited: set<nat>, arg: nat, pushed: seq<nat>)
    requires af.Valid() && active.Over(af.args) && arg < af.args && |bits| == af.args
    requires forall b :: 0 <= b < af.args ==> (bits[b] <==> b in visited)
    requires forall b :: b in pushed <==> b in af.attackers[arg] && !bits[b] && active.bitset[b]
    ensures forall b: nat :: b in pushed <==>
              b in active.View().active + active.View().stale && (b, arg) in af.Attacks() && b !in visited
  {
    af.AttacksMeaning();
  }

  ghost predicate ConeArrays(args: nat, coneArray: seq<nat>, coneBits: seq<bool>, stack: seq<nat>) {
    && |coneBits| == args && NoDup(coneArray) && Below(stack, args) && Below(coneArray, args)
    && forall b :: 0 <= b < args ==> (coneBits[b] <==> b in coneArray)
  }

  /** The body of the search loop. */
  method ConeVisit(af: AF, active: IterableBitSet, ghost q: nat, coneArray0: seq<nat>, coneBits0: seq<bool>, stack0: seq<nat>)
    returns (coneArray: seq<nat>, coneBits: seq<bool>, stack: seq<nat>)
    requires af.Valid() && active.Over(af.args) && ConeArrays(af.args, coneArray0, coneBits0, stack0) && stack0 != []
    requires Searching(af.Attacks(), active.View().active + active.View().stale, q, Elems(coneArray0), stack0)
    ensures ConeArrays(af.args, coneArray, coneBits, stack)
    ensures Searching(af.Attacks(), active.View().active + active.View().stale, q, Elems(coneArray), stack)
    ensures Elems(coneArray0) < Elems(coneArray) || (coneArray == coneArray0 && |stack| < |stack0|)
  {
    var arg := stack0[|stack0| - 1];
    var rest := stack0[..|stack0| - 1];
    assert stack0 == rest + [arg];
    coneBits, coneArray := coneBits0, coneArray0;
    if !coneBits[arg] {
      coneBits := coneBits[arg := true];
      coneArray := coneArray + [arg];
      assert arg in Elems(coneArray) && arg !in Elems(coneArray0);
    }
    assert Elems(coneArray) == Elems(coneArray0) + {arg};
    stack := PushAttackers(af.attackers[arg], active.bitset, coneBits, rest);
    ghost var pushed := stack[|rest|..];
    assert stack == rest + pushed;
    PushedMeaning(af, active, coneBits, Elems(coneArray), arg, pushed);
    ConeRound(af.Attacks(), active.View().active + active.View().stale, q, Elems(coneArray0), rest, arg, pushed);
  }

  /** The cone of an argument, by an explicit stack on which arguments may occur
      more than once. The error path of the source is `None`. */
  method GetCone(af: AF, active: IterableBitSet, argument: nat) returns (cone: Option<IterableBitSet>)
    requires af.Valid() && active.Over(af.args) && argument < af.args
    ensures cone.Some? <==> active.bitset[argument]
    ensures cone.Some? ==>
              && cone.value.Over(af.args)
              && cone.value.View() == Full(Cone(af.Attacks(), active.View().active + active.View().stale, argument))
  {
    if !active.bitset[argument] {
      return None;
    }
    ghost var R, B := af.Attacks(), active.View().active + active.View().stale;
    SearchStart(R, B, argument);
    var coneBits := seq(af.args, _ => false);
    var coneArray: seq<nat> := [];
    var stack: seq<nat> := [argument];
    while stack != []
      invariant ConeArrays(af.args, coneArray, coneBits, stack)
      invariant Searching(R, B, argument, Elems(coneArray), stack)
      decreases B - Elems(coneArray), |stack|
    {
      coneArray, coneBits, stack := ConeVisit(af, active, argument, coneArray, coneBits, stack);
    }
    ConeDone(R, B, argument, Elems(coneArray));
    assert forall k :: 0 <= k < |coneArray| ==> coneArray[k] in coneArray;
    var value := new IterableBitSet(coneArray, coneBits);
    assert value.View().stale == {};
    cone := Some(value);
  }
}
