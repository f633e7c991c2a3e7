/**
  The mutable framework of the solver (class `AF`) and the array/bitset pair in
  which it keeps the remaining arguments (class `IterableBitSet`).
 */
module Framework {
  import opened Dung
  import opened Serialisation

  const INT32_MAX := 0x7FFF_FFFF

  /** Conversion of an unsigned 32-bit result to `int32_t`. */
  function ToInt32(u: nat): int {
    if u <= INT32_MAX then u
    else if u < 0x1_0000_0000 then u - 0x1_0000_0000
    else ToInt32(u - 0x1_0000_0000)
  }

  function AcceptedVar(arg: nat): int {
    ToInt32(arg + 1)
  }

  function RejectedVar(args: nat, arg: nat): int {
    ToInt32(args + arg + 1)
  }

  /** The two variables of an argument are distinct from each other and from those
      of every other argument, and none is zero or negative. */
  lemma VariablesDistinct(args: nat, a: nat, b: nat)
    requires 2 * args <= INT32_MAX && a < args && b < args
    ensures 0 < AcceptedVar(a) && 0 < RejectedVar(args, a)
    ensures AcceptedVar(a) != RejectedVar(args, b)
    ensures AcceptedVar(a) == AcceptedVar(b) <==> a == b
    ensures RejectedVar(args, a) == RejectedVar(args, b) <==> a == b
  {
  }

  function Elems<T>(s: seq<T>): set<T> {
    set x | x in s
  }

  predicate NoDup<T(==)>(s: seq<T>) {
    forall i, j :: 0 <= i < j < |s| ==> s[i] != s[j]
  }

  /** The members of `S` in the order of `s`. */
  function Select(s: seq<nat>, S: set<nat>): (r: seq<nat>)
    ensures forall x :: x in r <==> x in s && x in S
    ensures NoDup(s) ==> NoDup(r)
  {
    if s == [] then []
    else
      var r := Select(s[..|s| - 1], S);
      if s[|s| - 1] in S then r + [s[|s| - 1]] else r
  }

  /** `x` occurs before `y` in `s`. */
  ghost predicate Before(s: seq<nat>, x: nat, y: nat) {
    exists p, q :: 0 <= p < q < |s| && s[p] == x && s[q] == y
  }

  /** What `r` lists, it lists in the order of `s`. */
  ghost predicate KeepsOrder(s: seq<nat>, r: seq<nat>) {
    && (forall i :: 0 <= i < |r| ==> r[i] in s)
    && (forall i, j :: 0 <= i < j < |r| ==> Before(s, r[i], r[j]))
  }

  lemma {:induction false} SelectOrder(s: seq<nat>, S: set<nat>)
    ensures KeepsOrder(s, Select(s, S))
  {
    if s != [] {
      var n := |s| - 1;
      var front := s[..n];
      SelectOrder(front, S);
      var r, all := Select(front, S), Select(s, S);
      forall i, j | 0 <= i < j < |all|
        ensures Before(s, all[i], all[j])
      {
        if j < |r| {
          BeforeLonger(front, s[n], r[i], r[j]);
          assert front + [s[n]] == s;
        } else {
          assert r[i] in front;
          var p :| 0 <= p < n && front[p] == r[i];
          assert s[p] == all[i] && s[n] == all[j];
        }
      }
    }
  }

  lemma BeforeLonger(s: seq<nat>, z: nat, x: nat, y: nat)
    requires Before(s, x, y)
    ensures Before(s + [z], x, y)
  {
    var p, q :| 0 <= p < q < |s| && s[p] == x && s[q] == y;
    assert (s + [z])[p] == x && (s + [z])[q] == y;
  }

  lemma KeepsOrderTwice(order: seq<nat>, s: seq<nat>, r: seq<nat>)
    requires KeepsOrder(order, s) && KeepsOrder(s, r)
    ensures KeepsOrder(order, r)
  {
    forall i, j | 0 <= i < j < |r|
      ensures Before(order, r[i], r[j])
    {
      assert Before(s, r[i], r[j]);
      var p, q :| 0 <= p < q < |s| && s[p] == r[i] && s[q] == r[j];
      assert Before(order, s[p], s[q]);
    }
  }

  lemma SelectAll(s: seq<nat>, S: set<nat>)
    requires S <= Elems(s)
    ensures Elems(Select(s, S)) == S
  {
  }

  // ------------------------------------------------------------- adjacency lists

  predicate Below(s: seq<nat>, n: nat) {
    forall k :: 0 <= k < |s| ==> s[k] < n
  }

  predicate ListsWithin(lists: seq<seq<nat>>, args: nat) {
    && |lists| == args
    && forall i :: 0 <= i < |lists| ==> Below(lists[i], args)
  }

  /** Each attack is recorded as often at its target as at its source. */
  ghost predicate Transposed(attackers: seq<seq<nat>>, attacked: seq<seq<nat>>, args: nat)
    requires |attackers| == args && |attacked| == args
  {
    forall s, t :: 0 <= s < args && 0 <= t < args ==> multiset(attackers[t])[s] == multiset(attacked[s])[t]
  }

  ghost function RelationOf(attackers: seq<seq<nat>>): Relation {
    if attackers == [] then {}
    else
      var n: Arg := |attackers| - 1;
      RelationOf(attackers[..n]) + set s | s in attackers[n] :: (s, n)
  }

  lemma {:induction false} RelationMeans(attackers: seq<seq<nat>>)
    ensures forall p {:trigger p in RelationOf(attackers)} ::
              p in RelationOf(attackers) <==> p.1 < |attackers| && p.0 in attackers[p.1]
  {
    if attackers != [] { RelationMeans(attackers[..|attackers| - 1]); }
  }

  function Resize(lists: seq<seq<nat>>, n: nat): (r: seq<seq<nat>>)
    ensures |r| == n
  {
    if n <= |lists| then lists[..n] else lists + seq(n - |lists|, _ => [])
  }

  lemma ResizeKeeps(attackers: seq<seq<nat>>, attacked: seq<seq<nat>>, n: nat)
    requires ListsWithin(attackers, |attackers|) && ListsWithin(attacked, |attackers|)
    requires Transposed(attackers, attacked, |attackers|)
    ensures |attackers| <= n ==> RelationOf(Resize(attackers, n)) == RelationOf(attackers)
    ensures |attackers| <= n ==> Transposed(Resize(attackers, n), Resize(attacked, n), n)
  {
    var more := Resize(attackers, n);
    RelationMeans(attackers);
    RelationMeans(more);
    if |attackers| <= n {
      forall s, t | 0 <= s < n && 0 <= t < n
        ensures multiset(more[t])[s] == multiset(Resize(attacked, n)[s])[t]
      {
        if s >= |attackers| || t >= |attackers| {
          assert s !in more[t] && t !in Resize(attacked, n)[s];
        }
      }
    }
  }

  lemma AddAddsAttack(attackers: seq<seq<nat>>, s: nat, t: nat)
    requires t < |attackers|
    ensures RelationOf(attackers[t := attackers[t] + [s]]) == RelationOf(attackers) + {(s, t)}
  {
    RelationMeans(attackers);
    RelationMeans(attackers[t := attackers[t] + [s]]);
  }

  lemma AddKeepsTransposed(attackers: seq<seq<nat>>, attacked: seq<seq<nat>>, s: nat, t: nat)
    requires |attackers| == |attacked| && s < |attackers| && t < |attackers| && Transposed(attackers, attacked, |attackers|)
    ensures Transposed(attackers[t := attackers[t] + [s]], attacked[s := attacked[s] + [t]], |attackers|)
  {
  }

  class AF {
    var args: nat
    var attackers: seq<seq<nat>>
    var attacked: seq<seq<nat>>

    ghost predicate Valid()
      reads this
    {
      && 2 * args <= INT32_MAX
      && ListsWithin(attackers, args)
      && ListsWithin(attacked, args)
      && Transposed(attackers, attacked, args)
    }

    ghost function Attacks(): Relation
      reads this
    {
      RelationOf(attackers)
    }

    constructor ()
      ensures Valid() && args == 0 && Attacks() == {}
    {
      args, attackers, attacked := 0, [], [];
    }

    /** The attacks, read off the lists of attackers. */
    lemma AttacksMeaning()
      ensures forall p {:trigger p in Attacks()} :: p in Attacks() <==> p.1 < |attackers| && p.0 in attackers[p.1]
    {
      RelationMeans(attackers);
    }

    /** Resizes both lists. Growing keeps all attacks; shrinking cuts the lists off. */
    method SetArguments(nArgs: nat)
      requires Valid()
      modifies this
      ensures args == nArgs
      ensures attackers == Resize(old(attackers), nArgs) && attacked == Resize(old(attacked), nArgs)
      ensures old(args) <= nArgs ==> Attacks() == old(Attacks())
      ensures old(args) <= nArgs && 2 * nArgs <= INT32_MAX ==> Valid()
    {
      ResizeKeeps(attackers, attacked, nArgs);
      attackers := Resize(attackers, nArgs);
      attacked := Resize(attacked, nArgs);
      args := nArgs;
    }

    method AddAttack(source: nat, target: nat)
      requires Valid() && source < args && target < args
      modifies this
      ensures Valid() && args == old(args)
      ensures Attacks() == old(Attacks()) + {(source, target)}
      ensures attackers == old(attackers)[target := old(attackers)[target] + [source]]
      ensures attacked == old(attacked)[source := old(attacked)[source] + [target]]
    {
      AddKeepsTransposed(attackers, attacked, source, target);
      AddAddsAttack(attackers, source, target);
      attackers := attackers[target := attackers[target] + [source]];
      attacked := attacked[source := attacked[source] + [target]];
    }

    /** Both adjacency lists describe the same attacks. */
    lemma AttackedLists(s: nat, t: nat)
      requires Valid() && s < args
      ensures t in attacked[s] <==> (s, t) in Attacks()
    {
      AttacksMeaning();
      if t < args { assert multiset(attackers[t])[s] == multiset(attacked[s])[t]; }
    }
  }

  // ------------------------------------------------------------ array and bitset

  ghost function ViewOf(members: seq<nat>, bitset: seq<bool>): State {
    State(Elems(members), set b | 0 <= b < |bitset| && bitset[b] && b !in members)
  }

  ghost predicate Marked(members: seq<nat>, bitset: seq<bool>) {
    forall k :: 0 <= k < |members| ==> members[k] < |bitset| && bitset[members[k]]
  }

  class IterableBitSet {
    var members: seq<nat>
    var bitset: seq<bool>

    /** Every argument of the array has its bit set; the converse is not promised. */
    ghost predicate Over(args: nat)
      reads this
    {
      && |bitset| == args
      && NoDup(members)
      && Marked(members, bitset)
    }

    ghost function View(): State
      reads this
    {
      ViewOf(members, bitset)
    }

    constructor (members: seq<nat>, bitset: seq<bool>)
      ensures this.members == members && this.bitset == bitset
    {
      this.members, this.bitset := members, bitset;
    }

    method Clear()
      modifies this
      ensures members == [] && bitset == [] && View() == Full({})
    {
      members, bitset := [], [];
    }

    /** A bit is set exactly for the active and the stale arguments. */
    lemma BitMeaning(args: nat, b: nat)
      requires Over(args)
      ensures b < args && bitset[b] <==> b in View().active + View().stale
    {
    }

    /** The pair agrees, in the sense the algorithms rely on, iff no bit is stale. */
    lemma AgreesIffNotStale(args: nat)
      requires Over(args)
      ensures View() == Full(Elems(members)) <==> forall b :: 0 <= b < args ==> (bitset[b] <==> b in members)
    {
      if forall b :: 0 <= b < args ==> (bitset[b] <==> b in members) {
        assert View().stale == {};
      } else {
        var b :| 0 <= b < args && (bitset[b] <==> b !in members);
        assert b in View().stale;
      }
    }
  }
}
