/**
  `is_blocked_clause`, which reorders the occurrence list and the clauses it
  visits in place, and the loop that removes blocked clauses.
 */
module BlockedClauses {
  import opened Options
  import opened Reconstruction

  function MoveToFront<T>(s: seq<T>, k: nat): seq<T>
    requires k < |s|
  {
    [s[k]] + s[..k] + s[k + 1..]
  }

  /** The element at `k` comes first, the others keep their order. */
  ghost predicate MovedToFront<T>(before: seq<T>, after: seq<T>, k: int) {
    && |after| == |before| && 0 <= k < |before| && after[0] == before[k]
    && (forall m :: 1 <= m <= k ==> after[m] == before[m - 1])
    && (forall m :: k < m < |before| ==> after[m] == before[m])
  }

  lemma MovedIsMoveToFront<T>(before: seq<T>, after: seq<T>, k: nat)
    requires k < |before|
    ensures MovedToFront(before, after, k) <==> after == MoveToFront(before, k)
  {
  }

  lemma MoveToFrontPermutes<T>(s: seq<T>, k: nat)
    requires k < |s|
    ensures multiset(MoveToFront(s, k)) == multiset(s)
  {
    assert s == s[..k] + [s[k]] + s[k + 1..];
  }

  /** Unchanged, or one element moved to the front. */
  ghost predicate Rotated<T(!new)>(before: seq<T>, after: seq<T>) {
    before == after || exists k :: 0 <= k < |before| && after == MoveToFront(before, k)
  }

  lemma RotatedPermutes(before: seq<int>, after: seq<int>)
    requires Rotated(before, after)
    ensures multiset(after) == multiset(before) && Lits(after) == Lits(before)
  {
    if before != after {
      var k :| 0 <= k < |before| && after == MoveToFront(before, k);
      MoveToFrontPermutes(before, k);
    }
    assert forall x :: x in after <==> x in multiset(after);
    assert forall x :: x in before <==> x in multiset(before);
  }

  class Clause {
    const literals: array<int>
    const high: int
    const low: int
    var garbage: bool

    constructor (literals: array<int>, high: int, low: int)
      ensures this.literals == literals && this.high == high && this.low == low && !garbage
    {
      this.literals, this.high, this.low, garbage := literals, high, low, false;
    }

    ghost function LitSet(): set<int>
      reads literals
    {
      Lits(literals[..])
    }
  }

  // ---------------------------------------------------------------------- the marks

  function VarOf(lit: int): nat {
    if lit < 0 then -lit else lit
  }

  function SignOf(lit: int): int {
    if lit < 0 then -1 else 1
  }

  /** The mark of a literal: 1 if it is marked, -1 if its negation is, 0 otherwise. */
  function MarkOf(marks: map<nat, int>, lit: int): int {
    if VarOf(lit) in marks then (if marks[VarOf(lit)] == SignOf(lit) then 1 else -1) else 0
  }

  ghost predicate NonTautological(c: seq<int>) {
    forall lit :: lit in c ==> -lit !in c
  }

  method Mark(c: array<int>) returns (marks: map<nat, int>)
    requires NonTautological(c[..])
    ensures forall lit :: lit != 0 ==> (MarkOf(marks, lit) < 0 <==> -lit in c[..])
  {
    marks := map[];
    for i := 0 to c.Length
      invariant forall v :: v in marks ==> exists k :: 0 <= k < i && VarOf(c[k]) == v && marks[v] == SignOf(c[k])
      invariant forall k :: 0 <= k < i ==> VarOf(c[k]) in marks
    {
      marks := marks[VarOf(c[i]) := SignOf(c[i])];
    }
    forall lit | lit != 0
      ensures MarkOf(marks, lit) < 0 <==> -lit in c[..]
    {
      MarkMeaning(c[..], marks, lit);
    }
  }

  lemma MarkMeaning(c: seq<int>, marks: map<nat, int>, lit: int)
    requires NonTautological(c) && lit != 0
    requires forall v :: v in marks ==> exists k :: 0 <= k < |c| && VarOf(c[k]) == v && marks[v] == SignOf(c[k])
    requires forall k :: 0 <= k < |c| ==> VarOf(c[k]) in marks
    ensures MarkOf(marks, lit) < 0 <==> -lit in c
  {
    if VarOf(lit) in marks {
      var k :| 0 <= k < |c| && VarOf(c[k]) == VarOf(lit) && marks[VarOf(lit)] == SignOf(c[k]);
      assert c[k] in c && (c[k] == lit || c[k] == -lit);
    }
  }

  // ----------------------------------------------------------- one clause of the list

  /** The literal, different from `-lit`, whose negation is in `c`. */
  ghost predicate Clashes(c: set<int>, other: int, lit: int) {
    other != -lit && -other in c
  }

  /** The first clashing literal is at position `k`. */
  ghost predicate FirstClash(c: set<int>, lit: int, d: seq<int>, k: int) {
    0 <= k < |d| && Clashes(c, d[k], lit) && forall m {:trigger Clashes(c, d[m], lit)} :: 0 <= m < k ==> !Clashes(c, d[m], lit)
  }

  /** `after` is `before` with its first clashing literal moved to the front. */
  ghost predicate Fronted(c: set<int>, lit: int, before: seq<int>, after: seq<int>) {
    exists k :: FirstClash(c, lit, before, k) && MovedToFront(before, after, k)
  }

  /** Searches `d` for a literal that makes the resolvent tautological and moves the
      first one to the front; otherwise restores the old order. */
  method FindClash(d: array<int>, lit: int, marks: map<nat, int>, ghost c: set<int>) returns (found: bool)
    requires 0 !in d[..] && forall l :: l != 0 ==> (MarkOf(marks, l) < 0 <==> -l in c)
    modifies d
    ensures found <==> TautologicalResolvent(c, Lits(old(d[..])), lit)
    ensures found ==> Fronted(c, lit, old(d[..]), d[..])
    ensures !found ==> d[..] == old(d[..])
  {
    ghost var before := d[..];
    found := false;
    var prevOther := 0;
    var l := 0;
    while l < d.Length
      invariant 0 <= l <= d.Length
      invariant prevOther == if l == 0 then 0 else before[l - 1]
      invariant forall m :: 0 <= m < l ==> d[m] == if m == 0 then 0 else before[m - 1]
      invariant forall m :: l <= m < d.Length ==> d[m] == before[m]
      invariant forall m :: 0 <= m < l ==> !Clashes(c, before[m], lit)
    {
      var other := d[l];
      assert other == before[l] && before[l] in before;
      d[l] := prevOther;
      prevOther := other;
      if other != -lit && MarkOf(marks, other) < 0 {
        d[0] := other;
        found := true;
        break;
      }
      l := l + 1;
    }
    if found {
      assert MovedToFront(before, d[..], l);
      assert FirstClash(c, lit, before, l);
      assert before[l] in Lits(before) && Clashes(c, before[l], lit);
      return;
    }
    while l != 0
      invariant 0 <= l <= d.Length
      invariant prevOther == if l == 0 then 0 else before[l - 1]
      invariant forall m :: 0 <= m < l ==> d[m] == if m == 0 then 0 else before[m - 1]
      invariant forall m :: l <= m < d.Length ==> d[m] == before[m]
    {
      l := l - 1;
      var other := d[l];
      d[l] := prevOther;
      prevOther := other;
    }
    assert d[..] == before;
    NoClash(c, before, lit);
  }

  lemma NoClash(c: set<int>, d: seq<int>, lit: int)
    requires forall m :: 0 <= m < |d| ==> !Clashes(c, d[m], lit)
    ensures !TautologicalResolvent(c, Lits(d), lit)
  {
  }

  // -------------------------------------------------------------- the occurrence list

  /** An occurrence list holds each clause once, clauses do not share literals, and
      the candidate is none of them. */
  ghost predicate Separate(c: Clause, os: seq<Clause>) {
    Apart(os) && forall i :: 0 <= i < |os| ==> os[i].literals != c.literals
  }

  ghost predicate NonZero(lits: seq<seq<int>>) {
    forall i :: 0 <= i < |lits| ==> 0 !in lits[i]
  }

  /** The literals the clauses have in the current state. */
  ghost function Snapshot(os: seq<Clause>): seq<seq<int>>
    reads set d | d in os :: d.literals
  {
    seq(|os|, i requires 0 <= i < |os| reads set d | d in os :: d.literals => os[i].literals[..])
  }

  /** `after` is `before` with some clauses reordered inside. */
  ghost predicate AllRotated(before: seq<seq<int>>, after: seq<seq<int>>) {
    |before| == |after| && forall i :: 0 <= i < |before| ==> Rotated(before[i], after[i])
  }

  /** The first `n` clauses have their first clashing literal moved to the front, the
      others are unchanged. */
  ghost predicate FrontedUpTo(c: set<int>, lit: int, before: seq<seq<int>>, after: seq<seq<int>>, n: nat) {
    && |before| == |after| && n <= |before|
    && (forall i :: 0 <= i < n ==> Fronted(c, lit, before[i], after[i]))
    && (forall i :: n <= i < |before| ==> after[i] == before[i])
  }

  lemma FrontedRotates(c: set<int>, lit: int, before: seq<seq<int>>, after: seq<seq<int>>, n: nat)
    requires FrontedUpTo(c, lit, before, after, n)
    ensures AllRotated(before, after)
  {
    forall i | 0 <= i < |before|
      ensures Rotated(before[i], after[i])
    {
      if i < n {
        assert Fronted(c, lit, before[i], after[i]);
        var k :| FirstClash(c, lit, before[i], k) && MovedToFront(before[i], after[i], k);
        MovedIsMoveToFront(before[i], after[i], k);
      }
    }
  }

  /** Every resolvent on `lit` with the clauses is tautological. */
  ghost predicate AllTautological(c: set<int>, lit: int, lits: seq<seq<int>>) {
    forall i :: 0 <= i < |lits| ==> TautologicalResolvent(c, Lits(lits[i]), lit)
  }

  /** The forward loop: visits clauses until one has a non-tautological resolvent. */
  method Scan(marks: map<nat, int>, lit: int, os: array<Clause>, ghost c: set<int>) returns (i: nat, prevD: Clause)
    requires os.Length > 0 && Apart(os[..]) && NonZero(Snapshot(os[..]))
    requires forall l :: l != 0 ==> (MarkOf(marks, l) < 0 <==> -l in c)
    modifies os, set d | d in os[..] :: d.literals
    ensures FrontedUpTo(c, lit, old(Snapshot(os[..])), Snapshot(old(os[..])), i)
    ensures AllTautological(c, lit, old(Snapshot(os[..]))[..i])
    ensures i < os.Length ==> !TautologicalResolvent(c, Lits(old(Snapshot(os[..]))[i]), lit)
    ensures i < os.Length ==> os[..] == MoveToFront(old(os[..]), i)
    ensures i == os.Length ==> prevD == old(os[i - 1]) && Shifted(old(os[..]), os[..], i)
  {
    ghost var before, lits := os[..], Snapshot(os[..]);
    prevD := os[0];
    i := 0;
    while i < os.Length
      invariant i <= os.Length && (i > 0 ==> prevD == before[i - 1])
      invariant os[..] == ShiftedList(before, i)
      invariant FrontedUpTo(c, lit, lits, Snapshot(before), i)
    {
      prevD := ShiftIn(os, i, prevD, before);
      var found := Visit(prevD, lit, marks, c, before, i, lits);
      if !found {
        FrontedTautological(c, lit, lits, Snapshot(before), i);
        PutFront(os, prevD, before, i);
        return;
      }
      i := i + 1;
    }
    FrontedTautological(c, lit, lits, Snapshot(before), i);
    ShiftedAll(before, i);
  }

  /** Takes the clause at place `i` out and puts its predecessor there. The source also
      writes an empty entry to place 0, which it overwrites on every path; here that
      write is left out. */
  method ShiftIn(os: array<Clause>, i: nat, prevD: Clause, ghost before: seq<Clause>) returns (d: Clause)
    requires i < os.Length == |before| && os[..] == ShiftedList(before, i) && (i > 0 ==> prevD == before[i - 1])
    modifies os
    ensures d == before[i] && os[..] == ShiftedList(before, i + 1)
  {
    ShiftedAt(before, i);
    ghost var list := os[..];
    d := os[i];
    if i > 0 {
      os[i] := prevD;
      assert os[..] == list[i := prevD];
    }
  }

  method PutFront(os: array<Clause>, d: Clause, ghost before: seq<Clause>, ghost i: nat)
    requires i < os.Length == |before| && os[..] == ShiftedList(before, i + 1) && d == before[i]
    modifies os
    ensures os[..] == MoveToFront(before, i)
  {
    ShiftedFront(before, i);
    ghost var list := os[..];
    os[0] := d;
    assert os[..] == list[0 := d];
  }

  lemma FrontedTautological(c: set<int>, lit: int, before: seq<seq<int>>, after: seq<seq<int>>, n: nat)
    requires FrontedUpTo(c, lit, before, after, n)
    ensures AllTautological(c, lit, before[..n])
  {
    forall i | 0 <= i < n
      ensures TautologicalResolvent(c, Lits(before[i]), lit)
    {
      assert Fronted(c, lit, before[i], after[i]);
      var k :| FirstClash(c, lit, before[i], k) && MovedToFront(before[i], after[i], k);
      assert before[i][k] in Lits(before[i]);
    }
  }

  /** Each place from 1 to `i - 1` takes over the clause in front of it. */
  ghost function ShiftedList(before: seq<Clause>, i: nat): (list: seq<Clause>)
    requires i <= |before|
    ensures |list| == |before|
  {
    if i <= 1 then before else ShiftedList(before, i - 1)[i - 1 := before[i - 2]]
  }

  lemma {:induction false} ShiftedAll(before: seq<Clause>, i: nat)
    requires i <= |before|
    ensures Shifted(before, ShiftedList(before, i), i)
  {
    if i > 1 { ShiftedAll(before, i - 1); }
  }

  lemma ShiftedAt(before: seq<Clause>, i: nat)
    requires i < |before|
    ensures ShiftedList(before, i)[i] == before[i]
  {
    ShiftedAll(before, i);
  }

  lemma ShiftedFront(before: seq<Clause>, i: nat)
    requires i < |before|
    ensures ShiftedList(before, i + 1)[0 := before[i]] == MoveToFront(before, i)
  {
    ShiftedAll(before, i + 1);
  }

  /** One clause of the list, the `i`-th: is its resolvent tautological? */
  method Visit(d: Clause, lit: int, marks: map<nat, int>, ghost c: set<int>, ghost before: seq<Clause>, ghost i: nat,
               ghost lits: seq<seq<int>>)
    returns (found: bool)
    requires i < |before| && d == before[i] && Apart(before) && NonZero(lits)
    requires FrontedUpTo(c, lit, lits, Snapshot(before), i)
    requires forall l :: l != 0 ==> (MarkOf(marks, l) < 0 <==> -l in c)
    modifies d.literals
    ensures FrontedUpTo(c, lit, lits, Snapshot(before), if found then i + 1 else i)
    ensures found <==> TautologicalResolvent(c, Lits(lits[i]), lit)
  {
    ghost var now := Snapshot(before);
    assert lits[i] == now[i] == d.literals[..];
    ApartMeans(before, |before|);
    found := FindClash(d.literals, lit, marks, c);
    SnapshotUpdate(before, i, now);
    FrontedNext(c, lit, lits, now, i, d.literals[..]);
  }

  /** One visited clause, `now` being what the clauses were before its visit. */
  lemma FrontedNext(c: set<int>, lit: int, lits: seq<seq<int>>, now: seq<seq<int>>, i: nat, d: seq<int>)
    requires i < |lits| && FrontedUpTo(c, lit, lits, now, i)
    ensures Fronted(c, lit, lits[i], d) ==> FrontedUpTo(c, lit, lits, now[i := d], i + 1)
    ensures d == lits[i] ==> FrontedUpTo(c, lit, lits, now[i := d], i)
  {
  }

  /** No two clauses of the list share their literals. */
  ghost predicate Apart(os: seq<Clause>) {
    ApartUpTo(os, |os|)
  }

  ghost predicate ApartUpTo(os: seq<Clause>, n: nat)
    requires n <= |os|
  {
    n == 0 || (ApartUpTo(os, n - 1) && forall i :: 0 <= i < n - 1 ==> os[i].literals != os[n - 1].literals)
  }

  lemma {:induction false} ApartMeans(os: seq<Clause>, n: nat)
    requires n <= |os|
    ensures ApartUpTo(os, n) <==> forall i, j :: 0 <= i < j < n ==> os[i].literals != os[j].literals
  {
    if n > 0 { ApartMeans(os, n - 1); }
  }

  lemma SnapshotUpdate(os: seq<Clause>, i: nat, was: seq<seq<int>>)
    requires |was| == |os| && i < |os|
    requires forall m :: 0 <= m < |os| && m != i ==> os[m].literals[..] == was[m]
    ensures Snapshot(os) == was[i := os[i].literals[..]]
  {
  }

  /** Is `c` blocked on `lit`, that is, are all its resolvents with the clauses of the
      occurrence list of `-lit` tautological? A clause with a non-tautological
      resolvent is moved to the front of the list; otherwise the list is as before. */
  method IsBlockedClause(c: Clause, lit: int, os: array<Clause>) returns (res: bool)
    requires NonTautological(c.literals[..]) && Separate(c, os[..]) && NonZero(Snapshot(os[..]))
    modifies os, set d | d in os[..] :: d.literals
    ensures res <==> AllTautological(c.LitSet(), lit, old(Snapshot(os[..])))
    ensures AllRotated(old(Snapshot(os[..])), Snapshot(old(os[..])))
    ensures res ==> os[..] == old(os[..])
    ensures res ==> FrontedUpTo(c.LitSet(), lit, old(Snapshot(os[..])), Snapshot(old(os[..])), os.Length)
    ensures !res ==> exists k :: 0 <= k < os.Length && os[..] == MoveToFront(old(os[..]), k)
                                 && AllTautological(c.LitSet(), lit, old(Snapshot(os[..]))[..k])
                                 && !TautologicalResolvent(c.LitSet(), Lits(old(Snapshot(os[..]))[k]), lit)
                                 && FrontedUpTo(c.LitSet(), lit, old(Snapshot(os[..])), Snapshot(old(os[..])), k)
  {
    ghost var before, lits, cs := os[..], Snapshot(os[..]), c.LitSet();
    if os.Length == 0 {
      return true;
    }
    var marks := Mark(c.literals);
    var i, prevD := Scan(marks, lit, os, cs);
    FrontedRotates(cs, lit, lits, Snapshot(before), i);
    assert c.LitSet() == cs;
    res := i == os.Length;
    if res {
      assert lits[..i] == lits;
      RestoreOrder(os, prevD, before);
    }
  }

  /** The backward loop: undoes the shift. */
  method RestoreOrder(os: array<Clause>, last: Clause, ghost before: seq<Clause>)
    requires os.Length > 0 && Shifted(before, os[..], os.Length) && last == before[os.Length - 1]
    modifies os
    ensures os[..] == before
  {
    var i, prevD := os.Length, last;
    while i != 0
      invariant 0 <= i <= os.Length
      invariant i > 0 ==> prevD == before[i - 1]
      invariant Shifted(before, os[..], i)
    {
      i := i - 1;
      var d := os[i];
      os[i] := prevD;
      prevD := d;
    }
  }

  /** The first `i` clauses are shifted back by one place; what is at 0 is open. */
  ghost predicate Shifted(before: seq<Clause>, os: seq<Clause>, i: nat) {
    && |os| == |before| && i <= |os|
    && (forall m :: 1 <= m < i ==> os[m] == before[m - 1])
    && (forall m :: i <= m < |os| ==> os[m] == before[m])
  }

  // ---------------------------------------------------------------- the removal loop

  ghost function LitSets(lits: seq<seq<int>>): set<set<int>> {
    set i | 0 <= i < |lits| :: Lits(lits[i])
  }

  ghost function Containing(f: multiset<set<int>>, lit: int): set<set<int>> {
    set d | d in f && lit in d
  }

  /** Reordering clauses inside changes neither what they say nor that they hold no zero. */
  lemma RotatedSets(before: seq<seq<int>>, after: seq<seq<int>>)
    requires AllRotated(before, after) && NonZero(before)
    ensures LitSets(after) == LitSets(before) && NonZero(after)
  {
    forall i | 0 <= i < |before|
      ensures Lits(after[i]) == Lits(before[i]) && 0 !in after[i]
    {
      RotatedPermutes(before[i], after[i]);
      assert 0 !in Lits(before[i]);
    }
  }

  /** Nor does reordering the list. */
  lemma MovedSets(lits: seq<seq<int>>, k: nat)
    requires k < |lits| && NonZero(lits)
    ensures LitSets(MoveToFront(lits, k)) == LitSets(lits) && NonZero(MoveToFront(lits, k))
  {
    var moved := MoveToFront(lits, k);
    assert forall i :: 0 <= i < |moved| ==> moved[i] == lits[if i == 0 then k else if i <= k then i - 1 else i];
    forall j | 0 <= j < |lits|
      ensures Lits(lits[j]) in LitSets(moved)
    {
      assert moved[if j < k then j + 1 else if j == k then 0 else j] == lits[j];
    }
  }

  lemma SnapshotMoved(os: seq<Clause>, k: nat)
    requires k < |os|
    ensures Snapshot(MoveToFront(os, k)) == MoveToFront(Snapshot(os), k)
  {
  }

  /** Every resolvent of `c` on `lit` with a clause of `neg` is tautological. */
  ghost predicate BlockedBy(c: set<int>, lit: int, neg: set<set<int>>) {
    forall d :: d in neg ==> TautologicalResolvent(c, d, lit)
  }

  lemma TautologicalIsBlocked(c: set<int>, lit: int, lits: seq<seq<int>>)
    ensures AllTautological(c, lit, lits) <==> BlockedBy(c, lit, LitSets(lits))
  {
    if BlockedBy(c, lit, LitSets(lits)) {
      forall i | 0 <= i < |lits|
        ensures TautologicalResolvent(c, Lits(lits[i]), lit)
      {
        assert Lits(lits[i]) in LitSets(lits);
      }
    }
  }

  /** Only the clauses with `-lit` matter. */
  lemma BlockedByContaining(c: set<int>, lit: int, f: multiset<set<int>>)
    ensures BlockedBy(c, lit, Containing(f, -lit)) <==> Blocked(c, lit, f)
  {
    assert forall d :: d in f && -lit in d <==> d in Containing(f, -lit);
  }

  /** What is saved for a clause blocked on `lit`. */
  function Saved(c: Clause, lit: int, literals: seq<int>): Entry {
    Entry([lit], c.high, c.low, literals)
  }

  /** Tries one candidate and, if it is blocked, saves it on the extension stack. */
  method TryCandidate(c: Clause, lit: int, os: array<Clause>, external: External,
                      ghost entries: seq<Entry>)
    returns (blocked: bool)
    requires NonTautological(c.literals[..]) && Separate(c, os[..]) && NonZero(Snapshot(os[..]))
    requires external.extension == Flat(entries)
    modifies os, (set d | d in os[..] :: d.literals), external`extension
    ensures blocked <==> BlockedBy(old(c.LitSet()), lit, old(LitSets(Snapshot(os[..]))))
    ensures LitSets(Snapshot(os[..])) == old(LitSets(Snapshot(os[..]))) && NonZero(Snapshot(os[..]))
    ensures os[..] == old(os[..]) || exists k :: 0 <= k < os.Length && os[..] == MoveToFront(old(os[..]), k)
    ensures external.extension == Flat(if blocked then entries + [Saved(c, lit, old(c.literals[..]))] else entries)
  {
    ghost var before, lits, cs := os[..], Snapshot(os[..]), c.LitSet();
    TautologicalIsBlocked(cs, lit, lits);
    blocked := IsBlockedClause(c, lit, os);
    assert c.LitSet() == cs;
    RotatedSets(lits, Snapshot(before));
    if os[..] != before {
      ghost var k :| 0 <= k < os.Length && os[..] == MoveToFront(before, k);
      SnapshotMoved(before, k);
      MovedSets(Snapshot(before), k);
    }
    if blocked {
      ghost var entry := external.PushClause(c.literals[..], lit, c.high, c.low, entries);
    }
  }

  // ------------------------------------------------- what the loop takes out, as a value

  ghost predicate AllContain(lits: seq<seq<int>>, lit: int) {
    forall i :: 0 <= i < |lits| ==> NonTautological(lits[i]) && lit in lits[i]
  }

  ghost function SetsFrom(lits: seq<seq<int>>, j: nat): multiset<set<int>>
    requires j <= |lits|
    decreases |lits| - j
  {
    if j == |lits| then multiset{} else multiset{Lits(lits[j])} + SetsFrom(lits, j + 1)
  }

  /** Removing a clause with `lit` leaves the clauses with `-lit` alone. */
  lemma ContainingKept(f: multiset<set<int>>, c: seq<int>, lit: int)
    requires NonTautological(c) && lit in c
    ensures Containing(f - multiset{Lits(c)}, -lit) == Containing(f, -lit)
  {
  }

  /** Which of the clauses are blocked. */
  ghost function Verdicts(cl: seq<seq<int>>, lit: int, neg: set<set<int>>): (chosen: seq<bool>)
    ensures |chosen| == |cl|
  {
    if cl == [] then [] else Verdicts(cl[..|cl| - 1], lit, neg) + [BlockedBy(Lits(cl[|cl| - 1]), lit, neg)]
  }

  lemma {:induction false} VerdictAt(cl: seq<seq<int>>, lit: int, neg: set<set<int>>, i: nat)
    requires i < |cl|
    ensures Verdicts(cl, lit, neg)[i] == BlockedBy(Lits(cl[i]), lit, neg)
    decreases |cl|
  {
    if i < |cl| - 1 { VerdictAt(cl[..|cl| - 1], lit, neg, i); }
  }

  /** The literal sets of the chosen clauses among the first `n`. */
  ghost function ChosenSets(cl: seq<seq<int>>, chosen: seq<bool>, n: nat): multiset<set<int>>
    requires n <= |chosen| == |cl|
  {
    if n == 0 then multiset{}
    else ChosenSets(cl, chosen, n - 1) + (if chosen[n - 1] then multiset{Lits(cl[n - 1])} else multiset{})
  }

  /** The entries saved for the chosen clauses among the first `n`. */
  ghost function SavedEntries(candidates: seq<Clause>, cl: seq<seq<int>>, lit: int, chosen: seq<bool>, n: nat): seq<Entry>
    requires n <= |chosen| == |candidates| == |cl|
  {
    if n == 0 then []
    else SavedEntries(candidates, cl, lit, chosen, n - 1) +
         (if chosen[n - 1] then [Saved(candidates[n - 1], lit, cl[n - 1])] else [])
  }

  lemma SavedNext(candidates: seq<Clause>, cl: seq<seq<int>>, lit: int, chosen: seq<bool>, n: nat, entries: seq<Entry>)
    requires n < |chosen| == |candidates| == |cl|
    ensures entries + SavedEntries(candidates, cl, lit, chosen, n + 1) ==
            if chosen[n] then entries + SavedEntries(candidates, cl, lit, chosen, n) + [Saved(candidates[n], lit, cl[n])]
            else entries + SavedEntries(candidates, cl, lit, chosen, n)
  {
  }

  /** `removed` takes the chosen clauses among the first `n` out of `f` and leaves `g`. */
  ghost predicate TakesOut(f: multiset<set<int>>, cl: seq<seq<int>>, lit: int, chosen: seq<bool>, n: nat,
                           removed: seq<Entry>, g: multiset<set<int>>)
    requires n <= |chosen| == |cl|
  {
    && Removes(f, removed, g)
    && f == g + ChosenSets(cl, chosen, n)
    && Containing(g, -lit) == Containing(f, -lit)
    && SetsFrom(cl, n) <= g
  }

  /** Although blockedness is a matter of `f`, each saved clause is blocked in what the
      earlier removals leave: they take out no clause with `-lit`. */
  lemma {:induction false} SavedTakesOut(candidates: seq<Clause>, cl: seq<seq<int>>, lit: int, f: multiset<set<int>>,
                                         chosen: seq<bool>, n: nat)
    returns (g: multiset<set<int>>)
    requires n <= |chosen| == |candidates| == |cl| && AllContain(cl, lit) && SetsFrom(cl, 0) <= f
    requires forall i :: 0 <= i < n ==> chosen[i] == BlockedBy(Lits(cl[i]), lit, Containing(f, -lit))
    ensures TakesOut(f, cl, lit, chosen, n, SavedEntries(candidates, cl, lit, chosen, n), g)
  {
    g := f;
    if n > 0 {
      g := SavedTakesOut(candidates, cl, lit, f, chosen, n - 1);
      var before := SavedEntries(candidates, cl, lit, chosen, n - 1);
      assert before + [] == before;
      g := TakeOutOne(f, cl, lit, chosen, n - 1, before, g, Saved(candidates[n - 1], lit, cl[n - 1]));
    }
  }

  lemma TakeOutOne(f: multiset<set<int>>, cl: seq<seq<int>>, lit: int, chosen: seq<bool>, n: nat,
                   removed: seq<Entry>, g: multiset<set<int>>, e: Entry)
    returns (h: multiset<set<int>>)
    requires n < |chosen| == |cl| && NonTautological(cl[n]) && lit in cl[n]
    requires TakesOut(f, cl, lit, chosen, n, removed, g)
    requires chosen[n] == BlockedBy(Lits(cl[n]), lit, Containing(f, -lit))
    requires e.pivots == [lit] && e.clause == cl[n]
    ensures TakesOut(f, cl, lit, chosen, n + 1, if chosen[n] then removed + [e] else removed, h)
  {
    var c, out, later := Lits(cl[n]), ChosenSets(cl, chosen, n), SetsFrom(cl, n + 1);
    BlockedByContaining(c, lit, g);
    ContainingKept(g, cl[n], lit);
    TakeOut(f, out, g, c, later);
    h := g;
    if chosen[n] {
      h := g - multiset{c};
      RemovesOne(g, e);
      RemovesMore(f, removed, g, [e], h);
    }
  }

  lemma RemovesOne(f: multiset<set<int>>, e: Entry)
    requires |e.pivots| == 1 && e.pivots[0] in e.clause && Lits(e.clause) in f && Blocked(Lits(e.clause), e.pivots[0], f)
    ensures Removes(f, [e], f - multiset{Lits(e.clause)})
  {
  }

  lemma TakeOut<T>(f: multiset<T>, out: multiset<T>, g: multiset<T>, c: T, later: multiset<T>)
    requires f == g + out && multiset{c} + later <= g
    ensures c in g && f == (g - multiset{c}) + (out + multiset{c}) && later <= g - multiset{c}
    ensures later <= g && out + multiset{} == out
  {
  }

  // ------------------------------------------------------------------------- the loop

  ghost predicate AllDifferent(candidates: seq<Clause>) {
    forall i :: 0 <= i < |candidates| ==> candidates[i] !in candidates[..i]
  }

  /** The clauses of an occurrence list, as sets of literals; nothing if the list is not
      in order (shared literals, zeros, or literals stored outside `lists`). */
  ghost function Occurrences(os: seq<Clause>, lists: set<array<int>>): Option<set<set<int>>>
    reads set d | d in os :: d.literals
  {
    if Apart(os) && NonZero(Snapshot(os)) && Within(os, lists) then Some(LitSets(Snapshot(os))) else None
  }

  ghost predicate Within(os: seq<Clause>, lists: set<array<int>>) {
    forall i :: 0 <= i < |os| ==> os[i].literals in lists
  }

  lemma ApartReordered(before: seq<Clause>, after: seq<Clause>, lists: set<array<int>>)
    requires Apart(before) && Within(before, lists)
    requires after == before || exists k :: 0 <= k < |before| && after == MoveToFront(before, k)
    ensures Apart(after) && Within(after, lists)
  {
    ApartMeans(before, |before|);
    ApartMeans(after, |after|);
  }

  /** The chosen ones of the first `n` candidates are garbage, the others are not. */
  ghost predicate Marked(candidates: seq<Clause>, chosen: seq<bool>, n: nat)
    requires |candidates| == |chosen|
    reads set c | c in candidates
  {
    forall i :: 0 <= i < |candidates| ==> candidates[i].garbage == (i < n && chosen[i])
  }

  /** The removal loop for one literal: exactly the candidates that are blocked in
      the formula become garbage, `g` is the formula without them, and the stack
      records how to undo their removal. */
  method BlockCandidates(candidates: seq<Clause>, lit: int, os: array<Clause>, external: External,
                         ghost f: multiset<set<int>>, ghost entries: seq<Entry>, ghost lists: set<array<int>>)
    returns (ghost removed: seq<Entry>, ghost g: multiset<set<int>>, ghost chosen: seq<bool>)
    requires Occurrences(os[..], lists) == Some(Containing(f, -lit))
    requires AllDifferent(candidates) && forall i :: 0 <= i < |candidates| ==> candidates[i].literals !in lists
    requires AllContain(Snapshot(candidates), lit) && SetsFrom(Snapshot(candidates), 0) <= f
    requires external.extension == Flat(entries)
    requires forall i :: 0 <= i < |candidates| ==> !candidates[i].garbage
    modifies os, lists, (set c | c in candidates)`garbage, external`extension
    ensures |chosen| == |candidates| && Marked(candidates, chosen, |candidates|)
    ensures forall i :: 0 <= i < |candidates| ==> chosen[i] == Blocked(Lits(old(Snapshot(candidates))[i]), lit, f)
    ensures f == g + ChosenSets(old(Snapshot(candidates)), chosen, |candidates|)
    ensures external.extension == Flat(entries + removed) && Removes(f, removed, g)
  {
    ghost var cl, neg := Snapshot(candidates), Containing(f, -lit);
    chosen := Verdicts(cl, lit, neg);
    BlockLoop(candidates, lit, os, external, entries, lists, cl, chosen, neg);
    removed, g := BlockedTakenOut(candidates, cl, lit, f, chosen);
  }

  lemma BlockedTakenOut(candidates: seq<Clause>, cl: seq<seq<int>>, lit: int, f: multiset<set<int>>, chosen: seq<bool>)
    returns (removed: seq<Entry>, g: multiset<set<int>>)
    requires |candidates| == |cl| && AllContain(cl, lit) && SetsFrom(cl, 0) <= f
    requires chosen == Verdicts(cl, lit, Containing(f, -lit))
    ensures removed == SavedEntries(candidates, cl, lit, chosen, |cl|)
    ensures Removes(f, removed, g) && f == g + ChosenSets(cl, chosen, |cl|)
    ensures forall i :: 0 <= i < |chosen| ==> chosen[i] == Blocked(Lits(cl[i]), lit, f)
  {
    forall i | 0 <= i < |chosen|
      ensures chosen[i] == BlockedBy(Lits(cl[i]), lit, Containing(f, -lit)) == Blocked(Lits(cl[i]), lit, f)
    {
      VerdictAt(cl, lit, Containing(f, -lit), i);
      BlockedByContaining(Lits(cl[i]), lit, f);
    }
    removed := SavedEntries(candidates, cl, lit, chosen, |cl|);
    g := SavedTakesOut(candidates, cl, lit, f, chosen, |cl|);
  }

  /** Tries the candidates in turn, saves the blocked ones and marks them. */
  method BlockLoop(candidates: seq<Clause>, lit: int, os: array<Clause>, external: External,
                   ghost entries: seq<Entry>, ghost lists: set<array<int>>,
                   ghost cl: seq<seq<int>>, ghost chosen: seq<bool>, ghost neg: set<set<int>>)
    requires |candidates| == |cl| && chosen == Verdicts(cl, lit, neg) && AllDifferent(candidates)
    requires forall i :: 0 <= i < |cl| ==> candidates[i].literals !in lists && candidates[i].literals[..] == cl[i]
    requires forall i :: 0 <= i < |cl| ==> NonTautological(cl[i])
    requires Occurrences(os[..], lists) == Some(neg)
    requires external.extension == Flat(entries) && Marked(candidates, chosen, 0)
    modifies os, lists, (set c | c in candidates)`garbage, external`extension
    ensures Marked(candidates, chosen, |candidates|)
    ensures external.extension == Flat(entries + SavedEntries(candidates, cl, lit, chosen, |cl|))
  {
    assert entries + SavedEntries(candidates, cl, lit, chosen, 0) == entries;
    for j := 0 to |candidates|
      invariant Occurrences(os[..], lists) == Some(neg) && Marked(candidates, chosen, j)
      invariant external.extension == Flat(entries + SavedEntries(candidates, cl, lit, chosen, j))
    {
      assert candidates[j].literals !in lists && candidates[j].literals[..] == old(candidates[j].literals[..]);
      BlockNext(candidates[j], candidates, j, lit, os, external, entries, lists, cl, chosen, neg);
    }
  }

  /** The body of the loop for candidate `j`. */
  method BlockNext(c: Clause, candidates: seq<Clause>, j: nat, lit: int, os: array<Clause>, external: External,
                   ghost entries: seq<Entry>, ghost lists: set<array<int>>,
                   ghost cl: seq<seq<int>>, ghost chosen: seq<bool>, ghost neg: set<set<int>>)
    requires j < |candidates| == |cl| && c == candidates[j] && AllDifferent(candidates)
    requires c.literals !in lists && c.literals[..] == cl[j] && NonTautological(cl[j])
    requires chosen == Verdicts(cl, lit, neg) && Marked(candidates, chosen, j)
    requires Occurrences(os[..], lists) == Some(neg)
    requires external.extension == Flat(entries + SavedEntries(candidates, cl, lit, chosen, j))
    modifies os, lists, c`garbage, external`extension
    ensures Occurrences(os[..], lists) == Some(neg) && Marked(candidates, chosen, j + 1)
    ensures external.extension == Flat(entries + SavedEntries(candidates, cl, lit, chosen, j + 1))
  {
    VerdictAt(cl, lit, neg, j);
    SavedNext(candidates, cl, lit, chosen, j, entries);
    var blocked :=
      BlockOne(c, lit, os, external, entries + SavedEntries(candidates, cl, lit, chosen, j), lists, cl[j], neg);
    MarkIf(c, candidates, j, chosen, blocked);
  }

  method MarkIf(c: Clause, candidates: seq<Clause>, j: nat, ghost chosen: seq<bool>, blocked: bool)
    requires j < |candidates| == |chosen| && c == candidates[j] && blocked == chosen[j]
    requires AllDifferent(candidates) && Marked(candidates, chosen, j)
    modifies c`garbage
    ensures Marked(candidates, chosen, j + 1)
  {
    if blocked {
      c.garbage := true;
    }
  }

  /** Tries one candidate and keeps the occurrence list an occurrence list. */
  method BlockOne(c: Clause, lit: int, os: array<Clause>, external: External, ghost entries: seq<Entry>,
                  ghost lists: set<array<int>>, ghost clause: seq<int>, ghost neg: set<set<int>>)
    returns (blocked: bool)
    requires Occurrences(os[..], lists) == Some(neg)
    requires c.literals !in lists && clause == c.literals[..] && NonTautological(clause)
    requires external.extension == Flat(entries)
    modifies os, lists, external`extension
    ensures Occurrences(os[..], lists) == Some(neg)
    ensures blocked == BlockedBy(Lits(clause), lit, neg)
    ensures external.extension == Flat(if blocked then entries + [Saved(c, lit, clause)] else entries)
  {
    ghost var list := os[..];
    assert Separate(c, list);
    blocked := TryCandidate(c, lit, os, external, entries);
    ApartReordered(list, os[..], lists);
  }

  /** Blocked-clause removal followed by `extend`, after any earlier removals: an
      internal assignment that satisfies the clauses of `f` other than the blocked
      candidates is turned into a model of everything. */
  method BlockThenExtend(candidates: seq<Clause>, lit: int, os: array<Clause>, external: External,
                         e2i: seq<int>, internal: seq<int>,
                         ghost f0: multiset<set<int>>, ghost entries: seq<Entry>, ghost f: multiset<set<int>>,
                         ghost lists: set<array<int>>)
    requires Occurrences(os[..], lists) == Some(Containing(f, -lit))
    requires AllDifferent(candidates) && forall i :: 0 <= i < |candidates| ==> candidates[i].literals !in lists
    requires AllContain(Snapshot(candidates), lit) && SetsFrom(Snapshot(candidates), 0) <= f
    requires external.extension == Flat(entries)
    requires forall i :: 0 <= i < |candidates| ==> !candidates[i].garbage
    requires Removes(f0, entries, f) && forall d :: d in f0 ==> InRange(d, external.maxVar)
    requires Mapping(e2i, internal, external.maxVar)
    requires forall d :: d in f - BlockedSets(Snapshot(candidates), lit, f, |candidates|) ==>
               SatisfiedInside(external.Values(), e2i, internal, external.maxVar, d)
    modifies os, lists, (set c | c in candidates)`garbage, external`extension, external`vals
    ensures AllTrue(external.Values(), f0)
  {
    ghost var cl := Snapshot(candidates);
    ghost var removed, g, chosen := BlockCandidates(candidates, lit, os, external, f, entries, lists);
    WhatIsLeft(cl, lit, f0, entries, f, removed, g, chosen);
    ExtendModel(external, e2i, internal, f0, entries + removed, g);
  }

  lemma WhatIsLeft(cl: seq<seq<int>>, lit: int, f0: multiset<set<int>>, entries: seq<Entry>, f: multiset<set<int>>,
                   removed: seq<Entry>, g: multiset<set<int>>, chosen: seq<bool>)
    requires |chosen| == |cl| && forall i :: 0 <= i < |cl| ==> chosen[i] == Blocked(Lits(cl[i]), lit, f)
    requires Removes(f0, entries, f) && Removes(f, removed, g) && f == g + ChosenSets(cl, chosen, |cl|)
    ensures Removes(f0, entries + removed, g) && g == f - BlockedSets(cl, lit, f, |cl|)
  {
    ChosenAreBlocked(cl, lit, f, chosen, |cl|);
    RemovesMore(f0, entries, f, removed, g);
  }

  /** The literal sets of the clauses among the first `n` that are blocked in `f`. */
  ghost function BlockedSets(cl: seq<seq<int>>, lit: int, f: multiset<set<int>>, n: nat): multiset<set<int>>
    requires n <= |cl|
  {
    if n == 0 then multiset{}
    else BlockedSets(cl, lit, f, n - 1) + (if Blocked(Lits(cl[n - 1]), lit, f) then multiset{Lits(cl[n - 1])} else multiset{})
  }

  lemma {:induction false} ChosenAreBlocked(cl: seq<seq<int>>, lit: int, f: multiset<set<int>>, chosen: seq<bool>, n: nat)
    requires n <= |chosen| == |cl| && forall i :: 0 <= i < |cl| ==> chosen[i] == Blocked(Lits(cl[i]), lit, f)
    ensures ChosenSets(cl, chosen, n) == BlockedSets(cl, lit, f, n)
  {
    if n > 0 { ChosenAreBlocked(cl, lit, f, chosen, n - 1); }
  }
}
