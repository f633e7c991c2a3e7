/**
  Blocked-clause removal and the backward model reconstruction that undoes it
  (`External::extend`), on the flat extension stack.
 */
module Reconstruction {
  import opened Cnf

  // -------------------------------------------------------------- stack and entries

  /** One weakened clause: the witness literals, the two cells of its id, its literals. */
  datatype Entry = Entry(pivots: seq<int>, high: int, low: int, clause: seq<int>)

  /** The cells an entry occupies on the stack. */
  function Cells(e: Entry): seq<int> {
    [0] + e.pivots + [0, e.high, e.low, 0] + e.clause
  }

  function Flat(entries: seq<Entry>): seq<int> {
    if entries == [] then [] else Flat(entries[..|entries| - 1]) + Cells(entries[|entries| - 1])
  }

  // -------------------------------------------------------- reconstruction, as a value

  function MakeTrue(tau: Assignment, lit: int): Assignment {
    if lit > 0 then tau + {lit} else tau - {-lit}
  }

  /** Makes the witness literals true, the last one first. */
  function Flip(tau: Assignment, pivots: seq<int>): Assignment
    decreases |pivots|
  {
    if pivots == [] then tau
    else
      var lit := pivots[|pivots| - 1];
      Flip(if Holds(tau, lit) then tau else MakeTrue(tau, lit), pivots[..|pivots| - 1])
  }

  /** A witness literal holds afterwards unless an earlier one contradicts it. */
  lemma {:induction false} FlipMakesTrue(tau: Assignment, pivots: seq<int>, k: nat)
    requires (forall m :: 0 <= m < |pivots| ==> pivots[m] != 0) && k < |pivots| && -pivots[k] !in pivots[..k]
    ensures Holds(Flip(tau, pivots), pivots[k])
    decreases |pivots|
  {
    var n := |pivots| - 1;
    var lit, rest := pivots[n], pivots[..n];
    var next := if Holds(tau, lit) then tau else MakeTrue(tau, lit);
    if k == n {
      LiteralStays(next, rest, lit);
    } else {
      assert rest[..k] == pivots[..k];
      FlipMakesTrue(next, rest, k);
    }
  }

  /** Variables without a witness literal keep their value. */
  lemma {:induction false} FlipKeeps(tau: Assignment, pivots: seq<int>, v: int)
    requires v !in pivots && -v !in pivots
    ensures v in Flip(tau, pivots) <==> v in tau
    decreases |pivots|
  {
    if pivots != [] {
      var n := |pivots| - 1;
      assert pivots[n] in pivots;
      FlipKeeps(if Holds(tau, pivots[n]) then tau else MakeTrue(tau, pivots[n]), pivots[..n], v);
    }
  }

  /** A true literal stays true unless its negation is a witness literal. */
  lemma {:induction false} LiteralStays(tau: Assignment, pivots: seq<int>, lit: int)
    requires lit != 0 && Holds(tau, lit) && -lit !in pivots
    requires forall k :: 0 <= k < |pivots| ==> pivots[k] != 0
    ensures Holds(Flip(tau, pivots), lit)
    decreases |pivots|
  {
    if pivots != [] {
      var n := |pivots| - 1;
      assert pivots[n] in pivots;
      LiteralStays(if Holds(tau, pivots[n]) then tau else MakeTrue(tau, pivots[n]), pivots[..n], lit);
    }
  }

  function Undo(tau: Assignment, e: Entry): Assignment {
    if Satisfies(tau, e.clause) then tau else Flip(tau, e.pivots)
  }

  /** Undoes the entries, the last one first. */
  function Reconstruct(tau: Assignment, entries: seq<Entry>): Assignment
    decreases |entries|
  {
    if entries == [] then tau
    else Reconstruct(Undo(tau, entries[|entries| - 1]), entries[..|entries| - 1])
  }

  lemma {:induction false} ReconstructFirst(tau: Assignment, entries: seq<Entry>)
    requires entries != []
    ensures Reconstruct(tau, entries) == Undo(Reconstruct(tau, entries[1..]), entries[0])
    decreases |entries|
  {
    var n := |entries| - 1;
    if n == 0 {
      assert entries[1..] == [] && entries[..0] == [];
      assert Reconstruct(Undo(tau, entries[0]), []) == Undo(tau, entries[0]);
    } else {
      ReconstructFirst(Undo(tau, entries[n]), entries[..n]);
      assert entries[..n][1..] == entries[1..][..n - 1];
      assert entries[1..][n - 1] == entries[n];
    }
  }

  // ---------------------------------------------------------- blocked-clause removal

  /** Every resolvent of `c` on `lit` with a clause of `f` is tautological. */
  ghost predicate Blocked(c: set<int>, lit: int, f: multiset<set<int>>) {
    forall d :: d in f && -lit in d ==> TautologicalResolvent(c, d, lit)
  }

  ghost predicate TautologicalResolvent(c: set<int>, d: set<int>, lit: int) {
    exists other :: other in d && other != -lit && -other in c
  }

  ghost function Lits(c: seq<int>): set<int> {
    set lit | lit in c
  }

  ghost predicate True(tau: Assignment, c: set<int>) {
    exists lit :: lit in c && Holds(tau, lit)
  }

  ghost predicate AllTrue(tau: Assignment, f: multiset<set<int>>) {
    forall c :: c in f ==> True(tau, c)
  }

  lemma TrueIsSatisfies(tau: Assignment, c: seq<int>)
    ensures True(tau, Lits(c)) <==> Satisfies(tau, c)
  {
  }

  /** The entries record removals from `f`, each of a clause blocked on its witness
      literal at that moment, that leave `g`. */
  ghost predicate Removes(f: multiset<set<int>>, entries: seq<Entry>, g: multiset<set<int>>)
    decreases |entries|
  {
    if entries == [] then f == g
    else
      var e := entries[0];
      && |e.pivots| == 1
      && e.pivots[0] in e.clause
      && Lits(e.clause) in f
      && Blocked(Lits(e.clause), e.pivots[0], f)
      && Removes(f - multiset{Lits(e.clause)}, entries[1..], g)
  }

  /** Undoing one removal: if the removed clause is falsified, making its blocking
      literal true satisfies it and keeps every other clause satisfied. */
  lemma UndoBlocked(tau: Assignment, c: set<int>, lit: int, f: multiset<set<int>>)
    requires (forall d :: d in f ==> 0 !in d) && c in f
    requires lit in c && Blocked(c, lit, f) && AllTrue(tau, f - multiset{c}) && !True(tau, c)
    ensures AllTrue(MakeTrue(tau, lit), f)
  {
    var tau' := MakeTrue(tau, lit);
    assert Holds(tau', lit);
    assert forall l :: l != -lit && Holds(tau, l) ==> Holds(tau', l);
    forall d | d in f
      ensures True(tau', d)
    {
      if d != c {
        assert d in f - multiset{c};
        if -lit in d {
          var other :| other in d && other != -lit && -other in c;
          assert !Holds(tau, -other);
          assert other != 0 && Holds(tau, other);
        } else {
          var l :| l in d && Holds(tau, l);
        }
      }
    }
  }

  /** Reconstruction from any model of what is left satisfies everything removed. */
  lemma {:induction false} ReconstructionSound(tau: Assignment, f: multiset<set<int>>, entries: seq<Entry>, g: multiset<set<int>>)
    requires (forall d :: d in f ==> 0 !in d) && Removes(f, entries, g) && AllTrue(tau, g)
    ensures AllTrue(Reconstruct(tau, entries), f)
    decreases |entries|
  {
    if entries != [] {
      var e := entries[0];
      var c, lit := Lits(e.clause), e.pivots[0];
      ReconstructionSound(tau, f - multiset{c}, entries[1..], g);
      var rest := Reconstruct(tau, entries[1..]);
      ReconstructFirst(tau, entries);
      TrueIsSatisfies(rest, e.clause);
      if True(rest, c) {
        assert forall d :: d in f ==> d == c || d in f - multiset{c};
      } else {
        UndoBlocked(rest, c, lit, f);
        assert !Holds(rest, lit);
        assert e.pivots[..0] == [] && Flip(rest, e.pivots) == MakeTrue(rest, lit);
      }
    }
  }

  /** Removals can be done in several rounds. */
  lemma {:induction false} RemovesMore(f: multiset<set<int>>, a: seq<Entry>, g: multiset<set<int>>, b: seq<Entry>, h: multiset<set<int>>)
    requires Removes(f, a, g) && Removes(g, b, h)
    ensures Removes(f, a + b, h)
    decreases |a|
  {
    if a == [] {
      assert a + b == b;
    } else {
      RemovesMore(f - multiset{Lits(a[0].clause)}, a[1..], g, b, h);
      assert (a + b)[1..] == a[1..] + b;
    }
  }

  // ------------------------------------------------------------ the stack of the solver

  lemma {:induction false} FlatPrefix(entries: seq<Entry>, k: nat)
    requires k <= |entries|
    ensures Flat(entries[..k]) <= Flat(entries)
    decreases |entries|
  {
    if k == |entries| {
      assert entries[..k] == entries;
    } else {
      var n := |entries| - 1;
      FlatPrefix(entries[..n], k);
      assert entries[..n][..k] == entries[..k];
    }
  }

  ghost predicate Bounded(c: seq<int>, maxVar: nat) {
    forall k :: 0 <= k < |c| ==> c[k] != 0 && 0 - maxVar <= c[k] <= maxVar
  }

  ghost predicate BoundedEntry(e: Entry, maxVar: nat) {
    Bounded(e.pivots, maxVar) && Bounded(e.clause, maxVar)
  }

  /** The clause uses external variables only. */
  ghost predicate InRange(c: set<int>, maxVar: nat) {
    forall lit :: lit in c ==> lit != 0 && 0 - maxVar <= lit <= maxVar
  }

  /** Removals from clauses in range save entries in range. */
  lemma {:induction false} RemovesBounded(f: multiset<set<int>>, entries: seq<Entry>, g: multiset<set<int>>, maxVar: nat)
    requires Removes(f, entries, g) && forall d :: d in f ==> InRange(d, maxVar)
    ensures forall k :: 0 <= k < |entries| ==> BoundedEntry(entries[k], maxVar)
    decreases |entries|
  {
    if entries != [] {
      var e := entries[0];
      RemovesBounded(f - multiset{Lits(e.clause)}, entries[1..], g, maxVar);
      assert BoundedEntry(e, maxVar) by {
        assert InRange(Lits(e.clause), maxVar);
        assert forall k :: 0 <= k < |e.clause| ==> e.clause[k] in Lits(e.clause);
      }
      assert forall k :: 0 < k < |entries| ==> entries[k] == entries[1..][k - 1];
    }
  }

  // -------------------------------------------------------------- the internal assignment

  /** Every external variable is unmapped (0) or mapped to an internal literal. */
  predicate Mapping(e2i: seq<int>, internal: seq<int>, maxVar: nat) {
    |e2i| > maxVar && forall i :: 0 < i <= maxVar ==> 0 - |internal| < e2i[i] < |internal|
  }

  /** The value of an internal literal: positive if it is true. */
  function InternalVal(internal: seq<int>, ilit: int): int
    requires 0 - |internal| < ilit < |internal|
  {
    if ilit < 0 then -internal[-ilit] else internal[ilit]
  }

  /** The internal variables that are true. */
  ghost function Inner(internal: seq<int>): Assignment {
    set v | 0 < v < |internal| && internal[v] > 0
  }

  /** The internal literal of an external one; 0 if its variable is unmapped. */
  function Image(e2i: seq<int>, lit: int): int
    requires 0 - |e2i| < lit < |e2i|
  {
    if lit < 0 then -e2i[-lit] else e2i[lit]
  }

  /** The internal variable has a value. */
  predicate Assigned(internal: seq<int>, ilit: int)
    requires 0 - |internal| < ilit < |internal|
  {
    internal[if ilit < 0 then -ilit else ilit] != 0
  }

  /** Does the external literal become true? It does if its image is true inside; over a
      mapped variable without a value if it is negative; and over an unmapped variable if
      it was true before. */
  ghost predicate ComesTrue(tau: Assignment, e2i: seq<int>, internal: seq<int>, maxVar: nat, lit: int)
    requires Mapping(e2i, internal, maxVar)
  {
    && lit != 0 && 0 - maxVar <= lit <= maxVar
    && var m := Image(e2i, lit);
       if m == 0 then Holds(tau, lit)
       else if Assigned(internal, m) then Holds(Inner(internal), m)
       else lit < 0
  }

  /** The external variables that are true after the copy. */
  ghost function Imported(tau: Assignment, e2i: seq<int>, internal: seq<int>, maxVar: nat): Assignment
    requires Mapping(e2i, internal, maxVar)
  {
    set i | 0 < i <= maxVar && ComesTrue(tau, e2i, internal, maxVar, i)
  }

  /** The same for negative literals. */
  lemma ImportedHolds(tau: Assignment, e2i: seq<int>, internal: seq<int>, maxVar: nat, lit: int)
    requires Mapping(e2i, internal, maxVar) && lit != 0 && 0 - maxVar <= lit <= maxVar
    ensures Holds(Imported(tau, e2i, internal, maxVar), lit) <==> ComesTrue(tau, e2i, internal, maxVar, lit)
  {
    if lit < 0 {
      var m := e2i[-lit];
      assert Image(e2i, lit) == -m && Image(e2i, -lit) == m;
      assert m != 0 && Assigned(internal, m) ==> (Holds(Inner(internal), -m) <==> !Holds(Inner(internal), m));
    }
  }

  /** Some literal of the clause comes true. */
  ghost predicate SatisfiedInside(tau: Assignment, e2i: seq<int>, internal: seq<int>, maxVar: nat, c: set<int>)
    requires Mapping(e2i, internal, maxVar)
  {
    exists lit :: lit in c && ComesTrue(tau, e2i, internal, maxVar, lit)
  }

  lemma ImportedSatisfies(tau: Assignment, e2i: seq<int>, internal: seq<int>, maxVar: nat, c: set<int>)
    requires Mapping(e2i, internal, maxVar) && InRange(c, maxVar)
    ensures True(Imported(tau, e2i, internal, maxVar), c) <==> SatisfiedInside(tau, e2i, internal, maxVar, c)
  {
    forall lit | lit in c
      ensures Holds(Imported(tau, e2i, internal, maxVar), lit) <==> ComesTrue(tau, e2i, internal, maxVar, lit)
    {
      ImportedHolds(tau, e2i, internal, maxVar, lit);
    }
  }

  ghost function ImageClause(e2i: seq<int>, c: set<int>, maxVar: nat): set<int>
    requires |e2i| > maxVar && InRange(c, maxVar)
  {
    set lit | lit in c :: Image(e2i, lit)
  }

  /** A clause over mapped variables with values is satisfied after the copy exactly when
      its image is satisfied inside. */
  lemma ImageSatisfied(tau: Assignment, e2i: seq<int>, internal: seq<int>, maxVar: nat, c: set<int>)
    requires Mapping(e2i, internal, maxVar) && InRange(c, maxVar)
    requires forall lit :: lit in c ==> Image(e2i, lit) != 0 && Assigned(internal, Image(e2i, lit))
    ensures True(Imported(tau, e2i, internal, maxVar), c) <==> True(Inner(internal), ImageClause(e2i, c, maxVar))
  {
    ImportedSatisfies(tau, e2i, internal, maxVar, c);
    if lit :| lit in c && ComesTrue(tau, e2i, internal, maxVar, lit) {
      assert Image(e2i, lit) in ImageClause(e2i, c, maxVar);
    }
    if m :| m in ImageClause(e2i, c, maxVar) && Holds(Inner(internal), m) {
      var lit :| lit in c && Image(e2i, lit) == m;
      assert ComesTrue(tau, e2i, internal, maxVar, lit);
    }
  }

  class External {
    var vals: seq<bool>
    var extension: seq<int>
    const maxVar: nat

    ghost function Values(): Assignment
      reads this
    {
      set i | 0 < i < |vals| && i <= maxVar && vals[i]
    }

    constructor (maxVar: nat, vals: seq<bool>)
      ensures this.maxVar == maxVar && this.vals == vals && extension == Flat([])
    {
      this.maxVar, this.vals, extension := maxVar, vals, [];
    }

    /** Is the literal true? Variables without a value count as false. */
    function Ival(lit: int): bool
      requires lit != 0
      reads this
      ensures Ival(lit) == Holds(Values(), lit)
    {
      var idx := if lit < 0 then -lit else lit;
      var positive := idx <= maxVar && idx < |vals| && vals[idx];
      if lit < 0 then !positive else positive
    }

    /** `push_clause_on_extension_stack` with its pivot; the id fills two cells. */
    method PushClause(clause: seq<int>, pivot: int, high: int, low: int, ghost entries: seq<Entry>)
      returns (ghost entry: Entry)
      requires extension == Flat(entries)
      modifies this`extension
      ensures entry == Entry([pivot], high, low, clause) && extension == Flat(entries + [entry])
    {
      extension := extension + [0] + [pivot];
      extension := extension + [0] + [high, low] + [0];
      extension := extension + clause;
      entry := Entry([pivot], high, low, clause);
      assert (entries + [entry])[..|entries|] == entries;
      assert Cells(entry) == [0] + [pivot] + [0, high, low, 0] + clause;
    }

    /** Reads the clause literals from `i` down to the zero in front of them. */
    method ScanClause(i: nat, ghost before: seq<int>, ghost e: Entry) returns (j: nat, satisfied: bool)
      requires i <= |extension| && extension[..i] == before + Cells(e) && BoundedEntry(e, maxVar)
      ensures satisfied <==> Satisfies(Values(), e.clause)
      ensures j == |before| + |e.pivots| + 4
    {
      ghost var n := |e.clause|;
      ClauseCells(extension, i, before, e);
      satisfied := false;
      j := i - 1;
      while extension[j] != 0
        invariant 0 <= n <= |e.clause| && j == |before| + |e.pivots| + 4 + n
        invariant satisfied <==> Satisfies(Values(), e.clause[n..])
        decreases n
      {
        assert e.clause[n - 1..] == [extension[j]] + e.clause[n..];
        SatisfiesCons(Values(), extension[j], e.clause[n..]);
        if !satisfied && Ival(extension[j]) {
          satisfied := true;
        }
        j := j - 1;
        n := n - 1;
      }
      assert e.clause[n..] == e.clause;
    }

    /** Reads the pivots from `i` down to the zero in front of them, flipping the
        false ones if the clause was not satisfied. */
    method ScanPivots(i: nat, satisfied: bool, ghost before: seq<int>, ghost e: Entry) returns (j: nat)
      requires |before| + 1 + |e.pivots| == i < |extension| && before + [0] + e.pivots <= extension
      requires Bounded(e.pivots, maxVar)
      modifies this`vals
      ensures j == |before|
      ensures Values() == if satisfied then old(Values()) else Flip(old(Values()), e.pivots)
    {
      PivotCells(extension, before, e);
      j := i - 1;
      ghost var n := |e.pivots|;
      assert e.pivots[..n] == e.pivots;
      while extension[j] != 0
        invariant 0 <= n <= |e.pivots| && j == |before| + n
        invariant satisfied ==> Values() == old(Values())
        invariant !satisfied ==> Flip(Values(), e.pivots[..n]) == Flip(old(Values()), e.pivots)
        decreases n
      {
        var lit := extension[j];
        assert e.pivots[..n][..n - 1] == e.pivots[..n - 1];
        if !satisfied {
          if !Ival(lit) {
            FlipValue(lit);
          }
        }
        j := j - 1;
        n := n - 1;
      }
    }

    method FlipValue(lit: int)
      requires lit != 0 && 0 - maxVar <= lit <= maxVar && !Holds(Values(), lit)
      modifies this`vals
      ensures Values() == MakeTrue(old(Values()), lit)
    {
      var idx := if lit < 0 then -lit else lit;
      if idx >= |vals| {
        vals := vals + seq(idx + 1 - |vals|, _ => false);
      }
      vals := vals[idx := !vals[idx]];
    }

    /** The first loop of `extend`: copies the values of the mapped variables. */
    method ImportValues(e2i: seq<int>, internal: seq<int>)
      requires Mapping(e2i, internal, maxVar)
      modifies this`vals
      ensures Values() == Imported(old(Values()), e2i, internal, maxVar)
      ensures forall lit :: lit != 0 && 0 - maxVar <= lit <= maxVar ==>
                (Holds(Values(), lit) <==> ComesTrue(old(Values()), e2i, internal, maxVar, lit))
    {
      ghost var before := Values();
      for i := 1 to maxVar + 1
        invariant forall k :: 0 < k < i ==> (k in Values() <==> ComesTrue(before, e2i, internal, maxVar, k))
        invariant forall k :: i <= k <= maxVar ==> (k in Values() <==> k in before)
      {
        var ilit := e2i[i];
        if ilit != 0 {
          ImportOne(i, InternalVal(internal, ilit) > 0);
        }
      }
      assert Values() == Imported(before, e2i, internal, maxVar);
      forall lit | lit != 0 && 0 - maxVar <= lit <= maxVar
        ensures Holds(Values(), lit) <==> ComesTrue(before, e2i, internal, maxVar, lit)
      {
        ImportedHolds(before, e2i, internal, maxVar, lit);
      }
    }

    method ImportOne(i: nat, value: bool)
      requires 0 < i <= maxVar
      modifies this`vals
      ensures Values() == if value then old(Values()) + {i} else old(Values()) - {i}
    {
      if i >= |vals| {
        vals := vals + seq(i + 1 - |vals|, _ => false);
      }
      vals := vals[i := value];
    }

    /** `extend`: copies the internal assignment and undoes every entry of the stack. */
    method Extend(e2i: seq<int>, internal: seq<int>, ghost entries: seq<Entry>)
      requires Mapping(e2i, internal, maxVar)
      requires extension == Flat(entries) && forall k :: 0 <= k < |entries| ==> BoundedEntry(entries[k], maxVar)
      modifies this`vals
      ensures Values() == Reconstruct(Imported(old(Values()), e2i, internal, maxVar), entries)
    {
      ImportValues(e2i, internal);
      WalkStack(entries);
    }

    /** The second loop of `extend`: walks the stack backwards and undoes every entry. */
    method WalkStack(ghost entries: seq<Entry>)
      requires extension == Flat(entries) && forall k :: 0 <= k < |entries| ==> BoundedEntry(entries[k], maxVar)
      modifies this`vals
      ensures Values() == Reconstruct(old(Values()), entries)
    {
      var i := |extension|;
      ghost var k := |entries|;
      assert entries[..k] == entries;
      while i != 0
        invariant 0 <= k <= |entries| && i == |Flat(entries[..k])| <= |extension|
        invariant Reconstruct(Values(), entries[..k]) == Reconstruct(old(Values()), entries)
      {
        ghost var e, before := entries[k - 1], Flat(entries[..k - 1]);
        assert entries[..k][..k - 1] == entries[..k - 1];
        FlatPrefix(entries, k);
        assert extension[..i] == Flat(entries[..k]) == before + Cells(e);
        var satisfied;
        i, satisfied := ScanClause(i, before, e);
        i := i - 3;
        assert before + [0] + e.pivots <= extension[..|before| + 1 + |e.pivots|];
        i := ScanPivots(i, satisfied, before, e);
        k := k - 1;
      }
      assert k == 0;
    }
  }

  /** After any number of removals, `extend` turns an internal assignment that satisfies
      what is left into a model of the formula they started from. */
  method ExtendModel(external: External, e2i: seq<int>, internal: seq<int>,
                     ghost f: multiset<set<int>>, ghost entries: seq<Entry>, ghost g: multiset<set<int>>)
    requires external.extension == Flat(entries) && Removes(f, entries, g)
    requires forall d :: d in f ==> InRange(d, external.maxVar)
    requires Mapping(e2i, internal, external.maxVar)
    requires forall d :: d in g ==> SatisfiedInside(external.Values(), e2i, internal, external.maxVar, d)
    modifies external`vals
    ensures AllTrue(external.Values(), f)
  {
    AllImported(external.Values(), e2i, internal, external.maxVar, f, entries, g);
    RemovesBounded(f, entries, g, external.maxVar);
    ReconstructionSound(Imported(external.Values(), e2i, internal, external.maxVar), f, entries, g);
    external.Extend(e2i, internal, entries);
  }

  lemma AllImported(tau: Assignment, e2i: seq<int>, internal: seq<int>, maxVar: nat,
                    f: multiset<set<int>>, entries: seq<Entry>, g: multiset<set<int>>)
    requires Mapping(e2i, internal, maxVar) && Removes(f, entries, g) && forall d :: d in f ==> InRange(d, maxVar)
    requires forall d :: d in g ==> SatisfiedInside(tau, e2i, internal, maxVar, d)
    ensures AllTrue(Imported(tau, e2i, internal, maxVar), g)
  {
    RemovesLess(f, entries, g);
    forall d | d in g
      ensures True(Imported(tau, e2i, internal, maxVar), d)
    {
      ImportedSatisfies(tau, e2i, internal, maxVar, d);
    }
  }

  lemma {:induction false} RemovesLess(f: multiset<set<int>>, entries: seq<Entry>, g: multiset<set<int>>)
    requires Removes(f, entries, g)
    ensures g <= f
    decreases |entries|
  {
    if entries != [] { RemovesLess(f - multiset{Lits(entries[0].clause)}, entries[1..], g); }
  }

  lemma SatisfiesCons(tau: Assignment, lit: int, c: seq<int>)
    ensures Satisfies(tau, [lit] + c) <==> Holds(tau, lit) || Satisfies(tau, c)
  {
  }

  lemma ClauseCells(extension: seq<int>, i: nat, before: seq<int>, e: Entry)
    requires i <= |extension| && extension[..i] == before + Cells(e)
    ensures i == |before| + |e.pivots| + 5 + |e.clause|
    ensures extension[|before| + |e.pivots| + 4] == 0
    ensures forall k :: 0 <= k < |e.clause| ==> extension[|before| + |e.pivots| + 5 + k] == e.clause[k]
  {
  }

  lemma PivotCells(extension: seq<int>, before: seq<int>, e: Entry)
    requires before + [0] + e.pivots <= extension
    ensures extension[|before|] == 0
    ensures forall k :: 0 <= k < |e.pivots| ==> extension[|before| + 1 + k] == e.pivots[k]
  {
  }
}
