/**
  The LRAT proof checker: every clause it keeps is implied by the original
  clauses it was given, whatever chains of hints the derived ones came with. A
  fatal error of the source is the result `false`. The bit vectors
  `checked_lits` and `marks` are sets of literals here.
 */
module LratChecker {
  import opened Options
  import opened Cnf
  import opened ClauseTable

  lemma NegationFlips(tau: Assignment, lit: int)
    requires lit != 0
    ensures Holds(tau, -lit) <==> !Holds(tau, lit)
  {
  }

  ghost predicate NonZero(c: Clause) {
    forall k :: 0 <= k < |c| ==> c[k] != 0
  }

  /** A literal and its negation both occur. */
  predicate Tautological(c: Clause) {
    exists i, j :: 0 <= i < j < |c| && c[i] == -c[j]
  }

  // ---------------------------------------------------------------- unit propagation

  datatype Propagation = Falsified | Unit(lit: int) | NotUnit

  ghost function Unfalsified(c: Clause, checked: set<int>): set<int> {
    set lit | lit in c && -lit !in checked
  }

  /** The loop over one hint clause: which of its literals are not falsified? */
  method Propagate(c: Clause, checked: set<int>) returns (r: Propagation)
    requires NonZero(c)
    ensures match r
            case Falsified => Unfalsified(c, checked) == {}
            case Unit(lit) => Unfalsified(c, checked) == {lit}
            case NotUnit => exists a, b :: a != b && a in Unfalsified(c, checked) && b in Unfalsified(c, checked)
  {
    var unit := 0;
    for i := 0 to |c|
      invariant forall k :: 0 <= k < i ==> -c[k] in checked || (unit != 0 && c[k] == unit)
      invariant unit != 0 ==> unit in Unfalsified(c, checked)
    {
      if -c[i] in checked {
        continue;
      }
      assert c[i] in Unfalsified(c, checked);
      if unit != 0 && unit != c[i] {
        return NotUnit;
      }
      unit := c[i];
    }
    r := if unit == 0 then Falsified else Unit(unit);
  }

  /** All assignments that satisfy `f` and falsify `c` make the literals of `checked` true. */
  ghost predicate Forced(f: set<Rec>, c: Clause, checked: set<int>) {
    forall tau, lit :: Refutes(tau, f, c) && lit in checked ==> Holds(tau, lit)
  }

  ghost predicate Refutes(tau: Assignment, f: set<Rec>, c: Clause) {
    SatisfiesRecs(tau, f) && !Satisfies(tau, c)
  }

  ghost predicate SatisfiesRecs(tau: Assignment, f: set<Rec>) {
    forall r :: r in f ==> Satisfies(tau, r.literals)
  }

  /** The clause follows from the records. */
  ghost predicate Follows(f: set<Rec>, c: Clause) {
    forall tau :: SatisfiesRecs(tau, f) ==> Satisfies(tau, c)
  }

  /** A falsified hint clause closes the proof. */
  lemma FalsifiedCloses(f: set<Rec>, c: Clause, checked: set<int>, r: Rec)
    requires Forced(f, c, checked) && r in f && NonZero(r.literals)
    requires Unfalsified(r.literals, checked) == {}
    ensures Follows(f, c)
  {
    forall tau | SatisfiesRecs(tau, f)
      ensures Satisfies(tau, c)
    {
      var lit :| lit in r.literals && Holds(tau, lit);
      NegationFlips(tau, lit);
      assert lit !in Unfalsified(r.literals, checked);
      assert -lit in checked && !Holds(tau, -lit);
      assert !Refutes(tau, f, c);
    }
  }

  /** A unit hint clause forces its literal. */
  lemma UnitForces(f: set<Rec>, c: Clause, checked: set<int>, r: Rec, unit: int)
    requires Forced(f, c, checked) && r in f && NonZero(r.literals)
    requires Unfalsified(r.literals, checked) == {unit}
    ensures Forced(f, c, checked + {unit})
  {
    forall tau, lit | Refutes(tau, f, c) && lit in checked + {unit}
      ensures Holds(tau, lit)
    {
      var l :| l in r.literals && Holds(tau, l);
      NegationFlips(tau, l);
      assert -l in checked ==> Holds(tau, -l);
      assert l in Unfalsified(r.literals, checked);
    }
  }

  /** The hints, taken in order, propagate to a falsified clause. */
  ghost predicate Closes(table: Table, hs: Hashing, chain: seq<nat>, used: set<nat>, checked: set<int>)
    requires hs.Valid()
    decreases |chain|
  {
    chain != [] &&
    match Lookup(table, hs, chain[0])
    case None => false
    case Some(r) =>
      var open := Unfalsified(r.literals, checked);
      && !r.tautological
      && r.id !in used
      && (open == {} || (|open| == 1 && Closes(table, hs, chain[1..], used + {r.id}, checked + open)))
  }

  /** Soundness of an arbitrary chain of hints. */
  lemma {:induction false} ClosesSound(table: Table, hs: Hashing, chain: seq<nat>, used: set<nat>, checked: set<int>, c: Clause)
    requires hs.Valid() && Placed(table, hs) && forall r :: r in All(table) ==> NonZero(r.literals)
    requires Closes(table, hs, chain, used, checked) && Forced(All(table), c, checked)
    ensures Follows(All(table), c)
    decreases |chain|
  {
    LookupIsMap(table, hs, chain[0]);
    var r := Lookup(table, hs, chain[0]).value;
    var open := Unfalsified(r.literals, checked);
    if open == {} {
      FalsifiedCloses(All(table), c, checked, r);
    } else {
      var unit := SingletonElement(open);
      UnitForces(All(table), c, checked, r, unit);
      ClosesSound(table, hs, chain[1..], used + {r.id}, checked + open, c);
    }
  }

  lemma SingletonElement(s: set<int>) returns (x: int)
    requires |s| == 1
    ensures s == {x}
  {
    x := 0;
    if y :| y in s {
      x := y;
      assert |s - {y}| == 0;
    }
    assert (forall y :: y !in s) ==> s == {};
  }

  /** The assumptions a check starts from. */
  ghost function Negations(c: Clause): set<int> {
    if c == [] then {} else Negations(c[..|c| - 1]) + {-c[|c| - 1]}
  }

  lemma {:induction false} NegationsMeaning(c: Clause, lit: int)
    ensures lit in Negations(c) <==> -lit in c
  {
    if c != [] { NegationsMeaning(c[..|c| - 1], lit); }
  }

  /** What `check` decides. */
  ghost predicate Checks(table: Table, hs: Hashing, c: Clause, chain: seq<nat>)
    requires hs.Valid()
  {
    Tautological(c) || Closes(table, hs, chain, {}, Negations(c))
  }

  /** A successful check of any chain of hints proves the clause. */
  lemma CheckSound(table: Table, hs: Hashing, c: Clause, chain: seq<nat>)
    requires hs.Valid() && Placed(table, hs) && (forall r :: r in All(table) ==> NonZero(r.literals)) && NonZero(c)
    requires Checks(table, hs, c, chain)
    ensures Follows(All(table), c)
  {
    if Tautological(c) {
      var i, j :| 0 <= i < j < |c| && c[i] == -c[j];
      TautologyFollows(All(table), c, j, i);
    } else {
      AssumedForced(All(table), c, Negations(c));
      ClosesSound(table, hs, chain, {}, Negations(c), c);
    }
  }

  // ------------------------------------------- what a chain has to do to be accepted

  /** Of the literals of a clause, `unit` alone is not falsified by the assumed literals
      and the units found before. */
  ghost predicate UnitStep(c: Clause, assumed: set<int>, units: seq<int>, unit: int) {
    && unit in c && -unit !in assumed && -unit !in units
    && forall lit :: lit in c && lit != unit ==> -lit in assumed || -lit in units
  }

  ghost predicate Conflict(c: Clause, assumed: set<int>, units: seq<int>) {
    forall lit :: lit in c ==> -lit in assumed || -lit in units
  }

  /** The id can serve as a hint: it has a record, which is not tautological. */
  ghost predicate Usable(table: Table, hs: Hashing, id: nat)
    requires hs.Valid()
  {
    Lookup(table, hs, id).Some? && !Lookup(table, hs, id).value.tautological
  }

  ghost function LiteralsOf(table: Table, hs: Hashing, id: nat): Clause
    requires hs.Valid()
  {
    if Lookup(table, hs, id).Some? then Lookup(table, hs, id).value.literals else []
  }

  /** The first `n` hints, none used before, yield `units` one by one, and the next one
      is falsified. */
  ghost predicate Derivation(table: Table, hs: Hashing, hints: seq<nat>, used: set<nat>, assumed: set<int>, units: seq<int>)
    requires hs.Valid()
  {
    && |units| < |hints|
    && (forall k :: 0 <= k <= |units| ==> Usable(table, hs, hints[k]) && hints[k] !in used)
    && (forall j, k :: 0 <= j < k <= |units| ==> hints[j] != hints[k])
    && (forall k :: 0 <= k < |units| ==> UnitStep(LiteralsOf(table, hs, hints[k]), assumed, units[..k], units[k]))
    && Conflict(LiteralsOf(table, hs, hints[|units|]), assumed, units)
  }

  ghost predicate Derivable(table: Table, hs: Hashing, hints: seq<nat>, used: set<nat>, assumed: set<int>)
    requires hs.Valid()
  {
    exists units :: Derivation(table, hs, hints, used, assumed, units)
  }

  /** The first unit can as well be assumed from the start. */
  lemma DerivationCons(table: Table, hs: Hashing, hints: seq<nat>, used: set<nat>, assumed: set<int>, unit: int, units: seq<int>)
    requires hs.Valid() && hints != []
    ensures Derivation(table, hs, hints, used, assumed, [unit] + units) <==>
            && Usable(table, hs, hints[0]) && hints[0] !in used
            && UnitStep(LiteralsOf(table, hs, hints[0]), assumed, [], unit)
            && Derivation(table, hs, hints[1..], used + {hints[0]}, assumed + {unit}, units)
  {
    if Derivation(table, hs, hints, used, assumed, [unit] + units) {
      DerivationTail(table, hs, hints, used, assumed, unit, units);
    }
    if && Usable(table, hs, hints[0]) && hints[0] !in used
       && UnitStep(LiteralsOf(table, hs, hints[0]), assumed, [], unit)
       && Derivation(table, hs, hints[1..], used + {hints[0]}, assumed + {unit}, units) {
      DerivationStart(table, hs, hints, used, assumed, unit, units);
    }
  }

  lemma StepMoves(c: Clause, assumed: set<int>, unit: int, units: seq<int>, next: int)
    ensures UnitStep(c, assumed, [unit] + units, next) <==> UnitStep(c, assumed + {unit}, units, next)
    ensures Conflict(c, assumed, [unit] + units) <==> Conflict(c, assumed + {unit}, units)
  {
    assert forall lit: int :: lit in [unit] + units <==> lit == unit || lit in units;
  }

  lemma DerivationTail(table: Table, hs: Hashing, hints: seq<nat>, used: set<nat>, assumed: set<int>, unit: int, units: seq<int>)
    requires hs.Valid() && Derivation(table, hs, hints, used, assumed, [unit] + units)
    ensures Usable(table, hs, hints[0]) && hints[0] !in used
    ensures UnitStep(LiteralsOf(table, hs, hints[0]), assumed, [], unit)
    ensures Derivation(table, hs, hints[1..], used + {hints[0]}, assumed + {unit}, units)
  {
    var all, rest := [unit] + units, hints[1..];
    assert all[..0] == [] && all[0] == unit;
    forall k | 0 <= k < |units|
      ensures UnitStep(LiteralsOf(table, hs, rest[k]), assumed + {unit}, units[..k], units[k])
    {
      assert all[..k + 1] == [unit] + units[..k] && all[k + 1] == units[k] && hints[k + 1] == rest[k];
      StepMoves(LiteralsOf(table, hs, rest[k]), assumed, unit, units[..k], units[k]);
    }
    assert hints[|all|] == rest[|units|];
    StepMoves(LiteralsOf(table, hs, rest[|units|]), assumed, unit, units, 0);
    assert forall k :: 0 <= k <= |units| ==> rest[k] == hints[k + 1];
  }

  lemma DerivationStart(table: Table, hs: Hashing, hints: seq<nat>, used: set<nat>, assumed: set<int>, unit: int, units: seq<int>)
    requires hs.Valid() && hints != [] && Usable(table, hs, hints[0]) && hints[0] !in used
    requires UnitStep(LiteralsOf(table, hs, hints[0]), assumed, [], unit)
    requires Derivation(table, hs, hints[1..], used + {hints[0]}, assumed + {unit}, units)
    ensures Derivation(table, hs, hints, used, assumed, [unit] + units)
  {
    var all, rest := [unit] + units, hints[1..];
    assert forall k :: 0 < k <= |all| ==> hints[k] == rest[k - 1];
    forall k | 0 <= k < |all|
      ensures UnitStep(LiteralsOf(table, hs, hints[k]), assumed, all[..k], all[k])
    {
      if k == 0 {
        assert all[..0] == [];
      } else {
        assert all[..k] == [unit] + units[..k - 1];
        StepMoves(LiteralsOf(table, hs, hints[k]), assumed, unit, units[..k - 1], units[k - 1]);
      }
    }
    StepMoves(LiteralsOf(table, hs, rest[|units|]), assumed, unit, units, 0);
  }

  /** Which literals are left open, in the words of a derivation. */
  lemma OpenMeans(c: Clause, checked: set<int>, unit: int)
    ensures Unfalsified(c, checked) == {unit} <==> UnitStep(c, checked, [], unit)
    ensures Unfalsified(c, checked) == {} <==> Conflict(c, checked, [])
  {
    if UnitStep(c, checked, [], unit) {
      assert Unfalsified(c, checked) == {unit};
    }
    if Unfalsified(c, checked) == {unit} {
      assert unit in Unfalsified(c, checked);
      forall lit | lit in c && lit != unit
        ensures -lit in checked
      {
        assert lit !in Unfalsified(c, checked);
      }
    }
    if Unfalsified(c, checked) == {} {
      forall lit | lit in c
        ensures -lit in checked
      {
        assert lit !in Unfalsified(c, checked);
      }
    }
  }

  /** A chain is accepted exactly when some beginning of it is a derivation: nothing
      valid is refused. */
  lemma {:induction false} ClosesIff(table: Table, hs: Hashing, hints: seq<nat>, used: set<nat>, checked: set<int>)
    requires hs.Valid() && Placed(table, hs)
    ensures Closes(table, hs, hints, used, checked) <==> Derivable(table, hs, hints, used, checked)
    decreases |hints|
  {
    if Closes(table, hs, hints, used, checked) {
      var units := ClosesGives(table, hs, hints, used, checked);
    }
    if units :| Derivation(table, hs, hints, used, checked, units) {
      DerivationCloses(table, hs, hints, used, checked, units);
    }
  }

  lemma {:induction false} ClosesGives(table: Table, hs: Hashing, hints: seq<nat>, used: set<nat>, checked: set<int>)
    returns (units: seq<int>)
    requires hs.Valid() && Placed(table, hs) && Closes(table, hs, hints, used, checked)
    ensures Derivation(table, hs, hints, used, checked, units)
    decreases |hints|
  {
    LookupIsMap(table, hs, hints[0]);
    var r := Lookup(table, hs, hints[0]).value;
    var open := Unfalsified(r.literals, checked);
    if open == {} {
      OpenMeans(r.literals, checked, 0);
      units := [];
    } else {
      var unit := SingletonElement(open);
      OpenMeans(r.literals, checked, unit);
      var rest := ClosesGives(table, hs, hints[1..], used + {r.id}, checked + open);
      DerivationCons(table, hs, hints, used, checked, unit, rest);
      units := [unit] + rest;
    }
  }

  lemma {:induction false} DerivationCloses(table: Table, hs: Hashing, hints: seq<nat>, used: set<nat>, checked: set<int>, units: seq<int>)
    requires hs.Valid() && Placed(table, hs) && Derivation(table, hs, hints, used, checked, units)
    ensures Closes(table, hs, hints, used, checked)
    decreases |hints|
  {
    assert Usable(table, hs, hints[0]);
    LookupIsMap(table, hs, hints[0]);
    var r := Lookup(table, hs, hints[0]).value;
    if units == [] {
      OpenMeans(r.literals, checked, 0);
    } else {
      var unit, rest := units[0], units[1..];
      assert units == [unit] + rest;
      DerivationCons(table, hs, hints, used, checked, unit, rest);
      OpenMeans(r.literals, checked, unit);
      DerivationCloses(table, hs, hints[1..], used + {r.id}, checked + {unit}, rest);
    }
  }

  /** `c` contains a literal and its negation. */
  ghost predicate Complementary(c: Clause) {
    exists lit :: lit in c && -lit in c
  }

  lemma TautologicalMeans(c: Clause)
    requires NonZero(c)
    ensures Tautological(c) <==> Complementary(c)
  {
    if i, j :| 0 <= i < j < |c| && c[i] == -c[j] {
      assert c[j] in c && -c[j] in c;
    }
    if lit :| lit in c && -lit in c {
      var i :| 0 <= i < |c| && c[i] == lit;
      var j :| 0 <= j < |c| && c[j] == -lit;
      if i < j { assert c[i] == -c[j]; } else { assert j < i && c[j] == -c[i]; }
    }
  }

  /** Unit propagation over a beginning of the hints, each used once, from the negation of
      `c` to a conflict. Literal `lit` of a hint is falsified by the negation of `c` if it
      is in `c`, and by an earlier unit if that is `-lit`. */
  ghost predicate Propagates(table: Table, hs: Hashing, c: Clause, hints: seq<nat>, units: seq<int>)
    requires hs.Valid()
  {
    && |units| < |hints|
    && (forall k :: 0 <= k <= |units| ==> Usable(table, hs, hints[k]))
    && (forall j, k :: 0 <= j < k <= |units| ==> hints[j] != hints[k])
    && (forall k :: 0 <= k < |units| ==> LeavesOnly(c, LiteralsOf(table, hs, hints[k]), units[..k], units[k]))
    && LeavesNothing(c, LiteralsOf(table, hs, hints[|units|]), units)
  }

  ghost predicate LeavesOnly(c: Clause, hint: Clause, units: seq<int>, unit: int) {
    && unit in hint && unit !in c && -unit !in units
    && forall lit :: lit in hint && lit != unit ==> lit in c || -lit in units
  }

  ghost predicate LeavesNothing(c: Clause, hint: Clause, units: seq<int>) {
    forall lit :: lit in hint ==> lit in c || -lit in units
  }

  lemma LeavesMeans(c: Clause, hint: Clause, units: seq<int>, unit: int)
    ensures LeavesOnly(c, hint, units, unit) <==> UnitStep(hint, Negations(c), units, unit)
    ensures LeavesNothing(c, hint, units) <==> Conflict(hint, Negations(c), units)
  {
    forall lit: int
      ensures -lit in Negations(c) <==> lit in c
    {
      NegationsMeaning(c, -lit);
    }
  }

  lemma PropagatesIsDerivation(table: Table, hs: Hashing, c: Clause, hints: seq<nat>, units: seq<int>)
    requires hs.Valid()
    ensures Propagates(table, hs, c, hints, units) <==> Derivation(table, hs, hints, {}, Negations(c), units)
  {
    if |units| < |hints| {
      LeavesMeans(c, LiteralsOf(table, hs, hints[|units|]), units, 0);
      forall k | 0 <= k < |units|
        ensures LeavesOnly(c, LiteralsOf(table, hs, hints[k]), units[..k], units[k]) <==>
                UnitStep(LiteralsOf(table, hs, hints[k]), Negations(c), units[..k], units[k])
      {
        LeavesMeans(c, LiteralsOf(table, hs, hints[k]), units[..k], units[k]);
      }
    }
  }

  /** What a check accepts, without reference to the loop: complementary literals, or
      propagation to a conflict. */
  ghost predicate Provable(table: Table, hs: Hashing, c: Clause, hints: seq<nat>)
    requires hs.Valid()
  {
    Complementary(c) || exists units :: Propagates(table, hs, c, hints, units)
  }

  /** The check accepts exactly that: it is sound by `CheckSound` and refuses no chain
      that propagates to a conflict. */
  lemma CheckIff(table: Table, hs: Hashing, c: Clause, hints: seq<nat>)
    requires hs.Valid() && Placed(table, hs) && NonZero(c)
    ensures Checks(table, hs, c, hints) <==> Provable(table, hs, c, hints)
  {
    TautologicalMeans(c);
    ClosesIff(table, hs, hints, {}, Negations(c));
    forall units: seq<int>
      ensures Propagates(table, hs, c, hints, units) <==> Derivation(table, hs, hints, {}, Negations(c), units)
    {
      PropagatesIsDerivation(table, hs, c, hints, units);
    }
  }

  /** A clause with complementary literals follows from anything. */
  lemma TautologyFollows(f: set<Rec>, c: Clause, i: nat, k: nat)
    requires NonZero(c) && k <= i < |c| && c[i] == -c[k]
    ensures Follows(f, c)
  {
    forall tau: Assignment
      ensures Satisfies(tau, c)
    {
      NegationFlips(tau, c[k]);
      assert c[i] in c && c[k] in c;
    }
  }

  /** To begin with, the negations of the literals of the clause. */
  lemma AssumedForced(f: set<Rec>, c: Clause, checked: set<int>)
    requires NonZero(c) && checked == Negations(c)
    ensures Forced(f, c, checked)
  {
    forall tau, lit | Refutes(tau, f, c) && lit in checked
      ensures Holds(tau, lit)
    {
      NegationsMeaning(c, lit);
      NegationFlips(tau, -lit);
      assert -lit in c && !Holds(tau, -lit);
    }
  }

  // ------------------------------------------------------------- what is known to follow

  /** Every kept clause, in the table or saved for later, is implied by the originals. */
  ghost predicate AllImplied(originals: iset<Clause>, recs: set<Rec>, saved: map<nat, Clause>) {
    && (forall r :: r in recs ==> Implies(originals, r.literals))
    && (forall id :: id in saved ==> Implies(originals, saved[id]))
  }

  lemma MoreOriginals(originals: iset<Clause>, more: iset<Clause>, recs: set<Rec>, saved: map<nat, Clause>)
    requires AllImplied(originals, recs, saved) && originals <= more
    ensures AllImplied(more, recs, saved)
  {
  }

  lemma OriginalImplied(originals: iset<Clause>, c: Clause)
    requires c in originals
    ensures Implies(originals, c)
  {
  }

  /** What follows from implied clauses is implied. */
  lemma FollowsImplied(originals: iset<Clause>, recs: set<Rec>, saved: map<nat, Clause>, c: Clause)
    requires AllImplied(originals, recs, saved) && Follows(recs, c)
    ensures Implies(originals, c)
  {
  }

  /** A clause with more literals is implied as well. */
  lemma LargerImplied(originals: iset<Clause>, c: Clause, d: Clause)
    requires Implies(originals, c) && forall lit :: lit in c ==> lit in d
    ensures Implies(originals, d)
  {
  }

  // ---------------------------------------------------------------------- the checker

  class Checker {
    const hashing: Hashing
    const strictLrat: bool
    var table: Table
    var currentId: nat
    var clausesToReconstruct: map<nat, Clause>
    ghost var originals: iset<Clause>

    /** The structure of the table, which has no more records than chains; literals are
        not zero, and the tautology flags are right. */
    ghost predicate Valid()
      reads this
    {
      && hashing.Valid()
      && Placed(table, hashing)
      && Total(table) <= |table|
      && (forall r :: r in All(table) ==> NonZero(r.literals) && (r.tautological <==> Complementary(r.literals)))
    }

    /** What the checker is for: nothing it keeps goes beyond the originals. */
    ghost predicate Sound()
      reads this
    {
      AllImplied(originals, All(table), clausesToReconstruct)
    }

    /** A lookup of the id finds a record with exactly these literals, whose tautology flag
        says whether a literal and its negation are among them. */
    ghost predicate Finds(id: nat, c: Clause)
      requires hashing.Valid()
      reads this
    {
      var r := Lookup(table, hashing, id);
      && r.Some? && r.value.id == id && r.value.literals == c
      && (r.value.tautological <==> exists lit :: lit in c && -lit in c)
    }

    /** The id has a record all of whose literals are in `c`. */
    ghost predicate Names(id: nat, c: Clause)
      requires Valid()
      reads this
    {
      var r := Lookup(table, hashing, id);
      r.Some? && forall i :: 0 <= i < |r.value.literals| ==> r.value.literals[i] in c
    }

    constructor (nonces: seq<nat>, strictLrat: bool)
      requires |nonces| == 4
      ensures Valid() && Sound() && table == [] && originals == iset{} && UniqueIds(table)
      ensures this.strictLrat == strictLrat && hashing == SourceHashing(nonces)
      ensures currentId == 0 && clausesToReconstruct == map[]
    {
      hashing := SourceHashing(nonces);
      this.strictLrat := strictLrat;
      table, currentId := [], 0;
      clausesToReconstruct, originals := map[], iset{};
    }

    // -------------------------------------------------------------------- hash table

    /** First match in the chain of the id: slot and position. */
    method Find(id: nat) returns (h: nat, k: Option<nat>)
      requires Valid() && |table| > 0
      ensures h == hashing.slotOf(hashing.hashOf(id), |table|) < |table|
      ensures k == FirstMatch(table[h], hashing.hashOf(id), id)
      ensures k.Some? ==> k.value < |table[h]| && table[h][k.value].id == id && table[h][k.value] in All(table)
      ensures k.None? <==> Count(table, id) == 0
      ensures Lookup(table, hashing, id) == if k.Some? then Some(table[h][k.value]) else None
    {
      var hash := hashing.hashOf(id);
      h := hashing.slotOf(hash, |table|);
      FindMeaning(table, hashing, id);
      k := FindInChain(table[h], hash, id);
      if k.Some? { InAll(table, table[h][k.value]); }
    }

    /** Doubles the table, walking every chain and pushing each record to the front of
        its new chain. */
    method EnlargeClauses()
      requires Valid()
      modifies this`table
      ensures Valid() && |table| == if old(|table|) == 0 then 1 else 2 * old(|table|)
      ensures table == Rehash(old(table), |table|, |old(table)|, hashing)
      ensures All(table) == old(All(table)) && forall id :: Count(table, id) == old(Count(table, id))
    {
      var size := if |table| == 0 then 1 else 2 * |table|;
      var newTable: Table := seq(size, _ => []);
      for i := 0 to |table|
        invariant newTable == Rehash(table, size, i, hashing)
      {
        var chain := table[i];
        for k := 0 to |chain|
          invariant newTable == RehashChain(Rehash(table, size, i, hashing), chain, k, hashing)
        {
          newTable := PushFront(newTable, chain[k], hashing);
        }
      }
      RehashKeeps(table, size, hashing);
      TotalRehash(table, size, |table|, hashing);
      assert table[..|table|] == table;
      table := newTable;
    }

    /** The record made for a clause. */
    ghost function RecordOf(id: nat, c: Clause): Rec {
      Rec(id, hashing.hashOf(id), c, Complementary(c))
    }

    /** Copies the literals and looks for complementary ones on the way. */
    method NewClause(id: nat, c: Clause) returns (r: Rec)
      requires NonZero(c)
      ensures r.id == id && r.hash == hashing.hashOf(id) && r.literals == c
      ensures r.tautological <==> exists lit :: lit in c && -lit in c
    {
      var checked: set<int> := {};
      var literals: Clause := [];
      var tautological := false;
      for i := 0 to |c|
        invariant literals == c[..i] && checked == Negations(c[..i])
        invariant tautological <==> Complementary(c[..i])
      {
        literals := literals + [c[i]];
        checked := checked + {-c[i]};
        NegationsNext(c, i);
        ComplementaryNext(c, i);
        if c[i] in checked {
          tautological := true;
        }
      }
      assert c[..|c|] == c;
      r := Rec(id, hashing.hashOf(id), literals, tautological);
    }

    /** Grows a full table; the new record goes in front of its chain. */
    method Insert(id: nat, c: Clause)
      requires Valid() && NonZero(c)
      modifies this`table
      ensures Valid() && table == Inserted(old(table), RecordOf(id, c), hashing)
      ensures All(table) == old(All(table)) + {RecordOf(id, c)}
      ensures forall i :: Count(table, i) == old(Count(table, i)) + (if i == id then 1 else 0)
    {
      InsertedTotal(table, RecordOf(id, c), hashing);
      if Total(table) == |table| {
        EnlargeClauses();
      }
      var r := NewClause(id, c);
      PushFrontPlaced(table, r, hashing);
      forall i: nat
        ensures Count(PushFront(table, r, hashing), i) == Count(table, i) + (if i == id then 1 else 0)
      {
        PushFrontKeeps(table, r, hashing, i);
      }
      PushFrontKeeps(table, r, hashing, id);
      table := PushFront(table, r, hashing);
    }

    // ------------------------------------------------------------------------- check

    /** Checks a clause against a chain of hints. Success means that the clause follows
        from the clauses in the table, whatever the chain. */
    method Check(c: Clause, proofChain: seq<nat>) returns (ok: bool)
      requires Valid() && NonZero(c) && (|table| > 0 || Tautological(c) || proofChain == [])
      ensures ok <==> Checks(table, hashing, c, proofChain)
      ensures ok <==> Provable(table, hashing, c, proofChain)
      ensures ok ==> Follows(All(table), c)
    {
      CheckIff(table, hashing, c, proofChain);
      var checked := AssumeNegations(c);
      if checked.None? {
        CheckSound(table, hashing, c, proofChain);
        return true;
      }
      ok := CheckHints(proofChain, checked.value);
      if ok { CheckSound(table, hashing, c, proofChain); }
    }

    /** The hints: true exactly if they propagate from the assumed literals to a conflict. */
    method CheckHints(proofChain: seq<nat>, assumed: set<int>) returns (closed: bool)
      requires Valid() && (|table| > 0 || proofChain == [])
      ensures closed <==> Closes(table, hashing, proofChain, {}, assumed)
      ensures closed <==> Derivable(table, hashing, proofChain, {}, assumed)
    {
      ClosesIff(table, hashing, proofChain, {}, assumed);
      closed := HintLoop(proofChain, assumed);
    }

    /** The loop over the hints. */
    method HintLoop(proofChain: seq<nat>, assumed: set<int>) returns (closed: bool)
      requires Valid() && (|table| > 0 || proofChain == [])
      ensures closed <==> Closes(table, hashing, proofChain, {}, assumed)
    {
      var checked, used: set<nat> := assumed, {};
      for i := 0 to |proofChain|
        invariant Closes(table, hashing, proofChain, {}, assumed) <==>
                  Closes(table, hashing, proofChain[i..], used, checked)
      {
        assert proofChain[i..][1..] == proofChain[i + 1..];
        var h, k := Find(proofChain[i]);
        if k.None? {
          return false;
        }
        var r := table[h][k.value];
        if r.tautological || r.id in used {
          return false;
        }
        var step := Propagate(r.literals, checked);
        ghost var open := Unfalsified(r.literals, checked);
        match step {
          case NotUnit =>
            TwoElements(open);
            return false;
          case Falsified =>
            return true;
          case Unit(lit) =>
            used := used + {r.id};
            checked := checked + {lit};
        }
      }
      closed := false;
    }

    // --------------------------------------------------------------------- operations

    /** Adds an original clause, or puts back one that was weakened before; the latter
        adds nothing to the originals. Ids are unique afterwards iff they were and this
        one was not in use, which a restoration does not check. */
    method AddOriginalClause(id: nat, c: Clause, restore: bool) returns (ok: bool)
      requires Valid() && Sound() && NonZero(c)
      modifies this
      ensures Valid() && Sound()
      ensures originals == if ok && !(restore && id in old(clausesToReconstruct)) then old(originals) + iset{c}
                           else old(originals)
      ensures table == if ok then Inserted(old(table), RecordOf(id, c), hashing) else old(table)
      ensures ok ==> Finds(id, c)
      ensures ok ==> All(table) == old(All(table)) + {RecordOf(id, c)}
      ensures ok ==> forall i :: Count(table, i) == old(Count(table, i)) + (if i == id then 1 else 0)
      ensures ok ==> (UniqueIds(table) <==> old(UniqueIds(table)) && old(Count(table, id)) == 0)
      ensures currentId == if !restore && id == 1 + old(currentId) then id else old(currentId)
      ensures clausesToReconstruct == if ok && restore then old(clausesToReconstruct) - {id} else old(clausesToReconstruct)
      ensures ok <==> if !restore then old(Count(table, id)) == 0
                      else if id in old(clausesToReconstruct) then multiset(c) == multiset(old(clausesToReconstruct)[id])
                      else !strictLrat
    {
      ghost var known := restore && id in clausesToReconstruct;
      if restore {
        ok := RestoreClause(id, c);
        if !ok {
          return;
        }
      }
      if !restore && id == 1 + currentId {
        currentId := id;
      }
      if |table| > 0 && !restore {
        var h, k := Find(id);
        if k.Some? {
          return false;
        }
      }
      Accept(id, c, known);
      ok := true;
    }

    /** Inserts a clause; unless it is known to be implied, it counts as an original. */
    method Accept(id: nat, c: Clause, ghost known: bool)
      requires Valid() && Sound() && NonZero(c) && (known ==> Implies(originals, c))
      modifies this`table, this`originals
      ensures Valid() && Sound()
      ensures originals == if known then old(originals) else old(originals) + iset{c}
      ensures table == Inserted(old(table), RecordOf(id, c), hashing)
      ensures Finds(id, c)
      ensures All(table) == old(All(table)) + {RecordOf(id, c)}
      ensures forall i :: Count(table, i) == old(Count(table, i)) + (if i == id then 1 else 0)
      ensures UniqueIds(table) <==> old(UniqueIds(table)) && old(Count(table, id)) == 0
    {
      if !known {
        MoreOriginals(originals, originals + iset{c}, All(table), clausesToReconstruct);
        originals := originals + iset{c};
        OriginalImplied(originals, c);
      }
      ghost var before := table;
      Insert(id, c);
      UniqueAfterInsert(before, table, id);
      InsertedLookups(before, RecordOf(id, c), hashing, id);
    }

    /** Is the clause one that was weakened before? Then it need not be trusted. */
    method RestoreClause(id: nat, c: Clause) returns (ok: bool)
      requires Sound()
      modifies this`clausesToReconstruct
      ensures Sound()
      ensures ok <==> if id in old(clausesToReconstruct) then multiset(c) == multiset(old(clausesToReconstruct)[id])
                      else !strictLrat
      ensures clausesToReconstruct == if ok then old(clausesToReconstruct) - {id} else old(clausesToReconstruct)
      ensures ok && id in old(clausesToReconstruct) ==> Implies(originals, c)
    {
      if id !in clausesToReconstruct {
        return !strictLrat;
      }
      var d := clausesToReconstruct[id];
      if multiset(c) != multiset(d) {
        return false;
      }
      forall lit | lit in d
        ensures lit in c
      {
        assert lit in multiset(d);
      }
      LargerImplied(originals, d, c);
      clausesToReconstruct := clausesToReconstruct - {id};
      ok := true;
    }

    /** Adds a clause only after checking it; `resolves` is the verdict of the further
        resolution test of the source, which can only reject more. */
    method AddDerivedClause(id: nat, c: Clause, proofChain: seq<nat>, resolves: bool) returns (ok: bool)
      requires Valid() && Sound() && NonZero(c) && (|table| > 0 || Tautological(c) || proofChain == [])
      modifies this`table, this`currentId, this`originals
      ensures Valid() && Sound()
      ensures ok <==> resolves && old(Count(table, id)) == 0 && old(Provable(table, hashing, c, proofChain))
      ensures originals == old(originals) && (ok ==> Implies(originals, c))
      ensures currentId == id
      ensures table == if ok then Inserted(old(table), RecordOf(id, c), hashing) else old(table)
      ensures ok ==> Finds(id, c)
      ensures ok ==> All(table) == old(All(table)) + {RecordOf(id, c)}
      ensures ok ==> forall i :: Count(table, i) == old(Count(table, i)) + (if i == id then 1 else 0)
      ensures ok ==> (UniqueIds(table) <==> old(UniqueIds(table)))
    {
      currentId := id;
      if |table| > 0 {
        var h, k := Find(id);
        if k.Some? {
          return false;
        }
      }
      ok := Check(c, proofChain);
      ok := ok && resolves;
      if ok {
        FollowsImplied(originals, All(table), clausesToReconstruct, c);
        Accept(id, c, true);
      }
    }

    /** Removes the record found for the id, if the given clause has all its literals. */
    method DeleteClause(id: nat, c: Clause) returns (ok: bool)
      requires Valid() && Sound() && |table| > 0
      modifies this`table
      ensures Valid() && Sound()
      ensures |table| == old(|table|)
      ensures ok ==> var r := old(Lookup(table, hashing, id));
                     r.Some? && old(All(table)) == All(table) + {r.value}
      ensures ok ==> forall i :: Count(table, i) == old(Count(table, i)) - (if i == id then 1 else 0)
      ensures ok ==> forall i :: old(Met(table, hashing, i)) ==
                                 (if i == id then [old(Lookup(table, hashing, id)).value] else []) + Met(table, hashing, i)
      ensures ok <==> old(Names(id, c))
      ensures !ok ==> table == old(table)
    {
      var h, k := Find(id);
      if k.None? {
        return false;
      }
      var d := table[h][k.value];
      if exists i :: 0 <= i < |d.literals| && d.literals[i] !in c {
        return false;
      }
      Unlink(h, k.value, id);
      ok := true;
    }

    /** Takes the record that a lookup of the id finds out of its chain. */
    method Unlink(h: nat, k: nat, ghost id: nat)
      requires Valid() && table != [] && h == hashing.slotOf(hashing.hashOf(id), |table|)
      requires FirstMatch(table[h], hashing.hashOf(id), id) == Some(k) && k < |table[h]| && table[h][k].id == id
      modifies this`table
      ensures Valid() && |table| == old(|table|) && old(All(table)) == All(table) + {old(table)[h][k]}
      ensures forall i :: Count(table, i) == old(Count(table, i)) - (if i == id then 1 else 0)
      ensures forall i :: old(Met(table, hashing, i)) ==
                          (if i == id then [old(table)[h][k]] else []) + Met(table, hashing, i)
    {
      ghost var shorter := table[h := Without(table[h], k)];
      forall i: nat
        ensures Count(shorter, i) == Count(table, i) - (if i == id then 1 else 0)
        ensures Met(table, hashing, i) == (if i == id then [table[h][k]] else []) + Met(shorter, hashing, i)
      {
        UnlinkKeeps(table, h, k, i);
        UnlinkMet(table, hashing, h, k, id, i);
      }
      UnlinkKeeps(table, h, k, id);
      TotalUnlink(table, h, k);
      assert PlacedIn(table[h], h, |table|, hashing);
      table := table[h := Without(table[h], k)];
    }

    /** Saves a clause of the table for a later restoration. */
    method WeakenMinus(id: nat, c: Clause) returns (ok: bool)
      requires Valid() && Sound() && |table| > 0
      modifies this`clausesToReconstruct
      ensures Valid() && Sound()
      ensures ok <==> Names(id, c)
      ensures clausesToReconstruct == if ok then old(clausesToReconstruct)[id := c] else old(clausesToReconstruct)
    {
      var h, k := Find(id);
      if k.None? {
        return false;
      }
      var d := table[h][k.value];
      if exists i :: 0 <= i < |d.literals| && d.literals[i] !in c {
        return false;
      }
      LargerImplied(originals, d.literals, c);
      clausesToReconstruct := clausesToReconstruct[id := c];
      ok := true;
    }

    /** Concluding by the empty clause: then the originals are unsatisfiable. */
    method ConcludeUnsat(id: nat) returns (ok: bool)
      requires Valid() && Sound() && |table| > 0
      ensures ok <==> Lookup(table, hashing, id).Some? && Lookup(table, hashing, id).value.literals == []
      ensures ok ==> forall tau :: !ModelsAll(tau, originals)
    {
      var h, k := Find(id);
      if k.None? || table[h][k.value].literals != [] {
        return false;
      }
      assert Implies(originals, table[h][k.value].literals);
      ok := true;
    }
  }

  lemma UniqueAfterInsert(before: Table, after: Table, id: nat)
    requires forall i :: Count(after, i) == Count(before, i) + (if i == id then 1 else 0)
    ensures UniqueIds(after) <==> UniqueIds(before) && Count(before, id) == 0
  {
    if UniqueIds(after) {
      assert Count(after, id) <= 1;
      forall i: nat
        ensures Count(before, i) <= 1
      {
        assert Count(after, i) <= 1;
      }
    }
  }

  /** The duplicates are within reach: without strict checking, restoring an id that is
      still in use is accepted, and the clause found for it changes when the table grows
      for an unrelated clause. */
  method RestoreThenGrow(nonces: seq<nat>, older: Clause, newer: Clause, other: Clause) returns (checker: Checker)
    requires |nonces| == 4 && NonZero(older) && NonZero(newer) && NonZero(other)
    ensures checker.Valid() && checker.Sound() && !UniqueIds(checker.table)
    ensures checker.originals == iset{older, newer, other}
    ensures var two := Inserted(Inserted([], checker.RecordOf(1, older), checker.hashing), checker.RecordOf(1, newer), checker.hashing);
            && checker.table == Inserted(two, checker.RecordOf(2, other), checker.hashing)
            && Lookup(two, checker.hashing, 1) == Some(checker.RecordOf(1, newer))
            && Lookup(checker.table, checker.hashing, 1) == Some(checker.RecordOf(1, older))
  {
    checker := new Checker(nonces, false);
    ghost var hs := checker.hashing;
    var first := checker.AddOriginalClause(1, older, false);
    var second := checker.AddOriginalClause(1, newer, true);
    assert !UniqueIds(checker.table);
    var third := checker.AddOriginalClause(2, other, false);
    InsertionsSwapDuplicates(hs, checker.RecordOf(1, older), checker.RecordOf(1, newer), checker.RecordOf(2, other));
  }

  lemma TwoElements(s: set<int>)
    requires exists a, b :: a != b && a in s && b in s
    ensures s != {} && |s| != 1
  {
    if |s| == 1 { var x := SingletonElement(s); }
  }

  lemma NegationsNext(c: Clause, i: nat)
    requires NonZero(c) && i < |c|
    ensures Negations(c[..i + 1]) == Negations(c[..i]) + {-c[i]}
    ensures c[i] in Negations(c[..i + 1]) <==> exists k :: 0 <= k < i && c[k] == -c[i]
  {
    assert c[..i + 1][..i] == c[..i];
    NegationsMeaning(c[..i], c[i]);
    if -c[i] in c[..i] {
      var k :| 0 <= k < i && c[..i][k] == -c[i];
      assert c[k] == -c[i];
    }
    if k :| 0 <= k < i && c[k] == -c[i] {
      assert c[..i][k] == -c[i];
    }
  }

  lemma ComplementaryNext(c: Clause, i: nat)
    requires NonZero(c) && i < |c|
    ensures Complementary(c[..i + 1]) <==> Complementary(c[..i]) || c[i] in Negations(c[..i + 1])
  {
    NegationsMeaning(c[..i + 1], c[i]);
    var before, after := c[..i], c[..i + 1];
    assert after == before + [c[i]];
    if lit :| lit in after && -lit in after {
      assert lit == c[i] || -lit == c[i] || (lit in before && -lit in before);
    }
    if lit :| lit in before && -lit in before {
      assert lit in after && -lit in after;
    }
    assert after[i] in after;
  }

  /** Assumes the negations of the literals, unless two of them clash. */
  method AssumeNegations(c: Clause) returns (checked: Option<set<int>>)
    requires NonZero(c)
    ensures checked.None? <==> Tautological(c)
    ensures checked.Some? ==> checked.value == Negations(c)
  {
    var lits: set<int> := {};
    for i := 0 to |c|
      invariant lits == Negations(c[..i])
      invariant forall j, k :: 0 <= j < k < i ==> c[j] != -c[k]
    {
      lits := lits + {-c[i]};
      NegationsNext(c, i);
      if c[i] in lits {
        ghost var k :| 0 <= k < i && c[k] == -c[i];
        return None;
      }
    }
    assert c[..|c|] == c;
    checked := Some(lits);
  }

  /** The scan of one chain. */
  method FindInChain(chain: seq<Rec>, hash: nat, id: nat) returns (k: Option<nat>)
    ensures k == FirstMatch(chain, hash, id)
  {
    k := None;
    for i := 0 to |chain|
      invariant FirstMatch(chain, hash, id) ==
                match FirstMatch(chain[i..], hash, id) case None => None case Some(m) => Some(m + i)
    {
      assert chain[i..][1..] == chain[i + 1..];
      if chain[i].hash == hash && chain[i].id == id {
        return Some(i);
      }
    }
  }
}
