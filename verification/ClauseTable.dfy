/**
  The clause table of the LRAT proof checker: hash chains with first-match
  lookup, which grow by rehashing.
 */
module ClauseTable {
  import opened Options
  import opened Cnf

  // ------------------------------------------------------------------------ hashing

  function Xor(a: nat, b: nat): nat
    decreases a + b
  {
    if a == 0 && b == 0 then 0
    else 2 * Xor(a / 2, b / 2) + (if a % 2 == b % 2 then 0 else 1)
  }

  function And(a: nat, b: nat): (r: nat)
    ensures r <= b
    decreases b
  {
    if b == 0 then 0
    else 2 * And(a / 2, b / 2) + (if a % 2 == 1 && b % 2 == 1 then 1 else 0)
  }

  function ShiftLeftOne(n: nat): nat {
    if n == 0 then 1 else 2 * ShiftLeftOne(n - 1)
  }

  function ShiftRight(a: nat, n: nat): nat {
    if n == 0 then a else ShiftRight(a / 2, n - 1)
  }

  /** The loop of `reduce_hash`, by the value of `shift`. */
  function FoldHash(hash: nat, shift: nat, size: nat): nat
    decreases shift
  {
    if ShiftLeftOne(shift) <= size || shift == 0 then hash
    else FoldHash(Xor(hash, ShiftRight(hash, shift)), shift / 2, size)
  }

  /** The slot of a hash value in a table of the given size. */
  function ReduceHash(hash: nat, size: nat): (slot: nat)
    requires size > 0
    ensures slot < size
  {
    And(FoldHash(hash, 32, size), size - 1)
  }

  /** The bit of a number at a position. */
  function Bit(a: nat, i: nat): bool {
    if i == 0 then a % 2 == 1 else Bit(a / 2, i - 1)
  }

  lemma {:induction false} XorBits(a: nat, b: nat, i: nat)
    ensures Bit(Xor(a, b), i) <==> Bit(a, i) != Bit(b, i)
  {
    HalfXor(a, b);
    if i > 0 { XorBits(a / 2, b / 2, i - 1); }
  }

  lemma HalfXor(a: nat, b: nat)
    ensures Xor(a, b) / 2 == Xor(a / 2, b / 2) && (Xor(a, b) % 2 == 1 <==> a % 2 != b % 2)
  {
  }

  lemma {:induction false} AndBits(a: nat, b: nat, i: nat)
    ensures Bit(And(a, b), i) <==> Bit(a, i) && Bit(b, i)
    decreases i
  {
    HalfAnd(a, b);
    if i > 0 { AndBits(a / 2, b / 2, i - 1); }
  }

  lemma HalfAnd(a: nat, b: nat)
    ensures And(a, b) / 2 == And(a / 2, b / 2) && (And(a, b) % 2 == 1 <==> a % 2 == 1 && b % 2 == 1)
  {
  }

  lemma {:induction false} ShiftBits(a: nat, n: nat, i: nat)
    ensures Bit(ShiftRight(a, n), i) <==> Bit(a, i + n)
  {
    if n > 0 { ShiftBits(a / 2, n - 1, i); }
  }

  /** In a table of 2^n chains the slot is the folded hash modulo the size. */
  lemma SlotIsRemainder(hash: nat, n: nat)
    ensures ShiftLeftOne(n) > 0
    ensures ReduceHash(hash, ShiftLeftOne(n)) == FoldHash(hash, 32, ShiftLeftOne(n)) % ShiftLeftOne(n)
  {
    AndIsRemainder(FoldHash(hash, 32, ShiftLeftOne(n)), n);
  }

  lemma {:induction false} AndIsRemainder(a: nat, n: nat)
    ensures ShiftLeftOne(n) > 0 && And(a, ShiftLeftOne(n) - 1) == a % ShiftLeftOne(n)
  {
    if n > 0 {
      AndIsRemainder(a / 2, n - 1);
      AndDoubles(a, ShiftLeftOne(n - 1), ShiftLeftOne(n));
    }
  }

  lemma AndDoubles(a: nat, p: nat, m: nat)
    requires p > 0 && m == 2 * p && And(a / 2, p - 1) == (a / 2) % p
    ensures And(a, m - 1) == a % m
  {
    AndOdd(a, p);
    RemainderHalves(a, p);
  }

  lemma AndOdd(a: nat, p: nat)
    requires p > 0
    ensures And(a, 2 * p - 1) == 2 * And(a / 2, p - 1) + a % 2
  {
    var m := 2 * p - 1;
    assert m / 2 == p - 1 && m % 2 == 1;
    assert And(a, m) == 2 * And(a / 2, m / 2) + (if a % 2 == 1 && m % 2 == 1 then 1 else 0);
  }

  lemma RemainderHalves(a: nat, p: nat)
    requires p > 0
    ensures a % (2 * p) == 2 * ((a / 2) % p) + a % 2
  {
    var q, r := (a / 2) / p, (a / 2) % p;
    assert a / 2 == q * p + r;
    assert a == 2 * (a / 2) + a % 2;
    assert a == q * (2 * p) + (2 * r + a % 2);
    RemainderUnique(a, 2 * p, q, 2 * r + a % 2);
  }

  lemma RemainderUnique(a: nat, m: nat, q: nat, r: nat)
    requires m > 0 && a == q * m + r && r < m
    ensures a % m == r
  {
    var d: int := a / m - q;
    assert a == (a / m) * m + a % m;
    assert d * m == r - a % m;
    Multiples(d, m);
  }

  lemma Multiples(d: int, m: int)
    requires m > 0
    ensures (d > 0 ==> d * m >= m) && (d < 0 ==> d * m <= -m)
  {
  }

  function ComputeHash(nonces: seq<nat>, id: nat): nat
    requires |nonces| == 4
  {
    (nonces[id % 4] * id) % 0x1_0000_0000_0000_0000
  }

  /** How ids are hashed and hashes reduced to slots. The table only relies on slots
      being in range, whatever the functions are. */
  datatype Hashing = Hashing(hashOf: nat -> nat, slotOf: (nat, nat) -> nat) {
    ghost predicate Valid() {
      forall hash: nat, size: nat :: size > 0 ==> slotOf(hash, size) < size
    }
  }

  /** The functions of the source, for its four nonces. */
  function SourceHashing(nonces: seq<nat>): (hs: Hashing)
    requires |nonces| == 4
    ensures hs.Valid()
  {
    Hashing(id => ComputeHash(nonces, id), (hash, size) => if size > 0 then ReduceHash(hash, size) else 0)
  }

  // -------------------------------------------------------------------------- table

  datatype Rec = Rec(id: nat, hash: nat, literals: Clause, tautological: bool)

  type Table = seq<seq<Rec>>

  ghost function InChain(chain: seq<Rec>): set<Rec> {
    set r | r in chain
  }

  /** The records of the table. */
  ghost function All(table: Table): set<Rec> {
    if table == [] then {} else InChain(table[0]) + All(table[1..])
  }

  ghost function CountIn(chain: seq<Rec>, id: nat): nat {
    if chain == [] then 0 else (if chain[0].id == id then 1 else 0) + CountIn(chain[1..], id)
  }

  /** How many records of the table have the id. */
  ghost function Count(table: Table, id: nat): nat {
    if table == [] then 0 else CountIn(table[0], id) + Count(table[1..], id)
  }

  /** Every record is in the chain of its hash. */
  ghost predicate Placed(table: Table, hs: Hashing) {
    forall h :: 0 <= h < |table| ==> PlacedIn(table[h], h, |table|, hs)
  }

  ghost predicate PlacedIn(chain: seq<Rec>, h: nat, size: nat, hs: Hashing)
    requires size > 0
  {
    forall k :: 0 <= k < |chain| ==>
      chain[k].hash == hs.hashOf(chain[k].id) && hs.slotOf(chain[k].hash, size) == h
  }

  /** Adding a record in front of a chain. */
  lemma {:induction false} PrependKeeps(table: Table, h: nat, c: Rec, id: nat)
    requires h < |table|
    ensures All(table[h := [c] + table[h]]) == All(table) + {c}
    ensures Count(table[h := [c] + table[h]], id) == Count(table, id) + (if c.id == id then 1 else 0)
  {
    var longer := table[h := [c] + table[h]];
    if h == 0 {
      assert longer[1..] == table[1..] && longer[0][1..] == table[0];
      assert InChain(longer[0]) == InChain(table[0]) + {c};
    } else {
      PrependKeeps(table[1..], h - 1, c, id);
      assert longer[1..] == table[1..][h - 1 := [c] + table[1..][h - 1]];
    }
  }

  /** Unlinking the record at position `k` of a chain. */
  lemma {:induction false} UnlinkKeeps(table: Table, h: nat, k: nat, id: nat)
    requires h < |table| && k < |table[h]|
    ensures All(table) == All(table[h := Without(table[h], k)]) + {table[h][k]}
    ensures Count(table, id) == Count(table[h := Without(table[h], k)], id) + (if table[h][k].id == id then 1 else 0)
  {
    var shorter := table[h := Without(table[h], k)];
    if h == 0 {
      assert shorter[1..] == table[1..];
      WithoutMembers(table[0], k);
      WithoutCount(table[0], k, id);
    } else {
      UnlinkKeeps(table[1..], h - 1, k, id);
      assert shorter[1..] == table[1..][h - 1 := Without(table[1..][h - 1], k)];
    }
  }

  function Without(chain: seq<Rec>, k: nat): seq<Rec>
    requires k < |chain|
  {
    chain[..k] + chain[k + 1..]
  }

  lemma WithoutMembers(chain: seq<Rec>, k: nat)
    requires k < |chain|
    ensures InChain(chain) == InChain(Without(chain, k)) + {chain[k]}
  {
  }

  lemma {:induction false} WithoutCount(chain: seq<Rec>, k: nat, id: nat)
    requires k < |chain|
    ensures CountIn(chain, id) == CountIn(Without(chain, k), id) + (if chain[k].id == id then 1 else 0)
  {
    if k == 0 {
      assert Without(chain, 0) == chain[1..];
    } else {
      WithoutCount(chain[1..], k - 1, id);
      assert Without(chain, k)[1..] == Without(chain[1..], k - 1);
    }
  }

  lemma {:induction false} InAll(table: Table, r: Rec)
    ensures r in All(table) <==> exists h :: 0 <= h < |table| && r in table[h]
  {
    if table != [] {
      InAll(table[1..], r);
      if h :| 0 <= h < |table[1..]| && r in table[1..][h] {
        assert r in table[h + 1];
      }
      if h :| 0 < h < |table| && r in table[h] {
        assert r in table[1..][h - 1];
      }
    }
  }

  lemma {:induction false} CountInZero(chain: seq<Rec>, id: nat)
    ensures CountIn(chain, id) == 0 <==> forall k :: 0 <= k < |chain| ==> chain[k].id != id
  {
    if chain != [] {
      CountInZero(chain[1..], id);
      assert forall k :: 0 < k < |chain| ==> chain[k] == chain[1..][k - 1];
    }
  }

  /** Records with an id can only be in the chain of its hash. */
  lemma {:induction false} CountElsewhere(table: Table, from: nat, id: nat, h: nat)
    requires from <= |table| && h < |table|
    requires forall i :: 0 <= i < |table| && i != h ==> CountIn(table[i], id) == 0
    ensures Count(table[from..], id) == if from <= h then CountIn(table[h], id) else 0
    decreases |table| - from
  {
    if from < |table| {
      CountElsewhere(table, from + 1, id, h);
      assert table[from..][1..] == table[from + 1..];
    }
  }

  lemma CountIsInSlot(table: Table, hs: Hashing, id: nat)
    requires hs.Valid() && |table| > 0 && Placed(table, hs)
    ensures Count(table, id) == CountIn(table[hs.slotOf(hs.hashOf(id), |table|)], id)
  {
    var slot := hs.slotOf(hs.hashOf(id), |table|);
    forall i | 0 <= i < |table| && i != slot
      ensures CountIn(table[i], id) == 0
    {
      assert PlacedIn(table[i], i, |table|, hs);
      CountInZero(table[i], id);
    }
    CountElsewhere(table, 0, id, slot);
    assert table[0..] == table;
  }

  // ------------------------------------------------------------------------- lookup

  /** The first record of a chain with the hash and the id. */
  function FirstMatch(chain: seq<Rec>, hash: nat, id: nat): Option<nat> {
    if chain == [] then None
    else if chain[0].hash == hash && chain[0].id == id then Some(0)
    else match FirstMatch(chain[1..], hash, id) case None => None case Some(k) => Some(k + 1)
  }

  lemma {:induction false} FirstMatchMeaning(chain: seq<Rec>, hash: nat, id: nat)
    requires forall k :: 0 <= k < |chain| && chain[k].id == id ==> chain[k].hash == hash
    ensures match FirstMatch(chain, hash, id)
            case None => CountIn(chain, id) == 0
            case Some(k) => k < |chain| && chain[k].id == id && CountIn(chain[..k], id) == 0
  {
    if chain != [] {
      assert forall k :: 0 < k < |chain| ==> chain[k] == chain[1..][k - 1];
      FirstMatchMeaning(chain[1..], hash, id);
      match FirstMatch(chain[1..], hash, id) {
        case None =>
        case Some(k) =>
          assert chain[..k + 1][1..] == chain[1..][..k];
          assert chain[..0] == [];
      }
    }
  }

  lemma {:induction false} CountTwice(chain: seq<Rec>, id: nat, j: nat, k: nat)
    requires j < k < |chain| && chain[j].id == id && chain[k].id == id
    ensures CountIn(chain, id) >= 2
  {
    assert chain[k] == chain[1..][k - 1];
    if j == 0 {
      CountInZero(chain[1..], id);
    } else {
      assert chain[j] == chain[1..][j - 1];
      CountTwice(chain[1..], id, j - 1, k - 1);
    }
  }

  /** The lookup in the chain of the id misses it iff no record has it, and if only
      one record has it, finds that one. */
  lemma FindMeaning(table: Table, hs: Hashing, id: nat)
    requires hs.Valid() && |table| > 0 && Placed(table, hs)
    ensures var chain := table[hs.slotOf(hs.hashOf(id), |table|)];
            match FirstMatch(chain, hs.hashOf(id), id)
            case None => Count(table, id) == 0
            case Some(k) =>
              && k < |chain| && chain[k].id == id && Count(table, id) > 0
              && (Count(table, id) <= 1 ==> forall r :: r in All(table) && r.id == id ==> r == chain[k])
  {
    var slot := hs.slotOf(hs.hashOf(id), |table|);
    var chain := table[slot];
    assert PlacedIn(chain, slot, |table|, hs);
    FirstMatchMeaning(chain, hs.hashOf(id), id);
    CountIsInSlot(table, hs, id);
    CountInZero(chain, id);
    if FirstMatch(chain, hs.hashOf(id), id).Some? && Count(table, id) <= 1 {
      var k := FirstMatch(chain, hs.hashOf(id), id).value;
      forall r | r in All(table) && r.id == id
        ensures r == chain[k]
      {
        InAll(table, r);
        var h :| 0 <= h < |table| && r in table[h];
        assert PlacedIn(table[h], h, |table|, hs);
        var j :| 0 <= j < |table[h]| && table[h][j] == r;
        if j < k { CountTwice(chain, id, j, k); }
        if k < j { CountTwice(chain, id, k, j); }
      }
    }
  }

  /** The record a lookup finds. */
  function Lookup(table: Table, hs: Hashing, id: nat): Option<Rec>
    requires hs.Valid()
  {
    if table == [] then None
    else
      var chain := table[hs.slotOf(hs.hashOf(id), |table|)];
      match FirstMatch(chain, hs.hashOf(id), id)
      case None => None
      case Some(k) => if k < |chain| then Some(chain[k]) else None
  }

  /** With unique ids a lookup is a plain map from ids to records. */
  lemma LookupIsMap(table: Table, hs: Hashing, id: nat)
    requires hs.Valid() && Placed(table, hs)
    ensures Lookup(table, hs, id).Some? ==> Lookup(table, hs, id).value in All(table) && Lookup(table, hs, id).value.id == id
    ensures Lookup(table, hs, id).None? <==> forall r :: r in All(table) ==> r.id != id
    ensures UniqueIds(table) ==> forall r :: r in All(table) ==> (r.id == id <==> Lookup(table, hs, id) == Some(r))
  {
    if table != [] {
      FindMeaning(table, hs, id);
      var slot := hs.slotOf(hs.hashOf(id), |table|);
      var chain := table[slot];
      match FirstMatch(chain, hs.hashOf(id), id) {
        case Some(k) => InAll(table, chain[k]);
        case None =>
          CountIsInSlot(table, hs, id);
          CountInZero(chain, id);
          forall r | r in All(table)
            ensures r.id != id
          {
            InAll(table, r);
            var h :| 0 <= h < |table| && r in table[h];
            assert PlacedIn(table[h], h, |table|, hs);
          }
      }
    }
  }

  /** The number of records: the counter `num_clauses`. */
  function Total(table: Table): nat {
    if table == [] then 0 else |table[0]| + Total(table[1..])
  }

  /** A plain lookup: the records are a map from ids to clauses. */
  ghost predicate UniqueIds(table: Table) {
    forall id :: Count(table, id) <= 1
  }

  // ----------------------------------------------------------------------- rehashing

  function PushFront(table: Table, c: Rec, hs: Hashing): (r: Table)
    requires hs.Valid() && |table| > 0
    ensures |r| == |table|
  {
    var h := hs.slotOf(c.hash, |table|);
    table[h := [c] + table[h]]
  }

  function RehashChain(table: Table, chain: seq<Rec>, k: nat, hs: Hashing): (r: Table)
    requires hs.Valid() && |table| > 0 && k <= |chain|
    ensures |r| == |table|
  {
    if k == 0 then table else PushFront(RehashChain(table, chain, k - 1, hs), chain[k - 1], hs)
  }

  function Rehash(table: Table, size: nat, i: nat, hs: Hashing): (r: Table)
    requires hs.Valid() && size > 0 && i <= |table|
    ensures |r| == size
  {
    if i == 0 then seq(size, _ => [])
    else RehashChain(Rehash(table, size, i - 1, hs), table[i - 1], |table[i - 1]|, hs)
  }

  lemma PushFrontPlaced(table: Table, c: Rec, hs: Hashing)
    requires hs.Valid() && |table| > 0 && Placed(table, hs) && c.hash == hs.hashOf(c.id)
    ensures Placed(PushFront(table, c, hs), hs)
  {
  }

  lemma PushFrontKeeps(table: Table, c: Rec, hs: Hashing, id: nat)
    requires hs.Valid() && |table| > 0
    ensures All(PushFront(table, c, hs)) == All(table) + {c}
    ensures Count(PushFront(table, c, hs), id) == Count(table, id) + (if c.id == id then 1 else 0)
  {
    PrependKeeps(table, hs.slotOf(c.hash, |table|), c, id);
  }

  lemma {:induction false} RehashChainPlaced(table: Table, chain: seq<Rec>, k: nat, hs: Hashing)
    requires hs.Valid() && |table| > 0 && k <= |chain| && Placed(table, hs)
    requires forall i :: 0 <= i < |chain| ==> chain[i].hash == hs.hashOf(chain[i].id)
    ensures Placed(RehashChain(table, chain, k, hs), hs)
  {
    if k > 0 {
      RehashChainPlaced(table, chain, k - 1, hs);
      PushFrontPlaced(RehashChain(table, chain, k - 1, hs), chain[k - 1], hs);
    }
  }

  lemma {:induction false} RehashChainKeeps(table: Table, chain: seq<Rec>, k: nat, hs: Hashing, id: nat)
    requires hs.Valid() && |table| > 0 && k <= |chain|
    ensures All(RehashChain(table, chain, k, hs)) == All(table) + InChain(chain[..k])
    ensures Count(RehashChain(table, chain, k, hs), id) == Count(table, id) + CountIn(chain[..k], id)
  {
    if k == 0 {
      assert chain[..0] == [];
    } else {
      RehashChainKeeps(table, chain, k - 1, hs, id);
      assert chain[..k] == chain[..k - 1] + [chain[k - 1]];
      PushFrontKeeps(RehashChain(table, chain, k - 1, hs), chain[k - 1], hs, id);
      SnocKeeps(chain[..k - 1], chain[k - 1], id);
    }
  }

  lemma SnocKeeps(chain: seq<Rec>, c: Rec, id: nat)
    ensures InChain(chain + [c]) == InChain(chain) + {c}
    ensures CountIn(chain + [c], id) == CountIn(chain, id) + (if c.id == id then 1 else 0)
  {
    CountSnoc(chain, c, id);
  }

  lemma {:induction false} CountSnoc(chain: seq<Rec>, c: Rec, id: nat)
    ensures CountIn(chain + [c], id) == CountIn(chain, id) + (if c.id == id then 1 else 0)
  {
    if chain == [] {
      assert chain + [c] == [c] && [c][1..] == [];
    } else {
      CountSnoc(chain[1..], c, id);
      assert (chain + [c])[1..] == chain[1..] + [c];
    }
  }

  lemma {:induction false} EmptyTable(size: nat, id: nat)
    ensures All(seq(size, _ => [])) == {} && Count(seq(size, _ => []), id) == 0
  {
    if size > 0 {
      EmptyTable(size - 1, id);
      var t: Table := seq(size, _ => []);
      assert t[1..] == seq(size - 1, _ => []);
    }
  }

  lemma {:induction false} TableSnoc(table: Table, chain: seq<Rec>, id: nat)
    ensures All(table + [chain]) == All(table) + InChain(chain)
    ensures Count(table + [chain], id) == Count(table, id) + CountIn(chain, id)
  {
    if table == [] {
      assert table + [chain] == [chain] && [chain][1..] == [];
    } else {
      TableSnoc(table[1..], chain, id);
      assert (table + [chain])[1..] == table[1..] + [chain];
    }
  }

  lemma {:induction false} RehashPlaced(table: Table, size: nat, i: nat, hs: Hashing)
    requires hs.Valid() && size > 0 && i <= |table| && Placed(table, hs)
    ensures Placed(Rehash(table, size, i, hs), hs)
  {
    if i > 0 {
      RehashPlaced(table, size, i - 1, hs);
      assert PlacedIn(table[i - 1], i - 1, |table|, hs);
      RehashChainPlaced(Rehash(table, size, i - 1, hs), table[i - 1], |table[i - 1]|, hs);
    }
  }

  lemma {:induction false} RehashContents(table: Table, size: nat, i: nat, hs: Hashing, id: nat)
    requires hs.Valid() && size > 0 && i <= |table|
    ensures All(Rehash(table, size, i, hs)) == All(table[..i])
    ensures Count(Rehash(table, size, i, hs), id) == Count(table[..i], id)
  {
    if i == 0 {
      EmptyTable(size, id);
      assert table[..0] == [];
    } else {
      RehashContents(table, size, i - 1, hs, id);
      var chain := table[i - 1];
      RehashChainKeeps(Rehash(table, size, i - 1, hs), chain, |chain|, hs, id);
      assert chain[..|chain|] == chain;
      TableSnoc(table[..i - 1], chain, id);
      assert table[..i] == table[..i - 1] + [chain];
    }
  }

  /** Growth loses, duplicates and misplaces nothing. */
  lemma RehashKeeps(table: Table, size: nat, hs: Hashing)
    requires hs.Valid() && size > 0 && Placed(table, hs)
    ensures Placed(Rehash(table, size, |table|, hs), hs)
    ensures All(Rehash(table, size, |table|, hs)) == All(table)
    ensures forall id :: Count(Rehash(table, size, |table|, hs), id) == Count(table, id)
  {
    RehashPlaced(table, size, |table|, hs);
    assert table[..|table|] == table;
    RehashContents(table, size, |table|, hs, 0);
    forall id: nat
      ensures Count(Rehash(table, size, |table|, hs), id) == Count(table, id)
    {
      RehashContents(table, size, |table|, hs, id);
    }
  }

  // ----------------------------------------------------------------- lookups and growth

  /** The records of a chain with the id, in their order. */
  ghost function WithId(chain: seq<Rec>, id: nat): seq<Rec> {
    if chain == [] then [] else (if chain[0].id == id then [chain[0]] else []) + WithId(chain[1..], id)
  }

  /** The records with the id, in the order a lookup meets them. */
  ghost function Met(table: Table, hs: Hashing, id: nat): seq<Rec>
    requires hs.Valid()
  {
    if table == [] then [] else WithId(table[hs.slotOf(hs.hashOf(id), |table|)], id)
  }

  function Reversed(s: seq<Rec>): (r: seq<Rec>)
    ensures |r| == |s|
  {
    if s == [] then [] else Reversed(s[1..]) + [s[0]]
  }

  lemma {:induction false} ReversedEnds(s: seq<Rec>)
    requires s != []
    ensures Reversed(s)[0] == s[|s| - 1] && Reversed(s)[|s| - 1] == s[0]
  {
    if |s| > 1 { ReversedEnds(s[1..]); }
  }

  lemma {:induction false} WithIdSnoc(chain: seq<Rec>, c: Rec, id: nat)
    ensures Reversed(WithId(chain + [c], id)) == (if c.id == id then [c] else []) + Reversed(WithId(chain, id))
    ensures |WithId(chain + [c], id)| == |WithId(chain, id)| + (if c.id == id then 1 else 0)
  {
    if chain == [] {
      assert chain + [c] == [c] && [c][1..] == [];
    } else {
      WithIdSnoc(chain[1..], c, id);
      assert (chain + [c])[1..] == chain[1..] + [c];
      WithIdCons(chain, id);
      WithIdCons(chain + [c], id);
    }
  }

  lemma WithIdCons(chain: seq<Rec>, id: nat)
    requires chain != []
    ensures Reversed(WithId(chain, id)) == Reversed(WithId(chain[1..], id)) + (if chain[0].id == id then [chain[0]] else [])
  {
    var rest := WithId(chain[1..], id);
    if chain[0].id == id {
      ReversedCons(chain[0], rest);
    } else {
      assert WithId(chain, id) == rest;
    }
  }

  lemma ReversedCons(c: Rec, s: seq<Rec>)
    ensures Reversed([c] + s) == Reversed(s) + [c]
  {
    assert ([c] + s)[1..] == s;
  }

  lemma {:induction false} WithIdLength(chain: seq<Rec>, id: nat)
    ensures |WithId(chain, id)| == CountIn(chain, id)
  {
    if chain != [] { WithIdLength(chain[1..], id); }
  }

  /** A lookup finds the first record it meets. */
  lemma LookupIsFirst(table: Table, hs: Hashing, id: nat)
    requires hs.Valid() && Placed(table, hs)
    ensures Lookup(table, hs, id) == if Met(table, hs, id) == [] then None else Some(Met(table, hs, id)[0])
  {
    if table != [] {
      var slot := hs.slotOf(hs.hashOf(id), |table|);
      assert PlacedIn(table[slot], slot, |table|, hs);
      FirstMatchIsFirst(table[slot], hs.hashOf(id), id);
    }
  }

  lemma {:induction false} FirstMatchIsFirst(chain: seq<Rec>, hash: nat, id: nat)
    requires forall k :: 0 <= k < |chain| && chain[k].id == id ==> chain[k].hash == hash
    ensures match FirstMatch(chain, hash, id)
            case None => WithId(chain, id) == []
            case Some(k) => k < |chain| && WithId(chain, id) != [] && WithId(chain, id)[0] == chain[k]
  {
    if chain != [] {
      assert forall k :: 0 < k < |chain| ==> chain[k] == chain[1..][k - 1];
      FirstMatchIsFirst(chain[1..], hash, id);
    }
  }

  /** A new record is met before all others with its id. */
  lemma PushFrontMet(table: Table, c: Rec, hs: Hashing, id: nat)
    requires hs.Valid() && |table| > 0 && c.hash == hs.hashOf(c.id)
    ensures Met(PushFront(table, c, hs), hs, id) == (if c.id == id then [c] else []) + Met(table, hs, id)
  {
    var slot := hs.slotOf(hs.hashOf(id), |table|);
    assert ([c] + table[slot])[1..] == table[slot];
  }

  lemma {:induction false} RehashChainMet(table: Table, chain: seq<Rec>, k: nat, hs: Hashing, id: nat)
    requires hs.Valid() && |table| > 0 && k <= |chain|
    requires forall i :: 0 <= i < |chain| ==> chain[i].hash == hs.hashOf(chain[i].id)
    ensures Met(RehashChain(table, chain, k, hs), hs, id) == Reversed(WithId(chain[..k], id)) + Met(table, hs, id)
  {
    if k == 0 {
      assert chain[..0] == [];
    } else {
      RehashChainMet(table, chain, k - 1, hs, id);
      assert chain[..k] == chain[..k - 1] + [chain[k - 1]];
      RehashOneMet(table, RehashChain(table, chain, k - 1, hs), chain[..k - 1], chain[k - 1], hs, id);
    }
  }

  lemma RehashOneMet(table: Table, before: Table, moved: seq<Rec>, c: Rec, hs: Hashing, id: nat)
    requires hs.Valid() && |before| > 0 && c.hash == hs.hashOf(c.id)
    requires Met(before, hs, id) == Reversed(WithId(moved, id)) + Met(table, hs, id)
    ensures Met(PushFront(before, c, hs), hs, id) == Reversed(WithId(moved + [c], id)) + Met(table, hs, id)
  {
    PushFrontMet(before, c, hs, id);
    WithIdSnoc(moved, c, id);
  }

  lemma {:induction false} RehashMet(table: Table, size: nat, i: nat, hs: Hashing, id: nat)
    requires hs.Valid() && size > 0 && i <= |table| && Placed(table, hs) && table != []
    ensures Met(Rehash(table, size, i, hs), hs, id) ==
            if hs.slotOf(hs.hashOf(id), |table|) < i then Reversed(Met(table, hs, id)) else []
  {
    var slot := hs.slotOf(hs.hashOf(id), |table|);
    if i > 0 {
      RehashMet(table, size, i - 1, hs, id);
      var chain, before := table[i - 1], Rehash(table, size, i - 1, hs);
      assert PlacedIn(chain, i - 1, |table|, hs);
      RehashChainMet(before, chain, |chain|, hs, id);
      assert chain[..|chain|] == chain;
      if i - 1 != slot {
        CountInZero(chain, id);
        WithIdLength(chain, id);
      }
    }
  }

  /** Growth reverses the order in which records with one id are met: a lookup finds
      the last of them after it. So it changes the result exactly when the first and
      the last are different records. */
  lemma GrowthLookups(table: Table, size: nat, hs: Hashing, id: nat)
    requires hs.Valid() && size > 0 && Placed(table, hs)
    ensures var met := Met(table, hs, id);
            && Lookup(Rehash(table, size, |table|, hs), hs, id) == (if met == [] then None else Some(met[|met| - 1]))
            && (Lookup(Rehash(table, size, |table|, hs), hs, id) == Lookup(table, hs, id) <==>
                met == [] || met[0] == met[|met| - 1])
  {
    var grown, met := Rehash(table, size, |table|, hs), Met(table, hs, id);
    RehashPlaced(table, size, |table|, hs);
    LookupIsFirst(table, hs, id);
    LookupIsFirst(grown, hs, id);
    if table != [] {
      RehashMet(table, size, |table|, hs, id);
      if met != [] { ReversedEnds(met); }
    }
  }

  /** In particular growth changes no lookup as long as ids are unique. */
  lemma GrowthKeepsLookups(table: Table, size: nat, hs: Hashing, id: nat)
    requires hs.Valid() && size > 0 && Placed(table, hs) && Count(table, id) <= 1
    ensures Lookup(Rehash(table, size, |table|, hs), hs, id) == Lookup(table, hs, id)
  {
    GrowthLookups(table, size, hs, id);
    if table != [] {
      CountIsInSlot(table, hs, id);
      WithIdLength(table[hs.slotOf(hs.hashOf(id), |table|)], id);
    }
  }

  lemma {:induction false} WithIdWithout(chain: seq<Rec>, k: nat, id: nat)
    requires k < |chain| && (chain[k].id == id ==> CountIn(chain[..k], id) == 0)
    ensures WithId(chain, id) == (if chain[k].id == id then [chain[k]] else []) + WithId(Without(chain, k), id)
  {
    if k == 0 {
      assert Without(chain, 0) == chain[1..];
    } else {
      var rest := chain[1..];
      assert chain[..k][1..] == rest[..k - 1] && rest[k - 1] == chain[k];
      assert Without(chain, k)[1..] == Without(rest, k - 1) && Without(chain, k)[0] == chain[0];
      WithIdWithout(rest, k - 1, id);
    }
  }

  /** Unlinking the record a lookup finds takes the first record of its id away; the
      records of every other id are met as before. */
  lemma UnlinkMet(table: Table, hs: Hashing, h: nat, k: nat, id: nat, other: nat)
    requires hs.Valid() && table != [] && Placed(table, hs) && h == hs.slotOf(hs.hashOf(id), |table|)
    requires FirstMatch(table[h], hs.hashOf(id), id) == Some(k) && k < |table[h]| && table[h][k].id == id
    ensures Met(table, hs, other) ==
            (if other == id then [table[h][k]] else []) + Met(table[h := Without(table[h], k)], hs, other)
  {
    assert PlacedIn(table[h], h, |table|, hs);
    FirstMatchMeaning(table[h], hs.hashOf(id), id);
    if hs.slotOf(hs.hashOf(other), |table|) == h { WithIdWithout(table[h], k, other); }
  }

  // ---------------------------------------------------------------------- insertion

  /** `insert`: grows a full table, then puts the record in front of its chain. */
  function Inserted(table: Table, r: Rec, hs: Hashing): (t: Table)
    requires hs.Valid()
    ensures |t| > 0
  {
    if Total(table) == |table| then PushFront(Rehash(table, GrownSize(table), |table|, hs), r, hs)
    else PushFront(table, r, hs)
  }

  function GrownSize(table: Table): (size: nat)
    ensures size > 0
  {
    if table == [] then 1 else 2 * |table|
  }

  /** After an insertion, and the growth it may bring, a lookup of the id finds the new
      record; lookups of another id are those of the table, grown or not. */
  lemma InsertedLookups(table: Table, r: Rec, hs: Hashing, id: nat)
    requires hs.Valid() && Placed(table, hs) && r.hash == hs.hashOf(r.id)
    ensures Placed(Inserted(table, r, hs), hs)
    ensures Met(Inserted(table, r, hs), hs, id) ==
            (if r.id == id then [r] else []) +
            (if Total(table) == |table| then Reversed(Met(table, hs, id)) else Met(table, hs, id))
    ensures Lookup(Inserted(table, r, hs), hs, r.id) == Some(r)
  {
    var size := GrownSize(table);
    var grown := Rehash(table, size, |table|, hs);
    RehashPlaced(table, size, |table|, hs);
    if table != [] { RehashMet(table, size, |table|, hs, id); }
    if Total(table) == |table| {
      PushFrontPlaced(grown, r, hs);
      PushFrontMet(grown, r, hs, id);
      PushFrontMet(grown, r, hs, r.id);
    } else {
      assert table != [];
      PushFrontPlaced(table, r, hs);
      PushFrontMet(table, r, hs, id);
      PushFrontMet(table, r, hs, r.id);
    }
    LookupIsFirst(Inserted(table, r, hs), hs, r.id);
  }

  /** Insertions alone reach a table in which growth changes a lookup: once two different
      records have the same id, as after a restoration, the newer one is found until the
      table grows, and then the older one. */
  lemma InsertionsSwapDuplicates(hs: Hashing, older: Rec, newer: Rec, other: Rec)
    requires hs.Valid() && older.id == newer.id != other.id
    requires older.hash == newer.hash == hs.hashOf(older.id) && other.hash == hs.hashOf(other.id)
    ensures var two := Inserted(Inserted([], older, hs), newer, hs);
            && Lookup(two, hs, older.id) == Some(newer)
            && Lookup(Inserted(two, other, hs), hs, older.id) == Some(older)
  {
    var id := older.id;
    var one := Inserted([], older, hs);
    InsertedLookups([], older, hs, id);
    InsertedTotal([], older, hs);
    var two := Inserted(one, newer, hs);
    InsertedLookups(one, newer, hs, id);
    InsertedTotal(one, newer, hs);
    assert Reversed([older]) == [older];
    assert Met(two, hs, id) == [newer, older];
    var three := Inserted(two, other, hs);
    InsertedLookups(two, other, hs, id);
    ReversedEnds([newer, older]);
    LookupIsFirst(three, hs, id);
  }

  // ------------------------------------------------------------- the number of records

  lemma {:induction false} TotalPrepend(table: Table, h: nat, c: Rec)
    requires h < |table|
    ensures Total(table[h := [c] + table[h]]) == Total(table) + 1
  {
    var longer := table[h := [c] + table[h]];
    if h == 0 {
      assert longer[1..] == table[1..];
    } else {
      TotalPrepend(table[1..], h - 1, c);
      assert longer[1..] == table[1..][h - 1 := [c] + table[1..][h - 1]];
    }
  }

  lemma {:induction false} TotalUnlink(table: Table, h: nat, k: nat)
    requires h < |table| && k < |table[h]|
    ensures Total(table) == Total(table[h := Without(table[h], k)]) + 1
  {
    var shorter := table[h := Without(table[h], k)];
    if h == 0 {
      assert shorter[1..] == table[1..];
    } else {
      TotalUnlink(table[1..], h - 1, k);
      assert shorter[1..] == table[1..][h - 1 := Without(table[1..][h - 1], k)];
    }
  }

  lemma {:induction false} TotalSnoc(table: Table, chain: seq<Rec>)
    ensures Total(table + [chain]) == Total(table) + |chain|
  {
    if table == [] {
      assert table + [chain] == [chain] && [chain][1..] == [];
    } else {
      TotalSnoc(table[1..], chain);
      assert (table + [chain])[1..] == table[1..] + [chain];
    }
  }

  lemma {:induction false} TotalEmpty(size: nat)
    ensures Total(seq(size, _ => [])) == 0
  {
    if size > 0 {
      TotalEmpty(size - 1);
      var t: Table := seq(size, _ => []);
      assert t[1..] == seq(size - 1, _ => []);
    }
  }

  lemma {:induction false} TotalRehashChain(table: Table, chain: seq<Rec>, k: nat, hs: Hashing)
    requires hs.Valid() && |table| > 0 && k <= |chain|
    ensures Total(RehashChain(table, chain, k, hs)) == Total(table) + k
  {
    if k > 0 {
      TotalRehashChain(table, chain, k - 1, hs);
      var before, c := RehashChain(table, chain, k - 1, hs), chain[k - 1];
      TotalPrepend(before, hs.slotOf(c.hash, |before|), c);
    }
  }

  lemma {:induction false} TotalRehash(table: Table, size: nat, i: nat, hs: Hashing)
    requires hs.Valid() && size > 0 && i <= |table|
    ensures Total(Rehash(table, size, i, hs)) == Total(table[..i])
  {
    if i == 0 {
      TotalEmpty(size);
      assert table[..0] == [];
    } else {
      TotalRehash(table, size, i - 1, hs);
      var chain := table[i - 1];
      TotalRehashChain(Rehash(table, size, i - 1, hs), chain, |chain|, hs);
      TotalSnoc(table[..i - 1], chain);
      assert table[..i] == table[..i - 1] + [chain];
    }
  }

  /** There are never more records than chains. */
  lemma InsertedTotal(table: Table, r: Rec, hs: Hashing)
    requires hs.Valid() && Total(table) <= |table|
    ensures Total(Inserted(table, r, hs)) == Total(table) + 1 <= |Inserted(table, r, hs)|
    ensures |Inserted(table, r, hs)| == if Total(table) == |table| then GrownSize(table) else |table|
  {
    var size := GrownSize(table);
    var grown := Rehash(table, size, |table|, hs);
    TotalRehash(table, size, |table|, hs);
    assert table[..|table|] == table;
    if Total(table) == |table| {
      TotalPrepend(grown, hs.slotOf(r.hash, size), r);
    } else {
      TotalPrepend(table, hs.slotOf(r.hash, |table|), r);
    }
  }
}
