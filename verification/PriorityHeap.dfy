/**
  The indexed binary heap: a priority queue of numbers whose positions are
  tracked, so that an element can be moved after its rank has changed.
 */
module PriorityHeap {

  const INVALID: nat := 0xFFFF_FFFF

  type Less = (nat, nat) -> bool

  ghost predicate StrictWeakOrder(less: Less) {
    && (forall a :: !less(a, a))
    && (forall a, b, c :: less(a, b) && less(b, c) ==> less(a, c))
    && (forall a, b, c :: less(a, c) ==> less(a, b) || less(b, c))
  }

  function Parent(i: nat): nat
    requires i > 0
  {
    (i - 1) / 2
  }

  function Swap(s: seq<nat>, i: nat, j: nat): (r: seq<nat>)
    requires i < |s| && j < |s|
    ensures |r| == |s|
  {
    s[i := s[j]][j := s[i]]
  }

  lemma SwapKeepsElements(s: seq<nat>, i: nat, j: nat)
    requires i < |s| && j < |s|
    ensures forall x :: x in Swap(s, i, j) <==> x in s
  {
    var r := Swap(s, i, j);
    forall x | x in s
      ensures x in r
    {
      var k :| 0 <= k < |s| && s[k] == x;
      assert r[if k == i then j else if k == j then i else k] == x;
    }
  }

  // ----------------------------------------------------------------------- heap order

  /** No element is below its parent in rank order the wrong way. */
  ghost predicate EdgeOk(items: seq<nat>, less: Less, i: nat)
    requires 0 < i < |items|
  {
    !less(items[Parent(i)], items[i])
  }

  ghost predicate HeapOrdered(items: seq<nat>, less: Less) {
    forall i :: 0 < i < |items| ==> EdgeOk(items, less, i)
  }

  /** Heap order may fail only at the edges of position `k`, and the parent of `k` is
      still in order with the children of `k`. */
  ghost predicate BrokenAt(items: seq<nat>, less: Less, k: nat) {
    && (forall i :: 0 < i < |items| && i != k && Parent(i) != k ==> EdgeOk(items, less, i))
    && (forall i :: 0 < i < |items| && Parent(i) == k && k > 0 ==> !less(items[Parent(k)], items[i]))
  }

  /** Only at the edges to the children of `k`. */
  ghost predicate BrokenBelow(items: seq<nat>, less: Less, k: nat) {
    BrokenAt(items, less, k) && (0 < k < |items| ==> EdgeOk(items, less, k))
  }

  /** Moving a greater element up leaves the only possible failures one level higher. */
  lemma UpStep(items: seq<nat>, less: Less, k: nat)
    requires StrictWeakOrder(less) && 0 < k < |items| && BrokenAt(items, less, k)
    requires less(items[Parent(k)], items[k])
    ensures BrokenAt(Swap(items, Parent(k), k), less, Parent(k))
  {
  }

  /** Moving a smaller element below its greatest child leaves the only possible
      failures one level lower. */
  lemma DownStep(items: seq<nat>, less: Less, k: nat, c: nat)
    requires StrictWeakOrder(less) && k < c < |items| && Parent(c) == k && BrokenBelow(items, less, k)
    requires less(items[k], items[c])
    requires forall i :: 0 < i < |items| && Parent(i) == k ==> !less(items[c], items[i])
    ensures BrokenBelow(Swap(items, k, c), less, c)
  {
  }

  /** An element that is not below any of its children ends the descent. */
  lemma DownDone(items: seq<nat>, less: Less, k: nat)
    requires BrokenBelow(items, less, k) && k < |items|
    requires forall i :: 0 < i < |items| && Parent(i) == k ==> !less(items[k], items[i])
    ensures HeapOrdered(items, less)
  {
  }

  lemma NoGreaterChild(items: seq<nat>, less: Less, k: nat, c: nat)
    requires StrictWeakOrder(less) && k < |items| && !less(items[k], c)
    requires forall i :: 0 < i < |items| && Parent(i) == k ==> !less(c, items[i])
    ensures forall i :: 0 < i < |items| && Parent(i) == k ==> !less(items[k], items[i])
  {
  }

  lemma AppendBroken(items: seq<nat>, less: Less, e: nat)
    requires HeapOrdered(items, less)
    ensures BrokenAt(items + [e], less, |items|)
  {
    forall i | 0 < i < |items|
      ensures EdgeOk(items + [e], less, i)
    {
      assert EdgeOk(items, less, i);
    }
  }

  /** Replacing the root by the last element. */
  lemma RemoveRoot(items: seq<nat>, less: Less)
    requires HeapOrdered(items, less) && |items| > 0
    ensures BrokenBelow(Swap(items, 0, |items| - 1)[..|items| - 1], less, 0)
  {
    var r := Swap(items, 0, |items| - 1)[..|items| - 1];
    forall i | 0 < i < |r| && Parent(i) != 0
      ensures EdgeOk(r, less, i)
    {
      assert EdgeOk(items, less, i);
    }
  }

  /** The front is a maximum. */
  lemma {:induction false} FrontIsMaximum(items: seq<nat>, less: Less, i: nat)
    requires StrictWeakOrder(less) && HeapOrdered(items, less) && i < |items|
    ensures !less(items[0], items[i])
  {
    if i > 0 {
      FrontIsMaximum(items, less, Parent(i));
      assert EdgeOk(items, less, i);
    }
  }

  /** If only the rank of `e` has changed, order can only fail around its position. */
  lemma RankChange(items: seq<nat>, before: Less, after: Less, k: nat)
    requires StrictWeakOrder(before) && HeapOrdered(items, before) && k < |items|
    requires forall i, j :: 0 <= i < j < |items| ==> items[i] != items[j]
    requires forall a, b :: a != items[k] && b != items[k] ==> after(a, b) == before(a, b)
    ensures BrokenAt(items, after, k)
  {
    forall i | 0 < i < |items| && i != k && Parent(i) != k
      ensures EdgeOk(items, after, i)
    {
      assert EdgeOk(items, before, i);
    }
    forall i | 0 < i < |items| && Parent(i) == k && k > 0
      ensures !after(items[Parent(k)], items[i])
    {
      assert EdgeOk(items, before, i) && EdgeOk(items, before, k);
    }
  }

  // -------------------------------------------------------------------------- the heap

  /** `pos` maps every element to its place in `items`, and everything else nowhere. */
  ghost predicate Inverse(items: seq<nat>, pos: seq<nat>) {
    && |items| <= INVALID
    && (forall i :: 0 <= i < |items| ==> items[i] < |pos| && pos[items[i]] == i)
    && (forall e :: 0 <= e < |pos| ==> pos[e] == INVALID || (pos[e] < |items| && items[pos[e]] == e))
  }

  lemma SwapKeepsInverse(items: seq<nat>, pos: seq<nat>, i: nat, j: nat)
    requires Inverse(items, pos) && i < |items| && j < |items|
    ensures Inverse(Swap(items, i, j), Swap(pos, items[i], items[j]))
  {
  }

  lemma DropLastInverse(items: seq<nat>, pos: seq<nat>)
    requires Inverse(items, pos) && |items| > 0
    ensures var n := |items| - 1;
            Inverse(items[..n], pos[items[n] := INVALID])
  {
  }

  lemma DropLastElements(items: seq<nat>, pos: seq<nat>, x: nat)
    requires Inverse(items, pos) && |items| > 0
    ensures var n := |items| - 1; x in items[..n] <==> x in items && x != items[n]
  {
  }

  class Heap {
    var items: seq<nat>
    var pos: seq<nat>
    var less: Less

    ghost predicate Valid()
      reads this
    {
      Inverse(items, pos) && StrictWeakOrder(less) && HeapOrdered(items, less)
    }

    ghost function Contents(): set<nat>
      reads this
    {
      set e | e in items
    }

    constructor (less: Less)
      requires StrictWeakOrder(less)
      ensures Valid() && Contents() == {} && this.less == less
    {
      items, pos, this.less := [], [], less;
    }

    predicate Contains(e: nat)
      requires Inverse(items, pos)
      reads this
      ensures Contains(e) <==> e in Contents()
    {
      e < |pos| && pos[e] != INVALID
    }

    method Exchange(a: nat, b: nat)
      requires Inverse(items, pos) && Contains(a) && Contains(b)
      modifies this`items, this`pos
      ensures Inverse(items, pos) && Contents() == old(Contents())
      ensures items == Swap(old(items), old(pos[a]), old(pos[b]))
      ensures pos == Swap(old(pos), a, b)
    {
      var i, j := pos[a], pos[b];
      SwapKeepsInverse(items, pos, i, j);
      SwapKeepsElements(items, i, j);
      items := Swap(items, i, j);
      pos := Swap(pos, a, b);
    }

    /** Bubbles an element up; the order can then only fail below it. */
    method Up(e: nat)
      requires Inverse(items, pos) && StrictWeakOrder(less) && Contains(e) && BrokenAt(items, less, pos[e])
      modifies this`items, this`pos
      ensures Inverse(items, pos) && Contents() == old(Contents()) && Contains(e) && BrokenBelow(items, less, pos[e])
    {
      while pos[e] > 0 && less(items[Parent(pos[e])], e)
        invariant Inverse(items, pos) && Contents() == old(Contents()) && Contains(e)
        invariant BrokenAt(items, less, pos[e])
        decreases pos[e]
      {
        UpStep(items, less, pos[e]);
        Exchange(items[Parent(pos[e])], e);
      }
    }

    /** The greater child of the element at position `k`. */
    method GreaterChild(k: nat) returns (c: nat)
      requires Inverse(items, pos) && StrictWeakOrder(less) && 2 * k + 1 < |items|
      ensures Contains(c) && pos[c] > 0 && Parent(pos[c]) == k
      ensures forall i :: 0 < i < |items| && Parent(i) == k ==> !less(c, items[i])
    {
      c := items[2 * k + 1];
      if 2 * k + 2 < |items| {
        var r := items[2 * k + 2];
        if less(c, r) {
          c := r;
        }
      }
      assert forall i :: 0 < i < |items| && Parent(i) == k ==> i == 2 * k + 1 || i == 2 * k + 2;
    }

    /** Bubbles an element down until the order holds everywhere. */
    method Down(e: nat)
      requires Inverse(items, pos) && StrictWeakOrder(less) && Contains(e) && BrokenBelow(items, less, pos[e])
      modifies this`items, this`pos
      ensures Valid() && Contents() == old(Contents())
    {
      while 2 * pos[e] + 1 < |items|
        invariant Inverse(items, pos) && Contents() == old(Contents()) && Contains(e)
        invariant BrokenBelow(items, less, pos[e])
        decreases |items| - pos[e]
      {
        var c := GreaterChild(pos[e]);
        if !less(e, c) {
          NoGreaterChild(items, less, pos[e], c);
          DownDone(items, less, pos[e]);
          return;
        }
        DownStep(items, less, pos[e], pos[c]);
        Exchange(e, c);
      }
      DownDone(items, less, pos[e]);
    }

    method PushBack(e: nat)
      requires Valid() && !Contains(e) && |items| < INVALID
      modifies this`items, this`pos
      ensures Valid() && Contents() == old(Contents()) + {e}
    {
      var i := |items|;
      AppendBroken(items, less, e);
      items := items + [e];
      if e >= |pos| {
        pos := pos + seq(e + 1 - |pos|, _ => INVALID);
      }
      pos := pos[e := i];
      Up(e);
      Down(e);
    }

    method Front() returns (e: nat)
      requires Valid() && Contents() != {}
      ensures items != [] && e == items[0]
      ensures e in Contents() && forall x :: x in Contents() ==> !less(e, x)
    {
      e := items[0];
      forall x | x in Contents()
        ensures !less(e, x)
      {
        var i :| 0 <= i < |items| && items[i] == x;
        FrontIsMaximum(items, less, i);
      }
    }

    method PopFront() returns (res: nat)
      requires Valid() && Contents() != {}
      modifies this`items, this`pos
      ensures Valid() && Contents() == old(Contents()) - {res}
      ensures res in old(Contents()) && forall x :: x in old(Contents()) ==> !less(res, x)
    {
      res := Front();
      var last := items[|items| - 1];
      RemoveRoot(items, less);
      assert pos[res] == 0;
      if |items| > 1 {
        Exchange(res, last);
      }
      ghost var all, where := items, pos;
      DropLastInverse(items, pos);
      pos := pos[res := INVALID];
      items := items[..|items| - 1];
      forall x: nat
        ensures x in items <==> x in all && x != res
      {
        DropLastElements(all, where, x);
      }
      if |items| > 1 {
        assert pos[last] == 0;
        Down(last);
      }
    }

    /** The rank of `e` has changed, and no other: `after` is the new order. */
    method Update(e: nat, after: Less)
      requires Valid() && Contains(e) && StrictWeakOrder(after)
      requires forall a, b :: a != e && b != e ==> after(a, b) == less(a, b)
      modifies this
      ensures Valid() && Contents() == old(Contents()) && less == after
    {
      RankChange(items, less, after, pos[e]);
      less := after;
      Up(e);
      Down(e);
    }
  }
}
