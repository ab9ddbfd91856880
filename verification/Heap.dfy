module Heaps {
  // A binary heap of numbers with a table of their positions, so that the heap can be repaired when the rank of one
  // element has changed (lib/cadical/src/heap.hpp).


  const INVALID := 0xFFFF_FFFF

  /** The comparison of two elements, given by ranks; an element without a rank has rank zero. */
  function Rank(ranks: map<nat, int>, e: nat): int {
    if e in ranks then ranks[e] else 0
  }

  function Parent(i: nat): nat
    requires i > 0
  {
    (i - 1) / 2
  }

  /** The element at position `i` is not ranked above the one at its parent. */
  ghost predicate Ordered(heap: seq<nat>, ranks: map<nat, int>, i: nat)
    requires i < |heap|
  {
    i > 0 ==> Rank(ranks, heap[Parent(i)]) >= Rank(ranks, heap[i])
  }

  ghost predicate HeapOrder(heap: seq<nat>, ranks: map<nat, int>) {
    forall i: nat :: i < |heap| ==> Ordered(heap, ranks, i)
  }

  /** The two tables are inverse to each other. */
  ghost predicate Indexed(heap: seq<nat>, pos: seq<nat>) {
    && |heap| <= INVALID
    && (forall i :: 0 <= i < |heap| ==> heap[i] < |pos| && pos[heap[i]] == i)
    && forall e :: 0 <= e < |pos| && pos[e] != INVALID ==> pos[e] < |heap| && heap[pos[e]] == e
  }

  /** Children of position `p` are not ranked above its parent. */
  ghost predicate Bridged(heap: seq<nat>, ranks: map<nat, int>, p: nat) {
    p < |heap| && forall i: nat :: p > 0 && 0 < i < |heap| && Parent(i) == p ==>
      Rank(ranks, heap[Parent(p)]) >= Rank(ranks, heap[i])
  }

  /** Ordered except around position `p`. */
  ghost predicate OrderedBut(heap: seq<nat>, ranks: map<nat, int>, p: nat) {
    && Bridged(heap, ranks, p)
    && forall i: nat :: i < |heap| && i != p && (i > 0 ==> Parent(i) != p) ==> Ordered(heap, ranks, i)
  }

  /** Ordered except between position `p` and its children. */
  ghost predicate OrderedAbove(heap: seq<nat>, ranks: map<nat, int>, p: nat) {
    OrderedBut(heap, ranks, p) && Ordered(heap, ranks, p)
  }

  function Swapped(heap: seq<nat>, i: nat, j: nat): seq<nat>
    requires i < |heap| && j < |heap|
  {
    heap[i := heap[j]][j := heap[i]]
  }

  lemma {:induction false} RootIsLargest(heap: seq<nat>, ranks: map<nat, int>, i: nat)
    requires HeapOrder(heap, ranks) && i < |heap|
    ensures Rank(ranks, heap[0]) >= Rank(ranks, heap[i])
    decreases i
  {
    if i > 0 {
      assert Ordered(heap, ranks, i);
      RootIsLargest(heap, ranks, Parent(i));
    }
  }

  /** Swapping an element with its smaller parent. */
  lemma SwapUp(heap: seq<nat>, ranks: map<nat, int>, p: nat)
    requires OrderedBut(heap, ranks, p) && 0 < p < |heap|
    requires Rank(ranks, heap[Parent(p)]) < Rank(ranks, heap[p])
    ensures OrderedBut(Swapped(heap, p, Parent(p)), ranks, Parent(p))
  {
    var q, t := Parent(p), Swapped(heap, p, Parent(p));
    forall i: nat | i < |t| && i != q && (i > 0 ==> Parent(i) != q)
      ensures Ordered(t, ranks, i)
    {
      if i > 0 && Parent(i) == p {
        assert Rank(ranks, heap[q]) >= Rank(ranks, heap[i]);
      } else {
        assert Ordered(heap, ranks, i);
      }
    }
    assert q > 0 ==> Ordered(heap, ranks, q);
    forall i: nat | q > 0 && 0 < i < |t| && Parent(i) == q
      ensures Rank(ranks, t[Parent(q)]) >= Rank(ranks, t[i])
    {
      if i != p {
        assert Ordered(heap, ranks, i);
      }
    }
  }

  /** Swapping an element with its largest child. */
  lemma SwapDown(heap: seq<nat>, ranks: map<nat, int>, p: nat, c: nat)
    requires OrderedAbove(heap, ranks, p) && 0 < c < |heap| && Parent(c) == p
    requires Rank(ranks, heap[p]) < Rank(ranks, heap[c])
    requires forall i: nat :: 0 < i < |heap| && Parent(i) == p ==> Rank(ranks, heap[i]) <= Rank(ranks, heap[c])
    ensures OrderedAbove(Swapped(heap, p, c), ranks, c)
  {
  }

  /** No child is ranked above the element. */
  lemma DownDone(heap: seq<nat>, ranks: map<nat, int>, p: nat)
    requires OrderedAbove(heap, ranks, p)
    requires forall i: nat :: 0 < i < |heap| && Parent(i) == p ==> Rank(ranks, heap[i]) <= Rank(ranks, heap[p])
    ensures HeapOrder(heap, ranks)
  {
  }

  lemma SwapIndexed(heap: seq<nat>, pos: seq<nat>, a: nat, b: nat)
    requires Indexed(heap, pos) && a < |pos| && b < |pos| && pos[a] != INVALID && pos[b] != INVALID
    ensures Indexed(Swapped(heap, pos[a], pos[b]), Swapped(pos, a, b))
    ensures forall e :: e in Swapped(heap, pos[a], pos[b]) <==> e in heap
  {
  }

  class Heap {
    var heap: seq<nat>
    var pos: seq<nat>
    var ranks: map<nat, int>

    constructor ()
      ensures Valid() && heap == []
    {
      heap, pos, ranks := [], [], map[];
    }

    ghost predicate Valid()
      reads this
    {
      Indexed(heap, pos) && HeapOrder(heap, ranks)
    }

    predicate Contains(e: nat)
      reads this
    {
      if e >= |pos| then false else pos[e] != INVALID
    }

    ghost predicate Has(e: nat)
      reads this
    {
      Indexed(heap, pos) && e < |pos| && pos[e] != INVALID
    }

    function Less(a: nat, b: nat): bool
      reads `ranks
    {
      Rank(ranks, a) < Rank(ranks, b)
    }

    /** Exchanges two elements and fixes their positions. */
    method Exchange(a: nat, b: nat)
      requires Has(a) && Has(b)
      modifies `heap, `pos
      ensures heap == Swapped(old(heap), old(pos[a]), old(pos[b])) && pos == Swapped(old(pos), a, b)
      ensures Has(a) && Has(b) && pos[a] == old(pos[b]) && pos[b] == old(pos[a])
      ensures forall e :: e in heap <==> e in old(heap)
    {
      SwapIndexed(heap, pos, a, b);
      var i, j := pos[a], pos[b];
      heap := heap[i := heap[j]][j := heap[i]];
      pos := pos[a := j][b := i];
    }

    /** Bubbles an element up as far as necessary. */
    method Up(e: nat)
      requires Has(e) && OrderedBut(heap, ranks, pos[e])
      modifies `heap, `pos
      ensures Has(e) && OrderedAbove(heap, ranks, pos[e])
      ensures |heap| == |old(heap)| && |pos| == |old(pos)| && forall x :: x in heap <==> x in old(heap)
    {
      hide OrderedBut, Swapped;
      while pos[e] > 0 && Less(heap[Parent(pos[e])], e)
        invariant Has(e) && OrderedBut(heap, ranks, pos[e])
        invariant |heap| == |old(heap)| && |pos| == |old(pos)| && forall x :: x in heap <==> x in old(heap)
        decreases pos[e]
      {
        var p := heap[Parent(pos[e])];
        SwapUp(heap, ranks, pos[e]);
        SwapSymmetric(heap, pos[p], pos[e]);
        SwapLength(heap, pos, p, e);
        Exchange(p, e);
      }
    }

    /** The position of the larger child. */
    method LargerChild(e: nat) returns (c: nat)
      requires Has(e) && 2 * pos[e] + 1 < |heap|
      ensures Has(c) && 0 < pos[c] && Parent(pos[c]) == pos[e]
      ensures forall i: nat :: 0 < i < |heap| && Parent(i) == pos[e] ==> Rank(ranks, heap[i]) <= Rank(ranks, c)
    {
      c := heap[2 * pos[e] + 1];
      if 2 * pos[e] + 2 < |heap| {
        var r := heap[2 * pos[e] + 2];
        if Less(c, r) {
          c := r;
        }
      }
      forall i: nat | 0 < i < |heap| && Parent(i) == pos[e]
        ensures Rank(ranks, heap[i]) <= Rank(ranks, c)
      {
        assert i == 2 * pos[e] + 1 || i == 2 * pos[e] + 2;
      }
    }

    /** Bubbles an element down as far as necessary. */
    method Down(e: nat)
      requires Has(e) && OrderedAbove(heap, ranks, pos[e])
      modifies `heap, `pos
      ensures Valid() && Has(e)
      ensures |heap| == |old(heap)| && |pos| == |old(pos)| && forall x :: x in heap <==> x in old(heap)
    {
      hide OrderedAbove, Swapped, HeapOrder;
      while 2 * pos[e] + 1 < |heap|
        invariant Has(e) && OrderedAbove(heap, ranks, pos[e])
        invariant |heap| == |old(heap)| && |pos| == |old(pos)| && forall x :: x in heap <==> x in old(heap)
        decreases |heap| - pos[e]
      {
        var c := LargerChild(e);
        if !Less(e, c) {
          DownDone(heap, ranks, pos[e]);
          return;
        }
        SwapDown(heap, ranks, pos[e], pos[c]);
        SwapLength(heap, pos, e, c);
        Exchange(e, c);
      }
      DownDone(heap, ranks, pos[e]);
    }

    /** Adds an element. */
    method PushBack(e: nat)
      requires Valid() && !Contains(e) && |heap| < INVALID
      modifies `heap, `pos
      ensures Valid() && Contains(e) && |heap| == |old(heap)| + 1
      ensures forall x :: x in heap <==> x in old(heap) || x == e
    {
      ghost var heap0 := heap;
      if e >= |pos| {
        pos := pos + seq(1 + e - |pos|, _ => INVALID);
      }
      heap := heap + [e];
      pos := pos[e := |heap| - 1];
      PushedOrder(heap0, ranks, e);
      Up(e);
      Down(e);
    }

    /** The largest element. */
    method Front() returns (e: nat)
      requires Valid() && heap != []
      ensures e == heap[0] && e in heap && Contains(e) && forall x :: x in heap ==> Rank(ranks, x) <= Rank(ranks, e)
    {
      e := heap[0];
      forall x | x in heap
        ensures Rank(ranks, x) <= Rank(ranks, e)
      {
        var i :| 0 <= i < |heap| && heap[i] == x;
        RootIsLargest(heap, ranks, i);
      }
    }

    /** Removes the largest element. */
    method PopFront() returns (res: nat)
      requires Valid() && heap != []
      modifies `heap, `pos
      ensures Valid() && !Contains(res) && |heap| == |old(heap)| - 1
      ensures res in old(heap) && forall x :: x in old(heap) ==> Rank(ranks, x) <= Rank(ranks, res)
      ensures forall x :: x in heap <==> x in old(heap) && x != res
    {
      res := Front();
      var last := heap[|heap| - 1];
      ghost var heap0 := heap;
      if |heap| > 1 {
        Exchange(res, last);
      }
      ghost var heap1 := heap;
      pos := pos[res := INVALID];
      heap := heap[..|heap| - 1];
      PoppedMembers(heap1, heap, res);
      if |heap| > 1 {
        PoppedOrder(heap0, ranks);
        assert heap[0] == last && pos[last] == 0;
        Down(last);
      }
    }

    /** Repairs the heap after the rank of one element has changed. */
    method Update(e: nat)
      requires Has(e) && OrderedBut(heap, ranks, pos[e])
      modifies `heap, `pos
      ensures Valid() && Contains(e) && |heap| == |old(heap)| && forall x :: x in heap <==> x in old(heap)
    {
      Up(e);
      Down(e);
    }

    /** A new rank for one contained element, and the repair. */
    method ChangeRank(e: nat, rank: int)
      requires Valid() && Contains(e)
      modifies this
      ensures Valid() && Contains(e) && |heap| == |old(heap)| && forall x :: x in heap <==> x in old(heap)
      ensures ranks == old(ranks)[e := rank]
    {
      RankedOrder(heap, pos, ranks, e, rank);
      ranks := ranks[e := rank];
      Update(e);
    }

    /** Popping until the heap is empty gives all elements, none ranked above an earlier one. */
    method PopAll() returns (all: seq<nat>)
      requires Valid()
      modifies `heap, `pos
      ensures heap == [] && |all| == |old(heap)| && forall x :: x in all <==> x in old(heap)
      ensures forall i, j :: 0 <= i < j < |all| ==> Rank(ranks, all[i]) >= Rank(ranks, all[j])
    {
      all := [];
      while heap != []
        invariant Valid() && |all| + |heap| == |old(heap)|
        invariant forall x :: x in old(heap) <==> x in all || x in heap
        invariant forall x, y :: x in all && y in heap ==> Rank(ranks, x) >= Rank(ranks, y)
        invariant forall i, j :: 0 <= i < j < |all| ==> Rank(ranks, all[i]) >= Rank(ranks, all[j])
        decreases |heap|
      {
        var e := PopFront();
        assert forall i :: 0 <= i < |all| ==> all[i] in all;
        all := all + [e];
      }
    }
  }

  lemma SwapSymmetric(heap: seq<nat>, i: nat, j: nat)
    requires i < |heap| && j < |heap|
    ensures Swapped(heap, i, j) == Swapped(heap, j, i)
  {
  }

  lemma SwapLength(heap: seq<nat>, pos: seq<nat>, a: nat, b: nat)
    requires Indexed(heap, pos) && a < |pos| && b < |pos| && pos[a] != INVALID && pos[b] != INVALID
    ensures |Swapped(heap, pos[a], pos[b])| == |heap| && |Swapped(pos, a, b)| == |pos|
  {
  }

  /** A new last element disturbs the order at its own place only. */
  lemma PushedOrder(heap: seq<nat>, ranks: map<nat, int>, e: nat)
    requires HeapOrder(heap, ranks)
    ensures OrderedBut(heap + [e], ranks, |heap|)
  {
    var t := heap + [e];
    forall i: nat | i < |heap|
      ensures Ordered(t, ranks, i)
    {
      assert Ordered(heap, ranks, i);
    }
  }

  lemma PoppedMembers(heap: seq<nat>, popped: seq<nat>, res: nat)
    requires heap != [] && popped == heap[..|heap| - 1] && heap[|heap| - 1] == res
    requires forall i :: 0 <= i < |heap| - 1 ==> heap[i] != res
    ensures forall x :: x in popped <==> x in heap && x != res
  {
  }

  /** With the last element in the place of the first, only the root is out of order. */
  lemma PoppedOrder(heap: seq<nat>, ranks: map<nat, int>)
    requires HeapOrder(heap, ranks) && |heap| > 1
    ensures OrderedAbove(Swapped(heap, 0, |heap| - 1)[..|heap| - 1], ranks, 0)
  {
    var t := Swapped(heap, 0, |heap| - 1)[..|heap| - 1];
    forall i: nat | i < |t| && (i > 0 ==> Parent(i) != 0)
      ensures Ordered(t, ranks, i)
    {
      assert Ordered(heap, ranks, i);
    }
  }

  /** A changed rank disturbs the order around one element only. */
  lemma RankedOrder(heap: seq<nat>, pos: seq<nat>, ranks: map<nat, int>, e: nat, rank: int)
    requires Indexed(heap, pos) && HeapOrder(heap, ranks) && e < |pos| && pos[e] != INVALID
    ensures OrderedBut(heap, ranks[e := rank], pos[e])
  {
    var ranks', p := ranks[e := rank], pos[e];
    forall i: nat | i < |heap| && i != p
      ensures Rank(ranks', heap[i]) == Rank(ranks, heap[i])
    {
    }
    forall i: nat | i < |heap| && i != p && (i > 0 ==> Parent(i) != p)
      ensures Ordered(heap, ranks', i)
    {
      assert Ordered(heap, ranks, i);
    }
    forall i: nat | p > 0 && 0 < i < |heap| && Parent(i) == p
      ensures Rank(ranks', heap[Parent(p)]) >= Rank(ranks', heap[i])
    {
      assert Ordered(heap, ranks, i) && Ordered(heap, ranks, p);
    }
  }
}
