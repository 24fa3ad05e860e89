/** The array-backed binary min-heap that holds a book's reservations
    (class `MinHeap` of colourflip.py). */
module ReservationHeap {
  import opened Outcomes

  /** A reservation is the Python tuple `(patron_id, priority, time)`; the
      timestamp is an explicit integer instead of a reading of the clock. */
  datatype Reservation = Reservation(patron: int, priority: int, time: int)

  /** Python's `<` on such tuples: lexicographic, patron id FIRST, then
      priority, then time. */
  predicate Less(a: Reservation, b: Reservation)
  {
    || a.patron < b.patron
    || (a.patron == b.patron && a.priority < b.priority)
    || (a.patron == b.patron && a.priority == b.priority && a.time < b.time)
  }

  /** `a` is no greater than `b`. */
  predicate Le(a: Reservation, b: Reservation)
  {
    !Less(b, a)
  }

  /** `Less` is a strict total order on reservations: irreflexive,
      transitive, and any two distinct reservations are comparable. */
  lemma LessIsStrictTotalOrder(a: Reservation, b: Reservation, c: Reservation)
    ensures !Less(a, a)
    ensures Less(a, b) && Less(b, c) ==> Less(a, c)
    ensures a != b ==> Less(a, b) || Less(b, a)
    ensures Le(a, b) && Le(b, c) ==> Le(a, c)
  {
  }

  function Parent(i: nat): nat
    requires 0 < i
  {
    (i - 1) / 2
  }

  /** Every element is no smaller than its parent. */
  ghost predicate IsHeap(h: seq<Reservation>)
  {
    forall k :: 0 < k < |h| ==> Le(h[Parent(k)], h[k])
  }

  /** Heap order holds except between `i` and its parent; `i`'s parent is
      still no greater than `i`'s children (the state during `heapify_up`). */
  ghost predicate HeapExceptAbove(h: seq<Reservation>, i: nat)
  {
    && (forall k :: 0 < k < |h| && k != i ==> Le(h[Parent(k)], h[k]))
    && (0 < i < |h| ==> forall k :: 0 < k < |h| && Parent(k) == i ==> Le(h[Parent(i)], h[k]))
  }

  /** Heap order holds except between `i` and its children; `i`'s parent is
      no greater than `i`'s children (the state during `heapify_down`). */
  ghost predicate HeapExceptBelow(h: seq<Reservation>, i: nat)
  {
    && (forall k :: 0 < k < |h| && Parent(k) != i ==> Le(h[Parent(k)], h[k]))
    && (0 < i < |h| ==> forall k :: 0 < k < |h| && Parent(k) == i ==> Le(h[Parent(i)], h[k]))
  }

  /** `heapify_up`: swap the element at `index` with its parent while it is
      strictly smaller. */
  method HeapifyUp(h0: seq<Reservation>, index: nat) returns (h: seq<Reservation>)
    requires index < |h0|
    requires HeapExceptAbove(h0, index)
    ensures IsHeap(h)
    ensures multiset(h) == multiset(h0)
  {
    h := h0;
    var i: nat := index;
    while 0 < i && Less(h[i], h[Parent(i)])
      invariant i < |h| == |h0|
      invariant multiset(h) == multiset(h0)
      invariant HeapExceptAbove(h, i)
      decreases i
    {
      var p := Parent(i);
      SiftUpStep(h, i);
      h := h[i := h[p]][p := h[i]];
      i := p;
    }
  }

  /** The index `heapify_down` picks among `i` and its children: the left
      child if strictly smaller than `i`, then the right child if strictly
      smaller than that pick. */
  function SmallestOf(h: seq<Reservation>, i: nat): (s: nat)
    requires i < |h|
    ensures s < |h| && (s == i || s == 2 * i + 1 || s == 2 * i + 2)
    ensures 2 * i + 1 < |h| ==> Le(h[s], h[2 * i + 1])
    ensures 2 * i + 2 < |h| ==> Le(h[s], h[2 * i + 2])
    ensures s != i ==> Less(h[s], h[i])
    ensures s == i <==>
      && !(2 * i + 1 < |h| && Less(h[2 * i + 1], h[i]))
      && !(2 * i + 2 < |h| && Less(h[2 * i + 2], h[i]))
  {
    var left, right := 2 * i + 1, 2 * i + 2;
    var l := if left < |h| && Less(h[left], h[i]) then left else i;
    if right < |h| && Less(h[right], h[l]) then
      LessIsStrictTotalOrder(h[right], h[l], h[i]);
      LessIsStrictTotalOrder(h[right], h[l], h[left]);
      LessIsStrictTotalOrder(h[right], h[i], h[left]);
      right
    else l
  }

  /** `heapify_down`: swap the element at `index` with its smaller child
      while that child is strictly smaller (the source's tail call is the
      next loop iteration). */
  method HeapifyDown(h0: seq<Reservation>, index: nat) returns (h: seq<Reservation>)
    requires index < |h0|
    requires HeapExceptBelow(h0, index)
    ensures IsHeap(h)
    ensures multiset(h) == multiset(h0)
  {
    h := h0;
    var i: nat := index;
    while true
      invariant i < |h| == |h0|
      invariant multiset(h) == multiset(h0)
      invariant HeapExceptBelow(h, i)
      decreases |h| - i
    {
      var smallest := SmallestOf(h, i);
      if smallest == i {
        SiftDownDone(h, i);
        break;
      }
      SiftDownStep(h, i, smallest);
      h := h[i := h[smallest]][smallest := h[i]];
      i := smallest;
    }
  }

  /** `push`: append, then sift the new element up. */
  method Push(h0: seq<Reservation>, e: Reservation) returns (h: seq<Reservation>)
    requires IsHeap(h0)
    ensures IsHeap(h)
    ensures multiset(h) == multiset(h0) + multiset{e}
    ensures |h| == |h0| + 1
  {
    h := HeapifyUp(h0 + [e], |h0|);
    assert |multiset(h)| == |h0| + 1;
  }

  /** `pop`: `None` on an empty heap; otherwise the root, with the last
      element moved to the root and sifted down. */
  method Pop(h0: seq<Reservation>) returns (r: Option<Reservation>, h: seq<Reservation>)
    requires IsHeap(h0)
    ensures |h0| == 0 <==> r == None
    ensures |h0| == 0 ==> h == h0
    ensures r.Some? ==> r.value in h0 && multiset(h) + multiset{r.value} == multiset(h0)
    ensures r.Some? ==> forall x :: x in h0 ==> Le(r.value, x)
    ensures IsHeap(h)
  {
    if |h0| == 0 {
      return None, h0;
    }
    RootIsMinimum(h0);
    r := Some(h0[0]);
    if |h0| == 1 {
      h := [];
      assert h0 == [h0[0]];
      return;
    }
    var n := |h0|;
    PopShape(h0);
    h := HeapifyDown([h0[n - 1]] + h0[1..n - 1], 0);
    assert h0 == [h0[0]] + h0[1..n - 1] + [h0[n - 1]];
  }

  /** The root of a heap is no greater than any element. */
  lemma RootIsMinimum(h: seq<Reservation>)
    requires IsHeap(h) && 0 < |h|
    ensures forall x :: x in h ==> Le(h[0], x)
  {
    forall k | 0 <= k < |h|
      ensures Le(h[0], h[k])
    {
      RootLeAt(h, k);
    }
  }

  lemma {:induction false} RootLeAt(h: seq<Reservation>, k: nat)
    requires IsHeap(h) && k < |h|
    ensures Le(h[0], h[k])
    decreases k
  {
    if 0 < k {
      RootLeAt(h, Parent(k));
      LessIsStrictTotalOrder(h[0], h[Parent(k)], h[k]);
    }
  }

  /** One swap of `heapify_up` moves the hole one level up. */
  lemma SiftUpStep(h: seq<Reservation>, i: nat)
    requires 0 < i < |h|
    requires HeapExceptAbove(h, i)
    requires Less(h[i], h[Parent(i)])
    ensures HeapExceptAbove(h[i := h[Parent(i)]][Parent(i) := h[i]], Parent(i))
  {
    var p := Parent(i);
    var h' := h[i := h[p]][p := h[i]];
    forall k | 0 < k < |h'| && k != p
      ensures Le(h'[Parent(k)], h'[k])
    {
      if k == i {
        LessIsStrictTotalOrder(h[i], h[p], h[i]);
      } else if Parent(k) == i {
      } else if Parent(k) == p {
        LessIsStrictTotalOrder(h[i], h[p], h[k]);
      }
    }
    if 0 < p {
      forall k | 0 < k < |h'| && Parent(k) == p
        ensures Le(h'[Parent(p)], h'[k])
      {
        LessIsStrictTotalOrder(h[Parent(p)], h[p], h[k]);
      }
    }
  }

  /** When neither child of `i` is strictly smaller, the heap is whole. */
  lemma SiftDownDone(h: seq<Reservation>, i: nat)
    requires i < |h|
    requires HeapExceptBelow(h, i)
    requires 2 * i + 1 < |h| ==> !Less(h[2 * i + 1], h[i])
    requires 2 * i + 2 < |h| ==> !Less(h[2 * i + 2], h[i])
    ensures IsHeap(h)
  {
    forall k | 0 < k < |h|
      ensures Le(h[Parent(k)], h[k])
    {
      if Parent(k) == i {
        assert k == 2 * i + 1 || k == 2 * i + 2;
      }
    }
  }

  /** `k` is a child of `i` exactly when it is `2i + 1` or `2i + 2`. */
  lemma ChildOf(k: nat, i: nat)
    requires 0 < k
    ensures Parent(k) == i <==> k == 2 * i + 1 || k == 2 * i + 2
  {
  }

  /** One swap of `heapify_down` with the smaller child `s` moves the hole
      one level down. */
  lemma SiftDownStep(h: seq<Reservation>, i: nat, s: nat)
    requires s < |h|
    requires s == 2 * i + 1 || s == 2 * i + 2
    requires HeapExceptBelow(h, i)
    requires Less(h[s], h[i])
    requires 2 * i + 1 < |h| ==> Le(h[s], h[2 * i + 1])
    requires 2 * i + 2 < |h| ==> Le(h[s], h[2 * i + 2])
    ensures HeapExceptBelow(h[i := h[s]][s := h[i]], s)
  {
    var h' := h[i := h[s]][s := h[i]];
    ChildOf(s, i);
    forall k | 0 < k < |h'| && Parent(k) != s
      ensures Le(h'[Parent(k)], h'[k])
    {
      ChildOf(k, i);
      if k == s {
        LessIsStrictTotalOrder(h[s], h[i], h[s]);
      } else if Parent(k) == i {
        assert h'[k] == h[k];
      } else if k == i {
        assert h'[Parent(k)] == h[Parent(k)];
      } else {
        assert h'[Parent(k)] == h[Parent(k)] && h'[k] == h[k];
      }
    }
    forall k | 0 < k < |h'| && Parent(k) == s
      ensures Le(h'[Parent(s)], h'[k])
    {
      ChildOf(k, s);
      assert h'[k] == h[k];
    }
  }

  /** `pop` moves the last element to the root: the rest keeps heap order. */
  lemma PopShape(h0: seq<Reservation>)
    requires IsHeap(h0) && 2 <= |h0|
    ensures var n := |h0|; HeapExceptBelow([h0[n - 1]] + h0[1..n - 1], 0)
  {
    var n := |h0|;
    var g := [h0[n - 1]] + h0[1..n - 1];
    forall k | 0 < k < |g| && Parent(k) != 0
      ensures Le(g[Parent(k)], g[k])
    {
      assert g[Parent(k)] == h0[Parent(k)] && g[k] == h0[k];
    }
  }
}
