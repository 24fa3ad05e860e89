/** The read-only queries of `GatorLibrary`: the range walk `PrintBooks`
    and the nearest-id search `_find_closest_books`. Printing is replaced
    by returning the books that would be printed. */
module Queries {
  import opened Outcomes
  import opened RedBlackTree
  import opened TreeSearch
  import opened Insertion

  predicate StrictlyAscending(s: seq<Book>)
  {
    forall j, k :: 0 <= j < k < |s| ==> s[j].id < s[k].id
  }

  /** `PrintBooks(lo, hi)`: try every id of `range(lo, hi + 1)` in turn and
      keep what `_find_book` returns. */
  method PrintBooks(t: Tree, lo: int, hi: int) returns (found: seq<Book>)
    ensures lo > hi ==> found == []
    ensures StrictlyAscending(found)
    ensures forall k :: 0 <= k < |found| ==>
      lo <= found[k].id <= hi && FindBook(t, found[k].id) == Some(found[k])
    ensures forall id :: lo <= id <= hi && FindBook(t, id).Some? ==> FindBook(t, id).value in found
    ensures IsBST(t) ==> forall b :: b in Inorder(t) && lo <= b.id <= hi ==>
      exists k :: 0 <= k < |found| && found[k].id == b.id
  {
    found := [];
    var id := lo;
    while id <= hi
      invariant lo <= id && (lo <= hi ==> id <= hi + 1)
      invariant lo > hi ==> found == []
      invariant StrictlyAscending(found)
      invariant forall k :: 0 <= k < |found| ==>
        lo <= found[k].id < id && FindBook(t, found[k].id) == Some(found[k])
      invariant forall j :: lo <= j < id && FindBook(t, j).Some? ==> FindBook(t, j).value in found
      decreases hi + 1 - id
    {
      var hit := FindBook(t, id);
      if hit.Some? {
        found := found + [hit.value];
      }
      id := id + 1;
    }
    if IsBST(t) {
      forall b | b in Inorder(t) && lo <= b.id <= hi
        ensures exists k :: 0 <= k < |found| && found[k].id == b.id
      {
        FindBookComplete(t, b.id);
        var k :| 0 <= k < |found| && found[k] == FindBook(t, b.id).value;
      }
    }
  }

  // ---------------------------------------------------------------------
  // Nearest ids
  // ---------------------------------------------------------------------

  /** The distance between two ids. */
  function Dist(a: int, b: int): nat
  {
    if a < b then b - a else a - b
  }

  /** The books `_find_closest_books` appends while it descends towards
      `target`, stopping after an exact hit or at the sentinel. */
  function SearchPath(t: Tree, target: int): (p: seq<Book>)
    ensures forall b :: b in p ==> b in Inorder(t)
    ensures p == [] <==> t.Nil?
  {
    match t
    case Nil => []
    case Node(_, l, b, r) =>
      if target < b.id then [b] + SearchPath(l, target)
      else if target > b.id then [b] + SearchPath(r, target)
      else [b]
  }

  /** `_find_closest_books` as written. The side probes start at the
      sentinel's `left`/`right`, which are never set and stay `None`, so they
      contribute nothing: a miss returns the whole search path. */
  method FindClosestBooks(t: Tree, target: int) returns (r: seq<Book>)
    ensures t.Nil? ==> r == []
    ensures FindBook(t, target).Some? ==> r == [FindBook(t, target).value]
    ensures FindBook(t, target).None? ==> r == SearchPath(t, target)
  {
    var path := [];
    var node := t;
    while node.Node?
      invariant path + SearchPath(node, target) == SearchPath(t, target)
      invariant FindBook(node, target) == FindBook(t, target)
      invariant t.Nil? ==> path == []
      decreases node
    {
      path := path + [node.book];
      if target < node.book.id {
        node := node.left;
      } else if target > node.book.id {
        node := node.right;
      } else {
        return [node.book];
      }
    }
    assert SearchPath(node, target) == [];
    r := path;
  }

  /** Without an exact hit, the search path brackets the target from
      below: for a stored book `b` below the target the path holds a book
      in `[b.id, target)`. Applied to the in-order predecessor, the path
      holds it. */
  lemma {:induction false} PathBelow(t: Tree, target: int, b: Book) returns (p: Book)
    requires IsBST(t) && FindBook(t, target).None?
    requires b in Inorder(t) && b.id < target
    ensures p in SearchPath(t, target) && b.id <= p.id < target
  {
    match t
    case Node(_, l, x, r) =>
      SortedSplit(Inorder(l), x, Inorder(r));
      if target < x.id {
        assert b in Inorder(l);
        p := PathBelow(l, target, b);
      } else if b in Inorder(r) {
        p := PathBelow(r, target, b);
      } else {
        p := x;
      }
  }

  /** The mirror image: the path also holds the in-order successor. */
  lemma {:induction false} PathAbove(t: Tree, target: int, b: Book) returns (p: Book)
    requires IsBST(t) && FindBook(t, target).None?
    requires b in Inorder(t) && b.id > target
    ensures p in SearchPath(t, target) && target < p.id <= b.id
  {
    match t
    case Node(_, l, x, r) =>
      SortedSplit(Inorder(l), x, Inorder(r));
      if target > x.id {
        assert b in Inorder(r);
        p := PathAbove(r, target, b);
      } else if b in Inorder(l) {
        p := PathAbove(l, target, b);
      } else {
        p := x;
      }
  }

  /** The smallest distance from `target` to an id in `s`. */
  function MinDist(s: seq<Book>, target: int): (d: nat)
    requires s != []
    ensures forall k :: 0 <= k < |s| ==> d <= Dist(s[k].id, target)
    ensures exists k :: 0 <= k < |s| && d == Dist(s[k].id, target)
  {
    if |s| == 1 then Dist(s[0].id, target)
    else
      var d := MinDist(s[1..], target);
      assert forall k :: 1 <= k < |s| ==> s[k] == s[1..][k - 1];
      if Dist(s[0].id, target) <= d then Dist(s[0].id, target) else d
  }

  /** The books of `s` at distance exactly `d` from `target`, in order. */
  function AtDist(s: seq<Book>, target: int, d: nat): (r: seq<Book>)
    ensures forall b :: b in r <==> b in s && Dist(b.id, target) == d
  {
    if s == [] then []
    else if Dist(s[0].id, target) == d then [s[0]] + AtDist(s[1..], target, d)
    else AtDist(s[1..], target, d)
  }

  /** The corrected nearest-id search. The comment at line 174 asks for
      the closest books on both sides of the target: the single book on an
      exact hit, otherwise every book of the search path at the smallest
      distance from the target (ties on both sides are all kept). */
  function ClosestBooks(t: Tree, target: int): (r: seq<Book>)
  {
    match FindBook(t, target)
    case Some(b) => [b]
    case None =>
      var p := SearchPath(t, target);
      if p == [] then [] else AtDist(p, target, MinDist(p, target))
  }

  /** Every returned book is stored and nearest to the target, and every id
      that is nearest to the target is returned; an empty tree gives no
      books. */
  lemma ClosestBooksCorrect(t: Tree, target: int)
    requires IsBST(t)
    ensures var r := ClosestBooks(t, target);
      && (t.Nil? <==> r == [])
      && (forall b :: b in r ==> b in Inorder(t))
      && (forall b, c :: b in r && c in Inorder(t) ==> Dist(b.id, target) <= Dist(c.id, target))
      && (forall c :: c in Inorder(t) && (forall e :: e in Inorder(t) ==> Dist(c.id, target) <= Dist(e.id, target))
            ==> exists b :: b in r && b.id == c.id)
  {
    var r := ClosestBooks(t, target);
    if t.Node? {
      var b := ClosestNonEmpty(t, target);
      assert b in r;
    }
    forall b, c | b in r && c in Inorder(t)
      ensures Dist(b.id, target) <= Dist(c.id, target)
    {
      ClosestIsNearest(t, target, b, c);
    }
    forall c | c in Inorder(t) && (forall e :: e in Inorder(t) ==> Dist(c.id, target) <= Dist(e.id, target))
      ensures exists b :: b in r && b.id == c.id
    {
      var b := ClosestComplete(t, target, c);
    }
  }

  /** A non-empty tree yields at least one book, and every returned book is
      stored. */
  lemma ClosestNonEmpty(t: Tree, target: int) returns (b: Book)
    requires t.Node?
    ensures b in ClosestBooks(t, target)
    ensures forall x :: x in ClosestBooks(t, target) ==> x in Inorder(t)
  {
    match FindBook(t, target)
    case Some(h) =>
      b := h;
    case None =>
      var p := SearchPath(t, target);
      var k :| 0 <= k < |p| && MinDist(p, target) == Dist(p[k].id, target);
      b := p[k];
  }

  lemma ClosestIsNearest(t: Tree, target: int, b: Book, c: Book)
    requires IsBST(t) && b in ClosestBooks(t, target) && c in Inorder(t)
    ensures Dist(b.id, target) <= Dist(c.id, target)
  {
    if FindBook(t, target).None? {
      var p := SearchPath(t, target);
      var q := NearOnSide(t, target, c);
      var k :| 0 <= k < |p| && p[k] == q;
    }
  }

  lemma ClosestComplete(t: Tree, target: int, c: Book) returns (b: Book)
    requires IsBST(t) && c in Inorder(t)
    requires forall e :: e in Inorder(t) ==> Dist(c.id, target) <= Dist(e.id, target)
    ensures b in ClosestBooks(t, target) && b.id == c.id
  {
    FindBookComplete(t, target);
    match FindBook(t, target)
    case Some(h) =>
      assert Dist(c.id, target) <= Dist(h.id, target);
      b := h;
    case None =>
      var p := SearchPath(t, target);
      var k0 :| 0 <= k0 < |p| && MinDist(p, target) == Dist(p[k0].id, target);
      assert Dist(c.id, target) <= Dist(p[k0].id, target);
      b := NearOnSide(t, target, c);
      var k :| 0 <= k < |p| && p[k] == b;
  }

  /** A path book on the same side of the target as `c` and at least as
      close; equally close only with the same id. */
  lemma NearOnSide(t: Tree, target: int, c: Book) returns (q: Book)
    requires IsBST(t) && FindBook(t, target).None? && c in Inorder(t)
    ensures q in SearchPath(t, target)
    ensures Dist(q.id, target) <= Dist(c.id, target)
    ensures Dist(q.id, target) == Dist(c.id, target) ==> q.id == c.id
  {
    FindBookComplete(t, target);
    if c.id < target {
      q := PathBelow(t, target, c);
    } else {
      q := PathAbove(t, target, c);
    }
  }

  /** The source's result can hold a book farther away than the nearest
      one: with 10 at the root and 5 as its left child, a search for 6
      returns both 10 and 5. */
  lemma PathKeepsFartherBook()
    ensures var b5, b10 := Blank(5), Blank(10);
      var t := Node(Black, Node(Red, Nil, b5, Nil), b10, Nil);
      && IsBST(t)
      && FindBook(t, 6).None?
      && SearchPath(t, 6) == [b10, b5]
      && Dist(b10.id, 6) > Dist(b5.id, 6)
      && ClosestBooks(t, 6) == [b5]
  {
    var b5, b10 := Blank(5), Blank(10);
    var t := Node(Black, Node(Red, Nil, b5, Nil), b10, Nil);
    assert Inorder(t) == [b5, b10];
    assert SearchPath(t, 6) == [b10, b5];
    assert MinDist([b10, b5], 6) == 1;
  }
}
