/** `InsertBook`, `_insert` and `_fix_insert`. */
module Insertion {
  import opened Outcomes
  import opened RedBlackTree

  /** `_insert`'s descent: the frames above the NIL slot where a node with
      id `k` is attached. Smaller ids go left, equal or larger ids go right. */
  function Descend(t: Tree, k: int): (ctx: seq<Frame>)
    ensures Plug(ctx, Nil) == t
    ensures t.Node? <==> ctx != []
  {
    match t
    case Nil => []
    case Node(c, l, b, r) =>
      if k < b.id then
        PlugAppend(Descend(l, k), Frame(Left, c, b, r), Nil);
        Descend(l, k) + [Frame(Left, c, b, r)]
      else
        PlugAppend(Descend(r, k), Frame(Right, c, b, l), Nil);
        Descend(r, k) + [Frame(Right, c, b, l)]
  }

  /** Reference definition: `b` goes in front of the first book with a
      larger id, i.e. after every book whose id is at most `b.id`. */
  function InsertSorted(s: seq<Book>, b: Book): (r: seq<Book>)
    ensures multiset(r) == multiset(s) + multiset{b}
    ensures |r| == |s| + 1
  {
    if s == [] || b.id < s[0].id then [b] + s
    else
      assert s == [s[0]] + s[1..];
      [s[0]] + InsertSorted(s[1..], b)
  }

  /** The tail of a sorted sequence is sorted and bounded below by its head. */
  lemma SortedTail(s: seq<Book>)
    requires Sorted(s) && s != []
    ensures Sorted(s[1..])
    ensures forall y :: y in s[1..] ==> s[0].id <= y.id
  {
    var t := s[1..];
    assert forall k :: 0 <= k < |t| ==> t[k] == s[k + 1];
  }

  /** A lower bound in front of a sorted sequence keeps it sorted. */
  lemma SortedCons(x: Book, t: seq<Book>)
    requires Sorted(t) && forall y :: y in t ==> x.id <= y.id
    ensures Sorted([x] + t)
  {
    var r := [x] + t;
    forall i, j | 0 <= i < j < |r|
      ensures r[i].id <= r[j].id
    {
      assert r[j] == t[j - 1];
      if i > 0 {
        assert r[i] == t[i - 1];
      }
    }
  }

  lemma {:induction false} InsertSortedKeepsOrder(s: seq<Book>, b: Book)
    requires Sorted(s)
    ensures Sorted(InsertSorted(s, b))
  {
    if s == [] || b.id < s[0].id {
      if s != [] {
        SortedTail(s);
        assert s == [s[0]] + s[1..];
      }
      SortedCons(b, s);
    } else {
      var t := s[1..];
      SortedTail(s);
      InsertSortedKeepsOrder(t, b);
      var rest := InsertSorted(t, b);
      forall x | x in rest
        ensures s[0].id <= x.id
      {
        assert x in multiset(rest);
      }
      SortedCons(s[0], rest);
    }
  }

  lemma {:induction false} InsertSortedBefore(a: seq<Book>, x: Book, c: seq<Book>, b: Book)
    requires b.id < x.id
    ensures InsertSorted(a + [x] + c, b) == InsertSorted(a, b) + [x] + c
  {
    if a != [] && b.id >= a[0].id {
      assert (a + [x] + c)[0] == a[0];
      assert (a + [x] + c)[1..] == a[1..] + [x] + c;
      InsertSortedBefore(a[1..], x, c, b);
    }
  }

  lemma {:induction false} InsertSortedAfter(a: seq<Book>, c: seq<Book>, b: Book)
    requires forall y :: y in a ==> y.id <= b.id
    ensures InsertSorted(a + c, b) == a + InsertSorted(c, b)
  {
    if a != [] {
      assert a[0] in a;
      assert (a + c)[0] == a[0];
      assert (a + c)[1..] == a[1..] + c;
      InsertSortedAfter(a[1..], c, b);
      assert InsertSorted(a + c, b) == [a[0]] + InsertSorted(a[1..] + c, b);
      assert a == [a[0]] + a[1..];
    } else {
      assert a + c == c;
    }
  }

  /** Attaching a node at `_insert`'s slot puts its book exactly where
      `InsertSorted` does: after all books with id at most its own. */
  lemma {:induction false} DescendInorder(t: Tree, c: Color, b: Book)
    requires IsBST(t)
    ensures Inorder(Plug(Descend(t, b.id), Node(c, Nil, b, Nil))) == InsertSorted(Inorder(t), b)
  {
    var n := Node(c, Nil, b, Nil);
    if t.Node? {
      var l, x, r := t.left, t.book, t.right;
      SortedSplit(Inorder(l), x, Inorder(r));
      if b.id < x.id {
        var f := Frame(Left, t.color, x, r);
        var sub := Descend(l, b.id);
        assert Descend(t, b.id) == sub + [f];
        PlugAppend(sub, f, n);
        DescendInorder(l, c, b);
        assert Inorder(Plug(sub + [f], n)) == InsertSorted(Inorder(l), b) + [x] + Inorder(r);
        InsertSortedBefore(Inorder(l), x, Inorder(r), b);
      } else {
        var f := Frame(Right, t.color, x, l);
        var sub := Descend(r, b.id);
        assert Descend(t, b.id) == sub + [f];
        PlugAppend(sub, f, n);
        DescendInorder(r, c, b);
        assert Inorder(Plug(sub + [f], n)) == Inorder(l) + [x] + InsertSorted(Inorder(r), b);
        InsertSortedAfter(Inorder(l) + [x], Inorder(r), b);
      }
    }
  }

  lemma PlugNode(ctx: seq<Frame>, t: Tree)
    requires t.Node?
    ensures Plug(ctx, t).Node?
  {
    if ctx != [] {
      PlugRoot(ctx, t);
    }
  }

  /** The focus two levels up: `Plug` through the parent and grandparent
      frames first. */
  lemma PlugTwo(ctx: seq<Frame>, t: Tree)
    requires |ctx| >= 2
    ensures Plug(ctx, t) == Plug(ctx[2..], Attach(ctx[1], Attach(ctx[0], t)))
  {
    assert ctx[1..][1..] == ctx[2..];
  }

  /** `_fix_insert`, entered with `node` as the focus and `ctx` as its
      ancestors; it ends with line 286, which blackens the root. A `Raised`
      result is the source reading `node.parent.parent.left` when the red
      parent is the root (grandparent `None`). */
  function FixInsert(node: Tree, ctx: seq<Frame>, nil: Color, flips: nat): (r: Result<RBTree>)
    requires node.Node?
    ensures r.Ok? ==> Inorder(r.value.root) == Inorder(Plug(ctx, node))
    ensures r.Ok? ==> r.value.root.Node? && r.value.root.color == Black
    ensures r.Ok? ==> flips <= r.value.flips
    ensures r.Ok? && nil == Black ==> r.value.nil == Black
    ensures (ctx == [] || ctx[0].color == Black) ==> r.Ok? && r.value.flips == flips && r.value.nil == nil
    ensures (ctx == [] || ctx[0].color == Black) ==> r == Ok(RBTree(Blacken(Plug(ctx, node)), nil, flips))
    ensures TopBlack(ctx, node) ==> r.Ok?
    decreases |ctx|
  {
    if ctx == [] || ctx[0].color == Black then
      // the loop test fails at once
      PlugNode(ctx, node);
      Ok(RBTree(Blacken(Plug(ctx, node)), nil, flips))
    else if |ctx| == 1 then
      Raised
    else
      var p, g := ctx[0], ctx[1];
      var parent := Attach(p, node);
      var uncle := g.sibling;
      PlugTwo(ctx, node);
      if ColorOf(uncle, nil) == Red then
        // lines 254-259 / 271-276: parent and uncle black, grandparent red,
        // and the loop continues from the grandparent
        var grand := Attach(Frame(g.dir, Red, g.book, Blacken(uncle)), parent.(color := Black));
        PlugCongruence(ctx[2..], grand, Attach(g, parent));
        FixInsert(grand, ctx[2..], NilAfterBlacken(uncle, nil), flips + 1)
      else
        Ok(RotateGrandparent(node, ctx, nil, flips))
  }

  /** The black-uncle cases of `_fix_insert` (lines 261-268 and 277-284):
      rotate an inner node into line with its parent, recolour parent and
      grandparent, and rotate the grandparent. `node`'s new parent is then
      black, so the loop ends and line 286 blackens the root. */
  function RotateGrandparent(node: Tree, ctx: seq<Frame>, nil: Color, flips: nat): (r: RBTree)
    requires node.Node? && |ctx| >= 2
    ensures Inorder(r.root) == Inorder(Plug(ctx, node))
    ensures r.root.Node? && r.root.color == Black
    ensures flips < r.flips && r.nil == nil
  {
    var p, g := ctx[0], ctx[1];
    var parent := Attach(p, node);
    var uncle := g.sibling;
    PlugTwo(ctx, node);
    var (top, f2) :=
      if g.dir == Left then
        var (sub, f1) := if p.dir == Right then LeftRotate(parent, flips) else (parent, flips);
        RightRotate(Node(Red, sub.(color := Black), g.book, uncle), f1)
      else
        var (sub, f1) := if p.dir == Left then RightRotate(parent, flips) else (parent, flips);
        LeftRotate(Node(Red, uncle, g.book, sub.(color := Black)), f1);
    PlugCongruence(ctx[2..], top, Attach(g, parent));
    PlugNode(ctx[2..], top);
    RBTree(Blacken(Plug(ctx[2..], top)), nil, f2 + 1)
  }

  /** The book `InsertBook` stores: a fresh node's empty reservation list
      is modelled as `None`. */
  function NewBook(id: int, name: string, author: string, status: string, borrowedBy: Option<int>): Book
  {
    Book(id, name, author, status, borrowedBy, None)
  }

  /** An available book with an id only, as in the worked scenarios. */
  function Blank(id: int): Book
  {
    NewBook(id, "", "", AVAILABLE, None)
  }

  /** `InsertBook` (lines 214-222): `_insert` attaches a red node at the
      descent's NIL slot, then `_fix_insert` runs. The check at line 217 is
      dead (a fresh node's parent is `None`) and is omitted. */
  function InsertBook(T: RBTree, id: int, name: string, author: string, status: string,
                      borrowedBy: Option<int>): (r: Result<RBTree>)
    ensures RootBlack(T.root) ==> r.Ok?
    ensures r.Ok? ==> r.value.root.Node? && r.value.root.color == Black
    ensures r.Ok? ==> T.flips <= r.value.flips
    ensures r.Ok? && T.nil == Black ==> r.value.nil == Black
    ensures T.root.Nil? || Descend(T.root, id)[0].color == Black ==>
      r.Ok? && r.value.flips == T.flips && r.value.nil == T.nil
  {
    var b := NewBook(id, name, author, status, borrowedBy);
    var ctx := Descend(T.root, id);
    if T.root.Node? then
      PlugRoot(ctx, Nil);
      assert RootBlack(T.root) ==> TopBlack(ctx, Node(Red, Nil, b, Nil));
      FixInsert(Node(Red, Nil, b, Nil), ctx, T.nil, T.flips)
    else
      FixInsert(Node(Red, Nil, b, Nil), ctx, T.nil, T.flips)
  }

  /** The in-order sequence after an insertion is the old one with the new
      book placed after every book with an id at most its own, so search
      order is kept. */
  lemma InsertBookPlacesBook(T: RBTree, id: int, name: string, author: string, status: string,
                             borrowedBy: Option<int>)
    requires IsBST(T.root)
    ensures var r := InsertBook(T, id, name, author, status, borrowedBy);
      r.Ok? ==>
        && Inorder(r.value.root) == InsertSorted(Inorder(T.root), NewBook(id, name, author, status, borrowedBy))
        && IsBST(r.value.root)
  {
    DescendInorder(T.root, Red, NewBook(id, name, author, status, borrowedBy));
    InsertSortedKeepsOrder(Inorder(T.root), NewBook(id, name, author, status, borrowedBy));
  }

  /** From a valid state, insertion never raises and yields a valid state
      whose books are the old ones plus the new one. */
  lemma InsertBookKeepsValid(T: RBTree, id: int, name: string, author: string, status: string,
                             borrowedBy: Option<int>)
    requires Valid(T)
    ensures var r := InsertBook(T, id, name, author, status, borrowedBy);
      && r.Ok?
      && Valid(r.value)
      && multiset(Inorder(r.value.root)) == multiset(Inorder(T.root)) + multiset{NewBook(id, name, author, status, borrowedBy)}
  {
    var b := NewBook(id, name, author, status, borrowedBy);
    var r := InsertBook(T, id, name, author, status, borrowedBy);
    InsertBookPlacesBook(T, id, name, author, status, borrowedBy);
    forall x | x in Inorder(r.value.root) && x.reservations.Some?
      ensures ReservationHeap.IsHeap(x.reservations.value)
    {
      assert x in multiset(Inorder(T.root)) + multiset{b};
    }
  }
}
