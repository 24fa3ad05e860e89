/** The red-black tree of colourflip.py as an immutable value: node colours,
    books as payload, the shared NIL sentinel's colour and the cumulative
    colour-flip counter. Positions inside a tree are zippers (the frames from
    a node up to the root), which is how the fixups' `parent` pointers are
    modelled. */
module RedBlackTree {
  import opened Outcomes
  import opened ReservationHeap

  datatype Color = Red | Black

  /** The two availability strings the library compares against. */
  const AVAILABLE: string := "available"
  const BORROWED: string := "borrowed"

  /** An `RBTreeNode`'s payload. `reservations` is `None` while the node
      still holds the initial empty list, and `Some(h)` once a `MinHeap`
      with array `h` has been created (a `MinHeap` is truthy even when
      empty). */
  datatype Book = Book(
    id: int,
    name: string,
    author: string,
    status: string,
    borrowedBy: Option<int>,
    reservations: Option<seq<Reservation>>)

  /** `Nil` is the shared NIL sentinel; its colour lives in `RBTree.nil`. */
  datatype Tree = Nil | Node(color: Color, left: Tree, book: Book, right: Tree)

  /** The state of a `RedBlackTree` object. */
  datatype RBTree = RBTree(root: Tree, nil: Color, flips: nat)

  /** A fresh `RedBlackTree`: the NIL sentinel is built by the ordinary node
      constructor and therefore starts RED. It already satisfies the
      invariant every library operation keeps. */
  function Empty(): (r: RBTree)
    ensures r.root == Nil && r.flips == 0
    ensures r.nil == Red
    ensures Valid(r)
  {
    RBTree(Nil, Red, 0)
  }

  /** The colour the source reads from `t.color`. */
  function ColorOf(t: Tree, nil: Color): Color
  {
    if t.Nil? then nil else t.color
  }

  /** `t.color = "BLACK"` on a real node (the sentinel's colour is handled
      by the caller). */
  function Blacken(t: Tree): (r: Tree)
    ensures r.Nil? <==> t.Nil?
    ensures r.Node? ==> r.color == Black && r.left == t.left && r.book == t.book && r.right == t.right
  {
    if t.Nil? then Nil else t.(color := Black)
  }

  /** The sentinel's colour after `t.color = "BLACK"`. */
  function NilAfterBlacken(t: Tree, nil: Color): (r: Color)
    ensures t.Nil? ==> r == Black
    ensures t.Node? ==> r == nil
  {
    if t.Nil? then Black else nil
  }

  function Inorder(t: Tree): seq<Book>
  {
    match t
    case Nil => []
    case Node(_, l, b, r) => Inorder(l) + [b] + Inorder(r)
  }

  /** The in-order sequence together with every node's colour. */
  function ColoredInorder(t: Tree): seq<(Color, Book)>
  {
    match t
    case Nil => []
    case Node(c, l, b, r) => ColoredInorder(l) + [(c, b)] + ColoredInorder(r)
  }

  /** Book ids never decrease from left to right (equal ids are allowed:
      the source does not reject duplicates). */
  ghost predicate Sorted(s: seq<Book>)
  {
    forall i, j :: 0 <= i < j < |s| ==> s[i].id <= s[j].id
  }

  ghost predicate IsBST(t: Tree)
  {
    Sorted(Inorder(t))
  }

  ghost predicate RootBlack(t: Tree)
  {
    t.Nil? || t.color == Black
  }

  /** Every reservation array in the tree is a heap. */
  ghost predicate HeapsValid(t: Tree)
  {
    forall b :: b in Inorder(t) && b.reservations.Some? ==> IsHeap(b.reservations.value)
  }

  /** The invariant of every reachable library state. */
  ghost predicate Valid(T: RBTree)
  {
    IsBST(T.root) && RootBlack(T.root) && HeapsValid(T.root)
  }

  lemma {:induction false} SortedSplit(a: seq<Book>, b: Book, c: seq<Book>)
    requires Sorted(a + [b] + c)
    ensures Sorted(a) && Sorted(c)
    ensures forall x :: x in a ==> x.id <= b.id
    ensures forall x :: x in c ==> b.id <= x.id
  {
    var s := a + [b] + c;
    assert forall i :: 0 <= i < |a| ==> s[i] == a[i];
    assert forall i :: 0 <= i < |c| ==> s[|a| + 1 + i] == c[i];
    assert s[|a|] == b;
  }

  // ---------------------------------------------------------------------
  // Positions: a frame per ancestor, nearest ancestor first.
  // ---------------------------------------------------------------------

  datatype Dir = Left | Right

  /** An ancestor seen from below: the focus hangs on its `dir` side, and
      `sibling` is its other child. */
  datatype Frame = Frame(dir: Dir, color: Color, book: Book, sibling: Tree)

  function Attach(f: Frame, t: Tree): (r: Tree)
    ensures r.Node? && r.color == f.color && r.book == f.book
  {
    if f.dir == Left then Node(f.color, t, f.book, f.sibling)
    else Node(f.color, f.sibling, f.book, t)
  }

  /** Rebuild the whole tree from a focus and its frames. */
  function Plug(ctx: seq<Frame>, t: Tree): Tree
    decreases |ctx|
  {
    if ctx == [] then t else Plug(ctx[1..], Attach(ctx[0], t))
  }

  /** The books in-order before the focus. */
  function Before(ctx: seq<Frame>): seq<Book>
    decreases |ctx|
  {
    if ctx == [] then []
    else if ctx[0].dir == Left then Before(ctx[1..])
    else Before(ctx[1..]) + Inorder(ctx[0].sibling) + [ctx[0].book]
  }

  /** The books in-order after the focus. */
  function After(ctx: seq<Frame>): seq<Book>
    decreases |ctx|
  {
    if ctx == [] then []
    else if ctx[0].dir == Left then [ctx[0].book] + Inorder(ctx[0].sibling) + After(ctx[1..])
    else After(ctx[1..])
  }

  lemma {:induction false} PlugInorder(ctx: seq<Frame>, t: Tree)
    ensures Inorder(Plug(ctx, t)) == Before(ctx) + Inorder(t) + After(ctx)
    decreases |ctx|
  {
    if ctx != [] {
      PlugInorder(ctx[1..], Attach(ctx[0], t));
    }
  }

  /** Replacing the focus by a subtree with the same in-order sequence
      leaves the whole tree's in-order sequence unchanged. */
  lemma PlugCongruence(ctx: seq<Frame>, t: Tree, u: Tree)
    requires Inorder(t) == Inorder(u)
    ensures Inorder(Plug(ctx, t)) == Inorder(Plug(ctx, u))
  {
    PlugInorder(ctx, t);
    PlugInorder(ctx, u);
  }

  lemma {:induction false} PlugAppend(ctx: seq<Frame>, f: Frame, t: Tree)
    ensures Plug(ctx + [f], t) == Attach(f, Plug(ctx, t))
    decreases |ctx|
  {
    if ctx != [] {
      assert (ctx + [f])[1..] == ctx[1..] + [f];
      PlugAppend(ctx[1..], f, Attach(ctx[0], t));
    }
  }

  /** The root of a plugged tree is the outermost frame's node. */
  lemma {:induction false} PlugRoot(ctx: seq<Frame>, t: Tree)
    requires ctx != []
    ensures Plug(ctx, t).Node?
    ensures Plug(ctx, t).color == ctx[|ctx| - 1].color
    decreases |ctx|
  {
    if |ctx| > 1 {
      PlugRoot(ctx[1..], Attach(ctx[0], t));
    }
  }

  /** The root's colour when the focus is replaced: `t` if it is the root,
      the outermost frame's colour otherwise. */
  ghost predicate TopBlack(ctx: seq<Frame>, t: Tree)
  {
    if ctx == [] then RootBlack(t) else ctx[|ctx| - 1].color == Black
  }

  lemma TopBlackIsRootBlack(ctx: seq<Frame>, t: Tree)
    ensures TopBlack(ctx, t) <==> RootBlack(Plug(ctx, t))
  {
    if ctx != [] {
      PlugRoot(ctx, t);
    }
  }

  // ---------------------------------------------------------------------
  // Rotations
  // ---------------------------------------------------------------------

  /** 1 when `_left_rotate`/`_right_rotate` see differently coloured nodes. */
  function RotationFlip(a: Color, b: Color): (n: nat)
    ensures n == 0 <==> a == b
    ensures n <= 1
  {
    if a != b then 1 else 0
  }

  /** `_left_rotate(x)`: `x.right` becomes the subtree's root and `x` its
      left child. Returns the rotated subtree and the updated counter. */
  function LeftRotate(x: Tree, flips: nat): (r: (Tree, nat))
    requires x.Node? && x.right.Node?
    ensures ColoredInorder(r.0) == ColoredInorder(x)
    ensures Inorder(r.0) == Inorder(x)
    ensures r.0.Node? && r.0.left.Node?
    ensures r.0.book == x.right.book && r.0.color == x.right.color
    ensures r.0.left.book == x.book && r.0.left.color == x.color
    ensures r.1 == flips + RotationFlip(x.color, x.right.color)
  {
    var y := x.right;
    (Node(y.color, Node(x.color, x.left, x.book, y.left), y.book, y.right),
     flips + RotationFlip(x.color, y.color))
  }

  /** `_right_rotate(y)`: `y.left` becomes the subtree's root and `y` its
      right child. */
  function RightRotate(y: Tree, flips: nat): (r: (Tree, nat))
    requires y.Node? && y.left.Node?
    ensures ColoredInorder(r.0) == ColoredInorder(y)
    ensures Inorder(r.0) == Inorder(y)
    ensures r.0.Node? && r.0.right.Node?
    ensures r.0.book == y.left.book && r.0.color == y.left.color
    ensures r.0.right.book == y.book && r.0.right.color == y.color
    ensures r.1 == flips + RotationFlip(y.left.color, y.color)
  {
    var x := y.left;
    (Node(x.color, x.left, x.book, Node(y.color, x.right, y.book, y.right)),
     flips + RotationFlip(x.color, y.color))
  }

  /** The two rotations undo each other. */
  lemma RotationsAreInverse(x: Tree, flips: nat)
    requires x.Node? && x.right.Node?
    ensures RightRotate(LeftRotate(x, flips).0, flips).0 == x
  {
  }
}
