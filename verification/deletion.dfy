/** `DeleteBook`, `_transplant` and `_delete_fixup`. */
module Deletion {
  import opened Outcomes
  import opened ReservationHeap
  import opened RedBlackTree
  import opened TreeSearch

  lemma {:induction false} BeforeAppend(ctx: seq<Frame>, f: Frame)
    ensures Before(ctx + [f]) == Before([f]) + Before(ctx)
    decreases |ctx|
  {
    if ctx == [] {
      assert ctx + [f] == [f];
    } else {
      assert (ctx + [f])[1..] == ctx[1..] + [f];
      BeforeAppend(ctx[1..], f);
    }
  }

  /** The node a path leads to, with its ancestors as frames. */
  function Unzip(t: Tree, path: seq<Dir>): (r: (Tree, seq<Frame>))
    requires NodeAt(t, path)
    ensures r.0 == SubtreeAt(t, path)
    ensures Plug(r.1, r.0) == t
    ensures r.1 == [] <==> path == []
    ensures InorderIndex(t, path) == |Before(r.1)| + |Inorder(r.0.left)|
    decreases |path|
  {
    if path == [] then (t, [])
    else
      var (z, ctx) := Unzip(Child(t, path[0]), path[1..]);
      var f := if path[0] == Left then Frame(Left, t.color, t.book, t.right)
               else Frame(Right, t.color, t.book, t.left);
      PlugAppend(ctx, f, z);
      BeforeAppend(ctx, f);
      (z, ctx + [f])
  }

  /** Where `_delete_fixup`'s loop stopped: the focus `x`, its ancestors,
      the sentinel's colour and the counter. */
  datatype Stop = Stop(x: Tree, ctx: seq<Frame>, nil: Color, flips: nat)

  function Last(ctx: seq<Frame>): Frame
    requires ctx != []
  {
    ctx[|ctx| - 1]
  }

  /** One pass of the loop body made the root black if it was black. */
  ghost predicate KeepsTopBlack(ctx: seq<Frame>, ctx': seq<Frame>)
  {
    ctx' == [] || (ctx != [] && (Last(ctx).color == Black ==> Last(ctx').color == Black))
  }

  /** The two nearest ancestors of `x` after a rotation put `x` two levels
      below `top` on the given side. */
  function Frames2(top: Tree, d: Dir): seq<Frame>
    requires top.Node? && Child(top, d).Node?
  {
    var mid := Child(top, d);
    if d == Left then [Frame(Left, mid.color, mid.book, mid.right), Frame(Left, top.color, top.book, top.right)]
    else [Frame(Right, mid.color, mid.book, mid.left), Frame(Right, top.color, top.book, top.left)]
  }

  /** Case 1 with `x` on the left (lines 388-393): the red sibling `w` turns
      black, the parent red, the parent is rotated left, and `x` sits one
      level deeper under its red parent. */
  function RedSiblingLeft(x: Tree, ctx: seq<Frame>, flips: nat): (r: (seq<Frame>, nat))
    requires ctx != [] && ctx[0].dir == Left
    requires ctx[0].sibling.Node? && ctx[0].sibling.color == Red
    ensures Inorder(Plug(r.0, x)) == Inorder(Plug(ctx, x))
    ensures |r.0| == |ctx| + 1 && r.0[2..] == ctx[1..]
    ensures r.0[0].dir == Left && r.0[0].color == Red && r.0[1].color == Black
    ensures r.1 == flips + 2
  {
    var p, w := ctx[0], ctx[0].sibling;
    var (top, f) := LeftRotate(Node(Red, x, p.book, w.(color := Black)), flips);
    var ctx1 := Frames2(top, Left) + ctx[1..];
    assert ctx1[1..][1..] == ctx[1..];
    PlugCongruence(ctx[1..], top, Attach(p, x));
    (ctx1, f + 1)
  }

  /** Case 1 with `x` on the right (lines 411-416), the mirror image. */
  function RedSiblingRight(x: Tree, ctx: seq<Frame>, flips: nat): (r: (seq<Frame>, nat))
    requires ctx != [] && ctx[0].dir == Right
    requires ctx[0].sibling.Node? && ctx[0].sibling.color == Red
    ensures Inorder(Plug(r.0, x)) == Inorder(Plug(ctx, x))
    ensures |r.0| == |ctx| + 1 && r.0[2..] == ctx[1..]
    ensures r.0[0].dir == Right && r.0[0].color == Red && r.0[1].color == Black
    ensures r.1 == flips + 2
  {
    var p, w := ctx[0], ctx[0].sibling;
    var (top, f) := RightRotate(Node(Red, w.(color := Black), p.book, x), flips);
    var ctx1 := Frames2(top, Right) + ctx[1..];
    assert ctx1[1..][1..] == ctx[1..];
    PlugCongruence(ctx[1..], top, Attach(p, x));
    (ctx1, f + 1)
  }

  /** Cases 2-4 with `x` on the left (lines 394-408). Case 2 moves `x` up
      to its parent; cases 3 and 4 end with `x` at the root. */
  function SiblingCasesLeft(x: Tree, ctx: seq<Frame>, nil: Color, flips: nat): (r: Result<Stop>)
    requires ctx != [] && ctx[0].dir == Left
    ensures r.Ok? ==> Inorder(Plug(r.value.ctx, r.value.x)) == Inorder(Plug(ctx, x))
    ensures r.Ok? ==> r.value.ctx == [] || (r.value.ctx == ctx[1..] && ColorOf(r.value.x, r.value.nil) == ctx[0].color)
    ensures r.Ok? ==> flips <= r.value.flips
    ensures r.Ok? && nil == Black ==> r.value.nil == Black
  {
    var p, w := ctx[0], ctx[0].sibling;
    if w.Nil? then
      // `w.left.color` reads an attribute of None
      Raised
    else if ColorOf(w.left, nil) == Black && ColorOf(w.right, nil) == Black then
      // case 2: w red, move up
      PlugCongruence(ctx[1..], Node(p.color, x, p.book, w.(color := Red)), Attach(p, x));
      Ok(Stop(Node(p.color, x, p.book, w.(color := Red)), ctx[1..], nil, flips))
    else if ColorOf(w.right, nil) == Black && w.left.Nil? then
      // case 3 with a red NIL as `w.left`: `_right_rotate(w)` reads None
      Raised
    else
      // case 3: make w's far child red-free by rotating w right
      var (w3, f3) :=
        if ColorOf(w.right, nil) == Black then
          var (t3, f) := RightRotate(Node(Red, w.left.(color := Black), w.book, w.right), flips);
          (t3, f + 1)
        else (w, flips);
      assert Inorder(w3) == Inorder(w) by {
        if ColorOf(w.right, nil) == Black {
          assert Inorder(w.left.(color := Black)) == Inorder(w.left);
        }
      }
      assert Inorder(Blacken(w3.right)) == Inorder(w3.right);
      // case 4: w takes the parent's colour, parent and far child black,
      // rotate the parent left; `x` becomes the root
      var (top, f4) := LeftRotate(Node(Black, x, p.book, Node(p.color, w3.left, w3.book, Blacken(w3.right))), f3);
      PlugCongruence(ctx[1..], top, Attach(p, x));
      Ok(Stop(Plug(ctx[1..], top), [], NilAfterBlacken(w3.right, nil), f4))
  }

  /** Cases 2-4 with `x` on the right (lines 417-431), the mirror image. */
  function SiblingCasesRight(x: Tree, ctx: seq<Frame>, nil: Color, flips: nat): (r: Result<Stop>)
    requires ctx != [] && ctx[0].dir == Right
    ensures r.Ok? ==> Inorder(Plug(r.value.ctx, r.value.x)) == Inorder(Plug(ctx, x))
    ensures r.Ok? ==> r.value.ctx == [] || (r.value.ctx == ctx[1..] && ColorOf(r.value.x, r.value.nil) == ctx[0].color)
    ensures r.Ok? ==> flips <= r.value.flips
    ensures r.Ok? && nil == Black ==> r.value.nil == Black
  {
    var p, w := ctx[0], ctx[0].sibling;
    if w.Nil? then
      Raised
    else if ColorOf(w.right, nil) == Black && ColorOf(w.left, nil) == Black then
      PlugCongruence(ctx[1..], Node(p.color, w.(color := Red), p.book, x), Attach(p, x));
      Ok(Stop(Node(p.color, w.(color := Red), p.book, x), ctx[1..], nil, flips))
    else if ColorOf(w.left, nil) == Black && w.right.Nil? then
      Raised
    else
      var (w3, f3) :=
        if ColorOf(w.left, nil) == Black then
          var (t3, f) := LeftRotate(Node(Red, w.left, w.book, w.right.(color := Black)), flips);
          (t3, f + 1)
        else (w, flips);
      assert Inorder(w3) == Inorder(w) by {
        if ColorOf(w.left, nil) == Black {
          assert Inorder(w.right.(color := Black)) == Inorder(w.right);
        }
      }
      assert Inorder(Blacken(w3.left)) == Inorder(w3.left);
      var (top, f4) := RightRotate(Node(Black, Node(p.color, Blacken(w3.left), w3.book, w3.right), p.book, x), f3);
      PlugCongruence(ctx[1..], top, Attach(p, x));
      Ok(Stop(Plug(ctx[1..], top), [], NilAfterBlacken(w3.left, nil), f4))
  }

  /** The loop body for `x` on the left (lines 386-408). A NIL sibling
      makes `SiblingCasesLeft` raise: with NIL red, case 1 would first
      rotate the parent onto NIL, which raises as well. */
  function StepLeft(x: Tree, ctx: seq<Frame>, nil: Color, flips: nat): (r: Result<Stop>)
    requires ctx != [] && ctx[0].dir == Left
    ensures r.Ok? ==> Inorder(Plug(r.value.ctx, r.value.x)) == Inorder(Plug(ctx, x))
    ensures r.Ok? ==> |r.value.ctx| < |ctx| || (|r.value.ctx| == |ctx| && ColorOf(r.value.x, r.value.nil) == Red)
    ensures r.Ok? ==> flips <= r.value.flips
    ensures r.Ok? && nil == Black ==> r.value.nil == Black
    ensures r.Ok? ==> KeepsTopBlack(ctx, r.value.ctx)
  {
    var w := ctx[0].sibling;
    if w.Node? && w.color == Red then
      var (ctx1, f1) := RedSiblingLeft(x, ctx, flips);
      assert ctx1[1..] == [ctx1[1]] + ctx[1..];
      SiblingCasesLeft(x, ctx1, nil, f1)
    else
      SiblingCasesLeft(x, ctx, nil, flips)
  }

  /** The loop body for `x` on the right (lines 409-431). */
  function StepRight(x: Tree, ctx: seq<Frame>, nil: Color, flips: nat): (r: Result<Stop>)
    requires ctx != [] && ctx[0].dir == Right
    ensures r.Ok? ==> Inorder(Plug(r.value.ctx, r.value.x)) == Inorder(Plug(ctx, x))
    ensures r.Ok? ==> |r.value.ctx| < |ctx| || (|r.value.ctx| == |ctx| && ColorOf(r.value.x, r.value.nil) == Red)
    ensures r.Ok? ==> flips <= r.value.flips
    ensures r.Ok? && nil == Black ==> r.value.nil == Black
    ensures r.Ok? ==> KeepsTopBlack(ctx, r.value.ctx)
  {
    var w := ctx[0].sibling;
    if w.Node? && w.color == Red then
      var (ctx1, f1) := RedSiblingRight(x, ctx, flips);
      assert ctx1[1..] == [ctx1[1]] + ctx[1..];
      SiblingCasesRight(x, ctx1, nil, f1)
    else
      SiblingCasesRight(x, ctx, nil, flips)
  }

  /** `_delete_fixup`'s loop (lines 385-431): runs while `x` is not the
      root and is black. The source decides the side with `x ==
      x.parent.left`, an identity test that a NIL `x` also passes when it
      hangs on the right of a parent whose left child is NIL too; `w` is
      then NIL and `w.left.color` raises. */
  function FixDelete(x: Tree, ctx: seq<Frame>, nil: Color, flips: nat): (r: Result<Stop>)
    ensures r.Ok? ==> Inorder(Plug(r.value.ctx, r.value.x)) == Inorder(Plug(ctx, x))
    ensures r.Ok? ==> r.value.ctx == [] || ColorOf(r.value.x, r.value.nil) == Red
    ensures r.Ok? ==> flips <= r.value.flips
    ensures r.Ok? && nil == Black ==> r.value.nil == Black
    ensures r.Ok? ==> KeepsTopBlack(ctx, r.value.ctx)
    ensures ctx == [] || ColorOf(x, nil) == Red ==> r == Ok(Stop(x, ctx, nil, flips))
    decreases |ctx|, if ColorOf(x, nil) == Black then 1 else 0
  {
    if ctx == [] || ColorOf(x, nil) == Red then
      Ok(Stop(x, ctx, nil, flips))
    else
      var step :=
        if ctx[0].dir == Left then StepLeft(x, ctx, nil, flips)
        else if x.Nil? && ctx[0].sibling.Nil? then Raised
        else StepRight(x, ctx, nil, flips);
      match step
      case Raised => Raised
      case Ok(s) => FixDelete(s.x, s.ctx, s.nil, s.flips)
  }

  /** What `DeleteBook` can end in. `RaisedUnchanged`: an exception before
      any field was written (deleting the root, deleting a node with two
      children). `RaisedInFixup`: an exception inside `_delete_fixup`, after
      the tree was already partly rewritten. */
  datatype Deletion =
    | Deleted(tree: RBTree, cancelled: seq<Reservation>)
    | RaisedUnchanged
    | RaisedInFixup

  /** The reservations `DeleteBook` reports as cancelled: the heap's array
      in storage order, empty while the node still holds its initial list. */
  function Cancelled(b: Book): seq<Reservation>
  {
    if b.reservations.Some? then b.reservations.value else []
  }

  /** Removing a node with at most one real child from the in-order
      sequence: the child's subtree takes the node's place. */
  lemma SpliceInorder(ctx: seq<Frame>, z: Tree, x: Tree)
    requires z.Node? && ((z.left.Nil? && x == z.right) || (z.right.Nil? && x == z.left))
    ensures |Before(ctx)| + |Inorder(z.left)| < |Inorder(Plug(ctx, z))|
    ensures var i, s := |Before(ctx)| + |Inorder(z.left)|, Inorder(Plug(ctx, z));
      s[..i] + s[i + 1..] == Inorder(Plug(ctx, x))
  {
    PlugInorder(ctx, z);
    PlugInorder(ctx, x);
    assert Inorder(z) == Inorder(z.left) + [z.book] + Inorder(z.right);
    DropMiddle(Inorder(Plug(ctx, z)), Inorder(Plug(ctx, x)), Before(ctx), Inorder(z.left), z.book,
      Inorder(z.right), After(ctx), Inorder(x));
  }

  /** Dropping the middle element of `b + (l + [m] + r) + e`, where one of `l`, `r` is empty
      and `x` is the other, leaves `b + x + e`. */
  lemma DropMiddle<T>(s: seq<T>, s': seq<T>, b: seq<T>, l: seq<T>, m: T, r: seq<T>, e: seq<T>, x: seq<T>)
    requires (l == [] && x == r) || (r == [] && x == l)
    requires s == b + (l + [m] + r) + e && s' == b + x + e
    ensures |b| + |l| < |s| && s[..|b| + |l|] + s[|b| + |l| + 1..] == s'
  {
    assert s[..|b| + |l|] == b + l;
    assert s[|b| + |l| + 1..] == r + e;
  }


  /** Line 432, `x.color = "BLACK"`, once the loop has stopped; the tree
      is read back from the focus. */
  function FinishFixup(s: Stop): (r: RBTree)
    ensures r.root == Plug(s.ctx, Blacken(s.x)) && ColorOf(Blacken(s.x), r.nil) == Black
    ensures Inorder(r.root) == Inorder(Plug(s.ctx, s.x))
    ensures r.flips == s.flips
    ensures s.nil == Black ==> r.nil == Black
    ensures s.ctx == [] || Last(s.ctx).color == Black ==> RootBlack(r.root)
  {
    var x' := Blacken(s.x);
    PlugCongruence(s.ctx, x', s.x);
    TopBlackIsRootBlack(s.ctx, x');
    RBTree(Plug(s.ctx, x'), NilAfterBlacken(s.x, s.nil), s.flips)
  }

  /** Removing one element of a sorted sequence keeps it sorted, and every
      remaining element was there before. */
  lemma DropOne(s: seq<Book>, i: nat)
    requires i < |s|
    ensures Sorted(s) ==> Sorted(s[..i] + s[i + 1..])
    ensures forall b :: b in s[..i] + s[i + 1..] ==> b in s
  {
    var d := s[..i] + s[i + 1..];
    assert forall k :: 0 <= k < |d| ==> d[k] == s[if k < i then k else k + 1];
  }

  /** `DeleteBook(z)` (lines 344-373) for a real node `z`, the one `path`
      leads to. Splicing `z` out is `_transplant` (lines 374-381); its test
      `u.parent == self.NIL` never holds, because the root's parent is
      `None`, so for the root it reads `None.left` and raises. The
      two-children branch calls `self._minimum`, which does not exist.
      The counter update at lines 370-371 never fires: a red `x` stops the
      fixup's loop at once and line 432 blackens it, and a black `x` stays
      black, since lines 386-431 recolour only `x.parent`, `w` and `w`'s
      children and paint the shared NIL only BLACK. */
  function DeleteNode(T: RBTree, path: seq<Dir>): (r: Deletion)
    requires NodeAt(T.root, path)
    ensures path == [] ==> r == RaisedUnchanged
    ensures var z := SubtreeAt(T.root, path);
      z.left.Node? && z.right.Node? ==> r == RaisedUnchanged
    ensures var z := SubtreeAt(T.root, path);
      path != [] && (z.left.Nil? || z.right.Nil?) ==> r != RaisedUnchanged
    ensures r.Deleted? ==>
      var i := InorderIndex(T.root, path);
      Inorder(r.tree.root) == Inorder(T.root)[..i] + Inorder(T.root)[i + 1..]
    ensures r.Deleted? ==> r.cancelled == Cancelled(SubtreeAt(T.root, path).book)
    ensures r.Deleted? ==> T.flips <= r.tree.flips
    ensures r.Deleted? && T.nil == Black ==> r.tree.nil == Black
    ensures r.Deleted? && RootBlack(T.root) ==> RootBlack(r.tree.root)
    ensures var z := SubtreeAt(T.root, path);
      path != [] && (z.left.Nil? || z.right.Nil?) && z.color == Red ==>
        r.Deleted? && r.tree.flips == T.flips && r.tree.nil == T.nil
  {
    var u := Unzip(T.root, path);
    var z, ctx := u.0, u.1;
    if ctx == [] || (z.left.Node? && z.right.Node?) then
      RaisedUnchanged
    else
      var x := if z.left.Nil? then z.right else z.left;
      SpliceAt(T.root, path, x);
      PlugRoot(ctx, z);
      FixupAfterSplice(T, z, ctx, x)
  }

  /** Splicing out the node `path` leads to, which has the NIL child
      opposite `x`, drops exactly its in-order position. */
  lemma SpliceAt(t: Tree, path: seq<Dir>, x: Tree)
    requires NodeAt(t, path)
    requires var z := SubtreeAt(t, path); (z.left.Nil? && x == z.right) || (z.right.Nil? && x == z.left)
    ensures var i := InorderIndex(t, path);
      Inorder(Plug(Unzip(t, path).1, x)) == Inorder(t)[..i] + Inorder(t)[i + 1..]
  {
    var u := Unzip(t, path);
    SpliceInorder(u.1, u.0, x);
  }

  /** Lines 366-373, once `x` has taken the place of the removed node `z`
      under the frames `ctx`: the fixup runs only if `z` was black. */
  function FixupAfterSplice(T: RBTree, z: Tree, ctx: seq<Frame>, x: Tree): (r: Deletion)
    requires z.Node? && ctx != []
    ensures r.Deleted? ==> Inorder(r.tree.root) == Inorder(Plug(ctx, x))
    ensures r.Deleted? ==> r.cancelled == Cancelled(z.book)
    ensures r.Deleted? ==> T.flips <= r.tree.flips
    ensures r.Deleted? && T.nil == Black ==> r.tree.nil == Black
    ensures r.Deleted? && Last(ctx).color == Black ==> RootBlack(r.tree.root)
    ensures r != RaisedUnchanged
    ensures z.color == Red ==> r == Deleted(RBTree(Plug(ctx, x), T.nil, T.flips), Cancelled(z.book))
  {
    if z.color == Black then
      match FixDelete(x, ctx, T.nil, T.flips)
      case Raised => RaisedInFixup
      case Ok(s) => Deleted(FinishFixup(s), Cancelled(z.book))
    else
      PlugRoot(ctx, x);
      Deleted(RBTree(Plug(ctx, x), T.nil, T.flips), Cancelled(z.book))
  }

  /** `DeleteBook(z)` for whatever `search` returned: a real node, or the
      NIL sentinel for an id that is not stored. For NIL, `None ==
      self.NIL` fails at lines 347 and 350, so the two-children branch
      runs and raises at line 354 before anything is written. */
  function DeleteBook(T: RBTree, path: seq<Dir>): (r: Deletion)
    requires NodeAt(T.root, path) || NilAt(T.root, path)
    ensures !NodeAt(T.root, path) ==> r == RaisedUnchanged
    ensures path == [] ==> r == RaisedUnchanged
    ensures NodeAt(T.root, path) ==>
      var z := SubtreeAt(T.root, path);
      z.left.Node? && z.right.Node? ==> r == RaisedUnchanged
    ensures NodeAt(T.root, path) ==>
      var z := SubtreeAt(T.root, path);
      path != [] && (z.left.Nil? || z.right.Nil?) ==> r != RaisedUnchanged
    ensures r.Deleted? ==>
      && NodeAt(T.root, path)
      && var i := InorderIndex(T.root, path);
      && Inorder(r.tree.root) == Inorder(T.root)[..i] + Inorder(T.root)[i + 1..]
      && r.cancelled == Cancelled(SubtreeAt(T.root, path).book)
    ensures r.Deleted? ==> T.flips <= r.tree.flips
    ensures r.Deleted? && T.nil == Black ==> r.tree.nil == Black
    ensures r.Deleted? && RootBlack(T.root) ==> RootBlack(r.tree.root)
    ensures NodeAt(T.root, path) ==>
      var z := SubtreeAt(T.root, path);
      path != [] && (z.left.Nil? || z.right.Nil?) && z.color == Red ==>
        r.Deleted? && r.tree.flips == T.flips && r.tree.nil == T.nil
  {
    if NodeAt(T.root, path) then DeleteNode(T, path) else RaisedUnchanged
  }

  /** A deletion keeps search order, the black root and every reservation
      heap: the remaining books are the old ones minus one. */
  lemma DeleteKeepsValid(T: RBTree, path: seq<Dir>)
    requires NodeAt(T.root, path) || NilAt(T.root, path)
    requires Valid(T)
    ensures var r := DeleteBook(T, path); r.Deleted? ==> Valid(r.tree)
  {
    var r := DeleteBook(T, path);
    if r.Deleted? {
      var s, i := Inorder(T.root), InorderIndex(T.root, path);
      DropOne(s, i);
      assert Inorder(r.tree.root) == s[..i] + s[i + 1..];
      assert HeapsValid(r.tree.root) by {
        forall b | b in Inorder(r.tree.root) && b.reservations.Some?
          ensures IsHeap(b.reservations.value)
        {
          assert b in s;
        }
      }
    }
  }
}
