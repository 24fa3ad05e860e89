/** Red-black balance of deletion. With a BLACK sentinel, `DeleteBook` on a
    non-root node with a NIL child never raises inside `_delete_fixup` and
    leaves a red-black tree. The fixup's loop keeps `x` exactly one black
    node short of what its ancestors expect. */
module DeleteBalance {
  import opened Outcomes
  import opened RedBlackTree
  import opened TreeSearch
  import opened Deletion
  import opened Balance
  import opened Insertion

  /** The fixup's loop invariant: the frames expect a focus one black node
      higher than `x`, and `x` is red-black once its root is blackened (a
      red `x` may still sit under a red parent: line 432 blackens it). */
  ghost predicate Deficit(x: Tree, ctx: seq<Frame>)
  {
    Balanced(x) && NoRedRed(Blacken(x)) && Fits(ctx, BlackHeight(x) + 1, false)
  }

  /** Frames that accept a red focus accept a black one of the same height. */
  lemma FitsBlackFocus(ctx: seq<Frame>, h: nat)
    requires Fits(ctx, h, true)
    ensures Fits(ctx, h, false)
  {
  }

  /** A black node, or the black sentinel, of black height `h + 1` is a real
      node whose children have black height `h`. */
  lemma BlackSibling(w: Tree, h: nat)
    requires Balanced(w) && !IsRed(w) && BlackHeight(w) == h + 1
    ensures w.Node? && w.color == Black
    ensures BlackHeight(w.left) == h && BlackHeight(w.right) == h
  {
  }

  /** Cases 3 and 4 with `x` on the left: the subtree that replaces the
      parent. `w3` is the sibling after case 3, with a red far child. */
  lemma FarRedLeft(x: Tree, p: Frame, w3: Tree, h: nat)
    requires Balanced(x) && NoRedRed(x) && BlackHeight(x) == h
    requires w3.Node? && IsRed(w3.right) && !IsRed(w3.right.left) && !IsRed(w3.right.right)
    requires Balanced(w3.left) && NoRedRed(w3.left) && BlackHeight(w3.left) == h
    requires Balanced(w3.right) && NoRedRed(w3.right) && BlackHeight(w3.right) == h
    ensures var top := Node(p.color, Node(Black, x, p.book, w3.left), w3.book, Blacken(w3.right));
      && Balanced(top) && NoRedRed(top)
      && BlackHeight(top) == h + 1 + (if p.color == Black then 1 else 0)
      && IsRed(top) == (p.color == Red)
  {
    assert BlackHeight(w3.right.left) == h;
  }

  /** The mirror image of `FarRedLeft`. */
  lemma FarRedRight(x: Tree, p: Frame, w3: Tree, h: nat)
    requires Balanced(x) && NoRedRed(x) && BlackHeight(x) == h
    requires w3.Node? && IsRed(w3.left) && !IsRed(w3.left.left) && !IsRed(w3.left.right)
    requires Balanced(w3.left) && NoRedRed(w3.left) && BlackHeight(w3.left) == h
    requires Balanced(w3.right) && NoRedRed(w3.right) && BlackHeight(w3.right) == h
    ensures var top := Node(p.color, Blacken(w3.left), w3.book, Node(Black, w3.right, p.book, x));
      && Balanced(top) && NoRedRed(top)
      && BlackHeight(top) == h + 1 + (if p.color == Black then 1 else 0)
      && IsRed(top) == (p.color == Red)
  {
    assert BlackHeight(w3.left.left) == h;
  }

  /** Case 3 with `x` on the left: a black sibling with a red child has,
      after `w` is rotated right if its far child is black, a red far child
      and keeps its black height. */
  lemma NearRedLeft(w: Tree, h: nat) returns (w3: Tree)
    requires w.Node? && w.color == Black && Balanced(w) && NoRedRed(w) && BlackHeight(w) == h + 1
    requires ColorOf(w.left, Black) == Red || ColorOf(w.right, Black) == Red
    ensures w3 == if ColorOf(w.right, Black) == Black
      then Node(Black, w.left.left, w.left.book, Node(Red, w.left.right, w.book, w.right)) else w
    ensures w3.Node? && IsRed(w3.right) && !IsRed(w3.right.left) && !IsRed(w3.right.right)
    ensures Balanced(w3.left) && NoRedRed(w3.left) && BlackHeight(w3.left) == h
    ensures Balanced(w3.right) && NoRedRed(w3.right) && BlackHeight(w3.right) == h
  {
    if ColorOf(w.right, Black) == Black {
      assert BlackHeight(w.left.left) == h;
      w3 := Node(Black, w.left.left, w.left.book, Node(Red, w.left.right, w.book, w.right));
    } else {
      w3 := w;
    }
  }

  /** The mirror image of `NearRedLeft`. */
  lemma NearRedRight(w: Tree, h: nat) returns (w3: Tree)
    requires w.Node? && w.color == Black && Balanced(w) && NoRedRed(w) && BlackHeight(w) == h + 1
    requires ColorOf(w.left, Black) == Red || ColorOf(w.right, Black) == Red
    ensures w3 == if ColorOf(w.left, Black) == Black
      then Node(Black, Node(Red, w.left, w.book, w.right.left), w.right.book, w.right.right) else w
    ensures w3.Node? && IsRed(w3.left) && !IsRed(w3.left.left) && !IsRed(w3.left.right)
    ensures Balanced(w3.left) && NoRedRed(w3.left) && BlackHeight(w3.left) == h
    ensures Balanced(w3.right) && NoRedRed(w3.right) && BlackHeight(w3.right) == h
  {
    if ColorOf(w.left, Black) == Black {
      assert BlackHeight(w.right.left) == h;
      w3 := Node(Black, Node(Red, w.left, w.book, w.right.left), w.right.book, w.right.right);
    } else {
      w3 := w;
    }
  }

  /** Cases 2-4 with `x` on the left and a black sibling keep the invariant
      and never raise. */
  lemma SiblingCasesLeftKeeps(x: Tree, ctx: seq<Frame>, flips: nat)
    requires ctx != [] && ctx[0].dir == Left && !IsRed(ctx[0].sibling)
    requires !IsRed(x) && Deficit(x, ctx)
    ensures var r := SiblingCasesLeft(x, ctx, Black, flips);
      r.Ok? && r.value.nil == Black && Deficit(r.value.x, r.value.ctx)
  {
    var h := BlackHeight(x);
    var p, w := ctx[0], ctx[0].sibling;
    var hp := h + 1 + (if p.color == Black then 1 else 0);
    assert Fits(ctx[1..], hp, p.color == Red);
    BlackSibling(w, h);
    if ColorOf(w.left, Black) == Black && ColorOf(w.right, Black) == Black {
      var up := Node(p.color, x, p.book, w.(color := Red));
      assert BlackHeight(up) + 1 == hp;
      if p.color == Red {
        FitsBlackFocus(ctx[1..], hp);
      }
    } else {
      var w3 := NearRedLeft(w, h);
      FarRedLeft(x, p, w3, h);
      var top := Node(p.color, Node(Black, x, p.book, w3.left), w3.book, Blacken(w3.right));
      PlugRedBlack(ctx[1..], top);
      BlackenRedBlack(Plug(ctx[1..], top));
    }
  }

  /** Cases 2-4 with `x` on the right, the mirror image. */
  lemma SiblingCasesRightKeeps(x: Tree, ctx: seq<Frame>, flips: nat)
    requires ctx != [] && ctx[0].dir == Right && !IsRed(ctx[0].sibling)
    requires !IsRed(x) && Deficit(x, ctx)
    ensures var r := SiblingCasesRight(x, ctx, Black, flips);
      r.Ok? && r.value.nil == Black && Deficit(r.value.x, r.value.ctx)
  {
    var h := BlackHeight(x);
    var p, w := ctx[0], ctx[0].sibling;
    var hp := h + 1 + (if p.color == Black then 1 else 0);
    assert Fits(ctx[1..], hp, p.color == Red);
    BlackSibling(w, h);
    if ColorOf(w.right, Black) == Black && ColorOf(w.left, Black) == Black {
      var up := Node(p.color, w.(color := Red), p.book, x);
      assert BlackHeight(up) + 1 == hp;
      if p.color == Red {
        FitsBlackFocus(ctx[1..], hp);
      }
    } else {
      var w3 := NearRedRight(w, h);
      FarRedRight(x, p, w3, h);
      var top := Node(p.color, Blacken(w3.left), w3.book, Node(Black, w3.right, p.book, x));
      PlugRedBlack(ctx[1..], top);
      BlackenRedBlack(Plug(ctx[1..], top));
    }
  }

  /** Case 1 with `x` on the left: after the rotation `x` is still one
      black node short, now under a red parent with a black sibling. */
  lemma RedSiblingLeftKeeps(x: Tree, ctx: seq<Frame>, flips: nat)
    requires ctx != [] && ctx[0].dir == Left && IsRed(ctx[0].sibling)
    requires !IsRed(x) && Deficit(x, ctx)
    ensures var ctx1 := RedSiblingLeft(x, ctx, flips).0;
      ctx1[0].dir == Left && !IsRed(ctx1[0].sibling) && Deficit(x, ctx1)
  {
    var h := BlackHeight(x);
    var w := ctx[0].sibling;
    assert ctx[0].color == Black;
    assert Fits(ctx[1..], h + 2, false);
    assert BlackHeight(w.left) == h + 1;
    var ctx1 := RedSiblingLeft(x, ctx, flips).0;
    assert ctx1 == [Frame(Left, Red, ctx[0].book, w.left), Frame(Left, Black, w.book, w.right)] + ctx[1..];
    assert ctx1[1..][1..] == ctx[1..];
  }

  /** Case 1 with `x` on the right, the mirror image. */
  lemma RedSiblingRightKeeps(x: Tree, ctx: seq<Frame>, flips: nat)
    requires ctx != [] && ctx[0].dir == Right && IsRed(ctx[0].sibling)
    requires !IsRed(x) && Deficit(x, ctx)
    ensures var ctx1 := RedSiblingRight(x, ctx, flips).0;
      ctx1[0].dir == Right && !IsRed(ctx1[0].sibling) && Deficit(x, ctx1)
  {
    var h := BlackHeight(x);
    var w := ctx[0].sibling;
    assert ctx[0].color == Black;
    assert Fits(ctx[1..], h + 2, false);
    assert BlackHeight(w.right) == h + 1;
    var ctx1 := RedSiblingRight(x, ctx, flips).0;
    assert ctx1 == [Frame(Right, Red, ctx[0].book, w.right), Frame(Right, Black, w.book, w.left)] + ctx[1..];
    assert ctx1[1..][1..] == ctx[1..];
  }

  /** One pass of the loop body keeps the invariant and never raises. */
  lemma StepKeeps(x: Tree, ctx: seq<Frame>, flips: nat)
    requires ctx != [] && !IsRed(x) && Deficit(x, ctx)
    ensures ctx[0].dir == Left ==>
      var r := StepLeft(x, ctx, Black, flips);
      r.Ok? && r.value.nil == Black && Deficit(r.value.x, r.value.ctx)
    ensures ctx[0].dir == Right ==>
      && ctx[0].sibling.Node?
      && var r := StepRight(x, ctx, Black, flips);
      r.Ok? && r.value.nil == Black && Deficit(r.value.x, r.value.ctx)
  {
    var w := ctx[0].sibling;
    assert BlackHeight(w) == BlackHeight(x) + 1;
    if ctx[0].dir == Left {
      if IsRed(w) {
        RedSiblingLeftKeeps(x, ctx, flips);
        var (ctx1, f1) := RedSiblingLeft(x, ctx, flips);
        SiblingCasesLeftKeeps(x, ctx1, f1);
      } else {
        SiblingCasesLeftKeeps(x, ctx, flips);
      }
    } else {
      if IsRed(w) {
        RedSiblingRightKeeps(x, ctx, flips);
        var (ctx1, f1) := RedSiblingRight(x, ctx, flips);
        SiblingCasesRightKeeps(x, ctx1, f1);
      } else {
        SiblingCasesRightKeeps(x, ctx, flips);
      }
    }
  }

  /** With a black sentinel, `_delete_fixup`'s loop never raises and stops
      with the invariant intact. */
  lemma {:induction false} FixDeleteKeeps(x: Tree, ctx: seq<Frame>, flips: nat)
    requires Deficit(x, ctx)
    ensures var r := FixDelete(x, ctx, Black, flips);
      r.Ok? && r.value.nil == Black && Deficit(r.value.x, r.value.ctx)
    decreases |ctx|, if ColorOf(x, Black) == Black then 1 else 0
  {
    if ctx != [] && ColorOf(x, Black) == Black {
      StepKeeps(x, ctx, flips);
      var step := if ctx[0].dir == Left then StepLeft(x, ctx, Black, flips) else StepRight(x, ctx, Black, flips);
      FixDeleteKeeps(step.value.x, step.value.ctx, step.value.flips);
    }
  }

  /** With a black sentinel, deleting a non-root node that has a NIL child
      from a red-black tree succeeds and leaves a red-black tree. */
  lemma DeleteKeepsRedBlack(T: RBTree, path: seq<Dir>)
    requires RedBlack(T) && NodeAt(T.root, path) && path != []
    requires SubtreeAt(T.root, path).left.Nil? || SubtreeAt(T.root, path).right.Nil?
    ensures var r := DeleteBook(T, path);
      r.Deleted? && RedBlack(r.tree)
  {
    var (z, ctx) := Unzip(T.root, path);
    var x := if z.left.Nil? then z.right else z.left;
    PlugRoot(ctx, z);
    FixupAfterSpliceRedBlack(T, z, ctx, x);
  }

  /** Lines 366-373 with a black sentinel: once a node with a NIL child is
      spliced out of a red-black tree, the fixup succeeds and the tree is
      red-black again. */
  lemma FixupAfterSpliceRedBlack(T: RBTree, z: Tree, ctx: seq<Frame>, x: Tree)
    requires T.nil == Black && z.Node? && ctx != [] && Last(ctx).color == Black
    requires (z.left.Nil? && x == z.right) || (z.right.Nil? && x == z.left)
    requires Balanced(Plug(ctx, z)) && NoRedRed(Plug(ctx, z))
    ensures var r := FixupAfterSplice(T, z, ctx, x);
      r.Deleted? && RedBlack(r.tree)
  {
    UnplugRedBlack(ctx, z);
    if z.color == Red {
      assert x == Nil;
      FitsBlackFocus(ctx, 0);
      PlugRedBlack(ctx, x);
      TopBlackIsRootBlack(ctx, x);
    } else {
      BlackenRedBlack(x);
      FixDeleteKeeps(x, ctx, T.flips);
      var s := FixDelete(x, ctx, Black, T.flips).value;
      if s.ctx != [] {
        PlugRedBlack(s.ctx, Blacken(s.x));
      }
    }
  }

  /** In the chains 10, 20, 30 and 10, 20 the lookup reaches 30 and 20
      by going right from the root. */
  lemma ChainPaths()
    ensures FindPath(Node(Black, Nil, Blank(10), Node(Black, Nil, Blank(20), Node(Red, Nil, Blank(30), Nil))), 30)
      == Some([Right, Right])
    ensures FindPath(Node(Black, Nil, Blank(10), Node(Black, Nil, Blank(20), Nil)), 20) == Some([Right])
  {
    var z := Node(Red, Nil, Blank(30), Nil);
    assert FindPath(z, 30) == Some([]);
    assert [Right] + [] == [Right];
    assert FindPath(Node(Black, Nil, Blank(20), z), 30) == Some([Right]);
    assert [Right] + [Right] == [Right, Right];
    assert FindPath(Node(Black, Nil, Blank(20), Nil), 20) == Some([]);
  }

  /** Deleting the red leaf 30 from the chain 10, 20, 30 leaves the chain
      10 (black), 20 (black). */
  lemma DeleteRedLeafOfChain(flips: nat)
    ensures var T := RBTree(Node(Black, Nil, Blank(10), Node(Black, Nil, Blank(20), Node(Red, Nil, Blank(30), Nil))), Black, flips);
      && DeleteBook(T, [Right, Right]) == Deleted(RBTree(Node(Black, Nil, Blank(10), Node(Black, Nil, Blank(20), Nil)), Black, flips), [])
  {
    var z := Node(Red, Nil, Blank(30), Nil);
    var ctx := [Frame(Right, Black, Blank(20), Nil), Frame(Right, Black, Blank(10), Nil)];
    var T := RBTree(Plug(ctx, z), Black, flips);
    ChainUnzip();
    assert FixupAfterSplice(T, z, ctx, Nil) == Deleted(RBTree(Plug(ctx, Nil), Black, flips), []);
  }

  /** The red leaf 30 of the chain 10, 20, 30 sits below the frames of 20
      and 10. */
  lemma ChainUnzip()
    ensures var z := Node(Red, Nil, Blank(30), Nil);
      var ctx := [Frame(Right, Black, Blank(20), Nil), Frame(Right, Black, Blank(10), Nil)];
      && Plug(ctx, z) == Node(Black, Nil, Blank(10), Node(Black, Nil, Blank(20), z))
      && Unzip(Plug(ctx, z), [Right, Right]) == (z, ctx)
  {
    var z := Node(Red, Nil, Blank(30), Nil);
    var n20 := Node(Black, Nil, Blank(20), z);
    var root := Node(Black, Nil, Blank(10), n20);
    var ctx := [Frame(Right, Black, Blank(20), Nil), Frame(Right, Black, Blank(10), Nil)];
    assert [Right, Right][1..] == [Right] && [Right][1..] == [];
    assert Unzip(z, []) == (z, []);
    assert Child(n20, Right) == z && [] + [ctx[0]] == [ctx[0]];
    assert Unzip(n20, [Right]) == (z, [ctx[0]]);
    assert Child(root, Right) == n20 && [ctx[0]] + [ctx[1]] == ctx;
    assert Unzip(root, [Right, Right]) == (z, ctx);
  }

  /** Deleting 20 from the chain 10, 20: `x` is NIL on the right of 10,
      whose left child is NIL too, so the fixup raises. */
  lemma DeleteFromChainRaises(flips: nat)
    ensures var T := RBTree(Node(Black, Nil, Blank(10), Node(Black, Nil, Blank(20), Nil)), Black, flips);
      && DeleteBook(T, [Right]) == RaisedInFixup
  {
    var z := Node(Black, Nil, Blank(20), Nil);
    var root := Node(Black, Nil, Blank(10), z);
    var ctx := [Frame(Right, Black, Blank(10), Nil)];
    assert [Right][1..] == [];
    assert Unzip(z, []) == (z, []);
    assert Child(root, Right) == z && [] + ctx == ctx;
    assert Unzip(root, [Right]) == (z, ctx);
    assert FixDelete(Nil, ctx, Black, flips) == Raised;
  }

  /** As written, the red sentinel also makes an ordinary deletion raise.
      Inserting 10, 20, 30 leaves the chain 10 (black), 20 (black), 30
      (red) and turns the sentinel black. Deleting 30, found by its id,
      removes a red leaf. Deleting 20 then hands `_delete_fixup` a NIL `x`
      on the right of 10, whose left child is NIL too: the identity test at
      line 386 takes the left branch, `w` is NIL and line 394 raises. */
  lemma RedSentinelDeleteRaises()
    ensures var t1 := InsertBook(Empty(), 10, "", "", AVAILABLE, None);
      && t1.Ok?
      && var t2 := InsertBook(t1.value, 20, "", "", AVAILABLE, None);
      && t2.Ok?
      && var t3 := InsertBook(t2.value, 30, "", "", AVAILABLE, None);
      && t3.Ok?
      && FindPath(t3.value.root, 30) == Some([Right, Right])
      && var d1 := DeleteBook(t3.value, [Right, Right]);
      && d1.Deleted?
      && FindPath(d1.tree.root, 20) == Some([Right])
      && DeleteBook(d1.tree, [Right]) == RaisedInFixup
  {
    RedSentinelUnbalances();
    var t1 := InsertBook(Empty(), 10, "", "", AVAILABLE, None);
    var t2 := InsertBook(t1.value, 20, "", "", AVAILABLE, None);
    var t3 := InsertBook(t2.value, 30, "", "", AVAILABLE, None);
    ChainPaths();
    DeleteRedLeafOfChain(t3.value.flips);
    DeleteFromChainRaises(t3.value.flips);
  }
}
