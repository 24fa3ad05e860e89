/** Red-black balance of insertion. With the sentinel RED, as the source
    builds it, balance fails after three insertions. With a BLACK sentinel,
    insertion keeps every red-black property. */
module Balance {
  import opened Outcomes
  import opened RedBlackTree
  import opened Insertion

  /** Black nodes on the leftmost path; the black height of a balanced tree. */
  function BlackHeight(t: Tree): nat
  {
    match t
    case Nil => 0
    case Node(c, l, _, _) => BlackHeight(l) + (if c == Black then 1 else 0)
  }

  predicate IsRed(t: Tree)
  {
    t.Node? && t.color == Red
  }

  /** Every path from a node down to the sentinel meets as many black nodes. */
  ghost predicate Balanced(t: Tree)
  {
    match t
    case Nil => true
    case Node(_, l, _, r) => Balanced(l) && Balanced(r) && BlackHeight(l) == BlackHeight(r)
  }

  /** No red node has a red child. */
  ghost predicate NoRedRed(t: Tree)
  {
    match t
    case Nil => true
    case Node(c, l, _, r) => NoRedRed(l) && NoRedRed(r) && (c == Red ==> !IsRed(l) && !IsRed(r))
  }

  /** The red-black invariant, including a black sentinel. */
  ghost predicate RedBlack(T: RBTree)
  {
    T.nil == Black && RootBlack(T.root) && Balanced(T.root) && NoRedRed(T.root)
  }

  /** The frames `ctx` accept a focus of black height `h`, red exactly
      when `focusRed`, without breaking balance or the no-red-red rule. */
  ghost predicate Fits(ctx: seq<Frame>, h: nat, focusRed: bool)
    decreases |ctx|
  {
    ctx == [] ||
    (var f := ctx[0];
     && Balanced(f.sibling) && NoRedRed(f.sibling) && BlackHeight(f.sibling) == h
     && (f.color == Red ==> !focusRed && !IsRed(f.sibling))
     && Fits(ctx[1..], h + (if f.color == Black then 1 else 0), f.color == Red))
  }

  /** A fitting focus makes a red-black tree. */
  lemma {:induction false} PlugRedBlack(ctx: seq<Frame>, t: Tree)
    requires Balanced(t) && NoRedRed(t) && Fits(ctx, BlackHeight(t), IsRed(t))
    ensures Balanced(Plug(ctx, t)) && NoRedRed(Plug(ctx, t))
    decreases |ctx|
  {
    if ctx != [] {
      var a := Attach(ctx[0], t);
      assert BlackHeight(a) == BlackHeight(t) + (if ctx[0].color == Black then 1 else 0);
      PlugRedBlack(ctx[1..], a);
    }
  }

  /** Conversely, every position of a red-black tree fits. */
  lemma {:induction false} UnplugRedBlack(ctx: seq<Frame>, t: Tree)
    requires Balanced(Plug(ctx, t)) && NoRedRed(Plug(ctx, t))
    ensures Balanced(t) && NoRedRed(t) && Fits(ctx, BlackHeight(t), IsRed(t))
    decreases |ctx|
  {
    if ctx != [] {
      var a := Attach(ctx[0], t);
      UnplugRedBlack(ctx[1..], a);
      assert BlackHeight(a) == BlackHeight(t) + (if ctx[0].color == Black then 1 else 0);
    }
  }

  /** Blackening the root keeps both properties. */
  lemma BlackenRedBlack(t: Tree)
    requires Balanced(t) && NoRedRed(t)
    ensures Balanced(Blacken(t)) && NoRedRed(Blacken(t)) && RootBlack(Blacken(t))
  {
  }

  /** The subtree `_fix_insert`'s black-uncle cases build in place of the
      grandparent, for a red node under a red parent. */
  function Restructured(n: Tree, p: Frame, g: Frame): Tree
    requires n.Node?
  {
    var s, u := p.sibling, g.sibling;
    if g.dir == Left then
      if p.dir == Left then Node(Black, n, p.book, Node(Red, s, g.book, u))
      else Node(Black, Node(Red, s, p.book, n.left), n.book, Node(Red, n.right, g.book, u))
    else
      if p.dir == Right then Node(Black, Node(Red, u, g.book, s), p.book, n)
      else Node(Black, Node(Red, u, g.book, n.left), n.book, Node(Red, n.right, p.book, s))
  }

  lemma RotateGrandparentShape(node: Tree, ctx: seq<Frame>, nil: Color, flips: nat)
    requires node.Node? && node.color == Red && |ctx| >= 2 && ctx[0].color == Red
    ensures RotateGrandparent(node, ctx, nil, flips).root == Blacken(Plug(ctx[2..], Restructured(node, ctx[0], ctx[1])))
  {
  }

  /** The restructured subtree is red-black, black-rooted, and as high as
      the grandparent's subtree was. */
  lemma RestructuredRedBlack(n: Tree, p: Frame, g: Frame, h: nat)
    requires n.Node? && n.color == Red && !IsRed(n.left) && !IsRed(n.right)
    requires Balanced(n) && NoRedRed(n) && BlackHeight(n) == h
    requires p.color == Red && g.color == Black && !IsRed(g.sibling)
    requires Balanced(p.sibling) && NoRedRed(p.sibling) && BlackHeight(p.sibling) == h && !IsRed(p.sibling)
    requires Balanced(g.sibling) && NoRedRed(g.sibling) && BlackHeight(g.sibling) == h
    ensures var t := Restructured(n, p, g);
      Balanced(t) && NoRedRed(t) && !IsRed(t) && BlackHeight(t) == h + 1
  {
    assert BlackHeight(n.left) == h && BlackHeight(n.right) == h;
  }

  /** The loop of `_fix_insert` restores the red-black invariant when the
      sentinel is black: `node` is red with black children and is the only
      possible red-red violation, against its parent. */
  lemma {:induction false} FixInsertRedBlack(node: Tree, ctx: seq<Frame>, flips: nat)
    requires node.Node? && node.color == Red && !IsRed(node.left) && !IsRed(node.right)
    requires Balanced(node) && NoRedRed(node)
    requires Fits(ctx, BlackHeight(node), false)
    requires ctx != [] ==> ctx[|ctx| - 1].color == Black
    ensures var r := FixInsert(node, ctx, Black, flips);
      r.Ok? && RedBlack(r.value)
    decreases |ctx|
  {
    var h := BlackHeight(node);
    if ctx == [] || ctx[0].color == Black {
      PlugRedBlack(ctx, node);
      BlackenRedBlack(Plug(ctx, node));
    } else if |ctx| == 1 {
    } else {
      var p, g := ctx[0], ctx[1];
      var parent := Attach(p, node);
      var uncle := g.sibling;
      assert g.color == Black;
      assert BlackHeight(parent) == h;
      assert Fits(ctx[2..], h + 1, false);
      if ColorOf(uncle, Black) == Red {
        var grand := Attach(Frame(g.dir, Red, g.book, Blacken(uncle)), parent.(color := Black));
        assert BlackHeight(uncle.left) == h;
        assert BlackHeight(grand) == h + 1;
        FixInsertRedBlack(grand, ctx[2..], flips + 1);
      } else {
        var top := Restructured(node, p, g);
        RotateGrandparentShape(node, ctx, Black, flips);
        RestructuredRedBlack(node, p, g, h);
        PlugRedBlack(ctx[2..], top);
        BlackenRedBlack(Plug(ctx[2..], top));
      }
    }
  }

  /** With a black sentinel, `InsertBook` keeps the red-black invariant. */
  lemma InsertKeepsRedBlack(T: RBTree, id: int, name: string, author: string, status: string,
                            borrowedBy: Option<int>)
    requires RedBlack(T)
    ensures var r := InsertBook(T, id, name, author, status, borrowedBy);
      r.Ok? && RedBlack(r.value)
  {
    var b := NewBook(id, name, author, status, borrowedBy);
    var ctx := Descend(T.root, id);
    UnplugRedBlack(ctx, Nil);
    if ctx != [] {
      PlugRoot(ctx, Nil);
    }
    FixInsertRedBlack(Node(Red, Nil, b, Nil), ctx, T.flips);
  }

  /** The library as evidently intended: the sentinel starts BLACK. */
  function EmptyIntended(): (r: RBTree)
    ensures r.root == Nil && r.flips == 0 && RedBlack(r)
  {
    RBTree(Nil, Black, 0)
  }

  /** As written: inserting 10, 20, 30 into a fresh tree recolours the red
      sentinel as if it were a red uncle, leaving a chain 10 (black), 20
      (black), 30 (red) whose left and right paths from the root differ in
      black height; recolouring the NIL "uncle" has turned the sentinel
      black. */
  lemma RedSentinelUnbalances()
    ensures var t1 := InsertBook(Empty(), 10, "", "", AVAILABLE, None);
      && t1.Ok?
      && var t2 := InsertBook(t1.value, 20, "", "", AVAILABLE, None);
      && t2.Ok?
      && var t3 := InsertBook(t2.value, 30, "", "", AVAILABLE, None);
      && t3.Ok?
      && t3.value.root == Node(Black, Nil, Blank(10), Node(Black, Nil, Blank(20), Node(Red, Nil, Blank(30), Nil)))
      && t3.value.nil == Black
      && !Balanced(t3.value.root)
  {
    var t1 := InsertBook(Empty(), 10, "", "", AVAILABLE, None);
    assert t1 == Ok(RBTree(Node(Black, Nil, Blank(10), Nil), Red, 0));
    var t2 := InsertBook(t1.value, 20, "", "", AVAILABLE, None);
    assert Descend(t1.value.root, 20) == [Frame(Right, Black, Blank(10), Nil)];
    assert t2 == Ok(RBTree(Node(Black, Nil, Blank(10), Node(Red, Nil, Blank(20), Nil)), Red, 0));
    var t3 := InsertBook(t2.value, 30, "", "", AVAILABLE, None);
    assert Descend(t2.value.root, 30) == [Frame(Right, Red, Blank(20), Nil), Frame(Right, Black, Blank(10), Nil)];
  }

  /** Intended: from a black sentinel the same insertions give 20 (black)
      with red children 10 and 30. */
  lemma BlackSentinelBalances()
    ensures var t1 := InsertBook(EmptyIntended(), 10, "", "", AVAILABLE, None);
      && t1.Ok?
      && var t2 := InsertBook(t1.value, 20, "", "", AVAILABLE, None);
      && t2.Ok?
      && var t3 := InsertBook(t2.value, 30, "", "", AVAILABLE, None);
      && t3.Ok?
      && t3.value.root == Node(Black, Node(Red, Nil, Blank(10), Nil), Blank(20), Node(Red, Nil, Blank(30), Nil))
      && RedBlack(t3.value)
  {
    var t1 := InsertBook(EmptyIntended(), 10, "", "", AVAILABLE, None);
    assert t1 == Ok(RBTree(Node(Black, Nil, Blank(10), Nil), Black, 0));
    var t2 := InsertBook(t1.value, 20, "", "", AVAILABLE, None);
    assert Descend(t1.value.root, 20) == [Frame(Right, Black, Blank(10), Nil)];
    assert t2 == Ok(RBTree(Node(Black, Nil, Blank(10), Node(Red, Nil, Blank(20), Nil)), Black, 0));
    var t3 := InsertBook(t2.value, 30, "", "", AVAILABLE, None);
    assert Descend(t2.value.root, 30) == [Frame(Right, Red, Blank(20), Nil), Frame(Right, Black, Blank(10), Nil)];
  }
}
