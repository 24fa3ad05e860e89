/** Exact lookup (`_find_book`, `search`/`_search`) and the positions it
    returns, plus the in-place update of the book stored at a position
    (what `BorrowBook`/`ReturnBook` do to the node they found). */
module TreeSearch {
  import opened Outcomes
  import opened RedBlackTree

  /** `_find_book`: descend from `t`, left when the id is smaller, right
      otherwise, and stop at the first node whose id matches. */
  function FindBook(t: Tree, id: int): (r: Option<Book>)
    ensures r.Some? ==> r.value.id == id && r.value in Inorder(t)
  {
    match t
    case Nil => None
    case Node(_, l, b, rt) =>
      if b.id == id then Some(b)
      else if id < b.id then FindBook(l, id)
      else FindBook(rt, id)
  }

  /** In a search tree the lookup finds an id exactly when some stored book
      carries it. */
  lemma {:induction false} FindBookComplete(t: Tree, id: int)
    requires IsBST(t)
    ensures FindBook(t, id).Some? <==> exists b :: b in Inorder(t) && b.id == id
  {
    match t
    case Nil =>
    case Node(_, l, b, rt) =>
      SortedSplit(Inorder(l), b, Inorder(rt));
      if b.id != id {
        if id < b.id {
          FindBookComplete(l, id);
        } else {
          FindBookComplete(rt, id);
        }
      }
  }

  /** `search`/`_search`: the same descent as a loop; `None` stands for the
      NIL sentinel the source returns on a miss. */
  method Search(t: Tree, key: int) returns (r: Option<Book>)
    ensures r == FindBook(t, key)
    ensures IsBST(t) ==> (r.Some? <==> exists b :: b in Inorder(t) && b.id == key)
  {
    var node := t;
    while node.Node? && key != node.book.id
      invariant FindBook(node, key) == FindBook(t, key)
      decreases node
    {
      if key < node.book.id {
        node := node.left;
      } else {
        node := node.right;
      }
    }
    r := if node.Nil? then None else Some(node.book);
    if IsBST(t) {
      FindBookComplete(t, key);
    }
  }

  // ---------------------------------------------------------------------
  // Positions given as a path of directions from the root
  // ---------------------------------------------------------------------

  function Child(t: Tree, d: Dir): Tree
    requires t.Node?
  {
    if d == Left then t.left else t.right
  }

  /** `path` leads from the root of `t` to a real node. */
  predicate NodeAt(t: Tree, path: seq<Dir>)
    decreases |path|
  {
    t.Node? && (path == [] || NodeAt(Child(t, path[0]), path[1..]))
  }

  /** `path` leads from the root of `t` to the NIL sentinel, which is what
      `search` returns for an id that is not stored. */
  predicate NilAt(t: Tree, path: seq<Dir>)
    decreases |path|
  {
    if path == [] then t.Nil? else t.Node? && NilAt(Child(t, path[0]), path[1..])
  }

  /** The node `path` leads to. */
  function SubtreeAt(t: Tree, path: seq<Dir>): (r: Tree)
    requires NodeAt(t, path)
    ensures r.Node?
    decreases |path|
  {
    if path == [] then t else SubtreeAt(Child(t, path[0]), path[1..])
  }

  /** The index in `Inorder(t)` of the node `path` leads to. */
  function InorderIndex(t: Tree, path: seq<Dir>): (i: nat)
    requires NodeAt(t, path)
    ensures i < |Inorder(t)|
    ensures Inorder(t)[i] == SubtreeAt(t, path).book
    decreases |path|
  {
    if path == [] then |Inorder(t.left)|
    else if path[0] == Left then InorderIndex(t.left, path[1..])
    else |Inorder(t.left)| + 1 + InorderIndex(t.right, path[1..])
  }

  /** Same node colours in the same places. */
  ghost predicate SameShape(t: Tree, u: Tree)
  {
    match t
    case Nil => u.Nil?
    case Node(c, l, _, r) => u.Node? && u.color == c && SameShape(l, u.left) && SameShape(r, u.right)
  }

  /** The position `_find_book` stops at. */
  function FindPath(t: Tree, id: int): (r: Option<seq<Dir>>)
    ensures r.Some? <==> FindBook(t, id).Some?
    ensures r.Some? ==> NodeAt(t, r.value) && SubtreeAt(t, r.value).book == FindBook(t, id).value
  {
    match t
    case Nil => None
    case Node(_, l, b, rt) =>
      if b.id == id then Some([])
      else if id < b.id then
        (match FindPath(l, id) case None => None case Some(p) => Some([Left] + p))
      else
        (match FindPath(rt, id) case None => None case Some(p) => Some([Right] + p))
  }

  /** Overwrite the book of the node at `path`; colours, shape and every
      other book stay as they were. */
  function ReplaceAt(t: Tree, path: seq<Dir>, b: Book): (r: Tree)
    requires NodeAt(t, path)
    ensures NodeAt(r, path) && SubtreeAt(r, path).book == b
    ensures Inorder(r) == Inorder(t)[InorderIndex(t, path) := b]
    ensures SameShape(t, r)
    decreases |path|
  {
    if path == [] then
      SameShapeRefl(t.left);
      SameShapeRefl(t.right);
      t.(book := b)
    else if path[0] == Left then
      SameShapeRefl(t.right);
      t.(left := ReplaceAt(t.left, path[1..], b))
    else
      SameShapeRefl(t.left);
      t.(right := ReplaceAt(t.right, path[1..], b))
  }

  lemma {:induction false} SameShapeRefl(t: Tree)
    ensures SameShape(t, t)
  {
    match t
    case Nil =>
    case Node(_, l, _, r) => SameShapeRefl(l); SameShapeRefl(r);
  }

  /** After overwriting the book `_find_book` found with one of the same id,
      the lookup finds the new book. */
  lemma {:induction false} FindAfterReplace(t: Tree, id: int, b: Book)
    requires FindPath(t, id).Some? && b.id == id
    ensures FindBook(ReplaceAt(t, FindPath(t, id).value, b), id) == Some(b)
  {
    var p := FindPath(t, id).value;
    if t.book.id != id {
      if id < t.book.id {
        assert p == [Left] + FindPath(t.left, id).value;
        assert p[1..] == FindPath(t.left, id).value;
        FindAfterReplace(t.left, id, b);
      } else {
        assert p == [Right] + FindPath(t.right, id).value;
        assert p[1..] == FindPath(t.right, id).value;
        FindAfterReplace(t.right, id, b);
      }
    }
  }

  /** Overwriting a book with one of the same id keeps search order. */
  lemma ReplaceKeepsOrder(t: Tree, path: seq<Dir>, b: Book)
    requires NodeAt(t, path) && IsBST(t)
    requires b.id == SubtreeAt(t, path).book.id
    ensures IsBST(ReplaceAt(t, path, b))
  {
    var s := Inorder(t);
    var i := InorderIndex(t, path);
    var s' := s[i := b];
    assert Inorder(ReplaceAt(t, path, b)) == s';
    forall j, k | 0 <= j < k < |s'|
      ensures s'[j].id <= s'[k].id
    {
      assert s'[j].id == s[j].id && s'[k].id == s[k].id;
    }
  }

  /** Overwriting a book with one whose reservations form a heap keeps
      every reservation array a heap. */
  lemma ReplaceKeepsHeaps(t: Tree, path: seq<Dir>, b: Book)
    requires NodeAt(t, path) && HeapsValid(t)
    requires b.reservations.Some? ==> ReservationHeap.IsHeap(b.reservations.value)
    ensures HeapsValid(ReplaceAt(t, path, b))
  {
    var s := Inorder(t);
    var i := InorderIndex(t, path);
    assert Inorder(ReplaceAt(t, path, b)) == s[i := b];
    forall x | x in s[i := b]
      ensures x == b || x in s
    {
      var j :| 0 <= j < |s[i := b]| && s[i := b][j] == x;
      if j != i {
        assert x == s[j];
      }
    }
  }

  /** Overwriting a book never changes the root's colour. */
  lemma ReplaceKeepsRootColor(t: Tree, path: seq<Dir>, b: Book)
    requires NodeAt(t, path)
    ensures RootBlack(ReplaceAt(t, path, b)) <==> RootBlack(t)
  {
  }
}
