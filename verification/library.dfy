/** The lending state machine of `GatorLibrary`: `BorrowBook` and
    `ReturnBook` find a book by id, then update that one book in place.
    The clock reading `time.time()` is the parameter `now`; printed
    messages are the returned outcome. */
module Library {
  import opened Outcomes
  import opened ReservationHeap
  import opened RedBlackTree
  import opened TreeSearch
  import opened Balance

  datatype BorrowOutcome = Granted | Reserved | BorrowNotFound

  datatype ReturnOutcome =
    | ReturnNotFound
    | NotHolder
    | Released
    | Assigned(to: Reservation)
      /** `pop()` returned `None` from an emptied heap and unpacking it
          raised; the book had already been marked available. */
    | RaisedOnEmptyHeap

  /** `t2` is `t` with the book `_find_book(id)` reaches replaced by `b`,
      which `_find_book(id)` now returns; every other book is unchanged. */
  ghost predicate UpdatesBook(t: Tree, t2: Tree, id: int, b: Book)
  {
    && FindPath(t, id).Some?
    && Inorder(t2) == Inorder(t)[InorderIndex(t, FindPath(t, id).value) := b]
    && FindBook(t2, id) == Some(b)
  }

  /** Write `b` over the book found for `b.id`, keeping the invariant. */
  function Store(T: RBTree, b: Book): (T2: RBTree)
    requires FindPath(T.root, b.id).Some?
    requires b.reservations.Some? ==> IsHeap(b.reservations.value)
    ensures UpdatesBook(T.root, T2.root, b.id, b)
    ensures SameShape(T.root, T2.root)
    ensures T2.flips == T.flips && T2.nil == T.nil
  {
    FindAfterReplace(T.root, b.id, b);
    T.(root := ReplaceAt(T.root, FindPath(T.root, b.id).value, b))
  }

  /** Overwriting one book with one of the same id whose reservations form
      a heap keeps search order, the black root and every heap. */
  lemma StoreKeepsValid(T: RBTree, b: Book)
    requires Valid(T) && FindPath(T.root, b.id).Some?
    requires b.reservations.Some? ==> IsHeap(b.reservations.value)
    ensures Valid(Store(T, b))
  {
    var path := FindPath(T.root, b.id).value;
    ReplaceKeepsRootColor(T.root, path, b);
    ReplaceKeepsOrder(T.root, path, b);
    ReplaceKeepsHeaps(T.root, path, b);
  }

  /** Trees with the same colours in the same places have the same black
      heights, so one is balanced, free of red-red pairs or black at the
      root exactly when the other is. */
  lemma {:induction false} SameShapeKeepsColors(t: Tree, u: Tree)
    requires SameShape(t, u)
    ensures BlackHeight(t) == BlackHeight(u)
    ensures Balanced(t) <==> Balanced(u)
    ensures NoRedRed(t) <==> NoRedRed(u)
    ensures RootBlack(t) <==> RootBlack(u)
  {
    match t
    case Nil =>
    case Node(_, l, _, r) =>
      SameShapeKeepsColors(l, u.left);
      SameShapeKeepsColors(r, u.right);
  }

  /** A borrow or a return rewrites only payloads, so with the sentinel
      kept it keeps a red-black tree red-black. */
  lemma SameShapeKeepsRedBlack(T: RBTree, T2: RBTree)
    requires SameShape(T.root, T2.root) && T2.nil == T.nil
    ensures RedBlack(T) <==> RedBlack(T2)
  {
    SameShapeKeepsColors(T.root, T2.root);
  }

  /** `BorrowBook`: an available book is lent at once; otherwise a
      reservation `(patron, priority, now)` is pushed onto the book's heap,
      creating the heap on first use. */
  method BorrowBook(T: RBTree, patron: int, id: int, priority: int, now: int)
    returns (T2: RBTree, out: BorrowOutcome)
    requires HeapsValid(T.root)
    ensures T2.flips == T.flips && T2.nil == T.nil
    ensures SameShape(T.root, T2.root)
    ensures Valid(T) ==> Valid(T2)
    ensures out == BorrowNotFound <==> FindBook(T.root, id).None?
    ensures out == BorrowNotFound ==> T2 == T
    ensures out == Granted <==> FindBook(T.root, id).Some? && FindBook(T.root, id).value.status == AVAILABLE
    ensures out == Granted ==>
      var b := FindBook(T.root, id).value;
      UpdatesBook(T.root, T2.root, id, b.(status := BORROWED, borrowedBy := Some(patron)))
    ensures out == Reserved ==>
      var b := FindBook(T.root, id).value;
      var before := if b.reservations.Some? then b.reservations.value else [];
      exists h :: (&& IsHeap(h)
        && multiset(h) == multiset(before) + multiset{Reservation(patron, priority, now)}
        && UpdatesBook(T.root, T2.root, id, b.(reservations := Some(h))))
  {
    SameShapeRefl(T.root);
    var path := FindPath(T.root, id);
    if path.None? {
      return T, BorrowNotFound;
    }
    var b := SubtreeAt(T.root, path.value).book;
    assert b in Inorder(T.root);
    if b.status == AVAILABLE {
      var lent := b.(status := BORROWED, borrowedBy := Some(patron));
      T2 := Store(T, lent);
      if Valid(T) { StoreKeepsValid(T, lent); }
      out := Granted;
    } else {
      var before := if b.reservations.Some? then b.reservations.value else [];
      var h := Push(before, Reservation(patron, priority, now));
      var queued := b.(reservations := Some(h));
      T2 := Store(T, queued);
      if Valid(T) { StoreKeepsValid(T, queued); }
      out := Reserved;
    }
  }

  /** The holder test of `ReturnBook`. */
  predicate HeldBy(b: Book, patron: int)
  {
    b.status == BORROWED && b.borrowedBy == Some(patron)
  }

  /** `ReturnBook` as written: only the holder can return. The book becomes
      available; if the node has a heap at all (an emptied `MinHeap` is
      still truthy) its minimum is popped and the book lent to that patron.
      When the heap is empty, `pop()` gives `None` and the unpacking raises
      after the book was already released. */
  method ReturnBook(T: RBTree, patron: int, id: int) returns (T2: RBTree, out: ReturnOutcome)
    requires HeapsValid(T.root)
    ensures T2.flips == T.flips && T2.nil == T.nil
    ensures SameShape(T.root, T2.root)
    ensures Valid(T) ==> Valid(T2)
    ensures out == ReturnNotFound <==> FindBook(T.root, id).None?
    ensures out == NotHolder <==> FindBook(T.root, id).Some? && !HeldBy(FindBook(T.root, id).value, patron)
    ensures out in {ReturnNotFound, NotHolder} ==> T2 == T
    ensures out == Released <==>
      FindBook(T.root, id).Some? && HeldBy(FindBook(T.root, id).value, patron)
      && FindBook(T.root, id).value.reservations.None?
    ensures out == RaisedOnEmptyHeap <==>
      FindBook(T.root, id).Some? && HeldBy(FindBook(T.root, id).value, patron)
      && FindBook(T.root, id).value.reservations == Some([])
    ensures out in {Released, RaisedOnEmptyHeap} ==>
      var b := FindBook(T.root, id).value;
      UpdatesBook(T.root, T2.root, id, b.(status := AVAILABLE, borrowedBy := None))
    ensures out.Assigned? ==>
      var b := FindBook(T.root, id).value;
      && HeldBy(b, patron)
      && b.reservations.Some?
      && out.to in b.reservations.value
      && (forall x :: x in b.reservations.value ==> Le(out.to, x))
      && (exists h :: && IsHeap(h)
            && multiset(h) + multiset{out.to} == multiset(b.reservations.value)
            && UpdatesBook(T.root, T2.root, id,
                 b.(status := BORROWED, borrowedBy := Some(out.to.patron), reservations := Some(h))))
  {
    SameShapeRefl(T.root);
    var path := FindPath(T.root, id);
    if path.None? {
      return T, ReturnNotFound;
    }
    var b := SubtreeAt(T.root, path.value).book;
    assert b in Inorder(T.root);
    if !HeldBy(b, patron) {
      return T, NotHolder;
    }
    var released := b.(status := AVAILABLE, borrowedBy := None);
    if b.reservations.None? {
      T2 := Store(T, released);
      if Valid(T) { StoreKeepsValid(T, released); }
      out := Released;
    } else {
      var r, h := Pop(b.reservations.value);
      if r.None? {
        T2 := Store(T, released);
        if Valid(T) { StoreKeepsValid(T, released); }
        out := RaisedOnEmptyHeap;
      } else {
        var lent := b.(borrowedBy := Some(r.value.patron), reservations := Some(h));
        T2 := Store(T, lent);
        if Valid(T) { StoreKeepsValid(T, lent); }
        out := Assigned(r.value);
      }
    }
  }

  /** The corrected `ReturnBook`. The comment at line 131 says a returned
      book goes to the waiting patron with the highest priority; when no
      one is waiting, an emptied heap is treated like no heap, so the
      holder's return always succeeds. */
  method ReturnBookIntended(T: RBTree, patron: int, id: int) returns (T2: RBTree, out: ReturnOutcome)
    requires HeapsValid(T.root)
    ensures out != RaisedOnEmptyHeap
    ensures T2.flips == T.flips && T2.nil == T.nil
    ensures SameShape(T.root, T2.root)
    ensures Valid(T) ==> Valid(T2)
    ensures out == ReturnNotFound <==> FindBook(T.root, id).None?
    ensures out == NotHolder <==> FindBook(T.root, id).Some? && !HeldBy(FindBook(T.root, id).value, patron)
    ensures out in {ReturnNotFound, NotHolder} ==> T2 == T
    ensures out == Released <==>
      FindBook(T.root, id).Some? && HeldBy(FindBook(T.root, id).value, patron)
      && FindBook(T.root, id).value.reservations in {None, Some([])}
    ensures out == Released ==>
      var b := FindBook(T.root, id).value;
      UpdatesBook(T.root, T2.root, id, b.(status := AVAILABLE, borrowedBy := None))
    ensures out.Assigned? ==>
      var b := FindBook(T.root, id).value;
      && HeldBy(b, patron)
      && b.reservations.Some?
      && out.to in b.reservations.value
      && (forall x :: x in b.reservations.value ==> Le(out.to, x))
      && (exists h :: && IsHeap(h)
            && multiset(h) + multiset{out.to} == multiset(b.reservations.value)
            && UpdatesBook(T.root, T2.root, id,
                 b.(status := BORROWED, borrowedBy := Some(out.to.patron), reservations := Some(h))))
  {
    SameShapeRefl(T.root);
    var path := FindPath(T.root, id);
    if path.None? {
      return T, ReturnNotFound;
    }
    var b := SubtreeAt(T.root, path.value).book;
    assert b in Inorder(T.root);
    if !HeldBy(b, patron) {
      return T, NotHolder;
    }
    var released := b.(status := AVAILABLE, borrowedBy := None);
    if b.reservations.None? || b.reservations.value == [] {
      T2 := Store(T, released);
      if Valid(T) { StoreKeepsValid(T, released); }
      out := Released;
    } else {
      var r, h := Pop(b.reservations.value);
      var lent := b.(borrowedBy := Some(r.value.patron), reservations := Some(h));
      T2 := Store(T, lent);
      if Valid(T) { StoreKeepsValid(T, lent); }
      out := Assigned(r.value);
    }
  }

  /** A run that reaches the emptied heap: patron 7 borrows book 1, patron
      8 reserves it, 7 returns it (so it is lent to 8 and the heap is
      emptied), then 8 returns it. The source raises on that last return;
      the intended version releases the book. */
  method ReturnAfterLastReservation() returns (asWritten: ReturnOutcome, intended: ReturnOutcome)
    ensures asWritten == RaisedOnEmptyHeap
    ensures intended == Released
  {
    var book := Book(1, "Dune", "Herbert", AVAILABLE, None, None);
    var T0 := RBTree(Node(Black, Nil, book, Nil), Red, 0);
    assert Inorder(T0.root) == [book];
    assert Valid(T0);
    var T1, o1 := BorrowBook(T0, 7, 1, 1, 0);
    assert o1 == Granted;
    var T2, o2 := BorrowBook(T1, 8, 1, 1, 0);
    assert o2 == Reserved;
    var T3, o3 := ReturnBook(T2, 7, 1);
    assert o3.Assigned?;
    var T4;
    T4, asWritten := ReturnBook(T3, 8, 1);
    T4, intended := ReturnBookIntended(T3, 8, 1);
  }
}
