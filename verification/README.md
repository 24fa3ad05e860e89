# GatorLibrary core in Dafny

This project models the core of `colourflip.py`, the GatorLibrary book
catalogue, and proves properties of the model. The core has three parts:

- **MinHeap** (`reservation_heap.dfy`): the array-backed binary min-heap holding
  one book's reservations `(patron_id, priority, time)`. `push` sifts up and
  `pop` sifts down. Python compares these tuples lexicographically.
- **RedBlackTree**: the catalogue. It covers node colours, the shared NIL
  sentinel, the rotations and the colour-flip counter (`rbtree.dfy`), lookup
  (`search.dfy`), `InsertBook` with `_insert`/`_fix_insert` (`insertion.dfy`),
  and `DeleteBook` with `_transplant`/`_delete_fixup` (`deletion.dfy`). Red-black
  balance is proved for insertion (`balance.dfy`) and deletion
  (`delete_balance.dfy`) under a black sentinel.
- **GatorLibrary**: the range walk `PrintBooks` and the nearest-id search
  `_find_closest_books` (`queries.dfy`). It also covers the borrow/return state
  machine (`library.dfy`).

The tree is an immutable value. The Python object's mutable state has three
parts, and each becomes a field of `RBTree`:

- `root`;
- `nil`, the colour of the NIL sentinel. The sentinel is built by the ordinary
  node constructor, so it starts RED. It turns BLACK the first time a fixup
  blackens it, and no code ever makes it red again.
- `flips`, the colour-flip counter.

The fixups climb through `parent` pointers; the model does this with a
zipper. A position is the focus subtree together with the frames of its
ancestors, nearest first. `Plug` rebuilds the tree from a position. Python
exceptions are explicit outcomes:

- `Result.Raised` for insertion;
- `RaisedUnchanged` and `RaisedInFixup` for deletion;
- `RaisedOnEmptyHeap` for returns.

Printing is replaced by returning what would be printed. The clock reading
`time.time()` becomes a parameter `now`.

Where the code does something other than its comments and names suggest
(the model follows the code):

- Reservations are ordered by patron id first, then priority, then time.
  This is Python's tuple order on `(patron_id, priority, time)`. The
  comment at `colourflip.py:131` speaks of the highest priority.
- The counter is raised by one for each explicit `+= 1` in the fixups. A
  rotation adds one more when its two nodes differ in colour. It is not one
  per node whose colour changes.
- `InsertBook` does not reject an id that is already present. Equal ids go
  to the right, so `Sorted` allows equal neighbours.
- `DeleteBook` takes a node, not an id. It raises for the root, for a node
  with two children, and for the NIL sentinel that the lookup returns for a
  missing id.
- `_find_closest_books` returns the whole search path on a miss (see
  Findings).

## Model

| member | source | states |
|---|---|---|
| ReservationHeap.LessIsStrictTotalOrder | colourflip.py:25 | Python's tuple `<` on reservations is a strict total order, so the heap has a well-defined minimum |
| ReservationHeap.HeapifyUp | colourflip.py:22-29 | from a heap broken only between `index` and its parent, swapping upward yields a heap with the same multiset of reservations |
| ReservationHeap.SmallestOf | colourflip.py:34-40 | the chosen index is the node or one of its children, no greater than either child, strictly less than the node when it is a child, and the node itself exactly when no child is strictly less |
| ReservationHeap.HeapifyDown | colourflip.py:31-44 | from a heap broken only between `index` and its children, swapping with the smaller child yields a heap with the same multiset |
| ReservationHeap.Push | colourflip.py:46-48 | push keeps the heap property, grows the heap by one and adds exactly the pushed reservation to its multiset |
| ReservationHeap.Pop | colourflip.py:50-60 | pop of an empty heap returns None and changes nothing; otherwise it returns a minimum element and leaves a heap of the remaining multiset |
| ReservationHeap.PopShape | colourflip.py:56-58 | moving the last element of a heap to the root leaves heap order broken only below the root |
| ReservationHeap.RootIsMinimum | colourflip.py:56-60 | the element at index 0 of a heap is no greater than any element |
| RedBlackTree.Empty | colourflip.py:210-213 | a fresh tree is a valid empty search tree (sorted, black root, every heap valid) with counter 0 and a RED sentinel; the RED sentinel is why insertion from it can unbalance the tree (`Balance.RedSentinelUnbalances`) |
| RedBlackTree.LeftRotate | colourflip.py:288-308 | rotation keeps the in-order sequence and every node's colour, lifts the right child, and raises the counter by one exactly when the two nodes' colours differ |
| RedBlackTree.RightRotate | colourflip.py:310-330 | the mirror of LeftRotate, with the same in-order, colour and counter guarantees |
| RedBlackTree.RotationsAreInverse | colourflip.py:288-330 | a right rotation undoes a left rotation |
| TreeSearch.FindBook | colourflip.py:78-88 | a found book carries the searched id and is stored in the tree |
| TreeSearch.FindBookComplete | colourflip.py:78-88 | in a search tree the lookup finds an id exactly when some stored book has that id |
| TreeSearch.Search | colourflip.py:332-341 | the loop `_search` returns the same book as the recursive lookup, found exactly when the id is stored |
| TreeSearch.ReplaceAt | colourflip.py:104-117 | writing the fields of the found node changes exactly that position of the in-order sequence and keeps colours and shape |
| TreeSearch.FindAfterReplace | colourflip.py:104-117 | after the found node is updated with a book of the same id, the lookup returns the updated book |
| TreeSearch.ReplaceKeepsOrder | colourflip.py:104-117 | updating a node's payload without changing its id keeps search order |
| Insertion.Descend | colourflip.py:226-244 | `_insert`'s descent ends at the NIL slot the new node replaces, and is empty exactly for an empty tree |
| Insertion.InsertSorted | colourflip.py:229-235 | reference insertion into an id-sorted sequence adds exactly the new book |
| Insertion.DescendInorder | colourflip.py:226-248 | attaching at `_insert`'s slot puts the new book after every book whose id is at most its own |
| Insertion.FixInsert | colourflip.py:250-286 | `_fix_insert` keeps the in-order sequence, ends with a black root, never lowers the counter, never reddens the sentinel, and under a black parent (or at the root) returns the same tree with only its root blackened, counter and sentinel unchanged; it raises only when the red parent is the root |
| Insertion.RotateGrandparent | colourflip.py:261-284 | the black-uncle cases keep the in-order sequence, end with a black root, keep the sentinel's colour and raise the counter |
| Insertion.InsertBook | colourflip.py:214-222 | insertion succeeds whenever the root is black, ends with a black root, never lowers the counter, and leaves it unchanged for an empty tree or a black parent |
| Insertion.InsertBookPlacesBook | colourflip.py:226-248 | in a search tree, the new in-order sequence is the old one with the new book inserted after equal ids, and search order is kept |
| Insertion.InsertBookKeepsValid | colourflip.py:214-286 | from a valid state, insertion succeeds, keeps search order, black root and heaps, and adds exactly the new book |
| Deletion.Unzip | colourflip.py:344-352 | the node a path leads to, with its ancestors, rebuilds the tree and sits at the right in-order index |
| Deletion.RedSiblingLeft | colourflip.py:388-393 | case 1 keeps the in-order sequence, puts `x` under a red parent one level deeper, and adds two to the counter |
| Deletion.RedSiblingRight | colourflip.py:411-416 | the mirror of case 1, with the same guarantees |
| Deletion.SiblingCasesLeft | colourflip.py:394-408 | cases 2-4 keep the in-order sequence and the sentinel black once it is black; case 2 moves `x` up with the parent's colour, cases 3-4 end at the root |
| Deletion.SiblingCasesRight | colourflip.py:417-431 | the mirror of cases 2-4, with the same guarantees |
| Deletion.StepLeft | colourflip.py:386-408 | one loop pass keeps the in-order sequence, moves `x` up or makes it red, never lowers the counter and keeps a black root black |
| Deletion.StepRight | colourflip.py:409-431 | the mirror loop pass, with the same guarantees |
| Deletion.FixDelete | colourflip.py:384-431 | the loop ends with `x` at the root or red, keeps the in-order sequence and a black root, never lowers the counter, and does not run for a red `x` |
| Deletion.FinishFixup | colourflip.py:432 | `x` ends black; blackening it keeps the in-order sequence and the counter and leaves a black root |
| Deletion.SpliceInorder | colourflip.py:374-381 | transplanting the only child into the deleted node's place removes exactly that node's book from the in-order sequence |
| Deletion.DropOne | colourflip.py:374-381 | removing one element of a sorted sequence keeps it sorted and adds no element |
| Deletion.SpliceAt | colourflip.py:374-381 | transplanting the only child of the node a path leads to removes exactly that node's in-order position |
| Deletion.FixupAfterSplice | colourflip.py:366-373 | after the splice the fixup runs only for a black node: a red node is removed with nothing else changed; a deletion never reports `RaisedUnchanged` here, keeps the spliced in-order sequence and the counter's lower bound, and reports the node's reservations |
| Deletion.DeleteNode | colourflip.py:344-373 | for a real node: the root or a node with two children raises with nothing changed; for any other node it never reports that outcome; when the deletion succeeds, exactly the node's book leaves the in-order sequence, its reservations are reported, the counter never drops, the root stays black, and a red node is removed with no fixup |
| Deletion.DeleteBook | colourflip.py:344-373 | for the NIL sentinel, the root or a node with two children the call raises with nothing changed; for any other node it never reports that outcome; when the deletion succeeds, exactly the node's book leaves the in-order sequence, its reservations are reported, the counter never drops, the root stays black, and a red node is removed with no fixup |
| Deletion.DeleteKeepsValid | colourflip.py:344-432 | a deletion from a valid state keeps search order, the black root and every reservation heap |
| Balance.PlugRedBlack | colourflip.py:250-286 | a subtree that fits its ancestors' black heights and colours re-links into a balanced tree with no red node under a red node |
| Balance.UnplugRedBlack | colourflip.py:226-244 | every position in a red-black tree, such as `_insert`'s NIL slot, fits its ancestors |
| Balance.FixInsertRedBlack | colourflip.py:250-286 | with a black sentinel, `_fix_insert` on a red node whose only violation is a red parent ends in a red-black tree: root black, equal black heights, no red-red, sentinel black |
| Balance.InsertKeepsRedBlack | colourflip.py:214-286 | with a black sentinel, insertion into a red-black tree succeeds and yields a red-black tree |
| Balance.EmptyIntended | colourflip.py:210-213 | a fresh tree with a black sentinel is red-black |
| Balance.RedSentinelUnbalances | colourflip.py:211-286 | as written, inserting 10, 20, 30 into a fresh tree yields the chain 10 black, 20 black, 30 red, which is not balanced |
| Balance.BlackSentinelBalances | colourflip.py:211-286 | with a black sentinel the same insertions yield 20 black over red 10 and 30, a red-black tree |
| DeleteBalance.NearRedLeft | colourflip.py:398-403 | case 3 turns a black sibling with a red child into one with a red far child, keeping its black height and no red-red pair |
| DeleteBalance.NearRedRight | colourflip.py:421-426 | the mirror of case 3, with the same guarantees |
| DeleteBalance.FarRedLeft | colourflip.py:404-408 | case 4 builds a subtree that is balanced, has no red-red pair, has the parent's colour, and is as black-high as the parent's subtree was before the deletion |
| DeleteBalance.FarRedRight | colourflip.py:427-431 | the mirror of case 4, with the same guarantees |
| DeleteBalance.RedSiblingLeftKeeps | colourflip.py:388-393 | with a black sentinel, case 1 leaves `x` still exactly one black node short, now with a black sibling |
| DeleteBalance.RedSiblingRightKeeps | colourflip.py:411-416 | the mirror of case 1, with the same guarantee |
| DeleteBalance.SiblingCasesLeftKeeps | colourflip.py:394-408 | with a black sentinel and a black sibling, cases 2-4 never raise and keep `x` exactly one black node short, or end in a red-black tree at the root |
| DeleteBalance.SiblingCasesRightKeeps | colourflip.py:417-431 | the mirror of cases 2-4, with the same guarantees |
| DeleteBalance.StepKeeps | colourflip.py:386-431 | with a black sentinel, one loop pass never raises (the sibling is never NIL) and keeps the one-black-short invariant |
| DeleteBalance.FixDeleteKeeps | colourflip.py:384-431 | with a black sentinel, `_delete_fixup`'s loop never raises and stops with the invariant intact |
| DeleteBalance.DeleteKeepsRedBlack | colourflip.py:344-432 | with a black sentinel, deleting a non-root node that has a NIL child from a red-black tree succeeds and yields a red-black tree |
| DeleteBalance.FixupAfterSpliceRedBlack | colourflip.py:366-432 | with a black sentinel, splicing a node with a NIL child out of a red-black tree and running the fixup succeeds and yields a red-black tree |
| DeleteBalance.ChainPaths | colourflip.py:332-341 | in the chain 10, 20, 30 the lookup reaches 30 by going right twice, and in the chain 10, 20 it reaches 20 by going right once |
| DeleteBalance.DeleteRedLeafOfChain | colourflip.py:344-373 | deleting the red leaf 30 from the chain 10, 20, 30 leaves the chain 10, 20 with no fixup |
| DeleteBalance.DeleteFromChainRaises | colourflip.py:384-394 | deleting 20 from the chain 10, 20 raises in the fixup, because its NIL `x` takes the left branch and has a NIL sibling |
| DeleteBalance.RedSentinelDeleteRaises | colourflip.py:211-394 | as written, inserting 10, 20, 30, deleting 30 and then deleting 20, each found by its id, raises in `_delete_fixup` |
| Queries.PrintBooks | colourflip.py:90-98 | the books found for lo..hi are in strictly ascending id order, lie in the range, are what the lookup returns, and include every stored id in the range; an empty range yields nothing |
| Queries.SearchPath | colourflip.py:164-172 | the books visited while descending are stored books, and none are visited only for an empty tree |
| Queries.FindClosestBooks | colourflip.py:161-181 | an exact hit gives that one book, an empty tree gives none, and a miss gives the whole search path |
| Queries.PathBelow | colourflip.py:164-170 | on a miss the search path holds a book in `[b.id, target)` for every stored `b` below the target, hence the predecessor |
| Queries.PathAbove | colourflip.py:164-170 | on a miss the search path holds a book in `(target, b.id]` for every stored `b` above the target, hence the successor |
| Queries.MinDist | colourflip.py:175-181 | the smallest distance from the target over a non-empty list of books, attained by one of them |
| Queries.ClosestBooksCorrect | colourflip.py:161-181 | the corrected search returns only stored books at the minimal distance, and every id at the minimal distance; nothing only for an empty tree |
| Queries.PathKeepsFartherBook | colourflip.py:161-181 | with 10 at the root and 5 to its left, the search for 6 returns 10 and 5, though 10 is farther than 5 |
| Library.SameShapeKeepsColors | colourflip.py:104-137 | trees with the same colours in the same places, as before and after a payload write, have equal black heights and are balanced, free of red-red pairs and black at the root alike |
| Library.SameShapeKeepsRedBlack | colourflip.py:101-140 | a borrow or return, which keeps shape, colours and sentinel, keeps a red-black tree red-black, and leaves a tree that is not red-black not red-black |
| Library.BorrowBook | colourflip.py:101-119 | an unknown id changes nothing; an available book becomes borrowed by the patron with nothing else changed; otherwise exactly one reservation is pushed onto its heap; every other book, the shape and every colour, search order, heaps, the sentinel and the counter are kept |
| Library.ReturnBook | colourflip.py:120-140 | anyone but the holder changes nothing; the holder's return releases the book when it has no heap, lends it to the minimum reservation when the heap is non-empty, and raises on an emptied heap after releasing it; every other book, the shape and every colour, the sentinel and the counter are kept |
| Library.ReturnBookIntended | colourflip.py:123-137 | the corrected return never raises: an emptied heap releases the book like a missing one; shape, colours, sentinel and counter are kept |
| Library.ReturnAfterLastReservation | colourflip.py:101-140 | borrow by 7, reservation by 8, return by 7, return by 8 makes the source raise and the corrected return release the book |

## Left out

- `main`, the `exec` of script lines and the output redirection: I/O and dynamic evaluation.
- The text of every `print`: `PrintBook`, `FindClosestBook`, `ColorFlipCount` and `Quit` only print. The books, outcome or counter they would show are the returned values of `FindBook`, `PrintBooks`, `FindClosestBooks`, the library outcomes and `RBTree.flips`.
- `time.time()`: the timestamp is the parameter `now`, an integer rather than a float. Only its order matters in the heap.
- `GatorLibrary.reservation_heap` and `_notify_patrons`: never used by the library.
- `_find_closest_book_on_side`: it is only ever called on the sentinel's `left` and `right`. Those stay `None`, so the call returns an empty list, and `FindClosestBooks` adds nothing for it.
- The two-children branch of `DeleteBook`: it calls `self._minimum`, which does not exist, so it raises before writing anything.
- The dead tests at lines 217 and 370-371. At line 217 a fresh node's parent is `None`. At lines 370-371 `x` is never red: a red `x` stops the fixup's loop at once and line 432 blackens it. A black `x` stays black, because lines 386-431 recolour only `x.parent`, `w` and `w`'s children and paint the shared NIL only BLACK.
- Deletion.DeleteBook: when the outcome is `RaisedInFixup`, the partly rewritten pointer structure is not modelled. The contract does not characterise the trees on which `_delete_fixup` raises (a NIL sibling, or a red-NIL case-3 rotation). Its guarantees about the result hold only when the deletion succeeds; success is promised for a black sentinel and a red-black tree (`DeleteBalance.DeleteKeepsRedBlack`) and for a red node.
- Deletion.DeleteNode: the same as `DeleteBook` for a real node. A black node with a NIL child may end in `RaisedInFixup`, and the contract does not say on which trees. Its success guarantees are stated only for a `Deleted` result.
- Insertion.FixInsert: the partly rewritten structure after its raise is not modelled. The raise happens only when the root is red, which a valid state excludes.
- Deletion.DeleteBook: red-black balance after a deletion is stated only for a black sentinel (`DeleteBalance.DeleteKeepsRedBlack`). With the source's red sentinel the tree can already be unbalanced by insertion (see Findings).
- ReservationHeap.Push: requires its input to be a heap. The source accepts any list, but only ever passes a heap.
- ReservationHeap.Pop: requires its input to be a heap, for the same reason.
- Library.BorrowBook: requires every reservation array in the tree to be a heap. A fresh tree satisfies it (`RedBlackTree.Empty`), and insertion, deletion, borrowing and returning all keep it (`Insertion.InsertBookKeepsValid`, `Deletion.DeleteKeepsValid`, and the `Valid` clauses of `BorrowBook` and `ReturnBook`).
- Library.ReturnBook: requires every reservation array in the tree to be a heap, for the same reason.
- Nodes are found by the lookup and updated in place, and Python object identity is not modelled beyond that. `DeleteBook(z)` takes `z` as a path from the root, ending either at a node or at the NIL slot where `search` stopped. `_delete_fixup`'s `x == x.parent.left` test is modelled with its identity meaning for the shared sentinel: a NIL `x` on the right of a parent whose left child is also NIL takes the left branch. It then raises, because its sibling is NIL.

## Findings

| source | as written | input that shows it | evidently intended | confidence | as-written member | corrected member |
|---|---|---|---|---|---|---|
| colourflip.py:130-133 | `if book_node.reservation_heap:` is true for an emptied `MinHeap` (it has no `__len__`), `pop()` returns `None` and unpacking it raises, after the book was marked available | patron 7 borrows book 1, patron 8 reserves it, 7 returns it (lent to 8, heap now empty), 8 returns it | a heap with no reservations is treated like no heap: the return simply releases the book | high, not executed | Library.ReturnAfterLastReservation | Library.ReturnBookIntended |
| colourflip.py:175-181 | the side probes start at `NIL.left` and `NIL.right`, which are `None`, so a miss returns every book on the search path | tree with 10 at the root and 5 as its left child, target 6: returns 10 and 5 | return only the books at minimal id distance from the target (ties on both sides kept) | high, not executed | Queries.PathKeepsFartherBook | Queries.ClosestBooksCorrect |
| colourflip.py:211 | the NIL sentinel is built by `RBTreeNode`, whose constructor colours every node RED, so `_fix_insert` treats a NIL uncle as a red uncle | insert 10, 20, 30 into a fresh tree: the result is the chain 10 black, 20 black, 30 red, with black heights 1 on the left of the root and 2 on the right | the sentinel is black, as in every red-black tree; insertion (and deletion, `DeleteBalance.DeleteKeepsRedBlack`) then keeps equal black heights and no red-red pair | high, not executed | Balance.RedSentinelUnbalances | Balance.InsertKeepsRedBlack |
| colourflip.py:386-394 | with the red sentinel, insertion can leave a NIL `x` on the right of a parent whose left child is also NIL; the identity test `x == x.parent.left` takes the left branch, `w` is NIL and `w.left.color` raises | insert 10, 20, 30 into a fresh tree, delete 30, then delete 20 | with a black sentinel and balanced trees the sibling of a black `x` is never NIL, and deletion succeeds and keeps the tree red-black | high, not executed | DeleteBalance.RedSentinelDeleteRaises | DeleteBalance.DeleteKeepsRedBlack |
