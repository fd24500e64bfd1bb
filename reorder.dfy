/**
  Reordering within one status view: the view is taken out of the list,
  one element is moved inside it with two splices, and the list is rebuilt
  by handing the reordered view, one element at a time, to the slots that
  hold that status.
 */
module Reordering {
  import opened Books
  import opened BookFilters

  /** `s.splice(i, 1)` on a copy: `s` without its element at index `i`. */
  function RemoveAt<T>(s: seq<T>, i: nat): (r: seq<T>)
    requires i < |s|
    ensures |r| == |s| - 1
    ensures forall k :: 0 <= k < i ==> r[k] == s[k]
    ensures forall k :: i <= k < |r| ==> r[k] == s[k + 1]
    ensures multiset(r) + multiset{s[i]} == multiset(s)
  {
    assert s == s[..i] + [s[i]] + s[i + 1..];
    s[..i] + s[i + 1..]
  }

  /** The index at which `splice(j, 0, x)` inserts into a sequence of length `n`: a start past the end means the end. */
  function InsertionPoint(j: nat, n: nat): (k: nat)
    ensures k <= n
    ensures k == j || (j > n && k == n)
  {
    if j <= n then j else n
  }

  /** `s.splice(j, 0, x)` on a copy: `x` inserted before index `j`, or at the end when `j` is past it. */
  function InsertAt<T>(s: seq<T>, j: nat, x: T): (r: seq<T>)
    ensures |r| == |s| + 1
    ensures r[InsertionPoint(j, |s|)] == x
    ensures multiset(r) == multiset(s) + multiset{x}
  {
    var k := InsertionPoint(j, |s|);
    assert s == s[..k] + s[k..];
    s[..k] + [x] + s[k..]
  }

  /** Removing what was just inserted gives the sequence back: the two splices are inverse. */
  lemma RemoveInserted<T>(s: seq<T>, j: nat, x: T)
    ensures RemoveAt(InsertAt(s, j, x), InsertionPoint(j, |s|)) == s
  {
  }

  /** The element at `i` removed and put back at `j` (line 64 and line 66 of the store). */
  function MoveWithin<T>(s: seq<T>, i: nat, j: nat): (r: seq<T>)
    requires i < |s|
    ensures |r| == |s|
    ensures r[InsertionPoint(j, |s| - 1)] == s[i]
    ensures multiset(r) == multiset(s)
  {
    InsertAt(RemoveAt(s, i), j, s[i])
  }

  /** Putting an element back where it was taken from gives the sequence back. */
  lemma InsertRemoved<T>(s: seq<T>, i: nat)
    requires i < |s|
    ensures InsertAt(RemoveAt(s, i), i, s[i]) == s
  {
    assert s == s[..i] + [s[i]] + s[i + 1..];
    var rest := RemoveAt(s, i);
    assert rest[..i] == s[..i];
    assert rest[i..] == s[i + 1..];
  }

  /** Moving an element onto its own index changes nothing. */
  lemma MoveWithinSameIndex<T>(s: seq<T>, i: nat)
    requires i < |s|
    ensures MoveWithin(s, i, i) == s
  {
  }

  /** Dragging an element back to where it came from undoes the first drag. */
  lemma MoveWithinUndo<T>(s: seq<T>, i: nat, j: nat)
    requires i < |s| && j < |s|
    ensures MoveWithin(MoveWithin(s, i, j), j, i) == s
  {
    assert InsertionPoint(j, |s| - 1) == j;
    RemoveInserted(RemoveAt(s, i), j, s[i]);
    InsertRemoved(s, i);
  }

  /**
    The write-back of the reordered view (lines 68-70): each slot holding
    `listType` takes the next element shifted off `queue`, and keeps its own
    book once `queue` is used up; every other slot keeps its book.
   */
  function FillSlots(books: seq<Book>, listType: Status, queue: seq<Book>): (r: seq<Book>)
    ensures |r| == |books|
  {
    if books == [] then []
    else if books[0].status != listType then [books[0]] + FillSlots(books[1..], listType, queue)
    else if queue == [] then [books[0]] + FillSlots(books[1..], listType, queue)
    else [queue[0]] + FillSlots(books[1..], listType, queue[1..])
  }

  predicate AllOfStatus(queue: seq<Book>, status: Status) {
    forall b :: b in queue ==> b.status == status
  }

  /** Slots of every other status keep their book. */
  lemma {:induction false} FillSlotsOtherSlots(books: seq<Book>, listType: Status, queue: seq<Book>)
    ensures forall k :: 0 <= k < |books| && books[k].status != listType ==> FillSlots(books, listType, queue)[k] == books[k]
  {
    if books != [] {
      var tail := if books[0].status == listType && queue != [] then queue[1..] else queue;
      FillSlotsOtherSlots(books[1..], listType, tail);
    }
  }

  /** Filling slots with books of their own status keeps the status of every slot. */
  lemma {:induction false} FillSlotsKeepsStatuses(books: seq<Book>, listType: Status, queue: seq<Book>)
    requires AllOfStatus(queue, listType)
    ensures forall k :: 0 <= k < |books| ==> FillSlots(books, listType, queue)[k].status == books[k].status
  {
    if books != [] {
      var tail := if books[0].status == listType && queue != [] then queue[1..] else queue;
      FillSlotsKeepsStatuses(books[1..], listType, tail);
    }
  }

  /** When the queue has one book per slot, the filled list's view of that status is the queue. */
  lemma {:induction false} FillSlotsView(books: seq<Book>, listType: Status, queue: seq<Book>)
    requires AllOfStatus(queue, listType)
    requires |queue| == |OfStatus(books, listType)|
    ensures OfStatus(FillSlots(books, listType, queue), listType) == queue
  {
    if books != [] {
      var r := FillSlots(books, listType, queue);
      if books[0].status != listType {
        assert r[1..] == FillSlots(books[1..], listType, queue);
        FillSlotsView(books[1..], listType, queue);
      } else {
        assert queue != [];
        assert r[1..] == FillSlots(books[1..], listType, queue[1..]);
        FillSlotsView(books[1..], listType, queue[1..]);
        assert queue == [queue[0]] + queue[1..];
      }
    }
  }

  /** The views of the other statuses are untouched by filling. */
  lemma {:induction false} FillSlotsOtherViews(books: seq<Book>, listType: Status, queue: seq<Book>, other: Status)
    requires AllOfStatus(queue, listType)
    requires other != listType
    ensures OfStatus(FillSlots(books, listType, queue), other) == OfStatus(books, other)
  {
    if books != [] {
      var r := FillSlots(books, listType, queue);
      var tail := if books[0].status == listType && queue != [] then queue[1..] else queue;
      assert r[1..] == FillSlots(books[1..], listType, tail);
      FillSlotsKeepsStatuses(books, listType, queue);
      FillSlotsOtherViews(books[1..], listType, tail, other);
    }
  }

  /** With one queued book per slot, filling trades the old books of that status for the queued ones. */
  lemma {:induction false} FillSlotsMultiset(books: seq<Book>, listType: Status, queue: seq<Book>)
    requires |queue| == |OfStatus(books, listType)|
    ensures multiset(FillSlots(books, listType, queue)) + multiset(OfStatus(books, listType))
         == multiset(books) + multiset(queue)
  {
    if books != [] {
      var head, rest := books[0], books[1..];
      assert books == [head] + rest;
      if head.status != listType {
        assert FillSlots(books, listType, queue) == [head] + FillSlots(rest, listType, queue);
        FillSlotsMultiset(rest, listType, queue);
        PrependBoth(head, FillSlots(rest, listType, queue), OfStatus(rest, listType), rest, queue);
      } else {
        assert queue == [queue[0]] + queue[1..];
        assert FillSlots(books, listType, queue) == [queue[0]] + FillSlots(rest, listType, queue[1..]);
        assert OfStatus(books, listType) == [head] + OfStatus(rest, listType);
        FillSlotsMultiset(rest, listType, queue[1..]);
        PrependSwapped(head, queue[0], FillSlots(rest, listType, queue[1..]), OfStatus(rest, listType), rest, queue[1..]);
      }
    }
  }

  lemma PrependBoth<T>(x: T, a: seq<T>, b: seq<T>, c: seq<T>, d: seq<T>)
    requires multiset(a) + multiset(b) == multiset(c) + multiset(d)
    ensures multiset([x] + a) + multiset(b) == multiset([x] + c) + multiset(d)
  {
    calc {
      multiset([x] + a) + multiset(b);
      multiset{x} + multiset(a) + multiset(b);
      multiset{x} + (multiset(a) + multiset(b));
      multiset{x} + (multiset(c) + multiset(d));
      multiset{x} + multiset(c) + multiset(d);
      multiset([x] + c) + multiset(d);
    }
  }

  lemma PrependSwapped<T>(x: T, y: T, a: seq<T>, b: seq<T>, c: seq<T>, d: seq<T>)
    requires multiset(a) + multiset(b) == multiset(c) + multiset(d)
    ensures multiset([y] + a) + multiset([x] + b) == multiset([x] + c) + multiset([y] + d)
  {
    calc {
      multiset([y] + a) + multiset([x] + b);
      multiset{y} + multiset(a) + (multiset{x} + multiset(b));
      multiset{x} + multiset{y} + (multiset(a) + multiset(b));
      multiset{x} + multiset{y} + (multiset(c) + multiset(d));
      multiset{x} + multiset(c) + (multiset{y} + multiset(d));
      multiset([x] + c) + multiset([y] + d);
    }
  }

  /** Filling the slots of a status with that status's own view gives the list back. */
  lemma {:induction false} FillSlotsWithOwnView(books: seq<Book>, listType: Status)
    ensures FillSlots(books, listType, OfStatus(books, listType)) == books
  {
    if books != [] {
      FillSlotsWithOwnView(books[1..], listType);
      assert books == [books[0]] + books[1..];
    }
  }

  /**
    The list `reorderBooks(listType, startIndex, endIndex)` computes: move
    element `startIndex` of the `listType` view to `endIndex`, then write the
    view back into that status's slots.
   */
  function Reordered(books: seq<Book>, listType: Status, startIndex: nat, endIndex: nat): (r: seq<Book>)
    requires startIndex < |OfStatus(books, listType)|
    ensures |r| == |books|
  {
    FillSlots(books, listType, MoveWithin(OfStatus(books, listType), startIndex, endIndex))
  }

  /** The reordered view holds books of the reordered status only. */
  lemma ReorderedQueueOfStatus(books: seq<Book>, listType: Status, startIndex: nat, endIndex: nat)
    requires startIndex < |OfStatus(books, listType)|
    ensures AllOfStatus(MoveWithin(OfStatus(books, listType), startIndex, endIndex), listType)
  {
    var view := OfStatus(books, listType);
    var queue := MoveWithin(view, startIndex, endIndex);
    forall b | b in queue ensures b.status == listType {
      assert b in multiset(queue);
    }
  }

  /**
    A reorder keeps the length and the status of every index, and books of
    other statuses stay at their index.
   */
  lemma ReorderKeepsSlots(books: seq<Book>, listType: Status, startIndex: nat, endIndex: nat)
    requires startIndex < |OfStatus(books, listType)|
    ensures |Reordered(books, listType, startIndex, endIndex)| == |books|
    ensures forall k :: 0 <= k < |books| ==> Reordered(books, listType, startIndex, endIndex)[k].status == books[k].status
    ensures forall k :: 0 <= k < |books| && books[k].status != listType ==>
              Reordered(books, listType, startIndex, endIndex)[k] == books[k]
  {
    var queue := MoveWithin(OfStatus(books, listType), startIndex, endIndex);
    ReorderedQueueOfStatus(books, listType, startIndex, endIndex);
    FillSlotsKeepsStatuses(books, listType, queue);
    FillSlotsOtherSlots(books, listType, queue);
  }

  /**
    After a reorder the view of the status is the old view with element
    `startIndex` removed and reinserted at `endIndex`; the other views are
    unchanged.
   */
  lemma ReorderedViews(books: seq<Book>, listType: Status, startIndex: nat, endIndex: nat)
    requires startIndex < |OfStatus(books, listType)|
    ensures OfStatus(Reordered(books, listType, startIndex, endIndex), listType)
         == MoveWithin(OfStatus(books, listType), startIndex, endIndex)
    ensures forall other :: other != listType ==>
              OfStatus(Reordered(books, listType, startIndex, endIndex), other) == OfStatus(books, other)
  {
    var queue := MoveWithin(OfStatus(books, listType), startIndex, endIndex);
    ReorderedQueueOfStatus(books, listType, startIndex, endIndex);
    FillSlotsView(books, listType, queue);
    forall other | other != listType
      ensures OfStatus(Reordered(books, listType, startIndex, endIndex), other) == OfStatus(books, other)
    {
      FillSlotsOtherViews(books, listType, queue, other);
    }
  }

  /** A reorder is a permutation of the list. */
  lemma ReorderIsPermutation(books: seq<Book>, listType: Status, startIndex: nat, endIndex: nat)
    requires startIndex < |OfStatus(books, listType)|
    ensures multiset(Reordered(books, listType, startIndex, endIndex)) == multiset(books)
  {
    var view := OfStatus(books, listType);
    FillSlotsMultiset(books, listType, MoveWithin(view, startIndex, endIndex));
    MultisetCancel(multiset(Reordered(books, listType, startIndex, endIndex)), multiset(books), multiset(view));
  }

  lemma MultisetCancel<T>(a: multiset<T>, b: multiset<T>, c: multiset<T>)
    requires a + c == b + c
    ensures a == b
  {
    assert a == (a + c) - c;
    assert b == (b + c) - c;
  }

  /** Dropping a book onto its own position leaves the list as it was. */
  lemma ReorderSameIndex(books: seq<Book>, listType: Status, index: nat)
    requires index < |OfStatus(books, listType)|
    ensures Reordered(books, listType, index, index) == books
  {
    MoveWithinSameIndex(OfStatus(books, listType), index);
    FillSlotsWithOwnView(books, listType);
  }

  /**
    Any target index past the end of the view, as a drop onto a longer list
    of another status supplies, acts as a drop at the last position.
   */
  lemma ReorderPastEnd(books: seq<Book>, listType: Status, startIndex: nat, endIndex: nat)
    requires startIndex < |OfStatus(books, listType)| <= endIndex + 1
    ensures Reordered(books, listType, startIndex, endIndex)
         == Reordered(books, listType, startIndex, |OfStatus(books, listType)| - 1)
  {
  }

  /** Two backlog books ahead of a finished one: dragging the first backlog book one place down swaps the two. */
  lemma ReorderTwoBacklogBooks(a: Book, b: Book, c: Book)
    requires a.status == Backlog && b.status == Backlog && c.status == Done
    ensures Reordered([a, b, c], Backlog, 0, 1) == [b, a, c]
  {
    BacklogViewOfThree(a, b, c);
    assert MoveWithin([a, b], 0, 1) == [b, a] by {
      assert RemoveAt([a, b], 0) == [b];
      assert InsertAt([b], 1, a) == [b, a];
    }
    BacklogFillOfThree(a, b, c);
  }

  lemma BacklogViewOfThree(a: Book, b: Book, c: Book)
    requires a.status == Backlog && b.status == Backlog && c.status == Done
    ensures OfStatus([a, b, c], Backlog) == [a, b]
  {
    assert [a, b, c][1..] == [b, c];
    assert [b, c][1..] == [c];
    assert [c][1..] == [];
    assert OfStatus([c], Backlog) == [];
    assert OfStatus([b, c], Backlog) == [b];
  }

  lemma BacklogFillOfThree(a: Book, b: Book, c: Book)
    requires a.status == Backlog && b.status == Backlog && c.status == Done
    ensures FillSlots([a, b, c], Backlog, [b, a]) == [b, a, c]
  {
    assert [a, b, c][1..] == [b, c];
    assert [b, c][1..] == [c];
    assert [c][1..] == [];
    assert [b, a][1..] == [a];
    assert [a][1..] == [];
    assert FillSlots([c], Backlog, []) == [c];
    assert FillSlots([b, c], Backlog, [a]) == [a, c];
  }

  /**
    The update function that `reorderBooks` hands to the store (lines 60-70):
    the view is spliced in a local copy, which is then written back.
   */
  method ReorderedBooks(books: seq<Book>, listType: Status, startIndex: nat, endIndex: nat)
    returns (updatedBooks: seq<Book>)
    requires startIndex < |OfStatus(books, listType)|
    ensures updatedBooks == Reordered(books, listType, startIndex, endIndex)
  {
    var filteredBooks := OfStatus(books, listType);
    var reorderedBook := filteredBooks[startIndex];
    filteredBooks := RemoveAt(filteredBooks, startIndex);
    filteredBooks := InsertAt(filteredBooks, endIndex, reorderedBook);
    updatedBooks := WriteBack(books, listType, filteredBooks);
  }

  /**
    The `map` at line 68: walking the list, each slot of `listType` takes
    the first element of `filteredBooks`, which is shifted off, or keeps its
    book when nothing is left.
   */
  method WriteBack(books: seq<Book>, listType: Status, filteredBooks: seq<Book>) returns (updatedBooks: seq<Book>)
    ensures updatedBooks == FillSlots(books, listType, filteredBooks)
  {
    var queue := filteredBooks;
    updatedBooks := [];
    var k := 0;
    while k < |books|
      invariant 0 <= k <= |books|
      invariant updatedBooks + FillSlots(books[k..], listType, queue) == FillSlots(books, listType, filteredBooks)
    {
      var book := books[k];
      assert books[k..] == [book] + books[k + 1..];
      if book.status == listType && queue != [] {
        ghost var rest := FillSlots(books[k + 1..], listType, queue[1..]);
        assert FillSlots(books[k..], listType, queue) == [queue[0]] + rest;
        assert (updatedBooks + [queue[0]]) + rest == updatedBooks + ([queue[0]] + rest);
        updatedBooks := updatedBooks + [queue[0]];
        queue := queue[1..];
      } else {
        ghost var rest := FillSlots(books[k + 1..], listType, queue);
        assert FillSlots(books[k..], listType, queue) == [book] + rest;
        assert (updatedBooks + [book]) + rest == updatedBooks + ([book] + rest);
        updatedBooks := updatedBooks + [book];
      }
      k := k + 1;
    }
    assert books[k..] == [];
  }
}
