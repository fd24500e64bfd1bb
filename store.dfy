/**
  The reading-list store: the one list of saved books, the five operations
  that replace it, and the copy in browser storage under the key
  "readingList", which each of the four mutations writes and the load only
  reads.
 */
module ReadingListStore {
  import opened Books
  import opened BookFilters
  import opened Reordering

  class Store {
    /** The saved books, in the order they were added except where reordered. */
    var books: seq<Book>
    /**
      The value stored under the key "readingList": `None` when nothing was ever
      stored, otherwise the list itself (its JSON text is not modelled).
     */
    var persisted: Option<seq<Book>>

    /** The stored copy is the list in memory. */
    predicate Synced()
      reads this
    {
      persisted == Some(books)
    }

    /**
      A store starts empty; `stored` is whatever browser storage already
      holds, which the store does not read until it is loaded.
     */
    constructor (stored: Option<seq<Book>>)
      ensures books == [] && persisted == stored
    {
      books := [];
      persisted := stored;
    }

    /** `addBook`: appends the book as given, status included, and stores the list. */
    method AddBook(newBook: Book)
      modifies this
      ensures books == old(books) + [newBook]
      ensures |books| == |old(books)| + 1 && books[..|old(books)|] == old(books) && books[|old(books)|] == newBook
      ensures Synced()
    {
      var updatedBooks := books + [newBook];
      persisted := Some(updatedBooks);
      books := updatedBooks;
    }

    /** `removeBook`: drops every book with the given book's key and stores the list. */
    method RemoveBook(bookToRemove: Book)
      modifies this
      ensures books == WithoutKey(old(books), bookToRemove.key)
      ensures forall b :: b in books ==> b.key != bookToRemove.key
      ensures Synced()
    {
      var updatedBooks := WithoutKey(books, bookToRemove.key);
      persisted := Some(updatedBooks);
      books := updatedBooks;
    }

    /** `moveBook`: gives every book with the given book's key the new status and stores the list. */
    method MoveBook(bookToMove: Book, newStatus: Status)
      modifies this
      ensures books == SetStatusOfKey(old(books), bookToMove.key, newStatus)
      ensures |books| == |old(books)|
      ensures Synced()
    {
      var updatedBooks := SetStatusOfKey(books, bookToMove.key, newStatus);
      persisted := Some(updatedBooks);
      books := updatedBooks;
    }

    /**
      `reorderBooks`: moves element `startIndex` of the `listType` view to
      `endIndex` of that view, keeping every slot's status and every book
      of another status in place, and stores the list.
     */
    method ReorderBooks(listType: Status, startIndex: nat, endIndex: nat)
      requires startIndex < |OfStatus(books, listType)|
      modifies this
      ensures books == Reordered(old(books), listType, startIndex, endIndex)
      ensures |books| == |old(books)|
      ensures forall k :: 0 <= k < |books| ==> books[k].status == old(books)[k].status
      ensures forall k :: 0 <= k < |books| && old(books)[k].status != listType ==> books[k] == old(books)[k]
      ensures OfStatus(books, listType) == MoveWithin(OfStatus(old(books), listType), startIndex, endIndex)
      ensures forall other :: other != listType ==> OfStatus(books, other) == OfStatus(old(books), other)
      ensures multiset(books) == multiset(old(books))
      ensures Synced()
    {
      ReorderKeepsSlots(books, listType, startIndex, endIndex);
      ReorderedViews(books, listType, startIndex, endIndex);
      ReorderIsPermutation(books, listType, startIndex, endIndex);
      var updatedBooks := ReorderedBooks(books, listType, startIndex, endIndex);
      persisted := Some(updatedBooks);
      books := updatedBooks;
    }

    /**
      `loadBooksFromLocalStorage`: the list becomes the stored one, or empty
      when nothing is stored; storage itself is not written.
     */
    method LoadBooksFromLocalStorage()
      modifies this
      ensures persisted == old(persisted)
      ensures books == if persisted.Some? then persisted.value else []
      ensures old(Synced()) ==> books == old(books)
    {
      var storedBooks := persisted;
      books := if storedBooks.Some? then storedBooks.value else [];
    }
  }

  /** A change made through the store, as the list views issue them. */
  datatype Mutation =
    | AddBookOp(newBook: Book)
    | RemoveBookOp(bookToRemove: Book)
    | MoveBookOp(bookToMove: Book, newStatus: Status)
    | ReorderBooksOp(listType: Status, startIndex: nat, endIndex: nat)

  /** Whether the store accepts the mutation: a reorder must start inside its view. */
  predicate Applicable(books: seq<Book>, m: Mutation) {
    m.ReorderBooksOp? ==> m.startIndex < |OfStatus(books, m.listType)|
  }

  /** The list a mutation leaves behind. */
  function Mutated(books: seq<Book>, m: Mutation): (r: seq<Book>)
    requires Applicable(books, m)
    ensures m.AddBookOp? ==> |r| == |books| + 1
    ensures m.RemoveBookOp? ==> |r| <= |books|
    ensures m.MoveBookOp? || m.ReorderBooksOp? ==> |r| == |books|
  {
    match m
    case AddBookOp(b) => books + [b]
    case RemoveBookOp(b) => WithoutKey(books, b.key)
    case MoveBookOp(b, s) => SetStatusOfKey(books, b.key, s)
    case ReorderBooksOp(t, i, j) => Reordered(books, t, i, j)
  }

  /** Applies one mutation to the store, leaving it synced with storage. */
  method Apply(s: Store, m: Mutation)
    requires Applicable(s.books, m)
    modifies s
    ensures s.books == Mutated(old(s.books), m)
    ensures s.Synced()
  {
    match m
    case AddBookOp(b) => s.AddBook(b);
    case RemoveBookOp(b) => s.RemoveBook(b);
    case MoveBookOp(b, st) => s.MoveBook(b, st);
    case ReorderBooksOp(t, i, j) => s.ReorderBooks(t, i, j);
  }

  /** Loading right after a mutation gives back exactly that mutation's list. */
  method ReloadAfterMutation(s: Store, m: Mutation) returns (after: seq<Book>)
    requires Applicable(s.books, m)
    modifies s
    ensures after == Mutated(old(s.books), m)
    ensures s.books == after && s.Synced()
  {
    Apply(s, m);
    after := s.books;
    s.LoadBooksFromLocalStorage();
  }

  /** Loading twice in a row leaves the same list as loading once. */
  method LoadTwice(s: Store) returns (first: seq<Book>)
    modifies s
    ensures first == if old(s.persisted).Some? then old(s.persisted).value else []
    ensures s.books == first && s.persisted == old(s.persisted)
  {
    s.LoadBooksFromLocalStorage();
    first := s.books;
    s.LoadBooksFromLocalStorage();
  }
}
