/**
  The list transformations the store builds its new state from: dropping
  every book with a key, rewriting the status of every book with a key,
  and the per-status view of the list.
 */
module BookFilters {
  import opened Books

  /** The list with every book whose key is `key` dropped, the others kept in order. */
  function WithoutKey(books: seq<Book>, key: string): (r: seq<Book>)
    ensures |r| <= |books|
    ensures forall b :: b in r <==> b in books && b.key != key
    ensures r == books <==> forall b :: b in books ==> b.key != key
  {
    if books == [] then []
    else if books[0].key != key then [books[0]] + WithoutKey(books[1..], key)
    else WithoutKey(books[1..], key)
  }

  /** Every book whose key is `key` gets status `status`; every other book stays as it is. */
  function SetStatusOfKey(books: seq<Book>, key: string, status: Status): (r: seq<Book>)
    ensures |r| == |books|
    ensures forall i :: 0 <= i < |books| && books[i].key == key ==> r[i] == books[i].(status := status)
    ensures forall i :: 0 <= i < |books| && books[i].key != key ==> r[i] == books[i]
  {
    if books == [] then []
    else
      var head := if books[0].key == key then books[0].(status := status) else books[0];
      [head] + SetStatusOfKey(books[1..], key, status)
  }

  /** The books whose status is `status`, in their order in the list: one status view. */
  function OfStatus(books: seq<Book>, status: Status): (r: seq<Book>)
    ensures |r| <= |books|
    ensures forall b :: b in r <==> b in books && b.status == status
  {
    if books == [] then []
    else if books[0].status == status then [books[0]] + OfStatus(books[1..], status)
    else OfStatus(books[1..], status)
  }

  /** Dropping a key from a concatenation drops it from each part; the order is kept. */
  lemma {:induction false} WithoutKeyAppend(a: seq<Book>, b: seq<Book>, key: string)
    ensures WithoutKey(a + b, key) == WithoutKey(a, key) + WithoutKey(b, key)
  {
    if a == [] {
      assert a + b == b;
    } else {
      assert (a + b)[1..] == a[1..] + b;
      WithoutKeyAppend(a[1..], b, key);
    }
  }

  /** Removing a key a second time changes nothing. */
  lemma WithoutKeyIdempotent(books: seq<Book>, key: string)
    ensures WithoutKey(WithoutKey(books, key), key) == WithoutKey(books, key)
  {
  }

  /** Removing a book's key right after appending it is the same as removing the key from the old list. */
  lemma RemoveAfterAdd(books: seq<Book>, book: Book)
    ensures WithoutKey(books + [book], book.key) == WithoutKey(books, book.key)
  {
    WithoutKeyAppend(books, [book], book.key);
    assert [book][1..] == [];
  }

  /** Removing a key after moving the books with that key is the same as removing it at once. */
  lemma {:induction false} RemoveAfterMove(books: seq<Book>, key: string, status: Status)
    ensures WithoutKey(SetStatusOfKey(books, key, status), key) == WithoutKey(books, key)
  {
    if books != [] {
      var moved := SetStatusOfKey(books, key, status);
      assert moved[1..] == SetStatusOfKey(books[1..], key, status);
      RemoveAfterMove(books[1..], key, status);
    }
  }

  /** Moving the same key to the same status twice is the same as once. */
  lemma SetStatusOfKeyIdempotent(books: seq<Book>, key: string, status: Status)
    ensures SetStatusOfKey(SetStatusOfKey(books, key, status), key, status) == SetStatusOfKey(books, key, status)
  {
  }

  /** A status view of a concatenation is the concatenation of the views. */
  lemma {:induction false} OfStatusAppend(a: seq<Book>, b: seq<Book>, status: Status)
    ensures OfStatus(a + b, status) == OfStatus(a, status) + OfStatus(b, status)
  {
    if a == [] {
      assert a + b == b;
    } else {
      assert (a + b)[1..] == a[1..] + b;
      OfStatusAppend(a[1..], b, status);
    }
  }

  /** An appended book shows up last in the view of its status and leaves the other views alone. */
  lemma AddShowsLastInItsView(books: seq<Book>, book: Book, status: Status)
    ensures OfStatus(books + [book], status)
         == if book.status == status then OfStatus(books, status) + [book] else OfStatus(books, status)
  {
    OfStatusAppend(books, [book], status);
    assert [book][1..] == [];
  }

  /**
    The three status views partition the list: together they hold every
    book as often as the list does, and no book is in two of them.
   */
  lemma {:induction false} StatusPartition(books: seq<Book>)
    ensures multiset(books)
         == multiset(OfStatus(books, Backlog)) + multiset(OfStatus(books, InProgress)) + multiset(OfStatus(books, Done))
    ensures |books| == |OfStatus(books, Backlog)| + |OfStatus(books, InProgress)| + |OfStatus(books, Done)|
  {
    if books != [] {
      StatusPartition(books[1..]);
      assert books == [books[0]] + books[1..];
    }
  }
}
