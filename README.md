# Reading-list store, modelled in Dafny

The reading-list application keeps the user's saved books in one ordered
list inside a client-side store (`src/store.ts`). The list is shown as three
views, one per reading status: backlog, in progress and done. The store has
five operations:

- `addBook` appends a book;
- `removeBook` drops every book with a given key;
- `moveBook` gives every book with a given key a new status;
- `reorderBooks` moves one book inside the view of one status and writes that
  view back into the slots of the combined list that hold the status;
- `loadBooksFromLocalStorage` replaces the list with the stored copy, or with
  the empty list when nothing is stored.

Each of the four mutations (add, remove, move, reorder) writes the whole new
list to browser storage under the key `"readingList"`; the load only reads
that entry.

The project has four modules, one file each:

- `books.dfy` (`Books`): the `Book` record and its three-valued `Status`.
- `filters.dfy` (`BookFilters`): the `filter` and `map` the store builds its
  new lists with, and lemmas about them.
- `reorder.dfy` (`Reordering`): the two `splice` calls and the `shift`-driven
  `map` of `reorderBooks`. It has a specification function `Reordered`, the
  loop that computes it (`WriteBack`) and the lemmas behind the reorder
  guarantees.
- `store.dfy` (`ReadingListStore`): the store as a class. The field `books`
  is the state. The field `persisted` stands for the `"readingList"` entry
  of browser storage. Each store operation is a method that replaces
  `books`; each of the four mutations also writes `persisted`, and the load
  only reads it.

Where a reader might expect otherwise, the model follows the code:

- `addBook` keeps the status the caller gives. It does not force `backlog`
  (src/store.ts:33).
- `removeBook` and `moveBook` act on every book with the key, not only the
  first one. No uniqueness of keys is assumed or enforced (src/store.ts:40-42,
  49-51).
- `reorderBooks` accepts a target index past the end of the view. JavaScript's
  `splice` treats such an index as the end. The list view can pass one: its
  drop handler forwards the destination index even when a book is dropped
  onto the list of another status (src/Components/BookList.tsx:95-103). The
  model clamps the same way (`InsertionPoint`), and `ReorderPastEnd` states
  the effect.

## Model

| member | source | states |
|---|---|---|
| `BookFilters.WithoutKey` | src/store.ts:40-42 | the result has no book with the key; a book is in it exactly when it is in the old list with a different key; it is the old list exactly when no book had the key |
| `BookFilters.WithoutKeyAppend` | src/store.ts:40-42 | removal acts on each part of a concatenation separately, so the kept books stay in their old order |
| `BookFilters.WithoutKeyIdempotent` | src/store.ts:40-42 | a second removal with the same key changes nothing |
| `BookFilters.RemoveAfterAdd` | src/store.ts:33-42 | appending a book and then removing its key gives the old list without that key |
| `BookFilters.SetStatusOfKey` | src/store.ts:49-51 | the length is kept; each book with the key has the new status and every other field unchanged; each other book is unchanged at its index |
| `BookFilters.SetStatusOfKeyIdempotent` | src/store.ts:49-51 | moving the same key to the same status twice equals moving it once |
| `BookFilters.RemoveAfterMove` | src/store.ts:40-51 | removing a key after moving it gives the same list as removing it directly |
| `BookFilters.OfStatus` | src/store.ts:61-63 | a status view holds exactly the books of the list that have that status, and is no longer than the list |
| `BookFilters.OfStatusAppend` | src/store.ts:61-63 | the view of a concatenation is the concatenation of the views |
| `BookFilters.AddShowsLastInItsView` | src/store.ts:33 | an appended book becomes the last entry of its own status view and leaves the other views as they were |
| `BookFilters.StatusPartition` | src/store.ts:9 | the three status views together hold every book of the list as often as the list does, and their lengths add up to the list's length |
| `Reordering.RemoveAt` | src/store.ts:64 | the element at the index is taken out: the length drops by one, the elements before it keep their index, the later ones move down one, and the multiset loses exactly that element |
| `Reordering.InsertionPoint` | src/store.ts:66 | `splice` inserts at the given index, or at the end when that index is past the end |
| `Reordering.InsertAt` | src/store.ts:66 | the inserted element sits at the insertion point, the length grows by one and the multiset gains exactly that element |
| `Reordering.RemoveInserted` | src/store.ts:64-66 | removing at the insertion point undoes an insertion |
| `Reordering.InsertRemoved` | src/store.ts:64-66 | putting a removed element back at its own index undoes the removal |
| `Reordering.MoveWithin` | src/store.ts:64-66 | the moved element ends up at the target index, clamped to the last position; the length and the multiset of elements are kept |
| `Reordering.MoveWithinSameIndex` | src/store.ts:64-66 | moving an element onto its own index changes nothing |
| `Reordering.MoveWithinUndo` | src/store.ts:64-66 | moving an element from i to j and then from j back to i restores the view |
| `Reordering.FillSlots` | src/store.ts:68-70 | writing a queue back into the slots of a status keeps the list's length |
| `Reordering.FillSlotsOtherSlots` | src/store.ts:68-70 | slots of every other status keep their book |
| `Reordering.FillSlotsKeepsStatuses` | src/store.ts:68-70 | with a queue of books of that status, every slot keeps its status |
| `Reordering.FillSlotsView` | src/store.ts:61-70 | with one queued book of that status per slot, the status view of the result is the queue |
| `Reordering.FillSlotsOtherViews` | src/store.ts:61-70 | the views of the other statuses are unchanged |
| `Reordering.FillSlotsMultiset` | src/store.ts:61-70 | with one queued book per slot, the result's multiset is the old one with that status's books swapped for the queued ones |
| `Reordering.FillSlotsWithOwnView` | src/store.ts:61-70 | writing a status's own view back into its slots gives the list back |
| `Reordering.Reordered` | src/store.ts:60-70 | defines the list `reorderBooks` computes: element `startIndex` of the `listType` view moved to `endIndex`, then written back into that status's slots; its contract states the length is kept (the other reorder rows state the rest) |
| `Reordering.ReorderKeepsSlots` | src/store.ts:60-70 | a reorder keeps the list's length and the status at every index, and every book of another status stays at its index |
| `Reordering.ReorderedViews` | src/store.ts:61-70 | after a reorder the view of the status is the old view with element i removed and reinserted at j, and the views of the other statuses are unchanged |
| `Reordering.ReorderIsPermutation` | src/store.ts:61-70 | the reordered list is a permutation of the old one |
| `Reordering.ReorderSameIndex` | src/store.ts:64-69 | a reorder from an index to the same index leaves the list unchanged |
| `Reordering.ReorderPastEnd` | src/store.ts:66 | a target index at or past the last position of the view acts as the last position |
| `Reordering.ReorderTwoBacklogBooks` | src/store.ts:60-70 | with backlog books a, b followed by a done book c, moving backlog entry 0 to 1 gives b, a, c |
| `Reordering.ReorderedBooks` | src/store.ts:60-70 | the list the update computes, by splicing the view and writing it back, is `Reordered` of the old list |
| `Reordering.WriteBack` | src/store.ts:68-70 | the loop that hands the shifted queue to the slots of the status, one at a time, computes `FillSlots` |
| `ReadingListStore.Store.constructor` | src/store.ts:28-29 | a new store holds the empty list and does not touch what storage holds |
| `ReadingListStore.Store.AddBook` | src/store.ts:31-36 | the new list is the old one followed by exactly the given book; the old elements are unchanged; storage holds the new list |
| `ReadingListStore.Store.RemoveBook` | src/store.ts:38-45 | the new list is the old one without the books with the given key, and no book with that key remains; storage holds the new list |
| `ReadingListStore.Store.MoveBook` | src/store.ts:47-54 | the new list is the old one with the status of every book with the given key set; the length is kept; storage holds the new list |
| `ReadingListStore.Store.ReorderBooks` | src/store.ts:55-73 | the new list is `Reordered` of the old one: same length, same status at every index, other statuses untouched, the view of the status has one element moved, the other views are unchanged, and the list is a permutation; storage holds the new list |
| `ReadingListStore.Store.LoadBooksFromLocalStorage` | src/store.ts:75-79 | the list becomes the stored list, or empty when nothing is stored; storage is unchanged; a synced store keeps its list |
| `ReadingListStore.Mutated` | src/store.ts:31-73 | defines the list each of the four mutations leaves behind; its contract states that an add grows the list by one, a remove never grows it, and a move or reorder keeps its length |
| `ReadingListStore.Apply` | src/store.ts:31-73 | any of the four mutations leaves the store's list as `Mutated` says and storage holding that list |
| `ReadingListStore.ReloadAfterMutation` | src/store.ts:31-79 | a load right after any mutation reproduces the mutation's list |
| `ReadingListStore.LoadTwice` | src/store.ts:75-79 | loading twice in a row leaves the same list as loading once, and storage is unchanged |

## Left out

- Browser storage and JSON: `localStorage.setItem`/`getItem` and `JSON.stringify`/`JSON.parse` (src/store.ts:34, 43, 52, 71, 76-77) are I/O and serialisation. The field `persisted` holds the list itself. Serialisation is taken to round-trip losslessly, so a stored empty string (falsy, and read as `[]`) cannot arise from the store's own writes and is not modelled. Reads and writes never fail in the model: in the source a throwing `localStorage.setItem` (storage full or disabled) aborts the updater, leaving the list and storage as they were and passing the error to the caller, and a corrupt stored value makes `JSON.parse` throw in `loadBooksFromLocalStorage`.
- The state library's `create`/`set` (src/store.ts:1, 28): `set` is modelled as assigning `books`; subscriptions and re-rendering are left out.
- `ReadingListStore.Store.ReorderBooks`: requires `0 <= startIndex < count(listType)`. The list view only passes the index of the dragged book in its own list. With a start index at or past `count`, the first `splice` removes nothing and `undefined` is inserted into the view at `p = min(endIndex, count)`; the slot that shifts `undefined` keeps its own book through the `|| book` fallback (src/store.ts:64-69). So when `p <= count - 2` the view's book at `p` appears twice and its last book is dropped, and when `p >= count - 1` (every one-book view included) the list comes back unchanged; that path is not modelled.
- `ReadingListStore.Store.ReorderBooks`: indices are `nat`. A negative target index, which `splice` counts from the end, is not modelled, because drag-and-drop indices are never negative.
- Numbers: `first_publish_year` and `number_of_pages_median` are JavaScript numbers (floating point); they are modelled as `int` and only carried along.
- src/Components/BookSearch.tsx: the asynchronous HTTP search against the Open Library API is network I/O and is not part of this model.
- src/Components/BookList.tsx: rendering and drag-and-drop wiring. It reads `books` and forwards to `removeBook`, `moveBook` and `reorderBooks` (src/Components/BookList.tsx:27-102) and adds no logic of its own to the store.
- src/App.tsx and src/Components/Navbar.tsx: rendering, navigation links and the theme toggle. Neither uses the store.
