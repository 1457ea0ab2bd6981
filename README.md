# Library catalog — a Dafny model

This project models the book catalog of a small library management system.
A `Library` object owns one mutable collection of books keyed by ISBN.
It adds books (overwriting any book already stored under the same ISBN),
looks a book up by exact ISBN, lends and takes back books, and displays the
inventory. Each book is in one of two states, Available or Borrowed; lending
moves it from Available to Borrowed and returning moves it back. Adding,
lending and returning each report one of three kinds of message: SUCCESS, INFO (the book was
in the wrong state, nothing changed) or ERROR (invalid book, or no book with
that ISBN).

Files:

- `wrappers.dfy` — `Option`, standing for a Java reference that may be null.
- `catalog.dfy` — module `Catalog`: the `Book` record, the `Status` kinds, the
  table `map<string, Book>`, and the effect of each operation on the table as
  a pure function (`Add`, `Find`, `Borrow`, `Return`), with lemmas about them:
  the table invariant, lookup after insertion, overwriting, the lend/return
  round trips, and what a listing of the inventory contains.
- `library.dfy` — module `LibraryModel`: class `Library` with the field
  `books`, updated in place by `AddBook`, `BorrowBook` and `ReturnBook`; each
  method returns the status it reports and is proved to leave the table as
  the matching `Catalog` function says. `DisplayAllBooks` walks the stored
  books in a loop and returns what would be shown.

The class invariant `Valid()` says that every stored book sits under its own,
non-empty ISBN; it follows from `addBook` storing each book under
`book.getIsbn()` after checking that ISBN is non-empty.

`Book` is modelled as a record (`Catalog.Book`): a newly built book is
available (`Catalog.NewBook`), and `borrowBook()`/`returnBook()` are taken to
set and clear its borrowed flag, as src/Library.java:27-28 and 41-42 use
them; the getters return the fields.
In Java the stored `Book` object is changed in place; here the map entry is
replaced by the same record with the flag flipped. The two agree as long as
no caller keeps another reference to a stored book, which the menu program
never does (see "## Left out").

## Model

| member | source | states |
|---|---|---|
| LibraryModel.Library.constructor | src/Library.java:7-9 | a new library holds no books and satisfies the invariant |
| LibraryModel.Library.AddBook | src/Library.java:11-18 | the collection becomes exactly `Catalog.Add` of the old one and the reported status is Add's; the invariant is kept |
| LibraryModel.Library.FindBookByIsbn | src/Library.java:20-22 | reads only; absent exactly when the ISBN is not a key, otherwise the stored book, whose ISBN is the one asked for |
| LibraryModel.Library.BorrowBook | src/Library.java:24-36 | the collection becomes exactly `Catalog.Borrow` of the old one and the reported status is Borrow's; the invariant is kept |
| LibraryModel.Library.ReturnBook | src/Library.java:38-50 | the collection becomes exactly `Catalog.Return` of the old one and the reported status is Return's; the invariant is kept |
| LibraryModel.Library.DisplayAllBooks | src/Library.java:52-61 | the empty notice exactly when no book is stored; otherwise a listing holding each stored book once (distinct ISBNs, covering every key), in unspecified order |
| Catalog.NewBook | src/Main.java:9 | a newly built book is available and carries the ISBN, title and author it was given |
| Catalog.NewBookIsLendable | src/Main.java:69 | a newly built book with non-empty ISBN, once added, can be lent at once (Success) |
| Catalog.Find | src/Library.java:20-22 | lookup is absent exactly when the ISBN is not a key, and otherwise yields the stored book |
| Catalog.Add | src/Library.java:11-18 | Success exactly for a present book with non-empty ISBN, never Info; on Success the book is stored under its ISBN, the key set gains that ISBN and every other entry is unchanged; on Error nothing changes |
| Catalog.Borrow | src/Library.java:24-36 | Error exactly when the ISBN is unknown, Info exactly when the book is already borrowed, and then nothing changes; on Success the same book becomes borrowed, keys and all other entries unchanged |
| Catalog.Return | src/Library.java:38-50 | Error exactly when the ISBN is unknown, Info exactly when the book is not borrowed, and then nothing changes; on Success the same book becomes available, keys and all other entries unchanged |
| Catalog.AddPreservesWellFormed | src/Library.java:12-13 | adding keeps every stored book under its own non-empty ISBN |
| Catalog.BorrowPreservesWellFormed | src/Library.java:27-28 | lending keeps every stored book under its own non-empty ISBN |
| Catalog.ReturnPreservesWellFormed | src/Library.java:41-42 | returning keeps every stored book under its own non-empty ISBN |
| Catalog.EmptyIsbnNeverFound | src/Library.java:12 | since no book is stored under an empty ISBN, looking up, lending or returning the empty (null) ISBN finds nothing and reports Error |
| Catalog.AddThenFind | src/Library.java:11-14 | a book with non-empty ISBN is accepted and a lookup of its ISBN right after returns it |
| Catalog.AddKeepsOtherLookups | src/Library.java:13 | adding never changes the lookup of any other ISBN |
| Catalog.AddOverwrites | src/Library.java:13 | adding two books with the same ISBN leaves the same catalog as adding only the second: overwrite, no duplicate error |
| Catalog.BorrowTwice | src/Library.java:27-31 | lending an available book succeeds; lending it again reports Info and changes nothing |
| Catalog.ReturnTwice | src/Library.java:41-45 | returning a borrowed book succeeds; returning it again reports Info and changes nothing |
| Catalog.BorrowReturnRoundTrip | src/Library.java:24-43 | lending an available book and then returning it restores the original catalog, both steps succeeding |
| Catalog.ReturnBorrowRoundTrip | src/Library.java:24-43 | returning a borrowed book and then lending it again restores the original catalog, both steps succeeding |
| Catalog.StateChangesKeepKeys | src/Library.java:24-50 | lending and returning never add or remove a book |
| Catalog.ListingCoversValues | src/Library.java:58 | a listing has exactly as many entries as stored books, and its books are exactly the stored values |
| Catalog.EmptyListing | src/Library.java:54-58 | a listing is empty exactly when the catalog is empty |
| Catalog.ExampleSession | src/Library.java:11-49 | add, look up, lend, lend again, return and look up an unknown ISBN give Success, the book, Success, Info, Success and absent, and the catalog ends as it was after the add |

## Left out

- Message text: the printed SUCCESS/INFO/ERROR lines, with the book's title or the ISBN inside, are modelled only by their kind (`Status`).
- Console output of `displayAllBooks`: the header and footer lines and `Book.toString` are not modelled; the method returns what would be listed.
- Listing order: `HashMap` iteration order is unspecified, so `DisplayAllBooks` promises only which books appear, once each, not their order.
- Java null: a null book is `None`; a null ISBN is treated as the empty string, which the add check rejects and which is never a key, so lookups of it find nothing as `HashMap.get(null)` would.
- `Book`'s own methods (`toString`, getters, `borrowBook`, `returnBook`) are modelled only through the record fields and the borrowed flag, as the catalog uses them.
- LibraryModel.Library.FindBookByIsbn: returns a copy of the stored record, whereas Java returns the live stored object; a caller that changes a returned `Book`, or re-adds a `Book` it kept after lending it, would change the Java catalog in ways this model does not capture (aliasing). The menu program never does either.
- The interactive menu program (menu loop, prompts, input parsing, the four sample books added at start-up) is not modelled: it is console I/O with no catalog logic of its own.
