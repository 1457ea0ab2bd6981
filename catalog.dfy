/**
 * The book catalog as values: a table from ISBN to book record, and the
 * effect of each catalog operation on that table as a pure function.
 * The class in LibraryModel updates its table in place and is proved to
 * follow these functions; the lemmas below state what the functions promise.
 */
module Catalog {
  import opened Wrappers

  /** A catalog entry. `borrowed` is the Available/Borrowed state. */
  datatype Book = Book(isbn: string, title: string, author: string, borrowed: bool)

  /** The kind of message an operation reports. */
  datatype Status = Success | Info | Error

  /** The book collection, keyed by ISBN. */
  type Table = map<string, Book>

  /** The table after an operation together with the status it reports. */
  datatype Step = Step(books: Table, status: Status)

  /** The three-argument Book constructor: a freshly constructed book is available. */
  function NewBook(isbn: string, title: string, author: string): (b: Book)
    ensures !b.borrowed
    ensures b.isbn == isbn && b.title == title && b.author == author
  {
    Book(isbn, title, author, false)
  }

  /** Two records describe the same book, whatever their borrowed state. */
  predicate SameBook(a: Book, b: Book)
  {
    a.isbn == b.isbn && a.title == b.title && a.author == b.author
  }

  /** A book the catalog accepts: present, with a non-empty ISBN
      (a null ISBN is modelled as the empty string). */
  predicate Admissible(book: Option<Book>)
  {
    book.Some? && book.value.isbn != ""
  }

  /** Every stored book sits under its own, non-empty ISBN. */
  ghost predicate WellFormed(t: Table)
  {
    forall k :: k in t ==> k != "" && t[k].isbn == k
  }

  /** The tables agree everywhere except possibly at `key`. */
  ghost predicate AgreeExcept(t: Table, u: Table, key: string)
  {
    forall k :: k != key ==> (k in t <==> k in u) && (k in t ==> t[k] == u[k])
  }

  /** Exact-key lookup. */
  function Find(t: Table, isbn: string): (r: Option<Book>)
    ensures r.None? <==> isbn !in t
    ensures r.Some? ==> r.value == t[isbn]
  {
    if isbn in t then Some(t[isbn]) else None
  }

  /** Insert a book under its ISBN, overwriting any previous entry;
      an absent book or empty ISBN is rejected and changes nothing. */
  function Add(t: Table, book: Option<Book>): (r: Step)
    ensures r.status != Info
    ensures r.status == Success <==> Admissible(book)
    ensures r.status == Error ==> r.books == t
    ensures r.status == Success ==>
              && r.books.Keys == t.Keys + {book.value.isbn}
              && r.books[book.value.isbn] == book.value
              && AgreeExcept(t, r.books, book.value.isbn)
  {
    if Admissible(book) then Step(t[book.value.isbn := book.value], Success)
    else Step(t, Error)
  }

  /** Lend a book: Available -> Borrowed. */
  function Borrow(t: Table, isbn: string): (r: Step)
    ensures r.status == Error <==> isbn !in t
    ensures r.status == Info <==> isbn in t && t[isbn].borrowed
    ensures r.status != Success ==> r.books == t
    ensures r.status == Success ==>
              && r.books.Keys == t.Keys
              && r.books[isbn].borrowed
              && SameBook(r.books[isbn], t[isbn])
              && AgreeExcept(t, r.books, isbn)
  {
    match Find(t, isbn)
    case None => Step(t, Error)
    case Some(book) =>
      if !book.borrowed then Step(t[isbn := book.(borrowed := true)], Success)
      else Step(t, Info)
  }

  /** Take a book back: Borrowed -> Available. */
  function Return(t: Table, isbn: string): (r: Step)
    ensures r.status == Error <==> isbn !in t
    ensures r.status == Info <==> isbn in t && !t[isbn].borrowed
    ensures r.status != Success ==> r.books == t
    ensures r.status == Success ==>
              && r.books.Keys == t.Keys
              && !r.books[isbn].borrowed
              && SameBook(r.books[isbn], t[isbn])
              && AgreeExcept(t, r.books, isbn)
  {
    match Find(t, isbn)
    case None => Step(t, Error)
    case Some(book) =>
      if book.borrowed then Step(t[isbn := book.(borrowed := false)], Success)
      else Step(t, Info)
  }

  /** `s` lists the books of `t`: each stored book exactly once, in any order. */
  ghost predicate Lists(t: Table, s: seq<Book>)
  {
    && (forall i :: 0 <= i < |s| ==> s[i].isbn in t && t[s[i].isbn] == s[i])
    && (forall i, j :: 0 <= i < j < |s| ==> s[i].isbn != s[j].isbn)
    && IsbnsOf(s) == t.Keys
  }

  /** The ISBNs that occur in a sequence of books. */
  function IsbnsOf(s: seq<Book>): set<string>
  {
    set i | 0 <= i < |s| :: s[i].isbn
  }

  // ---------------------------------------------------------------------
  // Invariant: every operation keeps the table well formed.

  lemma AddPreservesWellFormed(t: Table, book: Option<Book>)
    requires WellFormed(t)
    ensures WellFormed(Add(t, book).books)
  {
  }

  lemma BorrowPreservesWellFormed(t: Table, isbn: string)
    requires WellFormed(t)
    ensures WellFormed(Borrow(t, isbn).books)
  {
  }

  lemma ReturnPreservesWellFormed(t: Table, isbn: string)
    requires WellFormed(t)
    ensures WellFormed(Return(t, isbn).books)
  {
  }

  /** In a well-formed table the empty ISBN (standing for null) is never found. */
  lemma EmptyIsbnNeverFound(t: Table)
    requires WellFormed(t)
    ensures Find(t, "") == None
    ensures Borrow(t, "") == Step(t, Error)
    ensures Return(t, "") == Step(t, Error)
  {
  }

  // ---------------------------------------------------------------------
  // Insertion and lookup.

  /** A book just added is what a lookup of its ISBN returns. */
  lemma AddThenFind(t: Table, book: Book)
    requires book.isbn != ""
    ensures Add(t, Some(book)).status == Success
    ensures Find(Add(t, Some(book)).books, book.isbn) == Some(book)
  {
  }

  /** Adding leaves every lookup of another ISBN as it was. */
  lemma AddKeepsOtherLookups(t: Table, book: Option<Book>, isbn: string)
    requires book.Some? ==> isbn != book.value.isbn
    ensures Find(Add(t, book).books, isbn) == Find(t, isbn)
  {
  }

  /** A second insertion under the same ISBN replaces the first: the result
      is as if only the second had been made. */
  lemma AddOverwrites(t: Table, first: Book, second: Book)
    requires first.isbn == second.isbn != ""
    ensures Add(Add(t, Some(first)).books, Some(second)) == Add(t, Some(second))
  {
  }

  // ---------------------------------------------------------------------
  // The Available/Borrowed state machine.

  /** A newly built book, once added, can be lent straight away. */
  lemma NewBookIsLendable(t: Table, isbn: string, title: string, author: string)
    requires isbn != ""
    ensures Borrow(Add(t, Some(NewBook(isbn, title, author))).books, isbn).status == Success
  {
  }

  /** Lending a book that is already out reports Info and changes nothing. */
  lemma BorrowTwice(t: Table, isbn: string)
    requires isbn in t && !t[isbn].borrowed
    ensures Borrow(t, isbn).status == Success
    ensures Borrow(Borrow(t, isbn).books, isbn) == Step(Borrow(t, isbn).books, Info)
  {
  }

  /** Returning a book that is already in reports Info and changes nothing. */
  lemma ReturnTwice(t: Table, isbn: string)
    requires isbn in t && t[isbn].borrowed
    ensures Return(t, isbn).status == Success
    ensures Return(Return(t, isbn).books, isbn) == Step(Return(t, isbn).books, Info)
  {
  }

  /** Lending an available book and taking it back restores the catalog. */
  lemma BorrowReturnRoundTrip(t: Table, isbn: string)
    requires isbn in t && !t[isbn].borrowed
    ensures Borrow(t, isbn).status == Success
    ensures Return(Borrow(t, isbn).books, isbn) == Step(t, Success)
  {
  }

  /** Taking back a borrowed book and lending it again restores the catalog. */
  lemma ReturnBorrowRoundTrip(t: Table, isbn: string)
    requires isbn in t && t[isbn].borrowed
    ensures Return(t, isbn).status == Success
    ensures Borrow(Return(t, isbn).books, isbn) == Step(t, Success)
  {
  }

  /** Lend and return never add or remove books. */
  lemma StateChangesKeepKeys(t: Table, isbn: string)
    ensures Borrow(t, isbn).books.Keys == t.Keys
    ensures Return(t, isbn).books.Keys == t.Keys
  {
  }

  // ---------------------------------------------------------------------
  // Listing.

  /** Appending a book adds its ISBN. */
  lemma IsbnsOfAppend(s: seq<Book>, b: Book)
    ensures IsbnsOf(s + [b]) == IsbnsOf(s) + {b.isbn}
  {
    var s' := s + [b];
    assert s'[|s|] == b;
    forall k | k in IsbnsOf(s)
      ensures k in IsbnsOf(s')
    {
      var i :| 0 <= i < |s| && s[i].isbn == k;
      assert s'[i] == s[i];
    }
  }

  /** The ISBNs of a sequence whose ISBNs are distinct are as many as its books. */
  lemma {:induction false} DistinctIsbnsCount(s: seq<Book>)
    requires forall i, j :: 0 <= i < j < |s| ==> s[i].isbn != s[j].isbn
    ensures |IsbnsOf(s)| == |s|
  {
    if s != [] {
      var init := s[..|s| - 1];
      DistinctIsbnsCount(init);
      assert IsbnsOf(s) == IsbnsOf(init) + {s[|s| - 1].isbn};
      assert s[|s| - 1].isbn !in IsbnsOf(init);
    }
  }

  /** A listing has one line per stored book, and its books are exactly the
      table's values. */
  lemma {:induction false} ListingCoversValues(t: Table, s: seq<Book>)
    requires Lists(t, s)
    ensures |s| == |t|
    ensures forall b :: b in s <==> b in t.Values
  {
    DistinctIsbnsCount(s);
    assert t.Keys == IsbnsOf(s);
    forall b | b in t.Values
      ensures b in s
    {
      var k :| k in t && t[k] == b;
      assert k in IsbnsOf(s);
      var i :| 0 <= i < |s| && s[i].isbn == k;
      assert s[i] == b;
    }
  }

  /** Only the empty table has the empty listing. */
  lemma {:induction false} EmptyListing(t: Table, s: seq<Book>)
    requires Lists(t, s)
    ensures s == [] <==> t == map[]
  {
    ListingCoversValues(t, s);
  }

  // ---------------------------------------------------------------------
  // A worked run: add a book, look it up, lend it twice, return it, look up
  // an ISBN that was never added.

  lemma ExampleSession()
    ensures
      var book := NewBook("978-1", "A", "X");
      var t1 := Add(map[], Some(book));
      var t2 := Borrow(t1.books, "978-1");
      var t3 := Borrow(t2.books, "978-1");
      var t4 := Return(t3.books, "978-1");
      && t1.status == Success && Find(t1.books, "978-1") == Some(book)
      && t2.status == Success && t2.books["978-1"].borrowed
      && t3.status == Info && t3.books == t2.books
      && t4.status == Success && t4.books == t1.books
      && Find(t4.books, "978-2") == None
  {
  }
}
