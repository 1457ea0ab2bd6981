/**
 * The library object: one mutable book collection keyed by ISBN, updated in
 * place by adding, lending and returning books. Each method reports the kind
 * of message it would print, and is proved to follow the corresponding
 * function of the Catalog module.
 */
module LibraryModel {
  import opened Wrappers
  import opened Catalog

  /** What displaying the inventory shows: the empty notice, or one line per book. */
  datatype Inventory = EmptyNotice | Entries(entries: seq<Book>)

  class Library {
    var books: Table

    /** Every stored book is keyed by its own non-empty ISBN. */
    ghost predicate Valid()
      reads this
    {
      WellFormed(books)
    }

    constructor ()
      ensures Valid() && books == map[]
    {
      books := map[];
    }

    method AddBook(book: Option<Book>) returns (status: Status)
      requires Valid()
      modifies this
      ensures Valid()
      ensures Step(books, status) == Add(old(books), book)
    {
      if Admissible(book) {
        books := books[book.value.isbn := book.value];
        status := Success;
      } else {
        status := Error;
      }
    }

    function FindBookByIsbn(isbn: string): (r: Option<Book>)
      reads this
      requires Valid()
      ensures r.None? <==> isbn !in books
      ensures r.Some? ==> r.value == books[isbn] && r.value.isbn == isbn
    {
      Find(books, isbn)
    }

    method BorrowBook(isbn: string) returns (status: Status)
      requires Valid()
      modifies this
      ensures Valid()
      ensures Step(books, status) == Borrow(old(books), isbn)
    {
      var book := FindBookByIsbn(isbn);
      if book.Some? {
        if !book.value.borrowed {
          books := books[isbn := book.value.(borrowed := true)];
          status := Success;
        } else {
          status := Info;
        }
      } else {
        status := Error;
      }
    }

    method ReturnBook(isbn: string) returns (status: Status)
      requires Valid()
      modifies this
      ensures Valid()
      ensures Step(books, status) == Return(old(books), isbn)
    {
      var book := FindBookByIsbn(isbn);
      if book.Some? {
        if book.value.borrowed {
          books := books[isbn := book.value.(borrowed := false)];
          status := Success;
        } else {
          status := Info;
        }
      } else {
        status := Error;
      }
    }

    /** The empty notice exactly when no book is stored; otherwise every
        stored book once, in an unspecified order. */
    method DisplayAllBooks() returns (shown: Inventory)
      requires Valid()
      ensures shown.EmptyNotice? <==> |books| == 0
      ensures shown.Entries? ==> Lists(books, shown.entries)
    {
      if |books| == 0 {
        return EmptyNotice;
      }
      var rest := books.Keys;
      var listed: seq<Book> := [];
      while rest != {}
        invariant rest <= books.Keys
        invariant IsbnsOf(listed) == books.Keys - rest
        invariant forall i :: 0 <= i < |listed| ==> listed[i].isbn in books && books[listed[i].isbn] == listed[i]
        invariant forall i, j :: 0 <= i < j < |listed| ==> listed[i].isbn != listed[j].isbn
        decreases rest
      {
        var k :| k in rest;
        var book := books[k];
        IsbnsOfAppend(listed, book);
        listed := listed + [book];
        rest := rest - {k};
      }
      shown := Entries(listed);
    }
  }
}
