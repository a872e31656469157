/** The catalog object: an ordered list of records held in a field and updated
    in place by add, remove and status change, each of which writes a full
    snapshot to storage exactly when it changes the list. */
module Engine {
  import opened Catalog

  /** What reading the storage file produced; the file and its JSON encoding
      are outside the model. */
  datatype LoadOutcome = Loaded(records: seq<Book>) | FileNotFound | DecodeError | OtherError(reason: string)

  /** What display_books shows: the empty-library notice, or one line per record. */
  datatype Display = EmptyNotice | Rows(rows: seq<Book>)

  class Library {
    const filename: string
    var books: seq<Book>
    /** Every snapshot save_books has written, oldest first. */
    ghost var saves: seq<seq<Book>>

    /** Starts empty and takes the stored records only when they could be read. */
    constructor (filename: string, stored: LoadOutcome)
      ensures this.filename == filename
      ensures books == (if stored.Loaded? then stored.records else [])
      ensures saves == []
    {
      this.filename := filename;
      books := [];
      saves := [];
      new;
      LoadBooks(stored);
    }

    /** A failed read leaves the records as they were. */
    method LoadBooks(stored: LoadOutcome)
      modifies this`books
      ensures books == (if stored.Loaded? then stored.records else old(books))
    {
      if stored.Loaded? {
        books := stored.records;
      }
    }

    /** Overwrites storage with the whole current list. */
    method SaveBooks()
      modifies this`saves
      ensures saves == old(saves) + [books]
    {
      saves := saves + [books];
    }

    method AddBook(title: string, author: string, year: int)
      modifies this`books, this`saves
      ensures books == Added(old(books), title, author, year)
      ensures HasTitle(old(books), title) ==> books == old(books) && saves == old(saves)
      ensures !HasTitle(old(books), title) ==>
        && books == old(books) + [Book(|old(books)| + 1, title, author, year, Available)]
        && saves == old(saves) + [books]
      ensures TitlesDistinct(old(books)) ==> TitlesDistinct(books)
    {
      if HasTitle(books, title) {
        return;
      }
      var bookId := |books| + 1;
      var book := Book(bookId, title, author, year, Available);
      if TitlesDistinct(books) {
        AddedKeepsTitlesDistinct(books, title, author, year);
      }
      books := books + [book];
      SaveBooks();
    }

    /** Scans in order and removes the first record with the id, as
        `list.remove` of that record does. */
    method RemoveBook(bookId: int)
      modifies this`books, this`saves
      ensures books == RemoveFirstId(old(books), bookId)
      ensures FirstIndexOfId(old(books), bookId).None? ==> books == old(books) && saves == old(saves)
      ensures FirstIndexOfId(old(books), bookId).Some? ==>
        && |books| == |old(books)| - 1
        && saves == old(saves) + [books]
      ensures IsSubsequence(books, old(books))
      ensures TitlesDistinct(old(books)) ==> TitlesDistinct(books)
    {
      RemoveFirstIdIsDeletion(books, bookId);
      var i := 0;
      while i < |books|
        invariant 0 <= i <= |books|
        invariant books == old(books) && saves == old(saves)
        invariant forall j :: 0 <= j < i ==> books[j].id != bookId
      {
        var book := books[i];
        if book.id == bookId {
          assert FirstIndexOfId(books, bookId) == Some(i);
          RemoveValueAtFirstId(books, bookId, i);
          books := RemoveValue(books, book);
          SaveBooks();
          return;
        }
        i := i + 1;
      }
    }

    /** The records matching the query, in catalog order; `lower` stands for
        Python's `str.lower`. */
    method SearchBooks(query: string, lower: string -> string) returns (results: seq<Book>)
      ensures results == Search(books, query, lower)
      ensures IsSubsequence(results, books)
      ensures forall b :: b in results <==> b in books && Matches(b, query, lower)
    {
      SearchIsSubsequence(books, query, lower);
      SearchCounts(books, query, lower);
      results := Search(books, query, lower);
    }

    method DisplayBooks() returns (shown: Display)
      ensures shown == EmptyNotice <==> books == []
      ensures shown.Rows? ==> shown.rows == books
    {
      if books == [] {
        return EmptyNotice;
      }
      shown := Rows(books);
    }

    /** Rejects a status outside the whitelist without touching anything;
        otherwise sets the status of the first record with the id. */
    method ChangeStatus(bookId: int, newStatus: string)
      modifies this`books, this`saves
      ensures ParseStatus(newStatus).Some? ==>
        books == ChangedStatus(old(books), bookId, ParseStatus(newStatus).value)
      ensures ParseStatus(newStatus).None? || FirstIndexOfId(old(books), bookId).None? ==>
        books == old(books) && saves == old(saves)
      ensures ParseStatus(newStatus).Some? && FirstIndexOfId(old(books), bookId).Some? ==>
        && Label(books[FirstIndexOfId(old(books), bookId).value].status) == newStatus
        && saves == old(saves) + [books]
      ensures |books| == |old(books)|
      ensures TitlesDistinct(old(books)) ==> TitlesDistinct(books)
    {
      var status := ParseStatus(newStatus);
      if status.None? {
        return;
      }
      if TitlesDistinct(books) {
        ChangedStatusKeepsTitlesDistinct(books, bookId, status.value);
      }
      var i := 0;
      while i < |books|
        invariant 0 <= i <= |books|
        invariant books == old(books) && saves == old(saves)
        invariant forall j :: 0 <= j < i ==> books[j].id != bookId
      {
        if books[i].id == bookId {
          assert FirstIndexOfId(books, bookId) == Some(i);
          books := books[i := books[i].(status := status.value)];
          SaveBooks();
          return;
        }
        i := i + 1;
      }
    }
  }

  /** The walk-through of the repository's tests: start without a file, add a
      book, reject a duplicate title and an unknown status, check it out,
      find it, then remove a missing and an existing id. */
  method CatalogWalkThrough(lower: string -> string)
  {
    var lib := new Library("library.json", FileNotFound);
    assert lib.books == [];
    lib.AddBook("Новая книга", "Иван Иванов", 2024);
    assert lib.books == [Book(1, "Новая книга", "Иван Иванов", 2024, Available)];
    assert lib.saves == [lib.books];
    assert HasTitle(lib.books, "Новая книга") by { assert lib.books[0].title == "Новая книга"; }
    lib.AddBook("Новая книга", "Автор Б", 2021);
    assert |lib.books| == 1 && |lib.saves| == 1;
    lib.ChangeStatus(1, "неизвестный статус");
    assert lib.books[0].status == Available;
    lib.ChangeStatus(1, "выдана");
    assert lib.books[0].status == CheckedOut;
    var found := lib.SearchBooks("Новая книга", lower);
    SearchFindsTitleAndYear(lib.books, 0, "Новая книга", lower);
    assert found != [];
    lib.RemoveBook(999);
    assert |lib.books| == 1;
    lib.RemoveBook(1);
    assert lib.books == [];
    var shown := lib.DisplayBooks();
    assert shown == EmptyNotice;
    lib.RemoveBook(1);
    assert lib.books == [];
  }
}
