/** The database the handlers share, with each state-changing handler as an
    imperative method: it fetches a document, changes it, saves it back, and
    on a thrown error aborts its transaction, which discards every write made
    since the transaction began. */
module Service {
  import opened Models
  import Ledger
  import Catalog

  /** Ids are unique and all below the next id to hand out. */
  predicate IdsBelow(books: seq<Book>, bound: BookId) {
    UniqueIds(books) && forall i :: 0 <= i < |books| ==> books[i].id < bound
  }

  /** Replacing a document by one with the same id keeps the ids as they were. */
  lemma SameIdKeepsIds(books: seq<Book>, bound: BookId, i: nat, b: Book)
    requires IdsBelow(books, bound) && i < |books| && b.id == books[i].id
    ensures IdsBelow(books[i := b], bound)
  {
    assert SameIds(books[i := b], books);
  }

  class Library {
    var books: seq<Book>
    var records: seq<BorrowRecord>
    /** The id the next added book receives (a stand-in for ObjectId generation). */
    var nextId: BookId

    ghost predicate Valid()
      reads this
    {
      IdsBelow(books, nextId)
    }

    function State(): Ledger.Store
      reads this
    {
      Ledger.Store(books, records)
    }

    constructor ()
      ensures Valid() && books == [] && records == []
    {
      books, records, nextId := [], [], 0;
    }

    /** `session.abortTransaction()`: every write since `snapshot` is undone. */
    method Rollback(snapshot: Ledger.Store)
      modifies this
      ensures State() == snapshot && nextId == old(nextId)
    {
      books, records := snapshot.books, snapshot.records;
    }

    /** `borrowBook`. */
    method BorrowBook(user: UserId, bookId: Option<BookId>, now: Time) returns (r: Result<BorrowRecord, Ledger.LedgerError>)
      requires Valid()
      modifies this
      ensures Valid() && nextId == old(nextId)
      ensures Ledger.Outcome(State(), r) == Ledger.Borrow(old(State()), user, bookId, now)
      ensures r.Failure? ==> books == old(books) && records == old(records)
      ensures NonNegativeCopies(old(books)) ==> NonNegativeCopies(books)
    {
      var snapshot := State();
      if bookId.None? {
        return Failure(Ledger.MissingBookId);
      }
      var found := FindBook(books, bookId.value);
      if found.None? {
        Rollback(snapshot);
        return Failure(Ledger.BookNotFound);
      }
      var i := found.value;
      var book := books[i];
      if book.copies <= 0 {
        Rollback(snapshot);
        return Failure(Ledger.NoCopiesAvailable);
      }
      var borrow := BorrowRecord(user, book.id, now, None);
      records := records + [borrow];
      book := book.(copies := book.copies - 1);
      SameIdKeepsIds(books, nextId, i, book);
      books := books[i := book];
      r := Success(borrow);
    }

    /** `returnBook`: the record is stamped and saved before the book is
        looked up, so a missing book rolls that write back. */
    method ReturnBook(user: UserId, bookId: Option<BookId>, now: Time) returns (r: Result<BorrowRecord, Ledger.LedgerError>)
      requires Valid()
      modifies this
      ensures Valid() && nextId == old(nextId)
      ensures Ledger.Outcome(State(), r) == Ledger.Return(old(State()), user, bookId, now)
      ensures r.Failure? ==> books == old(books) && records == old(records)
      ensures NonNegativeCopies(old(books)) ==> NonNegativeCopies(books)
    {
      var snapshot := State();
      if bookId.None? {
        return Failure(Ledger.MissingBookId);
      }
      var latest := Ledger.LatestOpen(records, user, bookId.value);
      if latest.None? {
        Rollback(snapshot);
        return Failure(Ledger.BorrowRecordNotFound);
      }
      var k := latest.value;
      var borrow := records[k].(returnedAt := Some(now));
      records := records[k := borrow];
      var found := FindBook(books, borrow.book);
      if found.None? {
        Rollback(snapshot);
        return Failure(Ledger.BookNotFound);
      }
      var i := found.value;
      var book := books[i];
      book := book.(copies := book.copies + 1);
      SameIdKeepsIds(books, nextId, i, book);
      books := books[i := book];
      r := Success(borrow);
    }

    /** `addBook`. */
    method AddBook(input: Catalog.BookInput) returns (r: Result<Book, Catalog.CatalogError>)
      requires Valid()
      modifies this
      ensures Valid() && records == old(records)
      ensures Catalog.Change(books, r) == Catalog.Add(old(books), old(nextId), input)
    {
      if !(Given(input.title) && Given(input.author) && Given(input.isbn)) {
        return Failure(Catalog.MissingRequiredFields);
      }
      if Catalog.IsbnTaken(books, input.isbn.value) {
        return Failure(Catalog.DuplicateIsbn);
      }
      var book := Book(nextId, input.title.value, input.author.value, input.isbn.value,
                       input.publicationDate, input.genre, Catalog.DefaultCopies(input.copies));
      books := books + [book];
      nextId := nextId + 1;
      r := Success(book);
    }

    /** `updateBook`. */
    method UpdateBook(id: BookId, patch: Catalog.BookPatch) returns (r: Result<Book, Catalog.CatalogError>)
      requires Valid()
      modifies this
      ensures Valid() && records == old(records) && nextId == old(nextId)
      ensures Catalog.Change(books, r) == Catalog.Update(old(books), id, patch)
    {
      var found := FindBook(books, id);
      if found.None? {
        return Failure(Catalog.BookNotFound);
      }
      var i := found.value;
      var book := Catalog.Patch(books[i], patch);
      SameIdKeepsIds(books, nextId, i, book);
      books := books[i := book];
      r := Success(book);
    }

    /** `deleteBook`. */
    method DeleteBook(id: BookId) returns (r: Result<Book, Catalog.CatalogError>)
      requires Valid()
      modifies this
      ensures Valid() && records == old(records) && nextId == old(nextId)
      ensures Catalog.Change(books, r) == Catalog.Delete(old(books), id)
    {
      var found := FindBook(books, id);
      if found.None? {
        return Failure(Catalog.BookNotFound);
      }
      var i := found.value;
      var deleted := books[i];
      books := books[..i] + books[i + 1..];
      r := Success(deleted);
    }
  }
}
