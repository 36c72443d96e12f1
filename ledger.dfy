/** The borrow/return ledger: the pure specification of the two transactional
    handlers and of the borrow-history query. A handler's outcome is either
    every write it makes or none of them (its transaction is aborted). */
module Ledger {
  import opened Models

  datatype LedgerError =
    | MissingBookId          // the request carries no book id (HTTP 400)
    | BookNotFound           // "Book not found"
    | NoCopiesAvailable      // "No copies available"
    | BorrowRecordNotFound   // "Borrow record not found"

  /** The two collections the handlers read and write. */
  datatype Store = Store(books: seq<Book>, records: seq<BorrowRecord>)

  /** The state after a handler and what it answers. */
  datatype Outcome = Outcome(store: Store, result: Result<BorrowRecord, LedgerError>)

  predicate OpenFor(r: BorrowRecord, user: UserId, book: BookId) {
    r.user == user && r.book == book && r.IsOpen()
  }

  /** The open record of (user, book) with the latest `borrowedAt`; among
      records borrowed at the same time the one inserted last is taken. */
  function LatestOpen(records: seq<BorrowRecord>, user: UserId, book: BookId): (k: Option<nat>)
    ensures k.None? <==> forall i :: 0 <= i < |records| ==> !OpenFor(records[i], user, book)
    ensures k.Some? ==> k.value < |records| && OpenFor(records[k.value], user, book)
    ensures k.Some? ==> forall i :: 0 <= i < |records| && OpenFor(records[i], user, book) ==>
                          records[i].borrowedAt <= records[k.value].borrowedAt
    ensures k.Some? ==> forall i :: k.value < i < |records| && OpenFor(records[i], user, book) ==>
                          records[i].borrowedAt < records[k.value].borrowedAt
  {
    if records == [] then None
    else
      var last := |records| - 1;
      var prev := LatestOpen(records[..last], user, book);
      if OpenFor(records[last], user, book) &&
         (prev.None? || records[prev.value].borrowedAt <= records[last].borrowedAt)
      then Some(last)
      else prev
  }

  /** `borrowBook`: check the book and its copies, append an open record and
      take one copy off the shelf. */
  function Borrow(s: Store, user: UserId, bookId: Option<BookId>, now: Time): (o: Outcome)
    ensures o.result.Success? <==>
              bookId.Some? && FindBook(s.books, bookId.value).Some? &&
              s.books[FindBook(s.books, bookId.value).value].copies > 0
    ensures o.result.Failure? ==> o.store == s
    ensures o.result == Failure(MissingBookId) <==> bookId.None?
    ensures o.result == Failure(BookNotFound) <==> bookId.Some? && FindBook(s.books, bookId.value).None?
    ensures o.result == Failure(NoCopiesAvailable) <==>
              bookId.Some? && FindBook(s.books, bookId.value).Some? &&
              s.books[FindBook(s.books, bookId.value).value].copies <= 0
    ensures o.result.Success? ==>
              var i := FindBook(s.books, bookId.value).value;
              && o.result.value == BorrowRecord(user, bookId.value, now, None)
              && o.store.records == s.records + [o.result.value]
              && s.books[i].copies > 0
              && SameIds(o.store.books, s.books)
              && o.store.books[i] == s.books[i].(copies := s.books[i].copies - 1)
              && forall j :: 0 <= j < |s.books| && j != i ==> o.store.books[j] == s.books[j]
    ensures NonNegativeCopies(s.books) ==> NonNegativeCopies(o.store.books)
  {
    if bookId.None? then Outcome(s, Failure(MissingBookId))
    else
      match FindBook(s.books, bookId.value)
      case None => Outcome(s, Failure(BookNotFound))
      case Some(i) =>
        var book := s.books[i];
        if book.copies <= 0 then Outcome(s, Failure(NoCopiesAvailable))
        else
          var rec := BorrowRecord(user, book.id, now, None);
          Outcome(Store(s.books[i := book.(copies := book.copies - 1)], s.records + [rec]), Success(rec))
  }

  /** `returnBook`: stamp the latest open record of (user, book) and put one
      copy back on the shelf; if the book is gone the whole return aborts. */
  function Return(s: Store, user: UserId, bookId: Option<BookId>, now: Time): (o: Outcome)
    ensures o.result.Success? <==>
              bookId.Some? && LatestOpen(s.records, user, bookId.value).Some? &&
              FindBook(s.books, bookId.value).Some?
    ensures o.result.Failure? ==> o.store == s
    ensures o.result == Failure(MissingBookId) <==> bookId.None?
    ensures o.result == Failure(BorrowRecordNotFound) <==>
              bookId.Some? && LatestOpen(s.records, user, bookId.value).None?
    ensures o.result == Failure(BookNotFound) <==>
              bookId.Some? && LatestOpen(s.records, user, bookId.value).Some? &&
              FindBook(s.books, bookId.value).None?
    ensures o.result.Success? ==>
              var k := LatestOpen(s.records, user, bookId.value).value;
              var i := FindBook(s.books, bookId.value).value;
              && o.result.value == s.records[k].(returnedAt := Some(now))
              && |o.store.records| == |s.records|
              && o.store.records[k] == o.result.value
              && (forall j :: 0 <= j < |s.records| && j != k ==> o.store.records[j] == s.records[j])
              && SameIds(o.store.books, s.books)
              && o.store.books[i] == s.books[i].(copies := s.books[i].copies + 1)
              && (forall j :: 0 <= j < |s.books| && j != i ==> o.store.books[j] == s.books[j])
    ensures NonNegativeCopies(s.books) ==> NonNegativeCopies(o.store.books)
  {
    if bookId.None? then Outcome(s, Failure(MissingBookId))
    else
      match LatestOpen(s.records, user, bookId.value)
      case None => Outcome(s, Failure(BorrowRecordNotFound))
      case Some(k) =>
        var rec := s.records[k].(returnedAt := Some(now));
        match FindBook(s.books, rec.book)
        case None => Outcome(s, Failure(BookNotFound))
        case Some(i) =>
          var book := s.books[i];
          Outcome(Store(s.books[i := book.(copies := book.copies + 1)], s.records[k := rec]), Success(rec))
  }

  /** Number of open records for `book`: copies that are out. */
  function OpenCount(records: seq<BorrowRecord>, book: BookId): nat {
    if records == [] then 0
    else
      var last := records[|records| - 1];
      OpenCount(records[..|records| - 1], book) + (if last.book == book && last.IsOpen() then 1 else 0)
  }

  /** Closing one open record lowers the number of open records for its book by one. */
  lemma {:induction false} OpenCountClose(records: seq<BorrowRecord>, k: nat, t: Time, book: BookId)
    requires k < |records| && records[k].IsOpen()
    ensures OpenCount(records[k := records[k].(returnedAt := Some(t))], book) ==
            OpenCount(records, book) - (if records[k].book == book then 1 else 0)
  {
    var closed := records[k := records[k].(returnedAt := Some(t))];
    var n := |records| - 1;
    if k < n {
      assert closed[..n] == records[..n][k := records[k].(returnedAt := Some(t))];
      OpenCountClose(records[..n], k, t, book);
    } else {
      assert closed[..n] == records[..n];
    }
  }

  /** Copies on the shelf plus copies out is what each handler keeps fixed. */
  function Stock(s: Store, book: BookId): int {
    Copies(s.books, book) + OpenCount(s.records, book)
  }

  /** A borrow moves one copy from the shelf to the ledger. */
  lemma BorrowConservesStock(s: Store, user: UserId, bookId: Option<BookId>, now: Time, book: BookId)
    ensures Stock(Borrow(s, user, bookId, now).store, book) == Stock(s, book)
  {
    var o := Borrow(s, user, bookId, now);
    if o.result.Success? {
      var i := FindBook(s.books, bookId.value).value;
      FindBookSameIds(o.store.books, s.books, book);
      assert o.store.records[..|s.records|] == s.records;
    }
  }

  /** A return moves one copy from the ledger back to the shelf. */
  lemma ReturnConservesStock(s: Store, user: UserId, bookId: Option<BookId>, now: Time, book: BookId)
    ensures Stock(Return(s, user, bookId, now).store, book) == Stock(s, book)
  {
    var o := Return(s, user, bookId, now);
    if o.result.Success? {
      var k := LatestOpen(s.records, user, bookId.value).value;
      FindBookSameIds(o.store.books, s.books, book);
      OpenCountClose(s.records, k, now, book);
    }
  }

  /** A borrow followed by a return of the same book by the same user puts the
      shelf back exactly as it was. When every earlier record was borrowed
      strictly before the borrow, the record the return closes is the one the
      borrow opened. */
  lemma BorrowThenReturn(s: Store, user: UserId, id: BookId, t1: Time, t2: Time)
    requires Borrow(s, user, Some(id), t1).result.Success?
    ensures var s1 := Borrow(s, user, Some(id), t1).store;
            var o2 := Return(s1, user, Some(id), t2);
            && o2.result.Success?
            && o2.store.books == s.books
            && Copies(o2.store.books, id) == Copies(s.books, id)
    ensures (forall j :: 0 <= j < |s.records| ==> s.records[j].borrowedAt < t1) ==>
            Return(Borrow(s, user, Some(id), t1).store, user, Some(id), t2).store.records ==
              s.records + [BorrowRecord(user, id, t1, Some(t2))]
  {
    var s1 := Borrow(s, user, Some(id), t1).store;
    var n := |s.records|;
    assert OpenFor(s1.records[n], user, id);
    FindBookSameIds(s1.books, s.books, id);
    var o2 := Return(s1, user, Some(id), t2);
    var k := LatestOpen(s1.records, user, id).value;
    if forall j :: 0 <= j < n ==> s.records[j].borrowedAt < t1 {
      assert k == n;
    }
  }

  /** Borrow does not look for an open record of the same user and book: a user
      who already holds a copy can take another while copies remain. */
  lemma BorrowAllowsSecondOpenRecord(s: Store, user: UserId, id: BookId, now: Time, k: nat)
    requires k < |s.records| && OpenFor(s.records[k], user, id)
    requires FindBook(s.books, id).Some? && s.books[FindBook(s.books, id).value].copies > 0
    ensures var o := Borrow(s, user, Some(id), now);
            && o.result.Success?
            && OpenFor(o.store.records[k], user, id)
            && OpenFor(o.store.records[|s.records|], user, id)
  {
  }

  /** One request to either handler. */
  datatype Request =
    | BorrowRequest(user: UserId, bookId: Option<BookId>, now: Time)
    | ReturnRequest(user: UserId, bookId: Option<BookId>, now: Time)

  function Apply(s: Store, req: Request): Store {
    match req
    case BorrowRequest(u, b, t) => Borrow(s, u, b, t).store
    case ReturnRequest(u, b, t) => Return(s, u, b, t).store
  }

  /** The state after the requests are handled one after another. */
  function Run(s: Store, reqs: seq<Request>): Store
    decreases |reqs|
  {
    if reqs == [] then s else Run(Apply(s, reqs[0]), reqs[1..])
  }

  /** Over any sequence of borrows and returns, copies on the shelf stay
      non-negative and shelf plus ledger stays what it was; so the copies out
      never exceed what was there to begin with. */
  lemma {:induction false} RunKeepsStock(s: Store, reqs: seq<Request>, book: BookId)
    requires NonNegativeCopies(s.books)
    ensures NonNegativeCopies(Run(s, reqs).books)
    ensures Stock(Run(s, reqs), book) == Stock(s, book)
    ensures OpenCount(Run(s, reqs).records, book) <= Copies(s.books, book) + OpenCount(s.records, book)
    decreases |reqs|
  {
    if reqs != [] {
      var s1 := Apply(s, reqs[0]);
      match reqs[0] {
        case BorrowRequest(u, b, t) => BorrowConservesStock(s, u, b, t, book);
        case ReturnRequest(u, b, t) => ReturnConservesStock(s, u, b, t, book);
      }
      RunKeepsStock(s1, reqs[1..], book);
      assert Run(s, reqs) == Run(s1, reqs[1..]);
    }
    var f := Run(s, reqs);
    match FindBook(f.books, book) {
      case Some(i) => assert f.books[i].copies >= 0;
      case None =>
    }
  }

  /** A history line: the record with its book's title and author, or no book
      when it has been deleted. */
  datatype BookSummary = BookSummary(id: BookId, title: string, author: string)
  datatype HistoryEntry = HistoryEntry(record: BorrowRecord, book: Option<BookSummary>)

  function Populate(books: seq<Book>, rec: BorrowRecord): HistoryEntry {
    match FindBook(books, rec.book)
    case Some(i) => HistoryEntry(rec, Some(BookSummary(books[i].id, books[i].title, books[i].author)))
    case None => HistoryEntry(rec, None)
  }

  /** The records of a history, in order. */
  function Records(h: seq<HistoryEntry>): (rs: seq<BorrowRecord>)
    ensures |rs| == |h| && forall i :: 0 <= i < |h| ==> rs[i] == h[i].record
  {
    seq(|h|, i requires 0 <= i < |h| => h[i].record)
  }

  lemma RecordsSnoc(h: seq<HistoryEntry>, e: HistoryEntry)
    ensures Records(h + [e]) == Records(h) + [e.record]
  {
    assert |Records(h + [e])| == |Records(h) + [e.record]|;
  }

  /** `borrowHistory`: the user's records, in stored order, each joined with
      the title and author of its book. Every record of the user appears as
      often as it is stored, and no other record appears. */
  function History(s: Store, user: UserId): (h: seq<HistoryEntry>)
    ensures Subsequence(Records(h), s.records)
    ensures forall r :: multiset(Records(h))[r] == if r.user == user then multiset(s.records)[r] else 0
    ensures forall i :: 0 <= i < |h| ==> h[i] == Populate(s.books, h[i].record)
    decreases |s.records|
  {
    if s.records == [] then []
    else
      var n := |s.records| - 1;
      var prev := History(Store(s.books, s.records[..n]), user);
      assert s.records == s.records[..n] + [s.records[n]];
      HistoryStep(s.books, s.records[..n], user, prev, s.records[n]);
      prev + (if s.records[n].user == user then [Populate(s.books, s.records[n])] else [])
  }

  /** One more stored record extends the history by its line exactly when the
      record is the user's. */
  lemma HistoryStep(books: seq<Book>, rs: seq<BorrowRecord>, user: UserId, prev: seq<HistoryEntry>, r: BorrowRecord)
    requires Subsequence(Records(prev), rs)
    requires forall x :: multiset(Records(prev))[x] == if x.user == user then multiset(rs)[x] else 0
    requires forall i :: 0 <= i < |prev| ==> prev[i] == Populate(books, prev[i].record)
    ensures var h := prev + (if r.user == user then [Populate(books, r)] else []);
            && Subsequence(Records(h), rs + [r])
            && (forall x :: multiset(Records(h))[x] == if x.user == user then multiset(rs + [r])[x] else 0)
            && (forall i :: 0 <= i < |h| ==> h[i] == Populate(books, h[i].record))
  {
    SubsequenceSnoc(Records(prev), rs, r);
    assert multiset(rs + [r]) == multiset(rs) + multiset{r};
    if r.user == user {
      var h := prev + [Populate(books, r)];
      RecordsSnoc(prev, Populate(books, r));
      assert multiset(Records(h)) == multiset(Records(prev)) + multiset{r};
      assert forall i :: 0 <= i < |prev| ==> h[i] == prev[i];
    } else {
      assert prev + [] == prev;
    }
  }

  /** Each history line holds a record of the user, each record of the user
      has its line, and a line carries its book's id, title and author, or
      no book once the book is gone. */
  lemma HistoryEntries(s: Store, user: UserId)
    ensures var h := History(s, user);
            && (forall e :: e in h ==> e.record in s.records && e.record.user == user)
            && (forall j :: 0 <= j < |s.records| && s.records[j].user == user ==> Populate(s.books, s.records[j]) in h)
            && (forall e :: e in h ==>
                  match FindBook(s.books, e.record.book)
                  case Some(i) => e.book == Some(BookSummary(e.record.book, s.books[i].title, s.books[i].author))
                  case None => e.book.None?)
  {
    var h := History(s, user);
    var rs := Records(h);
    forall e | e in h ensures e.record in s.records && e.record.user == user {
      var i :| 0 <= i < |h| && h[i] == e;
      assert rs[i] == e.record;
      assert multiset(rs)[e.record] > 0;
    }
    forall j | 0 <= j < |s.records| && s.records[j].user == user
      ensures Populate(s.books, s.records[j]) in h
    {
      var r := s.records[j];
      assert multiset(s.records)[r] > 0;
      assert r in rs;
      var i :| 0 <= i < |rs| && rs[i] == r;
      assert h[i] == Populate(s.books, r);
    }
  }
}
