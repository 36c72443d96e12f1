/** The three report handlers: most borrowed books, most active members and
    the availability summary per genre. Each is an aggregation over the
    stored collections followed by a lookup per result row. */
module Reports {
  import opened Models
  import opened Aggregate
  import Ledger

  /** The `$limit` of the two ranking reports. */
  const TopCount: nat := 5

  /** Number of borrow records, open or closed, for `book`. */
  function BorrowCount(records: seq<BorrowRecord>, book: BookId): nat {
    if records == [] then 0
    else BorrowCount(records[..|records| - 1], book) + (if records[|records| - 1].book == book then 1 else 0)
  }

  /** Number of borrow records, open or closed, made by `user`. */
  function MemberBorrowCount(records: seq<BorrowRecord>, user: UserId): nat {
    if records == [] then 0
    else MemberBorrowCount(records[..|records| - 1], user) + (if records[|records| - 1].user == user then 1 else 0)
  }

  /** The `$group` input keyed by book: one item per record, summing 1. */
  function BookItems(records: seq<BorrowRecord>): (items: seq<(BookId, int)>)
    ensures |items| == |records|
  {
    if records == [] then [] else BookItems(records[..|records| - 1]) + [(records[|records| - 1].book, 1)]
  }

  /** The `$group` input keyed by user: one item per record, summing 1. */
  function MemberItems(records: seq<BorrowRecord>): (items: seq<(UserId, int)>)
    ensures |items| == |records|
  {
    if records == [] then [] else MemberItems(records[..|records| - 1]) + [(records[|records| - 1].user, 1)]
  }

  lemma {:induction false} BookItemsCount(records: seq<BorrowRecord>, book: BookId)
    ensures CountKey(BookItems(records), book) == BorrowCount(records, book)
  {
    if records != [] {
      var n := |records| - 1;
      assert BookItems(records)[..n] == BookItems(records[..n]);
      BookItemsCount(records[..n], book);
    }
  }

  lemma {:induction false} MemberItemsCount(records: seq<BorrowRecord>, user: UserId)
    ensures CountKey(MemberItems(records), user) == MemberBorrowCount(records, user)
  {
    if records != [] {
      var n := |records| - 1;
      assert MemberItems(records)[..n] == MemberItems(records[..n]);
      MemberItemsCount(records[..n], user);
    }
  }

  /** The book pipeline of `mostBorrowedBooks`: at most five books, most
      borrowed first, each once with its number of borrow records, and no
      left-out book borrowed more often than a listed one. */
  function RankBooks(records: seq<BorrowRecord>): (r: seq<Bucket<BookId>>)
    ensures |r| <= TopCount && NonIncreasing(r) && DistinctKeys(r)
    ensures forall i :: 0 <= i < |r| ==> r[i].count == BorrowCount(records, r[i].key) > 0
    ensures forall b :: BorrowCount(records, b) > 0 && b !in BucketKeys(r) ==>
              |r| == TopCount && forall i :: 0 <= i < |r| ==> BorrowCount(records, b) <= r[i].count
  {
    forall b { BookItemsCount(records, b); }
    Rank(BookItems(records), TopCount)
  }

  /** The user pipeline of `activeMembers`, with the same guarantees. */
  function RankMembers(records: seq<BorrowRecord>): (r: seq<Bucket<UserId>>)
    ensures |r| <= TopCount && NonIncreasing(r) && DistinctKeys(r)
    ensures forall i :: 0 <= i < |r| ==> r[i].count == MemberBorrowCount(records, r[i].key) > 0
    ensures forall u :: MemberBorrowCount(records, u) > 0 && u !in BucketKeys(r) ==>
              |r| == TopCount && forall i :: 0 <= i < |r| ==> MemberBorrowCount(records, u) <= r[i].count
  {
    forall u { MemberItemsCount(records, u); }
    Rank(MemberItems(records), TopCount)
  }

  /** A row of the most-borrowed report; title and author are absent when
      the book has been deleted. */
  datatype BorrowedBook = BorrowedBook(title: Option<string>, author: Option<string>, count: nat)

  function BookRow(books: seq<Book>, b: Bucket<BookId>): BorrowedBook {
    match FindBook(books, b.key)
    case Some(j) => BorrowedBook(Some(books[j].title), Some(books[j].author), b.count)
    case None => BorrowedBook(None, None, b.count)
  }

  /** The per-row `findById` of the ranked books. */
  function BookRows(books: seq<Book>, ranked: seq<Bucket<BookId>>): (r: seq<BorrowedBook>)
    ensures |r| == |ranked| && forall i :: 0 <= i < |r| ==> r[i] == BookRow(books, ranked[i])
  {
    seq(|ranked|, i requires 0 <= i < |ranked| => BookRow(books, ranked[i]))
  }

  /** `mostBorrowedBooks`. */
  function MostBorrowedBooks(books: seq<Book>, records: seq<BorrowRecord>): (r: seq<BorrowedBook>)
    ensures |r| <= TopCount
    ensures forall i, j :: 0 <= i < j < |r| ==> r[i].count >= r[j].count
    ensures var ranked := RankBooks(records);
            && |r| == |ranked|
            && forall i :: 0 <= i < |r| ==>
                 && r[i].count == BorrowCount(records, ranked[i].key)
                 && (FindBook(books, ranked[i].key).None? ==> r[i].title.None? && r[i].author.None?)
                 && (FindBook(books, ranked[i].key).Some? ==>
                       var j := FindBook(books, ranked[i].key).value;
                       r[i].title == Some(books[j].title) && r[i].author == Some(books[j].author))
  {
    BookRows(books, RankBooks(records))
  }

  /** A row of the active-members report; name and email are absent when the
      user is not found. */
  datatype ActiveMember = ActiveMember(name: Option<string>, email: Option<string>, totalBorrows: nat)

  function MemberRow(users: map<UserId, User>, b: Bucket<UserId>): ActiveMember {
    if b.key in users then ActiveMember(Some(users[b.key].name), Some(users[b.key].email), b.count)
    else ActiveMember(None, None, b.count)
  }

  /** The per-row `findById` of the ranked users. */
  function MemberRows(users: map<UserId, User>, ranked: seq<Bucket<UserId>>): (r: seq<ActiveMember>)
    ensures |r| == |ranked| && forall i :: 0 <= i < |r| ==> r[i] == MemberRow(users, ranked[i])
  {
    seq(|ranked|, i requires 0 <= i < |ranked| => MemberRow(users, ranked[i]))
  }

  /** `activeMembers`. */
  function ActiveMembers(users: map<UserId, User>, records: seq<BorrowRecord>): (r: seq<ActiveMember>)
    ensures |r| <= TopCount
    ensures forall i, j :: 0 <= i < j < |r| ==> r[i].totalBorrows >= r[j].totalBorrows
    ensures var ranked := RankMembers(records);
            && |r| == |ranked|
            && forall i :: 0 <= i < |r| ==>
                 && r[i].totalBorrows == MemberBorrowCount(records, ranked[i].key)
                 && (ranked[i].key in users ==>
                       r[i].name == Some(users[ranked[i].key].name) && r[i].email == Some(users[ranked[i].key].email))
                 && (ranked[i].key !in users ==> r[i].name.None? && r[i].email.None?)
  {
    MemberRows(users, RankMembers(records))
  }

  /** Number of books of genre `g` (absent genres form their own group). */
  function GenreBooks(books: seq<Book>, g: Option<string>): nat {
    if books == [] then 0
    else GenreBooks(books[..|books| - 1], g) + (if books[|books| - 1].genre == g then 1 else 0)
  }

  /** Copies on the shelf over the books of genre `g`. */
  function GenreCopies(books: seq<Book>, g: Option<string>): int {
    if books == [] then 0
    else GenreCopies(books[..|books| - 1], g) + (if books[|books| - 1].genre == g then books[|books| - 1].copies else 0)
  }

  /** Copies on the shelf over all books. */
  function AllCopies(books: seq<Book>): int {
    if books == [] then 0 else AllCopies(books[..|books| - 1]) + books[|books| - 1].copies
  }

  /** The `$group` input keyed by genre: one item per book, summing its copies. */
  function GenreItems(books: seq<Book>): (items: seq<(Option<string>, int)>)
    ensures |items| == |books|
  {
    if books == [] then [] else GenreItems(books[..|books| - 1]) + [(books[|books| - 1].genre, books[|books| - 1].copies)]
  }

  /** Per genre, the `$group` input counts that genre's books and sums their copies. */
  lemma {:induction false} GenreItemsSums(books: seq<Book>, g: Option<string>)
    ensures CountKey(GenreItems(books), g) == GenreBooks(books, g)
    ensures SumKey(GenreItems(books), g) == GenreCopies(books, g)
  {
    if books != [] {
      var n := |books| - 1;
      assert GenreItems(books)[..n] == GenreItems(books[..n]);
      GenreItemsSums(books[..n], g);
    }
  }

  /** Over all genres, the `$group` input sums every book's copies. */
  lemma {:induction false} GenreItemsTotal(books: seq<Book>)
    ensures SumAll(GenreItems(books)) == AllCopies(books)
  {
    if books != [] {
      var n := |books| - 1;
      assert GenreItems(books)[..n] == GenreItems(books[..n]);
      GenreItemsTotal(books[..n]);
    }
  }

  /** The keys of the `$group` input are the genres of the books. */
  lemma {:induction false} GenreItemsKeys(books: seq<Book>)
    ensures ItemKeys(GenreItems(books)) == set i | 0 <= i < |books| :: books[i].genre
  {
    if books != [] {
      var n := |books| - 1;
      var prev := GenreItems(books[..n]);
      assert GenreItems(books) == prev + [(books[n].genre, books[n].copies)];
      GenreItemsKeys(books[..n]);
      ItemKeysSnoc(prev, (books[n].genre, books[n].copies));
      assert (set i | 0 <= i < |books| :: books[i].genre) ==
             (set i | 0 <= i < n :: books[..n][i].genre) + {books[n].genre};
    }
  }

  /** One summary row per genre: `key` is the genre, `count` the number of
      its books (`totalBooks`), `total` the sum of their copies (`totalCopies`). */
  type GenreSummary = Bucket<Option<string>>

  /** The answer of `bookAvailability`. */
  datatype Availability = Availability(totalBorrowed: nat, summary: seq<GenreSummary>)

  /** `countDocuments({ returnedAt: { $exists: false } })`. */
  function OpenRecords(records: seq<BorrowRecord>): (n: nat)
    ensures n <= |records|
    ensures n == 0 <==> forall i :: 0 <= i < |records| ==> !records[i].IsOpen()
    ensures n == |records| <==> forall i :: 0 <= i < |records| ==> records[i].IsOpen()
  {
    if records == [] then 0
    else
      var last := |records| - 1;
      assert forall i :: 0 <= i < last ==> records[..last][i] == records[i];
      OpenRecords(records[..last]) + (if records[last].IsOpen() then 1 else 0)
  }

  /** `bookAvailability`. */
  function BookAvailability(books: seq<Book>, records: seq<BorrowRecord>): (a: Availability)
    ensures a.totalBorrowed == OpenRecords(records)
    ensures DistinctKeys(a.summary)
    ensures BucketKeys(a.summary) == set i | 0 <= i < |books| :: books[i].genre
    ensures forall i :: 0 <= i < |a.summary| ==>
              && a.summary[i].count == GenreBooks(books, a.summary[i].key)
              && a.summary[i].total == GenreCopies(books, a.summary[i].key)
    ensures CountSum(a.summary) == |books|
    ensures TotalSum(a.summary) == AllCopies(books)
  {
    var items := GenreItems(books);
    var summary := Group(items);
    forall g { GenreItemsSums(books, g); }
    GenreItemsTotal(books);
    GenreItemsKeys(books);
    forall i | 0 <= i < |summary| { LookupDistinct(summary, i); }
    Availability(OpenRecords(records), summary)
  }

  /** Closing one open record lowers the open count by one. */
  lemma {:induction false} OpenRecordsClose(records: seq<BorrowRecord>, k: nat, t: Time)
    requires k < |records| && records[k].IsOpen()
    ensures OpenRecords(records[k := records[k].(returnedAt := Some(t))]) == OpenRecords(records) - 1
  {
    var closed := records[k := records[k].(returnedAt := Some(t))];
    var n := |records| - 1;
    assert OpenRecords(closed) == OpenRecords(closed[..n]) + (if closed[n].IsOpen() then 1 else 0);
    assert OpenRecords(records) == OpenRecords(records[..n]) + (if records[n].IsOpen() then 1 else 0);
    if k < n {
      assert closed[..n] == records[..n][k := records[k].(returnedAt := Some(t))];
      OpenRecordsClose(records[..n], k, t);
    } else {
      assert closed[..n] == records[..n];
    }
  }

  /** `totalBorrowed` goes up by one with each successful borrow and down by
      one with each successful return, and is unchanged by a failed one. */
  lemma TotalBorrowedTracksLedger(s: Ledger.Store, user: UserId, bookId: Option<BookId>, now: Time)
    ensures var o := Ledger.Borrow(s, user, bookId, now);
            OpenRecords(o.store.records) == OpenRecords(s.records) + (if o.result.Success? then 1 else 0)
    ensures var o := Ledger.Return(s, user, bookId, now);
            OpenRecords(o.store.records) + (if o.result.Success? then 1 else 0) == OpenRecords(s.records)
  {
    var b := Ledger.Borrow(s, user, bookId, now);
    if b.result.Success? {
      assert b.store.records[..|s.records|] == s.records;
    }
    var r := Ledger.Return(s, user, bookId, now);
    if r.result.Success? {
      OpenRecordsClose(s.records, Ledger.LatestOpen(s.records, user, bookId.value).value, now);
    }
  }
}
