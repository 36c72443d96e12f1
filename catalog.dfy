/** The book catalog handlers: add (with required fields, a unique ISBN and a
    default copy count), update and delete by id, and the filtered, paginated
    listing. */
module Catalog {
  import opened Models

  datatype CatalogError =
    | MissingRequiredFields  // "Title, author, and ISBN are required." (HTTP 400)
    | DuplicateIsbn          // "A book with this ISBN already exists." (HTTP 409)
    | BookNotFound           // "Book not found." (HTTP 404)

  /** The fields of an add request; any of them may be absent. */
  datatype BookInput = BookInput(
    title: Option<string>,
    author: Option<string>,
    isbn: Option<string>,
    publicationDate: Option<Time>,
    genre: Option<string>,
    copies: Option<int>)

  /** The fields an update request sets; the absent ones are left alone. */
  datatype BookPatch = BookPatch(
    title: Option<string>,
    author: Option<string>,
    isbn: Option<string>,
    publicationDate: Option<Time>,
    genre: Option<string>,
    copies: Option<int>)

  /** The collection and the handler's answer. */
  datatype Change = Change(books: seq<Book>, result: Result<Book, CatalogError>)

  predicate IsbnTaken(books: seq<Book>, isbn: string) {
    exists i :: 0 <= i < |books| && books[i].isbn == isbn
  }

  predicate UniqueIsbns(books: seq<Book>) {
    forall i, j :: 0 <= i < j < |books| ==> books[i].isbn != books[j].isbn
  }

  /** `copies || 1`: an absent or zero count becomes 1. */
  function DefaultCopies(copies: Option<int>): int {
    if copies.None? || copies.value == 0 then 1 else copies.value
  }

  /** `addBook`, storing the new document under the fresh id `id`. */
  function Add(books: seq<Book>, id: BookId, input: BookInput): (c: Change)
    ensures c.result.Success? <==>
              Given(input.title) && Given(input.author) && Given(input.isbn) &&
              !IsbnTaken(books, input.isbn.value)
    ensures c.result.Failure? ==> c.books == books
    ensures c.result == Failure(MissingRequiredFields) <==>
              !(Given(input.title) && Given(input.author) && Given(input.isbn))
    ensures c.result == Failure(DuplicateIsbn) <==>
              Given(input.title) && Given(input.author) && Given(input.isbn) &&
              IsbnTaken(books, input.isbn.value)
    ensures c.result.Success? ==>
              && c.books == books + [c.result.value]
              && c.result.value == Book(id, input.title.value, input.author.value, input.isbn.value,
                                        input.publicationDate, input.genre, c.result.value.copies)
              && c.result.value.copies != 0
              && (input.copies.None? || input.copies.value == 0 ==> c.result.value.copies == 1)
              && (input.copies.Some? && input.copies.value != 0 ==> c.result.value.copies == input.copies.value)
    ensures UniqueIsbns(books) ==> UniqueIsbns(c.books)
    ensures UniqueIds(books) && FindBook(books, id).None? ==> UniqueIds(c.books)
    ensures NonNegativeCopies(books) ==>
              (NonNegativeCopies(c.books) <==> c.result.Failure? || input.copies.None? || input.copies.value >= 0)
  {
    if !(Given(input.title) && Given(input.author) && Given(input.isbn)) then
      Change(books, Failure(MissingRequiredFields))
    else if IsbnTaken(books, input.isbn.value) then
      Change(books, Failure(DuplicateIsbn))
    else
      var book := Book(id, input.title.value, input.author.value, input.isbn.value,
                       input.publicationDate, input.genre, DefaultCopies(input.copies));
      assert (books + [book])[|books|] == book;
      assert forall i :: 0 <= i < |books| ==> (books + [book])[i] == books[i];
      Change(books + [book], Success(book))
  }

  /** The document after an update: each given field replaced, the rest kept. */
  function Patch(b: Book, p: BookPatch): (r: Book)
    ensures r.id == b.id
  {
    Book(b.id,
         if p.title.Some? then p.title.value else b.title,
         if p.author.Some? then p.author.value else b.author,
         if p.isbn.Some? then p.isbn.value else b.isbn,
         if p.publicationDate.Some? then p.publicationDate else b.publicationDate,
         if p.genre.Some? then p.genre else b.genre,
         if p.copies.Some? then p.copies.value else b.copies)
  }

  /** An update body that sets no field. */
  const NoChange := BookPatch(None, None, None, None, None, None)

  /** The update body that sets what `q` sets and, elsewhere, what `p` sets. */
  function Then(p: BookPatch, q: BookPatch): BookPatch {
    BookPatch(if q.title.Some? then q.title else p.title,
              if q.author.Some? then q.author else p.author,
              if q.isbn.Some? then q.isbn else p.isbn,
              if q.publicationDate.Some? then q.publicationDate else p.publicationDate,
              if q.genre.Some? then q.genre else p.genre,
              if q.copies.Some? then q.copies else p.copies)
  }

  /** A body that sets nothing leaves the document as it was. */
  lemma PatchNoChange(b: Book)
    ensures Patch(b, NoChange) == b
  {
  }

  /** Applying the same update twice is applying it once. */
  lemma PatchIdempotent(b: Book, p: BookPatch)
    ensures Patch(Patch(b, p), p) == Patch(b, p)
  {
  }

  /** Two updates in a row are one update in which the later one wins on
      every field it sets. */
  lemma PatchThen(b: Book, p: BookPatch, q: BookPatch)
    ensures Patch(Patch(b, p), q) == Patch(b, Then(p, q))
  {
  }

  /** An update leaves a document unchanged exactly when every field it sets
      already holds the given value. */
  lemma PatchUnchanged(b: Book, p: BookPatch)
    ensures Patch(b, p) == b <==>
              && (p.title.Some? ==> p.title.value == b.title)
              && (p.author.Some? ==> p.author.value == b.author)
              && (p.isbn.Some? ==> p.isbn.value == b.isbn)
              && (p.publicationDate.Some? ==> p.publicationDate == b.publicationDate)
              && (p.genre.Some? ==> p.genre == b.genre)
              && (p.copies.Some? ==> p.copies.value == b.copies)
  {
  }

  /** `updateBook`: answers the updated document. */
  function Update(books: seq<Book>, id: BookId, p: BookPatch): (c: Change)
    ensures c.result.Success? <==> FindBook(books, id).Some?
    ensures c.result == Failure(BookNotFound) <==> FindBook(books, id).None?
    ensures c.result.Failure? ==> c.books == books
    ensures c.result.Success? ==>
              var i := FindBook(books, id).value;
              && c.result.value == Patch(books[i], p)
              && |c.books| == |books| && c.books[i] == c.result.value
              && forall j :: 0 <= j < |books| && j != i ==> c.books[j] == books[j]
    ensures SameIds(c.books, books)
    ensures NonNegativeCopies(books) ==>
              (NonNegativeCopies(c.books) <==> c.result.Failure? || p.copies.None? || p.copies.value >= 0)
  {
    match FindBook(books, id)
    case None => Change(books, Failure(BookNotFound))
    case Some(i) =>
      var book := Patch(books[i], p);
      Change(books[i := book], Success(book))
  }

  /** An update that sets nothing leaves the collection as it was. */
  lemma UpdateNothing(books: seq<Book>, id: BookId)
    ensures Update(books, id, NoChange).books == books
  {
    if FindBook(books, id).Some? {
      PatchNoChange(books[FindBook(books, id).value]);
    }
  }

  /** Where each document of `books[..i] + books[i + 1..]` came from. */
  lemma RemoveAtIndex(books: seq<Book>, i: nat)
    requires i < |books|
    ensures var rest := books[..i] + books[i + 1..];
            |rest| == |books| - 1 &&
            forall j :: 0 <= j < |rest| ==> rest[j] == books[if j < i then j else j + 1]
  {
  }

  /** Removing the document at `i` keeps every other document, and keeps ids unique. */
  lemma RemoveAtKeepsOthers(books: seq<Book>, i: nat, id: BookId)
    requires i < |books| && books[i].id == id
    ensures var rest := books[..i] + books[i + 1..];
            && (forall j :: 0 <= j < |books| && books[j].id != id ==> books[j] in rest)
            && (forall b :: b in rest ==> b in books)
            && (UniqueIds(books) ==> UniqueIds(rest) && FindBook(rest, id).None?)
  {
    var rest := books[..i] + books[i + 1..];
    RemoveAtIndex(books, i);
    forall j | 0 <= j < |books| && j != i ensures books[j] in rest {
      assert rest[if j < i then j else j - 1] == books[j];
    }
    forall b | b in rest ensures b in books {
      var j :| 0 <= j < |rest| && rest[j] == b;
    }
    if UniqueIds(books) {
      forall a, b | 0 <= a < b < |rest| ensures rest[a].id != rest[b].id {
        assert rest[a] == books[if a < i then a else a + 1];
      }
      forall j | 0 <= j < |rest| ensures rest[j].id != id {
        assert rest[j] == books[if j < i then j else j + 1];
      }
    }
  }

  /** `deleteBook`: removes the document, keeping the others in order. */
  function Delete(books: seq<Book>, id: BookId): (c: Change)
    ensures c.result.Success? <==> FindBook(books, id).Some?
    ensures c.result == Failure(BookNotFound) <==> FindBook(books, id).None?
    ensures c.result.Failure? ==> c.books == books
    ensures c.result.Success? ==>
              var i := FindBook(books, id).value;
              && c.result.value == books[i]
              && c.books == books[..i] + books[i + 1..]
              && |c.books| == |books| - 1
    ensures forall j :: 0 <= j < |books| && books[j].id != id ==> books[j] in c.books
    ensures forall b :: b in c.books ==> b in books
    ensures UniqueIds(books) ==> UniqueIds(c.books) && FindBook(c.books, id).None?
  {
    match FindBook(books, id)
    case None => Change(books, Failure(BookNotFound))
    case Some(i) =>
      var rest := books[..i] + books[i + 1..];
      RemoveAtKeepsOthers(books, i, id);
      Change(rest, Success(books[i]))
  }

  /** The query of `listBooks`: page and limit as numbers, author and genre as
      exact-match filters that apply only when given and non-empty. */
  datatype ListQuery = ListQuery(page: Option<nat>, limit: Option<nat>, author: Option<string>, genre: Option<string>)

  /** The answer of `listBooks`. */
  datatype BookPage = BookPage(total: nat, page: nat, books: seq<Book>)

  function PageNumber(q: ListQuery): nat {
    if q.page.Some? then q.page.value else 1
  }

  function PageSize(q: ListQuery): nat {
    if q.limit.Some? then q.limit.value else 10
  }

  /** `(page - 1) * limit`: how many matches come before the page. */
  function Skip(q: ListQuery): nat
    requires PageNumber(q) >= 1
  {
    (PageNumber(q) - 1) * PageSize(q)
  }

  predicate Matches(b: Book, author: Option<string>, genre: Option<string>) {
    && (Given(author) ==> b.author == author.value)
    && (Given(genre) ==> b.genre == genre)
  }

  /** `Book.find(query)`: the matching documents in stored order. */
  function Filter(books: seq<Book>, author: Option<string>, genre: Option<string>): (m: seq<Book>)
    ensures |m| <= |books|
    ensures forall b :: b in m <==> b in books && Matches(b, author, genre)
    ensures !Given(author) && !Given(genre) ==> m == books
  {
    if books == [] then []
    else
      var n := |books| - 1;
      var prev := Filter(books[..n], author, genre);
      assert books == books[..n] + [books[n]];
      prev + (if Matches(books[n], author, genre) then [books[n]] else [])
  }

  /** The matches keep the stored order. */
  lemma {:induction false} FilterKeepsOrder(books: seq<Book>, author: Option<string>, genre: Option<string>)
    ensures Subsequence(Filter(books, author, genre), books)
  {
    if books != [] {
      var n := |books| - 1;
      var prev := Filter(books[..n], author, genre);
      FilterKeepsOrder(books[..n], author, genre);
      assert books == books[..n] + [books[n]];
      SubsequenceSnoc(prev, books[..n], books[n]);
      if Matches(books[n], author, genre) {
        assert Filter(books, author, genre) == prev + [books[n]];
      } else {
        assert Filter(books, author, genre) == prev;
      }
    }
  }

  /** A matching document appears as often as it is stored, any other not at
      all; with `FilterKeepsOrder`, `Filter` is exactly the stored documents
      with the non-matching ones left out. */
  lemma {:induction false} FilterCount(books: seq<Book>, author: Option<string>, genre: Option<string>, b: Book)
    ensures multiset(Filter(books, author, genre))[b] == if Matches(b, author, genre) then multiset(books)[b] else 0
  {
    if books != [] {
      var n := |books| - 1;
      var prev := Filter(books[..n], author, genre);
      FilterCount(books[..n], author, genre, b);
      MultisetLast(books, b);
      if Matches(books[n], author, genre) {
        assert Filter(books, author, genre) == prev + [books[n]];
        MultisetSnoc(prev, books[n], b);
      } else {
        assert Filter(books, author, genre) == prev;
      }
    }
  }

  function Matching(books: seq<Book>, q: ListQuery): seq<Book> {
    Filter(books, q.author, q.genre)
  }

  /** `listBooks`: skip `(page - 1) * limit` matches and return at most `limit`
      of the rest (a limit of 0 sets no bound), with the count of all matches. */
  function List(books: seq<Book>, q: ListQuery): (p: BookPage)
    requires PageNumber(q) >= 1
    ensures p.total == |Matching(books, q)| && p.page == PageNumber(q)
    ensures forall b :: b in p.books ==> b in books && Matches(b, q.author, q.genre)
    ensures PageSize(q) > 0 ==> |p.books| <= PageSize(q)
    ensures Skip(q) >= p.total ==> p.books == []
    ensures Skip(q) < p.total ==>
              |p.books| == if PageSize(q) == 0 || p.total - Skip(q) <= PageSize(q) then p.total - Skip(q) else PageSize(q)
    ensures forall i :: 0 <= i < |p.books| ==> Skip(q) + i < p.total && p.books[i] == Matching(books, q)[Skip(q) + i]
  {
    var m := Matching(books, q);
    var skip := Skip(q);
    var rest := if skip <= |m| then m[skip..] else [];
    var page := if PageSize(q) == 0 || |rest| <= PageSize(q) then rest else rest[..PageSize(q)];
    assert forall b :: b in page ==> b in m;
    BookPage(|m|, PageNumber(q), page)
  }

  /** Every match is listed on some page: the `j`-th match (from 0) is the
      `j % limit`-th book of page `j / limit + 1`. */
  lemma PageOfMatch(books: seq<Book>, q: ListQuery, j: nat)
    requires PageSize(q) > 0 && j < |Matching(books, q)|
    ensures var q' := q.(page := Some(j / PageSize(q) + 1));
            && j % PageSize(q) < |List(books, q').books|
            && List(books, q').books[j % PageSize(q)] == Matching(books, q)[j]
  {
    var lim := PageSize(q);
    var k, r := j / lim, j % lim;
    DivMod(j, lim);
    var q' := q.(page := Some(k + 1));
    assert Matching(books, q') == Matching(books, q);
    assert Skip(q') == k * lim && PageSize(q') == lim;
    var p := List(books, q');
    assert Skip(q') + r == j;
  }

  lemma DivMod(j: nat, lim: nat)
    requires lim > 0
    ensures (j / lim) * lim + j % lim == j && j % lim < lim && (j / lim) * lim <= j
  {
  }
}
