/** The documents the library backend stores: books, borrow records and users,
    and the point lookup by id that every controller uses. */
module Models {

  datatype Option<+T> = None | Some(value: T)

  datatype Result<+R, +E> = Success(value: R) | Failure(error: E)

  type BookId = nat
  type UserId = nat

  /** A reading of the abstract clock that stands in for `new Date()`. */
  type Time = nat

  /** A book document. `copies` is the number of copies on the shelf; it is an
      `int` because the catalog path stores whatever number it is given. */
  datatype Book = Book(
    id: BookId,
    title: string,
    author: string,
    isbn: string,
    publicationDate: Option<Time>,
    genre: Option<string>,
    copies: int)

  /** A borrow record; an absent `returnedAt` means the copy is still out. */
  datatype BorrowRecord = BorrowRecord(user: UserId, book: BookId, borrowedAt: Time, returnedAt: Option<Time>)
  {
    predicate IsOpen() { returnedAt.None? }
  }

  /** The profile fields of a user that the reports read. */
  datatype User = User(name: string, email: string)

  /** JavaScript truthiness of an optional string: present and not empty. */
  predicate Given(s: Option<string>) {
    s.Some? && s.value != ""
  }

  predicate UniqueIds(books: seq<Book>) {
    forall i, j :: 0 <= i < j < |books| ==> books[i].id != books[j].id
  }

  /** Two collections hold the same documents' ids at the same positions. */
  predicate SameIds(b1: seq<Book>, b2: seq<Book>) {
    |b1| == |b2| && forall i :: 0 <= i < |b1| ==> b1[i].id == b2[i].id
  }

  predicate NonNegativeCopies(books: seq<Book>) {
    forall i :: 0 <= i < |books| ==> books[i].copies >= 0
  }

  /** `Book.findById`: the position of the first document with this id. */
  function FindBook(books: seq<Book>, id: BookId): (r: Option<nat>)
    ensures r.Some? ==> r.value < |books| && books[r.value].id == id
    ensures r.Some? ==> forall i :: 0 <= i < r.value ==> books[i].id != id
    ensures r.None? <==> forall i :: 0 <= i < |books| ==> books[i].id != id
  {
    FindFrom(books, id, 0)
  }

  function FindFrom(books: seq<Book>, id: BookId, start: nat): (r: Option<nat>)
    requires start <= |books|
    ensures r.Some? ==> start <= r.value < |books| && books[r.value].id == id
    ensures r.Some? ==> forall i :: start <= i < r.value ==> books[i].id != id
    ensures r.None? <==> forall i :: start <= i < |books| ==> books[i].id != id
    decreases |books| - start
  {
    if start == |books| then None
    else if books[start].id == id then Some(start)
    else FindFrom(books, id, start + 1)
  }

  /** A lookup depends only on the ids, never on the other fields. */
  lemma FindBookSameIds(b1: seq<Book>, b2: seq<Book>, id: BookId)
    requires SameIds(b1, b2)
    ensures FindBook(b1, id) == FindBook(b2, id)
  {
  }

  /** The copy count of a book, 0 for an id that is not stored. */
  function Copies(books: seq<Book>, id: BookId): int {
    match FindBook(books, id)
    case Some(i) => books[i].copies
    case None => 0
  }

  /** `xs` is `ys` with some elements left out and the rest kept in order. */
  predicate Subsequence<T(==)>(xs: seq<T>, ys: seq<T>) {
    if ys == [] then xs == []
    else
      var n := |ys| - 1;
      || Subsequence(xs, ys[..n])
      || (xs != [] && xs[|xs| - 1] == ys[n] && Subsequence(xs[..|xs| - 1], ys[..n]))
  }

  /** Appending one element to both sides keeps a subsequence, and so does
      appending it to the longer side only. */
  lemma SubsequenceSnoc<T>(xs: seq<T>, ys: seq<T>, y: T)
    requires Subsequence(xs, ys)
    ensures Subsequence(xs + [y], ys + [y]) && Subsequence(xs, ys + [y])
  {
    assert (ys + [y])[..|ys|] == ys;
    assert (xs + [y])[..|xs|] == xs;
  }

  /** Appending `x` adds one occurrence of `x` and none of anything else. */
  lemma MultisetSnoc<T>(xs: seq<T>, x: T, y: T)
    ensures multiset(xs + [x])[y] == multiset(xs)[y] + (if x == y then 1 else 0)
  {
    assert multiset(xs + [x]) == multiset(xs) + multiset{x};
  }

  /** The occurrences in a non-empty sequence are those before its last element plus that element. */
  lemma MultisetLast<T>(xs: seq<T>, y: T)
    requires xs != []
    ensures multiset(xs)[y] == multiset(xs[..|xs| - 1])[y] + (if xs[|xs| - 1] == y then 1 else 0)
  {
    assert xs == xs[..|xs| - 1] + [xs[|xs| - 1]];
    MultisetSnoc(xs[..|xs| - 1], xs[|xs| - 1], y);
  }
}
