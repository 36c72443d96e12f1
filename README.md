# Library ledger model

A Dafny model of the core of a small library-management backend: an Express
service over a document store holding books, users and borrow records. The
model covers the three controller files:

- the borrow/return ledger (`controllers/borrowController.js`): borrowing a
  book opens a borrow record and takes one copy off the shelf; returning
  stamps the latest open record of that user and book and puts the copy back.
  Both run inside a transaction that is aborted on any error. The borrow
  history joins a user's records with their books' title and author;
- the catalog (`controllers/bookController.js`): add a book (required fields,
  unique ISBN, `copies || 1`), update or delete by id, and the filtered,
  paginated listing with its total;
- the reports (`controllers/reportController.js`): the five most borrowed
  books, the five most active members, and the per-genre availability summary
  with the number of copies currently out.

Layout:

- `models.dfy` (module `Models`): documents, `Option`/`Result`, lookup by id.
- `ledger.dfy` (module `Ledger`): the pure specification of borrow, return and
  history over a `Store` of both collections, plus the conservation
  properties (shelf copies plus open records per book never change).
- `catalog.dfy` (module `Catalog`): add, update, delete and list as functions
  from the book collection to a `Change`.
- `aggregate.dfy` (module `Aggregate`): the `$group` / `$sort` / `$limit`
  stages as generic functions over buckets `(key, count, total)`.
- `reports.dfy` (module `Reports`): the three reports built on `Aggregate`.
- `service.dfy` (module `Service`): class `Library` holding the collections as
  fields. Its methods follow the handlers step by step: fetch, mutate, save,
  and roll back to a snapshot when the transaction aborts. Each method is
  proved equal to the pure specification in `Ledger` or `Catalog`.

Modelling choices:

- Collections are sequences in their natural (insertion) order, because the
  listing's skip/limit depends on that order.
- An ObjectId is a natural number. `Library.nextId` hands out fresh ids.
- The clock (`new Date()`, the `borrowedAt` default) is a `now` parameter.
- The authenticated user (`req.user._id`) is a parameter.
- An HTTP answer other than success is an error constructor. In the catalog,
  `MissingRequiredFields` is the 400 answer, `DuplicateIsbn` the 409 and
  `Catalog.BookNotFound` the 404. In the ledger, `MissingBookId` is the 400
  answer; `Ledger.BookNotFound`, `NoCopiesAvailable` and
  `BorrowRecordNotFound` are thrown errors, which the handlers answer with
  500 and the error's message after aborting the transaction.
- The return picks the open record with the greatest `borrowedAt`. The store
  leaves ties unordered; the model takes the record inserted last.
- `.limit(0)` sets no bound, as the store's `limit` does, so `limit=0` lists
  every match after the skipped ones.
- A missing `genre` forms its own group (`None`) in the availability summary.

Three facts about the handlers that the model keeps:

- The handlers do not retry an aborted transaction.
- Borrow does not check for an existing open record of the same user and
  book (`Ledger.BorrowAllowsSecondOpenRecord`).
- The early "Book ID is required" answer returns before the transaction
  writes anything, so the store is unchanged there.

## Model

| member | source | states |
|---|---|---|
| Models.FindBook | controllers/borrowController.js:17 | `findById`: the first position holding the id, and `None` exactly when no document has it |
| Ledger.LatestOpen | controllers/borrowController.js:57-63 | the chosen record is an open record of that user and book with the greatest `borrowedAt`; `None` exactly when there is no such record |
| Ledger.Borrow | controllers/borrowController.js:8-42 | Missing id, unknown book and copies ≤ 0 each fail, each exactly in its own case, and it succeeds exactly when none of these holds; a failure changes nothing. On success exactly one open record of (user, book, now) is appended and only that book loses one copy. Non-negative copies stay non-negative. |
| Ledger.Return | controllers/borrowController.js:47-89 | Missing id, no open record and a deleted book each fail, each exactly in its own case, and it succeeds exactly when none of these holds; a failure, including a deleted book after the stamp, changes nothing. On success only the latest open record is stamped `now` and only that book gains one copy. |
| Ledger.OpenCountClose | controllers/borrowController.js:68-69 | stamping one open record lowers its book's open-record count by one and leaves other books' counts alone |
| Ledger.BorrowConservesStock | controllers/borrowController.js:22-29 | a borrow, successful or not, keeps shelf copies plus open records of every book unchanged |
| Ledger.ReturnConservesStock | controllers/borrowController.js:68-76 | a return, successful or not, keeps shelf copies plus open records of every book unchanged |
| Ledger.BorrowThenReturn | controllers/borrowController.js:8-89 | A successful borrow followed by a return of the same book by the same user succeeds and leaves the books exactly as before. When every earlier record was borrowed strictly before the borrow, the only change to the records is the appended, stamped record. |
| Ledger.BorrowAllowsSecondOpenRecord | controllers/borrowController.js:17-25 | a user who already holds an open record for a book can borrow it again while copies remain, which gives two open records |
| Ledger.RunKeepsStock | controllers/borrowController.js:8-89 | Over any sequence of borrows and returns, copies stay non-negative and shelf plus open records per book stay fixed. Open records therefore never exceed the starting copies plus the starting open records. |
| Ledger.History | controllers/borrowController.js:95-103 | The records of the lines are the user's records in stored order: a subsequence of the stored records in which each record of the user occurs exactly as often as it is stored and no other record occurs. Each line is its record joined with its book. |
| Ledger.HistoryEntries | controllers/borrowController.js:97-98 | every line holds a stored record of the user, every record of the user has its line, and a line carries its book's id, title and author, or no book when the book is gone |
| Catalog.Add | controllers/bookController.js:6-37 | 400 exactly when title, author or ISBN is missing or empty, and 409 exactly when the ISBN is taken, and it succeeds exactly when neither holds; a failure changes nothing. A success appends one book with the given fields and the copy count defaulted to 1 when absent or 0. ISBNs stay unique, and copies stay non-negative exactly when the given count is not negative. |
| Catalog.PatchNoChange | controllers/bookController.js:44 | an update body that sets no field leaves the document as it was |
| Catalog.PatchIdempotent | controllers/bookController.js:44 | applying the same update body twice gives the document of applying it once |
| Catalog.PatchThen | controllers/bookController.js:44 | two updates in a row are one update in which the later body wins on every field it sets and the earlier one applies elsewhere |
| Catalog.PatchUnchanged | controllers/bookController.js:44 | an update leaves a document unchanged exactly when every field the body sets already holds the given value |
| Catalog.Update | controllers/bookController.js:42-57 | 404 exactly when the id is unknown and success exactly when it is known; a failure changes nothing. Otherwise only that document is replaced, by its patched version, which is also the answer. Ids are unchanged. |
| Catalog.UpdateNothing | controllers/bookController.js:44 | an update with an empty body leaves the collection unchanged |
| Catalog.Delete | controllers/bookController.js:62-74 | 404 exactly when the id is unknown and success exactly when it is known; a failure changes nothing. Otherwise exactly that document is removed and the others keep their order. With unique ids, the id no longer occurs. |
| Catalog.Filter | controllers/bookController.js:83-87 | a book is listed exactly when it is stored and matches the given non-empty author and genre; with no filter every book is listed in order |
| Catalog.FilterKeepsOrder | controllers/bookController.js:87 | the matches are a subsequence of the stored books: they come in stored order |
| Catalog.FilterCount | controllers/bookController.js:87-91 | a matching book occurs among the matches exactly as often as it is stored, and a non-matching one never; with the previous row, the matches (and so `total`) are exactly the stored books with the non-matching ones left out |
| Catalog.List | controllers/bookController.js:79-101 | `total` is the number of all matches and `page` the requested page. The books are matches `(page-1)*limit` onward, at most `limit` of them (all of them for limit 0), with the exact length. Defaults are page 1, limit 10. |
| Catalog.PageOfMatch | controllers/bookController.js:87-89 | the j-th match appears on page `j / limit + 1` at position `j % limit` |
| Aggregate.Group | controllers/reportController.js:87-103 | `$group` with `$sum`: one bucket per distinct key, exactly the keys present, each bucket's count and sum those of its key; counts and sums add up to the input's |
| Aggregate.SortByCount | controllers/reportController.js:22 | `$sort` by count descending: a permutation of the buckets with counts non-increasing |
| Aggregate.Rank | controllers/reportController.js:8-24 | `$group`/`$sort`/`$limit n`: at most n distinct keys, each with its true positive count, non-increasing. A key left out means the list is full and that key's count is at most every listed one. |
| Reports.RankBooks | controllers/reportController.js:8-24 | at most 5 distinct books, each with its number of borrow records, most borrowed first; no left-out book was borrowed more often than a listed one |
| Reports.MostBorrowedBooks | controllers/reportController.js:6-41 | the ranked books, in order, with their counts, each row carrying the book's title and author, or neither when the book is deleted |
| Reports.RankMembers | controllers/reportController.js:47-63 | at most 5 distinct users, each with its number of borrow records, most active first; no left-out user borrowed more often than a listed one |
| Reports.ActiveMembers | controllers/reportController.js:45-80 | the ranked users, in order, with their totals, each row carrying the user's name and email, or neither when the user is not found |
| Reports.OpenRecords | controllers/reportController.js:105 | the number of records without `returnedAt` is 0 exactly when no record is open, and equals the number of records exactly when every record is open |
| Reports.BookAvailability | controllers/reportController.js:85-115 | One row per distinct genre (the missing genre included) whose `totalBooks`/`totalCopies` are that genre's book count and copy sum. The counts add up to the number of books and the sums to all copies. `totalBorrowed` is the number of open records. |
| Reports.TotalBorrowedTracksLedger | controllers/reportController.js:105 | `totalBorrowed` goes up by one with each successful borrow and down by one with each successful return, and a failed one leaves it unchanged |
| Service.Library.Rollback | controllers/borrowController.js:36-40 | aborting the transaction restores both collections to the snapshot taken when it started |
| Service.Library.BorrowBook | controllers/borrowController.js:8-42 | the imperative handler (find, create, decrement, save, abort on error) ends in exactly the state and answer of `Ledger.Borrow`; a failure leaves both collections as they were |
| Service.Library.ReturnBook | controllers/borrowController.js:47-89 | the imperative handler (find latest, stamp and save, find book, increment, abort on error) ends in exactly the state and answer of `Ledger.Return`; a failure, including one after the stamp, leaves both collections as they were |
| Service.Library.AddBook | controllers/bookController.js:6-37 | ends in exactly the collection and answer of `Catalog.Add` with a fresh id; records untouched; ids stay unique |
| Service.Library.UpdateBook | controllers/bookController.js:42-57 | ends in exactly the collection and answer of `Catalog.Update`; records untouched; ids stay unique |
| Service.Library.DeleteBook | controllers/bookController.js:62-74 | ends in exactly the collection and answer of `Catalog.Delete`; records untouched; ids stay unique |

## Left out

- `app.js`, routing, middleware and authentication are not part of this model. The user id is an input.
- Mongoose sessions appear only as all-or-nothing state changes (snapshot and rollback). `endSession` is not modelled. Neither is the transaction left open by the early 400 answer, since it has written nothing.
- Concurrent requests, write conflicts and the store's isolation are not modelled. Handlers run one after another.
- The 500 answers caused by the store itself (connection errors, an id that is not a valid ObjectId, schema validation) are not modelled.
- The book and borrow schemas (`models/`) are not part of this model. No unique index on ISBN is assumed on update, and no minimum on `copies`. Add and update may therefore store a negative count, and `Catalog.Add` / `Catalog.Update` state exactly when copies stay non-negative.
- Catalog.List: `page` and `limit` are natural numbers with page ≥ 1. Query-string coercion (`Number()`, a non-numeric value, a negative skip) is not modelled.
- Aggregate.Rank: the order among buckets with equal counts is left unstated, because the store does not fix it.
- `Promise.all` over the per-row lookups is modelled as a sequence of lookups. The users collection is a map given to `Reports.ActiveMembers`.
- Ledger.Borrow: `copies` is an integer, while the handlers store any JavaScript number. Fractional counts are not modelled. With a stored count such as 0.5, a borrow passes the `copies <= 0` test and leaves -0.5. The non-negativity kept by `Ledger.Borrow`, `Ledger.RunKeepsStock` and `Service.Library.BorrowBook` therefore holds for integer counts only.
- JavaScript truthiness is modelled only where the handlers use it: a missing or empty string fails the required-field test, and `copies` absent or 0 becomes 1.
- Response bodies beyond the answered document or error kind (messages, status codes) are not modelled.
