/** The lending desk of `routes/books.js`: the `books` and `transactions` tables, borrowing and
    returning with the overdue fine, adding and deleting books, and the catalogue search. */
module Books {
  import opened Base
  import opened Text
  import opened Lists
  import opened Fines

  datatype BookStatus = Available | Borrowed

  /** A row of the `books` table. */
  datatype Book = Book(id: BookId, title: string, author: string, floor: int, shelf: string,
                       status: BookStatus)

  /** `transactions.status`: 'borrowed' while the loan is open, 'returned' once it is closed. */
  datatype LoanStatus = OnLoan | Returned

  /** A row of the `transactions` table. `returned` is `return_date`, NULL as `None`. */
  datatype Transaction = Transaction(id: TxId, userId: UserId, bookId: BookId, issued: Time,
                                     due: Time, returned: Option<Time>, fine: nat,
                                     status: LoanStatus)

  predicate IsOpen(t: Transaction)
  {
    t.status == OnLoan
  }

  /** An open loan has no return date and no fine yet; a closed one has its return date. */
  predicate LoanConsistent(t: Transaction)
  {
    (IsOpen(t) <==> t.returned.None?) && (IsOpen(t) ==> t.fine == 0)
  }

  /** The loan row the borrow handler inserts at `now`, with the
      column defaults: issued now, status 'borrowed', fine 0, no return date. */
  function NewLoan(id: TxId, u: UserId, b: BookId, now: Time): (t: Transaction)
    ensures IsOpen(t) && LoanConsistent(t) && t.due - t.issued == LoanMs
    ensures t.id == id && t.userId == u && t.bookId == b && t.issued == now
    ensures t.returned.None? && t.fine == 0
  {
    Transaction(id, u, b, now, now + LoanMs, None, 0, OnLoan)
  }

  /** The loan row once it is marked returned at `now` with its fine. */
  function Closed(t: Transaction, now: Time, fine: nat): (c: Transaction)
    ensures !IsOpen(c) && LoanConsistent(c)
    ensures c.id == t.id && c.userId == t.userId && c.bookId == t.bookId && c.due == t.due
    ensures c.issued == t.issued && c.returned == Some(now) && c.fine == fine
  {
    t.(status := Returned, returned := Some(now), fine := fine)
  }

  /** The lookup of a book by id: the position of the first row with that id. */
  function BookIndex(books: seq<Book>, id: BookId): (r: Option<nat>)
    ensures r.Some? ==> r.value < |books| && books[r.value].id == id
    ensures r.None? ==> forall k :: 0 <= k < |books| ==> books[k].id != id
  {
    FirstIndex(books, (b: Book) => b.id == id)
  }

  /** The lookup of the open loan of book `b` by user `u`: the first matching transaction. */
  function OpenLoanIndex(txs: seq<Transaction>, u: UserId, b: BookId): (r: Option<nat>)
    ensures r.Some? ==> r.value < |txs| && IsOpen(txs[r.value]) && txs[r.value].userId == u && txs[r.value].bookId == b
    ensures r.None? ==> forall k :: 0 <= k < |txs| && IsOpen(txs[k]) && txs[k].bookId == b ==> txs[k].userId != u
  {
    FirstIndex(txs, (t: Transaction) => t.userId == u && t.bookId == b && IsOpen(t))
  }

  /** The status update of the book with id `id`; every other row is left alone. */
  function WithStatus(books: seq<Book>, id: BookId, st: BookStatus): (r: seq<Book>)
    ensures |r| == |books|
    ensures forall k :: 0 <= k < |books| && books[k].id == id ==> r[k] == books[k].(status := st)
    ensures forall k :: 0 <= k < |books| && books[k].id != id ==> r[k] == books[k]
  {
    seq(|books|, k requires 0 <= k < |books| => if books[k].id == id then books[k].(status := st) else books[k])
  }

  predicate HasOpenLoan(txs: seq<Transaction>, b: BookId)
  {
    exists i :: 0 <= i < |txs| && IsOpen(txs[i]) && txs[i].bookId == b
  }

  /** The invariant of the two tables: ids are unique and below the AUTOINCREMENT counters, every
      loan row is well formed, a book is borrowed exactly when one open loan refers to it (never
      two), and every open loan refers to a book that exists. */
  predicate ValidLibrary(books: seq<Book>, txs: seq<Transaction>, nextBookId: BookId, nextTxId: TxId)
  {
    && UniqueBookIds(books)
    && (forall k :: 0 <= k < |books| ==> books[k].id < nextBookId)
    && (forall i, j :: 0 <= i < j < |txs| ==> txs[i].id != txs[j].id)
    && (forall i :: 0 <= i < |txs| ==> txs[i].id < nextTxId && txs[i].bookId < nextBookId)
    && (forall i :: 0 <= i < |txs| ==> LoanConsistent(txs[i]))
    && (forall i, j :: 0 <= i < j < |txs| && IsOpen(txs[i]) && IsOpen(txs[j]) ==> txs[i].bookId != txs[j].bookId)
    && (forall k :: 0 <= k < |books| ==> (books[k].status == Borrowed <==> HasOpenLoan(txs, books[k].id)))
    && (forall i :: 0 <= i < |txs| && IsOpen(txs[i]) ==> BookIndex(books, txs[i].bookId).Some?)
  }

  /** Borrowing an available book keeps the invariant. */
  lemma BorrowKeepsValid(books: seq<Book>, txs: seq<Transaction>, nb: BookId, nt: TxId,
                         i: int, u: UserId, now: Time)
    requires ValidLibrary(books, txs, nb, nt)
    requires 0 <= i < |books| && books[i].status == Available
    ensures ValidLibrary(WithStatus(books, books[i].id, Borrowed), txs + [NewLoan(nt, u, books[i].id, now)], nb, nt + 1)
  {
    var b := books[i].id;
    var books', txs' := WithStatus(books, b, Borrowed), txs + [NewLoan(nt, u, b, now)];
    assert !HasOpenLoan(txs, b);
    BorrowKeepsAgreement(books, txs, nb, nt, i, u, now);
    forall j | 0 <= j < |txs'| && IsOpen(txs'[j]) ensures BookIndex(books', txs'[j].bookId).Some? {
      if j < |txs| {
        assert txs'[j] == txs[j];
        var k := BookIndex(books, txs[j].bookId).value;
        assert books'[k].id == txs[j].bookId;
      } else {
        assert books'[i].id == b;
      }
    }
  }

  /** After a loan, a book is borrowed exactly when an open loan refers to it. */
  lemma BorrowKeepsAgreement(books: seq<Book>, txs: seq<Transaction>, nb: BookId, nt: TxId,
                             i: int, u: UserId, now: Time)
    requires ValidLibrary(books, txs, nb, nt)
    requires 0 <= i < |books| && books[i].status == Available
    ensures var books', txs' := WithStatus(books, books[i].id, Borrowed), txs + [NewLoan(nt, u, books[i].id, now)];
      forall k :: 0 <= k < |books'| ==> (books'[k].status == Borrowed <==> HasOpenLoan(txs', books'[k].id))
  {
    var b := books[i].id;
    var books', txs' := WithStatus(books, b, Borrowed), txs + [NewLoan(nt, u, b, now)];
    forall k | 0 <= k < |books'| ensures books'[k].status == Borrowed <==> HasOpenLoan(txs', books'[k].id) {
      if books'[k].id == b {
        assert IsOpen(txs'[|txs|]) && txs'[|txs|].bookId == b;
      } else {
        if HasOpenLoan(txs', books'[k].id) {
          var j :| 0 <= j < |txs'| && IsOpen(txs'[j]) && txs'[j].bookId == books'[k].id;
          assert j < |txs| && IsOpen(txs[j]) && txs[j].bookId == books[k].id;
        }
        if HasOpenLoan(txs, books[k].id) {
          var j :| 0 <= j < |txs| && IsOpen(txs[j]) && txs[j].bookId == books[k].id;
          assert txs'[j] == txs[j];
        }
      }
    }
  }

  /** Closing the open loan of a book and marking the book available keeps the invariant. */
  lemma ReturnKeepsValid(books: seq<Book>, txs: seq<Transaction>, nb: BookId, nt: TxId,
                         j: int, now: Time, fine: nat)
    requires ValidLibrary(books, txs, nb, nt)
    requires 0 <= j < |txs| && IsOpen(txs[j])
    ensures ValidLibrary(WithStatus(books, txs[j].bookId, Available), txs[j := Closed(txs[j], now, fine)], nb, nt)
  {
    var b := txs[j].bookId;
    var books', txs' := WithStatus(books, b, Available), txs[j := Closed(txs[j], now, fine)];
    ReturnKeepsAgreement(books, txs, nb, nt, j, now, fine);
    forall m | 0 <= m < |txs'| && IsOpen(txs'[m]) ensures BookIndex(books', txs'[m].bookId).Some? {
      assert txs'[m] == txs[m];
      var k := BookIndex(books, txs[m].bookId).value;
      assert books'[k].id == txs[m].bookId;
    }
  }

  /** After a return, a book is still borrowed exactly when an open loan refers to it. */
  lemma ReturnKeepsAgreement(books: seq<Book>, txs: seq<Transaction>, nb: BookId, nt: TxId,
                             j: int, now: Time, fine: nat)
    requires ValidLibrary(books, txs, nb, nt)
    requires 0 <= j < |txs| && IsOpen(txs[j])
    ensures var books', txs' := WithStatus(books, txs[j].bookId, Available), txs[j := Closed(txs[j], now, fine)];
      forall k :: 0 <= k < |books'| ==> (books'[k].status == Borrowed <==> HasOpenLoan(txs', books'[k].id))
  {
    var b := txs[j].bookId;
    var books', txs' := WithStatus(books, b, Available), txs[j := Closed(txs[j], now, fine)];
    forall k | 0 <= k < |books'| ensures books'[k].status == Borrowed <==> HasOpenLoan(txs', books'[k].id) {
      if books'[k].id != b {
        if HasOpenLoan(txs, books[k].id) {
          var m :| 0 <= m < |txs| && IsOpen(txs[m]) && txs[m].bookId == books[k].id;
          assert txs'[m] == txs[m];
        }
        if HasOpenLoan(txs', books'[k].id) {
          var m :| 0 <= m < |txs'| && IsOpen(txs'[m]) && txs'[m].bookId == books'[k].id;
          assert txs'[m] == txs[m];
        }
      }
    }
  }

  /** Adding a new available book under the next id keeps the invariant. */
  lemma AddKeepsValid(books: seq<Book>, txs: seq<Transaction>, nb: BookId, nt: TxId,
                      title: string, author: string, floor: int, shelf: string)
    requires ValidLibrary(books, txs, nb, nt)
    ensures ValidLibrary(books + [Book(nb, title, author, floor, shelf, Available)], txs, nb + 1, nt)
  {
    var books' := books + [Book(nb, title, author, floor, shelf, Available)];
    forall m | 0 <= m < |txs| && IsOpen(txs[m]) ensures BookIndex(books', txs[m].bookId).Some? {
      var k := BookIndex(books, txs[m].bookId).value;
      assert books'[k].id == txs[m].bookId;
    }
  }

  /** Removing an available book keeps the invariant: no open loan refers to it. */
  lemma DeleteKeepsValid(books: seq<Book>, txs: seq<Transaction>, nb: BookId, nt: TxId, i: int)
    requires ValidLibrary(books, txs, nb, nt)
    requires 0 <= i < |books| && books[i].status == Available
    ensures ValidLibrary(Without(books, books[i].id), txs, nb, nt)
  {
    var id := books[i].id;
    var books' := Without(books, id);
    assert !HasOpenLoan(txs, id);
    WithoutUnique(books, id);
    forall k | 0 <= k < |books'| ensures books'[k].status == Borrowed <==> HasOpenLoan(txs, books'[k].id) {
      assert books'[k] in books;
    }
    forall m | 0 <= m < |txs| && IsOpen(txs[m]) ensures BookIndex(books', txs[m].bookId).Some? {
      var k := BookIndex(books, txs[m].bookId).value;
      assert books[k].id != id;
      assert books[k] in books';
    }
  }

  predicate UniqueBookIds(books: seq<Book>)
  {
    forall i, j :: 0 <= i < j < |books| ==> books[i].id != books[j].id
  }

  /** The deletion of a book by id: every other row, in order. */
  function Without(books: seq<Book>, id: BookId): (r: seq<Book>)
    ensures forall k :: 0 <= k < |r| ==> r[k] in books && r[k].id != id
    ensures forall k :: 0 <= k < |books| && books[k].id != id ==> books[k] in r
  {
    Filter(books, IdIsNot(id))
  }

  function IdIsNot(id: BookId): Book -> bool
  {
    (b: Book) => b.id != id
  }

  /** Removing rows keeps the ids unique. */
  lemma WithoutUnique(books: seq<Book>, id: BookId)
    requires UniqueBookIds(books)
    ensures UniqueBookIds(Without(books, id))
  {
    FilterPairwise(books, IdIsNot(id), (a: Book, b: Book) => a.id != b.id);
  }

  /** The user of the first open loan on a book: what the search's outer join with the open
      transactions attaches to the book, or NULL. */
  function OpenBorrower(txs: seq<Transaction>, b: BookId): (r: Option<UserId>)
    ensures r.Some? <==> HasOpenLoan(txs, b)
  {
    match FirstIndex(txs, (t: Transaction) => IsOpen(t) && t.bookId == b)
    case Some(j) => Some(txs[j].userId)
    case None => None
  }

  /** Under the invariant the joined borrower is exactly the user whose return would be accepted. */
  lemma OpenBorrowerIsReturner(books: seq<Book>, txs: seq<Transaction>, nb: BookId, nt: TxId,
                               b: BookId, u: UserId)
    requires ValidLibrary(books, txs, nb, nt)
    ensures OpenBorrower(txs, b) == Some(u) <==> OpenLoanIndex(txs, u, b).Some?
  {
    var first := FirstIndex(txs, (t: Transaction) => IsOpen(t) && t.bookId == b);
    if OpenLoanIndex(txs, u, b).Some? {
      var j := OpenLoanIndex(txs, u, b).value;
      var f := first.value;
      assert f == j;
    } else if first.Some? {
      assert txs[first.value].userId != u;
    }
  }

  /** A row of the search result: the book and `borrowed_by_user_id`. */
  datatype SearchRow = SearchRow(book: Book, borrowedBy: Option<UserId>)

  predicate MatchesQuery(b: Book, query: string)
  {
    LikeSubstring(b.title, query) || LikeSubstring(b.author, query)
  }

  function Matching(query: string): Book -> bool
  {
    (b: Book) => MatchesQuery(b, query)
  }

  /** GET `/search`: the books whose title or author contains the query (case-insensitively for
      ASCII letters), each once and in table order, with the borrower of its open loan. */
  function Search(books: seq<Book>, txs: seq<Transaction>, query: string): (r: seq<SearchRow>)
    ensures |r| == |Filter(books, Matching(query))|
    ensures forall k :: 0 <= k < |r| ==> r[k].book == Filter(books, Matching(query))[k]
    ensures forall k :: 0 <= k < |r| ==> r[k].book in books && MatchesQuery(r[k].book, query)
    ensures forall k :: 0 <= k < |r| ==> r[k].borrowedBy == OpenBorrower(txs, r[k].book.id)
    ensures forall k :: 0 <= k < |books| && MatchesQuery(books[k], query) ==>
      exists m :: 0 <= m < |r| && r[m].book == books[k]
  {
    var hits := Filter(books, Matching(query));
    var r := seq(|hits|, k requires 0 <= k < |hits| => SearchRow(hits[k], OpenBorrower(txs, hits[k].id)));
    assert forall k :: 0 <= k < |books| && MatchesQuery(books[k], query) ==>
      exists m :: 0 <= m < |hits| && hits[m] == books[k] && r[m].book == books[k];
    r
  }

  /** The empty query, which the page starts with, lists every book. */
  lemma SearchEmptyQuery(books: seq<Book>, txs: seq<Transaction>)
    ensures |Search(books, txs, "")| == |books|
    ensures forall k :: 0 <= k < |books| ==> Search(books, txs, "")[k].book == books[k]
  {
    forall b: Book ensures MatchesQuery(b, "") {
      ContainsEmpty(Lower(b.title));
      assert Lower("") == "";
    }
    FilterAll(books, Matching(""));
  }

  /** What `inventory_update` carries. */
  datatype InventoryStatus = NowAvailable | NowBorrowed | NowDeleted
  datatype InventoryEvent = InventoryChanged(bookId: BookId, status: InventoryStatus)

  /** The error responses of the lending handlers. */
  datatype BookError = BookNotFound | AlreadyBorrowed | NoActiveBorrow | CannotDeleteBorrowed
  {
    function HttpStatus(): int
    {
      if this == BookNotFound then 404 else 400
    }

    function Message(): string
    {
      match this
      case BookNotFound => "Book not found"
      case AlreadyBorrowed => "Book already borrowed"
      case NoActiveBorrow => "No active borrow record found"
      case CannotDeleteBorrowed => "Cannot delete a borrowed book"
    }
  }

  /** The success response of a return: the fine and the message. */
  datatype Receipt = Receipt(fine: nat, notice: ReturnNotice)

  /** The `books` and `transactions` tables, their AUTOINCREMENT counters, and the events emitted. */
  class Library {
    var books: seq<Book>
    var transactions: seq<Transaction>
    var nextBookId: BookId
    var nextTxId: TxId
    var events: seq<InventoryEvent>

    predicate Valid()
      reads this
    {
      ValidLibrary(books, transactions, nextBookId, nextTxId)
    }

    constructor (books0: seq<Book>, txs0: seq<Transaction>, nb: BookId, nt: TxId)
      requires ValidLibrary(books0, txs0, nb, nt)
      ensures Valid() && books == books0 && transactions == txs0 && events == []
      ensures nextBookId == nb && nextTxId == nt
    {
      books, transactions, nextBookId, nextTxId, events := books0, txs0, nb, nt, [];
    }

    /** POST `/borrow`: refuses a missing book, then a borrowed one; otherwise marks the book
        borrowed and records a loan due seven days from `now`, which it returns. */
    method Borrow(bookId: BookId, userId: UserId, now: Time) returns (r: Result<Time, BookError>)
      requires Valid()
      modifies this
      ensures Valid()
      ensures BookIndex(old(books), bookId).None? ==> r == Err(BookNotFound)
      ensures BookIndex(old(books), bookId).Some? ==>
        r == (if old(books)[BookIndex(old(books), bookId).value].status == Borrowed
              then Err(AlreadyBorrowed) else Ok(now + LoanMs))
      ensures r.Err? ==> (r.error.HttpStatus() == 404 <==> BookIndex(old(books), bookId).None?)
      ensures r.Err? ==> r.error.HttpStatus() == 400 || r.error.HttpStatus() == 404
      ensures r.Err? ==>
        && books == old(books) && transactions == old(transactions)
        && nextTxId == old(nextTxId) && events == old(events)
      ensures r.Ok? ==>
        && books == WithStatus(old(books), bookId, Borrowed)
        && transactions == old(transactions) + [NewLoan(old(nextTxId), userId, bookId, now)]
        && nextTxId == old(nextTxId) + 1
        && events == old(events) + [InventoryChanged(bookId, NowBorrowed)]
      ensures nextBookId == old(nextBookId)
    {
      var found := BookIndex(books, bookId);
      if found.None? {
        return Err(BookNotFound);
      }
      if books[found.value].status == Borrowed {
        return Err(AlreadyBorrowed);
      }
      BorrowKeepsValid(books, transactions, nextBookId, nextTxId, found.value, userId, now);
      books := WithStatus(books, bookId, Borrowed);
      transactions := transactions + [NewLoan(nextTxId, userId, bookId, now)];
      nextTxId := nextTxId + 1;
      events := events + [InventoryChanged(bookId, NowBorrowed)];
      r := Ok(now + LoanMs);
    }

    /** POST `/return`: only the caller's own open loan of this book can be returned. It marks the
        book available, closes that loan with the fine for a return at `now`, and leaves every other
        loan as it was. */
    method Return(bookId: BookId, userId: UserId, now: Time) returns (r: Result<Receipt, BookError>)
      requires Valid()
      modifies this
      ensures Valid()
      ensures r.Err? <==> OpenLoanIndex(old(transactions), userId, bookId).None?
      ensures r.Err? ==>
        && r.error == NoActiveBorrow && books == old(books)
        && transactions == old(transactions) && events == old(events)
      ensures r.Err? ==> r.error.HttpStatus() == 400 && r.error.Message() == "No active borrow record found"
      ensures r.Ok? ==>
        && OpenLoanIndex(old(transactions), userId, bookId).Some?
        && var j := OpenLoanIndex(old(transactions), userId, bookId).value;
        var due := old(transactions)[j].due;
        && r.value == Receipt(Fine(due, now), Notice(Fine(due, now), due, now))
        && books == WithStatus(old(books), bookId, Available)
        && transactions == old(transactions)[j := Closed(old(transactions)[j], now, Fine(due, now))]
        && events == old(events) + [InventoryChanged(bookId, NowAvailable)]
      ensures nextBookId == old(nextBookId) && nextTxId == old(nextTxId)
    {
      var found := OpenLoanIndex(transactions, userId, bookId);
      if found.None? {
        return Err(NoActiveBorrow);
      }
      var j := found.value;
      var due := transactions[j].due;
      var fine := 0;
      if now > due {
        fine := CeilDiv(now - due, DayMs) * FinePerDay;
      }
      assert fine == Fine(due, now);
      ReturnKeepsValid(books, transactions, nextBookId, nextTxId, j, now, fine);
      books := WithStatus(books, bookId, Available);
      transactions := transactions[j := Closed(transactions[j], now, fine)];
      events := events + [InventoryChanged(bookId, NowAvailable)];
      r := Ok(Receipt(fine, Notice(fine, due, now)));
    }

    /** POST `/`: inserts an available book under the next id and returns that id. */
    method Add(title: string, author: string, floor: int, shelf: string) returns (id: BookId)
      requires Valid()
      modifies this
      ensures Valid()
      ensures id == old(nextBookId) && nextBookId == old(nextBookId) + 1
      ensures books == old(books) + [Book(id, title, author, floor, shelf, Available)]
      ensures transactions == old(transactions) && nextTxId == old(nextTxId)
      ensures events == old(events) + [InventoryChanged(id, NowAvailable)]
    {
      AddKeepsValid(books, transactions, nextBookId, nextTxId, title, author, floor, shelf);
      id := nextBookId;
      books := books + [Book(id, title, author, floor, shelf, Available)];
      nextBookId := nextBookId + 1;
      events := events + [InventoryChanged(id, NowAvailable)];
    }

    /** DELETE `/:id`: refuses a missing book, then a borrowed one; otherwise removes that book and
        no other. */
    method Delete(bookId: BookId) returns (r: Outcome<BookError>)
      requires Valid()
      modifies this
      ensures Valid()
      ensures BookIndex(old(books), bookId).None? ==> r == Fail(BookNotFound)
      ensures BookIndex(old(books), bookId).Some? ==>
        r == (if old(books)[BookIndex(old(books), bookId).value].status == Borrowed
              then Fail(CannotDeleteBorrowed) else Pass)
      ensures r.Fail? ==> (r.error.HttpStatus() == 404 <==> BookIndex(old(books), bookId).None?)
      ensures r.Fail? ==> r.error.HttpStatus() == 400 || r.error.HttpStatus() == 404
      ensures r.Fail? ==> books == old(books) && events == old(events)
      ensures r.Pass? ==>
        && books == Without(old(books), bookId)
        && events == old(events) + [InventoryChanged(bookId, NowDeleted)]
      ensures transactions == old(transactions)
      ensures nextBookId == old(nextBookId) && nextTxId == old(nextTxId)
    {
      var found := BookIndex(books, bookId);
      if found.None? {
        return Fail(BookNotFound);
      }
      if books[found.value].status == Borrowed {
        return Fail(CannotDeleteBorrowed);
      }
      DeleteKeepsValid(books, transactions, nextBookId, nextTxId, found.value);
      books := Without(books, bookId);
      events := events + [InventoryChanged(bookId, NowDeleted)];
      r := Pass;
    }
  }
}
