/** The account desk of `routes/users.js`: a user's own loan history, the administrator's views of
    every loan and every account, and the creation and deletion of accounts. */
module Users {
  import opened Base
  import opened Lists
  import opened Books

  /** A row of the `users` table. `createdAt` is the `created_at` default, the instant of the insert. */
  datatype User = User(id: UserId, username: string, passwordHash: string, role: Role, createdAt: Time)

  predicate UniqueUserIds(users: seq<User>)
  {
    forall i, j :: 0 <= i < j < |users| ==> users[i].id != users[j].id
  }

  predicate UniqueUsernames(users: seq<User>)
  {
    forall i, j :: 0 <= i < j < |users| ==> users[i].username != users[j].username
  }

  /** The invariant of the table: the primary key and the UNIQUE username column hold, and every id is
      below the AUTOINCREMENT counter. */
  predicate ValidUsers(users: seq<User>, nextId: UserId)
  {
    && UniqueUserIds(users)
    && UniqueUsernames(users)
    && (forall k :: 0 <= k < |users| ==> users[k].id < nextId)
  }

  /** The lookup of an account by id. */
  function UserIndex(users: seq<User>, id: UserId): (r: Option<nat>)
    ensures r.Some? ==> r.value < |users| && users[r.value].id == id
    ensures r.None? ==> forall k :: 0 <= k < |users| ==> users[k].id != id
  {
    FirstIndex(users, (x: User) => x.id == id)
  }

  /** The lookup of an account by username. */
  function UsernameIndex(users: seq<User>, name: string): (r: Option<nat>)
    ensures r.Some? ==> r.value < |users| && users[r.value].username == name
    ensures r.None? ==> forall k :: 0 <= k < |users| ==> users[k].username != name
  {
    FirstIndex(users, (x: User) => x.username == name)
  }

  /** The error responses of the account handlers. */
  datatype UserError = AdminOnly | MissingFields | InvalidRole | UsernameTaken | CannotDeleteSelf
                     | HasActiveBorrows | UserNotFound
  {
    function HttpStatus(): int
    {
      match this
      case AdminOnly => 403
      case UserNotFound => 404
      case _ => 400
    }

    function Message(): string
    {
      match this
      case AdminOnly => "Access denied. Admin only."
      case MissingFields => "Username, password, and role are required"
      case InvalidRole => "Invalid role. Must be student, faculty, or admin"
      case UsernameTaken => "Username already exists"
      case CannotDeleteSelf => "You cannot delete your own account"
      case HasActiveBorrows => "Cannot delete user with active book borrowings. Ask them to return books first."
      case UserNotFound => "User not found"
    }
  }

  /** The transaction's book still has a row in `books`, so the inner join keeps it. */
  predicate HasBook(books: seq<Book>, t: Transaction)
  {
    BookIndex(books, t.bookId).Some?
  }

  /** The book a joinable transaction refers to. */
  function BookOf(books: seq<Book>, t: Transaction): Book
    requires HasBook(books, t)
  {
    books[BookIndex(books, t.bookId).value]
  }

  /** A row of GET `/history`: the loan with the title and author of its book. */
  datatype LoanRow = LoanRow(txId: TxId, title: string, author: string, issued: Time, due: Time,
                             returned: Option<Time>, fine: nat, status: LoanStatus)

  function LoanRowOf(books: seq<Book>, t: Transaction): LoanRow
    requires HasBook(books, t)
  {
    var b := BookOf(books, t);
    LoanRow(t.id, b.title, b.author, t.issued, t.due, t.returned, t.fine, t.status)
  }

  /** `ORDER BY t.issue_date DESC`. */
  predicate LoanIssuedLater(a: LoanRow, b: LoanRow)
  {
    a.issued >= b.issued
  }

  /** `ORDER BY t.issue_date DESC` on the history rows: the same rows, newest first. */
  function NewestLoansFirst(rows: seq<LoanRow>): (r: seq<LoanRow>)
    ensures multiset(r) == multiset(rows)
    ensures forall i, j :: 0 <= i < j < |r| ==> r[i].issued >= r[j].issued
  {
    assert TotalPreorder(LoanIssuedLater);
    SortBy(rows, LoanIssuedLater)
  }

  /** The history query's condition on the user, together with its join. */
  function InHistoryOf(books: seq<Book>, u: UserId): Transaction -> bool
  {
    (t: Transaction) => t.userId == u && HasBook(books, t)
  }

  /** `row` is the joined row of one of `u`'s loans. */
  predicate IsLoanRowOf(u: UserId, txs: seq<Transaction>, books: seq<Book>, row: LoanRow)
  {
    exists i :: 0 <= i < |txs| && txs[i].userId == u && HasBook(books, txs[i]) && row == LoanRowOf(books, txs[i])
  }

  /** The joined rows of the user's loans, in table order. */
  function HistoryRows(u: UserId, txs: seq<Transaction>, books: seq<Book>): (rows: seq<LoanRow>)
    ensures |rows| == |Filter(txs, InHistoryOf(books, u))|
    ensures forall k :: 0 <= k < |rows| ==>
      IsLoanRowOf(u, txs, books, rows[k])
    ensures forall i :: 0 <= i < |txs| && txs[i].userId == u && HasBook(books, txs[i]) ==>
      LoanRowOf(books, txs[i]) in rows
  {
    var mine := Filter(txs, InHistoryOf(books, u));
    var rows := seq(|mine|, k requires 0 <= k < |mine| => LoanRowOf(books, mine[k]));
    forall k | 0 <= k < |rows|
      ensures IsLoanRowOf(u, txs, books, rows[k])
    {
      assert InHistoryOf(books, u)(mine[k]);
      var i :| 0 <= i < |txs| && txs[i] == mine[k];
      assert rows[k] == LoanRowOf(books, txs[i]);
    }
    forall i | 0 <= i < |txs| && txs[i].userId == u && HasBook(books, txs[i])
      ensures LoanRowOf(books, txs[i]) in rows
    {
      assert InHistoryOf(books, u)(txs[i]);
      var m :| 0 <= m < |mine| && mine[m] == txs[i];
      assert rows[m] == LoanRowOf(books, txs[i]);
    }
    rows
  }

  /** GET `/history`: the joined rows of the user's loans, newest first. */
  function History(u: UserId, txs: seq<Transaction>, books: seq<Book>): (r: seq<LoanRow>)
    ensures multiset(r) == multiset(HistoryRows(u, txs, books))
    ensures forall i, j :: 0 <= i < j < |r| ==> r[i].issued >= r[j].issued
  {
    NewestLoansFirst(HistoryRows(u, txs, books))
  }

  /** With unique loan ids, the history never shows a loan of another user, nor one whose book has
      been deleted since. */
  lemma HistoryShowsOnlyOwnLiveLoans(u: UserId, txs: seq<Transaction>, books: seq<Book>, i: int)
    requires forall a, b :: 0 <= a < b < |txs| ==> txs[a].id != txs[b].id
    requires 0 <= i < |txs| && (txs[i].userId != u || !HasBook(books, txs[i]))
    ensures forall k :: 0 <= k < |History(u, txs, books)| ==> History(u, txs, books)[k].txId != txs[i].id
  {
    var r := History(u, txs, books);
    var rows := HistoryRows(u, txs, books);
    forall k | 0 <= k < |r| ensures r[k].txId != txs[i].id {
      assert r[k] in multiset(rows);
      var n :| 0 <= n < |rows| && rows[n] == r[k];
      assert IsLoanRowOf(u, txs, books, rows[n]);
      var m :| 0 <= m < |txs| && txs[m].userId == u && HasBook(books, txs[m]) && r[k] == LoanRowOf(books, txs[m]);
      assert m != i;
    }
  }

  /** Every loan of the user whose book exists appears in the history. */
  lemma HistoryShowsEveryOwnLiveLoan(u: UserId, txs: seq<Transaction>, books: seq<Book>, i: int)
    requires 0 <= i < |txs| && txs[i].userId == u && HasBook(books, txs[i])
    ensures LoanRowOf(books, txs[i]) in History(u, txs, books)
  {
    assert LoanRowOf(books, txs[i]) in multiset(HistoryRows(u, txs, books));
  }

  /** A row of GET `/all-transactions`: the loan, its borrower's name and role, and its book. */
  datatype LedgerRow = LedgerRow(txId: TxId, username: string, role: Role, title: string,
                                 author: string, issued: Time, due: Time, returned: Option<Time>,
                                 fine: nat, status: LoanStatus)

  /** Both inner joins, `JOIN books` and `JOIN users`, keep the transaction. */
  predicate Joinable(books: seq<Book>, users: seq<User>, t: Transaction)
  {
    HasBook(books, t) && UserIndex(users, t.userId).Some?
  }

  function LedgerRowOf(books: seq<Book>, users: seq<User>, t: Transaction): LedgerRow
    requires Joinable(books, users, t)
  {
    var b := BookOf(books, t);
    var x := users[UserIndex(users, t.userId).value];
    LedgerRow(t.id, x.username, x.role, b.title, b.author, t.issued, t.due, t.returned, t.fine, t.status)
  }

  function IsJoinable(books: seq<Book>, users: seq<User>): Transaction -> bool
  {
    (t: Transaction) => Joinable(books, users, t)
  }

  predicate LedgerIssuedLater(a: LedgerRow, b: LedgerRow)
  {
    a.issued >= b.issued
  }

  /** `row` is the joined row of one of the loans. */
  predicate IsLedgerRowOf(txs: seq<Transaction>, books: seq<Book>, users: seq<User>, row: LedgerRow)
  {
    exists i :: 0 <= i < |txs| && Joinable(books, users, txs[i]) && row == LedgerRowOf(books, users, txs[i])
  }

  /** The rows of both joins, in table order. */
  function LedgerRows(txs: seq<Transaction>, books: seq<Book>, users: seq<User>): (rows: seq<LedgerRow>)
    ensures |rows| == |Filter(txs, IsJoinable(books, users))|
    ensures forall k :: 0 <= k < |rows| ==>
      IsLedgerRowOf(txs, books, users, rows[k])
    ensures forall i :: 0 <= i < |txs| && Joinable(books, users, txs[i]) ==>
      LedgerRowOf(books, users, txs[i]) in rows
  {
    var kept := Filter(txs, IsJoinable(books, users));
    var rows := seq(|kept|, k requires 0 <= k < |kept| => LedgerRowOf(books, users, kept[k]));
    forall k | 0 <= k < |rows|
      ensures IsLedgerRowOf(txs, books, users, rows[k])
    {
      assert IsJoinable(books, users)(kept[k]);
      var i :| 0 <= i < |txs| && txs[i] == kept[k];
      assert rows[k] == LedgerRowOf(books, users, txs[i]);
    }
    forall i | 0 <= i < |txs| && Joinable(books, users, txs[i])
      ensures LedgerRowOf(books, users, txs[i]) in rows
    {
      assert IsJoinable(books, users)(txs[i]);
      var m :| 0 <= m < |kept| && kept[m] == txs[i];
      assert rows[m] == LedgerRowOf(books, users, txs[i]);
    }
    rows
  }

  /** `ORDER BY t.issue_date DESC` on the ledger rows. */
  function NewestLedgerFirst(rows: seq<LedgerRow>): (r: seq<LedgerRow>)
    ensures multiset(r) == multiset(rows)
    ensures forall i, j :: 0 <= i < j < |r| ==> r[i].issued >= r[j].issued
  {
    assert TotalPreorder(LedgerIssuedLater);
    SortBy(rows, LedgerIssuedLater)
  }

  /** The rows of GET `/all-transactions`: the rows of both joins, newest first. */
  function Ledger(txs: seq<Transaction>, books: seq<Book>, users: seq<User>): (r: seq<LedgerRow>)
    ensures multiset(r) == multiset(LedgerRows(txs, books, users))
    ensures forall i, j :: 0 <= i < j < |r| ==> r[i].issued >= r[j].issued
  {
    NewestLedgerFirst(LedgerRows(txs, books, users))
  }

  /** GET `/all-transactions`: refused to everyone but an administrator, who gets the ledger. */
  function AllTransactions(caller: Caller, txs: seq<Transaction>, books: seq<Book>, users: seq<User>)
    : (r: Result<seq<LedgerRow>, UserError>)
    ensures r.Err? <==> caller.role != Admin
    ensures r.Err? ==> r.error == AdminOnly
    ensures r.Err? ==> r.error.HttpStatus() == 403 && r.error.Message() == "Access denied. Admin only."
    ensures r.Ok? ==> r.value == Ledger(txs, books, users)
  {
    if caller.role != Admin then Err(AdminOnly) else Ok(Ledger(txs, books, users))
  }

  /** A row of GET `/all`: every column but the password hash. */
  datatype UserRow = UserRow(id: UserId, username: string, role: Role, createdAt: Time)

  function UserRowOf(x: User): UserRow
  {
    UserRow(x.id, x.username, x.role, x.createdAt)
  }

  predicate CreatedLater(a: UserRow, b: UserRow)
  {
    a.createdAt >= b.createdAt
  }

  /** `ORDER BY created_at DESC`. */
  function NewestUsersFirst(rows: seq<UserRow>): (r: seq<UserRow>)
    ensures multiset(r) == multiset(rows)
    ensures forall i, j :: 0 <= i < j < |r| ==> r[i].createdAt >= r[j].createdAt
  {
    assert TotalPreorder(CreatedLater);
    SortBy(rows, CreatedLater)
  }

  /** One projected row per account, in table order. */
  function UserRows(users: seq<User>): (rows: seq<UserRow>)
    ensures |rows| == |users|
    ensures forall k :: 0 <= k < |rows| ==> rows[k] == UserRowOf(users[k])
  {
    seq(|users|, k requires 0 <= k < |users| => UserRowOf(users[k]))
  }

  /** The rows of GET `/all`: one row per account, newest first, none carrying a password hash. */
  function UserList(users: seq<User>): (r: seq<UserRow>)
    ensures multiset(r) == multiset(UserRows(users))
    ensures forall i, j :: 0 <= i < j < |r| ==> r[i].createdAt >= r[j].createdAt
  {
    NewestUsersFirst(UserRows(users))
  }

  /** GET `/all`: refused to everyone but an administrator, who gets the account list. */
  function AllUsers(caller: Caller, users: seq<User>): (r: Result<seq<UserRow>, UserError>)
    ensures r.Err? <==> caller.role != Admin
    ensures r.Err? ==> r.error == AdminOnly
    ensures r.Err? ==> r.error.HttpStatus() == 403 && r.error.Message() == "Access denied. Admin only."
    ensures r.Ok? ==> r.value == UserList(users)
  {
    if caller.role != Admin then Err(AdminOnly) else Ok(UserList(users))
  }

  function IsOpenLoanOf(u: UserId): Transaction -> bool
  {
    (t: Transaction) => t.userId == u && IsOpen(t)
  }

  /** The number of open loans of user `u`. */
  function OpenLoanCount(txs: seq<Transaction>, u: UserId): (n: nat)
    ensures n > 0 <==> exists i :: 0 <= i < |txs| && txs[i].userId == u && IsOpen(txs[i])
  {
    var open := Filter(txs, IsOpenLoanOf(u));
    assert forall i :: 0 <= i < |txs| && txs[i].userId == u && IsOpen(txs[i]) ==> IsOpenLoanOf(u)(txs[i]);
    assert |open| > 0 ==> IsOpenLoanOf(u)(open[0]) && open[0] in txs;
    |open|
  }

  function UserIdIsNot(id: UserId): User -> bool
  {
    (x: User) => x.id != id
  }

  /** The deletion of an account by id: every other row, in order. */
  function UsersWithout(users: seq<User>, id: UserId): (r: seq<User>)
    ensures forall k :: 0 <= k < |r| ==> r[k] in users && r[k].id != id
    ensures forall k :: 0 <= k < |users| && users[k].id != id ==> users[k] in r
  {
    Filter(users, UserIdIsNot(id))
  }

  /** Removing an account keeps the invariant. */
  lemma UsersWithoutKeepsValid(users: seq<User>, nextId: UserId, id: UserId)
    requires ValidUsers(users, nextId)
    ensures ValidUsers(UsersWithout(users, id), nextId)
  {
    FilterPairwise(users, UserIdIsNot(id), (a: User, b: User) => a.id != b.id);
    FilterPairwise(users, UserIdIsNot(id), (a: User, b: User) => a.username != b.username);
  }

  /** Appending an account under the next id with a name not yet taken keeps the invariant. */
  lemma AddUserKeepsValid(users: seq<User>, nextId: UserId, x: User)
    requires ValidUsers(users, nextId)
    requires x.id == nextId && UsernameIndex(users, x.username).None?
    ensures ValidUsers(users + [x], nextId + 1)
  {
  }

  /** A deletion the guards let through never takes away the borrower of an open loan: the only
      account removed has none. */
  lemma DeleteKeepsBorrowers(users: seq<User>, txs: seq<Transaction>, target: UserId, i: int)
    requires OpenLoanCount(txs, target) == 0
    requires 0 <= i < |txs| && IsOpen(txs[i]) && UserIndex(users, txs[i].userId).Some?
    ensures UserIndex(UsersWithout(users, target), txs[i].userId).Some?
  {
    var k := UserIndex(users, txs[i].userId).value;
    assert users[k].id != target;
    var rest := UsersWithout(users, target);
    var m :| 0 <= m < |rest| && rest[m] == users[k];
    assert rest[m].id == txs[i].userId;
  }

  /** The success response of an account creation. */
  datatype Created = Created(userId: UserId, username: string, role: Role)

  /** The `users` table and its AUTOINCREMENT counter. */
  class UserTable {
    var users: seq<User>
    var nextId: UserId

    predicate Valid()
      reads this
    {
      ValidUsers(users, nextId)
    }

    constructor (users0: seq<User>, next0: UserId)
      requires ValidUsers(users0, next0)
      ensures Valid() && users == users0 && nextId == next0
    {
      users, nextId := users0, next0;
    }

    /** POST `/add`: refuses a non-administrator, then a missing (empty) field, then a role outside
        the three, then a name already taken, in that order; otherwise stores the account under the
        next id with `hash(password)` as its password hash, created at `now`. */
    method Add(caller: Caller, username: string, password: string, role: string,
               hash: string -> string, now: Time) returns (r: Result<Created, UserError>)
      requires Valid()
      modifies this
      ensures Valid()
      ensures caller.role != Admin ==> r == Err(AdminOnly)
      ensures caller.role == Admin && (username == "" || password == "" || role == "") ==>
        r == Err(MissingFields)
      ensures caller.role == Admin && username != "" && password != "" && role != "" ==>
        r == (if ParseRole(role).None? then Err(InvalidRole)
              else if UsernameIndex(old(users), username).Some? then Err(UsernameTaken)
              else Ok(Created(old(nextId), username, ParseRole(role).value)))
      ensures r.Err? ==> users == old(users) && nextId == old(nextId)
      ensures r.Err? ==> (r.error.HttpStatus() == 403 <==> caller.role != Admin)
      ensures r.Err? && caller.role == Admin ==> r.error.HttpStatus() == 400
      ensures r.Ok? ==>
        && users == old(users) + [User(r.value.userId, username, hash(password), r.value.role, now)]
        && nextId == old(nextId) + 1
    {
      if caller.role != Admin {
        return Err(AdminOnly);
      }
      if username == "" || password == "" || role == "" {
        return Err(MissingFields);
      }
      var parsed := ParseRole(role);
      if parsed.None? {
        return Err(InvalidRole);
      }
      if UsernameIndex(users, username).Some? {
        return Err(UsernameTaken);
      }
      var x := User(nextId, username, hash(password), parsed.value, now);
      AddUserKeepsValid(users, nextId, x);
      users := users + [x];
      nextId := nextId + 1;
      r := Ok(Created(x.id, username, parsed.value));
    }

    /** DELETE `/:id`: refuses a non-administrator, then the caller's own account, then an account
        with an open loan in `txs`, then an id with no row, in that order; otherwise removes that
        account and no other. */
    method Delete(caller: Caller, target: UserId, txs: seq<Transaction>) returns (r: Outcome<UserError>)
      requires Valid()
      modifies this
      ensures Valid()
      ensures caller.role != Admin ==> r == Fail(AdminOnly)
      ensures caller.role == Admin && target == caller.id ==> r == Fail(CannotDeleteSelf)
      ensures caller.role == Admin && target != caller.id ==>
        r == (if OpenLoanCount(txs, target) > 0 then Fail(HasActiveBorrows)
              else if UserIndex(old(users), target).None? then Fail(UserNotFound)
              else Pass)
      ensures r.Fail? ==> users == old(users)
      ensures r.Fail? ==> (r.error.HttpStatus() == 403 <==> caller.role != Admin)
      ensures r.Fail? ==> (r.error.HttpStatus() == 404 <==>
        caller.role == Admin && target != caller.id && OpenLoanCount(txs, target) == 0 && UserIndex(old(users), target).None?)
      ensures r.Pass? ==> users == UsersWithout(old(users), target)
      ensures nextId == old(nextId)
    {
      if caller.role != Admin {
        return Fail(AdminOnly);
      }
      if target == caller.id {
        return Fail(CannotDeleteSelf);
      }
      if OpenLoanCount(txs, target) > 0 {
        return Fail(HasActiveBorrows);
      }
      if UserIndex(users, target).None? {
        return Fail(UserNotFound);
      }
      UsersWithoutKeepsValid(users, nextId, target);
      users := UsersWithout(users, target);
      r := Pass;
    }
  }
}
