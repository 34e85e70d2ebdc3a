# thaparlms core in Dafny

A model of the server core of thaparlms, a campus library system, with proofs of what it promises.
The core has four parts:

- a seat-booking ledger whose bookings expire after four hours;
- a lending desk that lends and takes back books and charges 100 rupees per started day of lateness;
- a small account administration;
- the decisions the browser client makes from the server's data.

What is modelled:

- **Slots** (`slots.dfy`): the `slots` table as the class `Slots.SlotTable`, with a log of the
  `slot_update` events it emits. The expiry sweep is a row-by-row loop. It is proved equal to the bulk
  transition `SweepRows`, which frees exactly the expired rows. The listing, book, end and simulate-leave
  handlers are methods whose contracts give their whole new state and their check order. Every method
  keeps the table invariant: a row is booked exactly when its start time and booker are set, ids are
  unique, and no user holds two booked slots.
- **Expiry timer** (`expiry_timer.dfy`): one tick of the one-minute background job runs the listing's
  sweep. It passes the count of freed slots to the log only when that count is positive. A lemma
  bounds how late the timer can free a booking.
- **Fines** (`fines.dfy`): ceiling division on integer milliseconds, the fine, and the return message.
- **Books** (`books.dfy`): the `books` and `transactions` tables as the class `Books.Library`, with
  borrow, return, add and delete. It also holds the catalogue search and the invariant that ties a
  book's status to its open loan.
- **Users** (`users.dfy`): the history, all-transactions and all-users queries as functions. Each is
  given by its joined rows, a permutation of them and a descending sort. The `users` table is the
  class `Users.UserTable`, with the guarded add and delete.
- **Client** (`client.dfy`): the slot filter and search, the countdown, the control offered on each
  slot and book card, the overdue flag and the live fine estimate. The filter and search are proved
  to show exactly the slots that pass both conditions, in listing order. These are proved to agree
  with the server: the countdown with the sweep; "End Session" with the end handler; the corrected
  "Book Now" with the booking handler; the book card's "Borrow" and "Return" with the lending
  handlers; the overdue flag and the live fine with the fine charged on return. The as-written
  "Book Now" is shown to disagree with the booking handler (see "## Findings").
- **Shared** (`common.dfy`): options and results, roles, string order and case-insensitive
  substring search, order-preserving filtering, and a sort proved to be a sorted permutation.

Times are integer milliseconds since the epoch, as JavaScript's `Date` holds them. A table is a
sequence of rows in insertion order, and a single-row query returns the first matching row. Emitted
socket events are appended to an `events` log.

The sweep frees a booking only when `start < now - 4h` (routes/slots.js:13, server.js:49), so a
booking exactly four hours old survives a sweep (`Slots.ExpiryBoundary`).

## Model

| member | source | states |
|---|---|---|
| Slots.IndexOf | routes/slots.js:41 | the slot lookup by id finds the first row with that id, or reports that no row has it |
| Slots.HoldsBooking | routes/slots.js:36 | the existing-booking query: some row is booked and has the user as its booker (a definition, with no contract of its own) |
| Slots.IsExpired | routes/slots.js:13 | the sweep's condition, the same as the timer's at server.js:49: the row is booked, has a start time, and started strictly before `now` minus four hours (a definition, with no contract of its own) |
| Slots.CountExpired | routes/slots.js:15 | `this.changes` of the sweep: the number of rows the condition matches, never more than the table has |
| Slots.IndexOfUnique | routes/slots.js:41 | when ids are unique, looking up a row's id finds that row |
| Slots.ExpiryBoundary | routes/slots.js:9-13 | the comparison is strict: a booking survives a sweep 3h59m or exactly 4h after its start, and is expired 1 ms after 4h |
| Slots.SweepRows | routes/slots.js:13 | the sweep keeps the length, frees every expired row (status free, start and booker cleared) and leaves every other row as it was |
| Slots.SweepChangesExactlyExpired | routes/slots.js:13 | a row changes under the sweep if and only if it was expired |
| Slots.CountExpiredPositive | routes/slots.js:15-18 | the change count is positive if and only if some row was expired, so the event goes out exactly then |
| Slots.CountExpiredAppend | routes/slots.js:13-15 | the change count of a table is the sum of the counts of its two parts, which is what lets the sweep count row by row |
| Slots.SweepIdempotent | routes/slots.js:13-18 | a second sweep at the same or an earlier instant changes nothing and counts no change |
| Slots.SweepKeepsValid | routes/slots.js:13 | the sweep keeps the table invariant and never gives a user a booking they did not hold |
| Slots.ZoneNameLeIsTotalPreorder | routes/slots.js:21 | ordering by zone and then name is total and transitive |
| Text.Seat10BeforeSeat2 | routes/slots.js:21 | names compare as strings: "Seat 10" sorts strictly before "Seat 2" |
| Slots.OrderByZoneName | routes/slots.js:21-23 | the listing is a permutation of the table, sorted by zone and then by name |
| Slots.ListingAgreesWithTable | routes/slots.js:21-41 | any reordering of a valid table, so also the listing, answers the booking handler's two lookups as the table does: the same users hold a booking, the same ids are found, and the row found under an id is the same row |
| Slots.BookKeepsValid | routes/slots.js:47 | booking a free slot for a user with no booking keeps the invariant, and the user then holds exactly that slot |
| Slots.FreeKeepsValid | routes/slots.js:64 | freeing one slot keeps the invariant and takes exactly that slot from its holder |
| Slots.SlotTable.Sweep | routes/slots.js:13-18 | the loop leaves the table equal to `SweepRows`, returns the count of expired rows, and appends one bare refresh event exactly when that count is positive |
| Slots.SlotTable.List | routes/slots.js:7-26 | the sweep runs first; the result is a permutation of the swept table, ordered by zone and name |
| Slots.SlotTable.Book | routes/slots.js:29-57 | checks in this order: the user already holds a booking, the slot is missing (404), the slot is booked. A refused call changes nothing. On success only that slot changes: booked by the user from now. The user then holds exactly one slot and one event is logged. A refusal is 404 exactly when the slot is missing and the user holds none, and 400 otherwise |
| Slots.SlotTable.End | routes/slots.js:60-72 | succeeds exactly when a row with that id has the caller as booker, and then frees that slot. A missing, free or foreign slot gets the single 400 "Slot not booked by you or already free" and changes nothing |
| Slots.SlotTable.SimulateLeave | routes/slots.js:75-85 | frees the slot whoever holds it, leaves the table alone when no row has the id, and logs the update in both cases |
| ExpiryTimer.Tick | server.js:44-56 | a tick performs the same transition as the listing sweep, emits at most one bare event, and logs the count only when it is positive |
| ExpiryTimer.FreedByNextTick | server.js:56 | with ticks one minute apart, a booking survives every tick up to four hours after its start and is freed by the next tick, at most one minute later |
| Fines.CeilDiv | routes/books.js:70 | `Math.ceil` of an integer quotient by a positive divisor: the least q with a <= q*b |
| Fines.DaysOverdue | routes/books.js:68-71 | no days when returned on or before the due instant; otherwise at least one, with the lateness in (d-1, d] days |
| Fines.Fine | routes/books.js:63-72 | the fine is 0 exactly when the return is not late; otherwise it is a positive multiple of 100 |
| Fines.FineIsCeilingOfDays | routes/books.js:70-71 | for a late return, fine/100 is the lateness in days rounded up |
| Fines.FineMonotone | routes/books.js:68-72 | returning later never costs less |
| Fines.FineTwoDaysOneHourLate | routes/books.js:70-71 | two days and one hour late costs 300 |
| Fines.FineAtTheBoundary | routes/books.js:68 | on time costs 0; 1 ms late and exactly one day late cost 100; one day and 1 ms late costs 200 |
| Fines.Notice | routes/books.js:84-86 | the return message names a fine exactly when the fine is positive, and then carries that fine and the days late rounded up |
| Fines.NoticeOfFine | routes/books.js:84-86 | the message names a fine if and only if one is charged, and its day count is fine/100, at least 1 |
| Books.NewLoan | routes/books.js:38-42 | a new loan carries the given id, user and book, is issued now, is open with no return date and no fine, and is due seven days after issue |
| Books.Closed | routes/books.js:78-79 | a closed loan is returned and well formed, has return date now and the given fine, and keeps its id, user, book, issue date and due date |
| Books.BookIndex | routes/books.js:30 | the book lookup finds a row with that id, or reports that no row has it |
| Books.OpenLoanIndex | routes/books.js:58 | the return lookup finds an open loan of exactly this user and book, or shows that this user has no open loan of it |
| Books.WithStatus | routes/books.js:36 | the status update changes the status of the rows with that id and nothing else |
| Books.BorrowKeepsValid | routes/books.js:36-42 | lending an available book keeps the library invariant |
| Books.BorrowKeepsAgreement | routes/books.js:36-42 | after a loan, each book is borrowed exactly when an open loan refers to it |
| Books.ReturnKeepsValid | routes/books.js:74-79 | closing a book's open loan and marking the book available keeps the invariant |
| Books.ReturnKeepsAgreement | routes/books.js:74-79 | after a return, each book is borrowed exactly when an open loan refers to it |
| Books.AddKeepsValid | routes/books.js:96-97 | inserting an available book under the next id keeps the invariant |
| Books.DeleteKeepsValid | routes/books.js:114-116 | removing an available book keeps the invariant, since no open loan refers to it |
| Books.Without | routes/books.js:116 | deletion keeps every row with another id and no row with this id |
| Books.WithoutUnique | routes/books.js:116 | deletion keeps ids unique |
| Books.OpenBorrower | routes/books.js:10-12 | the search attaches a borrower to a book exactly when the book has an open loan |
| Books.OpenBorrowerIsReturner | routes/books.js:12 | under the invariant, the borrower the search shows is exactly the user whose return would be accepted |
| Books.MatchesQuery | routes/books.js:13 | the search condition: the title or the author contains the query, ignoring ASCII case (a definition, with no contract of its own) |
| Books.Search | routes/books.js:7-21 | one row per book whose title or author contains the query, in table order and each exactly once, carrying the borrower of its open loan; every such book appears |
| Books.SearchEmptyQuery | routes/books.js:13-15 | the empty query lists every book, in table order |
| Books.Library.Borrow | routes/books.js:24-49 | a missing book gives 404 and a borrowed one "Book already borrowed", and neither changes anything. Otherwise the book becomes borrowed, one loan due now + 7 days is appended, its due date is returned and one event is logged. A refusal is 404 exactly when the book is missing, and 400 otherwise |
| Books.Library.Return | routes/books.js:52-91 | refused, with no change, exactly when this user has no open loan of this book. Otherwise the book becomes available, only that loan closes with `Fine(due, now)`, and the receipt carries that fine and its message. The refusal is 400 "No active borrow record found" |
| Books.Library.Add | routes/books.js:94-105 | appends one available book under the next id and returns that id |
| Books.Library.Delete | routes/books.js:108-124 | a missing book gives 404 and a borrowed one "Cannot delete a borrowed book", with no change. Otherwise exactly that book is removed and the loans are untouched. A refusal is 404 exactly when the book is missing, and 400 otherwise |
| Base.ParseRole | routes/users.js:72 | a role is accepted only under its own spelling |
| Base.ParseRoleName | routes/users.js:72 | each of student, faculty and admin is accepted |
| Users.UserIndex | routes/users.js:129 | the account lookup by id finds a row with that id, or reports that no row has it |
| Users.UsernameIndex | routes/users.js:77 | the lookup by username finds a row with that name, or reports that no row has it |
| Users.HistoryRows | routes/users.js:10-14 | every row is the joined row of one of the user's loans whose book exists, every such loan has a row, and there is one row per such loan |
| Users.NewestLoansFirst | routes/users.js:15 | the same rows, ordered by issue date, newest first |
| Users.History | routes/users.js:10-21 | the history is a permutation of the user's joined loan rows, newest first |
| Users.HistoryShowsOnlyOwnLiveLoans | routes/users.js:13-14 | with unique loan ids, no loan of another user and no loan of a deleted book appears |
| Users.HistoryShowsEveryOwnLiveLoan | routes/users.js:13-14 | every loan of the user whose book exists appears |
| Users.LedgerRows | routes/users.js:31-36 | every row is the join of a loan with its book and borrower, every loan whose book and user both exist has a row, and there is one row per such loan |
| Users.NewestLedgerFirst | routes/users.js:37 | the same rows, newest issue date first |
| Users.Ledger | routes/users.js:31-38 | the ledger is a permutation of the joined rows, newest first |
| Users.AllTransactions | routes/users.js:25-44 | refused exactly for a non-administrator, with 403 "Access denied. Admin only."; otherwise the ledger |
| Users.UserRows | routes/users.js:52 | one row per account, with the id, name, role and creation time but no password hash |
| Users.NewestUsersFirst | routes/users.js:52 | the same rows, newest account first |
| Users.UserList | routes/users.js:52 | the account list is a permutation of the projected rows, newest first |
| Users.AllUsers | routes/users.js:47-58 | refused exactly for a non-administrator, with 403 "Access denied. Admin only."; otherwise the account list |
| Users.OpenLoanCount | routes/users.js:116-122 | the count of open loans is positive exactly when the user has an open loan |
| Users.UsersWithout | routes/users.js:129 | deletion keeps every other account and no account with this id |
| Users.UsersWithoutKeepsValid | routes/users.js:129 | deletion keeps ids and usernames unique |
| Users.AddUserKeepsValid | routes/users.js:77-88 | an account under the next id, with a name not yet taken, keeps ids and usernames unique |
| Users.DeleteKeepsBorrowers | routes/users.js:116-129 | a deletion the open-loan guard lets through never removes the borrower of an open loan |
| Users.UserTable.Add | routes/users.js:61-100 | checks in this order: administrator (403), then empty fields, then an invalid role, then a taken username (each 400), and a refusal changes nothing. On success one account is appended under the next id with the hashed password and the parsed role, and that id is returned |
| Users.UserTable.Delete | routes/users.js:103-140 | checks in this order: administrator (403), then self-deletion, then open loans (each 400), then a missing id (404), and a refusal changes nothing. On success exactly that account is removed |
| Client.EmptyQueryMatchesAll | public/js/app.js:340 | the empty search matches every slot, so skipping it changes nothing |
| Client.PassesStatus | public/js/app.js:334-337 | the status stage: 'all' passes every slot, otherwise exactly the slots with the chosen status pass (a definition, with no contract of its own) |
| Client.MatchesSearch | public/js/app.js:339-345 | the search stage: the lower-cased name or zone contains the lower-cased query (a definition, with no contract of its own) |
| Client.FilterAndSearchSlots | public/js/app.js:329-349 | the two stages, each skipped when inactive, show exactly the slots that pass both the status filter and the search, in listing order |
| Client.NoFilterShowsAll | public/js/app.js:334-345 | 'all' with an empty query shows the whole listing unchanged |
| Client.StatusFilterExact | public/js/app.js:334-337 | a status filter shows only slots with that status, and shows every listed slot with that status that matches the search |
| Client.RemainingMinutes | public/js/app.js:357-360 | the whole minutes left are 0 exactly when less than a minute remains before the four hours are up; otherwise m minutes means between m and m+1 minutes remain |
| Client.ExpiresIn | public/js/app.js:362 | the hours and minutes shown add up to the minutes left, with minutes below 60 |
| Client.CountdownBounds | public/js/app.js:357-362 | a countdown never exceeds 240 minutes, and a fresh booking shows 4h 0m |
| Client.CountdownAgreesWithExpiry | public/js/app.js:360 | a booking the server's sweep would free shows 0 minutes left, and one with minutes left is not freed |
| Client.SlotActionFor | public/js/app.js:355-391 | an administrator only ever sees "Occupied" or "Admin View Only", and "Admin View Only" appears exactly on a free slot shown to an administrator. "Occupied" appears exactly on a booked slot that is not the non-admin viewer's own. "End Session" is offered only on a slot the viewer holds. For a non-admin on a free slot, "Already Booked" appears exactly when they hold a booking in the list consulted, and "Book Now" exactly when they hold none there. Both buttons carry the card's slot id |
| Client.RenderedActions | public/js/app.js:351-392 | one control per shown slot. Each is chosen with the filtered list as the place where the viewer's own booking is looked up, as the code does |
| Client.RenderedActionsHidesOwnBooking | public/js/app.js:382 | a student who holds slot 1 and filters on 'free' is offered "Book Now" on slot 2, which the server refuses |
| Client.RenderedActionsFixed | public/js/app.js:382 | one control per shown slot, each chosen with the whole listing as the place to look for the viewer's booking |
| Client.BookNowIffBookAccepted | public/js/app.js:380-388 | with the whole listing consulted, where the listing is any reordering of the valid table, "Book Now" is offered on a slot exactly when the booking handler would accept it against that table: the viewer holds no slot in the table, and the table's row under this slot's id is free |
| Client.RenderedActionsFixedAgreesWithBook | public/js/app.js:380-388 | every card the corrected rendering draws from a reordering of the valid table offers "Book Now" exactly when the booking handler would accept it against that table: the table has the slot under its id, the viewer holds no slot there, and that row is free |
| Client.EndSessionIffEndAccepted | public/js/app.js:365-374 | on a listing that reorders the valid table, "End Session" is offered exactly when the end handler would succeed for that slot against the table: a row of the table with that id has the viewer as booker |
| Client.BookActionFor | public/js/app.js:281-293 | "Delete" is offered exactly to an administrator; "Borrow" only on an available book, "Return" only on a borrowed book whose open loan is the viewer's, and both carry the card's book id |
| Client.BookActionMatchesServer | public/js/app.js:281-293 | on a search result, "Return" is offered exactly when the return handler would accept it, and "Borrow" exactly when the borrow handler would |
| Client.IsOverdue | public/js/app.js:422 | the history's overdue flag: the loan is open and `now` is past its due instant (a definition, with no contract of its own) |
| Client.OverdueIffReturnFined | public/js/app.js:422 | an open loan is flagged overdue exactly when returning it now would be fined |
| Client.PotentialFine | public/js/app.js:573-586 | the estimate is marked overdue exactly for an open loan past its due instant, and is zero otherwise |
| Client.PotentialFineIsReturnFine | public/js/app.js:578-585 | for an open loan the estimate equals the fine a return now would charge, and its day count is the one the return message would give |
| Client.FineSectionFor | public/js/app.js:590-608 | a recorded fine is shown in preference to the estimate; otherwise the current fine is shown only for an overdue loan, and nothing in the remaining case |

## Left out

- Role gates of the authentication middleware (`authenticateToken`, `authorizeRole`): that middleware is not part of this model. The callers of the slot and book handlers are taken as already admitted, while the inline admin checks of the account handlers are modelled.
- Token signing, login, and `routes/auth.js`: foreign libraries (JWT, bcrypt comparison).
- Password hashing: bcrypt with its random salt becomes the parameter `hash` of `Users.UserTable.Add`.
- Storage errors and every 500 response: the database is taken never to fail, and a failed sweep, which only logs, is not modelled.
- Concurrency: the model is sequential. It does not cover check-then-act races between a handler's separate statements, or the timer sweep interleaving with the request sweep.
- Time representation: timestamps are integer milliseconds. The model does not cover ISO-string comparison in SQL, the one-second resolution of `CURRENT_TIMESTAMP` for issue dates, return dates and account creation times (`users.created_at`, which `Users.UserTable.Add` stores as `now` and the account list sorts by), or the local-time calendar arithmetic of `setDate(+7)`. The loan period is seven 24-hour days.
- Floating point: `Math.floor` and `Math.ceil` over a floating-point quotient are modelled as exact integer division.
- Books.Search: the query is a plain substring. SQL `LIKE` wildcards (`%` and `_`) inside the query, and an absent query that becomes the text "undefined", are not modelled. Case folding covers ASCII letters only, as SQLite's `LIKE` does.
- Client.MatchesSearch: `toLowerCase` is modelled on ASCII letters only; Unicode case mapping is not.
- Books.Search: the outer join could give a book one row per open loan, but that cannot happen while the invariant holds (at most one open loan per book). The model gives one row per book, carrying the first open loan's borrower.
- Ties in `ORDER BY` (same zone and name, same issue date, same creation time): SQLite leaves their order unspecified, so the contracts state sortedness and permutation, not one particular order.
- Foreign keys are not enforced by SQLite by default. Deleting a book or an account leaves its transactions, which the inner joins of the history and the ledger then drop. This is stated, not prevented.
- Books.Library.Add: the request body's fields are stored as given, and the `created_at` column of `books` is not modelled.
- String ids from URL parameters and `parseInt` in the self-deletion check: ids are integers throughout.
- Client: the DOM, HTML strings, `fetch`, local storage, token decoding, the print-store simulation and its timers, and the reassignment of the global slot list are not modelled. A missing due date on the client side is not modelled either, because the server always sets one.
- Socket transport: emitted events are recorded in an `events` log; their delivery is not modelled.
- Seeding and the demo scripts (`init_db.js` data, `create_overdue.js`): not behaviour. The schema is used only to shape the rows and invariants. Both scripts mark book 1 borrowed and insert an open loan of it without checking for one (init_db.js:139-160, create_overdue.js:16-27). Running both gives book 1 two open loans, a state `Books.ValidLibrary` excludes and the `Books.Library` constructor's precondition rules out.

## Findings

| source | as written | input that shows it | evidently intended | confidence | as-written member | corrected member |
|---|---|---|---|---|---|---|
| public/js/app.js:382 | `renderSlots` decides "Already Booked" by looking for the viewer's booking in the list it was handed, which is the filtered list | user 7 holds slot 1 and filters on 'free': slot 1 is filtered out, so slot 2 shows "Book Now", and the server refuses that booking because user 7 already holds one | look for the viewer's booking in the whole listing, as the server does | medium, not executed | Client.RenderedActionsHidesOwnBooking | Client.RenderedActionsFixedAgreesWithBook |
