/** The decisions the browser client takes from the server's data in `public/js/app.js`: which slots
    the filter and search show, the countdown of a booking, the button offered for each slot and each
    book, the overdue warning of the history and the live fine of the administrator's view. */
module Client {
  import opened Base
  import opened Text
  import opened Lists
  import opened Slots
  import opened Books
  import opened Fines

  /** The value of the status drop-down: 'all', 'free' or 'booked'. */
  datatype StatusFilter = AllStatuses | OnlyStatus(status: SlotStatus)

  function PassesStatus(f: StatusFilter): Slot -> bool
  {
    (s: Slot) => f.AllStatuses? || s.status == f.status
  }

  /** The search box: the lower-cased name or zone contains the lower-cased query. */
  function MatchesSearch(q: string): Slot -> bool
  {
    (s: Slot) => LikeSubstring(s.name, q) || LikeSubstring(s.zone, q)
  }

  /** A slot is shown when it passes both the status filter and the search. */
  function Shown(f: StatusFilter, q: string): Slot -> bool
  {
    (s: Slot) => PassesStatus(f)(s) && MatchesSearch(q)(s)
  }

  /** The empty query matches every slot, so skipping the search for it changes nothing. */
  lemma EmptyQueryMatchesAll(s: Slot)
    ensures MatchesSearch("")(s)
  {
    assert Lower("") == "";
    ContainsEmpty(Lower(s.name));
  }

  /** `filterAndSearchSlots`: the status filter unless it is 'all', then the search unless the
      query is empty. The result is exactly the slots that pass both, in the listing's order. */
  function FilterAndSearchSlots(all: seq<Slot>, f: StatusFilter, q: string): (r: seq<Slot>)
    ensures r == Filter(all, Shown(f, q))
  {
    var byStatus := if f.AllStatuses? then all else Filter(all, PassesStatus(f));
    var r := if q == "" then byStatus else Filter(byStatus, MatchesSearch(q));
    SkippedStatusFilter(all, f);
    SkippedSearch(byStatus, q);
    FilterFilter(all, PassesStatus(f), MatchesSearch(q), Shown(f, q));
    r
  }

  /** Skipping the status filter for 'all' is filtering by it. */
  lemma SkippedStatusFilter(all: seq<Slot>, f: StatusFilter)
    ensures (if f.AllStatuses? then all else Filter(all, PassesStatus(f))) == Filter(all, PassesStatus(f))
  {
    if f.AllStatuses? {
      FilterAll(all, PassesStatus(f));
    }
  }

  /** Skipping the search for the empty query is searching for it. */
  lemma SkippedSearch(xs: seq<Slot>, q: string)
    ensures (if q == "" then xs else Filter(xs, MatchesSearch(q))) == Filter(xs, MatchesSearch(q))
  {
    if q == "" {
      forall s: Slot ensures MatchesSearch(q)(s) { EmptyQueryMatchesAll(s); }
      FilterAll(xs, MatchesSearch(q));
    }
  }

  /** 'all' with an empty query shows the whole listing. */
  lemma NoFilterShowsAll(all: seq<Slot>)
    ensures FilterAndSearchSlots(all, AllStatuses, "") == all
  {
    forall s: Slot ensures Shown(AllStatuses, "")(s) { EmptyQueryMatchesAll(s); }
    FilterAll(all, Shown(AllStatuses, ""));
  }

  /** A status filter keeps exactly the slots with that status, and each slot it shows is listed. */
  lemma StatusFilterExact(all: seq<Slot>, st: SlotStatus, q: string)
    ensures forall k :: 0 <= k < |FilterAndSearchSlots(all, OnlyStatus(st), q)| ==>
      FilterAndSearchSlots(all, OnlyStatus(st), q)[k].status == st &&
      FilterAndSearchSlots(all, OnlyStatus(st), q)[k] in all
    ensures forall k :: 0 <= k < |all| && all[k].status == st && MatchesSearch(q)(all[k]) ==>
      all[k] in FilterAndSearchSlots(all, OnlyStatus(st), q)
  {
    var r := FilterAndSearchSlots(all, OnlyStatus(st), q);
    forall k | 0 <= k < |r| ensures r[k].status == st && r[k] in all {
      assert Shown(OnlyStatus(st), q)(r[k]);
    }
    forall k | 0 <= k < |all| && all[k].status == st && MatchesSearch(q)(all[k]) ensures all[k] in r {
      assert Shown(OnlyStatus(st), q)(all[k]);
    }
  }

  /** The countdown's minutes: whole minutes until four hours after `start`, never below zero. */
  function RemainingMinutes(start: Time, now: Time): (m: nat)
    ensures m == 0 <==> start + SessionMs - now < MinuteMs
    ensures m > 0 ==> m * MinuteMs <= start + SessionMs - now < (m + 1) * MinuteMs
  {
    var left := (start + SessionMs - now) / MinuteMs;
    if left > 0 then left else 0
  }

  /** The "Expires in: h m" text: whole hours and the minutes beyond them. */
  datatype Countdown = Countdown(hours: nat, minutes: nat)

  function ExpiresIn(m: nat): (c: Countdown)
    ensures c.minutes < 60 && c.hours * 60 + c.minutes == m
  {
    Countdown(m / 60, m % 60)
  }

  /** The countdown of a fresh booking shows 4h 0m, and it never exceeds that. */
  lemma CountdownBounds(start: Time, now: Time)
    requires start <= now
    ensures RemainingMinutes(start, now) <= 240
    ensures now == start ==> ExpiresIn(RemainingMinutes(start, now)) == Countdown(4, 0)
  {
  }

  /** The countdown agrees with the sweep: a booking a sweep would free shows no minutes left, and
      one showing minutes left is not yet freed. */
  lemma CountdownAgreesWithExpiry(s: Slot, now: Time)
    requires s.status == Booked && s.start.Some?
    ensures IsExpired(s, now) ==> RemainingMinutes(s.start.value, now) == 0
    ensures RemainingMinutes(s.start.value, now) > 0 ==> !IsExpired(s, now)
  {
  }

  /** The control rendered on a slot card. */
  datatype SlotAction = EndSession(slotId: SlotId) | Occupied | AlreadyBooked | BookNow(slotId: SlotId)
                      | AdminViewOnly

  /** The choice `renderSlots` makes for slot `s`, where `shown` is the list it was handed and in
      which it looks for a booking of the viewer's own. */
  function SlotActionFor(shown: seq<Slot>, s: Slot, viewer: Caller): (r: SlotAction)
    ensures viewer.role == Admin ==> r == Occupied || r == AdminViewOnly
    ensures r.EndSession? ==> r.slotId == s.id && BookedBy(s, viewer.id)
    ensures r.BookNow? ==> r.slotId == s.id
    ensures r.BookNow? ==> s.status != Booked
    ensures r.BookNow? ==> !HoldsBooking(shown, viewer.id)
    ensures r == AlreadyBooked ==> s.status == Free && HoldsBooking(shown, viewer.id)
    ensures viewer.role != Admin && s.status == Free ==> (r == AlreadyBooked <==> HoldsBooking(shown, viewer.id))
    ensures viewer.role != Admin && s.status == Free ==> (r.BookNow? <==> !HoldsBooking(shown, viewer.id))
    ensures r == AdminViewOnly <==> viewer.role == Admin && s.status.Free?
    ensures r == Occupied <==> s.status == Booked && !(viewer.role != Admin && s.booker == Some(viewer.id))
  {
    if s.status == Booked then
      if viewer.role != Admin && s.booker == Some(viewer.id) then EndSession(s.id) else Occupied
    else if viewer.role == Admin then AdminViewOnly
    else if HoldsBooking(shown, viewer.id) then AlreadyBooked
    else BookNow(s.id)
  }

  /** The cards rendered as written: `renderSlots(filtered)` looks for the viewer's booking only
      among the slots that passed the filter. */
  function RenderedActions(all: seq<Slot>, f: StatusFilter, q: string, viewer: Caller): (r: seq<SlotAction>)
    ensures |r| == |FilterAndSearchSlots(all, f, q)|
    ensures var shown := FilterAndSearchSlots(all, f, q);
      forall k :: 0 <= k < |r| ==> r[k] == SlotActionFor(shown, shown[k], viewer)
  {
    var shown := FilterAndSearchSlots(all, f, q);
    seq(|shown|, k requires 0 <= k < |shown| => SlotActionFor(shown, shown[k], viewer))
  }

  /** A student holding slot 1 and filtering on 'free' is offered "Book Now" on slot 2, a booking the
      server refuses because the student already holds one. */
  lemma RenderedActionsHidesOwnBooking()
    ensures var all := [Slot(1, "Floor 1", "Seat 1", Booked, Some(0), Some(7)),
                        Slot(2, "Floor 1", "Seat 2", Free, None, None)];
      && HoldsBooking(all, 7)
      && RenderedActions(all, OnlyStatus(Free), "", Caller(7, Student)) == [BookNow(2)]
  {
    var all := [Slot(1, "Floor 1", "Seat 1", Booked, Some(0), Some(7)),
                Slot(2, "Floor 1", "Seat 2", Free, None, None)];
    assert BookedBy(all[0], 7);
    var shown := FilterAndSearchSlots(all, OnlyStatus(Free), "");
    assert Filter(all[1..], Shown(OnlyStatus(Free), "")) == [all[1]] by {
      EmptyQueryMatchesAll(all[1]);
      assert all[1..][1..] == [];
    }
    assert shown == [all[1]];
    assert !HoldsBooking(shown, 7);
  }

  /** The cards as intended: the viewer's own booking is looked for in the whole listing. */
  function RenderedActionsFixed(all: seq<Slot>, f: StatusFilter, q: string, viewer: Caller): (r: seq<SlotAction>)
    ensures |r| == |FilterAndSearchSlots(all, f, q)|
    ensures var shown := FilterAndSearchSlots(all, f, q);
      forall k :: 0 <= k < |r| ==> r[k] == SlotActionFor(all, shown[k], viewer)
  {
    var shown := FilterAndSearchSlots(all, f, q);
    seq(|shown|, k requires 0 <= k < |shown| => SlotActionFor(all, shown[k], viewer))
  }

  /** With the whole listing consulted, "Book Now" appears on a card exactly when the booking
      handler, run against the table the listing was read from, would accept it: the viewer holds
      no slot in the table, and the table's row under this slot's id is free. `all` is any
      reordering of the table's rows, as `SlotTable.List` returns. */
  lemma BookNowIffBookAccepted(rows: seq<Slot>, all: seq<Slot>, i: int, viewer: Caller)
    requires ValidTable(rows) && multiset(all) == multiset(rows)
    requires 0 <= i < |all| && viewer.role != Admin
    ensures IndexOf(rows, all[i].id).Some?
    ensures SlotActionFor(all, all[i], viewer) == BookNow(all[i].id) <==>
      !HoldsBooking(rows, viewer.id) && rows[IndexOf(rows, all[i].id).value].status == Free
  {
    ListingAgreesWithTable(rows, all, viewer.id, all[i].id);
    assert all[i] in multiset(rows);
    var j :| 0 <= j < |rows| && rows[j] == all[i];
    IndexOfUnique(rows, j);
  }

  /** Every card the corrected rendering draws offers "Book Now" exactly when the booking handler
      would accept it against the table: the slot is found there under its id, the viewer holds no
      slot, and the slot is free. */
  lemma RenderedActionsFixedAgreesWithBook(rows: seq<Slot>, all: seq<Slot>, f: StatusFilter, q: string,
                                           viewer: Caller, k: int)
    requires ValidTable(rows) && multiset(all) == multiset(rows) && viewer.role != Admin
    requires 0 <= k < |FilterAndSearchSlots(all, f, q)|
    ensures var s := FilterAndSearchSlots(all, f, q)[k];
      && IndexOf(rows, s.id).Some?
      && (RenderedActionsFixed(all, f, q, viewer)[k] == BookNow(s.id) <==>
            !HoldsBooking(rows, viewer.id) && rows[IndexOf(rows, s.id).value].status == Free)
  {
    var s := FilterAndSearchSlots(all, f, q)[k];
    assert s in all;
    var i :| 0 <= i < |all| && all[i] == s;
    BookNowIffBookAccepted(rows, all, i, viewer);
  }

  /** "End Session" is offered on a slot of the listing exactly when the end handler, run against
      the table the listing was read from, would succeed for it. */
  lemma EndSessionIffEndAccepted(rows: seq<Slot>, all: seq<Slot>, i: int, viewer: Caller, shown: seq<Slot>)
    requires ValidTable(rows) && multiset(all) == multiset(rows)
    requires 0 <= i < |all| && viewer.role != Admin
    ensures SlotActionFor(shown, all[i], viewer) == EndSession(all[i].id) <==>
      exists k :: 0 <= k < |rows| && rows[k].id == all[i].id && rows[k].booker == Some(viewer.id)
  {
    assert all[i] in multiset(rows);
    var j :| 0 <= j < |rows| && rows[j] == all[i];
    assert Consistent(rows[j]);
    if exists k :: 0 <= k < |rows| && rows[k].id == all[i].id && rows[k].booker == Some(viewer.id) {
      var k :| 0 <= k < |rows| && rows[k].id == all[i].id && rows[k].booker == Some(viewer.id);
      assert k == j;
    }
  }

  /** The control rendered on a book card of the catalogue. */
  datatype BookAction = DeleteBook(bookId: BookId) | BorrowBook(bookId: BookId) | ReturnBook(bookId: BookId)
                      | BorrowedDisabled

  /** The choice of `loadBooks`: administrators delete; others borrow an available book, return one
      they hold, and see any other borrowed book disabled. */
  function BookActionFor(row: SearchRow, viewer: Caller): (r: BookAction)
    ensures r.DeleteBook? <==> viewer.role == Admin
    ensures !r.BorrowedDisabled? ==> r.bookId == row.book.id
    ensures r.BorrowBook? ==> row.book.status == Available
    ensures r.ReturnBook? ==> row.book.status != Available && row.borrowedBy == Some(viewer.id)
  {
    if viewer.role == Admin then DeleteBook(row.book.id)
    else if row.book.status == Available then BorrowBook(row.book.id)
    else if row.borrowedBy == Some(viewer.id) then ReturnBook(row.book.id)
    else BorrowedDisabled
  }

  /** On a search result, "Return" is offered exactly when the server would accept the return, and
      "Borrow" exactly when it would accept the loan. */
  lemma BookActionMatchesServer(books: seq<Book>, txs: seq<Transaction>, nb: BookId, nt: TxId,
                                query: string, viewer: Caller, k: int)
    requires ValidLibrary(books, txs, nb, nt) && viewer.role != Admin
    requires 0 <= k < |Search(books, txs, query)|
    ensures var row := Search(books, txs, query)[k];
      && BookIndex(books, row.book.id).Some?
      && (BookActionFor(row, viewer) == ReturnBook(row.book.id) <==>
            OpenLoanIndex(txs, viewer.id, row.book.id).Some?)
      && (BookActionFor(row, viewer) == BorrowBook(row.book.id) <==>
            books[BookIndex(books, row.book.id).value].status == Available)
  {
    var row := Search(books, txs, query)[k];
    var i :| 0 <= i < |books| && books[i] == row.book;
    assert BookIndex(books, row.book.id) == Some(i);
    OpenBorrowerIsReturner(books, txs, nb, nt, row.book.id, viewer.id);
    if OpenLoanIndex(txs, viewer.id, row.book.id).Some? {
      var j := OpenLoanIndex(txs, viewer.id, row.book.id).value;
      assert HasOpenLoan(txs, row.book.id);
    }
  }

  /** The overdue warning of `loadHistory`: a loan still open after its due instant. */
  predicate IsOverdue(status: LoanStatus, due: Time, now: Time)
  {
    status == OnLoan && now > due
  }

  /** The warning "Fine will apply" is shown exactly when returning the loan now would be fined. */
  lemma OverdueIffReturnFined(t: Transaction, now: Time)
    requires IsOpen(t)
    ensures IsOverdue(t.status, t.due, now) <==> Fine(t.due, now) > 0
  {
  }

  /** The live estimate of `loadAllTransactions`: days late, rounded up, and 100 per day, for a
      loan still open after its due instant; nothing otherwise. */
  datatype Estimate = Estimate(days: int, fine: int, overdue: bool)

  function PotentialFine(status: LoanStatus, due: Time, now: Time): (e: Estimate)
    ensures e.overdue <==> IsOverdue(status, due, now)
    ensures !e.overdue ==> e.days == 0 && e.fine == 0
  {
    if status == OnLoan && now > due then
      var days := CeilDiv(now - due, DayMs);
      Estimate(days, days * 100, true)
    else Estimate(0, 0, false)
  }

  /** The estimate is what the server would charge for a return at the same instant, and its day
      count is the one the return message would give. */
  lemma PotentialFineIsReturnFine(t: Transaction, now: Time)
    requires IsOpen(t)
    ensures PotentialFine(t.status, t.due, now).fine == Fine(t.due, now)
    ensures PotentialFine(t.status, t.due, now).overdue ==>
      Notice(Fine(t.due, now), t.due, now) == FineCharged(Fine(t.due, now), PotentialFine(t.status, t.due, now).days)
  {
  }

  /** The fine part of an administrator's transaction card. */
  datatype FineSection = FinePaid(paid: nat) | CurrentFine(days: int, amount: int) | NoFineShown

  /** A recorded fine is shown in preference to the live estimate; the estimate only for an overdue
      loan. */
  function FineSectionFor(recorded: nat, status: LoanStatus, due: Time, now: Time): (r: FineSection)
    ensures recorded > 0 ==> r == FinePaid(recorded)
    ensures recorded == 0 && IsOverdue(status, due, now) ==>
      r == CurrentFine(CeilDiv(now - due, DayMs), Fine(due, now))
    ensures recorded == 0 && !IsOverdue(status, due, now) ==> r == NoFineShown
  {
    var e := PotentialFine(status, due, now);
    if recorded > 0 then FinePaid(recorded)
    else if e.overdue then CurrentFine(e.days, e.fine)
    else NoFineShown
  }
}
