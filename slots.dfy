/** The seat-booking ledger of `routes/slots.js`: the `slots` table, its four-hour expiry sweep and
    the handlers that list, book, end and force-free slots. */
module Slots {
  import opened Base
  import opened Text
  import opened Lists

  /** The longest a booking lasts before a sweep frees it: four hours. */
  const SessionMs: int := 4 * HourMs

  datatype SlotStatus = Free | Booked

  /** A row of the `slots` table. `start` is `booking_start_time` and `booker` is
      `booked_by_user_id`; SQL NULL is `None`. */
  datatype Slot = Slot(id: SlotId, zone: string, name: string, status: SlotStatus,
                       start: Option<Time>, booker: Option<UserId>)

  /** The schema's reading of a row: booked exactly when start time and booker are both set,
      free exactly when both are NULL. */
  predicate Consistent(s: Slot)
  {
    if s.status == Booked then s.start.Some? && s.booker.Some? else s.start.None? && s.booker.None?
  }

  predicate UniqueIds(rows: seq<Slot>)
  {
    forall i, j :: 0 <= i < j < |rows| ==> rows[i].id != rows[j].id
  }

  predicate BookedBy(s: Slot, u: UserId)
  {
    s.status == Booked && s.booker == Some(u)
  }

  /** No user holds two booked slots, in any zones. */
  predicate OneBookingPerUser(rows: seq<Slot>)
  {
    forall i, j :: 0 <= i < j < |rows| && rows[i].status == Booked && rows[j].status == Booked ==>
      rows[i].booker != rows[j].booker
  }

  /** The invariant of the table that every handler keeps. */
  predicate ValidTable(rows: seq<Slot>)
  {
    && UniqueIds(rows)
    && (forall i :: 0 <= i < |rows| ==> Consistent(rows[i]))
    && OneBookingPerUser(rows)
  }

  /** User `u` holds a booked slot: the booking handler's first lookup finds a row. */
  predicate HoldsBooking(rows: seq<Slot>, u: UserId)
  {
    exists i :: 0 <= i < |rows| && BookedBy(rows[i], u)
  }

  /** The positions of the slots `u` holds. */
  function BookingsOf(rows: seq<Slot>, u: UserId): set<int>
  {
    set i | 0 <= i < |rows| && BookedBy(rows[i], u)
  }

  /** The lookup of a slot by id: the position of the first row with that id. */
  function IndexOf(rows: seq<Slot>, id: SlotId): (r: Option<nat>)
    ensures r.Some? ==> r.value < |rows| && rows[r.value].id == id
    ensures r.Some? ==> forall k :: 0 <= k < r.value ==> rows[k].id != id
    ensures r.None? ==> forall k :: 0 <= k < |rows| ==> rows[k].id != id
  {
    FirstIndex(rows, (s: Slot) => s.id == id)
  }

  /** With unique ids the row found is the only row with that id. */
  lemma IndexOfUnique(rows: seq<Slot>, i: int)
    requires UniqueIds(rows) && 0 <= i < |rows|
    ensures IndexOf(rows, rows[i].id) == Some(i)
  {
  }

  /** A listing that holds the rows of a valid table in another order answers the handlers'
      lookups as the table does: the same users hold a booking, the same ids are found and the
      row found under an id is the same row. */
  lemma ListingAgreesWithTable(rows: seq<Slot>, listing: seq<Slot>, u: UserId, id: SlotId)
    requires ValidTable(rows) && multiset(listing) == multiset(rows)
    ensures HoldsBooking(listing, u) <==> HoldsBooking(rows, u)
    ensures IndexOf(listing, id).Some? <==> IndexOf(rows, id).Some?
    ensures IndexOf(listing, id).Some? ==>
      listing[IndexOf(listing, id).value] == rows[IndexOf(rows, id).value]
  {
    if HoldsBooking(listing, u) {
      var i :| 0 <= i < |listing| && BookedBy(listing[i], u);
      assert listing[i] in multiset(rows);
      var j :| 0 <= j < |rows| && rows[j] == listing[i];
      assert BookedBy(rows[j], u);
    }
    if HoldsBooking(rows, u) {
      var j :| 0 <= j < |rows| && BookedBy(rows[j], u);
      assert rows[j] in multiset(listing);
      var i :| 0 <= i < |listing| && listing[i] == rows[j];
      assert BookedBy(listing[i], u);
    }
    if IndexOf(listing, id).Some? {
      var i := IndexOf(listing, id).value;
      assert listing[i] in multiset(rows);
      var j :| 0 <= j < |rows| && rows[j] == listing[i];
      IndexOfUnique(rows, j);
    }
    if IndexOf(rows, id).Some? {
      var j := IndexOf(rows, id).value;
      assert rows[j] in multiset(listing);
      var i :| 0 <= i < |listing| && listing[i] == rows[j];
      assert listing[i].id == id;
    }
  }

  /** A row once it is freed: status free, start time and booker cleared. */
  function Freed(s: Slot): (r: Slot)
    ensures r.id == s.id && r.zone == s.zone && r.name == s.name
    ensures r.status == Free && Consistent(r)
  {
    s.(status := Free, start := None, booker := None)
  }

  /** A row once it is booked by `u` at `now`. */
  function BookedFor(s: Slot, u: UserId, now: Time): (r: Slot)
    ensures r.id == s.id && r.zone == s.zone && r.name == s.name
    ensures BookedBy(r, u) && r.start == Some(now) && Consistent(r)
  {
    s.(status := Booked, start := Some(now), booker := Some(u))
  }

  /** The sweep's condition: booked, and started strictly before `now - 4h`. The
      comparison is strict, and a NULL start time never matches. */
  predicate IsExpired(s: Slot, now: Time)
  {
    s.status == Booked && s.start.Some? && s.start.value < now - SessionMs
  }

  /** A booking started at `t0` survives a sweep at exactly `t0 + 4h` and at `t0 + 3h59m`, and is
      freed by one a millisecond after `t0 + 4h`. */
  lemma ExpiryBoundary(s: Slot, t0: Time)
    requires s.status == Booked && s.start == Some(t0)
    ensures !IsExpired(s, t0 + 3 * HourMs + 59 * MinuteMs)
    ensures !IsExpired(s, t0 + SessionMs)
    ensures IsExpired(s, t0 + SessionMs + 1)
  {
  }

  /** The bulk expiry UPDATE applied to every row of the table at instant `now`. */
  function SweepRows(rows: seq<Slot>, now: Time): (r: seq<Slot>)
    ensures |r| == |rows|
    ensures forall i :: 0 <= i < |rows| && IsExpired(rows[i], now) ==> r[i] == Freed(rows[i])
    ensures forall i :: 0 <= i < |rows| && !IsExpired(rows[i], now) ==> r[i] == rows[i]
  {
    seq(|rows|, i requires 0 <= i < |rows| => if IsExpired(rows[i], now) then Freed(rows[i]) else rows[i])
  }

  /** `this.changes` of the sweep: how many rows its WHERE clause matches. */
  function CountExpired(rows: seq<Slot>, now: Time): (n: nat)
    ensures n <= |rows|
  {
    if rows == [] then 0
    else (if IsExpired(rows[0], now) then 1 else 0) + CountExpired(rows[1..], now)
  }

  /** The sweep reports a change exactly when some row was expired. */
  lemma {:induction false} CountExpiredPositive(rows: seq<Slot>, now: Time)
    ensures CountExpired(rows, now) > 0 <==> exists i :: 0 <= i < |rows| && IsExpired(rows[i], now)
  {
    if rows != [] {
      CountExpiredPositive(rows[1..], now);
      if exists i :: 0 <= i < |rows| && IsExpired(rows[i], now) {
        var i :| 0 <= i < |rows| && IsExpired(rows[i], now);
        if i > 0 { assert IsExpired(rows[1..][i - 1], now); }
      }
    }
  }

  /** Counting matches over two parts of the table adds up. */
  lemma {:induction false} CountExpiredAppend(a: seq<Slot>, b: seq<Slot>, now: Time)
    ensures CountExpired(a + b, now) == CountExpired(a, now) + CountExpired(b, now)
  {
    if a != [] {
      assert (a + b)[1..] == a[1..] + b;
      CountExpiredAppend(a[1..], b, now);
    } else {
      assert a + b == b;
    }
  }

  /** The sweep changes exactly the expired rows. */
  lemma SweepChangesExactlyExpired(rows: seq<Slot>, now: Time, i: int)
    requires 0 <= i < |rows|
    ensures SweepRows(rows, now)[i] != rows[i] <==> IsExpired(rows[i], now)
  {
  }

  /** A second sweep at the same instant, or at any earlier one, finds nothing to expire, so it
      changes nothing and reports no change. */
  lemma SweepIdempotent(rows: seq<Slot>, now: Time, later: Time)
    requires later <= now
    ensures SweepRows(SweepRows(rows, now), later) == SweepRows(rows, now)
    ensures CountExpired(SweepRows(rows, now), later) == 0
  {
    var swept := SweepRows(rows, now);
    assert forall i :: 0 <= i < |swept| ==> !IsExpired(swept[i], later);
    CountExpiredPositive(swept, later);
  }

  /** The sweep keeps the table's invariant and only ever takes bookings away. */
  lemma SweepKeepsValid(rows: seq<Slot>, now: Time)
    requires ValidTable(rows)
    ensures ValidTable(SweepRows(rows, now))
    ensures forall u :: BookingsOf(SweepRows(rows, now), u) <= BookingsOf(rows, u)
  {
    var swept := SweepRows(rows, now);
    forall i, j | 0 <= i < j < |swept| && swept[i].status == Booked && swept[j].status == Booked
      ensures swept[i].booker != swept[j].booker
    {
      assert swept[i] == rows[i] && swept[j] == rows[j];
    }
  }

  /** Listing order: `ORDER BY zone, name`, each compared as a string. */
  predicate ZoneNameLe(a: Slot, b: Slot)
  {
    if a.zone == b.zone then StrLe(a.name, b.name) else StrLe(a.zone, b.zone)
  }

  lemma ZoneNameLeIsTotalPreorder()
    ensures TotalPreorder(ZoneNameLe)
  {
    forall a: Slot, b: Slot ensures ZoneNameLe(a, b) || ZoneNameLe(b, a) {
      StrLeTotal(a.name, b.name);
      StrLeTotal(a.zone, b.zone);
    }
    forall a: Slot, b: Slot, c: Slot | ZoneNameLe(a, b) && ZoneNameLe(b, c)
      ensures ZoneNameLe(a, c)
    {
      if a.zone == b.zone && b.zone == c.zone {
        StrLeTrans(a.name, b.name, c.name);
      } else if a.zone != b.zone && b.zone != c.zone {
        StrLeTrans(a.zone, b.zone, c.zone);
        if a.zone == c.zone { StrLeAntisym(a.zone, b.zone); }
      }
    }
  }

  /** The listing query: every row, sorted by zone and then by name. */
  function OrderByZoneName(rows: seq<Slot>): (r: seq<Slot>)
    ensures multiset(r) == multiset(rows)
    ensures forall i, j :: 0 <= i < j < |r| ==> ZoneNameLe(r[i], r[j])
  {
    ZoneNameLeIsTotalPreorder();
    SortBy(rows, ZoneNameLe)
  }

  /** Booking a free slot for a user who holds none keeps the invariant, and afterwards that user
      holds exactly the booked slot. */
  lemma BookKeepsValid(rows: seq<Slot>, i: int, u: UserId, now: Time)
    requires ValidTable(rows) && 0 <= i < |rows|
    requires !HoldsBooking(rows, u) && rows[i].status == Free
    ensures ValidTable(rows[i := BookedFor(rows[i], u, now)])
    ensures BookingsOf(rows[i := BookedFor(rows[i], u, now)], u) == {i}
  {
    var next := rows[i := BookedFor(rows[i], u, now)];
    forall j, k | 0 <= j < k < |next| && next[j].status == Booked && next[k].status == Booked
      ensures next[j].booker != next[k].booker
    {
      if j == i { assert !BookedBy(rows[k], u); }
      if k == i { assert !BookedBy(rows[j], u); }
    }
    assert BookingsOf(next, u) == {i};
  }

  /** Freeing one slot keeps the invariant and takes that slot, and only that one, from its
      holder. */
  lemma FreeKeepsValid(rows: seq<Slot>, i: int)
    requires ValidTable(rows) && 0 <= i < |rows|
    ensures ValidTable(rows[i := Freed(rows[i])])
    ensures forall u :: BookingsOf(rows[i := Freed(rows[i])], u) == BookingsOf(rows, u) - {i}
  {
  }

  /** What the handlers broadcast as `slot_update`: the sweep's bare refresh, or the payload of
      book, end and simulate-leave. */
  datatype SlotEvent = SlotsRefreshed | SlotChanged(slotId: SlotId, status: SlotStatus, userId: Option<UserId>)

  /** The error responses of the booking handlers. */
  datatype SlotError = AlreadyHoldsBooking | SlotNotFound | SlotAlreadyBooked | NotBookedByYou
  {
    function HttpStatus(): int
    {
      if this == SlotNotFound then 404 else 400
    }

    function Message(): string
    {
      match this
      case AlreadyHoldsBooking => "You already have an active seat booking. Please end your current session first."
      case SlotNotFound => "Slot not found"
      case SlotAlreadyBooked => "Slot already booked"
      case NotBookedByYou => "Slot not booked by you or already free"
    }
  }

  /** The `slots` table and the events its handlers have emitted. */
  class SlotTable {
    var rows: seq<Slot>
    var events: seq<SlotEvent>

    predicate Valid()
      reads this
    {
      ValidTable(rows)
    }

    /** The table as provisioned. */
    constructor (initial: seq<Slot>)
      requires ValidTable(initial)
      ensures Valid() && rows == initial && events == []
    {
      rows := initial;
      events := [];
    }

    /** The auto-expiry UPDATE: frees every booked slot started more than four hours before
        `now`, returns `this.changes`, and emits one bare `slot_update` when that is positive. */
    method Sweep(now: Time) returns (changes: nat)
      requires Valid()
      modifies this
      ensures Valid()
      ensures rows == SweepRows(old(rows), now)
      ensures changes == CountExpired(old(rows), now)
      ensures events == old(events) + (if changes > 0 then [SlotsRefreshed] else [])
    {
      SweepKeepsValid(rows, now);
      ghost var before := rows;
      changes := 0;
      var i := 0;
      while i < |rows|
        invariant 0 <= i <= |rows| == |before|
        invariant forall k :: 0 <= k < i ==> rows[k] == SweepRows(before, now)[k]
        invariant forall k :: i <= k < |rows| ==> rows[k] == before[k]
        invariant changes == CountExpired(before[..i], now)
        invariant events == old(events)
      {
        assert before[..i + 1] == before[..i] + [before[i]];
        CountExpiredAppend(before[..i], [before[i]], now);
        if IsExpired(rows[i], now) {
          rows := rows[i := Freed(rows[i])];
          changes := changes + 1;
        }
        i := i + 1;
      }
      assert before[..i] == before;
      if changes > 0 {
        events := events + [SlotsRefreshed];
      }
    }

    /** GET `/`: the sweep first, then every slot ordered by zone and name. */
    method List(now: Time) returns (listing: seq<Slot>)
      requires Valid()
      modifies this
      ensures Valid()
      ensures rows == SweepRows(old(rows), now)
      ensures events == old(events) + (if CountExpired(old(rows), now) > 0 then [SlotsRefreshed] else [])
      ensures multiset(listing) == multiset(rows)
      ensures forall i, j :: 0 <= i < j < |listing| ==> ZoneNameLe(listing[i], listing[j])
    {
      var _ := Sweep(now);
      listing := OrderByZoneName(rows);
    }

    /** POST `/book`: refuses a user who already holds a slot, then a missing slot, then a booked
        one, in that order; otherwise books the slot for the user from `now`. */
    method Book(slotId: SlotId, userId: UserId, now: Time) returns (r: Outcome<SlotError>)
      requires Valid()
      modifies this
      ensures Valid()
      ensures HoldsBooking(old(rows), userId) ==> r == Fail(AlreadyHoldsBooking)
      ensures !HoldsBooking(old(rows), userId) && IndexOf(old(rows), slotId).None? ==> r == Fail(SlotNotFound)
      ensures !HoldsBooking(old(rows), userId) && IndexOf(old(rows), slotId).Some? ==>
        r == (if old(rows)[IndexOf(old(rows), slotId).value].status == Booked then Fail(SlotAlreadyBooked) else Pass)
      ensures r.Fail? ==>
        (r.error.HttpStatus() == 404 <==> !HoldsBooking(old(rows), userId) && IndexOf(old(rows), slotId).None?)
      ensures r.Fail? ==> r.error.HttpStatus() == 400 || r.error.HttpStatus() == 404
      ensures r.Fail? ==> rows == old(rows) && events == old(events)
      ensures r.Pass? ==>
        && IndexOf(old(rows), slotId).Some?
        && var i := IndexOf(old(rows), slotId).value;
           && rows == old(rows)[i := BookedFor(old(rows)[i], userId, now)]
           && BookingsOf(rows, userId) == {i}
           && events == old(events) + [SlotChanged(slotId, Booked, Some(userId))]
    {
      if HoldsBooking(rows, userId) {
        return Fail(AlreadyHoldsBooking);
      }
      var found := IndexOf(rows, slotId);
      if found.None? {
        return Fail(SlotNotFound);
      }
      var i := found.value;
      if rows[i].status == Booked {
        return Fail(SlotAlreadyBooked);
      }
      BookKeepsValid(rows, i, userId, now);
      rows := rows[i := BookedFor(rows[i], userId, now)];
      events := events + [SlotChanged(slotId, Booked, Some(userId))];
      r := Pass;
    }

    /** POST `/end`: an update matching both the slot id and the caller as booker. It succeeds, and frees the
        slot, exactly when the caller is the slot's booker; a missing slot, a free one and another
        user's all get the same error. */
    method End(slotId: SlotId, userId: UserId) returns (r: Outcome<SlotError>)
      requires Valid()
      modifies this
      ensures Valid()
      ensures r.Pass? <==> exists k :: 0 <= k < |old(rows)| && old(rows)[k].id == slotId && old(rows)[k].booker == Some(userId)
      ensures r.Fail? ==> r.error == NotBookedByYou && rows == old(rows) && events == old(events)
      ensures r.Fail? ==> r.error.HttpStatus() == 400 && r.error.Message() == "Slot not booked by you or already free"
      ensures r.Pass? ==>
        && IndexOf(old(rows), slotId).Some?
        && var i := IndexOf(old(rows), slotId).value;
           && BookedBy(old(rows)[i], userId)
           && rows == old(rows)[i := Freed(old(rows)[i])]
           && BookingsOf(rows, userId) == {}
           && events == old(events) + [SlotChanged(slotId, Free, None)]
    {
      var found := IndexOf(rows, slotId);
      if found.None? || rows[found.value].booker != Some(userId) {
        forall k | 0 <= k < |rows| && rows[k].id == slotId ensures rows[k].booker != Some(userId) {
          IndexOfUnique(rows, k);
        }
        return Fail(NotBookedByYou);
      }
      var i := found.value;
      FreeKeepsValid(rows, i);
      assert BookingsOf(rows, userId) <= {i};
      rows := rows[i := Freed(rows[i])];
      events := events + [SlotChanged(slotId, Free, None)];
      r := Pass;
    }

    /** POST `/simulate-leave`: frees the slot whoever holds it, and reports success and emits the
        update even when no row has that id. */
    method SimulateLeave(slotId: SlotId)
      requires Valid()
      modifies this
      ensures Valid()
      ensures IndexOf(old(rows), slotId).Some? ==>
        var i := IndexOf(old(rows), slotId).value;
        rows == old(rows)[i := Freed(old(rows)[i])]
      ensures IndexOf(old(rows), slotId).None? ==> rows == old(rows)
      ensures events == old(events) + [SlotChanged(slotId, Free, None)]
    {
      var found := IndexOf(rows, slotId);
      if found.Some? {
        FreeKeepsValid(rows, found.value);
        rows := rows[found.value := Freed(rows[found.value])];
      }
      events := events + [SlotChanged(slotId, Free, None)];
    }
  }
}
