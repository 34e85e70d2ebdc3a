/** The background job of `server.js`: every minute it runs the same expiry UPDATE as the slot
    listing, independently of any request. */
module ExpiryTimer {
  import opened Base
  import opened Slots

  /** The `setInterval` period. */
  const TickMs: int := 60 * 1000

  /** One tick of the timer at instant `now`. It frees the expired slots exactly as the listing's
      sweep does, emits at most one bare `slot_update`, and hands the number of freed slots to the
      log only when that number is positive. */
  method Tick(table: SlotTable, now: Time) returns (logged: Option<nat>)
    requires table.Valid()
    modifies table
    ensures table.Valid()
    ensures table.rows == SweepRows(old(table.rows), now)
    ensures table.events == old(table.events) + (if CountExpired(old(table.rows), now) > 0 then [SlotsRefreshed] else [])
    ensures logged.Some? <==> CountExpired(old(table.rows), now) > 0
    ensures logged.Some? ==> logged.value == CountExpired(old(table.rows), now)
  {
    var changes := table.Sweep(now);
    logged := if changes > 0 then Some(changes) else None;
  }

  /** Ticks fire at `first + j * TickMs` for j = 0, 1, 2, ... A booking started at `t0`, with the
      timer already running by `t0 + 4h`, survives every tick up to `t0 + 4h` and is freed by the
      next one, which comes no more than one period later. */
  lemma FreedByNextTick(s: Slot, t0: Time, first: Time)
    requires s.status == Booked && s.start == Some(t0)
    requires first <= t0 + SessionMs
    ensures var k := (t0 + SessionMs - first) / TickMs + 1;
      && IsExpired(s, first + k * TickMs)
      && first + k * TickMs <= t0 + SessionMs + TickMs
      && forall j :: 0 <= j < k ==> !IsExpired(s, first + j * TickMs)
  {
    var d := t0 + SessionMs - first;
    var q := d / TickMs;
    assert q * TickMs <= d < q * TickMs + TickMs;
    assert (q + 1) * TickMs == q * TickMs + TickMs;
    forall j | 0 <= j < q + 1 ensures !IsExpired(s, first + j * TickMs) {
      assert j * TickMs <= q * TickMs;
    }
  }
}
