/** The overdue-fine rule: computed when a book is returned and, for the admin fines view, while a
    loan is still open. */
module Fines {
  import opened Base

  /** The loan period, `setDate(getDate() + 7)`, taken as seven 24-hour days. */
  const LoanMs: int := 7 * DayMs

  /** Rupees charged per started day of lateness. */
  const FinePerDay: nat := 100

  /** `Math.ceil(a / b)` for a positive integer divisor: the least `q` with `a <= q * b`. */
  function CeilDiv(a: int, b: int): (q: int)
    requires b > 0
    ensures (q - 1) * b < a <= q * b
  {
    var q := (a + b - 1) / b;
    assert q * b + (a + b - 1) % b == a + b - 1;
    q
  }

  /** Days late, rounded up to whole days, when `now` is after `due`; otherwise no days. */
  function DaysOverdue(due: Time, now: Time): (d: nat)
    ensures now <= due ==> d == 0
    ensures now > due ==> d >= 1 && (d - 1) * DayMs < now - due <= d * DayMs
  {
    if now > due then CeilDiv(now - due, DayMs) else 0
  }

  /** The fine recorded by a return at `now` of a loan due at `due`. */
  function Fine(due: Time, now: Time): (f: nat)
    ensures f == 0 <==> now <= due
    ensures f % FinePerDay == 0
    ensures now > due ==> f >= FinePerDay
  {
    DaysOverdue(due, now) * FinePerDay
  }

  /** Every started day counts in full: the fine is the ceiling of the lateness in days, times 100. */
  lemma FineIsCeilingOfDays(due: Time, now: Time)
    requires now > due
    ensures var days := Fine(due, now) / FinePerDay;
      (days - 1) * DayMs < now - due <= days * DayMs
  {
    assert Fine(due, now) / FinePerDay == DaysOverdue(due, now);
  }

  /** The fine never decreases as the return is delayed. */
  lemma FineMonotone(due: Time, now1: Time, now2: Time)
    requires now1 <= now2
    ensures Fine(due, now1) <= Fine(due, now2)
  {
    if now1 > due {
      var d1, d2 := DaysOverdue(due, now1), DaysOverdue(due, now2);
      assert (d1 - 1) * DayMs < now2 - due <= d2 * DayMs;
    }
  }

  /** A book due at `due` and returned two days and one hour late is charged three days. */
  lemma FineTwoDaysOneHourLate(due: Time)
    ensures Fine(due, due + 2 * DayMs + HourMs) == 300
  {
    assert DaysOverdue(due, due + 2 * DayMs + HourMs) == 3;
  }

  /** One millisecond late already costs a full day; exactly on time costs nothing. */
  lemma FineAtTheBoundary(due: Time)
    ensures Fine(due, due) == 0
    ensures Fine(due, due + 1) == FinePerDay
    ensures Fine(due, due + DayMs) == FinePerDay
    ensures Fine(due, due + DayMs + 1) == 2 * FinePerDay
  {
    assert DaysOverdue(due, due + 1) == 1;
    assert DaysOverdue(due, due + DayMs) == 1;
    assert DaysOverdue(due, due + DayMs + 1) == 2;
  }

  /** What the return response says: the plain message, or the fine and the day count. */
  datatype ReturnNotice = ReturnedOnTime | FineCharged(fine: nat, days: int)

  /** The response message of a return: the day count is recomputed from the same instants. */
  function Notice(fine: nat, due: Time, now: Time): (n: ReturnNotice)
    ensures n.FineCharged? <==> fine > 0
    ensures n.FineCharged? ==> n.fine == fine && n.days == CeilDiv(now - due, DayMs)
  {
    if fine > 0 then FineCharged(fine, CeilDiv(now - due, DayMs)) else ReturnedOnTime
  }

  /** The message mentions a fine exactly when one is charged, and its day count is fine / 100. */
  lemma NoticeOfFine(due: Time, now: Time)
    ensures var n := Notice(Fine(due, now), due, now);
      (n.FineCharged? <==> Fine(due, now) > 0)
      && (n.FineCharged? ==> n.fine == Fine(due, now) && n.days == n.fine / FinePerDay && n.days >= 1)
  {
    if now > due {
      assert Fine(due, now) / FinePerDay == DaysOverdue(due, now);
    }
  }
}
