/** Days since 2000-01-01 and Go durations, as the date encoding uses them. */
module Calendar {
  datatype Date = Date(year: nat, month: nat, day: nat)

  predicate Leap(y: nat) {
    y % 4 == 0 && (y % 100 != 0 || y % 400 == 0)
  }

  function DaysIn(y: nat, m: nat): nat {
    if m == 2 then (if Leap(y) then 29 else 28)
    else if m == 4 || m == 6 || m == 9 || m == 11 then 30
    else 31
  }

  predicate Valid(d: Date) {
    d.year <= 9999 && 1 <= d.month <= 12 && 1 <= d.day <= DaysIn(d.year, d.month)
  }

  function DaysBeforeMonth(y: nat, m: nat): nat {
    if m <= 1 then 0 else DaysBeforeMonth(y, m - 1) + DaysIn(y, m - 1)
  }

  /** Leap years among the years 0 up to, not including, y. */
  function LeapsBefore(y: nat): nat {
    if y == 0 then 0 else (y - 1) / 4 - (y - 1) / 100 + (y - 1) / 400 + 1
  }

  function DaysBeforeYear(y: nat): nat {
    365 * y + LeapsBefore(y)
  }

  const EPOCH := 730485

  /** Days from 2000-01-01 to the date. */
  function DayNumber(d: Date): int {
    DaysBeforeYear(d.year) + DaysBeforeMonth(d.year, d.month) + d.day - 1 - EPOCH
  }

  function NextDay(d: Date): Date {
    if d.day < DaysIn(d.year, d.month) then d.(day := d.day + 1)
    else if d.month < 12 then Date(d.year, d.month + 1, 1)
    else Date(d.year + 1, 1, 1)
  }

  lemma LeapStep(y: nat)
    ensures LeapsBefore(y + 1) == LeapsBefore(y) + if Leap(y) then 1 else 0
  {
    if y > 0 {
      var k := y - 1;
      DivStep(k, 4);
      DivStep(k, 100);
      DivStep(k, 400);
      CenturiesAreFourths(y);
    }
  }

  lemma CenturiesAreFourths(y: nat)
    ensures y % 100 == 0 ==> y % 4 == 0
    ensures y % 400 == 0 ==> y % 100 == 0
  {
    if y % 100 == 0 {
      Fourths(25 * (y / 100), y);
    }
    if y % 400 == 0 {
      Hundreds(4 * (y / 400), y);
    }
  }

  lemma Fourths(k: nat, y: nat)
    requires y == 4 * k
    ensures y % 4 == 0
  {
  }

  lemma Hundreds(k: nat, y: nat)
    requires y == 100 * k
    ensures y % 100 == 0
  {
  }

  lemma DivStep(k: nat, n: nat)
    requires n == 4 || n == 100 || n == 400
    ensures (k + 1) / n == k / n + if (k + 1) % n == 0 then 1 else 0
  {
  }

  /** The day number counts calendar days: the epoch is day 0 and each next day
      is one more. */
  lemma DayNumberCounts(d: Date)
    requires Valid(d)
    ensures DayNumber(Date(2000, 1, 1)) == 0
    ensures DayNumber(NextDay(d)) == DayNumber(d) + 1
  {
    var y := d.year;
    LeapStep(y);
    if d.month == 12 {
      YearLength(y);
    }
  }

  lemma YearLength(y: nat)
    ensures DaysBeforeMonth(y, 12) + 31 == 365 + if Leap(y) then 1 else 0
  {
    var feb := DaysIn(y, 2);
    assert DaysBeforeMonth(y, 2) == DaysBeforeMonth(y, 1) + 31 == 31;
    assert DaysBeforeMonth(y, 3) == 31 + feb;
    assert DaysBeforeMonth(y, 5) == 92 + feb;
    assert DaysBeforeMonth(y, 7) == 153 + feb;
    assert DaysBeforeMonth(y, 9) == 215 + feb;
    assert DaysBeforeMonth(y, 11) == 276 + feb;
  }

  // ---------- Durations ----------

  const DAY_NANOS := 86_400_000_000_000
  const MAX_DURATION := 0x7FFF_FFFF_FFFF_FFFF

  /** time.Time.Sub: the difference in nanoseconds, saturated to 64 bits. */
  function Sub(days: int): int {
    var nanos := days * DAY_NANOS;
    if nanos > MAX_DURATION then MAX_DURATION
    else if nanos < -MAX_DURATION - 1 then -MAX_DURATION - 1
    else nanos
  }

  /** Hours divided by 24, cut to an integer toward zero. */
  function WholeDays(nanos: int): int {
    if nanos >= 0 then nanos / DAY_NANOS else -((-nanos) / DAY_NANOS)
  }

  const DAY_LIMIT := 106751

  function Clamp(days: int): int {
    if days > DAY_LIMIT then DAY_LIMIT else if days < -DAY_LIMIT then -DAY_LIMIT else days
  }

  /** Going through a duration keeps a day count exactly within the limit and
      cuts it to the limit beyond. */
  lemma DaysThroughDuration(days: int)
    ensures WholeDays(Sub(days)) == Clamp(days)
    ensures WholeDays(Sub(days)) == days <==> -DAY_LIMIT <= days <= DAY_LIMIT
  {
  }
}
