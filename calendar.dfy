/** Calendar dates as (year, month, day) triples, the part of JavaScript's
    `Date` that the birth-date checks use, and age from a birth date. */
module Calendar {
  import opened Base

  /** A date with a 1-based month, as `getFullYear()`, `getMonth() + 1` and
      `getDate()` report it. */
  datatype Date = Date(year: int, month: int, day: int)

  /** Proleptic Gregorian leap years, as JavaScript's `Date` uses them. */
  predicate IsLeapYear(y: int) {
    y % 4 == 0 && (y % 100 != 0 || y % 400 == 0)
  }

  function DaysInMonth(y: int, m: int): (n: int)
    requires 1 <= m <= 12
    ensures 28 <= n <= 31
  {
    if m == 2 then (if IsLeapYear(y) then 29 else 28)
    else if m == 4 || m == 6 || m == 9 || m == 11 then 30
    else 31
  }

  /** A real day of the calendar. */
  predicate IsCalendarDate(d: Date) {
    1 <= d.month <= 12 && 1 <= d.day <= DaysInMonth(d.year, d.month)
  }

  /** `a` is not later than `b` (lexicographic on year, month, day). */
  predicate NotAfter(a: Date, b: Date) {
    a.year < b.year
    || (a.year == b.year && (a.month < b.month || (a.month == b.month && a.day <= b.day)))
  }

  /** `a` is strictly earlier than `b`. */
  predicate Before(a: Date, b: Date) {
    !NotAfter(b, a)
  }

  lemma NotAfterTransitive(a: Date, b: Date, c: Date)
    requires NotAfter(a, b) && NotAfter(b, c)
    ensures NotAfter(a, c)
  {
  }

  // ---- the Date constructor -------------------------------------------

  /** The Date constructor reads a year argument from 0 to 99 as 1900 to 1999. */
  function ConstructorYear(y: int): int {
    if 0 <= y <= 99 then 1900 + y else y
  }

  /** Day `d` of month `m` of year `y`, where `d` may run past the end of the
      month: the surplus days carry into the following months and years, as
      the Date constructor does. */
  function CarryDays(y: int, m: int, d: int): (r: Date)
    requires 1 <= m <= 12 && d >= 1
    ensures IsCalendarDate(r)
    ensures r.year >= y
    ensures d <= DaysInMonth(y, m) ==> r == Date(y, m, d)
    ensures d > DaysInMonth(y, m) ==> r.day < d
    decreases d
  {
    if d <= DaysInMonth(y, m) then Date(y, m, d)
    else if m == 12 then CarryDays(y + 1, 1, d - 31)
    else CarryDays(y, m + 1, d - DaysInMonth(y, m))
  }

  /** The first and last days a JavaScript time value can hold
      (plus or minus 8.64e15 milliseconds around 1970-01-01, in UTC). */
  const EarliestDate := Date(-271821, 4, 20)
  const LatestDate := Date(275760, 9, 13)

  predicate InTimeRange(d: Date) {
    NotAfter(EarliestDate, d) && NotAfter(d, LatestDate)
  }

  /** `new Date(y, m - 1, d)` read back through its getters; `None` when its
      time value is NaN. Months past December carry into later years, days
      past the end of the month into later months. */
  function NewDate(y: int, m: int, d: int): (r: Option<Date>)
    requires m >= 1 && d >= 1
    ensures r.Some? ==> IsCalendarDate(r.value) && InTimeRange(r.value)
    ensures r.Some? ==> r.value.year >= ConstructorYear(y)
  {
    var fy := ConstructorYear(y) + (m - 1) / 12;
    var fm := (m - 1) % 12 + 1;
    var r := CarryDays(fy, fm, d);
    if InTimeRange(r) then Some(r) else None
  }

  /** The validity test of the birth-date checks: building the date and
      reading it back gives the same year, month and day. That happens
      exactly for a real calendar day within the time range whose year is
      not in 0..99 (those read as 19xx): day overflow such as February 30 and
      month overflow are rejected. */
  predicate RoundTrips(y: int, m: int, d: int): (ok: bool)
    requires m >= 1 && d >= 1
    ensures ok <==> !(0 <= y <= 99) && IsCalendarDate(Date(y, m, d)) && InTimeRange(Date(y, m, d))
  {
    assert IsCalendarDate(Date(y, m, d)) ==> (m - 1) / 12 == 0 && (m - 1) % 12 + 1 == m;
    assert IsCalendarDate(Date(y, m, d)) ==> CarryDays(y, m, d) == Date(y, m, d);
    NewDate(y, m, d) == Some(Date(y, m, d))
  }

  // ---- age --------------------------------------------------------------

  /** The `n`-th birthday after `birth`. */
  function Anniversary(birth: Date, n: int): Date {
    Date(birth.year + n, birth.month, birth.day)
  }

  /** `calculateAge`: the year difference, one less while this year's
      birthday is still ahead. The result is the number of birthdays that
      have passed: the `age`-th falls on or before `today`, the next after. */
  function CalculateAge(birth: Date, today: Date): (age: int)
    ensures NotAfter(Anniversary(birth, age), today)
    ensures Before(today, Anniversary(birth, age + 1))
  {
    var age := today.year - birth.year;
    if today.month < birth.month || (today.month == birth.month && today.day < birth.day) then
      age - 1
    else
      age
  }

  /** The two conditions of CalculateAge's contract single out one number. */
  lemma AgeIsUnique(birth: Date, today: Date, n: int)
    requires NotAfter(Anniversary(birth, n), today) && Before(today, Anniversary(birth, n + 1))
    ensures n == CalculateAge(birth, today)
  {
    var a := CalculateAge(birth, today);
    if n < a {
      NotAfterTransitive(Anniversary(birth, n + 1), Anniversary(birth, a), today);
    } else if n > a {
      NotAfterTransitive(Anniversary(birth, a + 1), Anniversary(birth, n), today);
    }
  }

  /** Age never decreases as `today` moves forward. */
  lemma {:induction false} AgeMonotone(birth: Date, t1: Date, t2: Date)
    requires NotAfter(t1, t2)
    ensures CalculateAge(birth, t1) <= CalculateAge(birth, t2)
  {
    var a1, a2 := CalculateAge(birth, t1), CalculateAge(birth, t2);
    NotAfterTransitive(Anniversary(birth, a1), t1, t2);
    if a1 > a2 {
      NotAfterTransitive(Anniversary(birth, a2 + 1), Anniversary(birth, a1), t2);
    }
  }

  /** Within calendar year `y`, the age is `y - birth.year - 1` before the
      birthday and `y - birth.year` from the birthday on, so it rises by
      exactly one, on the birthday. */
  lemma AgeWithinYear(birth: Date, today: Date)
    ensures Before(today, Date(today.year, birth.month, birth.day))
        ==> CalculateAge(birth, today) == today.year - birth.year - 1
    ensures !Before(today, Date(today.year, birth.month, birth.day))
        ==> CalculateAge(birth, today) == today.year - birth.year
  {
  }
}
