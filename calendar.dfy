/**
 * Instants and UTC calendar dates. JavaScript measures time in milliseconds since
 * 1970-01-01T00:00:00Z; `toISOString().split("T")[0]` names a day "YYYY-MM-DD", and
 * `new Date("YYYY-MM-DD")` reads such a name back as midnight UTC of that day.
 */
module Calendar {
  import opened Optional
  import opened Strings

  const DayMs: int := 86_400_000

  /** 10000-01-01, counted in days from 1970-01-01: the first day whose ISO name needs a six-digit year. */
  const MaxDay: int := 2_932_897

  /** The instants the model's clock can read: from the epoch up to the end of year 9999. */
  type Millis = t: int | 0 <= t < MaxDay * DayMs

  /** Days from 0000-01-01 to 1970-01-01 in the proleptic Gregorian calendar. */
  const EpochOffset: int := 719_528

  predicate IsLeap(y: int) {
    y % 4 == 0 && (y % 100 != 0 || y % 400 == 0)
  }

  function DaysInYear(y: int): nat {
    if IsLeap(y) then 366 else 365
  }

  function DaysInMonth(y: int, m: int): nat
    requires 1 <= m <= 12
  {
    if m == 2 then (if IsLeap(y) then 29 else 28)
    else if m == 4 || m == 6 || m == 9 || m == 11 then 30
    else 31
  }

  /** Days of year `y` before the first of month `m` (`m == 13` gives the whole year). */
  function DaysBeforeMonth(y: int, m: int): (n: nat)
    requires 1 <= m <= 13
    ensures m == 13 ==> n == DaysInYear(y)
  {
    [0, 31, 59, 90, 120, 151, 181, 212, 243, 273, 304, 334, 365][m - 1] + (if m > 2 && IsLeap(y) then 1 else 0)
  }

  /** Month `m` ends where month `m + 1` begins. */
  lemma MonthStep(y: int, m: int)
    requires 1 <= m <= 12
    ensures DaysBeforeMonth(y, m) + DaysInMonth(y, m) == DaysBeforeMonth(y, m + 1)
  {
  }

  /** Days from 0000-01-01 to the first of January of year `y`. */
  function DaysToYear(y: nat): int {
    365 * y + (y + 3) / 4 - (y + 99) / 100 + (y + 399) / 400
  }

  /** One year further on is exactly that year's length further on. */
  lemma YearStep(y: nat)
    ensures DaysToYear(y + 1) == DaysToYear(y) + DaysInYear(y)
  {
    CountStep4(y);
    CountStep100(y);
    CountStep400(y);
    DivisorsNest(y);
    var a, b, c := (y + 3) / 4, (y + 99) / 100, (y + 399) / 400;
    assert DaysToYear(y) == 365 * y + a - b + c;
  }

  lemma DivisorsNest(y: nat)
    ensures y % 400 == 0 ==> y % 100 == 0
    ensures y % 100 == 0 ==> y % 4 == 0
  {
    if y % 400 == 0 {
      var q := y / 400;
      assert y == 100 * (4 * q);
    }
    if y % 100 == 0 {
      var q := y / 100;
      assert y == 4 * (25 * q);
    }
  }

  // (y + k) / k - (y + k - 1) / k counts whether k divides y; one lemma per divisor keeps the arithmetic linear.
  lemma CountStep4(y: nat)
    ensures (y + 4) / 4 == (y + 3) / 4 + (if y % 4 == 0 then 1 else 0)
  {
    var q, r := y / 4, y % 4;
    assert y + 4 == 4 * (q + 1) + r;
    if r == 0 { assert y + 3 == 4 * q + 3; } else { assert y + 3 == 4 * (q + 1) + (r - 1); }
  }

  lemma CountStep100(y: nat)
    ensures (y + 100) / 100 == (y + 99) / 100 + (if y % 100 == 0 then 1 else 0)
  {
    var q, r := y / 100, y % 100;
    assert y + 100 == 100 * (q + 1) + r;
    if r == 0 { assert y + 99 == 100 * q + 99; } else { assert y + 99 == 100 * (q + 1) + (r - 1); }
  }

  lemma CountStep400(y: nat)
    ensures (y + 400) / 400 == (y + 399) / 400 + (if y % 400 == 0 then 1 else 0)
  {
    var q, r := y / 400, y % 400;
    assert y + 400 == 400 * (q + 1) + r;
    if r == 0 { assert y + 399 == 400 * q + 399; } else { assert y + 399 == 400 * (q + 1) + (r - 1); }
  }

  lemma {:induction false} YearsMonotone(a: nat, b: nat)
    requires a <= b
    ensures DaysToYear(a) + 365 * (b - a) <= DaysToYear(b)
    decreases b - a
  {
    if a < b {
      YearStep(a);
      YearsMonotone(a + 1, b);
    }
  }

  /** Walks forward from 1 January of year `y` by `r` days: the year reached and the day within it. */
  function YearOf(y: nat, r: nat): (res: (nat, nat))
    ensures res.0 >= y && res.1 < DaysInYear(res.0)
    decreases r
  {
    if r < DaysInYear(y) then (y, r)
    else YearOf(y + 1, r - DaysInYear(y))
  }

  /** The walk lands exactly `r` days after 1 January of year `y`. */
  lemma {:induction false} YearOfLands(y: nat, r: nat)
    ensures DaysToYear(YearOf(y, r).0) + YearOf(y, r).1 == DaysToYear(y) + r
    decreases r
  {
    if r >= DaysInYear(y) {
      YearStep(y);
      YearOfLands(y + 1, r - DaysInYear(y));
    }
  }

  /** Walks forward from the first of month `m` by `r` days, staying inside year `y`. */
  function MonthOf(y: int, m: int, r: nat): (res: (int, nat))
    requires 1 <= m <= 12 && DaysBeforeMonth(y, m) + r < DaysInYear(y)
    ensures 1 <= res.0 <= 12 && res.1 < DaysInMonth(y, res.0)
    decreases 12 - m
  {
    MonthStep(y, m);
    if r < DaysInMonth(y, m) then (m, r)
    else MonthOf(y, m + 1, r - DaysInMonth(y, m))
  }

  /** The walk lands exactly `r` days after the first of month `m`. */
  lemma {:induction false} MonthOfLands(y: int, m: int, r: nat)
    requires 1 <= m <= 12 && DaysBeforeMonth(y, m) + r < DaysInYear(y)
    ensures DaysBeforeMonth(y, MonthOf(y, m, r).0) + MonthOf(y, m, r).1 == DaysBeforeMonth(y, m) + r
    decreases 12 - m
  {
    MonthStep(y, m);
    if r >= DaysInMonth(y, m) {
      MonthOfLands(y, m + 1, r - DaysInMonth(y, m));
    }
  }

  /** A calendar date: year, month 1..12 and day of month 1..31. */
  datatype Date = Date(year: nat, month: int, day: int)

  /** Day number (days since 1970-01-01) of a year, month and day, as ECMAScript's MakeDay computes it:
      a day past the end of its month runs on into the next month. */
  function DayNumber(y: nat, m: int, d: int): int
    requires 1 <= m <= 12
  {
    DaysToYear(y) - EpochOffset + DaysBeforeMonth(y, m) + d - 1
  }

  /** A day number below MaxDay falls in a year with four digits. */
  lemma YearOfBelow10000(n: nat)
    requires n < MaxDay
    ensures YearOf(1970, n).0 <= 9999
  {
    var y := YearOf(1970, n).0;
    if y > 9999 {
      YearOfLands(1970, n);
      YearsMonotone(10000, y);
    }
  }

  /** The UTC calendar date of day number `n`. */
  function DateOf(n: nat): (dt: Date)
    requires n < MaxDay
    ensures 1970 <= dt.year <= 9999
    ensures 1 <= dt.month <= 12 && 1 <= dt.day <= DaysInMonth(dt.year, dt.month)
  {
    YearOfBelow10000(n);
    var (y, doy) := YearOf(1970, n);
    var (m, dom) := MonthOf(y, 1, doy);
    Date(y, m, dom + 1)
  }

  /** The date of day `n` is day `n`. */
  lemma DateOfNamesDay(n: nat)
    requires n < MaxDay
    ensures DayNumber(DateOf(n).year, DateOf(n).month, DateOf(n).day) == n
  {
    YearOfLands(1970, n);
    var (y, doy) := YearOf(1970, n);
    MonthOfLands(y, 1, doy);
  }

  /** "YYYY-MM-DD": the date part of `toISOString()` for any instant of day `n`. */
  function IsoDate(n: nat): (s: string)
    requires n < MaxDay
    ensures |s| == 10
  {
    var dt := DateOf(n);
    Pad(dt.year, 4) + "-" + Pad(dt.month, 2) + "-" + Pad(dt.day, 2)
  }

  /** `new Date(s)` for a date-only ISO string: the day number of midnight UTC, or None (an Invalid Date)
      when `s` is not four digits, '-', two digits, '-', two digits with a month 01..12 and a day 01..31. */
  function ParseIsoDate(s: string): Option<int> {
    if |s| == 10 && s[4] == '-' && s[7] == '-'
       && AllDigits(s[..4]) && AllDigits(s[5..7]) && AllDigits(s[8..]) then
      var y, m, d := ParseNat(s[..4]), ParseNat(s[5..7]), ParseNat(s[8..]);
      if 1 <= m <= 12 && 1 <= d <= 31 then Some(DayNumber(y, m, d)) else None
    else None
  }

  /** Reading back the name of a day gives that day. */
  lemma ParseIsoDateRoundTrip(n: nat)
    requires n < MaxDay
    ensures ParseIsoDate(IsoDate(n)) == Some(n)
  {
    var dt := DateOf(n);
    DateOfNamesDay(n);
    var ys, ms, ds := Pad(dt.year, 4), Pad(dt.month, 2), Pad(dt.day, 2);
    var s := ys + "-" + ms + "-" + ds;
    assert s == IsoDate(n);
    assert s[..4] == ys && s[5..7] == ms && s[8..] == ds;
    assert s[4] == '-' && s[7] == '-';
  }

  /** Different days have different names. */
  lemma IsoDateInjective(m: nat, n: nat)
    requires m < MaxDay && n < MaxDay && IsoDate(m) == IsoDate(n)
    ensures m == n
  {
    ParseIsoDateRoundTrip(m);
    ParseIsoDateRoundTrip(n);
  }

  /** The day number of instant `t`. */
  function DayOf(t: Millis): (n: nat)
    ensures n < MaxDay && n * DayMs <= t < (n + 1) * DayMs
  {
    t / DayMs
  }
}
