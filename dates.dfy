/**
 * The part of `java.time.LocalDate` the anniversary engine uses: Gregorian validity,
 * chronological order, `plusDays`, `plusYears`, `LocalDate.of`, `dayOfWeek`, and the strict
 * ISO 8601 extended calendar-date text form `YYYY-MM-DD` (ISO 8601:2004 section 4.1.2.2)
 * read by `LocalDate.parse` and written by `toString()`.
 * Years start at 0 (the proleptic Gregorian calendar, as java.time counts them).
 */
module Dates {
  import opened Wrappers
  import opened Text

  /** A year-month-day triple; only the valid ones are dates. */
  datatype Ymd = Ymd(year: int, month: int, day: int)

  /** `IsoChronology.isLeapYear`. */
  predicate IsLeapYear(y: int) {
    y % 4 == 0 && (y % 100 != 0 || y % 400 == 0)
  }

  /** `YearMonth.lengthOfMonth()`. */
  function LengthOfMonth(y: int, m: int): (n: int)
    requires 1 <= m <= 12
    ensures 28 <= n <= 31
    ensures n == 29 <==> m == 2 && IsLeapYear(y)
  {
    if m == 2 then (if IsLeapYear(y) then 29 else 28)
    else if m == 4 || m == 6 || m == 9 || m == 11 then 30
    else 31
  }

  predicate IsValidDate(d: Ymd) {
    0 <= d.year && 1 <= d.month <= 12 && 1 <= d.day <= LengthOfMonth(d.year, d.month)
  }

  /** A `LocalDate`: a valid Gregorian date. */
  type Date = d: Ymd | IsValidDate(d) witness Ymd(2000, 1, 1)

  /** `LocalDate.of(y, m, d)` wrapped in `runCatching { }.getOrNull()`: none for a day that does not exist. */
  function Of(y: int, m: int, d: int): (r: Option<Date>)
    ensures r.Some? <==> IsValidDate(Ymd(y, m, d))
    ensures r.Some? ==> r.value == Ymd(y, m, d)
  {
    if IsValidDate(Ymd(y, m, d)) then Some(Ymd(y, m, d)) else None
  }

  /** `a.isBefore(b)`: chronological order, year first, then month, then day. */
  predicate Before(a: Date, b: Date) {
    a.year < b.year
    || (a.year == b.year && a.month < b.month)
    || (a.year == b.year && a.month == b.month && a.day < b.day)
  }

  /** `a.isAfter(b)`. */
  predicate After(a: Date, b: Date) {
    Before(b, a)
  }

  function YearLength(y: int): int {
    if IsLeapYear(y) then 366 else 365
  }

  /** Days from 0000-01-01 to the first of January of year `y`: the lengths of the years before it. */
  function DaysBeforeYear(y: nat): int {
    if y == 0 then 0 else DaysBeforeYear(y - 1) + YearLength(y - 1)
  }

  /** Days from the first of January of year `y` to the first of month `m`. */
  function DaysBeforeMonth(y: int, m: int): int
    requires 1 <= m <= 12
  {
    (match m
     case 1 => 0 case 2 => 31 case 3 => 59 case 4 => 90 case 5 => 120 case 6 => 151
     case 7 => 181 case 8 => 212 case 9 => 243 case 10 => 273 case 11 => 304 case _ => 334)
    + (if m > 2 && IsLeapYear(y) then 1 else 0)
  }

  /** The day number of a date, counted from 0000-01-01 (day 0). */
  function Ord(d: Date): int {
    DaysBeforeYear(d.year) + DaysBeforeMonth(d.year, d.month) + d.day - 1
  }

  /** Each leap-rule term of `DaysBeforeYear` steps up exactly at multiples of its period. */
  lemma QuadStep(y: nat)
    ensures (y + 4) / 4 - (y + 3) / 4 == (if y % 4 == 0 then 1 else 0)
  {
    assert (y + 4) / 4 == y / 4 + 1;
  }

  lemma CenturyStep(y: nat)
    ensures (y + 100) / 100 - (y + 99) / 100 == (if y % 100 == 0 then 1 else 0)
  {
    assert (y + 100) / 100 == y / 100 + 1;
  }

  lemma QuadCenturyStep(y: nat)
    ensures (y + 400) / 400 - (y + 399) / 400 == (if y % 400 == 0 then 1 else 0)
  {
    assert (y + 400) / 400 == y / 400 + 1;
  }

  /** Every fourth century is a century, and every century a fourth year. */
  lemma CenturyDivisibility(x: nat)
    ensures x % 400 == 0 ==> x % 100 == 0
    ensures x % 100 == 0 ==> x % 4 == 0
  {
    if x % 400 == 0 {
      assert x == 100 * (4 * (x / 400));
    }
    if x % 100 == 0 {
      assert x == 4 * (25 * (x / 100));
    }
  }

  /** The leap rule as a sum: one extra day for a fourth year, one less for a century, one more
      for a fourth century. */
  lemma LeapTerms(x: nat)
    ensures YearLength(x) == 365 + (if x % 4 == 0 then 1 else 0) - (if x % 100 == 0 then 1 else 0)
                                 + (if x % 400 == 0 then 1 else 0)
  {
    CenturyDivisibility(x);
  }

  /** The closed form of the year count: 365 days a year plus one for every fourth year, less one
      for every century, plus one for every fourth century. */
  lemma {:induction false} DaysBeforeYearClosedForm(y: nat)
    ensures DaysBeforeYear(y) == 365 * y + (y + 3) / 4 - (y + 99) / 100 + (y + 399) / 400
  {
    if y > 0 {
      var x := y - 1;
      DaysBeforeYearClosedForm(x);
      QuadStep(x);
      CenturyStep(x);
      QuadCenturyStep(x);
      LeapTerms(x);
      assert x + 4 == y + 3 && x + 100 == y + 99 && x + 400 == y + 399;
    }
  }

  /** One more year adds that year's length. */
  lemma DaysBeforeYearStep(y: nat)
    ensures DaysBeforeYear(y + 1) == DaysBeforeYear(y) + YearLength(y)
  {
  }

  lemma {:induction false} DaysBeforeYearMonotone(a: nat, b: nat)
    requires a <= b
    ensures DaysBeforeYear(a) + 365 * (b - a) <= DaysBeforeYear(b)
    decreases b - a
  {
    if a < b {
      DaysBeforeYearStep(a);
      DaysBeforeYearMonotone(a + 1, b);
    }
  }

  /** The months of a year tile it: month `m` ends where month `m + 1` begins. */
  lemma MonthsTile(y: int, m: int)
    requires 1 <= m <= 12
    ensures m < 12 ==> DaysBeforeMonth(y, m) + LengthOfMonth(y, m) == DaysBeforeMonth(y, m + 1)
    ensures m == 12 ==> DaysBeforeMonth(y, m) + LengthOfMonth(y, m) == YearLength(y)
  {
  }

  /** A date's day number lies within its year. */
  lemma OrdWithinYear(d: Date)
    ensures DaysBeforeYear(d.year) <= Ord(d) < DaysBeforeYear(d.year + 1)
  {
    DaysBeforeYearStep(d.year);
    var m := d.month;
    assert DaysBeforeMonth(d.year, m) + LengthOfMonth(d.year, m) <= YearLength(d.year) by {
      MonthsTile(d.year, m);
    }
  }

  /** Chronological order is the order of day numbers. */
  lemma BeforeIffOrd(a: Date, b: Date)
    ensures Before(a, b) <==> Ord(a) < Ord(b)
    ensures a == b <==> Ord(a) == Ord(b)
  {
    OrdWithinYear(a);
    OrdWithinYear(b);
    if a.year < b.year {
      DaysBeforeYearMonotone(a.year + 1, b.year);
    } else if b.year < a.year {
      DaysBeforeYearMonotone(b.year + 1, a.year);
    } else if a.month != b.month {
      if a.month < b.month {
        MonthsAreOrdered(a.year, a.month, b.month);
      } else {
        MonthsAreOrdered(a.year, b.month, a.month);
      }
    }
  }

  lemma {:induction false} MonthsAreOrdered(y: int, m1: int, m2: int)
    requires 1 <= m1 < m2 <= 12
    ensures DaysBeforeMonth(y, m1) + LengthOfMonth(y, m1) <= DaysBeforeMonth(y, m2)
  {
  }

  predicate OnOrBefore(a: Date, b: Date) {
    !After(a, b)
  }

  /** The first day of the month after `d`'s month. */
  function FirstOfNextMonth(d: Date): (r: Date)
    ensures Ord(r) == Ord(d) + LengthOfMonth(d.year, d.month) - d.day + 1
  {
    MonthsTile(d.year, d.month);
    if d.month == 12 then
      DaysBeforeYearStep(d.year);
      Ymd(d.year + 1, 1, 1)
    else
      Ymd(d.year, d.month + 1, 1)
  }

  /** `d.plusDays(n)`: the date `n` days later, walking month by month. */
  function PlusDays(d: Date, n: nat): (r: Date)
    ensures Ord(r) == Ord(d) + n
    decreases n
  {
    if d.day + n <= LengthOfMonth(d.year, d.month) then Ymd(d.year, d.month, d.day + n)
    else PlusDays(FirstOfNextMonth(d), n - (LengthOfMonth(d.year, d.month) - d.day + 1))
  }

  /** `d.plusYears(n)`: same month and day `n` years later; a day that does not exist in the
      target month is clamped to the month's last day (29 February becomes 28 February). */
  function PlusYears(d: Date, n: nat): (r: Date)
    ensures r.year == d.year + n && r.month == d.month
    ensures r.day == if d.day <= LengthOfMonth(d.year + n, d.month) then d.day
                     else LengthOfMonth(d.year + n, d.month)
  {
    var y := d.year + n;
    var last := LengthOfMonth(y, d.month);
    Ymd(y, d.month, if d.day <= last then d.day else last)
  }

  /** `plusDays` moves strictly forward and order-preservingly. */
  lemma PlusDaysOrder(d: Date, m: nat, n: nat)
    ensures m < n <==> Before(PlusDays(d, m), PlusDays(d, n))
  {
    BeforeIffOrd(PlusDays(d, m), PlusDays(d, n));
  }

  /** Adding days in two steps is adding them at once. */
  lemma PlusDaysAdd(d: Date, m: nat, n: nat)
    ensures PlusDays(PlusDays(d, m), n) == PlusDays(d, m + n)
  {
    BeforeIffOrd(PlusDays(PlusDays(d, m), n), PlusDays(d, m + n));
  }

  /** An earlier day count stays on or before any bound a later one respects. */
  lemma PlusDaysWithin(d: Date, m: nat, n: nat, bound: Date)
    requires m <= n && OnOrBefore(PlusDays(d, n), bound)
    ensures OnOrBefore(PlusDays(d, m), bound)
  {
    BeforeIffOrd(PlusDays(d, n), bound);
    BeforeIffOrd(PlusDays(d, m), bound);
  }

  /** The days before the day after `c` are the days before `c` and `c` itself. */
  lemma BeforeNextDay(d: Date, c: Date)
    ensures Before(d, PlusDays(c, 1)) <==> Before(d, c) || d == c
  {
    BeforeIffOrd(d, PlusDays(c, 1));
    BeforeIffOrd(d, c);
  }

  /** `plusYears` moves strictly forward with the year count. */
  lemma PlusYearsOrder(d: Date, m: nat, n: nat)
    ensures m < n <==> Before(PlusYears(d, m), PlusYears(d, n))
  {
  }

  /** `dayOfWeek.value`: 1 for Monday through 7 for Sunday; 0000-01-01 was a Saturday. */
  function DayOfWeekValue(d: Date): (v: int)
    ensures 1 <= v <= 7
  {
    (Ord(d) + 5) % 7 + 1
  }

  /** The weekday advances by one each day, Sunday (7) wrapping to Monday (1); with
      `NewYear2024IsMonday` this pins every date's weekday. */
  lemma DayOfWeekNextDay(d: Date)
    ensures DayOfWeekValue(PlusDays(d, 1)) == DayOfWeekValue(d) % 7 + 1
  {
    WeekdayStep(Ord(d));
  }

  /** The weekday formula of `DayOfWeekValue`, one day on. */
  lemma WeekdayStep(o: int)
    ensures (o + 6) % 7 + 1 == ((o + 5) % 7 + 1) % 7 + 1
  {
    var r := (o + 5) % 7;
    assert o + 6 == 7 * ((o + 5) / 7) + (r + 1);
  }

  /** Zero-padded two-digit rendering. */
  function Pad2(n: nat): (r: string)
    requires n < 100
    ensures |r| == 2
  {
    [DigitChar(n / 10), DigitChar(n % 10)]
  }

  /** Zero-padded four-digit rendering. */
  function Pad4(n: nat): (r: string)
    requires n < 10000
    ensures |r| == 4
  {
    [DigitChar(n / 1000), DigitChar(n / 100 % 10), DigitChar(n / 10 % 10), DigitChar(n % 10)]
  }

  /** `LocalDate.toString()`: `YYYY-MM-DD`, with a `+` and all digits for years past 9999. */
  function FormatIsoDate(d: Date): string {
    (if d.year <= 9999 then Pad4(d.year) else "+" + NatToString(d.year))
    + "-" + Pad2(d.month) + "-" + Pad2(d.day)
  }

  /** The number written by `n` decimal digits of `s` starting at `i`. */
  function DigitsValue(s: string, i: nat, n: nat): (v: nat)
    requires i + n <= |s|
    requires forall k :: i <= k < i + n ==> IsDigit(s[k])
    decreases n
  {
    if n == 0 then 0 else DigitsValue(s, i, n - 1) * 10 + DigitValue(s[i + n - 1])
  }

  /** `s` has the exact shape `DDDD-DD-DD` (D a decimal digit). */
  predicate IsIsoDateShape(s: string) {
    |s| == 10 && s[4] == '-' && s[7] == '-'
    && forall k :: 0 <= k < 10 && k != 4 && k != 7 ==> IsDigit(s[k])
  }

  /** `LocalDate.parse(s)` with `ISO_LOCAL_DATE`, restricted to four-digit years: the text must be
      exactly `YYYY-MM-DD` and name a date that exists (strict resolution). */
  function ParseIsoDate(s: string): (r: Option<Date>)
    ensures r.Some? ==> IsIsoDateShape(s) && r.value.year <= 9999
  {
    if !IsIsoDateShape(s) then None
    else Of(DigitsValue(s, 0, 4), DigitsValue(s, 5, 2), DigitsValue(s, 8, 2))
  }

  /** `String.toLocalDateOrNull()`: none for blank text and for text that does not parse. */
  function ToLocalDateOrNull(s: string): (r: Option<Date>)
    ensures IsBlank(s) ==> r == None
    ensures !IsBlank(s) ==> r == ParseIsoDate(s)
  {
    if IsBlank(s) then None else ParseIsoDate(s)
  }

  /** The decimal digits of a four-digit number. */
  lemma FourDigits(n: nat)
    requires n < 10000
    ensures n == ((n / 1000 * 10 + n / 100 % 10) * 10 + n / 10 % 10) * 10 + n % 10
  {
    var q1 := n / 10;
    var q2 := q1 / 10;
    assert n == q1 * 10 + n % 10;
    assert q1 == q2 * 10 + q1 % 10;
    assert q2 == n / 100;
    assert q2 == q2 / 10 * 10 + q2 % 10;
    assert q2 / 10 == n / 1000;
  }

  lemma Pad4Value(n: nat)
    requires n < 10000
    ensures DigitsValue(Pad4(n), 0, 4) == n
  {
    var p := Pad4(n);
    DigitRoundTrip(n / 1000);
    DigitRoundTrip(n / 100 % 10);
    DigitRoundTrip(n / 10 % 10);
    DigitRoundTrip(n % 10);
    assert DigitsValue(p, 0, 1) == n / 1000;
    assert DigitsValue(p, 0, 2) == n / 1000 * 10 + n / 100 % 10;
    assert DigitsValue(p, 0, 3) == (n / 1000 * 10 + n / 100 % 10) * 10 + n / 10 % 10;
    FourDigits(n);
  }

  lemma Pad2Value(s: string, i: nat, n: nat)
    requires n < 100 && i + 2 <= |s| && s[i..i + 2] == Pad2(n)
    ensures forall k :: i <= k < i + 2 ==> IsDigit(s[k])
    ensures DigitsValue(s, i, 2) == n
  {
    assert s[i] == Pad2(n)[0] && s[i + 1] == Pad2(n)[1];
    DigitRoundTrip(n / 10);
    DigitRoundTrip(n % 10);
  }

  /** The rendering of a date is never blank: it starts with a digit or a sign. */
  lemma FormatNotBlank(d: Date)
    ensures !IsBlank(FormatIsoDate(d))
  {
    var s := FormatIsoDate(d);
    if d.year <= 9999 {
      assert s[0] == Pad4(d.year)[0] && IsDigit(s[0]);
    } else {
      assert s[0] == '+';
    }
  }

  /** Round trip: parsing what `toString()` writes gives the date back, for four-digit years. */
  lemma ParseFormat(d: Date)
    requires d.year <= 9999
    ensures ParseIsoDate(FormatIsoDate(d)) == Some(d)
  {
    var s := FormatIsoDate(d);
    assert s == Pad4(d.year) + "-" + Pad2(d.month) + "-" + Pad2(d.day);
    assert s[..4] == Pad4(d.year);
    Pad4Value(d.year);
    assert DigitsValue(s, 0, 4) == DigitsValue(Pad4(d.year), 0, 4) by {
      DigitsPrefix(s, Pad4(d.year), 4);
    }
    Pad2Value(s, 5, d.month);
    Pad2Value(s, 8, d.day);
  }

  lemma {:induction false} DigitsPrefix(s: string, p: string, n: nat)
    requires n <= |p| <= |s| && s[..|p|] == p
    requires forall k :: 0 <= k < n ==> IsDigit(p[k])
    ensures forall k :: 0 <= k < n ==> IsDigit(s[k])
    ensures DigitsValue(s, 0, n) == DigitsValue(p, 0, n)
  {
    assert forall k :: 0 <= k < n ==> s[k] == p[k];
    if n > 0 {
      DigitsPrefix(s, p, n - 1);
    }
  }

  lemma DigitCharOfValue(c: char)
    requires IsDigit(c)
    ensures DigitChar(DigitValue(c)) == c
  {
  }

  /** Four digits read back as the number they write. */
  lemma ReadFourDigits(v0: nat, v1: nat, v2: nat, v3: nat)
    requires v0 < 10 && v1 < 10 && v2 < 10 && v3 < 10
    ensures var y := ((v0 * 10 + v1) * 10 + v2) * 10 + v3;
            y < 10000 && y / 1000 == v0 && y / 100 % 10 == v1 && y / 10 % 10 == v2 && y % 10 == v3
  {
    var y := ((v0 * 10 + v1) * 10 + v2) * 10 + v3;
    assert y / 10 == (v0 * 10 + v1) * 10 + v2;
    assert y / 100 == v0 * 10 + v1;
    assert y / 1000 == v0;
  }

  lemma Pad4OfDigits(s: string)
    requires |s| == 4 && forall k :: 0 <= k < 4 ==> IsDigit(s[k])
    ensures DigitsValue(s, 0, 4) < 10000 && Pad4(DigitsValue(s, 0, 4)) == s
  {
    var v0, v1, v2, v3 := DigitValue(s[0]), DigitValue(s[1]), DigitValue(s[2]), DigitValue(s[3]);
    assert DigitsValue(s, 0, 2) == v0 * 10 + v1;
    assert DigitsValue(s, 0, 3) == (v0 * 10 + v1) * 10 + v2;
    ReadFourDigits(v0, v1, v2, v3);
    DigitCharOfValue(s[0]);
    DigitCharOfValue(s[1]);
    DigitCharOfValue(s[2]);
    DigitCharOfValue(s[3]);
  }

  lemma Pad2OfDigits(s: string)
    requires |s| == 2 && IsDigit(s[0]) && IsDigit(s[1])
    ensures DigitsValue(s, 0, 2) < 100 && Pad2(DigitsValue(s, 0, 2)) == s
  {
    var v0, v1 := DigitValue(s[0]), DigitValue(s[1]);
    assert DigitsValue(s, 0, 1) == v0;
    assert DigitsValue(s, 0, 2) == v0 * 10 + v1;
    assert (v0 * 10 + v1) / 10 == v0 && (v0 * 10 + v1) % 10 == v1;
    DigitCharOfValue(s[0]);
    DigitCharOfValue(s[1]);
  }

  lemma {:induction false} DigitsShift(s: string, i: nat, n: nat)
    requires i + n <= |s| && forall k :: i <= k < i + n ==> IsDigit(s[k])
    ensures DigitsValue(s, i, n) == DigitsValue(s[i..i + n], 0, n)
  {
    if n > 0 {
      DigitsShift(s, i, n - 1);
      assert s[i..i + n][..n - 1] == s[i..i + n - 1];
      DigitsPrefix(s[i..i + n], s[i..i + n - 1], n - 1);
    }
  }

  /** The parser accepts only the canonical text: whatever parses is exactly what `toString()`
      writes for the date it parses to. */
  lemma ParseIsCanonical(s: string)
    requires ParseIsoDate(s).Some?
    ensures FormatIsoDate(ParseIsoDate(s).value) == s
  {
    var d := ParseIsoDate(s).value;
    DigitsShift(s, 0, 4);
    DigitsShift(s, 5, 2);
    DigitsShift(s, 8, 2);
    Pad4OfDigits(s[0..4]);
    Pad2OfDigits(s[5..7]);
    Pad2OfDigits(s[8..10]);
    assert s == s[0..4] + "-" + s[5..7] + "-" + s[8..10];
  }

  /** The text form and the parser agree exactly: `s` parses to `d` iff `s` is `d` written out
      (for four-digit years). */
  lemma ParseIffFormat(s: string, d: Date)
    ensures ParseIsoDate(s) == Some(d) <==> d.year <= 9999 && s == FormatIsoDate(d)
  {
    if ParseIsoDate(s) == Some(d) {
      ParseIsCanonical(s);
    }
    if d.year <= 9999 && s == FormatIsoDate(d) {
      ParseFormat(d);
    }
  }

  /** Java's clamping in `plusYears`: 29 February 2024 plus one year is 28 February 2025. */
  lemma LeapDayPlusOneYear()
    ensures PlusYears(Ymd(2024, 2, 29), 1) == Ymd(2025, 2, 28)
    ensures PlusYears(Ymd(2024, 2, 29), 4) == Ymd(2028, 2, 29)
  {
  }

  /** A hundred days from 1 January 2024 is 10 April 2024 (2024 is a leap year). */
  lemma HundredDaysFromNewYear2024()
    ensures PlusDays(Ymd(2024, 1, 1), 100) == Ymd(2024, 4, 10)
  {
    var r := PlusDays(Ymd(2024, 1, 1), 100);
    assert DaysBeforeMonth(2024, 4) == 91;
    BeforeIffOrd(r, Ymd(2024, 4, 10));
  }

  /** 1 January 2024 was a Monday. */
  lemma NewYear2024IsMonday()
    ensures DayOfWeekValue(Ymd(2024, 1, 1)) == 1
  {
    DaysBeforeYearClosedForm(2024);
    assert DaysBeforeYear(2024) == 739251;
    assert Ord(Ymd(2024, 1, 1)) == 739251 == 7 * 105608 - 5;
  }
}
