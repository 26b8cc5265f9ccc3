/**
 * `generateAutoAnniversaries` (AnniversaryScreen.kt and CalendarScreen.kt): the anniversaries
 * derived from the profile. From the relationship start date it produces, in this order, the
 * yearly anniversaries ("N주년"), the 100-day milestones ("N일") and the partner's birthdays
 * ("연인의 생일"), each only when it falls on or before the horizon (today plus two years) and
 * on a date no stored anniversary occupies.
 */
module AutoAnniversaries {
  import opened Wrappers
  import opened Text
  import opened Dates
  import opened Anniversaries
  import Categories = EventCategories
  import opened Seqs

  /** `today.plusYears(2)`: the last day anything is generated for. */
  function Horizon(today: Date): Date {
    PlusYears(today, 2)
  }

  /** The relationship start date, none without a profile or when it is blank or unparseable. */
  function StartDate(profile: Option<Profile>): Option<Date> {
    match profile
    case None => None
    case Some(p) => ToLocalDateOrNull(p.relationshipStartDate)
  }

  /** The partner's birthday, none without a profile or when it is blank or unparseable. */
  function Birthday(profile: Option<Profile>): Option<Date> {
    match profile
    case None => None
    case Some(p) => ToLocalDateOrNull(p.birthday)
  }

  const YearKeyPrefix: string := "auto-year-"
  const DayKeyPrefix: string := "auto-day-"
  const BirthdayKeyPrefix: string := "auto-birthday-"

  function YearItem(n: nat, d: Date): AnniversaryItem {
    AnniversaryItem(YearKeyPrefix + NatToString(n), NatToString(n) + "주년", "", d, true,
                    "자동·주년", Categories.ANNIVERSARY, "cake", "", None)
  }

  function DayItem(days: nat, d: Date): AnniversaryItem {
    AnniversaryItem(DayKeyPrefix + NatToString(days), NatToString(days) + "일", "", d, true,
                    "자동·" + NatToString(days) + "일", Categories.ANNIVERSARY, "balloon", "", None)
  }

  function BirthdayItem(y: int, d: Date): AnniversaryItem {
    AnniversaryItem(BirthdayKeyPrefix + IntToString(y), "연인의 생일", "", d, true,
                    "자동·생일", Categories.BIRTHDAY, "cake", "", None)
  }

  /** A generated item may appear: it is on or before the horizon and its date is free. */
  predicate Admissible(d: Date, limit: Date, existing: set<Date>) {
    OnOrBefore(d, limit) && d !in existing
  }

  /** What every generated item looks like. */
  predicate IsGenerated(item: AnniversaryItem, limit: Date, existing: set<Date>) {
    item.isAuto && item.description == "" && item.color == "" && item.sourceEventId == None
    && Admissible(item.date, limit, existing)
  }

  /** `tryAdd`: the item when its date is admissible, nothing otherwise. */
  function TryAdd(item: AnniversaryItem, limit: Date, existing: set<Date>): (r: seq<AnniversaryItem>)
    ensures r == [] || r == [item]
    ensures r == [item] <==> Admissible(item.date, limit, existing)
  {
    if After(item.date, limit) || item.date in existing then [] else [item]
  }

  /** The yearly anniversaries from the `n`-th on, up to the first one past the horizon. */
  function YearlyFrom(start: Date, limit: Date, existing: set<Date>, n: nat): (r: seq<AnniversaryItem>)
    ensures forall i :: 0 <= i < |r| ==> IsGenerated(r[i], limit, existing) && StartsWith(r[i].key, YearKeyPrefix)
    decreases limit.year - start.year - n + 1
  {
    var d := PlusYears(start, n);
    if After(d, limit) then []
    else
      assert d.year <= limit.year;
      TryAdd(YearItem(n, d), limit, existing) + YearlyFrom(start, limit, existing, n + 1)
  }

  /** The milestones from `days` days on, every 100 days, up to the first one past the horizon. */
  function MilestonesFrom(start: Date, limit: Date, existing: set<Date>, days: nat): (r: seq<AnniversaryItem>)
    ensures forall i :: 0 <= i < |r| ==> IsGenerated(r[i], limit, existing) && StartsWith(r[i].key, DayKeyPrefix)
    decreases Ord(limit) - Ord(start) - days + 1
  {
    var d := PlusDays(start, days);
    if After(d, limit) then []
    else
      BeforeIffOrd(limit, d);
      TryAdd(DayItem(days, d), limit, existing) + MilestonesFrom(start, limit, existing, days + 100)
  }

  /** One step of the yearly stream. */
  lemma YearlyStep(start: Date, limit: Date, existing: set<Date>, n: nat)
    requires !After(PlusYears(start, n), limit)
    ensures YearlyFrom(start, limit, existing, n)
            == TryAdd(YearItem(n, PlusYears(start, n)), limit, existing) + YearlyFrom(start, limit, existing, n + 1)
  {
  }

  /** One step of the milestone stream; the day count stays within the horizon. */
  lemma MilestonesStep(start: Date, limit: Date, existing: set<Date>, days: nat)
    requires !After(PlusDays(start, days), limit)
    ensures Ord(start) + days <= Ord(limit)
    ensures MilestonesFrom(start, limit, existing, days)
            == TryAdd(DayItem(days, PlusDays(start, days)), limit, existing) + MilestonesFrom(start, limit, existing, days + 100)
  {
    BeforeIffOrd(limit, PlusDays(start, days));
  }

  /** The birthday that year `y` has for `month`/`day`, when that date exists and is not before the start. */
  function BirthdayIn(start: Date, y: int, month: int, day: int): (r: Option<Date>)
    ensures r.Some? ==> r.value == Ymd(y, month, day) && !Before(r.value, start)
  {
    match Of(y, month, day)
    case Some(b) => if Before(b, start) then None else Some(b)
    case None => None
  }

  /** The birthdays of years `y` through `endYear`. */
  function BirthdaysFrom(start: Date, limit: Date, existing: set<Date>, month: int, day: int, y: int, endYear: int)
    : (r: seq<AnniversaryItem>)
    ensures forall i :: 0 <= i < |r| ==> IsGenerated(r[i], limit, existing) && StartsWith(r[i].key, BirthdayKeyPrefix)
    decreases endYear - y + 1
  {
    if y > endYear then []
    else
      (match BirthdayIn(start, y, month, day)
       case Some(b) => TryAdd(BirthdayItem(y, b), limit, existing)
       case None => [])
      + BirthdaysFrom(start, limit, existing, month, day, y + 1, endYear)
  }

  /** One step of the birthday stream, unfolded the way the loop takes it. */
  lemma BirthdaysStep(start: Date, limit: Date, existing: set<Date>, month: int, day: int, y: int, endYear: int)
    requires y <= endYear
    ensures var b := Of(y, month, day);
            BirthdaysFrom(start, limit, existing, month, day, y, endYear)
            == (if b.Some? && !Before(b.value, start) then TryAdd(BirthdayItem(y, b.value), limit, existing) else [])
               + BirthdaysFrom(start, limit, existing, month, day, y + 1, endYear)
  {
  }

  /** What the generator produces from a parsed start date and birthday. */
  function GeneratedFrom(startDate: Option<Date>, birthday: Option<Date>, existing: set<Date>, today: Date)
    : (r: seq<AnniversaryItem>)
    ensures startDate.None? ==> r == []
    ensures forall i :: 0 <= i < |r| ==> IsGenerated(r[i], Horizon(today), existing)
  {
    match startDate
    case None => []
    case Some(start) =>
      var limit := Horizon(today);
      var anniversaries := YearlyFrom(start, limit, existing, 1) + MilestonesFrom(start, limit, existing, 100);
      match birthday
      case None => anniversaries
      case Some(b) => anniversaries + BirthdaysFrom(start, limit, existing, b.month, b.day, today.year - 1, limit.year)
  }

  /** The result of `generateAutoAnniversaries(profile, existingDates, today)`. */
  function Generated(profile: Option<Profile>, existing: set<Date>, today: Date): seq<AnniversaryItem> {
    GeneratedFrom(StartDate(profile), Birthday(profile), existing, today)
  }

  /** `generateAutoAnniversaries`: reads the two profile dates, then runs the loops. */
  method GenerateAutoAnniversaries(profile: Option<Profile>, existing: set<Date>, today: Date)
    returns (results: seq<AnniversaryItem>)
    ensures results == Generated(profile, existing, today)
  {
    results := GenerateFrom(StartDate(profile), Birthday(profile), existing, today);
  }

  /** The body of `generateAutoAnniversaries` once the dates are parsed: the three streams
      appended in turn to one result list. */
  method GenerateFrom(startDate: Option<Date>, birthday: Option<Date>, existing: set<Date>, today: Date)
    returns (results: seq<AnniversaryItem>)
    ensures results == GeneratedFrom(startDate, birthday, existing, today)
  {
    if startDate.None? {
      return [];
    }
    var start := startDate.value;
    var limit := Horizon(today);
    results := AddYearly(start, limit, existing);
    results := AddMilestones(start, limit, existing, results);
    if birthday.Some? {
      results := AddBirthdays(start, limit, existing, birthday.value.month, birthday.value.day,
                              today.year - 1, limit.year, results);
    }
  }

  /** The first loop: `plusYears(1)`, `plusYears(2)`, ... until past the horizon. */
  method AddYearly(start: Date, limit: Date, existing: set<Date>)
    returns (results: seq<AnniversaryItem>)
    ensures results == YearlyFrom(start, limit, existing, 1)
  {
    results := [];
    var year := 1;
    while true
      invariant year >= 1
      invariant results + YearlyFrom(start, limit, existing, year) == YearlyFrom(start, limit, existing, 1)
      decreases limit.year - start.year - year + 1
    {
      var anniversaryDate := PlusYears(start, year);
      if After(anniversaryDate, limit) {
        break;
      }
      YearlyStep(start, limit, existing, year);
      AppendAssoc(results, TryAdd(YearItem(year, anniversaryDate), limit, existing),
                  YearlyFrom(start, limit, existing, year + 1));
      results := results + TryAdd(YearItem(year, anniversaryDate), limit, existing);
      year := year + 1;
    }
  }

  /** The second loop: `plusDays(100)`, `plusDays(200)`, ... until past the horizon. */
  method AddMilestones(start: Date, limit: Date, existing: set<Date>, acc: seq<AnniversaryItem>)
    returns (results: seq<AnniversaryItem>)
    ensures results == acc + MilestonesFrom(start, limit, existing, 100)
  {
    results := acc;
    var days := 100;
    while true
      invariant results + MilestonesFrom(start, limit, existing, days) == acc + MilestonesFrom(start, limit, existing, 100)
      decreases Ord(limit) - Ord(start) - days + 1
    {
      var date := PlusDays(start, days);
      if After(date, limit) {
        break;
      }
      MilestonesStep(start, limit, existing, days);
      AppendAssoc(results, TryAdd(DayItem(days, date), limit, existing),
                  MilestonesFrom(start, limit, existing, days + 100));
      results := results + TryAdd(DayItem(days, date), limit, existing);
      days := days + 100;
    }
  }

  /** The third loop: the birthday of every year from `firstYear` through `endYear`. */
  method AddBirthdays(start: Date, limit: Date, existing: set<Date>, month: int, day: int,
                      firstYear: int, endYear: int, acc: seq<AnniversaryItem>)
    returns (results: seq<AnniversaryItem>)
    ensures results == acc + BirthdaysFrom(start, limit, existing, month, day, firstYear, endYear)
  {
    results := acc;
    var yearCursor := firstYear;
    while yearCursor <= endYear
      invariant results + BirthdaysFrom(start, limit, existing, month, day, yearCursor, endYear)
                == acc + BirthdaysFrom(start, limit, existing, month, day, firstYear, endYear)
      decreases endYear - yearCursor + 1
    {
      var birthDate := Of(yearCursor, month, day);
      BirthdaysLoopStep(start, limit, existing, month, day, yearCursor, endYear, results,
                        acc + BirthdaysFrom(start, limit, existing, month, day, firstYear, endYear));
      if birthDate.Some? && !Before(birthDate.value, start) {
        results := results + TryAdd(BirthdayItem(yearCursor, birthDate.value), limit, existing);
      }
      yearCursor := yearCursor + 1;
    }
  }

  /** The invariant of the birthday loop survives one year. */
  lemma BirthdaysLoopStep(start: Date, limit: Date, existing: set<Date>, month: int, day: int, y: int, endYear: int,
                          results: seq<AnniversaryItem>, target: seq<AnniversaryItem>)
    requires y <= endYear
    requires results + BirthdaysFrom(start, limit, existing, month, day, y, endYear) == target
    ensures var b := Of(y, month, day);
            if b.Some? && !Before(b.value, start) then
              results + TryAdd(BirthdayItem(y, b.value), limit, existing)
              + BirthdaysFrom(start, limit, existing, month, day, y + 1, endYear) == target
            else results + BirthdaysFrom(start, limit, existing, month, day, y + 1, endYear) == target
  {
    var b := Of(y, month, day);
    BirthdaysStep(start, limit, existing, month, day, y, endYear);
    if b.Some? && !Before(b.value, start) {
      AppendAssoc(results, TryAdd(BirthdayItem(y, b.value), limit, existing),
                  BirthdaysFrom(start, limit, existing, month, day, y + 1, endYear));
    } else {
      assert [] + BirthdaysFrom(start, limit, existing, month, day, y + 1, endYear)
             == BirthdaysFrom(start, limit, existing, month, day, y + 1, endYear);
    }
  }

  // ---------------------------------------------------------------------------------------
  // Membership: each stream holds exactly its admissible candidates.
  // ---------------------------------------------------------------------------------------

  /** Every item of the yearly stream from `k` on is the `n`-th anniversary for some `n >= k`. */
  lemma {:induction false} YearlyExact(start: Date, limit: Date, existing: set<Date>, k: nat)
    ensures forall item | item in YearlyFrom(start, limit, existing, k) ::
              exists n: nat :: k <= n && item == YearItem(n, PlusYears(start, n))
    decreases limit.year - start.year - k + 1
  {
    var d := PlusYears(start, k);
    if !After(d, limit) {
      YearlyStep(start, limit, existing, k);
      YearlyExact(start, limit, existing, k + 1);
      forall item | item in YearlyFrom(start, limit, existing, k)
        ensures exists n: nat :: k <= n && item == YearItem(n, PlusYears(start, n))
      {
        if item !in TryAdd(YearItem(k, d), limit, existing) {
          assert item in YearlyFrom(start, limit, existing, k + 1);
        }
      }
    }
  }

  /** Every admissible yearly anniversary from the `k`-th on is in the stream. */
  lemma {:induction false} YearlyComplete(start: Date, limit: Date, existing: set<Date>, k: nat, n: nat)
    requires k <= n && Admissible(PlusYears(start, n), limit, existing)
    ensures YearItem(n, PlusYears(start, n)) in YearlyFrom(start, limit, existing, k)
    decreases n - k
  {
    PlusYearsOrder(start, k, n);
    YearlyStep(start, limit, existing, k);
    if k < n {
      YearlyComplete(start, limit, existing, k + 1, n);
    }
  }

  /** The `n`-th yearly anniversary is generated exactly when it is on or before the horizon and
      its date is free. */
  lemma YearlyMembership(start: Date, limit: Date, existing: set<Date>, n: nat)
    requires n >= 1
    ensures YearItem(n, PlusYears(start, n)) in YearlyFrom(start, limit, existing, 1)
            <==> Admissible(PlusYears(start, n), limit, existing)
  {
    if Admissible(PlusYears(start, n), limit, existing) {
      YearlyComplete(start, limit, existing, 1, n);
    }
  }

  /** The day count of the `j`-th milestone after `first`. */
  function MilestoneDays(first: nat, j: nat): nat {
    first + 100 * j
  }

  /** Every item of the milestone stream from `days` on is the milestone of a later day count,
      in steps of 100. */
  lemma {:induction false} MilestonesExact(start: Date, limit: Date, existing: set<Date>, days: nat)
    ensures forall item | item in MilestonesFrom(start, limit, existing, days) ::
              exists j: nat :: item == DayItem(MilestoneDays(days, j), PlusDays(start, MilestoneDays(days, j)))
    decreases Ord(limit) - Ord(start) - days + 1
  {
    var d := PlusDays(start, days);
    if !After(d, limit) {
      MilestonesStep(start, limit, existing, days);
      MilestonesExact(start, limit, existing, days + 100);
      forall item | item in MilestonesFrom(start, limit, existing, days)
        ensures exists j: nat :: item == DayItem(MilestoneDays(days, j), PlusDays(start, MilestoneDays(days, j)))
      {
        if item in TryAdd(DayItem(days, d), limit, existing) {
          assert MilestoneDays(days, 0) == days;
        } else {
          assert item in MilestonesFrom(start, limit, existing, days + 100);
          var j: nat :| item == DayItem(MilestoneDays(days + 100, j), PlusDays(start, MilestoneDays(days + 100, j)));
          assert MilestoneDays(days + 100, j) == MilestoneDays(days, j + 1);
        }
      }
    }
  }

  /** Every admissible milestone after `days` (in steps of 100) is in the stream that starts at `days`. */
  lemma {:induction false} MilestonesComplete(start: Date, limit: Date, existing: set<Date>, days: nat, j: nat)
    requires Admissible(PlusDays(start, MilestoneDays(days, j)), limit, existing)
    ensures DayItem(MilestoneDays(days, j), PlusDays(start, MilestoneDays(days, j)))
            in MilestonesFrom(start, limit, existing, days)
    decreases j
  {
    var n := MilestoneDays(days, j);
    var item := DayItem(n, PlusDays(start, n));
    PlusDaysWithin(start, days, n, limit);
    MilestonesStep(start, limit, existing, days);
    var head := TryAdd(DayItem(days, PlusDays(start, days)), limit, existing);
    var rest := MilestonesFrom(start, limit, existing, days + 100);
    if j == 0 {
      assert item in head;
    } else {
      assert n == MilestoneDays(days + 100, j - 1);
      MilestonesComplete(start, limit, existing, days + 100, j - 1);
      assert item in rest;
    }
    assert item in head + rest;
  }

  /** The milestone of `100 * j` days is generated exactly when it is on or before the horizon and
      its date is free. */
  lemma MilestoneMembership(start: Date, limit: Date, existing: set<Date>, j: nat)
    requires j >= 1
    ensures DayItem(100 * j, PlusDays(start, 100 * j)) in MilestonesFrom(start, limit, existing, 100)
            <==> Admissible(PlusDays(start, 100 * j), limit, existing)
  {
    assert 100 * j == MilestoneDays(100, j - 1);
    if Admissible(PlusDays(start, 100 * j), limit, existing) {
      MilestonesComplete(start, limit, existing, 100, j - 1);
    }
  }

  /** Every item of the birthday stream is the birthday of one of its years. */
  lemma {:induction false} BirthdaysExact(start: Date, limit: Date, existing: set<Date>,
                                          month: int, day: int, y0: int, endYear: int)
    ensures forall item | item in BirthdaysFrom(start, limit, existing, month, day, y0, endYear) ::
              exists y :: y0 <= y <= endYear && BirthdayIn(start, y, month, day).Some?
                          && item == BirthdayItem(y, BirthdayIn(start, y, month, day).value)
    decreases endYear - y0 + 1
  {
    if y0 <= endYear {
      BirthdaysExact(start, limit, existing, month, day, y0 + 1, endYear);
    }
  }

  /** Every admissible birthday of a year in range is in the stream. */
  lemma {:induction false} BirthdaysComplete(start: Date, limit: Date, existing: set<Date>,
                                             month: int, day: int, y0: int, endYear: int, y: int)
    requires y0 <= y <= endYear && BirthdayIn(start, y, month, day).Some?
    requires Admissible(BirthdayIn(start, y, month, day).value, limit, existing)
    ensures BirthdayItem(y, BirthdayIn(start, y, month, day).value)
            in BirthdaysFrom(start, limit, existing, month, day, y0, endYear)
    decreases y - y0
  {
    if y0 < y {
      BirthdaysComplete(start, limit, existing, month, day, y0 + 1, endYear, y);
    }
  }

  /** The birthday item of year `y` on date `b` is generated exactly when `y` is in range, `b` is
      that year's birthday (it exists and is not before the start) and `b` is admissible. */
  lemma BirthdayMembership(start: Date, limit: Date, existing: set<Date>,
                           month: int, day: int, y0: int, endYear: int, y: int, b: Date)
    ensures BirthdayItem(y, b) in BirthdaysFrom(start, limit, existing, month, day, y0, endYear)
            <==> y0 <= y <= endYear && BirthdayIn(start, y, month, day) == Some(b) && Admissible(b, limit, existing)
  {
    var r := BirthdaysFrom(start, limit, existing, month, day, y0, endYear);
    if BirthdayItem(y, b) in r {
      BirthdaysExact(start, limit, existing, month, day, y0, endYear);
      var y' :| y0 <= y' <= endYear && BirthdayIn(start, y', month, day).Some?
                && BirthdayItem(y, b) == BirthdayItem(y', BirthdayIn(start, y', month, day).value);
      PrefixCancel(BirthdayKeyPrefix, IntToString(y), IntToString(y'));
      IntToStringInjective(y, y');
    }
    if y0 <= y <= endYear && BirthdayIn(start, y, month, day) == Some(b) && Admissible(b, limit, existing) {
      BirthdaysComplete(start, limit, existing, month, day, y0, endYear, y);
    }
  }

  // ---------------------------------------------------------------------------------------
  // The whole result: which items it holds, and that their keys are distinct.
  // ---------------------------------------------------------------------------------------

  /** The three key prefixes differ at their sixth character, so no key starts with two of them. */
  lemma KeyPrefixesExclusive(k: string)
    ensures !(StartsWith(k, YearKeyPrefix) && StartsWith(k, DayKeyPrefix))
    ensures !(StartsWith(k, YearKeyPrefix) && StartsWith(k, BirthdayKeyPrefix))
    ensures !(StartsWith(k, DayKeyPrefix) && StartsWith(k, BirthdayKeyPrefix))
  {
    if StartsWith(k, YearKeyPrefix) {
      assert k[5] == YearKeyPrefix[5] == 'y';
    }
    if StartsWith(k, DayKeyPrefix) {
      assert k[5] == DayKeyPrefix[5] == 'd';
    }
    if StartsWith(k, BirthdayKeyPrefix) {
      assert k[5] == BirthdayKeyPrefix[5] == 'b';
    }
  }

  /** The `n`-th yearly anniversary is in the result exactly when its date is admissible. */
  lemma GeneratedYearly(start: Date, birthday: Option<Date>, existing: set<Date>, today: Date, n: nat)
    requires n >= 1
    ensures YearItem(n, PlusYears(start, n)) in GeneratedFrom(Some(start), birthday, existing, today)
            <==> Admissible(PlusYears(start, n), Horizon(today), existing)
  {
    var limit := Horizon(today);
    var item := YearItem(n, PlusYears(start, n));
    YearlyMembership(start, limit, existing, n);
    StartsWithConcat(YearKeyPrefix, NatToString(n));
    KeyPrefixesExclusive(item.key);
    var ms := MilestonesFrom(start, limit, existing, 100);
    forall i | 0 <= i < |ms| ensures ms[i].key != item.key { }
    if birthday.Some? {
      var bs := BirthdaysFrom(start, limit, existing, birthday.value.month, birthday.value.day, today.year - 1, limit.year);
      forall i | 0 <= i < |bs| ensures bs[i].key != item.key { }
    }
  }

  /** The milestone of `100 * j` days is in the result exactly when its date is admissible. */
  lemma GeneratedMilestone(start: Date, birthday: Option<Date>, existing: set<Date>, today: Date, j: nat)
    requires j >= 1
    ensures DayItem(100 * j, PlusDays(start, 100 * j)) in GeneratedFrom(Some(start), birthday, existing, today)
            <==> Admissible(PlusDays(start, 100 * j), Horizon(today), existing)
  {
    var limit := Horizon(today);
    var item := DayItem(100 * j, PlusDays(start, 100 * j));
    MilestoneMembership(start, limit, existing, j);
    StartsWithConcat(DayKeyPrefix, NatToString(100 * j));
    KeyPrefixesExclusive(item.key);
    var ys := YearlyFrom(start, limit, existing, 1);
    forall i | 0 <= i < |ys| ensures ys[i].key != item.key { }
    if birthday.Some? {
      var bs := BirthdaysFrom(start, limit, existing, birthday.value.month, birthday.value.day, today.year - 1, limit.year);
      forall i | 0 <= i < |bs| ensures bs[i].key != item.key { }
    }
  }

  /** With a birthday, the birthday item of year `y` on date `d` is in the result exactly when `y`
      lies between last year and the horizon's year, `d` is that year's birthday, not before the
      start, and `d` is admissible. */
  lemma GeneratedBirthday(start: Date, b: Date, existing: set<Date>, today: Date, y: int, d: Date)
    ensures BirthdayItem(y, d) in GeneratedFrom(Some(start), Some(b), existing, today)
            <==> today.year - 1 <= y <= Horizon(today).year && BirthdayIn(start, y, b.month, b.day) == Some(d)
                 && Admissible(d, Horizon(today), existing)
  {
    var limit := Horizon(today);
    var item := BirthdayItem(y, d);
    var bs := BirthdaysFrom(start, limit, existing, b.month, b.day, today.year - 1, limit.year);
    var yms := YearlyFrom(start, limit, existing, 1) + MilestonesFrom(start, limit, existing, 100);
    assert GeneratedFrom(Some(start), Some(b), existing, today) == yms + bs;
    BirthdayMembership(start, limit, existing, b.month, b.day, today.year - 1, limit.year, y, d);
    BirthdayItemNotAnniversary(start, limit, existing, y, d);
  }

  /** A birthday item is neither a yearly anniversary nor a day milestone. */
  lemma BirthdayItemNotAnniversary(start: Date, limit: Date, existing: set<Date>, y: int, d: Date)
    ensures BirthdayItem(y, d) !in YearlyFrom(start, limit, existing, 1) + MilestonesFrom(start, limit, existing, 100)
  {
    var item := BirthdayItem(y, d);
    StartsWithConcat(BirthdayKeyPrefix, IntToString(y));
    KeyPrefixesExclusive(item.key);
    var ys := YearlyFrom(start, limit, existing, 1);
    var ms := MilestonesFrom(start, limit, existing, 100);
    forall i | 0 <= i < |ys| ensures ys[i].key != item.key { }
    forall i | 0 <= i < |ms| ensures ms[i].key != item.key { }
  }

  /** Without a birthday, no birthday item is generated. */
  lemma GeneratedNoBirthday(start: Date, existing: set<Date>, today: Date)
    ensures forall item | item in GeneratedFrom(Some(start), None, existing, today) :: item.category != Categories.BIRTHDAY
  {
    var limit := Horizon(today);
    YearlyExact(start, limit, existing, 1);
    MilestonesExact(start, limit, existing, 100);
  }

  /** Without a profile, or with a start date that is blank or does not parse, nothing is generated. */
  lemma NoStartNoAnniversaries(profile: Option<Profile>, existing: set<Date>, today: Date)
    requires profile.None? || ToLocalDateOrNull(profile.value.relationshipStartDate).None?
    ensures Generated(profile, existing, today) == []
  {
  }

  /** No generated item falls on a date a stored anniversary holds, or after the horizon. */
  lemma GeneratedAvoidsExisting(profile: Option<Profile>, existing: set<Date>, today: Date)
    ensures forall item | item in Generated(profile, existing, today) ::
              item.isAuto && item.date !in existing && OnOrBefore(item.date, Horizon(today))
  {
  }

  /** The yearly stream never repeats a key: later items have larger anniversary numbers. */
  lemma {:induction false} YearlyKeysDistinct(start: Date, limit: Date, existing: set<Date>, k: nat)
    ensures KeysDistinct(YearlyFrom(start, limit, existing, k))
    decreases limit.year - start.year - k + 1
  {
    var d := PlusYears(start, k);
    if !After(d, limit) {
      YearlyStep(start, limit, existing, k);
      var head := TryAdd(YearItem(k, d), limit, existing);
      var rest := YearlyFrom(start, limit, existing, k + 1);
      YearlyKeysDistinct(start, limit, existing, k + 1);
      YearlyExact(start, limit, existing, k + 1);
      forall x, y | x in head && y in rest
        ensures x.key != y.key
      {
        var n: nat :| k + 1 <= n && y == YearItem(n, PlusYears(start, n));
        if x.key == y.key {
          PrefixCancel(YearKeyPrefix, NatToString(k), NatToString(n));
          NatToStringInjective(k, n);
        }
      }
      KeysDistinctAppend(head, rest);
    }
  }

  /** The milestone stream never repeats a key: later items have larger day counts. */
  lemma {:induction false} MilestonesKeysDistinct(start: Date, limit: Date, existing: set<Date>, days: nat)
    ensures KeysDistinct(MilestonesFrom(start, limit, existing, days))
    decreases Ord(limit) - Ord(start) - days + 1
  {
    var d := PlusDays(start, days);
    if !After(d, limit) {
      MilestonesStep(start, limit, existing, days);
      var head := TryAdd(DayItem(days, d), limit, existing);
      var rest := MilestonesFrom(start, limit, existing, days + 100);
      MilestonesKeysDistinct(start, limit, existing, days + 100);
      MilestonesExact(start, limit, existing, days + 100);
      forall x, y | x in head && y in rest
        ensures x.key != y.key
      {
        var j: nat :| y == DayItem(MilestoneDays(days + 100, j), PlusDays(start, MilestoneDays(days + 100, j)));
        if x.key == y.key {
          PrefixCancel(DayKeyPrefix, NatToString(days), NatToString(MilestoneDays(days + 100, j)));
          NatToStringInjective(days, MilestoneDays(days + 100, j));
        }
      }
      KeysDistinctAppend(head, rest);
    }
  }

  /** The birthday stream never repeats a key: later items belong to later years. */
  lemma {:induction false} BirthdaysKeysDistinct(start: Date, limit: Date, existing: set<Date>,
                                                 month: int, day: int, y0: int, endYear: int)
    ensures KeysDistinct(BirthdaysFrom(start, limit, existing, month, day, y0, endYear))
    decreases endYear - y0 + 1
  {
    if y0 <= endYear {
      var head := match BirthdayIn(start, y0, month, day)
                  case Some(b) => TryAdd(BirthdayItem(y0, b), limit, existing)
                  case None => [];
      var rest := BirthdaysFrom(start, limit, existing, month, day, y0 + 1, endYear);
      BirthdaysKeysDistinct(start, limit, existing, month, day, y0 + 1, endYear);
      BirthdaysExact(start, limit, existing, month, day, y0 + 1, endYear);
      forall x, y | x in head && y in rest
        ensures x.key != y.key
      {
        var yr :| y0 + 1 <= yr <= endYear && BirthdayIn(start, yr, month, day).Some?
                  && y == BirthdayItem(yr, BirthdayIn(start, yr, month, day).value);
        if x.key == y.key {
          PrefixCancel(BirthdayKeyPrefix, IntToString(y0), IntToString(yr));
          IntToStringInjective(y0, yr);
        }
      }
      KeysDistinctAppend(head, rest);
    }
  }

  /** A key with one of the three prefixes starts with `auto-`. */
  lemma AutoPrefix(k: string, p: string)
    requires p == YearKeyPrefix || p == DayKeyPrefix || p == BirthdayKeyPrefix
    requires StartsWith(k, p)
    ensures StartsWith(k, "auto-")
  {
    assert k[..5] == k[..|p|][..5] == p[..5] == "auto-";
  }

  /** Every key of `s` starts with `auto-`. */
  predicate AllAuto(s: seq<AnniversaryItem>) {
    forall i :: 0 <= i < |s| ==> StartsWith(s[i].key, "auto-")
  }

  lemma AllAutoAppend(a: seq<AnniversaryItem>, b: seq<AnniversaryItem>)
    requires AllAuto(a) && AllAuto(b)
    ensures AllAuto(a + b)
  {
    forall i | 0 <= i < |a + b| ensures StartsWith((a + b)[i].key, "auto-") {
      if i < |a| {
        assert (a + b)[i] == a[i];
      } else {
        assert (a + b)[i] == b[i - |a|];
      }
    }
  }

  lemma YearlyAreAuto(start: Date, limit: Date, existing: set<Date>)
    ensures AllAuto(YearlyFrom(start, limit, existing, 1))
  {
    var ys := YearlyFrom(start, limit, existing, 1);
    forall i | 0 <= i < |ys| ensures StartsWith(ys[i].key, "auto-") {
      AutoPrefix(ys[i].key, YearKeyPrefix);
    }
  }

  lemma MilestonesAreAuto(start: Date, limit: Date, existing: set<Date>)
    ensures AllAuto(MilestonesFrom(start, limit, existing, 100))
  {
    var ms := MilestonesFrom(start, limit, existing, 100);
    forall i | 0 <= i < |ms| ensures StartsWith(ms[i].key, "auto-") {
      AutoPrefix(ms[i].key, DayKeyPrefix);
    }
  }

  lemma BirthdaysAreAuto(start: Date, limit: Date, existing: set<Date>, month: int, day: int, y: int, last: int)
    ensures AllAuto(BirthdaysFrom(start, limit, existing, month, day, y, last))
  {
    var bs := BirthdaysFrom(start, limit, existing, month, day, y, last);
    forall i | 0 <= i < |bs| ensures StartsWith(bs[i].key, "auto-") {
      AutoPrefix(bs[i].key, BirthdayKeyPrefix);
    }
  }

  /** Every generated key starts with `auto-`. */
  lemma GeneratedKeysAreAuto(startDate: Option<Date>, birthday: Option<Date>, existing: set<Date>, today: Date)
    ensures var r := GeneratedFrom(startDate, birthday, existing, today);
            forall i :: 0 <= i < |r| ==> StartsWith(r[i].key, "auto-")
  {
    if startDate.Some? {
      var start, limit := startDate.value, Horizon(today);
      var ys := YearlyFrom(start, limit, existing, 1);
      var ms := MilestonesFrom(start, limit, existing, 100);
      YearlyAreAuto(start, limit, existing);
      MilestonesAreAuto(start, limit, existing);
      AllAutoAppend(ys, ms);
      if birthday.Some? {
        var bs := BirthdaysFrom(start, limit, existing, birthday.value.month, birthday.value.day, today.year - 1, limit.year);
        BirthdaysAreAuto(start, limit, existing, birthday.value.month, birthday.value.day, today.year - 1, limit.year);
        AllAutoAppend(ys + ms, bs);
        assert AllAuto(GeneratedFrom(startDate, birthday, existing, today));
      } else {
        assert AllAuto(GeneratedFrom(startDate, birthday, existing, today));
      }
    }
  }

  /** The yearly anniversaries and the day milestones together have distinct keys. */
  lemma AnniversaryKeysDistinct(start: Date, limit: Date, existing: set<Date>)
    ensures KeysDistinct(YearlyFrom(start, limit, existing, 1) + MilestonesFrom(start, limit, existing, 100))
  {
    var ys := YearlyFrom(start, limit, existing, 1);
    var ms := MilestonesFrom(start, limit, existing, 100);
    YearlyKeysDistinct(start, limit, existing, 1);
    MilestonesKeysDistinct(start, limit, existing, 100);
    forall x, y | x in ys && y in ms
      ensures x.key != y.key
    {
      KeyPrefixesExclusive(x.key);
    }
    KeysDistinctAppend(ys, ms);
  }

  /** No birthday key is the key of a yearly anniversary or a day milestone. */
  lemma BirthdayKeysApart(anniversaries: seq<AnniversaryItem>, bs: seq<AnniversaryItem>)
    requires forall i :: 0 <= i < |anniversaries| ==>
               StartsWith(anniversaries[i].key, YearKeyPrefix) || StartsWith(anniversaries[i].key, DayKeyPrefix)
    requires forall i :: 0 <= i < |bs| ==> StartsWith(bs[i].key, BirthdayKeyPrefix)
    ensures forall x, y | x in anniversaries && y in bs :: x.key != y.key
  {
    forall x, y | x in anniversaries && y in bs
      ensures x.key != y.key
    {
      KeyPrefixesExclusive(x.key);
    }
  }

  /** No two generated items share a key, so each can key its own list row. */
  lemma GeneratedKeysDistinct(startDate: Option<Date>, birthday: Option<Date>, existing: set<Date>, today: Date)
    ensures KeysDistinct(GeneratedFrom(startDate, birthday, existing, today))
  {
    if startDate.Some? {
      var start, limit := startDate.value, Horizon(today);
      var ys := YearlyFrom(start, limit, existing, 1);
      var ms := MilestonesFrom(start, limit, existing, 100);
      AnniversaryKeysDistinct(start, limit, existing);
      if birthday.Some? {
        var yms := ys + ms;
        var bs := BirthdaysFrom(start, limit, existing, birthday.value.month, birthday.value.day, today.year - 1, limit.year);
        BirthdaysKeysDistinct(start, limit, existing, birthday.value.month, birthday.value.day, today.year - 1, limit.year);
        forall i | 0 <= i < |yms|
          ensures StartsWith(yms[i].key, YearKeyPrefix) || StartsWith(yms[i].key, DayKeyPrefix)
        {
          if i < |ys| {
            assert yms[i] == ys[i];
          } else {
            assert yms[i] == ms[i - |ys|];
          }
        }
        BirthdayKeysApart(yms, bs);
        KeysDistinctAppend(yms, bs);
      }
    }
  }

  // ---------------------------------------------------------------------------------------
  // Worked examples.
  // ---------------------------------------------------------------------------------------

  /** Together since 1 January 2024, seen on 15 April 2024: the 100-day milestone falls on
      10 April 2024 and is generated; a stored anniversary on that day suppresses it. */
  lemma HundredDayMilestoneExample()
    ensures DayItem(100, Ymd(2024, 4, 10)) in GeneratedFrom(Some(Ymd(2024, 1, 1)), None, {}, Ymd(2024, 4, 15))
    ensures DayItem(100, Ymd(2024, 4, 10)) !in GeneratedFrom(Some(Ymd(2024, 1, 1)), None, {Ymd(2024, 4, 10)}, Ymd(2024, 4, 15))
  {
    HundredDaysFromNewYear2024();
    GeneratedMilestone(Ymd(2024, 1, 1), None, {}, Ymd(2024, 4, 15), 1);
    GeneratedMilestone(Ymd(2024, 1, 1), None, {Ymd(2024, 4, 10)}, Ymd(2024, 4, 15), 1);
  }

  /** A stored anniversary on the first yearly anniversary suppresses it, and the loop goes on to
      the second. */
  lemma SuppressedYearExample()
    ensures var r := GeneratedFrom(Some(Ymd(2024, 1, 1)), None, {Ymd(2025, 1, 1)}, Ymd(2024, 4, 15));
            YearItem(1, Ymd(2025, 1, 1)) !in r && YearItem(2, Ymd(2026, 1, 1)) in r
  {
    GeneratedYearly(Ymd(2024, 1, 1), None, {Ymd(2025, 1, 1)}, Ymd(2024, 4, 15), 1);
    GeneratedYearly(Ymd(2024, 1, 1), None, {Ymd(2025, 1, 1)}, Ymd(2024, 4, 15), 2);
  }

  /** A partner born on 29 February 1996, seen on 1 March 2026 (horizon 1 March 2028): the
      birthday of 2028 falls on 29 February 2028 and is generated. */
  lemma LeapBirthdayExample(start: Date)
    requires OnOrBefore(start, Ymd(2025, 1, 1))
    ensures BirthdayItem(2028, Ymd(2028, 2, 29)) in GeneratedFrom(Some(start), Some(Ymd(1996, 2, 29)), {}, Ymd(2026, 3, 1))
  {
    assert Horizon(Ymd(2026, 3, 1)) == Ymd(2028, 3, 1);
    assert BirthdayIn(start, 2028, 2, 29) == Some(Ymd(2028, 2, 29));
    GeneratedBirthday(start, Ymd(1996, 2, 29), {}, Ymd(2026, 3, 1), 2028, Ymd(2028, 2, 29));
  }

  /** For the same partner, the common years 2025 through 2027 have no birthday at all. */
  lemma LeapBirthdaySkipsCommonYears(start: Date, y: int, d: Date)
    requires 2025 <= y <= 2027
    ensures BirthdayItem(y, d) !in GeneratedFrom(Some(start), Some(Ymd(1996, 2, 29)), {}, Ymd(2026, 3, 1))
  {
    assert !IsLeapYear(y);
    assert Of(y, 2, 29).None?;
    GeneratedBirthday(start, Ymd(1996, 2, 29), {}, Ymd(2026, 3, 1), y, d);
  }

  /** A birthday in the horizon's year but after the horizon date is not generated. */
  lemma BirthdayPastHorizonExample(start: Date)
    ensures BirthdayItem(2028, Ymd(2028, 12, 25))
            !in GeneratedFrom(Some(start), Some(Ymd(1990, 12, 25)), {}, Ymd(2026, 3, 1))
  {
    GeneratedBirthday(start, Ymd(1990, 12, 25), {}, Ymd(2026, 3, 1), 2028, Ymd(2028, 12, 25));
  }
}
