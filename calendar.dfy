/**
 * The calendar's view of the anniversaries (CalendarScreen.kt): the per-day map `eventsByDate`,
 * in which a stored anniversary covers every day of its range and a generated one its own day;
 * the cell colours `dateColors`; the list shown for the selected day; and the selection toggle.
 */
module CalendarProjection {
  import opened Wrappers
  import opened Text
  import opened Dates
  import opened Seqs
  import opened Anniversaries
  import Categories = EventCategories

  // ---------------------------------------------------------------------------------------
  // Ranges of stored anniversaries.
  // ---------------------------------------------------------------------------------------

  /** The first and last day of a stored event: the end is `endDate` when that is set and
      parses, and the start otherwise. None when the start is blank or does not parse. */
  function EffectiveRange(e: Event): (r: Option<(Date, Date)>)
    ensures r.None? <==> ToLocalDateOrNull(e.date).None?
    ensures r.Some? ==> r.value.0 == ToLocalDateOrNull(e.date).value
    ensures r.Some? ==> r.value.1 == if !IsBlank(e.endDate) && ToLocalDateOrNull(e.endDate).Some?
                                     then ToLocalDateOrNull(e.endDate).value else r.value.0
  {
    match ToLocalDateOrNull(e.date)
    case None => None
    case Some(start) =>
      var endText := if !IsBlank(e.endDate) then e.endDate else e.date;
      Some((start, ToLocalDateOrNull(endText).GetOr(start)))
  }

  /** Day `d` lies within the range of `e`, and `e` is a stored anniversary. */
  predicate Covers(e: Event, d: Date) {
    e.isAnniversary && EffectiveRange(e).Some?
    && !Before(d, EffectiveRange(e).value.0) && !After(d, EffectiveRange(e).value.1)
  }

  /** An event whose end precedes its start covers no day at all. */
  lemma ReversedRangeCoversNothing(e: Event, d: Date)
    requires EffectiveRange(e).Some? && Before(EffectiveRange(e).value.1, EffectiveRange(e).value.0)
    ensures !Covers(e, d)
  {
    var (s, t) := EffectiveRange(e).value;
    BeforeIffOrd(t, s);
    BeforeIffOrd(d, s);
    BeforeIffOrd(t, d);
  }

  /** An event without a usable end date covers exactly its start day. */
  lemma OpenEndedCoversStartOnly(e: Event, d: Date)
    requires IsBlank(e.endDate) || ToLocalDateOrNull(e.endDate).None?
    ensures Covers(e, d) <==> e.isAnniversary && ToLocalDateOrNull(e.date) == Some(d)
  {
    if EffectiveRange(e).Some? {
      BeforeIffOrd(d, EffectiveRange(e).value.0);
      BeforeIffOrd(EffectiveRange(e).value.0, d);
    }
  }

  // ---------------------------------------------------------------------------------------
  // The per-day map.
  // ---------------------------------------------------------------------------------------

  /** The key of an event's entry on one day, `manual-{id}-{day}`. */
  function DayKey(id: int, d: Date): string {
    "manual-" + IntToString(id) + "-" + FormatIsoDate(d)
  }

  /** The entry a stored event puts on day `d`. */
  function DayEntry(e: Event, d: Date): AnniversaryItem {
    AnniversaryItem(DayKey(e.id, d), IfBlank(e.title, DefaultTitle), e.description, d, false, "",
                    Categories.FromId(Some(e.category)), e.icon, e.color, Some(e.id))
  }

  /** The entries stored anniversaries put on day `d`, in the order of the events. */
  function ManualOnDay(events: seq<Event>, d: Date): seq<AnniversaryItem> {
    if events == [] then []
    else ManualOnDay(events[..|events| - 1], d)
         + (if Covers(events[|events| - 1], d) then [DayEntry(events[|events| - 1], d)] else [])
  }

  predicate IsAutoOn(d: Date, x: AnniversaryItem) {
    x.isAuto && x.date == d
  }

  /** The generated items of the merged list that fall on day `d`, in their order. */
  function AutoOnDay(combined: seq<AnniversaryItem>, d: Date): (r: seq<AnniversaryItem>)
    ensures forall i :: 0 <= i < |r| ==> IsAutoOn(d, r[i])
  {
    if combined == [] then []
    else AutoOnDay(combined[..|combined| - 1], d)
         + (if IsAutoOn(d, combined[|combined| - 1]) then [combined[|combined| - 1]] else [])
  }

  /** The generated items of a day are those of the merged list, filtered in order. */
  lemma {:induction false} AutoOnDayIsFilter(combined: seq<AnniversaryItem>, d: Date)
    ensures AutoOnDay(combined, d) == Filter(combined, (x: AnniversaryItem) => IsAutoOn(d, x))
  {
    if combined != [] {
      var init, last := combined[..|combined| - 1], combined[|combined| - 1];
      AutoOnDayIsFilter(init, d);
      assert combined == init + [last];
      FilterAppend(init, [last], (x: AnniversaryItem) => IsAutoOn(d, x));
    }
  }

  /** What the map holds for day `d`: the entries of the stored anniversaries covering it, then
      the generated items on it. */
  function DayItems(events: seq<Event>, combined: seq<AnniversaryItem>, d: Date): seq<AnniversaryItem> {
    ManualOnDay(events, d) + AutoOnDay(combined, d)
  }

  /** `dateMap[d] ?: emptyList()`. */
  function Get(m: map<Date, seq<AnniversaryItem>>, d: Date): seq<AnniversaryItem> {
    if d in m then m[d] else []
  }

  /** The entries of stored anniversaries are exactly one per event covering the day. */
  lemma {:induction false} ManualOnDayExact(events: seq<Event>, d: Date)
    ensures forall x | x in ManualOnDay(events, d) :: exists e :: e in events && Covers(e, d) && x == DayEntry(e, d)
    ensures forall e | e in events && Covers(e, d) :: DayEntry(e, d) in ManualOnDay(events, d)
  {
    if events != [] {
      var init, last := events[..|events| - 1], events[|events| - 1];
      ManualOnDayExact(init, d);
      assert events == init + [last];
      forall e | e in events && Covers(e, d)
        ensures DayEntry(e, d) in ManualOnDay(events, d)
      {
        if e != last {
          assert e in init;
        }
      }
    }
  }

  /** The entries of a prefix of the events grow by one event at a time. */
  lemma ManualOnDayStep(events: seq<Event>, i: nat, d: Date)
    requires i < |events|
    ensures ManualOnDay(events[..i + 1], d)
            == ManualOnDay(events[..i], d) + (if Covers(events[i], d) then [DayEntry(events[i], d)] else [])
  {
    assert events[..i + 1][..i] == events[..i];
  }

  /** The filter of generated items grows by one element at a time. */
  lemma AutoOnDayStep(combined: seq<AnniversaryItem>, j: nat, d: Date)
    requires j < |combined|
    ensures AutoOnDay(combined[..j + 1], d)
            == AutoOnDay(combined[..j], d) + (if IsAutoOn(d, combined[j]) then [combined[j]] else [])
  {
    assert combined[..j + 1][..j] == combined[..j];
  }

  /** `eventsByDate`: the stored anniversaries day by day over their ranges, then the generated
      items. A day is in the map exactly when something falls on it, and holds what falls on it. */
  method EventsByDate(events: seq<Event>, combined: seq<AnniversaryItem>)
    returns (dateMap: map<Date, seq<AnniversaryItem>>)
    ensures forall d :: d in dateMap <==> DayItems(events, combined, d) != []
    ensures forall d | d in dateMap :: dateMap[d] == DayItems(events, combined, d)
  {
    var manual := AddManualDays(events);
    dateMap := AddAutoItems(manual, combined);
    forall d
      ensures d in dateMap <==> DayItems(events, combined, d) != []
      ensures d in dateMap ==> dateMap[d] == DayItems(events, combined, d)
    {
      assert Get(dateMap, d) == DayItems(events, combined, d);
    }
  }

  /** The first loop of `eventsByDate`: every stored anniversary over its range. */
  method AddManualDays(events: seq<Event>) returns (dateMap: map<Date, seq<AnniversaryItem>>)
    ensures forall d :: Get(dateMap, d) == ManualOnDay(events, d)
    ensures forall d | d in dateMap :: dateMap[d] != []
  {
    dateMap := map[];
    var i := 0;
    while i < |events|
      invariant 0 <= i <= |events|
      invariant forall d :: Get(dateMap, d) == ManualOnDay(events[..i], d)
      invariant forall d | d in dateMap :: dateMap[d] != []
    {
      var before := dateMap;
      dateMap := AddEventDays(dateMap, events[i]);
      forall d
        ensures Get(dateMap, d) == ManualOnDay(events[..i + 1], d)
      {
        ManualOnDayStep(events, i, d);
        assert Get(dateMap, d) == Get(before, d) + (if Covers(events[i], d) then [DayEntry(events[i], d)] else []);
      }
      i := i + 1;
    }
    assert events[..|events|] == events;
  }

  /** The second loop of `eventsByDate`: every generated item of the merged list on its day. */
  method AddAutoItems(dateMap: map<Date, seq<AnniversaryItem>>, combined: seq<AnniversaryItem>)
    returns (m: map<Date, seq<AnniversaryItem>>)
    requires forall d | d in dateMap :: dateMap[d] != []
    ensures forall d :: Get(m, d) == Get(dateMap, d) + AutoOnDay(combined, d)
    ensures forall d | d in m :: m[d] != []
  {
    m := dateMap;
    var j := 0;
    while j < |combined|
      invariant 0 <= j <= |combined|
      invariant forall d :: Get(m, d) == Get(dateMap, d) + AutoOnDay(combined[..j], d)
      invariant forall d | d in m :: m[d] != []
    {
      var item := combined[j];
      var before := m;
      if item.isAuto {
        m := m[item.date := Get(m, item.date) + [item]];
      }
      forall d
        ensures Get(m, d) == Get(dateMap, d) + AutoOnDay(combined[..j + 1], d)
      {
        AutoOnDayStep(combined, j, d);
        var extra := if IsAutoOn(d, item) then [item] else [];
        assert Get(m, d) == Get(before, d) + extra;
        AppendAssoc(Get(dateMap, d), AutoOnDay(combined[..j], d), extra);
      }
      j := j + 1;
    }
    assert combined[..|combined|] == combined;
  }

  /** Day `d` lies between `s` and `t`, both included. */
  predicate InRange(d: Date, s: Date, t: Date) {
    !Before(d, s) && !After(d, t)
  }

  /** One pass of the first loop: `event`'s entry is appended to every day of its range. */
  method AddEventDays(dateMap: map<Date, seq<AnniversaryItem>>, event: Event)
    returns (m: map<Date, seq<AnniversaryItem>>)
    requires forall d | d in dateMap :: dateMap[d] != []
    ensures forall d :: Get(m, d) == Get(dateMap, d) + (if Covers(event, d) then [DayEntry(event, d)] else [])
    ensures forall d | d in m :: m[d] != []
  {
    m := dateMap;
    if !event.isAnniversary {
      return;
    }
    var startDate := ToLocalDateOrNull(event.date);
    if startDate.None? {
      return;
    }
    var start := startDate.value;
    var endDateStr := if !IsBlank(event.endDate) then event.endDate else event.date;
    var endDate := ToLocalDateOrNull(endDateStr).GetOr(start);
    assert EffectiveRange(event) == Some((start, endDate));
    assert forall d :: Covers(event, d) <==> InRange(d, start, endDate);
    m := AddRange(dateMap, event, start, endDate);
  }

  /** The inner loop: `e`'s entry is appended to every day from `start` to `end`. */
  method AddRange(dateMap: map<Date, seq<AnniversaryItem>>, e: Event, start: Date, end: Date)
    returns (m: map<Date, seq<AnniversaryItem>>)
    requires forall d | d in dateMap :: dateMap[d] != []
    ensures forall d :: Get(m, d) == Get(dateMap, d) + (if InRange(d, start, end) then [DayEntry(e, d)] else [])
    ensures forall d | d in m :: m[d] != []
  {
    m := dateMap;
    var currentDate := start;
    while !After(currentDate, end)
      invariant !Before(currentDate, start)
      invariant forall d :: Get(m, d) == Get(dateMap, d)
                  + (if InRange(d, start, end) && Before(d, currentDate) then [DayEntry(e, d)] else [])
      invariant forall d | d in m :: m[d] != []
      decreases Ord(end) - Ord(currentDate)
    {
      BeforeIffOrd(end, currentDate);
      var next := PlusDays(currentDate, 1);
      var before := m;
      m := m[currentDate := Get(m, currentDate) + [DayEntry(e, currentDate)]];
      forall d
        ensures Get(m, d) == Get(dateMap, d)
                  + (if InRange(d, start, end) && Before(d, next) then [DayEntry(e, d)] else [])
      {
        BeforeNextDay(d, currentDate);
        RangeStep(dateMap, before, m, e, start, end, currentDate, next, d);
      }
      BeforeIffOrd(start, next);
      BeforeIffOrd(start, currentDate);
      currentDate := next;
    }
    forall d | InRange(d, start, end)
      ensures Before(d, currentDate)
    {
      BeforeTrans(d, end, currentDate);
    }
  }

  /** One step of the inner loop on day `d`: adding the entry of day `c` extends the window of
      filled days, before `c`, to the window before `next`, the day after `c`. */
  lemma RangeStep(dateMap: map<Date, seq<AnniversaryItem>>, before: map<Date, seq<AnniversaryItem>>,
                  m: map<Date, seq<AnniversaryItem>>, e: Event, start: Date, end: Date, c: Date, next: Date, d: Date)
    requires InRange(c, start, end)
    requires Before(d, next) <==> Before(d, c) || d == c
    requires Get(before, d) == Get(dateMap, d)
               + (if InRange(d, start, end) && Before(d, c) then [DayEntry(e, d)] else [])
    requires m == before[c := Get(before, c) + [DayEntry(e, c)]]
    ensures Get(m, d) == Get(dateMap, d)
              + (if InRange(d, start, end) && Before(d, next) then [DayEntry(e, d)] else [])
  {
    if d == c {
      assert !Before(d, c);
    }
  }

  /** A day on or before `b`, which is before `c`, is before `c`. */
  lemma BeforeTrans(a: Date, b: Date, c: Date)
    requires !After(a, b) && Before(b, c)
    ensures Before(a, c)
  {
    BeforeIffOrd(b, a);
    BeforeIffOrd(b, c);
    BeforeIffOrd(a, c);
  }

  // ---------------------------------------------------------------------------------------
  // Cell colours.
  // ---------------------------------------------------------------------------------------

  /** `dateColors`: each day of the map takes the cell colour of its first item. */
  function DateColors(dateMap: map<Date, seq<AnniversaryItem>>, parseColor: string -> Option<int>)
    : (colors: map<Date, int>)
    ensures colors.Keys == dateMap.Keys
  {
    map d | d in dateMap :: if dateMap[d] == [] then DefaultColor else CellColor(dateMap[d][0], parseColor)
  }

  /** A day covered by a stored anniversary takes the colour of the first such anniversary, even
      when a generated one falls on the same day; a day with only generated items is pink. */
  lemma DayColor(events: seq<Event>, combined: seq<AnniversaryItem>, dateMap: map<Date, seq<AnniversaryItem>>,
                 parseColor: string -> Option<int>, d: Date)
    requires d in dateMap && dateMap[d] == DayItems(events, combined, d) && dateMap[d] != []
    ensures ManualOnDay(events, d) != [] ==>
              DateColors(dateMap, parseColor)[d] == CellColor(ManualOnDay(events, d)[0], parseColor)
    ensures ManualOnDay(events, d) == [] ==> DateColors(dateMap, parseColor)[d] == AutoColor
  {
    var m, a := ManualOnDay(events, d), AutoOnDay(combined, d);
    if m != [] {
      assert dateMap[d][0] == m[0];
    } else {
      assert dateMap[d] == a && a[0].isAuto;
    }
  }

  // ---------------------------------------------------------------------------------------
  // The list for the selected day.
  // ---------------------------------------------------------------------------------------

  /** `events.find { it.id == id }`: the first event with that id. */
  function FindEvent(events: seq<Event>, id: Option<int>): (r: Option<Event>)
    ensures r.Some? ==> r.value in events && id == Some(r.value.id)
    ensures r.None? <==> forall e | e in events :: id != Some(e.id)
    ensures r.Some? ==> exists i :: 0 <= i < |events| && events[i] == r.value
                                   && forall j :: 0 <= j < i ==> id != Some(events[j].id)
  {
    if events == [] then None
    else if id == Some(events[0].id) then Some(events[0])
    else FindEvent(events[1..], id)
  }

  /** Whether an item of the merged list is listed for `date`: a generated one on its own day; a
      stored one over the effective range of the event it came from, or on its own day when that
      event is gone; never when that event's start date does not parse. */
  predicate ShownOn(events: seq<Event>, date: Date, item: AnniversaryItem) {
    if item.isAuto then item.date == date
    else match FindEvent(events, item.sourceEventId)
      case Some(e) =>
        EffectiveRange(e).Some? && InRange(date, EffectiveRange(e).value.0, EffectiveRange(e).value.1)
      case None => item.date == date
  }

  /** For the item of a stored anniversary, the list and the map agree on the days it covers. */
  lemma ShownOnCoveredDays(events: seq<Event>, item: AnniversaryItem, e: Event, date: Date)
    requires !item.isAuto && FindEvent(events, item.sourceEventId) == Some(e) && e.isAnniversary
    ensures ShownOn(events, date, item) <==> Covers(e, date)
  {
  }

  /** `distinctBy { it.sourceEventId }`, with the source ids already met in `seen`: the first item
      of every source id is kept, in order. */
  function DistinctBySource(s: seq<AnniversaryItem>, seen: set<Option<int>>): (r: seq<AnniversaryItem>)
    ensures forall i :: 0 <= i < |r| ==> r[i] in s && r[i].sourceEventId !in seen
    ensures forall i, j :: 0 <= i < j < |r| ==> r[i].sourceEventId != r[j].sourceEventId
  {
    if s == [] then []
    else if s[0].sourceEventId in seen then DistinctBySource(s[1..], seen)
    else [s[0]] + DistinctBySource(s[1..], seen + {s[0].sourceEventId})
  }

  /** Every source id not met before is represented in the result, by its first item. */
  lemma {:induction false} DistinctBySourceKeepsFirst(s: seq<AnniversaryItem>, seen: set<Option<int>>, i: nat)
    requires i < |s| && s[i].sourceEventId !in seen
    requires forall h :: 0 <= h < i ==> s[h].sourceEventId != s[i].sourceEventId
    ensures s[i] in DistinctBySource(s, seen)
    decreases i
  {
    if i > 0 {
      var seen' := if s[0].sourceEventId in seen then seen else seen + {s[0].sourceEventId};
      assert s[1..][i - 1] == s[i];
      DistinctBySourceKeepsFirst(s[1..], seen', i - 1);
    }
  }

  /** The result is a subsequence of the input. */
  lemma {:induction false} DistinctBySourceSubsequence(s: seq<AnniversaryItem>, seen: set<Option<int>>)
    ensures IsSubsequence(DistinctBySource(s, seen), s)
    decreases |s|
  {
    if s != [] {
      var r := DistinctBySource(s, seen);
      if s[0].sourceEventId in seen {
        DistinctBySourceSubsequence(s[1..], seen);
        if r != [] {
          assert r[0].sourceEventId !in seen;
        }
      } else {
        DistinctBySourceSubsequence(s[1..], seen + {s[0].sourceEventId});
        assert r[1..] == DistinctBySource(s[1..], seen + {s[0].sourceEventId});
      }
    }
  }

  /** `selectedDateEvents`: nothing without a selection; otherwise the items of the merged list
      shown on the selected day, one per source event. */
  function SelectedDateEvents(selected: Option<Date>, combined: seq<AnniversaryItem>, events: seq<Event>)
    : seq<AnniversaryItem>
  {
    match selected
    case None => []
    case Some(date) => DistinctBySource(Filter(combined, (x: AnniversaryItem) => ShownOn(events, date, x)), {})
  }

  /** The selected day's list holds items of the merged list shown on that day, in their order,
      never two of the same source event, and the first shown item of every source event. */
  lemma SelectedDateEventsSpec(date: Date, combined: seq<AnniversaryItem>, events: seq<Event>)
    ensures var r := SelectedDateEvents(Some(date), combined, events);
            (forall i :: 0 <= i < |r| ==> r[i] in combined && ShownOn(events, date, r[i]))
            && (forall i, j :: 0 <= i < j < |r| ==> r[i].sourceEventId != r[j].sourceEventId)
            && IsSubsequence(r, Filter(combined, (x: AnniversaryItem) => ShownOn(events, date, x)))
    ensures var shown := Filter(combined, (x: AnniversaryItem) => ShownOn(events, date, x));
            forall i | 0 <= i < |shown| && (forall h :: 0 <= h < i ==> shown[h].sourceEventId != shown[i].sourceEventId)
              :: shown[i] in SelectedDateEvents(Some(date), combined, events)
  {
    var shown := Filter(combined, (x: AnniversaryItem) => ShownOn(events, date, x));
    DistinctBySourceSubsequence(shown, {});
    forall i | 0 <= i < |shown| && (forall h :: 0 <= h < i ==> shown[h].sourceEventId != shown[i].sourceEventId)
      ensures shown[i] in SelectedDateEvents(Some(date), combined, events)
    {
      DistinctBySourceKeepsFirst(shown, {}, i);
    }
  }

  /** Generated items carry no source event, so the selected day lists at most one of them: a
      birthday on the same day as a yearly anniversary is hidden. */
  lemma AtMostOneAutoSelected(date: Date, combined: seq<AnniversaryItem>, events: seq<Event>)
    requires forall i :: 0 <= i < |combined| && combined[i].isAuto ==> combined[i].sourceEventId.None?
    ensures var r := SelectedDateEvents(Some(date), combined, events);
            forall i, j :: 0 <= i < j < |r| ==> !(r[i].isAuto && r[j].isAuto)
  {
  }

  /** Without a selection the list is empty. */
  lemma NoSelectionNoEvents(combined: seq<AnniversaryItem>, events: seq<Event>)
    ensures SelectedDateEvents(None, combined, events) == []
  {
  }

  // ---------------------------------------------------------------------------------------
  // Selecting a day.
  // ---------------------------------------------------------------------------------------

  /** `onDateSelected`: tapping the selected day clears the selection, tapping another selects it. */
  function Toggle(selected: Option<Date>, date: Date): (r: Option<Date>)
    ensures r.Some? <==> selected != Some(date)
    ensures r.Some? ==> r.value == date
  {
    if selected == Some(date) then None else Some(date)
  }

  /** Tapping the same day twice restores the selection, unless another day was selected. */
  lemma ToggleTwice(selected: Option<Date>, date: Date)
    ensures Toggle(Toggle(selected, date), date) == selected <==> selected.None? || selected == Some(date)
  {
  }
}
