/**
 * The anniversary list of the anniversary screen (AnniversaryScreen.kt) and of the calendar
 * (CalendarScreen.kt, when it is not handed a list): the stored anniversaries become manual items,
 * their dates suppress generated ones, the two lists are merged by the stable `sortedBy { it.date }`,
 * and the filter tabs select from the merged list.
 */
module Reconciliation {
  import opened Wrappers
  import opened Text
  import opened Dates
  import opened Seqs
  import opened Anniversaries
  import opened AutoAnniversaries
  import Categories = EventCategories

  // ---------------------------------------------------------------------------------------
  // Manual items.
  // ---------------------------------------------------------------------------------------

  /** `mapNotNull { it.toAnniversaryItem() }`. */
  function ItemsOf(events: seq<Event>): (r: seq<AnniversaryItem>)
    ensures |r| <= |events|
  {
    if events == [] then []
    else
      (match ToItem(events[0]) case Some(item) => [item] case None => [])
      + ItemsOf(events[1..])
  }

  /** `events.filter { it.isAnniversary }.mapNotNull { it.toAnniversaryItem() }`. */
  function ManualItems(events: seq<Event>): seq<AnniversaryItem> {
    ItemsOf(Filter(events, (e: Event) => e.isAnniversary))
  }

  /** `manualAnniversaries.map { it.date }.toSet()`. */
  function ManualDates(items: seq<AnniversaryItem>): set<Date> {
    set x | x in items :: x.date
  }

  /** Every item `mapNotNull` keeps is the item of one of the events, and every event that has an
      item contributes it. */
  lemma {:induction false} ItemsOfExact(events: seq<Event>)
    ensures forall item | item in ItemsOf(events) :: exists e :: e in events && ToItem(e) == Some(item)
    ensures forall e | e in events && ToItem(e).Some? :: ToItem(e).value in ItemsOf(events)
  {
    if events != [] {
      ItemsOfExact(events[1..]);
      var head := match ToItem(events[0]) case Some(item) => [item] case None => [];
      assert ItemsOf(events) == head + ItemsOf(events[1..]);
      forall item | item in ItemsOf(events)
        ensures exists e :: e in events && ToItem(e) == Some(item)
      {
        if item in head {
          assert ToItem(events[0]) == Some(item);
        } else {
          assert item in ItemsOf(events[1..]);
          var e :| e in events[1..] && ToItem(e) == Some(item);
          assert e in events;
        }
      }
      forall e | e in events && ToItem(e).Some?
        ensures ToItem(e).value in ItemsOf(events)
      {
        if e != events[0] {
          assert e in events[1..];
        }
      }
    }
  }

  /** The manual items are exactly the items of the stored anniversaries whose start date parses:
      each is a non-generated item keyed `manual-{id}` whose source is its event. */
  lemma ManualItemsExact(events: seq<Event>)
    ensures forall item | item in ManualItems(events) ::
              exists e :: e in events && e.isAnniversary && ToItem(e) == Some(item)
    ensures forall e | e in events && e.isAnniversary && ToLocalDateOrNull(e.date).Some? ::
              ToItem(e).value in ManualItems(events)
    ensures forall item | item in ManualItems(events) ::
              !item.isAuto && item.sourceEventId.Some? && item.key == ManualKey(item.sourceEventId.value)
  {
    var anniversaries := Filter(events, (e: Event) => e.isAnniversary);
    ItemsOfExact(anniversaries);
    forall e | e in events && e.isAnniversary && ToLocalDateOrNull(e.date).Some?
      ensures ToItem(e).value in ManualItems(events)
    {
      var i :| 0 <= i < |events| && events[i] == e;
      assert e in anniversaries;
    }
  }

  // ---------------------------------------------------------------------------------------
  // The stable sort by date.
  // ---------------------------------------------------------------------------------------

  /** Non-decreasing by date. */
  predicate SortedByDate(s: seq<AnniversaryItem>) {
    forall i, j :: 0 <= i < j < |s| ==> !Before(s[j].date, s[i].date)
  }

  /** Puts `x` ahead of the first element of `s` that is not earlier than it. */
  function InsertByDate(x: AnniversaryItem, s: seq<AnniversaryItem>): (r: seq<AnniversaryItem>)
    ensures multiset(r) == multiset(s) + multiset{x}
  {
    if s == [] || !Before(s[0].date, x.date) then [x] + s
    else
      assert s == [s[0]] + s[1..];
      [s[0]] + InsertByDate(x, s[1..])
  }

  /** A sorted list stays sorted with an element in front that no element is earlier than. */
  lemma SortedCons(h: AnniversaryItem, t: seq<AnniversaryItem>)
    requires SortedByDate(t) && forall k :: 0 <= k < |t| ==> !Before(t[k].date, h.date)
    ensures SortedByDate([h] + t)
  {
    forall i, j | 0 <= i < j < |[h] + t|
      ensures !Before(([h] + t)[j].date, ([h] + t)[i].date)
    {
      if i > 0 {
        assert ([h] + t)[i] == t[i - 1] && ([h] + t)[j] == t[j - 1];
      } else {
        assert ([h] + t)[j] == t[j - 1];
      }
    }
  }

  /** Inserting into a sorted list keeps it sorted. */
  lemma {:induction false} InsertSorted(x: AnniversaryItem, s: seq<AnniversaryItem>)
    requires SortedByDate(s)
    ensures SortedByDate(InsertByDate(x, s))
  {
    if s == [] || !Before(s[0].date, x.date) {
      forall k | 0 <= k < |s|
        ensures !Before(s[k].date, x.date)
      {
        if k > 0 {
          assert !Before(s[k].date, s[0].date);
        }
      }
      SortedCons(x, s);
    } else {
      var rest := InsertByDate(x, s[1..]);
      InsertSorted(x, s[1..]);
      forall k | 0 <= k < |rest|
        ensures !Before(rest[k].date, s[0].date)
      {
        assert rest[k] in multiset(rest);
        if rest[k] != x {
          var m :| 1 <= m < |s| && s[m] == rest[k];
        }
      }
      SortedCons(s[0], rest);
    }
  }

  /** `sortedBy { it.date }`: a stable sort, here an insertion sort from the back. */
  function SortByDate(s: seq<AnniversaryItem>): (r: seq<AnniversaryItem>)
    ensures multiset(r) == multiset(s)
    ensures SortedByDate(r)
  {
    if s == [] then []
    else
      assert s == [s[0]] + s[1..];
      InsertSorted(s[0], SortByDate(s[1..]));
      InsertByDate(s[0], SortByDate(s[1..]))
  }

  /** The items on day `d`, in their order. */
  function OnDate(s: seq<AnniversaryItem>, d: Date): seq<AnniversaryItem> {
    Filter(s, (x: AnniversaryItem) => x.date == d)
  }

  /** The items of day `d` in a list with `h` in front. */
  lemma OnDateCons(h: AnniversaryItem, t: seq<AnniversaryItem>, d: Date)
    ensures OnDate([h] + t, d) == (if h.date == d then [h] else []) + OnDate(t, d)
  {
    assert ([h] + t)[1..] == t;
  }

  /** Inserting `x` puts it first among the items of its day: the items it passes are earlier. */
  lemma {:induction false} InsertOnDate(x: AnniversaryItem, s: seq<AnniversaryItem>, d: Date)
    ensures OnDate(InsertByDate(x, s), d) == (if x.date == d then [x] else []) + OnDate(s, d)
  {
    if s == [] || !Before(s[0].date, x.date) {
      OnDateCons(x, s, d);
    } else {
      var h, t := s[0], s[1..];
      InsertOnDate(x, t, d);
      OnDateCons(h, InsertByDate(x, t), d);
      assert [h] + t == s;
      OnDateCons(h, t, d);
    }
  }

  /** Stability: on every day, the sort keeps the items in their input order. */
  lemma {:induction false} SortStable(s: seq<AnniversaryItem>, d: Date)
    ensures OnDate(SortByDate(s), d) == OnDate(s, d)
  {
    if s != [] {
      SortStable(s[1..], d);
      InsertOnDate(s[0], SortByDate(s[1..]), d);
      OnDateCons(s[0], s[1..], d);
      assert [s[0]] + s[1..] == s;
    }
  }

  /** `(manual + auto).sortedBy { it.date }`. */
  function Combined(manual: seq<AnniversaryItem>, auto: seq<AnniversaryItem>): seq<AnniversaryItem> {
    SortByDate(manual + auto)
  }

  /** The merged list holds exactly the manual and the generated items, sorted by date; items of
      the same day keep their order, the manual ones first. */
  lemma CombinedSpec(manual: seq<AnniversaryItem>, auto: seq<AnniversaryItem>, d: Date)
    ensures SortedByDate(Combined(manual, auto))
    ensures multiset(Combined(manual, auto)) == multiset(manual) + multiset(auto)
    ensures OnDate(Combined(manual, auto), d) == OnDate(manual, d) + OnDate(auto, d)
  {
    SortStable(manual + auto, d);
    FilterAppend(manual, auto, (x: AnniversaryItem) => x.date == d);
  }

  /** The list both screens show: the manual items, and the items generated around their dates. */
  function CombinedFor(events: seq<Event>, profile: Option<Profile>, today: Date): seq<AnniversaryItem> {
    var manual := ManualItems(events);
    Combined(manual, Generated(profile, ManualDates(manual), today))
  }

  /** In a merge of manual items with generated items avoiding their dates, no generated item
      shares its date with a manual one. */
  lemma CombinedKeepsDatesApart(manual: seq<AnniversaryItem>, auto: seq<AnniversaryItem>)
    requires forall m | m in manual :: !m.isAuto
    requires forall a | a in auto :: a.isAuto && a.date !in ManualDates(manual)
    ensures var r := Combined(manual, auto);
            forall a, m | a in r && m in r && a.isAuto && !m.isAuto :: a.date != m.date
  {
    var r := Combined(manual, auto);
    forall a, m | a in r && m in r && a.isAuto && !m.isAuto
      ensures a.date != m.date
    {
      assert a in multiset(r) && m in multiset(r);
      assert a in auto;
      assert m in manual;
    }
  }

  /** No generated item shares its date with a manual one. */
  lemma NoAutoOnManualDate(events: seq<Event>, profile: Option<Profile>, today: Date)
    ensures forall a, m | a in CombinedFor(events, profile, today) && m in CombinedFor(events, profile, today)
                          && a.isAuto && !m.isAuto :: a.date != m.date
  {
    var manual := ManualItems(events);
    var existing := ManualDates(manual);
    var auto := Generated(profile, existing, today);
    ManualItemsExact(events);
    forall a | a in auto ensures a.isAuto && a.date !in existing {
      var i :| 0 <= i < |auto| && auto[i] == a;
      assert IsGenerated(auto[i], Horizon(today), existing);
    }
    CombinedKeepsDatesApart(manual, auto);
  }

  /** Manual items, one per event id, have distinct keys. */
  lemma {:induction false} ItemsOfKeysDistinct(events: seq<Event>)
    requires PairwiseDistinct(events, (e: Event) => e.id)
    ensures KeysDistinct(ItemsOf(events))
  {
    if events != [] {
      var head := match ToItem(events[0]) case Some(item) => [item] case None => [];
      var rest := ItemsOf(events[1..]);
      ItemsOfKeysDistinct(events[1..]);
      ItemsOfExact(events[1..]);
      forall x, y | x in head && y in rest
        ensures x.key != y.key
      {
        var e :| e in events[1..] && ToItem(e) == Some(y);
        var k :| 0 <= k < |events[1..]| && events[1..][k] == e;
        assert events[k + 1] == e && events[0].id != events[k + 1].id;
        ManualKeyInjective(events[0].id, e.id);
      }
      KeysDistinctAppend(head, rest);
    }
  }

  /** Inserting an item with a new key keeps keys distinct. */
  lemma {:induction false} InsertKeepsKeysDistinct(x: AnniversaryItem, s: seq<AnniversaryItem>)
    requires KeysDistinct(s) && forall y | y in s :: y.key != x.key
    ensures KeysDistinct(InsertByDate(x, s))
  {
    if s == [] || !Before(s[0].date, x.date) {
      KeysDistinctAppend([x], s);
    } else {
      assert s == [s[0]] + s[1..];
      KeysDistinctAppend([s[0]], s[1..]);
      InsertKeepsKeysDistinct(x, s[1..]);
      var rest := InsertByDate(x, s[1..]);
      forall y | y in rest
        ensures s[0].key != y.key
      {
        assert y in multiset(rest);
        if y != x {
          var k :| 1 <= k < |s| && s[k] == y;
        }
      }
      KeysDistinctAppend([s[0]], rest);
    }
  }

  /** Sorting keeps keys distinct. */
  lemma {:induction false} SortKeepsKeysDistinct(s: seq<AnniversaryItem>)
    requires KeysDistinct(s)
    ensures KeysDistinct(SortByDate(s))
  {
    if s != [] {
      assert s == [s[0]] + s[1..];
      KeysDistinctAppend([s[0]], s[1..]);
      SortKeepsKeysDistinct(s[1..]);
      forall y | y in SortByDate(s[1..])
        ensures y.key != s[0].key
      {
        assert y in multiset(SortByDate(s[1..]));
        var k :| 1 <= k < |s| && s[k] == y;
      }
      InsertKeepsKeysDistinct(s[0], SortByDate(s[1..]));
    }
  }

  /** With one stored event per id, the manual items have distinct keys, all starting with `manual-`. */
  lemma ManualKeysDistinct(events: seq<Event>)
    requires PairwiseDistinct(events, (e: Event) => e.id)
    ensures KeysDistinct(ManualItems(events))
    ensures forall i :: 0 <= i < |ManualItems(events)| ==> StartsWith(ManualItems(events)[i].key, "manual-")
  {
    FilterKeepsDistinct(events, (e: Event) => e.isAnniversary, (e: Event) => e.id);
    ItemsOfKeysDistinct(Filter(events, (e: Event) => e.isAnniversary));
    ManualItemsExact(events);
    forall i | 0 <= i < |ManualItems(events)|
      ensures StartsWith(ManualItems(events)[i].key, "manual-")
    {
      var item := ManualItems(events)[i];
      assert item in ManualItems(events);
      StartsWithConcat("manual-", IntToString(item.sourceEventId.value));
    }
  }

  /** With one stored event per id (the table's primary key), the merged list never repeats a
      key: manual keys differ by id, generated keys differ among themselves, and the two kinds
      start differently. */
  lemma CombinedKeysDistinct(events: seq<Event>, profile: Option<Profile>, today: Date)
    requires PairwiseDistinct(events, (e: Event) => e.id)
    ensures KeysDistinct(CombinedFor(events, profile, today))
  {
    var manual := ManualItems(events);
    var existing := ManualDates(manual);
    var auto := GeneratedFrom(StartDate(profile), Birthday(profile), existing, today);
    ManualKeysDistinct(events);
    GeneratedKeysDistinct(StartDate(profile), Birthday(profile), existing, today);
    GeneratedKeysAreAuto(StartDate(profile), Birthday(profile), existing, today);
    forall x, y | x in manual && y in auto
      ensures x.key != y.key
    {
      var i :| 0 <= i < |auto| && auto[i] == y;
      var j :| 0 <= j < |manual| && manual[j] == x;
      assert y.key[0] == "auto-"[0] && x.key[0] == "manual-"[0];
    }
    KeysDistinctAppend(manual, auto);
    SortKeepsKeysDistinct(manual + auto);
  }

  // ---------------------------------------------------------------------------------------
  // The filter tabs.
  // ---------------------------------------------------------------------------------------

  datatype FilterTab = ALL | ANNIVERSARY | BIRTHDAY | DATE | IMPORTANT | PAST

  /** The category a category tab selects. */
  function TabCategory(tab: FilterTab): Categories.EventCategory
    requires tab != ALL && tab != PAST
  {
    match tab
    case ANNIVERSARY => Categories.ANNIVERSARY
    case BIRTHDAY => Categories.BIRTHDAY
    case DATE => Categories.DATE
    case IMPORTANT => Categories.IMPORTANT
  }

  /** Whether a tab other than ALL keeps an item. */
  predicate Keeps(tab: FilterTab, today: Date, item: AnniversaryItem)
    requires tab != ALL
  {
    if tab == PAST then Before(item.date, today) else item.category == TabCategory(tab)
  }

  /** `filteredItems`: ALL shows the merged list itself, every other tab filters it. */
  function FilteredItems(combined: seq<AnniversaryItem>, tab: FilterTab, today: Date): seq<AnniversaryItem> {
    if tab == ALL then combined else Filter(combined, (x: AnniversaryItem) => Keeps(tab, today, x))
  }

  /** Every tab shows an order-preserving selection of the merged list: ALL all of it, a category
      tab exactly the items of its category, PAST exactly the items dated before today. */
  lemma FilteredItemsSpec(combined: seq<AnniversaryItem>, tab: FilterTab, today: Date)
    ensures IsSubsequence(FilteredItems(combined, tab, today), combined)
    ensures tab == ALL ==> FilteredItems(combined, tab, today) == combined
    ensures tab == PAST ==> forall x :: x in FilteredItems(combined, tab, today) <==> x in combined && Before(x.date, today)
    ensures tab != ALL && tab != PAST ==>
              forall x :: x in FilteredItems(combined, tab, today) <==> x in combined && x.category == TabCategory(tab)
  {
    if tab == ALL {
      SubsequenceRefl(combined);
    } else {
      FilterIsSubsequence(combined, (x: AnniversaryItem) => Keeps(tab, today, x));
    }
  }

  /** With one stored event per id, the list a tab shows, which the `LazyColumn` keys by
      `it.key`, never repeats a key: the merged list does not, and a tab only drops items. */
  lemma FilteredKeysDistinct(events: seq<Event>, profile: Option<Profile>, today: Date, tab: FilterTab)
    requires PairwiseDistinct(events, (e: Event) => e.id)
    ensures KeysDistinct(FilteredItems(CombinedFor(events, profile, today), tab, today))
  {
    var combined := CombinedFor(events, profile, today);
    CombinedKeysDistinct(events, profile, today);
    if tab != ALL {
      var key := (x: AnniversaryItem) => x.key;
      assert PairwiseDistinct(combined, key);
      FilterKeepsDistinct(combined, (x: AnniversaryItem) => Keeps(tab, today, x), key);
      var shown := FilteredItems(combined, tab, today);
      assert PairwiseDistinct(shown, key);
      assert forall i, j :: 0 <= i < j < |shown| ==> key(shown[i]) == shown[i].key && key(shown[j]) == shown[j].key;
    }
  }

  /** Selecting the same tab again changes nothing. */
  lemma FilteredItemsIdempotent(combined: seq<AnniversaryItem>, tab: FilterTab, today: Date)
    ensures FilteredItems(FilteredItems(combined, tab, today), tab, today) == FilteredItems(combined, tab, today)
  {
    if tab != ALL {
      FilterIdempotent(combined, (x: AnniversaryItem) => Keeps(tab, today, x));
    }
  }
}
