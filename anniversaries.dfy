/**
 * The stored records (data/Event.kt, data/Profile.kt) and the display item both anniversary
 * screens derive from them (`AnniversaryItem` in AnniversaryScreen.kt and the identical
 * `CalendarAnniversaryItem` in CalendarScreen.kt), with the conversion of a stored anniversary
 * into an item and the background-colour rules of the cards and calendar cells.
 */
module Anniversaries {
  import opened Wrappers
  import opened Text
  import opened Dates
  import Categories = EventCategories

  /** A stored event. `category` and `icon` are the fields the screens read from it. */
  datatype Event = Event(
    id: int,
    title: string,
    description: string,
    date: string,
    endDate: string,
    time: string,
    isAnniversary: bool,
    notifyEnabled: bool,
    color: string,
    category: int,
    icon: string)

  /** The partner's profile; only the two date fields take part in the engine. */
  datatype Profile = Profile(
    id: int,
    name: string,
    nickname: string,
    relationshipStartDate: string,
    birthday: string,
    phoneNumber: string,
    mbti: string,
    photoUri: string,
    favorites: string,
    hobbies: string,
    mood: string,
    note: string)

  /** One anniversary as the screens show it: a stored (manual) one or a generated (auto) one. */
  datatype AnniversaryItem = AnniversaryItem(
    key: string,
    title: string,
    description: string,
    date: Date,
    isAuto: bool,
    autoTag: string,
    category: Categories.EventCategory,
    icon: string,
    color: string,
    sourceEventId: Option<int>)

  /** The title shown for an anniversary stored with a blank title. */
  const DefaultTitle: string := "기념일"

  /** The list key of the item a stored event becomes. */
  function ManualKey(id: int): string {
    "manual-" + IntToString(id)
  }

  /** `Event.toAnniversaryItem()` / `Event.toCalendarAnniversaryItem()`: the item for a stored
      event, none when its start date is blank or does not parse. */
  function ToItem(e: Event): (r: Option<AnniversaryItem>)
    ensures r.Some? <==> ToLocalDateOrNull(e.date).Some?
    ensures r.Some? ==> !r.value.isAuto && r.value.sourceEventId == Some(e.id) && r.value.key == ManualKey(e.id)
    ensures r.Some? ==> r.value.date == ToLocalDateOrNull(e.date).value
    ensures r.Some? ==> !IsBlank(r.value.title) && (!IsBlank(e.title) ==> r.value.title == e.title)
    ensures r.Some? ==> (IsBlank(e.title) ==> r.value.title == DefaultTitle) && r.value.description == e.description
    ensures r.Some? ==> r.value.category == Categories.FromId(Some(e.category)) && r.value.icon == e.icon
                        && r.value.color == e.color && r.value.autoTag == ""
  {
    match ToLocalDateOrNull(e.date)
    case None => None
    case Some(d) =>
      assert DefaultTitle[0] == '기';
      Some(AnniversaryItem(ManualKey(e.id), IfBlank(e.title, DefaultTitle), e.description, d,
                           false, "", Categories.FromId(Some(e.category)), e.icon, e.color, Some(e.id)))
  }

  /** Different event ids give different item keys. */
  lemma ManualKeyInjective(a: int, b: int)
    ensures ManualKey(a) == ManualKey(b) <==> a == b
  {
    if ManualKey(a) == ManualKey(b) {
      PrefixCancel("manual-", IntToString(a), IntToString(b));
      IntToStringInjective(a, b);
    }
  }

  /** No two items share a list key (the `key` of the `LazyColumn` rows must be unique). */
  predicate KeysDistinct(items: seq<AnniversaryItem>) {
    forall i, j :: 0 <= i < j < |items| ==> items[i].key != items[j].key
  }

  /** Two lists of distinct keys, with no key in common, append to a list of distinct keys. */
  lemma KeysDistinctAppend(a: seq<AnniversaryItem>, b: seq<AnniversaryItem>)
    requires KeysDistinct(a) && KeysDistinct(b)
    requires forall x, y | x in a && y in b :: x.key != y.key
    ensures KeysDistinct(a + b)
  {
    forall i, j | 0 <= i < j < |a + b|
      ensures (a + b)[i].key != (a + b)[j].key
    {
      if j < |a| {
        assert (a + b)[i] == a[i] && (a + b)[j] == a[j];
      } else if i < |a| {
        assert (a + b)[i] == a[i] && (a + b)[j] == b[j - |a|];
        assert a[i] in a && b[j - |a|] in b;
      } else {
        assert (a + b)[i] == b[i - |a|] && (a + b)[j] == b[j - |a|];
      }
    }
  }

  // ---------------------------------------------------------------------------------------
  // Background colours, as ARGB integers. `android.graphics.Color.parseColor` is platform code:
  // it is the parameter `parseColor`, none standing for the exception it throws.
  // ---------------------------------------------------------------------------------------

  /** Pink: every generated anniversary, and the colour a new anniversary starts with. */
  const AutoColor: int := 0xFFF5E6F0
  /** Lavender: the BIRTHDAY category. */
  const BirthdayColor: int := 0xFFF0E6F5
  /** Beige: every other category, and the final fallback. */
  const DefaultColor: int := 0xFFF5F0E6

  /** The colour a category falls back to. */
  function CategoryColor(c: Categories.EventCategory): int {
    if c == Categories.BIRTHDAY then BirthdayColor else DefaultColor
  }

  /** The card background of an item (`AnniversaryCard` and `CalendarEventCard`): pink for a
      generated one, the parsed colour for a stored one with a colour, beige when that colour does
      not parse, and the category colour when it has none. */
  function CardColor(item: AnniversaryItem, parseColor: string -> Option<int>): (argb: int)
    ensures item.isAuto ==> argb == AutoColor
    ensures !item.isAuto && IsBlank(item.color) ==> argb == CategoryColor(item.category)
    ensures !item.isAuto && !IsBlank(item.color) ==> argb == parseColor(item.color).GetOr(DefaultColor)
  {
    if item.isAuto then AutoColor
    else if !IsBlank(item.color) then
      match parseColor(item.color)
      case Some(c) => c
      case None => DefaultColor
    else CategoryColor(item.category)
  }

  /** The calendar-cell background an item gives its day (`dateColors`): as the card colour,
      except that a colour that does not parse falls back to the category colour. */
  function CellColor(item: AnniversaryItem, parseColor: string -> Option<int>): (argb: int)
    ensures item.isAuto ==> argb == AutoColor
    ensures !item.isAuto && IsBlank(item.color) ==> argb == CategoryColor(item.category)
    ensures !item.isAuto && !IsBlank(item.color) ==> argb == parseColor(item.color).GetOr(CategoryColor(item.category))
  {
    if item.isAuto then AutoColor
    else if !IsBlank(item.color) then
      match parseColor(item.color)
      case Some(c) => c
      case None => CategoryColor(item.category)
    else CategoryColor(item.category)
  }

  /** The card and the calendar cell of the same item disagree exactly for a stored birthday whose
      colour text does not parse: the card is beige and the cell lavender. */
  lemma CardAndCellColorsDiffer(item: AnniversaryItem, parseColor: string -> Option<int>)
    ensures CardColor(item, parseColor) != CellColor(item, parseColor) <==>
            !item.isAuto && !IsBlank(item.color) && parseColor(item.color).None? && item.category == Categories.BIRTHDAY
    ensures CardColor(item, parseColor) != CellColor(item, parseColor) ==>
            CardColor(item, parseColor) == DefaultColor && CellColor(item, parseColor) == BirthdayColor
  {
  }

  /** Every background is one of the three fixed colours or the item's own parsed colour. */
  lemma ColorsComeFromPaletteOrItem(item: AnniversaryItem, parseColor: string -> Option<int>)
    ensures var c := CardColor(item, parseColor);
            c in {AutoColor, BirthdayColor, DefaultColor} || parseColor(item.color) == Some(c)
    ensures var c := CellColor(item, parseColor);
            c in {AutoColor, BirthdayColor, DefaultColor} || parseColor(item.color) == Some(c)
  {
  }
}
