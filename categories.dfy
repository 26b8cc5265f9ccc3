/**
 * `EventCategory` (data/EventCategory.kt): the four kinds of anniversary, stored as integer ids,
 * and the total lookup `fromId` that falls back to ANNIVERSARY. The constructor names are the
 * Kotlin enum constants.
 */
module EventCategories {
  import opened Wrappers

  datatype EventCategory = ANNIVERSARY | BIRTHDAY | DATE | IMPORTANT

  function Id(c: EventCategory): int {
    match c
    case ANNIVERSARY => 1
    case BIRTHDAY => 2
    case DATE => 3
    case IMPORTANT => 4
  }

  function DisplayName(c: EventCategory): string {
    match c
    case ANNIVERSARY => "기념일"
    case BIRTHDAY => "생일"
    case DATE => "데이트"
    case IMPORTANT => "중요한 날"
  }

  /** `values()`, in declaration order. */
  const Values: seq<EventCategory> := [EventCategory.ANNIVERSARY, EventCategory.BIRTHDAY, EventCategory.DATE, EventCategory.IMPORTANT]

  /** `cs.firstOrNull { it.id == id }`. */
  function FirstWithId(cs: seq<EventCategory>, id: Option<int>): (r: Option<EventCategory>)
    ensures r.Some? ==> r.value in cs && id == Some(Id(r.value))
    ensures r.None? <==> forall c :: c in cs ==> id != Some(Id(c))
  {
    if cs == [] then None
    else if id == Some(Id(cs[0])) then Some(cs[0])
    else FirstWithId(cs[1..], id)
  }

  /** `EventCategory.fromId(id)`: the category with that id, ANNIVERSARY for null or an unknown id. */
  function FromId(id: Option<int>): (c: EventCategory)
  {
    FirstWithId(Values, id).GetOr(EventCategory.ANNIVERSARY)
  }

  /** `fromId` is total: it finds the category whose id it is given and falls back to ANNIVERSARY
      exactly for null and for ids outside 1..4. */
  lemma FromIdSpec(id: Option<int>)
    ensures id.Some? && 1 <= id.value <= 4 ==> Id(FromId(id)) == id.value
    ensures id.None? || !(1 <= id.value <= 4) ==> FromId(id) == EventCategory.ANNIVERSARY
  {
    if id.Some? && 1 <= id.value <= 4 {
      var c := match id.value case 1 => EventCategory.ANNIVERSARY case 2 => EventCategory.BIRTHDAY
               case 3 => EventCategory.DATE case _ => EventCategory.IMPORTANT;
      assert c in Values && id == Some(Id(c));
    }
  }

  /** Round trip: looking a category up by its own id gives it back. */
  lemma FromIdRoundTrip(c: EventCategory)
    ensures FromId(Some(Id(c))) == c
  {
    assert c in Values;
  }

  /** The ids are pairwise distinct, so the first match of `firstOrNull` is the only one. */
  lemma IdsDistinct(c: EventCategory, d: EventCategory)
    ensures Id(c) == Id(d) <==> c == d
  {
  }

  /** Every unknown id resolves like id 1. */
  lemma UnknownIdIsFirst(x: int)
    requires !(1 <= x <= 4)
    ensures FromId(Some(x)) == FromId(Some(1)) && FromId(None) == FromId(Some(1))
  {
    FromIdSpec(Some(x));
    FromIdSpec(None);
    FromIdRoundTrip(EventCategory.ANNIVERSARY);
  }
}
