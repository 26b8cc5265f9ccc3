/**
 * `AnniversaryIcon` (ui/screens/anniversary/AnniversaryIcons.kt): the eleven anniversary icons with
 * their string ids, and the total lookup `fromId` that falls back to CAKE. Drawable resources and
 * labels are display data and are not modelled.
 */
module AnniversaryIcons {
  import opened Wrappers

  datatype AnniversaryIcon =
    CAKE | BALLOON | HEART | STAR | FOOD | DRINK | MOVIE | MUSIC | HOBBY | CHAT | BURGER

  function Id(i: AnniversaryIcon): string {
    match i
    case CAKE => "cake"
    case BALLOON => "balloon"
    case HEART => "heart"
    case STAR => "star"
    case FOOD => "food"
    case DRINK => "drink"
    case MOVIE => "movie"
    case MUSIC => "music"
    case HOBBY => "hobby"
    case CHAT => "chat"
    case BURGER => "burger"
  }

  /** `values()`, in declaration order. */
  const Values: seq<AnniversaryIcon> :=
    [CAKE, BALLOON, HEART, STAR, FOOD, DRINK, MOVIE, MUSIC, HOBBY, CHAT, BURGER]

  /** `icons.firstOrNull { it.id == id }`. */
  function FirstWithId(icons: seq<AnniversaryIcon>, id: Option<string>): (r: Option<AnniversaryIcon>)
    ensures r.Some? ==> r.value in icons && id == Some(Id(r.value))
    ensures r.None? <==> forall i :: i in icons ==> id != Some(Id(i))
  {
    if icons == [] then None
    else if id == Some(Id(icons[0])) then Some(icons[0])
    else FirstWithId(icons[1..], id)
  }

  /** `AnniversaryIcon.fromId(id)`: the icon with that id, CAKE for null or an unknown id. */
  function FromId(id: Option<string>): AnniversaryIcon {
    FirstWithId(Values, id).GetOr(CAKE)
  }

  /** The ids are pairwise distinct. */
  lemma IdsDistinct(i: AnniversaryIcon, j: AnniversaryIcon)
    ensures Id(i) == Id(j) <==> i == j
  {
  }

  /** Round trip: looking an icon up by its own id gives it back. */
  lemma FromIdRoundTrip(i: AnniversaryIcon)
    ensures FromId(Some(Id(i))) == i
  {
    assert i in Values;
  }

  /** `fromId` is total and falls back to CAKE exactly for null and for ids no icon has. */
  lemma FromIdSpec(id: Option<string>)
    ensures (exists i :: id == Some(Id(i))) ==> id == Some(Id(FromId(id)))
    ensures (forall i :: id != Some(Id(i))) ==> FromId(id) == CAKE
  {
    if i :| id == Some(Id(i)) {
      assert i in Values;
    }
  }

  /** The icon ids the generator writes resolve as intended. */
  lemma GeneratorIconIds()
    ensures FromId(Some("cake")) == CAKE && FromId(Some("balloon")) == BALLOON
  {
    FromIdRoundTrip(CAKE);
    FromIdRoundTrip(BALLOON);
  }
}
