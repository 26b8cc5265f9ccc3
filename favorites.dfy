/**
 * The favourites of one category (ui/screens/favorites/CategoryDetailScreen.kt): the category
 * title, the icon a favourite shows (stored in its `photoUri` as `icon:<name>`), the add/edit
 * dialog's save rule, the insert-or-update decision and the screen state its handlers update.
 */
module Favorites {
  import opened Wrappers
  import opened Text

  /** A stored favourite (data/Favorite.kt). */
  datatype Favorite = Favorite(
    id: int,
    category: string,
    title: string,
    description: string,
    photoUri: string,
    isDislike: bool)

  // ---------------------------------------------------------------------------------------
  // Category names.
  // ---------------------------------------------------------------------------------------

  /** `categoryNames`: the Korean title of the built-in category ids. */
  const CategoryNames: map<string, string> := map[
    "food" := "음식", "drinks" := "음료", "music" := "음악", "movies" := "영화",
    "travel" := "여행", "gifts" := "선물", "hobbies" := "취미", "words" := "말 / 표현"]

  /** `categoryNames[categoryId] ?: categoryId`. */
  function CategoryName(categoryId: string): (name: string)
    ensures categoryId in CategoryNames ==> name == CategoryNames[categoryId]
    ensures categoryId !in CategoryNames ==> name == categoryId
  {
    if categoryId in CategoryNames then CategoryNames[categoryId] else categoryId
  }

  /** A custom category is titled by its own id; the built-in ones are not. */
  lemma CategoryNameFallback(categoryId: string)
    ensures CategoryName(categoryId) == categoryId <==> categoryId !in CategoryNames
  {
  }

  // ---------------------------------------------------------------------------------------
  // Icons.
  // ---------------------------------------------------------------------------------------

  /** The names of `availableIcons`, in order; an icon is identified by its name. */
  const AvailableIcons: seq<string> := [
    "Restaurant", "LocalCafe", "MusicNote", "Movie", "LocationOn", "CardGiftcard",
    "SportsEsports", "ChatBubbleOutline", "Favorite", "Star", "EmojiEmotions", "Book",
    "Palette", "SportsSoccer", "DirectionsRun", "CameraAlt"]

  /** `Icons.Default.Favorite`, the icon of a favourite without a usable icon. */
  const DefaultIcon: string := "Favorite"

  const IconPrefix: string := "icon:"

  /** `availableIcons.find { it.name == name }`. */
  function FindIcon(icons: seq<string>, name: string): (r: Option<string>)
    ensures r.Some? <==> name in icons
    ensures r.Some? ==> r.value == name
  {
    if icons == [] then None
    else if icons[0] == name then Some(icons[0])
    else FindIcon(icons[1..], name)
  }

  /** `getIconFromUri`: the icon named after `icon:`, and Favorite for an empty text, an unknown
      name or any other text. */
  function IconFromUri(uri: string): (icon: string)
    ensures icon in AvailableIcons
  {
    if uri == [] then DefaultIcon
    else if StartsWith(uri, IconPrefix) then FindIcon(AvailableIcons, RemovePrefix(uri, IconPrefix)).GetOr(DefaultIcon)
    else DefaultIcon
  }

  /** What `getIconFromUri` gives for each kind of text. */
  lemma IconFromUriSpec(uri: string, name: string)
    ensures IconFromUri("") == DefaultIcon
    ensures IconFromUri(IconPrefix + name) == if name in AvailableIcons then name else DefaultIcon
    ensures uri != "" && !StartsWith(uri, IconPrefix) ==> IconFromUri(uri) == DefaultIcon
  {
    StartsWithConcat(IconPrefix, name);
    assert RemovePrefix(IconPrefix + name, IconPrefix) == name;
  }

  /** The `photoUri` the dialog stores for the chosen icon name: `icon:<name>`, or nothing. */
  function IconUri(name: string): (uri: string)
    ensures name == "" <==> uri == ""
    ensures name != "" ==> StartsWith(uri, IconPrefix)
  {
    if name != "" then (StartsWithConcat(IconPrefix, name); IconPrefix + name) else ""
  }

  /** `photoUri.removePrefix("icon:")`: the icon name the dialog reopens with. */
  function IconName(photoUri: string): string {
    RemovePrefix(photoUri, IconPrefix)
  }

  /** Round trip: reopening a saved favourite shows the icon name that was chosen. */
  lemma IconNameRoundTrip(name: string)
    ensures IconName(IconUri(name)) == name
  {
  }

  /** The stored text shows the chosen icon, or Favorite when none was chosen. */
  lemma IconUriShowsIcon(name: string)
    ensures IconFromUri(IconUri(name)) == if name in AvailableIcons then name else DefaultIcon
  {
    if name == "" {
      assert forall i :: 0 <= i < |AvailableIcons| ==> |AvailableIcons[i]| > 0;
    } else {
      IconFromUriSpec("", name);
    }
  }

  // ---------------------------------------------------------------------------------------
  // The add/edit dialog.
  // ---------------------------------------------------------------------------------------

  /** The dialog's fields: the title text and the chosen icon name. */
  datatype DialogFields = DialogFields(title: string, iconName: string)

  /** The fields the dialog opens with: empty for a new favourite, the favourite's otherwise. */
  function OpenDialog(favorite: Option<Favorite>): (f: DialogFields)
    ensures favorite.None? ==> f == DialogFields("", "")
    ensures favorite.Some? ==> f.title == favorite.value.title && f.iconName == IconName(favorite.value.photoUri)
  {
    match favorite
    case None => DialogFields("", "")
    case Some(fav) => DialogFields(fav.title, IconName(fav.photoUri))
  }

  /** The save button and the keyboard's Done action: nothing for a blank title, otherwise a
      favourite of this category with the title as typed, the chosen icon, the edited favourite's
      id (0 for a new one) and an empty description. */
  function SaveDialog(categoryId: string, isDislike: bool, favorite: Option<Favorite>, fields: DialogFields)
    : (r: Option<Favorite>)
    ensures r.None? <==> IsBlank(fields.title)
    ensures r.Some? ==> r.value.title == fields.title && r.value.category == categoryId
                        && r.value.photoUri == IconUri(fields.iconName) && r.value.description == ""
                        && r.value.isDislike == isDislike
    ensures r.Some? ==> r.value.id == if favorite.Some? then favorite.value.id else 0
  {
    if IsBlank(fields.title) then None
    else Some(Favorite(if favorite.Some? then favorite.value.id else 0, categoryId, fields.title, "",
                       IconUri(fields.iconName), isDislike))
  }

  /** Saving an edit untouched keeps the favourite's title and icon name, and its id. */
  lemma ReopenedEditKeepsFields(categoryId: string, isDislike: bool, fav: Favorite)
    requires !IsBlank(fav.title) && fav.photoUri == IconUri(IconName(fav.photoUri))
    ensures var r := SaveDialog(categoryId, isDislike, Some(fav), OpenDialog(Some(fav)));
            r.Some? && r.value.id == fav.id && r.value.title == fav.title && r.value.photoUri == fav.photoUri
  {
  }

  // ---------------------------------------------------------------------------------------
  // Saving.
  // ---------------------------------------------------------------------------------------

  /** The write `onSaveFavorite` launches on the database. */
  datatype StoreOp = Insert(favorite: Favorite) | Update(favorite: Favorite)

  /** `onSaveFavorite`'s decision: the favourite takes the screen's like/dislike mode, and is
      inserted when its id is 0 (a new one) and updated otherwise. */
  function SaveOp(favorite: Favorite, isDislike: bool): (op: StoreOp)
    ensures op.favorite == favorite.(isDislike := isDislike)
    ensures op.Insert? <==> favorite.id == 0
  {
    var toSave := favorite.(isDislike := isDislike);
    if toSave.id == 0 then Insert(toSave) else Update(toSave)
  }

  /** A favourite saved from the dialog is inserted exactly when no favourite was being edited
      (or the edited one has id 0), and it is never filed under the other mode. */
  lemma DialogSaveOp(categoryId: string, isDislike: bool, favorite: Option<Favorite>, fields: DialogFields)
    requires !IsBlank(fields.title)
    ensures var op := SaveOp(SaveDialog(categoryId, isDislike, favorite, fields).value, isDislike);
            (op.Insert? <==> favorite.None? || favorite.value.id == 0)
            && op.favorite.isDislike == isDislike && op.favorite.category == categoryId
            && (op.Update? ==> op.favorite.id == favorite.value.id)
  {
  }

  // ---------------------------------------------------------------------------------------
  // Memos.
  // ---------------------------------------------------------------------------------------

  /** `list.associate { it.id to it.description }`: a later favourite with the same id wins. */
  function Associate(list: seq<Favorite>): (m: map<int, string>)
    ensures m.Keys == set f | f in list :: f.id
  {
    if list == [] then map[]
    else Associate(list[..|list| - 1])[list[|list| - 1].id := list[|list| - 1].description]
  }

  /** With distinct ids, every favourite's memo starts as its description. */
  lemma {:induction false} AssociateDescriptions(list: seq<Favorite>, f: Favorite)
    requires forall i, j :: 0 <= i < j < |list| ==> list[i].id != list[j].id
    requires f in list
    ensures f.id in Associate(list) && Associate(list)[f.id] == f.description
  {
    var init, last := list[..|list| - 1], list[|list| - 1];
    assert list == init + [last];
    if f != last {
      assert f in init;
      var i :| 0 <= i < |init| && init[i] == f;
      assert list[i] == f && list[|list| - 1] == last;
      AssociateDescriptions(init, f);
    }
  }

  /** `memoTexts[favorite.id] ?: favorite.description`: the memo a card shows. */
  function CurrentMemo(memoTexts: map<int, string>, favorite: Favorite): (memo: string)
    ensures favorite.id in memoTexts ==> memo == memoTexts[favorite.id]
    ensures favorite.id !in memoTexts ==> memo == favorite.description
  {
    if favorite.id in memoTexts then memoTexts[favorite.id] else favorite.description
  }

  // ---------------------------------------------------------------------------------------
  // The screen's state.
  // ---------------------------------------------------------------------------------------

  /** The state variables of one category's screen and the handlers that reassign them. */
  class CategoryDetail {
    const categoryId: string
    const isDislike: bool
    var favorites: seq<Favorite>
    var isLoading: bool
    var showAddDialog: bool
    var isEditMode: bool
    var editingFavorite: Option<Favorite>
    var memoTexts: map<int, string>

    /** A favourite is only being edited while the dialog is open. No handler's result depends
        on it: it documents the screen's state, and every handler keeps it. */
    predicate Valid()
      reads this
    {
      editingFavorite.Some? ==> showAddDialog
    }

    constructor (categoryId: string, isDislike: bool)
      ensures Valid()
      ensures this.categoryId == categoryId && this.isDislike == isDislike
      ensures favorites == [] && isLoading && !showAddDialog && !isEditMode
      ensures editingFavorite.None? && memoTexts == map[]
    {
      this.categoryId := categoryId;
      this.isDislike := isDislike;
      favorites := [];
      isLoading := true;
      showAddDialog := false;
      isEditMode := false;
      editingFavorite := None;
      memoTexts := map[];
    }

    /** The title of the screen's category. */
    function Title(): (name: string)
      reads this
      ensures categoryId in CategoryNames ==> name == CategoryNames[categoryId]
      ensures categoryId !in CategoryNames ==> name == categoryId
    {
      CategoryName(categoryId)
    }

    /** The database delivered `list`: it is shown, and every memo restarts from its description. */
    method OnFavoritesLoaded(list: seq<Favorite>)
      requires Valid()
      modifies this
      ensures Valid()
      ensures favorites == list && !isLoading && memoTexts == Associate(list)
      ensures showAddDialog == old(showAddDialog) && isEditMode == old(isEditMode)
      ensures editingFavorite == old(editingFavorite)
    {
      favorites := list;
      isLoading := false;
      memoTexts := Associate(list);
    }

    /** The edit button of the top bar switches edit mode. */
    method ToggleEditMode()
      requires Valid()
      modifies this
      ensures Valid()
      ensures isEditMode == !old(isEditMode)
      ensures favorites == old(favorites) && isLoading == old(isLoading) && showAddDialog == old(showAddDialog)
      ensures editingFavorite == old(editingFavorite) && memoTexts == old(memoTexts)
    {
      isEditMode := !isEditMode;
    }

    /** The add button opens the dialog. */
    method OnAddClicked()
      requires Valid()
      modifies this
      ensures Valid()
      ensures showAddDialog
      ensures favorites == old(favorites) && isLoading == old(isLoading) && isEditMode == old(isEditMode)
      ensures editingFavorite == old(editingFavorite) && memoTexts == old(memoTexts)
    {
      showAddDialog := true;
    }

    /** Tapping a card's edit action opens the dialog on it, in edit mode only. */
    method OnEdit(favorite: Favorite)
      requires Valid()
      modifies this
      ensures Valid()
      ensures old(isEditMode) ==> editingFavorite == Some(favorite) && showAddDialog
      ensures !old(isEditMode) ==> editingFavorite == old(editingFavorite) && showAddDialog == old(showAddDialog)
      ensures favorites == old(favorites) && isLoading == old(isLoading) && isEditMode == old(isEditMode)
      ensures memoTexts == old(memoTexts)
    {
      if isEditMode {
        editingFavorite := Some(favorite);
        showAddDialog := true;
      }
    }

    /** Dismissing the dialog closes it and forgets the edited favourite. */
    method OnDismiss()
      requires Valid()
      modifies this
      ensures Valid()
      ensures !showAddDialog && editingFavorite.None?
      ensures favorites == old(favorites) && isLoading == old(isLoading) && isEditMode == old(isEditMode)
      ensures memoTexts == old(memoTexts)
    {
      showAddDialog := false;
      editingFavorite := None;
    }

    /** `onSaveFavorite`: the write to launch is returned, and the dialog closes. */
    method OnSaveFavorite(favorite: Favorite) returns (op: StoreOp)
      requires Valid()
      modifies this
      ensures Valid()
      ensures op == SaveOp(favorite, isDislike)
      ensures !showAddDialog && editingFavorite.None?
      ensures favorites == old(favorites) && isLoading == old(isLoading) && isEditMode == old(isEditMode)
      ensures memoTexts == old(memoTexts)
    {
      op := SaveOp(favorite, isDislike);
      showAddDialog := false;
      editingFavorite := None;
    }

    /** `onMemoChange` and `onSaveMemo`: the memo of that favourite becomes `memo`, and no other
        memo changes. */
    method OnMemoChange(favorite: Favorite, memo: string)
      requires Valid()
      modifies this
      ensures Valid()
      ensures memoTexts == old(memoTexts)[favorite.id := memo]
      ensures CurrentMemo(memoTexts, favorite) == memo
      ensures forall f: Favorite | f.id != favorite.id :: CurrentMemo(memoTexts, f) == CurrentMemo(old(memoTexts), f)
      ensures favorites == old(favorites) && isLoading == old(isLoading) && isEditMode == old(isEditMode)
      ensures showAddDialog == old(showAddDialog) && editingFavorite == old(editingFavorite)
    {
      memoTexts := memoTexts[favorite.id := memo];
    }
  }

  /** A memo edit changes what one card shows and leaves every other card's memo alone. */
  lemma MemoEditIsLocal(memoTexts: map<int, string>, favorite: Favorite, memo: string, other: Favorite)
    ensures CurrentMemo(memoTexts[favorite.id := memo], favorite) == memo
    ensures other.id != favorite.id ==> CurrentMemo(memoTexts[favorite.id := memo], other) == CurrentMemo(memoTexts, other)
  {
  }
}
