/**
 * Adding and editing a stored anniversary (AddAnniversaryDialog and its two callers in
 * AnniversaryScreen.kt): the state the dialog opens with, the check its save button makes, and
 * the record that is inserted or updated.
 */
module AnniversaryEditing {
  import opened Wrappers
  import opened Text
  import opened Dates
  import opened Anniversaries
  import opened Seqs
  import opened Reconciliation
  import Categories = EventCategories
  import Icons = AnniversaryIcons

  /** What the dialog holds: the text fields, the picked date and the three pickers. */
  datatype DialogState = DialogState(
    title: string,
    memo: string,
    date: Option<Date>,
    category: Categories.EventCategory,
    icon: Icons.AnniversaryIcon,
    color: string)

  /** The hex text of the first palette colour (pink), selected when the event has no colour. */
  const FirstPaletteColor: string := "#F5E6F0"

  /** The state the dialog opens with: empty for a new anniversary, the event's fields for an
      edit. The category and icon go through the total lookups, null giving the defaults. */
  function InitialState(event: Option<Event>): (st: DialogState)
    ensures event.None? ==> st == DialogState("", "", None, Categories.ANNIVERSARY, Icons.CAKE, FirstPaletteColor)
    ensures event.Some? ==> st.title == event.value.title && st.memo == event.value.description
                            && st.date == ToLocalDateOrNull(event.value.date)
    ensures event.Some? ==> st.category == Categories.FromId(Some(event.value.category))
                            && st.icon == Icons.FromId(Some(event.value.icon))
                            && st.color == if IsBlank(event.value.color) then FirstPaletteColor else event.value.color
    ensures !IsBlank(st.color)
  {
    assert FirstPaletteColor[0] == '#';
    match event
    case None =>
      Categories.FromIdSpec(None);
      Icons.FromIdSpec(None);
      DialogState("", "", None, Categories.FromId(None), Icons.FromId(None), FirstPaletteColor)
    case Some(e) =>
      DialogState(e.title, e.description, ToLocalDateOrNull(e.date), Categories.FromId(Some(e.category)),
                  Icons.FromId(Some(e.icon)), if !IsBlank(e.color) then e.color else FirstPaletteColor)
  }

  /** What the save button hands to `onSave`. */
  datatype SaveRequest = SaveRequest(
    title: string,
    date: Date,
    memo: string,
    category: Categories.EventCategory,
    icon: Icons.AnniversaryIcon,
    color: string)

  /** The save button: refuses (shows the error) when the title is blank or no date is picked,
      otherwise saves the trimmed title and memo with the picked values. */
  function ConfirmSave(st: DialogState): (r: Option<SaveRequest>)
    ensures r.None? <==> IsBlank(st.title) || st.date.None?
    ensures r.Some? ==> r.value.date == st.date.value && r.value.category == st.category
                        && r.value.icon == st.icon && r.value.color == st.color
    ensures r.Some? ==> r.value.title == Trim(st.title) && r.value.memo == Trim(st.memo)
    ensures r.Some? ==> !IsBlank(r.value.title) && Trim(r.value.title) == r.value.title
    ensures r.Some? ==> Trim(r.value.memo) == r.value.memo
  {
    if IsBlank(st.title) || st.date.None? then None
    else
      BlankIffTrimEmpty(st.title);
      BlankIffTrimEmpty(Trim(st.title));
      TrimIdempotent(st.title);
      TrimIdempotent(st.memo);
      Some(SaveRequest(Trim(st.title), st.date.value, Trim(st.memo), st.category, st.icon, st.color))
  }

  /** Saving again from the fields a save produced gives the same request: the saved text is
      already trimmed, and a saved title is never blank. */
  lemma ConfirmSaveIdempotent(st: DialogState)
    requires ConfirmSave(st).Some?
    ensures var req := ConfirmSave(st).value;
            ConfirmSave(DialogState(req.title, req.memo, Some(req.date), req.category, req.icon, req.color)) == Some(req)
  {
  }

  /** The record inserted for a new anniversary; every other field keeps its default. */
  function NewEvent(req: SaveRequest): Event {
    Event(0, req.title, req.memo, FormatIsoDate(req.date), "", "", true, false, req.color,
          Categories.Id(req.category), Icons.Id(req.icon))
  }

  /** `event.copy(...)`: the edited record. */
  function EditedEvent(e: Event, req: SaveRequest): (r: Event)
    ensures r.id == e.id && r.endDate == e.endDate && r.time == e.time
    ensures r.isAnniversary == e.isAnniversary && r.notifyEnabled == e.notifyEnabled
    ensures r.title == req.title && r.description == req.memo && r.date == FormatIsoDate(req.date)
    ensures r.category == Categories.Id(req.category) && r.icon == Icons.Id(req.icon) && r.color == req.color
  {
    e.(title := req.title, description := req.memo, date := FormatIsoDate(req.date),
       category := Categories.Id(req.category), icon := Icons.Id(req.icon), color := req.color)
  }

  /** A new record reads back as the anniversary that was entered: its item has the entered
      title, memo, date, category, icon and colour. */
  lemma NewEventReadsBack(req: SaveRequest)
    requires !IsBlank(req.title) && req.date.year <= 9999
    ensures var item := ToItem(NewEvent(req));
            item.Some? && !item.value.isAuto && item.value.title == req.title
            && item.value.description == req.memo && item.value.date == req.date
            && item.value.category == req.category && Icons.FromId(Some(item.value.icon)) == req.icon
            && item.value.color == req.color
    ensures NewEvent(req).isAnniversary && ManualItems([NewEvent(req)]) == [ToItem(NewEvent(req)).value]
  {
    ParseFormat(req.date);
    FormatNotBlank(req.date);
    Categories.FromIdRoundTrip(req.category);
    Icons.FromIdRoundTrip(req.icon);
    var e := NewEvent(req);
    assert Filter([e], (x: Event) => x.isAnniversary) == [e];
    assert ItemsOf([e]) == [ToItem(e).value] + ItemsOf([]);
  }

  /** An edited record reads back the same way, under its own id. */
  lemma EditedEventReadsBack(e: Event, req: SaveRequest)
    requires !IsBlank(req.title) && req.date.year <= 9999
    ensures var item := ToItem(EditedEvent(e, req));
            item.Some? && item.value.sourceEventId == Some(e.id) && item.value.title == req.title
            && item.value.description == req.memo && item.value.date == req.date
            && item.value.category == req.category && Icons.FromId(Some(item.value.icon)) == req.icon
            && item.value.color == req.color
  {
    ParseFormat(req.date);
    FormatNotBlank(req.date);
    Categories.FromIdRoundTrip(req.category);
    Icons.FromIdRoundTrip(req.icon);
  }

  /** Reopening an edited anniversary shows what was saved; a blank colour reopens as pink. */
  lemma ReopenShowsSaved(e: Event, req: SaveRequest)
    requires req.date.year <= 9999
    ensures InitialState(Some(EditedEvent(e, req)))
            == DialogState(req.title, req.memo, Some(req.date), req.category, req.icon,
                           if IsBlank(req.color) then FirstPaletteColor else req.color)
  {
    ParseFormat(req.date);
    FormatNotBlank(req.date);
    Categories.FromIdRoundTrip(req.category);
    Icons.FromIdRoundTrip(req.icon);
  }
}
