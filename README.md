# Anniversary engine of a couple's diary app, in Dafny

This project models the logic core of an Android diary app for couples, written in Kotlin, and two
Python scripts that fill in its translation table. It then proves properties of that model.

The app keeps stored events and a partner profile. From them it derives the list of anniversaries
it shows, in two places:

- the anniversary screen (`AnniversaryScreen.kt`);
- the calendar screen (`CalendarScreen.kt`).

The two screens hold near-identical copies of the engine. The calendar's `generateAutoAnniversaries`
(CalendarScreen.kt:737-822) is the anniversary screen's (AnniversaryScreen.kt:676-761) line for
line, 61 lines further down. `toCalendarAnniversaryItem` (CalendarScreen.kt:722-735) is
`toAnniversaryItem` (AnniversaryScreen.kt:661-674). Each copy pair is modelled once. The table cites
one copy.

Modules, one per concern:

- `Dates`: a proleptic Gregorian `Date`, with:
  - the `isBefore`/`isAfter` order;
  - `plusDays` and `plusYears`. `plusYears` clamps an invalid day as `java.time` does.
  - `LocalDate.of` as an option;
  - the day of the week;
  - the strict `YYYY-MM-DD` parse behind `toLocalDateOrNull`, its formatter and their round trip.
- `Text`: Kotlin's `isBlank`, `trim` and `ifBlank`, `removePrefix`, Python's `strip`, and decimal
  rendering of ids.
- `EventCategories` and `AnniversaryIcons`: the two enums and their total `fromId` lookups.
- `Anniversaries`:
  - the stored `Event` and `Profile`;
  - the display item;
  - `toAnniversaryItem`;
  - the card and calendar-cell colour rules. `Color.parseColor` is a parameter.
- `AutoAnniversaries`: `generateAutoAnniversaries`. It is three `while` loops that append to a
  result list: yearly anniversaries, 100-day milestones and the partner's birthday. They run up to a
  horizon two years after today, and dates already held by a stored anniversary are skipped. Each
  loop is a method proved equal to a recursive stream function. Lemmas then state which items each
  stream holds.
- `Reconciliation`:
  - the manual items;
  - the stable date sort of manual plus generated items (an insertion sort, proved a permutation,
    sorted and stable);
  - the filter tabs.
- `CalendarProjection`:
  - `eventsByDate`: a map filled day by day over each event's inclusive range, then with the
    generated items;
  - `dateColors`;
  - `selectedDateEvents`, with its `distinctBy(sourceEventId)` step;
  - the selection toggle.
- `CalendarGrid`: the 6×7 Sunday-first month grid, built by the nested `for` loops of
  `CalendarView`, and the padding and highlight shape of each day cell.
- `AnniversaryEditing`:
  - the state `AddAnniversaryDialog` opens with;
  - its save check (blank title or no date refuses; title and memo are trimmed);
  - the inserted and the updated event.
- `Favorites`:
  - the favourites screen of one category (`CategoryDetailScreen.kt`), as a class whose handlers
    update its state;
  - the `icon:` URI encoding and `getIconFromUri`;
  - the dialog's save value;
  - the insert-or-update rule;
  - the memo map.
- `TranslationTables`: an insertion-ordered Python dictionary, what a literal with repeated keys
  builds, and the quoting of one CSV field (RFC 4180, section 2, items 6 and 7).
- `UpdateTranslations` and `AddEnglishTranslations`: `translate_text` and the row loop of
  `process_csv` for each script. The first script falls back to the first contained key. The
  second script's fallback loop does nothing.

An end date before the start date is not normalised: the loop `while (!currentDate.isAfter(endDate))`
(CalendarScreen.kt:145-146) never runs, so such an event occupies no day of the map
(`CalendarProjection.ReversedRangeCoversNothing`).

`Event.kt` has no `category` or `icon` field, yet both screens read and write them
(CalendarScreen.kt:127, 154; AnniversaryScreen.kt:223-224). The model's `Event` has
`category: int` and `icon: string`.

## Model

| member | source | states |
|---|---|---|
| Dates.LengthOfMonth | app/src/main/java/com/example/myapplication/ui/screens/calendar/CalendarScreen.kt:385 | a month has 28 to 31 days, and 29 exactly for February of a leap year |
| Dates.Of | app/src/main/java/com/example/myapplication/ui/screens/calendar/CalendarScreen.kt:806 | `LocalDate.of` succeeds exactly for a valid Gregorian date, and then gives that date |
| Dates.PlusDays | app/src/main/java/com/example/myapplication/ui/screens/calendar/CalendarScreen.kt:787 | the result lies exactly `n` days after the input (its day number grows by `n`) |
| Dates.PlusYears | app/src/main/java/com/example/myapplication/ui/screens/calendar/CalendarScreen.kt:772 | the result keeps the month, adds `n` to the year and clamps the day to the length of the target month |
| Dates.LeapDayPlusOneYear | app/src/main/java/com/example/myapplication/ui/screens/calendar/CalendarScreen.kt:772 | 29 February 2024 plus one year is 28 February 2025, plus four years is 29 February 2028 |
| Dates.BeforeIffOrd | app/src/main/java/com/example/myapplication/ui/screens/calendar/CalendarScreen.kt:773 | `isBefore` agrees with day-number order, and equal dates have equal day numbers |
| Dates.PlusDaysOrder | app/src/main/java/com/example/myapplication/ui/screens/calendar/CalendarScreen.kt:785-798 | more days added gives a strictly later date, so the milestone dates strictly increase |
| Dates.PlusYearsOrder | app/src/main/java/com/example/myapplication/ui/screens/calendar/CalendarScreen.kt:770-783 | more years added gives a strictly later date, so the yearly dates strictly increase |
| Dates.PlusDaysAdd | app/src/main/java/com/example/myapplication/ui/screens/calendar/CalendarScreen.kt:159 | adding `m` days and then `n` days is adding `m + n` days |
| Dates.BeforeNextDay | app/src/main/java/com/example/myapplication/ui/screens/calendar/CalendarScreen.kt:145-159 | a day is before `currentDate.plusDays(1)` exactly when it is before or equal to `currentDate` |
| Dates.DayOfWeekValue | app/src/main/java/com/example/myapplication/ui/screens/calendar/CalendarScreen.kt:384 | the ISO day of the week lies in 1..7 |
| Dates.DayOfWeekNextDay | app/src/main/java/com/example/myapplication/ui/screens/calendar/CalendarScreen.kt:384 | the weekday advances by one each day, Sunday (7) wrapping to Monday (1), so with `NewYear2024IsMonday` every date has its true weekday |
| Dates.NewYear2024IsMonday | app/src/main/java/com/example/myapplication/ui/screens/calendar/CalendarScreen.kt:384 | 1 January 2024 has day-of-week value 1 (Monday) |
| Dates.HundredDaysFromNewYear2024 | app/src/main/java/com/example/myapplication/ui/screens/calendar/CalendarScreen.kt:787 | 1 January 2024 plus 100 days is 10 April 2024 |
| Dates.ParseIsoDate | app/src/main/java/com/example/myapplication/ui/screens/calendar/CalendarScreen.kt:827 | `LocalDate.parse` accepts only text of the shape `YYYY-MM-DD` |
| Dates.ToLocalDateOrNull | app/src/main/java/com/example/myapplication/ui/screens/calendar/CalendarScreen.kt:824-831 | blank text gives null, and any other text gives the strict parse |
| Dates.ParseFormat | app/src/main/java/com/example/myapplication/ui/screens/anniversary/AnniversaryScreen.kt:221 | parsing the ISO format of a date whose year has four digits gives the date back |
| Dates.ParseIsCanonical | app/src/main/java/com/example/myapplication/ui/screens/calendar/CalendarScreen.kt:827 | every accepted text is the ISO format of the date it parses to |
| Dates.ParseIffFormat | app/src/main/java/com/example/myapplication/ui/screens/calendar/CalendarScreen.kt:827 | a text parses to `d` if and only if it is the ISO format of `d` and `d` has a four-digit year |
| Dates.FormatNotBlank | app/src/main/java/com/example/myapplication/ui/screens/anniversary/AnniversaryScreen.kt:221 | the ISO format of a date is never blank |
| Dates.FormatIsoDate | app/src/main/java/com/example/myapplication/ui/screens/anniversary/AnniversaryScreen.kt:221 | no `ensures`: `format(ISO_LOCAL_DATE)`; specified by `ParseFormat`, `ParseIffFormat` and `FormatNotBlank` |
| Text.DropLeadingSpec | update_translations.py:166-167 | stripping the front leaves a suffix, drops only stripped characters, and stops at one that is not |
| Text.DropTrailingSpec | update_translations.py:166-167 | stripping the back leaves a prefix, drops only stripped characters, and stops at one that is not |
| Text.BlankIffTrimEmpty | app/src/main/java/com/example/myapplication/ui/screens/anniversary/AnniversaryScreen.kt:630-634 | a text is blank exactly when its trimmed form is empty |
| Text.TrimIdempotent | app/src/main/java/com/example/myapplication/ui/screens/anniversary/AnniversaryScreen.kt:634 | trimming twice is trimming once |
| Text.IfBlank | app/src/main/java/com/example/myapplication/ui/screens/calendar/CalendarScreen.kt:149 | `ifBlank` gives the fallback for blank text and the text itself otherwise |
| Text.RemovePrefix | app/src/main/java/com/example/myapplication/ui/screens/favorites/CategoryDetailScreen.kt:490 | `removePrefix` strips the prefix when present, leaving the rest, and returns other text unchanged |
| Text.IsBlank | app/src/main/java/com/example/myapplication/ui/screens/anniversary/AnniversaryScreen.kt:630 | no `ensures`: `isBlank`, all characters whitespace; specified by `BlankIffTrimEmpty` |
| Text.Trim | app/src/main/java/com/example/myapplication/ui/screens/anniversary/AnniversaryScreen.kt:634 | no `ensures`: `trim`; specified by `DropLeadingSpec`, `DropTrailingSpec`, `BlankIffTrimEmpty` and `TrimIdempotent` |
| Text.IntToStringInjective | app/src/main/java/com/example/myapplication/ui/screens/anniversary/AnniversaryScreen.kt:664 | different ids render as different decimal texts |
| EventCategories.FirstWithId | app/src/main/java/com/example/myapplication/data/EventCategory.kt:16 | `firstOrNull` finds a member of the list that carries the id, and finds none exactly when no member does |
| EventCategories.FromIdSpec | app/src/main/java/com/example/myapplication/data/EventCategory.kt:15-17 | ids 1..4 resolve to the category with that id, and null or any other id resolves to ANNIVERSARY |
| EventCategories.FromId | app/src/main/java/com/example/myapplication/data/EventCategory.kt:15-17 | no `ensures`: `fromId`; specified by `FromIdSpec`, `FromIdRoundTrip` and `UnknownIdIsFirst` |
| EventCategories.FromIdRoundTrip | app/src/main/java/com/example/myapplication/data/EventCategory.kt:8-17 | looking a category up by its own id gives it back |
| EventCategories.IdsDistinct | app/src/main/java/com/example/myapplication/data/EventCategory.kt:9-12 | two categories share an id only if they are the same |
| EventCategories.UnknownIdIsFirst | app/src/main/java/com/example/myapplication/data/EventCategory.kt:9-17 | every unknown id, and null, resolves like id 1 |
| AnniversaryIcons.FirstWithId | app/src/main/java/com/example/myapplication/ui/screens/anniversary/AnniversaryIcons.kt:25 | `firstOrNull` finds an icon of the list that carries the id, and finds none exactly when no icon does |
| AnniversaryIcons.FromIdSpec | app/src/main/java/com/example/myapplication/ui/screens/anniversary/AnniversaryIcons.kt:24-26 | a known id resolves to the icon with that id, and null or an unknown id resolves to CAKE |
| AnniversaryIcons.FromId | app/src/main/java/com/example/myapplication/ui/screens/anniversary/AnniversaryIcons.kt:24-26 | no `ensures`: `fromId`; specified by `FromIdSpec`, `FromIdRoundTrip` and `GeneratorIconIds` |
| AnniversaryIcons.FromIdRoundTrip | app/src/main/java/com/example/myapplication/ui/screens/anniversary/AnniversaryIcons.kt:11-26 | looking an icon up by its own id gives it back |
| AnniversaryIcons.IdsDistinct | app/src/main/java/com/example/myapplication/ui/screens/anniversary/AnniversaryIcons.kt:11-21 | two icons share an id only if they are the same |
| AnniversaryIcons.GeneratorIconIds | app/src/main/java/com/example/myapplication/ui/screens/anniversary/AnniversaryIcons.kt:11-12 | "cake" resolves to CAKE and "balloon" to BALLOON |
| Anniversaries.ToItem | app/src/main/java/com/example/myapplication/ui/screens/anniversary/AnniversaryScreen.kt:661-674 | an event has an item exactly when its start date parses, and then the item is manual, keyed `manual-{id}`, carries the event id and the parsed date, and takes the event's title, or "기념일" when that is blank; it copies the description, icon and colour, and its category is `EventCategory.fromId` of the event's |
| Anniversaries.ManualKeyInjective | app/src/main/java/com/example/myapplication/ui/screens/anniversary/AnniversaryScreen.kt:664 | two events get the same `manual-{id}` key exactly when their ids are equal |
| Anniversaries.CardColor | app/src/main/java/com/example/myapplication/ui/screens/anniversary/AnniversaryScreen.kt:327-340 | a generated item is pink; a stored item with a colour gets the parsed colour, or beige when it does not parse; without a colour it gets its category colour |
| Anniversaries.CellColor | app/src/main/java/com/example/myapplication/ui/screens/calendar/CalendarScreen.kt:173-192 | like the card colour, except that an unparsable colour falls back to the category colour |
| Anniversaries.CardAndCellColorsDiffer | app/src/main/java/com/example/myapplication/ui/screens/calendar/CalendarScreen.kt:621-633 | the card and the cell colour differ exactly for a stored birthday whose colour does not parse, which gives a beige card on a lavender cell |
| Anniversaries.ColorsComeFromPaletteOrItem | app/src/main/java/com/example/myapplication/ui/screens/anniversary/AnniversaryScreen.kt:327-340 | every background is pink, lavender, beige or the item's own parsed colour |
| AutoAnniversaries.TryAdd | app/src/main/java/com/example/myapplication/ui/screens/calendar/CalendarScreen.kt:746-768 | `tryAdd` adds the item exactly when its date is not after the horizon and not an existing date, and otherwise adds nothing |
| AutoAnniversaries.Horizon | app/src/main/java/com/example/myapplication/ui/screens/calendar/CalendarScreen.kt:743 | no `ensures`: `today.plusYears(2)`; the membership lemmas state every item against it |
| AutoAnniversaries.YearItem | app/src/main/java/com/example/myapplication/ui/screens/calendar/CalendarScreen.kt:774-781 | no `ensures`: the `n`-th anniversary item; `YearlyExact`, `YearlyComplete` and `GeneratedYearly` state when it is generated |
| AutoAnniversaries.DayItem | app/src/main/java/com/example/myapplication/ui/screens/calendar/CalendarScreen.kt:789-796 | no `ensures`: the milestone item; `MilestonesExact`, `MilestonesComplete` and `GeneratedMilestone` state when it is generated |
| AutoAnniversaries.BirthdayItem | app/src/main/java/com/example/myapplication/ui/screens/calendar/CalendarScreen.kt:808-815 | no `ensures`: the birthday item; `BirthdaysExact`, `BirthdaysComplete` and `GeneratedBirthday` state when it is generated |
| AutoAnniversaries.YearlyFrom | app/src/main/java/com/example/myapplication/ui/screens/calendar/CalendarScreen.kt:770-783 | every yearly item is auto, within the horizon, off the existing dates, and keyed with `auto-year-` |
| AutoAnniversaries.MilestonesFrom | app/src/main/java/com/example/myapplication/ui/screens/calendar/CalendarScreen.kt:785-798 | every milestone item is auto, within the horizon, off the existing dates, and keyed with `auto-day-` |
| AutoAnniversaries.BirthdayIn | app/src/main/java/com/example/myapplication/ui/screens/calendar/CalendarScreen.kt:806-807 | a birthday found for a year is the date of that year with the birthday's month and day, and is not before the start |
| AutoAnniversaries.BirthdaysFrom | app/src/main/java/com/example/myapplication/ui/screens/calendar/CalendarScreen.kt:800-819 | every birthday item is auto, within the horizon, off the existing dates, and keyed with `auto-birthday-` |
| AutoAnniversaries.GeneratedFrom | app/src/main/java/com/example/myapplication/ui/screens/calendar/CalendarScreen.kt:742-821 | without a start date nothing is generated, and every generated item is auto, on or before the horizon and off the existing dates |
| AutoAnniversaries.YearlyStep | app/src/main/java/com/example/myapplication/ui/screens/calendar/CalendarScreen.kt:771-783 | while an anniversary is within the horizon, the loop tries to add it and goes on with the next year, suppressed or not |
| AutoAnniversaries.MilestonesStep | app/src/main/java/com/example/myapplication/ui/screens/calendar/CalendarScreen.kt:786-798 | while a milestone is within the horizon, the loop tries to add it and goes on 100 days later |
| AutoAnniversaries.BirthdaysStep | app/src/main/java/com/example/myapplication/ui/screens/calendar/CalendarScreen.kt:805-818 | each year of the birthday loop tries its birthday only when that date exists and is not before the start |
| AutoAnniversaries.GenerateAutoAnniversaries | app/src/main/java/com/example/myapplication/ui/screens/calendar/CalendarScreen.kt:737-822 | the method returns exactly the generated list of the profile's two dates |
| AutoAnniversaries.GenerateFrom | app/src/main/java/com/example/myapplication/ui/screens/calendar/CalendarScreen.kt:742-821 | the three loops together return the yearly, then the milestone, then the birthday stream |
| AutoAnniversaries.AddYearly | app/src/main/java/com/example/myapplication/ui/screens/calendar/CalendarScreen.kt:770-783 | the yearly loop returns the yearly stream from the first anniversary |
| AutoAnniversaries.AddMilestones | app/src/main/java/com/example/myapplication/ui/screens/calendar/CalendarScreen.kt:785-798 | the milestone loop appends the milestone stream from 100 days |
| AutoAnniversaries.AddBirthdays | app/src/main/java/com/example/myapplication/ui/screens/calendar/CalendarScreen.kt:803-818 | the birthday loop appends the birthday stream of its years |
| AutoAnniversaries.YearlyExact | app/src/main/java/com/example/myapplication/ui/screens/calendar/CalendarScreen.kt:770-783 | every yearly item is the `n`-th anniversary on `start + n years` for some `n` |
| AutoAnniversaries.YearlyComplete | app/src/main/java/com/example/myapplication/ui/screens/calendar/CalendarScreen.kt:770-783 | every admissible `n`-th anniversary is in the yearly stream |
| AutoAnniversaries.YearlyMembership | app/src/main/java/com/example/myapplication/ui/screens/calendar/CalendarScreen.kt:770-783 | the `n`-th anniversary is generated exactly when its date is admissible |
| AutoAnniversaries.MilestonesExact | app/src/main/java/com/example/myapplication/ui/screens/calendar/CalendarScreen.kt:785-798 | every milestone item is a multiple-of-100 milestone on the start date plus that many days |
| AutoAnniversaries.MilestonesComplete | app/src/main/java/com/example/myapplication/ui/screens/calendar/CalendarScreen.kt:785-798 | every admissible milestone is in the milestone stream |
| AutoAnniversaries.MilestoneMembership | app/src/main/java/com/example/myapplication/ui/screens/calendar/CalendarScreen.kt:785-798 | the `100·j`-day milestone is generated exactly when its date is admissible |
| AutoAnniversaries.BirthdaysExact | app/src/main/java/com/example/myapplication/ui/screens/calendar/CalendarScreen.kt:803-818 | every birthday item is the birthday of a year in the loop's range |
| AutoAnniversaries.BirthdaysComplete | app/src/main/java/com/example/myapplication/ui/screens/calendar/CalendarScreen.kt:803-818 | every admissible birthday of a year in range is in the stream |
| AutoAnniversaries.BirthdayMembership | app/src/main/java/com/example/myapplication/ui/screens/calendar/CalendarScreen.kt:803-818 | the birthday item of year `y` on date `b` is generated exactly when `y` is in range, `b` is that year's birthday and `b` is admissible |
| AutoAnniversaries.KeyPrefixesExclusive | app/src/main/java/com/example/myapplication/ui/screens/calendar/CalendarScreen.kt:778-812 | no key starts with two of `auto-year-`, `auto-day-` and `auto-birthday-` |
| AutoAnniversaries.GeneratedYearly | app/src/main/java/com/example/myapplication/ui/screens/calendar/CalendarScreen.kt:770-783 | with a start date, the `n`-th anniversary is in the result exactly when it is admissible |
| AutoAnniversaries.GeneratedMilestone | app/src/main/java/com/example/myapplication/ui/screens/calendar/CalendarScreen.kt:785-798 | with a start date, the `100·j`-day milestone is in the result exactly when it is admissible |
| AutoAnniversaries.GeneratedBirthday | app/src/main/java/com/example/myapplication/ui/screens/calendar/CalendarScreen.kt:800-819 | with a birthday, the item of year `y` is in the result exactly when `y` runs from last year to the horizon's year, the date is that year's birthday not before the start, and it is admissible |
| AutoAnniversaries.GeneratedNoBirthday | app/src/main/java/com/example/myapplication/ui/screens/calendar/CalendarScreen.kt:800 | without a birthday no item of the BIRTHDAY category is generated |
| AutoAnniversaries.NoStartNoAnniversaries | app/src/main/java/com/example/myapplication/ui/screens/calendar/CalendarScreen.kt:742 | without a profile, or with a start date that is blank or does not parse, the result is empty |
| AutoAnniversaries.GeneratedAvoidsExisting | app/src/main/java/com/example/myapplication/ui/screens/calendar/CalendarScreen.kt:754-755 | every generated item is auto, on or before the horizon and on no existing date |
| AutoAnniversaries.YearlyKeysDistinct | app/src/main/java/com/example/myapplication/ui/screens/calendar/CalendarScreen.kt:778 | the yearly keys are pairwise distinct |
| AutoAnniversaries.MilestonesKeysDistinct | app/src/main/java/com/example/myapplication/ui/screens/calendar/CalendarScreen.kt:793 | the milestone keys are pairwise distinct |
| AutoAnniversaries.BirthdaysKeysDistinct | app/src/main/java/com/example/myapplication/ui/screens/calendar/CalendarScreen.kt:812 | the birthday keys are pairwise distinct |
| AutoAnniversaries.AnniversaryKeysDistinct | app/src/main/java/com/example/myapplication/ui/screens/calendar/CalendarScreen.kt:770-798 | yearly and milestone keys together are pairwise distinct |
| AutoAnniversaries.GeneratedKeysAreAuto | app/src/main/java/com/example/myapplication/ui/screens/calendar/CalendarScreen.kt:778-812 | every generated key starts with `auto-` |
| AutoAnniversaries.GeneratedKeysDistinct | app/src/main/java/com/example/myapplication/ui/screens/calendar/CalendarScreen.kt:770-819 | the generated keys are pairwise distinct |
| AutoAnniversaries.HundredDayMilestoneExample | app/src/main/java/com/example/myapplication/ui/screens/calendar/CalendarScreen.kt:785-798 | from 1 January 2024, seen on 15 April 2024, the 100-day milestone on 10 April is generated, and a stored anniversary that day suppresses it |
| AutoAnniversaries.SuppressedYearExample | app/src/main/java/com/example/myapplication/ui/screens/calendar/CalendarScreen.kt:770-783 | a suppressed first anniversary does not stop the loop: the second is still generated |
| AutoAnniversaries.LeapBirthdayExample | app/src/main/java/com/example/myapplication/ui/screens/calendar/CalendarScreen.kt:805-807 | a 29 February birthday is generated in the leap year 2028 |
| AutoAnniversaries.LeapBirthdaySkipsCommonYears | app/src/main/java/com/example/myapplication/ui/screens/calendar/CalendarScreen.kt:806 | a 29 February birthday gives no item in 2025-2027 |
| AutoAnniversaries.BirthdayPastHorizonExample | app/src/main/java/com/example/myapplication/ui/screens/calendar/CalendarScreen.kt:804-807 | a birthday in the horizon's year but after the horizon date is dropped |
| Reconciliation.ItemsOfExact | app/src/main/java/com/example/myapplication/ui/screens/anniversary/AnniversaryScreen.kt:104 | `mapNotNull` keeps exactly the items of the events that have one |
| Reconciliation.ManualItems | app/src/main/java/com/example/myapplication/ui/screens/anniversary/AnniversaryScreen.kt:103-105 | no `ensures`: the manual items; specified by `ManualItemsExact` and `ManualKeysDistinct` |
| Reconciliation.ManualDates | app/src/main/java/com/example/myapplication/ui/screens/anniversary/AnniversaryScreen.kt:106 | no `ensures`: the set of manual start dates, which `NoAutoOnManualDate` keeps generated items off |
| Reconciliation.ManualItemsExact | app/src/main/java/com/example/myapplication/ui/screens/anniversary/AnniversaryScreen.kt:103-105 | the manual items are exactly the items of anniversary events whose date parses, each manual and keyed by its source id |
| Reconciliation.InsertByDate | app/src/main/java/com/example/myapplication/ui/screens/anniversary/AnniversaryScreen.kt:111 | inserting adds exactly the one item (as a multiset) |
| Reconciliation.InsertSorted | app/src/main/java/com/example/myapplication/ui/screens/anniversary/AnniversaryScreen.kt:111 | inserting into a date-sorted list keeps it sorted |
| Reconciliation.SortByDate | app/src/main/java/com/example/myapplication/ui/screens/anniversary/AnniversaryScreen.kt:111 | `sortedBy { date }` returns a permutation of its input, sorted by date |
| Reconciliation.InsertOnDate | app/src/main/java/com/example/myapplication/ui/screens/anniversary/AnniversaryScreen.kt:111 | an inserted item comes before the items of its own date already present |
| Reconciliation.SortStable | app/src/main/java/com/example/myapplication/ui/screens/anniversary/AnniversaryScreen.kt:111 | the sort keeps the order of the items of each date |
| Reconciliation.Combined | app/src/main/java/com/example/myapplication/ui/screens/anniversary/AnniversaryScreen.kt:110-112 | no `ensures`: `(manual + auto).sortedBy { it.date }`; specified by `CombinedSpec` |
| Reconciliation.CombinedFor | app/src/main/java/com/example/myapplication/ui/screens/anniversary/AnniversaryScreen.kt:103-112 | no `ensures`: the whole list of the screen; specified by `NoAutoOnManualDate` and `CombinedKeysDistinct` |
| Reconciliation.CombinedSpec | app/src/main/java/com/example/myapplication/ui/screens/anniversary/AnniversaryScreen.kt:110-112 | the merged list is sorted, holds exactly the manual and generated items, and on each date lists the manual ones first in their order |
| Reconciliation.CombinedKeepsDatesApart | app/src/main/java/com/example/myapplication/ui/screens/anniversary/AnniversaryScreen.kt:106-112 | a merge of manual items with generated items that avoid the manual dates has no auto item on a manual date |
| Reconciliation.NoAutoOnManualDate | app/src/main/java/com/example/myapplication/ui/screens/anniversary/AnniversaryScreen.kt:103-112 | in the shown list no generated item shares its date with a manual one |
| Reconciliation.ItemsOfKeysDistinct | app/src/main/java/com/example/myapplication/ui/screens/anniversary/AnniversaryScreen.kt:104 | events with distinct ids give items with distinct keys |
| Reconciliation.InsertKeepsKeysDistinct | app/src/main/java/com/example/myapplication/ui/screens/anniversary/AnniversaryScreen.kt:111 | inserting an item with a new key keeps the keys distinct |
| Reconciliation.SortKeepsKeysDistinct | app/src/main/java/com/example/myapplication/ui/screens/anniversary/AnniversaryScreen.kt:111 | sorting keeps the keys distinct |
| Reconciliation.ManualKeysDistinct | app/src/main/java/com/example/myapplication/ui/screens/anniversary/AnniversaryScreen.kt:103-105 | events with distinct ids give distinct manual keys, each starting with `manual-` |
| Reconciliation.CombinedKeysDistinct | app/src/main/java/com/example/myapplication/ui/screens/anniversary/AnniversaryScreen.kt:109-111 | with distinct event ids, the merged and sorted list `combined` never repeats a key |
| Reconciliation.FilteredItems | app/src/main/java/com/example/myapplication/ui/screens/anniversary/AnniversaryScreen.kt:118-127 | no `ensures`: the tab filter; specified by `FilteredItemsSpec`, `FilteredItemsIdempotent` and `FilteredKeysDistinct` |
| Reconciliation.FilteredItemsSpec | app/src/main/java/com/example/myapplication/ui/screens/anniversary/AnniversaryScreen.kt:118-127 | every tab gives an order-preserving subsequence: ALL everything, a category tab exactly that category, PAST exactly the items before today |
| Reconciliation.FilteredKeysDistinct | app/src/main/java/com/example/myapplication/ui/screens/anniversary/AnniversaryScreen.kt:187 | with distinct event ids, the list a tab shows, keyed by `it.key` in the `LazyColumn`, never repeats a key, on every tab |
| Reconciliation.FilteredItemsIdempotent | app/src/main/java/com/example/myapplication/ui/screens/anniversary/AnniversaryScreen.kt:118-127 | applying a tab twice is applying it once |
| CalendarProjection.EffectiveRange | app/src/main/java/com/example/myapplication/ui/screens/calendar/CalendarScreen.kt:123-125 | an event has a range exactly when its start parses; the end is the parsed end date when it is non-blank and parses, and the start otherwise |
| CalendarProjection.ReversedRangeCoversNothing | app/src/main/java/com/example/myapplication/ui/screens/calendar/CalendarScreen.kt:145-146 | an event whose end precedes its start occupies no day |
| CalendarProjection.OpenEndedCoversStartOnly | app/src/main/java/com/example/myapplication/ui/screens/calendar/CalendarScreen.kt:124-125 | an event whose end date is blank or does not parse occupies exactly its start day |
| CalendarProjection.DayKey | app/src/main/java/com/example/myapplication/ui/screens/calendar/CalendarScreen.kt:147 | no `ensures`: the key `manual-{id}-{day}` of one day's entry |
| CalendarProjection.DayEntry | app/src/main/java/com/example/myapplication/ui/screens/calendar/CalendarScreen.kt:146-156 | no `ensures`: the entry an event puts on one day; `ManualOnDayExact` and `EventsByDate` state where it goes |
| CalendarProjection.AutoOnDay | app/src/main/java/com/example/myapplication/ui/screens/calendar/CalendarScreen.kt:164-166 | the generated items put on a day are auto items of that day |
| CalendarProjection.AutoOnDayIsFilter | app/src/main/java/com/example/myapplication/ui/screens/calendar/CalendarScreen.kt:164 | they are exactly `combined.filter { it.isAuto }` restricted to that day, in order |
| CalendarProjection.ManualOnDayExact | app/src/main/java/com/example/myapplication/ui/screens/calendar/CalendarScreen.kt:122-161 | a day's manual entries are exactly the `manual-{id}-{day}` entries of the anniversary events whose range covers it |
| CalendarProjection.EventsByDate | app/src/main/java/com/example/myapplication/ui/screens/calendar/CalendarScreen.kt:118-169 | a day is a key of the map exactly when something falls on it, and its list is the covering events' entries in event order followed by that day's auto items |
| CalendarProjection.AddManualDays | app/src/main/java/com/example/myapplication/ui/screens/calendar/CalendarScreen.kt:122-161 | after the event loop each day's list is the entries of the events covering it, and no list is empty |
| CalendarProjection.AddAutoItems | app/src/main/java/com/example/myapplication/ui/screens/calendar/CalendarScreen.kt:164-166 | the auto loop appends to each day exactly its auto items, in order |
| CalendarProjection.AddEventDays | app/src/main/java/com/example/myapplication/ui/screens/calendar/CalendarScreen.kt:123-160 | one event's turn appends its entry to exactly the days it covers |
| CalendarProjection.AddRange | app/src/main/java/com/example/myapplication/ui/screens/calendar/CalendarScreen.kt:145-160 | the day loop appends the entry to every day from start to end inclusive and to no other day |
| CalendarProjection.DateColors | app/src/main/java/com/example/myapplication/ui/screens/calendar/CalendarScreen.kt:172-197 | `mapValues` keeps exactly the keys of the day map; `DayColor` gives each value. An empty list, which the map never holds (`EventsByDate`), would be beige, as at lines 193-195 |
| CalendarProjection.DayColor | app/src/main/java/com/example/myapplication/ui/screens/calendar/CalendarScreen.kt:172-196 | a day with a manual entry takes the cell colour of its first manual entry, and a day with only auto items is pink |
| CalendarProjection.FindEvent | app/src/main/java/com/example/myapplication/ui/screens/calendar/CalendarScreen.kt:208 | `find` returns the first event with that id, and none exactly when no event has it |
| CalendarProjection.ShownOn | app/src/main/java/com/example/myapplication/ui/screens/calendar/CalendarScreen.kt:202-216 | no `ensures`: the filter condition; specified by `ShownOnCoveredDays` |
| CalendarProjection.ShownOnCoveredDays | app/src/main/java/com/example/myapplication/ui/screens/calendar/CalendarScreen.kt:206-216 | a manual item whose event is found is listed on exactly the days that event covers |
| CalendarProjection.DistinctBySource | app/src/main/java/com/example/myapplication/ui/screens/calendar/CalendarScreen.kt:218 | `distinctBy(sourceEventId)` keeps items of its input whose source ids are pairwise distinct |
| CalendarProjection.DistinctBySourceKeepsFirst | app/src/main/java/com/example/myapplication/ui/screens/calendar/CalendarScreen.kt:218 | the first item with each source id is kept |
| CalendarProjection.DistinctBySourceSubsequence | app/src/main/java/com/example/myapplication/ui/screens/calendar/CalendarScreen.kt:218 | the result keeps the input's order |
| CalendarProjection.SelectedDateEvents | app/src/main/java/com/example/myapplication/ui/screens/calendar/CalendarScreen.kt:200-219 | no `ensures`: the selected day's list; specified by `SelectedDateEventsSpec`, `AtMostOneAutoSelected` and `NoSelectionNoEvents` |
| CalendarProjection.SelectedDateEventsSpec | app/src/main/java/com/example/myapplication/ui/screens/calendar/CalendarScreen.kt:200-219 | the selected day lists, in order, items of the merged list shown on that day, with distinct source ids, including the first shown item of each source id |
| CalendarProjection.AtMostOneAutoSelected | app/src/main/java/com/example/myapplication/ui/screens/calendar/CalendarScreen.kt:218 | since auto items have no source id, at most one auto item survives `distinctBy` |
| CalendarProjection.NoSelectionNoEvents | app/src/main/java/com/example/myapplication/ui/screens/calendar/CalendarScreen.kt:200-219 | without a selected day the list is empty |
| CalendarProjection.Toggle | app/src/main/java/com/example/myapplication/ui/screens/calendar/CalendarScreen.kt:237-238 | tapping a day selects it, unless it is already selected, which clears the selection |
| CalendarProjection.ToggleTwice | app/src/main/java/com/example/myapplication/ui/screens/calendar/CalendarScreen.kt:237-238 | tapping the same day twice restores the selection exactly when nothing or that day was selected |
| CalendarGrid.FirstDayOffset | app/src/main/java/com/example/myapplication/ui/screens/calendar/CalendarScreen.kt:491 | the number of blank cells before the 1st lies in 0..6 |
| CalendarGrid.ShapeSpec | app/src/main/java/com/example/myapplication/ui/screens/calendar/CalendarScreen.kt:561-566 | a highlight rounds its start side exactly when the previous day has no event and its end side exactly when the next day has none |
| CalendarGrid.DayLook | app/src/main/java/com/example/myapplication/ui/screens/calendar/CalendarScreen.kt:511-589 | no `ensures`: the look of one day cell; specified by `DayLookSpec` |
| CalendarGrid.GridCell | app/src/main/java/com/example/myapplication/ui/screens/calendar/CalendarScreen.kt:495-600 | no `ensures`: the cell at one grid position; `MonthGrid`, `EachDayOnce` and `GridHoldsTheMonth` state it |
| CalendarGrid.DayLookSpec | app/src/main/java/com/example/myapplication/ui/screens/calendar/CalendarScreen.kt:511-589 | a cell loses its start (end) padding exactly when it and the previous (next) day are marked; it is highlighted exactly when marked and not selected, in the day's colour; it has the ring exactly when selected |
| CalendarGrid.MonthGrid | app/src/main/java/com/example/myapplication/ui/screens/calendar/CalendarScreen.kt:491-601 | the nested loops build 42 cells, each the cell the layout rule gives its position |
| CalendarGrid.EachDayOnce | app/src/main/java/com/example/myapplication/ui/screens/calendar/CalendarScreen.kt:495-600 | day `k` of the month sits at cell `offset + k - 1` and at no other cell |
| CalendarGrid.GridHoldsTheMonth | app/src/main/java/com/example/myapplication/ui/screens/calendar/CalendarScreen.kt:503-600 | every non-blank cell holds a day of the month, the one its position gives |
| CalendarGrid.ColumnIsWeekday | app/src/main/java/com/example/myapplication/ui/screens/calendar/CalendarScreen.kt:491-501 | every day's column is its day of the week, counted from Sunday |
| AnniversaryEditing.InitialState | app/src/main/java/com/example/myapplication/ui/screens/anniversary/AnniversaryScreen.kt:441-458 | a new dialog is empty, with ANNIVERSARY, CAKE and the first palette colour; an edit opens with the event's title, memo, parsed date, `fromId` of its category and icon, and its colour, or the first palette colour when that is blank; the colour is never blank |
| AnniversaryEditing.ConfirmSave | app/src/main/java/com/example/myapplication/ui/screens/anniversary/AnniversaryScreen.kt:628-635 | saving is refused exactly when the title is blank or no date is picked; otherwise it passes the pickers through with `title.trim()`, which is non-blank, and `memo.trim()` |
| AnniversaryEditing.ConfirmSaveIdempotent | app/src/main/java/com/example/myapplication/ui/screens/anniversary/AnniversaryScreen.kt:628-635 | saving again from the fields a save produced gives the same request |
| AnniversaryEditing.NewEvent | app/src/main/java/com/example/myapplication/ui/screens/anniversary/AnniversaryScreen.kt:218-226 | no `ensures`: the inserted record; specified by `NewEventReadsBack` |
| AnniversaryEditing.EditedEvent | app/src/main/java/com/example/myapplication/ui/screens/anniversary/AnniversaryScreen.kt:238-249 | `copy` replaces the title, memo, date (as `yyyy-MM-dd`), category id, icon id and colour with the saved ones, and keeps the id, end date, time and flags of the edited event |
| AnniversaryEditing.NewEventReadsBack | app/src/main/java/com/example/myapplication/ui/screens/anniversary/AnniversaryScreen.kt:215-227 | an inserted anniversary is stored with `isAnniversary = true`, so it is one of the manual items, and reads back with the saved title, memo, date, category, icon and colour |
| AnniversaryEditing.EditedEventReadsBack | app/src/main/java/com/example/myapplication/ui/screens/anniversary/AnniversaryScreen.kt:238-249 | an updated anniversary reads back with its id and the saved fields |
| AnniversaryEditing.ReopenShowsSaved | app/src/main/java/com/example/myapplication/ui/screens/anniversary/AnniversaryScreen.kt:441-469 | reopening an edited anniversary shows the saved fields, the pink default standing in for a blank colour |
| Favorites.CategoryName | app/src/main/java/com/example/myapplication/ui/screens/favorites/CategoryDetailScreen.kt:114 | the title is the mapped name when the id is known and the raw id otherwise |
| Favorites.CategoryNameFallback | app/src/main/java/com/example/myapplication/ui/screens/favorites/CategoryDetailScreen.kt:56-65 | the raw id is shown exactly for the ids the map lacks |
| Favorites.FindIcon | app/src/main/java/com/example/myapplication/ui/screens/favorites/CategoryDetailScreen.kt:491 | `find` by name succeeds exactly for a listed name |
| Favorites.IconFromUri | app/src/main/java/com/example/myapplication/ui/screens/favorites/CategoryDetailScreen.kt:483-496 | the decoded icon is always one of the listed icons |
| Favorites.IconFromUriSpec | app/src/main/java/com/example/myapplication/ui/screens/favorites/CategoryDetailScreen.kt:483-495 | the empty URI and any URI without the `icon:` prefix give Favorite; `icon:` plus a name gives that icon when listed and Favorite otherwise |
| Favorites.IconUri | app/src/main/java/com/example/myapplication/ui/screens/favorites/CategoryDetailScreen.kt:621 | the stored URI is empty exactly for an empty icon name, and carries the `icon:` prefix otherwise |
| Favorites.IconName | app/src/main/java/com/example/myapplication/ui/screens/favorites/CategoryDetailScreen.kt:509 | no `ensures`: `photoUri.removePrefix("icon:")`; specified by `IconNameRoundTrip` |
| Favorites.IconNameRoundTrip | app/src/main/java/com/example/myapplication/ui/screens/favorites/CategoryDetailScreen.kt:509 | removing the prefix from the stored URI gives the icon name back |
| Favorites.IconUriShowsIcon | app/src/main/java/com/example/myapplication/ui/screens/favorites/CategoryDetailScreen.kt:649 | the saved URI decodes to the chosen icon when it is listed, and to Favorite otherwise |
| Favorites.OpenDialog | app/src/main/java/com/example/myapplication/ui/screens/favorites/CategoryDetailScreen.kt:508-509 | the dialog opens empty, or with the favourite's title and icon name |
| Favorites.SaveDialog | app/src/main/java/com/example/myapplication/ui/screens/favorites/CategoryDetailScreen.kt:646-660 | saving is refused exactly for a blank title; otherwise it builds the favourite with the id of the edited one or 0, the category, title, icon URI, the screen's mode and an empty description |
| Favorites.ReopenedEditKeepsFields | app/src/main/java/com/example/myapplication/ui/screens/favorites/CategoryDetailScreen.kt:648-658 | for an icon URI in the form the dialog writes, saving an unchanged reopened favourite keeps its id, title and icon URI |
| Favorites.SaveOp | app/src/main/java/com/example/myapplication/ui/screens/favorites/CategoryDetailScreen.kt:134-139 | the stored favourite takes the screen's dislike flag, and is inserted exactly when its id is 0 |
| Favorites.DialogSaveOp | app/src/main/java/com/example/myapplication/ui/screens/favorites/CategoryDetailScreen.kt:131-139 | a saved dialog inserts exactly for a new favourite or id 0, and otherwise updates the edited one |
| Favorites.Associate | app/src/main/java/com/example/myapplication/ui/screens/favorites/CategoryDetailScreen.kt:123 | `associate` has exactly the ids of the list as keys |
| Favorites.AssociateDescriptions | app/src/main/java/com/example/myapplication/ui/screens/favorites/CategoryDetailScreen.kt:123 | with distinct ids each favourite's memo starts as its description |
| Favorites.CurrentMemo | app/src/main/java/com/example/myapplication/ui/screens/favorites/CategoryDetailScreen.kt:317 | the memo shown is the edited text when there is one and the description otherwise |
| Favorites.MemoEditIsLocal | app/src/main/java/com/example/myapplication/ui/screens/favorites/CategoryDetailScreen.kt:314-320 | a memo edit shows the new text on its favourite and changes no other favourite's memo |
| Favorites.CategoryDetail.constructor | app/src/main/java/com/example/myapplication/ui/screens/favorites/CategoryDetailScreen.kt:104-110 | the screen starts loading, with no favourites, no dialog, no edit mode and no memos |
| Favorites.CategoryDetail.Title | app/src/main/java/com/example/myapplication/ui/screens/favorites/CategoryDetailScreen.kt:114 | the title is the mapped name of a known category and the raw id of an unknown one |
| Favorites.CategoryDetail.OnFavoritesLoaded | app/src/main/java/com/example/myapplication/ui/screens/favorites/CategoryDetailScreen.kt:119-124 | a loaded list replaces the favourites, ends loading and resets the memos to the descriptions |
| Favorites.CategoryDetail.ToggleEditMode | app/src/main/java/com/example/myapplication/ui/screens/favorites/CategoryDetailScreen.kt:171 | the edit button flips edit mode and nothing else |
| Favorites.CategoryDetail.OnAddClicked | app/src/main/java/com/example/myapplication/ui/screens/favorites/CategoryDetailScreen.kt:190 | the add button opens the dialog and nothing else |
| Favorites.CategoryDetail.OnEdit | app/src/main/java/com/example/myapplication/ui/screens/favorites/CategoryDetailScreen.kt:305-310 | tapping a card in edit mode opens the dialog on it; outside edit mode nothing changes |
| Favorites.CategoryDetail.OnDismiss | app/src/main/java/com/example/myapplication/ui/screens/favorites/CategoryDetailScreen.kt:336-339 | dismissing closes the dialog and forgets the edited favourite |
| Favorites.CategoryDetail.OnSaveFavorite | app/src/main/java/com/example/myapplication/ui/screens/favorites/CategoryDetailScreen.kt:131-147 | saving returns the insert-or-update operation and closes the dialog |
| Favorites.CategoryDetail.OnMemoChange | app/src/main/java/com/example/myapplication/ui/screens/favorites/CategoryDetailScreen.kt:318-320 | a memo edit sets that favourite's entry only |
| TranslationTables.Lookup | update_translations.py:137-138 | a key is found exactly when an entry has it, and then with that entry's value |
| TranslationTables.Put | add_english_translations.py:92-142 | a literal entry adds a new key at the end or overwrites the value in place, keeping the keys distinct |
| TranslationTables.DictLiteral | add_english_translations.py:7-187 | a dictionary literal has distinct keys, and each key maps to its last value in the literal |
| TranslationTables.LaterDuplicateWins | add_english_translations.py:98-141 | a repeated key takes the value of its last occurrence |
| TranslationTables.QuoteField | update_translations.py:179-182 | a field with a comma, newline or double quote is wrapped in quotes with inner quotes doubled, and any other field is unchanged |
| TranslationTables.DoubleQuotesSpec | update_translations.py:180 | doubling the quotes is undone by reading the quoted field back |
| TranslationTables.QuoteFieldSpec | update_translations.py:179-182 | a quoted CSV field reads back as the original text, and an unquoted one has no special character |
| UpdateTranslations.FirstContainedKey | update_translations.py:141-143 | the partial match finds a value exactly when some key is a substring of the text |
| UpdateTranslations.FirstContainedKeyIsFirst | update_translations.py:141-143 | the value found is that of the first key, in insertion order, contained in the text |
| UpdateTranslations.Translate | update_translations.py:131-145 | no `ensures`: `translate_text`; specified by `TranslateSpec` |
| UpdateTranslations.TranslateSpec | update_translations.py:131-145 | blank text gives ""; an exact key gives its value; otherwise the first contained key's value, or "" when none is contained |
| UpdateTranslations.TranslateText | update_translations.py:131-145 | the loop with early returns computes that translation |
| UpdateTranslations.TrimKeepsBlankness | update_translations.py:167-170 | stripping does not change whether the English field is blank |
| UpdateTranslations.RewriteRowSpec | update_translations.py:154-187 | rows 0 and 1 and short rows are copied; a data row becomes code, page, the quote-stripped Korean text as `QuoteField` writes it (quoted, inner quotes doubled, exactly when it holds a comma, newline or quote), and the stripped English field when non-blank or the translation otherwise |
| UpdateTranslations.RewriteRow | update_translations.py:154-187 | no `ensures`: one row of the output; specified by `RewriteRowSpec` |
| UpdateTranslations.DataRow | update_translations.py:163-185 | no `ensures`: the rewritten data row; specified by `RewriteRowSpec` |
| UpdateTranslations.ProcessRows | update_translations.py:149-187 | the row loop rewrites each row by that rule and keeps the row count |
| UpdateTranslations.RewriteDataRow | update_translations.py:163-185 | the step-by-step row assembly builds the rewritten data row |
| UpdateTranslations.ExactMatchFirst | update_translations.py:137-143 | an exact key beats an earlier contained key, and a text with no exact key takes the first contained one |
| AddEnglishTranslations.Translate | add_english_translations.py:191-192 | blank text gives "" |
| AddEnglishTranslations.TranslateSpec | add_english_translations.py:189-206 | an exact key gives its value; any other text gives "", since the partial-match loop has no effect |
| AddEnglishTranslations.RewriteRowSpec | add_english_translations.py:216-251 | rows 0 and 1 and short rows are copied; a data row becomes code, page, the Korean text as `QuoteField` writes it, and the English field as is when non-blank or the translation otherwise |
| AddEnglishTranslations.RewriteRow | add_english_translations.py:216-251 | no `ensures`: one row of the output; specified by `RewriteRowSpec` |
| AddEnglishTranslations.ProcessRows | add_english_translations.py:210-251 | the row loop rewrites each row by that rule and keeps the row count |
| AddEnglishTranslations.DuplicateDayKey | add_english_translations.py:92-142 | with "일" listed as "Sun" and later as "Day", the later value wins |
| AddEnglishTranslations.KeepsUnstrippedEnglish | add_english_translations.py:228-232 | an existing English field is kept with its surrounding spaces |

Helpers without a row prove steps of the members above. Examples are the per-step lemmas
(`ManualOnDayStep`, `AutoOnDayStep`, `RangeStep`, `BirthdaysLoopStep`, `RowsStep`), the
calendar arithmetic in `Dates` and the sequence lemmas in `Seqs`. Rows whose third column begins
"no `ensures`" name functions that only compute. The lemmas named there state what they mean.

## Left out

- User interface: layout, styling, dialogs, pickers, scrolling and animation. Only the decisions
  they display are modelled: the grid, the cell look and the colours.
- Storage and concurrency: the Room DAOs, `scope.launch` and Flow collection. The favourites
  screen's save returns the insert or update it would launch. The loaded list arrives as a call to
  `OnFavoritesLoaded`.
- The clock: `LocalDate.now()` is the parameter `today`.
- `android.graphics.Color.parseColor` is the parameter `parseColor`. None stands for the exception
  it throws.
- Dates.ParseIsoDate: accepts four-digit years only. `LocalDate.parse` also takes signed years of
  more than four digits (`+10000-01-01`). The read-back lemmas (`ParseFormat`, `NewEventReadsBack`,
  `EditedEventReadsBack`, `ReopenShowsSaved`) therefore require a year of at most 9999.
- Dates: years before year 0 are not modelled. Every parsed date has a four-digit year, and the
  engine only moves forward from parsed dates and today. The birthday loop's `today.year - 1`
  therefore only matters for today in year 0. There the model's `LocalDate.of` gives none for
  year -1.
- Text: whitespace is the six ASCII whitespace characters (space, tab, line feed, vertical tab,
  form feed, carriage return). Kotlin's `isBlank`/`trim` and Python's `strip` also treat the ASCII
  separators U+001C to U+001F and the Unicode space characters as whitespace.
- `eventsByDate` computes an `eventColor` (CalendarScreen.kt:128-142) that it never uses, so it is
  not modelled.
- The calendar screen's own save of an edited event (CalendarScreen.kt:292-310) goes through a
  dialog with a different signature. That save is not modelled; the anniversary screen's is.
- The translation dictionaries are parameters. Their 120-odd literal entries are not transcribed.
  `DuplicateDayKey` checks the entries that show the duplicate-key rule.
- CSV files: reading, writing, the BOM, `csv.writer`'s own re-quoting of the fields it writes, and
  the `__main__` blocks.
- Favorites.CategoryDetail: `flippedFavoriteId`, deletion and the icon-picker dialog are UI state
  that the core decisions do not read.
- Text.IntToString: its own contract states only that the text is non-empty. `IntToStringInjective`
  states the property the keys rely on, that different ids give different texts.
- TranslationTables.DoubleQuotes: its own contract states only the length bound.
  `DoubleQuotesSpec` and `QuoteFieldSpec` state the round trip.
- AutoAnniversaries.BirthdayIn: its own contract states one direction only. `BirthdayMembership` and
  `GeneratedBirthday` state when a birthday is generated, in both directions.
