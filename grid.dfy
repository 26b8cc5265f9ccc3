/**
 * The month grid of `CalendarView` (CalendarScreen.kt): six weeks of seven cells, Sunday first,
 * the days of the month placed after the blank cells of the first week, and the look of each day
 * cell (padding that joins neighbouring marked days, the highlight and its rounded corners, the
 * selection ring).
 */
module CalendarGrid {
  import opened Wrappers
  import opened Dates
  import Anniversaries

  /** The clip shape of a day's highlight: which sides have rounded corners. */
  datatype Shape = Rectangle | RoundedEnd | RoundedStart | RoundedAll

  /** What a day cell shows: its start and end padding in dp, a bold number, the highlight colour
      and shape (none when absent) and the selection ring. */
  datatype Look = Look(startPadding: int, endPadding: int, bold: bool, highlight: Option<(int, Shape)>, ring: bool)

  datatype Cell = Blank | DayCell(day: int, look: Look)

  /** The padding of a cell side, in dp. */
  const CellPadding: int := 4

  /** The number of cells of the grid: six weeks of seven days. */
  const GridSize: int := 42

  /** `firstDayOfWeek.value % 7`: blank cells before the 1st, 0 for a Sunday. */
  function FirstDayOffset(y: nat, m: int): (offset: int)
    requires 1 <= m <= 12
    ensures 0 <= offset < 7
  {
    DayOfWeekValue(Ymd(y, m, 1)) % 7
  }

  /** Day `day` of the month is a key of `eventsByDate`; false for days outside the month. */
  predicate Marked(marked: set<Date>, y: nat, m: int, day: int)
    requires 1 <= m <= 12
  {
    1 <= day <= LengthOfMonth(y, m) && Ymd(y, m, day) in marked
  }

  function ShapeOf(hasPrev: bool, hasNext: bool): Shape {
    if hasPrev && hasNext then Rectangle
    else if hasPrev then RoundedEnd
    else if hasNext then RoundedStart
    else RoundedAll
  }

  predicate RoundsStart(s: Shape) {
    s == RoundedStart || s == RoundedAll
  }

  predicate RoundsEnd(s: Shape) {
    s == RoundedEnd || s == RoundedAll
  }

  /** A run of marked days reads as one band: a side is rounded exactly where the run ends. */
  lemma ShapeSpec(hasPrev: bool, hasNext: bool)
    ensures RoundsStart(ShapeOf(hasPrev, hasNext)) <==> !hasPrev
    ensures RoundsEnd(ShapeOf(hasPrev, hasNext)) <==> !hasNext
  {
  }

  /** The look of day `day` of month `m` of year `y`. */
  function DayLook(y: nat, m: int, day: int, marked: set<Date>, colors: map<Date, int>,
                   selected: Option<Date>, today: Date): Look
    requires 1 <= m <= 12 && 1 <= day <= LengthOfMonth(y, m)
  {
    var date: Date := Ymd(y, m, day);
    var hasEvents := date in marked;
    var hasPrev := Marked(marked, y, m, day - 1);
    var hasNext := Marked(marked, y, m, day + 1);
    var isSelected := selected == Some(date);
    Look(if hasEvents && hasPrev then 0 else CellPadding,
         if hasEvents && hasNext then 0 else CellPadding,
         date == today || isSelected,
         if hasEvents && !isSelected
         then Some((if date in colors then colors[date] else Anniversaries.DefaultColor, ShapeOf(hasPrev, hasNext)))
         else None,
         isSelected)
  }

  /** The day cells of a month chain up: padding is dropped between two marked neighbours, the
      highlight appears on marked days that are not selected, in the day's colour, and the ring on
      the selected day. */
  lemma DayLookSpec(y: nat, m: int, day: int, marked: set<Date>, colors: map<Date, int>,
                    selected: Option<Date>, today: Date)
    requires 1 <= m <= 12 && 1 <= day <= LengthOfMonth(y, m)
    ensures var look := DayLook(y, m, day, marked, colors, selected, today);
            (look.startPadding == 0 <==> Marked(marked, y, m, day) && Marked(marked, y, m, day - 1))
            && (look.endPadding == 0 <==> Marked(marked, y, m, day) && Marked(marked, y, m, day + 1))
            && (look.highlight.Some? <==> Marked(marked, y, m, day) && selected != Some(Ymd(y, m, day)))
            && (look.ring <==> selected == Some(Ymd(y, m, day)))
            && (look.highlight.Some? && Ymd(y, m, day) in colors ==> look.highlight.value.0 == colors[Ymd(y, m, day)])
            && (look.highlight.Some? ==>
                  (RoundsStart(look.highlight.value.1) <==> !Marked(marked, y, m, day - 1))
                  && (RoundsEnd(look.highlight.value.1) <==> !Marked(marked, y, m, day + 1)))
  {
  }

  /** Cell `k` of the grid: day `k - offset + 1` when that is a day of the month, blank otherwise. */
  function GridCell(y: nat, m: int, marked: set<Date>, colors: map<Date, int>, selected: Option<Date>,
                    today: Date, k: int): Cell
    requires 1 <= m <= 12
  {
    var offset := FirstDayOffset(y, m);
    if offset <= k && k - offset < LengthOfMonth(y, m)
    then DayCell(k - offset + 1, DayLook(y, m, k - offset + 1, marked, colors, selected, today))
    else Blank
  }

  /** The number of day cells among the first `k` cells. */
  function Placed(offset: int, n: int, k: int): int {
    if k <= offset then 0 else if k - offset < n then k - offset else n
  }

  /** The nested `for (week in 0..5) for (dayOfWeek in 0..6)` loops with `dayCounter`. */
  method MonthGrid(y: nat, m: int, marked: set<Date>, colors: map<Date, int>, selected: Option<Date>, today: Date)
    returns (cells: seq<Cell>)
    requires 1 <= m <= 12
    ensures |cells| == GridSize
    ensures forall k :: 0 <= k < GridSize ==> cells[k] == GridCell(y, m, marked, colors, selected, today, k)
  {
    var daysInMonth := LengthOfMonth(y, m);
    var firstDayOffset := DayOfWeekValue(Ymd(y, m, 1)) % 7;
    var dayCounter := 1;
    cells := [];
    for week := 0 to 6
      invariant |cells| == 7 * week
      invariant dayCounter == 1 + Placed(firstDayOffset, daysInMonth, |cells|)
      invariant forall k :: 0 <= k < |cells| ==> cells[k] == GridCell(y, m, marked, colors, selected, today, k)
    {
      for dayOfWeek := 0 to 7
        invariant |cells| == 7 * week + dayOfWeek
        invariant dayCounter == 1 + Placed(firstDayOffset, daysInMonth, |cells|)
        invariant forall k :: 0 <= k < |cells| ==> cells[k] == GridCell(y, m, marked, colors, selected, today, k)
      {
        if week == 0 && dayOfWeek < firstDayOffset {
          cells := cells + [Blank];
        } else if dayCounter <= daysInMonth {
          cells := cells + [DayCell(dayCounter, DayLook(y, m, dayCounter, marked, colors, selected, today))];
          dayCounter := dayCounter + 1;
        } else {
          cells := cells + [Blank];
        }
      }
    }
  }

  /** Every day of the month has exactly one cell, at `offset + day - 1`, within the six weeks. */
  lemma EachDayOnce(y: nat, m: int, marked: set<Date>, colors: map<Date, int>, selected: Option<Date>,
                    today: Date, day: int)
    requires 1 <= m <= 12 && 1 <= day <= LengthOfMonth(y, m)
    ensures var k := FirstDayOffset(y, m) + day - 1;
            0 <= k < GridSize && GridCell(y, m, marked, colors, selected, today, k).DayCell?
            && GridCell(y, m, marked, colors, selected, today, k).day == day
    ensures forall k | 0 <= k < GridSize && GridCell(y, m, marked, colors, selected, today, k).DayCell?
              && GridCell(y, m, marked, colors, selected, today, k).day == day
              :: k == FirstDayOffset(y, m) + day - 1
  {
  }

  /** The grid shows exactly the days of the month, in order. */
  lemma GridHoldsTheMonth(y: nat, m: int, marked: set<Date>, colors: map<Date, int>, selected: Option<Date>,
                          today: Date, k: int)
    requires 1 <= m <= 12 && 0 <= k < GridSize
    ensures var c := GridCell(y, m, marked, colors, selected, today, k);
            c.DayCell? ==> 1 <= c.day <= LengthOfMonth(y, m) && c.day == k - FirstDayOffset(y, m) + 1
  {
  }

  /** Day `day` sits in the column of its weekday, Sunday being column 0. */
  lemma ColumnIsWeekday(y: nat, m: int, day: int)
    requires 1 <= m <= 12 && 1 <= day <= LengthOfMonth(y, m)
    ensures (FirstDayOffset(y, m) + day - 1) % 7 == DayOfWeekValue(Ymd(y, m, day)) % 7
  {
    var o := Ord(Ymd(y, m, 1));
    assert Ord(Ymd(y, m, day)) == o + day - 1;
    var a := (o + 5) % 7;
    Mod7Add(a + 1, day - 1);
    Mod7Add(o + 5, day);
    Mod7Add(o + 4 + day, 1);
  }

  /** Adding after or before reducing modulo 7 is the same. */
  lemma Mod7Add(x: int, c: int)
    ensures (x % 7 + c) % 7 == (x + c) % 7
  {
    var q := x / 7;
    assert x + c == 7 * q + (x % 7 + c);
  }
}
