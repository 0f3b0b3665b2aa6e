/** The sidebar mini calendar of `renderMiniCal`: the same 42-cell layout as the main grid, but only
    the displayed month's days carry a date string and are clickable (class `mc-day`). */
module MiniGrid {
  import opened Wrappers
  import opened Dates
  import opened DateFormat
  import opened Events
  import opened Grid
  import Navigation

  /** One mini-calendar cell: its number, its `data-date` (empty for filler days), whether it
      takes clicks, and whether it is highlighted as today. */
  datatype MiniCell = MiniCell(display: int, date: string, selectable: bool, isToday: bool)

  /** The specification of mini cell `i`. */
  function MiniCellAt(ym: YearMonth, l: Layout, todayStr: string, i: int): MiniCell {
    var d := CellDate(ym, l, i);
    if InMonth(l, i) then
      var s := FormatDate(d);
      MiniCell(d.day, s, true, s == todayStr)
    else
      MiniCell(d.day, "", false, false)
  }

  function MiniMonth(ym: YearMonth, l: Layout, todayStr: string): (g: seq<MiniCell>)
    ensures |g| == GridSize
  {
    seq(GridSize, i => MiniCellAt(ym, l, todayStr, i))
  }

  /** `renderMiniCal` without the HTML text: the layout of the month, then the cell loop. */
  method BuildMiniGrid(ym: YearMonth, today: CalDate) returns (cells: seq<MiniCell>)
    requires ym.Valid()
    ensures |cells| == GridSize
    ensures cells == MiniMonth(ym, MonthLayout(ym), TodayStr(today))
  {
    var l := MonthLayout(ym);
    var todayStr := TodayStr(today);
    cells := FillMiniGrid(ym, l, todayStr);
  }

  /** The loop of `renderMiniCal`: 42 cells, one per iteration. */
  method FillMiniGrid(ym: YearMonth, l: Layout, todayStr: string) returns (cells: seq<MiniCell>)
    ensures cells == MiniMonth(ym, l, todayStr)
  {
    ghost var target := MiniMonth(ym, l, todayStr);
    cells := [];
    for i := 0 to GridSize
      invariant |cells| == i
      invariant forall k | 0 <= k < i :: cells[k] == target[k]
    {
      var cell := BuildMiniCell(ym, l, todayStr, i);
      cells := cells + [cell];
    }
  }

  /** One iteration of that loop: filler days show their number only; the month's own days
      get their date string, take clicks, and are marked when they are today. */
  method BuildMiniCell(ym: YearMonth, l: Layout, todayStr: string, i: int) returns (cell: MiniCell)
    requires 0 <= i < GridSize
    ensures cell == MiniMonth(ym, l, todayStr)[i]
  {
    var year, month := ym.year, ym.month;
    var firstDay, daysInMonth, prevDays := l.firstDay, l.daysInMonth, l.prevMonthDays;
    var dayNum := i - firstDay + 1;
    var display: int;
    var dateStr := "";
    var selectable := false;
    var isToday := false;
    if dayNum < 1 {
      display := prevDays + dayNum;
    } else if dayNum > daysInMonth {
      display := dayNum - daysInMonth;
    } else {
      display := dayNum;
      dateStr := FormatDateStr(year, month, dayNum);
      selectable := true;
      if dateStr == todayStr {
        isToday := true;
      }
    }
    cell := MiniCell(display, dateStr, selectable, isToday);
  }

  // ----- properties -----

  /** The mini cell agrees with the main cell at the same position: same number, same today mark,
      clickable exactly when the main cell is not `outside`, and then with the same date string;
      a filler cell has an empty `data-date`. */
  lemma MiniMatchesMain(ym: YearMonth, l: Layout, events: seq<Event>, todayStr: string, i: int)
    ensures var m, c := MiniCellAt(ym, l, todayStr, i), MainCell(ym, l, events, todayStr, i);
      && m.display == c.display
      && m.isToday == c.isToday
      && m.selectable == !c.outside
      && (m.selectable ==> m.date == c.date)
      && (!m.selectable ==> m.date == "" && !m.isToday)
  {
  }

  /** Exactly the displayed month's days are clickable in the mini calendar. */
  lemma MiniSelectableCount(ym: YearMonth, l: Layout, todayStr: string, i: int)
    requires Plausible(l) && 0 <= i < GridSize
    ensures MiniCellAt(ym, l, todayStr, i).selectable <==> l.firstDay <= i < l.firstDay + l.daysInMonth
    ensures MiniCellAt(ym, l, todayStr, i).selectable ==>
      MiniCellAt(ym, l, todayStr, i).display == i - l.firstDay + 1
  {
  }

  /** Clicking a day of the mini calendar jumps to the month it shows: the intended reading of
      its `data-date` yields that month, and from year 100 on the source's own reading agrees. */
  lemma MiniSelectableJumps(ym: YearMonth, todayStr: string, i: int)
    requires ym.Valid() && 0 <= i < GridSize
    ensures var m := MiniCellAt(ym, MonthLayout(ym), todayStr, i);
      m.selectable ==> Navigation.JumpTarget(m.date) == Some(ym)
    ensures var m := MiniCellAt(ym, MonthLayout(ym), todayStr, i);
      m.selectable && ym.year >= 100 ==> Navigation.JumpAsWritten(m.date) == Some(ym)
  {
    var l := MonthLayout(ym);
    if InMonth(l, i) {
      var d := CellDate(ym, l, i);
      assert d == CalDate(ym.year, ym.month, i - l.firstDay + 1);
      Navigation.JumpTargetOfFormatted(d);
      if ym.year >= 100 {
        Navigation.JumpAsWrittenAgrees(d);
      }
    }
  }

  /** The mini calendar's today mark falls on today's date, and only inside the displayed month. */
  lemma MiniTodayFlag(ym: YearMonth, l: Layout, today: CalDate, i: int)
    requires ym.Valid() && Plausible(l) && 0 <= i < GridSize
    requires 0 <= today.month < 12 && 0 <= today.day <= 99
    ensures MiniCellAt(ym, l, TodayStr(today), i).isToday <==> InMonth(l, i) && CellDate(ym, l, i) == today
  {
    MiniMatchesMain(ym, l, [], TodayStr(today), i);
    TodayFlag(ym, l, [], today, i);
  }
}
