/** The 42-cell month grid of `renderCalendar`: six weeks of leading, in-month and trailing days,
    each cell with its display number, resolved date string, flags and the events on that date. */
module Grid {
  import opened Dates
  import opened DateFormat
  import opened Events

  const GridSize: nat := 42

  /** The three values the grid is computed from: weekday of the 1st, days in the month,
      days in the previous month. */
  datatype Layout = Layout(firstDay: int, daysInMonth: int, prevMonthDays: int)

  predicate Plausible(l: Layout) {
    0 <= l.firstDay < 7 && 28 <= l.daysInMonth <= 31 && 28 <= l.prevMonthDays <= 31
  }

  /** `new Date(year, month, 1).getDay()`, `new Date(year, month + 1, 0).getDate()` and
      `new Date(year, month, 0).getDate()`, by the Gregorian rules. */
  function MonthLayout(ym: YearMonth): (l: Layout)
    requires ym.Valid()
    ensures Plausible(l)
    ensures l.firstDay == Weekday(FirstOf(ym)) && l.daysInMonth == DaysInMonth(ym.year, ym.month)
  {
    var p := PrevMonth(ym);
    Layout(Weekday(FirstOf(ym)), DaysInMonth(ym.year, ym.month), DaysInMonth(p.year, p.month))
  }

  /** The same three values as the source obtains them: the `Date` constructor reads a year
      0..99 as 1900..1999, so those years are laid out as their twentieth-century namesakes. */
  function JsLayout(ym: YearMonth): (l: Layout)
    requires ym.Valid()
    ensures Plausible(l)
  {
    MonthLayout(YearMonth(ConstructorYear(ym.year), ym.month))
  }

  /** February of year 0 (a leap year) gets 28 days under the constructor's reading of the year. */
  lemma JsLayoutYearZeroFebruary()
    ensures JsLayout(YearMonth(0, 1)).daysInMonth == 28
    ensures MonthLayout(YearMonth(0, 1)).daysInMonth == 29
  {
    assert ConstructorYear(0) == 1900;
    assert !IsLeapYear(1900) && IsLeapYear(0);
    assert DaysInMonth(1900, 1) == 28 && DaysInMonth(0, 1) == 29;
  }

  /** Outside years 0..99 the constructor's reading changes nothing. */
  lemma JsLayoutAgrees(ym: YearMonth)
    requires ym.Valid() && (ym.year < 0 || ym.year > 99)
    ensures JsLayout(ym) == MonthLayout(ym)
  {
  }

  /** One rendered day cell. `chips` are the event-chip labels, in the order of `events`. */
  datatype Cell = Cell(display: int, date: string, outside: bool, isToday: bool,
                       events: seq<Event>, chips: seq<string>)

  predicate IsInside(c: Cell) { !c.outside }

  /** `1 <= i - firstDay + 1 <= daysInMonth`: the cell shows a day of the displayed month. */
  predicate InMonth(l: Layout, i: int) {
    1 <= i - l.firstDay + 1 <= l.daysInMonth
  }

  /** The calendar day cell `i` stands for, with the Dec/Jan year rollover of the filler days. */
  function CellDate(ym: YearMonth, l: Layout, i: int): CalDate {
    var dayNum := i - l.firstDay + 1;
    if dayNum < 1 then
      var p := PrevMonth(ym);
      CalDate(p.year, p.month, l.prevMonthDays + dayNum)
    else if dayNum > l.daysInMonth then
      var n := NextMonth(ym);
      CalDate(n.year, n.month, dayNum - l.daysInMonth)
    else
      CalDate(ym.year, ym.month, dayNum)
  }

  /** `evt.time ? `${evt.time} ${evt.title}` : evt.title`. */
  function ChipText(e: Event): (r: string)
    ensures |r| >= |e.title| && r[|r| - |e.title|..] == e.title
    ensures e.time == "" ==> r == e.title
    ensures e.time != "" ==> |r| == |e.time| + 1 + |e.title| && r[..|e.time|] == e.time && r[|e.time|] == ' '
  {
    if e.time != "" then e.time + " " + e.title else e.title
  }

  /** The chip labels of a day, one per event and in the events' order. */
  function Chips(events: seq<Event>): (r: seq<string>)
    ensures |r| == |events|
  {
    seq(|events|, k requires 0 <= k < |events| => ChipText(events[k]))
  }

  /** The specification of one main-grid cell. */
  function MainCell(ym: YearMonth, l: Layout, events: seq<Event>, todayStr: string, i: int): Cell {
    var d := CellDate(ym, l, i);
    var s := FormatDate(d);
    var dayEvents := OnDate(events, s);
    Cell(d.day, s, !InMonth(l, i), InMonth(l, i) && s == todayStr, dayEvents, Chips(dayEvents))
  }

  function MonthGrid(ym: YearMonth, l: Layout, events: seq<Event>, todayStr: string): (g: seq<Cell>)
    ensures |g| == GridSize
  {
    seq(GridSize, i => MainCell(ym, l, events, todayStr, i))
  }

  /** The loop of `renderCalendar`, without the DOM: one cell per iteration.
      `today` is the host clock's local date. */
  method BuildMonthGrid(ym: YearMonth, events: seq<Event>, today: CalDate) returns (grid: seq<Cell>)
    requires ym.Valid()
    ensures |grid| == GridSize
    ensures grid == MonthGrid(ym, MonthLayout(ym), events, TodayStr(today))
  {
    var l := MonthLayout(ym);
    var todayStr := TodayStr(today);
    grid := [];
    for i := 0 to GridSize
      invariant |grid| == i
      invariant forall k | 0 <= k < i :: grid[k] == MonthGrid(ym, l, events, todayStr)[k]
    {
      var cell := BuildCell(ym, l, events, todayStr, i);
      grid := grid + [cell];
    }
  }

  /** One iteration of that loop, branch by branch: leading filler days of the previous month
      (with the December-to-January wrap of the year), trailing days of the next month, and the month's own days. */
  method BuildCell(ym: YearMonth, l: Layout, events: seq<Event>, todayStr: string, i: int) returns (cell: Cell)
    requires ym.Valid() && 0 <= i < GridSize
    ensures cell == MonthGrid(ym, l, events, todayStr)[i]
  {
    var year, month := ym.year, ym.month;
    var firstDayOfMonth, daysInMonth, prevMonthDays := l.firstDay, l.daysInMonth, l.prevMonthDays;
    var dayNum := i - firstDayOfMonth + 1;
    var isOutside := false;
    var isToday := false;
    var displayNum: int;
    var dateStr: string;
    if dayNum < 1 {
      isOutside := true;
      displayNum := prevMonthDays + dayNum;
      var pm := if month == 0 then 11 else month - 1;
      var py := if month == 0 then year - 1 else year;
      dateStr := FormatDateStr(py, pm, displayNum);
      assert CellDate(ym, l, i) == CalDate(py, pm, displayNum);
    } else if dayNum > daysInMonth {
      isOutside := true;
      displayNum := dayNum - daysInMonth;
      var nm := if month == 11 then 0 else month + 1;
      var ny := if month == 11 then year + 1 else year;
      dateStr := FormatDateStr(ny, nm, displayNum);
      assert CellDate(ym, l, i) == CalDate(ny, nm, displayNum);
    } else {
      displayNum := dayNum;
      dateStr := FormatDateStr(year, month, dayNum);
      if dateStr == todayStr {
        isToday := true;
      }
      assert CellDate(ym, l, i) == CalDate(year, month, dayNum);
    }
    var dayEvents := OnDate(events, dateStr);
    cell := Cell(displayNum, dateStr, isOutside, isToday, dayEvents, Chips(dayEvents));
  }

  // ----- properties -----

  /** Leading cells show `prevMonthDays + dayNum` in 1..prevMonthDays and resolve to the previous month;
      in-month cells show 1..daysInMonth; trailing cells show `dayNum - daysInMonth` >= 1 in the next month. */
  lemma CellResolution(ym: YearMonth, l: Layout, events: seq<Event>, todayStr: string, i: int)
    requires Plausible(l) && 0 <= i < GridSize
    ensures var c, d := MainCell(ym, l, events, todayStr, i), CellDate(ym, l, i);
      && c.display == d.day && c.date == FormatDate(d)
      && (i < l.firstDay ==>
            c.outside && d.Month() == PrevMonth(ym) && 1 <= d.day <= l.prevMonthDays)
      && (l.firstDay <= i < l.firstDay + l.daysInMonth ==>
            !c.outside && d == CalDate(ym.year, ym.month, i - l.firstDay + 1))
      && (l.firstDay + l.daysInMonth <= i ==>
            c.outside && d.Month() == NextMonth(ym) && 1 <= d.day <= GridSize - 28)
  {
  }

  /** Exactly `daysInMonth` cells belong to the displayed month. */
  lemma InMonthCount(ym: YearMonth, l: Layout, events: seq<Event>, todayStr: string)
    requires Plausible(l)
    ensures |Filter(MonthGrid(ym, l, events, todayStr), IsInside)| == l.daysInMonth
  {
    var g := MonthGrid(ym, l, events, todayStr);
    forall k | 0 <= k < |g| ensures IsInside(g[k]) <==> l.firstDay <= k < l.firstDay + l.daysInMonth {
      assert g[k].outside == !InMonth(l, k);
    }
    CountInsideRun(g, l.firstDay, l.firstDay + l.daysInMonth);
  }

  /** A list whose inside cells are exactly the positions lo..hi-1 has hi - lo inside cells. */
  lemma CountInsideRun(g: seq<Cell>, lo: int, hi: int)
    requires 0 <= lo <= hi <= |g|
    requires forall k | 0 <= k < |g| :: IsInside(g[k]) <==> lo <= k < hi
    ensures |Filter(g, IsInside)| == hi - lo
  {
    var a, b, c := g[..lo], g[lo..hi], g[hi..];
    forall k | 0 <= k < |a| ensures !IsInside(a[k]) {
      assert a[k] == g[k];
    }
    forall k | 0 <= k < |b| ensures IsInside(b[k]) {
      assert b[k] == g[lo + k];
    }
    forall k | 0 <= k < |c| ensures !IsInside(c[k]) {
      assert c[k] == g[hi + k];
    }
    assert g == a + b + c;
    FilterConcat(a + b, c, IsInside);
    FilterConcat(a, b, IsInside);
    FilterDropsAll(a, IsInside);
    FilterKeepsAll(b, IsInside);
    FilterDropsAll(c, IsInside);
  }

  /** Day numbers of the resolved dates: cell `i` is `i - firstDay` days after the 1st. */
  lemma {:induction false} CellDayNumber(ym: YearMonth, i: int)
    requires ym.Valid() && 0 <= i < GridSize
    ensures var l := MonthLayout(ym); var d := CellDate(ym, l, i);
      && d.Valid()
      && DayNumber(d) == DayNumber(FirstOf(ym)) + i - l.firstDay
  {
    var l := MonthLayout(ym);
    var d := CellDate(ym, l, i);
    var off := i - l.firstDay + 1;
    if off < 1 {
      var p := PrevMonth(ym);
      assert d == CalDate(p.year, p.month, l.prevMonthDays + off);
      PrevNextInverse(ym);
      NextMonthStart(p);
      DayNumberInMonth(p, d.day);
    } else if off > l.daysInMonth {
      var n := NextMonth(ym);
      assert d == CalDate(n.year, n.month, off - l.daysInMonth);
      NextMonthStart(ym);
      DayNumberInMonth(n, d.day);
    } else {
      assert d == CalDate(ym.year, ym.month, off);
      DayNumberInMonth(ym, off);
    }
  }

  lemma WeekdayShift(n1: int, fd: int, i: int, dn: int)
    requires fd == (n1 + 6) % 7 && dn == n1 + i - fd
    ensures (dn + 6) % 7 == i % 7
  {
    var q := (n1 + 6) / 7;
    assert n1 + 6 == 7 * q + fd;
    assert dn + 6 == 7 * q + i;
  }

  /** The grid is 42 consecutive days starting `firstDay` days before the 1st, every one a valid
      calendar date, and the column of each cell is its weekday. */
  lemma GridTilesSixWeeks(ym: YearMonth, i: int)
    requires ym.Valid() && 0 <= i < GridSize
    ensures var l := MonthLayout(ym); var d := CellDate(ym, l, i);
      && d.Valid()
      && DayNumber(d) == DayNumber(FirstOf(ym)) + i - l.firstDay
      && Weekday(d) == i % 7
  {
    var l := MonthLayout(ym);
    var d := CellDate(ym, l, i);
    CellDayNumber(ym, i);
    WeekdayShift(DayNumber(FirstOf(ym)), l.firstDay, i, DayNumber(d));
  }

  /** Different cells stand for different calendar days. */
  lemma CellDatesDistinct(ym: YearMonth, l: Layout, i: int, j: int)
    requires ym.Valid() && Plausible(l) && 0 <= i < GridSize && 0 <= j < GridSize && i != j
    ensures CellDate(ym, l, i) != CellDate(ym, l, j)
  {
    NeighboursAreMonthShifts(ym);
    var di, dj := CellDate(ym, l, i), CellDate(ym, l, j);
    assert MonthIndex(PrevMonth(ym)) == MonthIndex(ym) - 1;
    assert MonthIndex(NextMonth(ym)) == MonthIndex(ym) + 1;
  }

  /** The 42 resolved date strings are pairwise distinct. */
  lemma DateStringsDistinct(ym: YearMonth, l: Layout, events: seq<Event>, todayStr: string, i: int, j: int)
    requires ym.Valid() && Plausible(l) && 0 <= i < GridSize && 0 <= j < GridSize && i != j
    ensures MainCell(ym, l, events, todayStr, i).date != MainCell(ym, l, events, todayStr, j).date
  {
    CellDatesDistinct(ym, l, i, j);
    NeighboursAreMonthShifts(ym);
    FormatInjective(CellDate(ym, l, i), CellDate(ym, l, j));
  }

  /** `isToday` holds exactly for the in-month cell whose calendar day is today;
      a filler cell showing today's date is never flagged. */
  lemma TodayFlag(ym: YearMonth, l: Layout, events: seq<Event>, today: CalDate, i: int)
    requires ym.Valid() && Plausible(l) && 0 <= i < GridSize
    requires 0 <= today.month < 12 && 0 <= today.day <= 99
    ensures MainCell(ym, l, events, TodayStr(today), i).isToday <==> InMonth(l, i) && CellDate(ym, l, i) == today
    ensures MainCell(ym, l, events, TodayStr(today), i).outside ==> !MainCell(ym, l, events, TodayStr(today), i).isToday
  {
    NeighboursAreMonthShifts(ym);
    FormatInjective(CellDate(ym, l, i), today);
  }

  /** An event is listed in a cell exactly when its date is the cell's date string,
      so it is listed in at most one cell of the grid. */
  lemma EventPlacement(ym: YearMonth, l: Layout, events: seq<Event>, todayStr: string, e: Event, i: int, j: int)
    requires ym.Valid() && Plausible(l) && 0 <= i < GridSize && 0 <= j < GridSize && e in events
    ensures e in MainCell(ym, l, events, todayStr, i).events <==> MainCell(ym, l, events, todayStr, i).date == e.date
    ensures e in MainCell(ym, l, events, todayStr, i).events && e in MainCell(ym, l, events, todayStr, j).events ==> i == j
  {
    if i != j {
      DateStringsDistinct(ym, l, events, todayStr, i, j);
    }
  }

  /** Chip k of a cell is the label of the cell's event k: `time + " " + title`, or the title alone. */
  lemma CellChips(ym: YearMonth, l: Layout, events: seq<Event>, todayStr: string, i: int, k: int)
    requires 0 <= k < |MainCell(ym, l, events, todayStr, i).events|
    ensures var c := MainCell(ym, l, events, todayStr, i);
      |c.chips| == |c.events| && c.chips[k] == ChipText(c.events[k])
  {
  }

  /** Same-day events keep store order: the events of a cell over `a + b` are those over `a`, then those over `b`. */
  lemma CellEventsInStoreOrder(ym: YearMonth, l: Layout, a: seq<Event>, b: seq<Event>, todayStr: string, i: int)
    ensures MainCell(ym, l, a + b, todayStr, i).events
         == MainCell(ym, l, a, todayStr, i).events + MainCell(ym, l, b, todayStr, i).events
  {
    var s := FormatDate(CellDate(ym, l, i));
    FilterConcat(a, b, (e: Event) => e.date == s);
  }

  /** March 2024 starts on a Friday and has 31 days: five February fillers (25..29), March 1 in cell 5,
      April 6 in cell 41. */
  lemma March2024()
    ensures MonthLayout(YearMonth(2024, 2)) == Layout(5, 31, 29)
    ensures CellDate(YearMonth(2024, 2), Layout(5, 31, 29), 0) == CalDate(2024, 1, 25)
    ensures CellDate(YearMonth(2024, 2), Layout(5, 31, 29), 4) == CalDate(2024, 1, 29)
    ensures CellDate(YearMonth(2024, 2), Layout(5, 31, 29), 5) == CalDate(2024, 2, 1)
    ensures CellDate(YearMonth(2024, 2), Layout(5, 31, 29), 41) == CalDate(2024, 3, 6)
    ensures !InMonth(Layout(5, 31, 29), 4) && InMonth(Layout(5, 31, 29), 5) && !InMonth(Layout(5, 31, 29), 41)
  {
  }

  lemma Format20240305()
    ensures FormatDateStr(2024, 2, 5) == "2024-03-05"
  {
    assert NatToString(2) == "2";
    assert NatToString(20) == "20";
    assert NatToString(202) == "202";
    assert NatToString(2024) == "2024";
    assert NatToString(3) == "3";
    assert PadStart2("3") == "03";
    assert NatToString(5) == "5";
    assert PadStart2("5") == "05";
  }

  /** The event `{ title: "Standup", date: "2024-03-05", time: "09:00" }` lands in cell 9 of March 2024,
      alone, with the chip "09:00 Standup". */
  lemma StandupScenario(todayStr: string)
    ensures var e := Event("id-1", "Standup", "2024-03-05", "09:00", "");
      var c := MainCell(YearMonth(2024, 2), Layout(5, 31, 29), [e], todayStr, 9);
      c.date == "2024-03-05" && c.events == [e] && c.chips == ["09:00 Standup"]
  {
    var e := Event("id-1", "Standup", "2024-03-05", "09:00", "");
    assert CellDate(YearMonth(2024, 2), Layout(5, 31, 29), 9) == CalDate(2024, 2, 5);
    Format20240305();
    var es := OnDate([e], "2024-03-05");
    assert es == [e] by {
      assert [e][1..] == [];
    }
    assert ChipText(e) == "09:00 Standup";
  }
}
