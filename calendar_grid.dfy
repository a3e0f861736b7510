/**
 * The month grid: seven Sunday-first columns and as many rows as the month
 * needs, filled row by row. A cell is empty when its day number falls
 * outside the month, and otherwise holds the record of that day.
 */
module CalendarGrid {
  import opened Gregorian
  import opened SunTimes
  import opened Text

  const DaysPerRow := 7

  /** The astronomical library at the fixed location: a sunrise and a sunset lookup per date. */
  datatype SunSource = SunSource(sunrise: Date -> Lookup, sunset: Date -> Lookup)

  datatype Cell = Empty | DayCell(day: nat, record: DayRecord)

  /** Column of the 1st (0 = Sunday), length of the month, and number of rows. */
  datatype Shape = Shape(startDay: int, daysInMonth: int, rows: int)

  /** Why `datetime(year, month, 1)` refuses a month. */
  datatype DateError = YearOutOfRange(year: int) | MonthOutOfRange(month: int)

  /** The cell texts of a generated page, or the error that stopped generation. */
  datatype Outcome = Page(texts: seq<string>) | Rejected(error: DateError)

  /**
   * `start_day`: the column of the 1st in a Sunday-first week, which is
   * the number of days since the last Sunday on the day count.
   */
  function StartDay(year: int, month: int): (s: int)
    requires ValidMonth(year, month)
    ensures 0 <= s < DaysPerRow
    ensures s == 0 <==> Weekday(year, month, 1) == Sunday
    ensures s == Ordinal(year, month, 1) % DaysPerRow
  {
    var w := Weekday(year, month, 1);
    SundayFirst(Ordinal(year, month, 1), w);
    (w + 1) % DaysPerRow
  }

  /** Shifting a Monday-first weekday by one gives the Sunday-first column. */
  lemma SundayFirst(o: int, w: int)
    requires w == (o - 1) % 7
    ensures (w + 1) % 7 == o % 7
    ensures (w + 1) % 7 == 0 <==> w == 6
  {
    AddMod7(o - 1, 1);
  }

  /** `total_rows`: the fewest rows of seven that hold the leading blanks and every day. */
  function TotalRows(startDay: int, days: int): (rows: int)
    requires 0 <= startDay && 0 <= days
    ensures DaysPerRow * rows >= startDay + days
    ensures DaysPerRow * (rows - 1) < startDay + days
    ensures startDay < DaysPerRow && 28 <= days <= 31 ==> 4 <= rows <= 6
  {
    (startDay + days + DaysPerRow - 1) / DaysPerRow
  }

  /** A grid shape as the drawing code derives it: a column for the 1st, a length, and the rows needed. */
  predicate ValidShape(g: Shape) {
    0 <= g.startDay < DaysPerRow && 0 <= g.daysInMonth && g.rows == TotalRows(g.startDay, g.daysInMonth)
  }

  /** The shape of the grid of a month. */
  function ShapeOf(year: int, month: int): (g: Shape)
    requires ValidMonth(year, month)
    ensures ValidShape(g)
    ensures g.startDay == StartDay(year, month) && g.daysInMonth == DaysInMonth(year, month)
    ensures 28 <= g.daysInMonth <= 31 && 4 <= g.rows <= 6
  {
    MonthLengthRule(year, month);
    var s, n := StartDay(year, month), DaysInMonth(year, month);
    Shape(s, n, TotalRows(s, n))
  }

  /**
   * The shape computed as the drawing code does: the last day from the
   * chain of cases, the month length as the distance from the 1st to that
   * day plus one, the column of the 1st, and the row count.
   */
  method MonthShape(year: int, month: int) returns (g: Shape)
    requires ValidMonth(year, month)
    ensures g == ShapeOf(year, month)
  {
    var endDay := EndDay(year, month);
    var startDay := (Weekday(year, month, 1) + 1) % DaysPerRow;
    var daysInMonth := Ordinal(year, month, endDay) - Ordinal(year, month, 1) + 1;
    var totalRows := (startDay + daysInMonth + DaysPerRow - 1) / DaysPerRow;
    g := Shape(startDay, daysInMonth, totalRows);
  }

  /** `day_num` of the cell at (row, col). */
  function DayNum(row: int, col: int, startDay: int): int {
    row * DaysPerRow + col - startDay + 1
  }

  /** The record of every date: its sunrise and sunset lookups, guarded as one block. */
  function DayRecords(src: SunSource, utcOffset: int -> int): Date -> DayRecord {
    date => RecordOf(src.sunrise(date), src.sunset(date), utcOffset)
  }

  /** The cell at row-major index i of a grid of shape g, with `records` giving each date's record. */
  function CellAt(year: int, month: int, g: Shape, records: Date -> DayRecord, i: int): Cell {
    var d := i - g.startDay + 1;
    if 1 <= d <= g.daysInMonth then DayCell(d, records(Date(year, month, d))) else Empty
  }

  /** Every cell of a grid of shape g for the given month, in row-major order. */
  function GridCells(year: int, month: int, g: Shape, records: Date -> DayRecord): (cells: seq<Cell>)
    requires ValidShape(g)
    ensures |cells| == DaysPerRow * g.rows
    ensures g.startDay + g.daysInMonth <= |cells| < g.startDay + g.daysInMonth + DaysPerRow
  {
    seq(DaysPerRow * g.rows, i => CellAt(year, month, g, records, i))
  }

  /** Every cell of the month's grid, in row-major order. */
  function Cells(year: int, month: int, src: SunSource, utcOffset: int -> int): seq<Cell>
    requires ValidMonth(year, month)
  {
    GridCells(year, month, ShapeOf(year, month), DayRecords(src, utcOffset))
  }

  /**
   * The text drawn in a cell: nothing for an empty cell; for a day, its
   * number on the first line, then either the five record lines or the
   * library's error message.
   */
  function CellText(c: Cell): (s: string)
    ensures s == "" <==> c.Empty?
    ensures c.DayCell? ==> |s| > |Decimal(c.day)| && s[..|Decimal(c.day)| + 1] == Decimal(c.day) + "\n"
  {
    match c
    case Empty => ""
    case DayCell(d, Unavailable(msg)) =>
      Decimal(d) + "\nError: " + msg
    case DayCell(d, Times(sunrise, sunset, noon, dayLength, nightLength)) =>
      Decimal(d) + "\n"
      + "Sunrise: " + sunrise + "\n"
      + "Sunset: " + sunset + "\n"
      + "Solar Noon: " + noon + "\n"
      + "Day: " + dayLength + "\n"
      + "Night: " + nightLength
  }

  /** The texts of all cells of the month's grid, in drawing order. */
  function PageTexts(year: int, month: int, src: SunSource, utcOffset: int -> int): seq<string>
    requires ValidMonth(year, month)
  {
    var cells := Cells(year, month, src, utcOffset);
    seq(|cells|, i requires 0 <= i < |cells| => CellText(cells[i]))
  }

  /** The positions of the day cells in a sequence of cells. */
  function DayIndices(cells: seq<Cell>): set<int> {
    set i | 0 <= i < |cells| && cells[i].DayCell?
  }

  /** The number of day cells in a sequence of cells, counted from the front. */
  function CountDays(cells: seq<Cell>): (n: nat)
    ensures n <= |cells|
    ensures n == |DayIndices(cells)|
  {
    if cells == [] then 0
    else
      var k := |cells| - 1;
      var prefix := cells[..k];
      assert DayIndices(cells) == DayIndices(prefix) + if cells[k].DayCell? then {k} else {};
      CountDays(prefix) + if cells[k].DayCell? then 1 else 0
  }

  /**
   * The layout of a grid: the cell at index i holds day i - startDay + 1
   * when that is a day of the month and is empty otherwise, so there are
   * startDay leading blanks and fewer than a week of trailing ones.
   */
  lemma Layout(year: int, month: int, g: Shape, records: Date -> DayRecord)
    requires ValidShape(g)
    ensures var cells := GridCells(year, month, g, records);
      && (forall i :: 0 <= i < |cells| ==>
            (cells[i].Empty? <==> i < g.startDay || g.startDay + g.daysInMonth <= i))
      && (forall i :: 0 <= i < |cells| && cells[i].DayCell? ==> cells[i].day == i - g.startDay + 1)
  {
  }

  /**
   * Every day of the month sits in exactly one cell, at index
   * startDay + d - 1, and that cell holds the record of that date.
   */
  lemma DayPlacement(year: int, month: int, g: Shape, records: Date -> DayRecord, d: int)
    requires ValidShape(g) && 1 <= d <= g.daysInMonth
    ensures var cells, i := GridCells(year, month, g, records), g.startDay + d - 1;
      && 0 <= i < |cells|
      && cells[i] == DayCell(d, records(Date(year, month, d)))
      && forall j :: 0 <= j < |cells| && cells[j].DayCell? && cells[j].day == d ==> j == i
  {
    var cells := GridCells(year, month, g, records);
    forall j | 0 <= j < |cells| && cells[j].DayCell? && cells[j].day == d
      ensures j == g.startDay + d - 1
    {
      assert cells[j] == CellAt(year, month, g, records, j);
    }
  }

  /** Counting day cells of a sequence whose day cells are exactly those in lo..hi-1, up to index k. */
  lemma {:induction false} CountRun(cells: seq<Cell>, lo: int, hi: int, k: int)
    requires 0 <= lo <= hi <= |cells| && 0 <= k <= |cells|
    requires forall i :: 0 <= i < |cells| ==> (cells[i].DayCell? <==> lo <= i < hi)
    ensures CountDays(cells[..k]) == if k <= lo then 0 else if k <= hi then k - lo else hi - lo
    decreases k
  {
    if k > 0 {
      CountRun(cells, lo, hi, k - 1);
      assert cells[..k][..k - 1] == cells[..k - 1];
    }
  }

  /** A grid has exactly as many day cells as its month has days. */
  lemma DayCount(year: int, month: int, g: Shape, records: Date -> DayRecord)
    requires ValidShape(g)
    ensures CountDays(GridCells(year, month, g, records)) == g.daysInMonth
  {
    var cells := GridCells(year, month, g, records);
    Layout(year, month, g, records);
    CountRun(cells, g.startDay, g.startDay + g.daysInMonth, |cells|);
    assert cells[..|cells|] == cells;
  }

  /** Record functions that agree on every date but e give grids that agree on every cell but e's. */
  lemma SameRecordsSameCells(year: int, month: int, g: Shape, records: Date -> DayRecord, records': Date -> DayRecord, e: Date)
    requires ValidShape(g)
    requires forall date: Date :: date != e ==> records(date) == records'(date)
    ensures var cells, cells' := GridCells(year, month, g, records), GridCells(year, month, g, records');
      && |cells| == |cells'|
      && forall i :: 0 <= i < |cells| && !(cells[i].DayCell? && Date(year, month, cells[i].day) == e) ==>
           cells[i] == cells'[i]
  {
    var cells, cells' := GridCells(year, month, g, records), GridCells(year, month, g, records');
    forall i | 0 <= i < |cells| && !(cells[i].DayCell? && Date(year, month, cells[i].day) == e)
      ensures cells[i] == cells'[i]
    {
      assert cells[i] == CellAt(year, month, g, records, i);
      assert cells'[i] == CellAt(year, month, g, records', i);
    }
  }

  /**
   * The lookups for one date affect only that date's cell: two libraries
   * that agree on every other date give grids that agree on every other cell.
   */
  lemma OnlyOwnDate(year: int, month: int, g: Shape, src: SunSource, src': SunSource, utcOffset: int -> int, e: Date)
    requires ValidShape(g)
    requires forall d: Date :: d != e ==> src.sunrise(d) == src'.sunrise(d) && src.sunset(d) == src'.sunset(d)
    ensures var cells, cells' := GridCells(year, month, g, DayRecords(src, utcOffset)),
                                 GridCells(year, month, g, DayRecords(src', utcOffset));
      && |cells| == |cells'|
      && forall i :: 0 <= i < |cells| && !(cells[i].DayCell? && Date(year, month, cells[i].day) == e) ==>
           cells[i] == cells'[i]
  {
    var records, records' := DayRecords(src, utcOffset), DayRecords(src', utcOffset);
    forall date: Date | date != e
      ensures records(date) == records'(date)
    {
      assert src.sunrise(date) == src'.sunrise(date) && src.sunset(date) == src'.sunset(date);
    }
    SameRecordsSameCells(year, month, g, records, records', e);
  }

  /**
   * A failed lookup for day d makes that day's cell read the day number
   * and the error message: the sunrise's message if the sunrise failed,
   * else the sunset's.
   */
  lemma FailedLookupText(year: int, month: int, g: Shape, src: SunSource, utcOffset: int -> int, d: int)
    requires ValidShape(g) && 1 <= d <= g.daysInMonth
    requires src.sunrise(Date(year, month, d)).Failed? || src.sunset(Date(year, month, d)).Failed?
    ensures var rising, setting := src.sunrise(Date(year, month, d)), src.sunset(Date(year, month, d));
      CellText(GridCells(year, month, g, DayRecords(src, utcOffset))[g.startDay + d - 1])
      == Decimal(d) + "\nError: " + (if rising.Failed? then rising.message else setting.message)
  {
    DayPlacement(year, month, g, DayRecords(src, utcOffset), d);
    var rising, setting := src.sunrise(Date(year, month, d)), src.sunset(Date(year, month, d));
    var msg := if rising.Failed? then rising.message else setting.message;
    assert RecordOf(rising, setting, utcOffset) == Unavailable(msg);
  }

  /**
   * When both lookups for day d succeed, that day's cell reads the day
   * number and then the five lines: sunrise, sunset and solar noon on the
   * local 12-hour clock, and the day and night lengths as `HH:MM:SS`.
   */
  lemma KnownTimesText(year: int, month: int, g: Shape, src: SunSource, utcOffset: int -> int, d: int)
    requires ValidShape(g) && 1 <= d <= g.daysInMonth
    requires src.sunrise(Date(year, month, d)).At? && src.sunset(Date(year, month, d)).At?
    ensures var rise, set' := src.sunrise(Date(year, month, d)).instant, src.sunset(Date(year, month, d)).instant;
      var day := DayLength(rise, set', utcOffset);
      CellText(GridCells(year, month, g, DayRecords(src, utcOffset))[g.startDay + d - 1])
      == Decimal(d) + "\n"
         + "Sunrise: " + Format12(rise, utcOffset) + "\n"
         + "Sunset: " + Format12(set', utcOffset) + "\n"
         + "Solar Noon: " + NoonText(SolarNoon(rise, set'), utcOffset) + "\n"
         + "Day: " + HmsText(Split(WithinDay(day))) + "\n"
         + "Night: " + HmsText(Split(WithinDay(SecondsPerDay - day)))
  {
    DayPlacement(year, month, g, DayRecords(src, utcOffset), d);
  }

  /**
   * The drawing loop over a grid of shape g: for each row and each of the
   * seven columns in turn, the day number of the cell decides between an
   * empty cell and the record of that date.
   */
  method FillGrid(year: int, month: int, g: Shape, records: Date -> DayRecord) returns (cells: array<Cell>)
    requires ValidShape(g)
    ensures fresh(cells)
    ensures cells[..] == GridCells(year, month, g, records)
  {
    cells := new Cell[g.rows * DaysPerRow];
    var row := 0;
    while row < g.rows
      invariant 0 <= row <= g.rows
      invariant forall i :: 0 <= i < row * DaysPerRow ==> cells[i] == CellAt(year, month, g, records, i)
    {
      var col := 0;
      while col < DaysPerRow
        invariant 0 <= col <= DaysPerRow
        invariant forall i :: 0 <= i < row * DaysPerRow + col ==> cells[i] == CellAt(year, month, g, records, i)
      {
        var dayNum := DayNum(row, col, g.startDay);
        var cell := Empty;
        if 1 <= dayNum <= g.daysInMonth {
          var currentDate := Date(year, month, dayNum);
          cell := DayCell(dayNum, records(currentDate));
        }
        cells[row * DaysPerRow + col] := cell;
        col := col + 1;
      }
      row := row + 1;
    }
    assert forall i :: 0 <= i < cells.Length ==> cells[..][i] == GridCells(year, month, g, records)[i];
  }

  /** The month's grid: its shape, then the drawing loop with each date's guarded lookups. */
  method BuildGrid(year: int, month: int, src: SunSource, utcOffset: int -> int) returns (cells: array<Cell>)
    requires ValidMonth(year, month)
    ensures fresh(cells)
    ensures cells[..] == Cells(year, month, src, utcOffset)
  {
    var g := MonthShape(year, month);
    cells := FillGrid(year, month, g, DayRecords(src, utcOffset));
  }

  /**
   * Generating the calendar page for (month, year): a month or year that
   * `datetime` refuses stops generation with that error; otherwise the
   * page holds the text of every cell of the grid in drawing order.
   */
  method Generate(month: int, year: int, src: SunSource, utcOffset: int -> int) returns (r: Outcome)
    ensures r.Rejected? <==> !ValidMonth(year, month)
    ensures r.Rejected? ==> r.error == if MinYear <= year <= MaxYear then MonthOutOfRange(month) else YearOutOfRange(year)
    ensures r.Page? ==> r.texts == PageTexts(year, month, src, utcOffset)
  {
    if !(MinYear <= year <= MaxYear) {
      return Rejected(YearOutOfRange(year));
    }
    if !(1 <= month <= 12) {
      return Rejected(MonthOutOfRange(month));
    }
    var cells := BuildGrid(year, month, src, utcOffset);
    var drawn := cells[..];
    var texts := seq(|drawn|, i requires 0 <= i < |drawn| => CellText(drawn[i]));
    return Page(texts);
  }

  /** The worked examples: leap and common Februaries, and April 2025 starting on a Tuesday. */
  lemma Examples()
    ensures DaysInMonth(2024, 2) == 29 && DaysInMonth(2023, 2) == 28
    ensures DaysInMonth(2000, 2) == 29 && DaysInMonth(1900, 2) == 28
    ensures DaysInMonth(2025, 4) == 30 && StartDay(2025, 4) == 2
    ensures Weekday(2025, 4, 1) == 1 && TotalRows(StartDay(2025, 4), 30) == 5
  {
  }
}
