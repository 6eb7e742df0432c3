/**
 The month grid: seven columns of weekdays, at most six rows, day 1 under the weekday the month
 starts on, and the date key each in-month cell carries.
 */
module MonthGrid {
  import opened Wrappers
  import opened Text
  import opened EventStore

  const Columns: int := 7
  const MaxRows: int := 6

  /**
   What the calendar library reports for a month: the weekday of its first day (0 = Sunday) and
   its number of days.
   */
  predicate MonthShape(firstDayOfMonth: int, daysInMonth: int)
  {
    0 <= firstDayOfMonth < Columns && 28 <= daysInMonth <= 31
  }

  /** The day number shown in row `row`, column `col`, or `None` for an empty cell. */
  function CellDay(firstDayOfMonth: int, daysInMonth: int, row: int, col: int): Option<int>
  {
    var n := 7 * row + col - firstDayOfMonth + 1;
    if 1 <= n <= daysInMonth then Some(n) else None
  }

  /** The number of rows the grid emits: ceil((firstDayOfMonth + daysInMonth) / 7). */
  function RowCount(firstDayOfMonth: nat, daysInMonth: nat): nat
  {
    (firstDayOfMonth + daysInMonth + Columns - 1) / Columns
  }

  /** Some cell of row `row` shows a day. */
  predicate RowHasDay(firstDayOfMonth: int, daysInMonth: int, row: int)
  {
    exists c :: 0 <= c < Columns && CellDay(firstDayOfMonth, daysInMonth, row, c).Some?
  }

  /**
   Every grid has four, five or six rows; each emitted row shows a day, and no cell below the
   emitted rows would.
   */
  lemma RowCountBounds(firstDayOfMonth: int, daysInMonth: int)
    requires MonthShape(firstDayOfMonth, daysInMonth)
    ensures 4 <= RowCount(firstDayOfMonth, daysInMonth) <= MaxRows
    ensures forall r :: 0 <= r < RowCount(firstDayOfMonth, daysInMonth) ==> RowHasDay(firstDayOfMonth, daysInMonth, r)
    ensures forall r, c :: RowCount(firstDayOfMonth, daysInMonth) <= r && 0 <= c < Columns ==>
              CellDay(firstDayOfMonth, daysInMonth, r, c) == None
  {
    var rows := RowCount(firstDayOfMonth, daysInMonth);
    forall r | 0 <= r < rows ensures RowHasDay(firstDayOfMonth, daysInMonth, r) {
      if r == 0 {
        assert CellDay(firstDayOfMonth, daysInMonth, 0, firstDayOfMonth) == Some(1);
      } else {
        assert CellDay(firstDayOfMonth, daysInMonth, r, 0).Some?;
      }
    }
  }

  /**
   Each day of the month appears exactly once: day `day` sits at row (firstDayOfMonth + day - 1) / 7,
   column (firstDayOfMonth + day - 1) % 7, inside the emitted rows, and in no other cell.
   */
  lemma DayAppearsOnce(firstDayOfMonth: int, daysInMonth: int, day: int)
    requires MonthShape(firstDayOfMonth, daysInMonth)
    requires 1 <= day <= daysInMonth
    ensures var p := firstDayOfMonth + day - 1;
      && p / Columns < RowCount(firstDayOfMonth, daysInMonth)
      && CellDay(firstDayOfMonth, daysInMonth, p / Columns, p % Columns) == Some(day)
      && forall r, c :: 0 <= c < Columns && CellDay(firstDayOfMonth, daysInMonth, r, c) == Some(day) ==>
           r == p / Columns && c == p % Columns
  {
    var p := firstDayOfMonth + day - 1;
    forall r, c | 0 <= c < Columns && CellDay(firstDayOfMonth, daysInMonth, r, c) == Some(day)
      ensures r == p / Columns && c == p % Columns
    {
      assert 7 * r + c == p;
    }
  }

  /**
   Days run in row-major order: day 1 is at row 0, column firstDayOfMonth, and the cell after any
   day but the last holds the next day.
   */
  lemma RowMajorOrder(firstDayOfMonth: int, daysInMonth: int, r: int, c: int, day: int)
    requires MonthShape(firstDayOfMonth, daysInMonth)
    requires 0 <= c < Columns && CellDay(firstDayOfMonth, daysInMonth, r, c) == Some(day)
    ensures CellDay(firstDayOfMonth, daysInMonth, 0, firstDayOfMonth) == Some(1)
    ensures day < daysInMonth ==>
      if c + 1 < Columns then CellDay(firstDayOfMonth, daysInMonth, r, c + 1) == Some(day + 1)
      else CellDay(firstDayOfMonth, daysInMonth, r + 1, 0) == Some(day + 1)
  {
    assert day == 7 * r + c - firstDayOfMonth + 1;
    if day < daysInMonth {
      if c + 1 < Columns {
        assert 7 * r + (c + 1) - firstDayOfMonth + 1 == day + 1;
      } else {
        assert 7 * (r + 1) + 0 - firstDayOfMonth + 1 == day + 1;
      }
    }
  }

  /** April 2025 starts on a Tuesday and has 30 days: five rows, two empty cells before, three after. */
  lemma April2025Layout()
    ensures RowCount(2, 30) == 5
    ensures CellDay(2, 30, 0, 0) == None && CellDay(2, 30, 0, 1) == None && CellDay(2, 30, 0, 2) == Some(1)
    ensures CellDay(2, 30, 4, 3) == Some(30)
    ensures CellDay(2, 30, 4, 4) == None && CellDay(2, 30, 4, 5) == None && CellDay(2, 30, 4, 6) == None
  {
  }

  /**
   The key of a day: the year, then the month number (month + 1) and the day, each zero-padded to
   two digits, separated by '-'.
   */
  function DateKey(year: int, month: int, day: int): string
    requires 0 <= month <= 11 && 1 <= day <= 31
  {
    IntToString(year) + KeyTail(month, day)
  }

  /** The part of a key after the year: "-", the padded month number, "-", the padded day. */
  function KeyTail(month: int, day: int): string
    requires 0 <= month <= 11 && 1 <= day <= 31
  {
    "-" + PadStart2(NatToString(month + 1)) + "-" + PadStart2(NatToString(day))
  }

  /** The key is "YYYY-MM-DD": the year's numeral, '-', two month digits, '-', two day digits. */
  lemma DateKeyFormat(year: int, month: int, day: int)
    requires 0 <= month <= 11 && 1 <= day <= 31
    ensures KeyTail(month, day) == ['-', DigitChar((month + 1) / 10), DigitChar((month + 1) % 10),
                                    '-', DigitChar(day / 10), DigitChar(day % 10)]
    ensures |DateKey(year, month, day)| == |IntToString(year)| + 6
  {
    PaddedTwoDigits(month + 1);
    PaddedTwoDigits(day);
  }

  /** Distinct days get distinct keys, across months and years alike. */
  lemma DateKeyInjective(y1: int, m1: int, d1: int, y2: int, m2: int, d2: int)
    requires 0 <= m1 <= 11 && 1 <= d1 <= 31
    requires 0 <= m2 <= 11 && 1 <= d2 <= 31
    requires DateKey(y1, m1, d1) == DateKey(y2, m2, d2)
    ensures y1 == y2 && m1 == m2 && d1 == d2
  {
    DateKeyFormat(y1, m1, d1);
    DateKeyFormat(y2, m2, d2);
    SplitEqual(IntToString(y1), KeyTail(m1, d1), IntToString(y2), KeyTail(m2, d2));
    IntToStringInjective(y1, y2);
    DigitCharInjective((m1 + 1) / 10, (m2 + 1) / 10);
    DigitCharInjective((m1 + 1) % 10, (m2 + 1) % 10);
    DigitCharInjective(d1 / 10, d2 / 10);
    DigitCharInjective(d1 % 10, d2 % 10);
  }

  lemma SplitEqual(a1: string, b1: string, a2: string, b2: string)
    requires a1 + b1 == a2 + b2 && |b1| == |b2|
    ensures a1 == a2 && b1 == b2
  {
    assert a1 == (a1 + b1)[..|a1|];
    assert b1 == (a1 + b1)[|a1|..];
  }

  lemma DigitCharInjective(a: nat, b: nat)
    requires a < 10 && b < 10 && DigitChar(a) == DigitChar(b)
    ensures a == b
  {
    assert DigitValue(DigitChar(a)) == a && DigitValue(DigitChar(b)) == b;
  }

  /** The count a cell shows: the length of the day's list, or 0 when the day has no entry. */
  function DayEventCount(events: Events, key: string): (n: nat)
    ensures n > 0 <==> key in events && events[key] != []
  {
    if key in events then |events[key]| else 0
  }

  /** A rendered cell: empty, or a day with its key, its event count and whether it is selected. */
  datatype Cell =
    | Blank
    | Day(day: int, key: string, eventCount: nat, selected: bool)

  /** The cell at row `row`, column `col` of the grid for `month` of `year`. */
  function GridCell(events: Events, selection: Option<string>, year: int, month: int,
                    firstDayOfMonth: int, daysInMonth: int, row: int, col: int): Cell
    requires 0 <= month <= 11 && MonthShape(firstDayOfMonth, daysInMonth)
  {
    match CellDay(firstDayOfMonth, daysInMonth, row, col)
    case None => Blank
    case Some(n) =>
      var key := DateKey(year, month, n);
      Day(n, key, DayEventCount(events, key), selection == Some(key))
  }

  /** Row `row` of the rendered grid is exactly the seven cells the layout puts there. */
  predicate RowMatches(cells: seq<Cell>, events: Events, selection: Option<string>, year: int, month: int,
                       firstDayOfMonth: int, daysInMonth: int, row: int)
    requires 0 <= month <= 11 && MonthShape(firstDayOfMonth, daysInMonth)
  {
    && |cells| == Columns
    && forall c :: 0 <= c < Columns ==>
         cells[c] == GridCell(events, selection, year, month, firstDayOfMonth, daysInMonth, row, c)
  }

  /**
   A cell is empty exactly when no day falls on it; a day cell carries that day's key, shows the
   event indicator exactly when the day's list is non-empty, and is highlighted exactly when its key
   is the selection.
   */
  lemma GridCellMeaning(events: Events, selection: Option<string>, year: int, month: int,
                        firstDayOfMonth: int, daysInMonth: int, row: int, col: int)
    requires 0 <= month <= 11 && MonthShape(firstDayOfMonth, daysInMonth)
    ensures var cell := GridCell(events, selection, year, month, firstDayOfMonth, daysInMonth, row, col);
      && (cell.Blank? <==> CellDay(firstDayOfMonth, daysInMonth, row, col).None?)
      && (cell.Day? ==>
            && CellDay(firstDayOfMonth, daysInMonth, row, col) == Some(cell.day)
            && cell.key == DateKey(year, month, cell.day)
            && (cell.eventCount > 0 <==> cell.key in events && events[cell.key] != [])
            && (cell.selected <==> selection == Some(cell.key)))
  {
  }

}
