/**
 The widget's state and handlers: the event map, the month on display, the selected day and the
 persisted blob, changed in place by adding, deleting, selecting and navigating.
 */
module CalendarApp {
  import opened Wrappers
  import opened Text
  import opened Json
  import opened EventStore
  import opened MonthGrid
  import opened Gregorian

  /** The month after `month` of `year`: December rolls over to January of the next year. */
  function Following(month: int, year: int): (r: (int, int))
    requires 0 <= month <= 11
    ensures 0 <= r.0 <= 11
    ensures 12 * r.1 + r.0 == 12 * year + month + 1
  {
    if month == 11 then (0, year + 1) else (month + 1, year)
  }

  /** The month before `month` of `year`: January rolls back to December of the previous year. */
  function Preceding(month: int, year: int): (r: (int, int))
    requires 0 <= month <= 11
    ensures 0 <= r.0 <= 11
    ensures 12 * r.1 + r.0 == 12 * year + month - 1
  {
    if month == 0 then (11, year - 1) else (month - 1, year)
  }

  /** Stepping forward then back, or back then forward, returns to the same month. */
  lemma NavigationInverse(month: int, year: int)
    requires 0 <= month <= 11
    ensures Preceding(Following(month, year).0, Following(month, year).1) == (month, year)
    ensures Following(Preceding(month, year).0, Preceding(month, year).1) == (month, year)
  {
  }

  /**
   Nothing to add to: `!selectedDateString` is true when no day is selected and also when the
   selected key is the empty string, since JavaScript treats an empty string as false.
   */
  predicate NoTarget(selection: Option<string>)
  {
    selection.None? || selection.value == ""
  }

  /**
   Every key a day cell hands to the selection handler is a non-empty string, so clicking a day
   always gets past the `!selectedDateString` guard: the empty-key case cannot come from the grid.
   */
  lemma CellKeyIsTarget(year: int, month: int, day: int)
    requires 0 <= month <= 11 && 1 <= day <= 31
    ensures !NoTarget(Some(DateKey(year, month, day)))
  {
    DateKeyFormat(year, month, day);
  }

  /**
   Reloading after an add finds the day's earlier list with the new entry at its end, and every
   other non-empty day with its list unchanged.
   */
  lemma AddThenReload(events: Events, key: string, entry: Json)
    ensures var reloaded := Normalized(Some(Serialized(Pruned(Appended(events, key, entry)))));
      && key in reloaded
      && reloaded[key] == (if key in events then events[key] else []) + [entry]
      && (forall k :: k != key ==> (k in reloaded <==> k in events && events[k] != []))
      && (forall k :: k != key && k in reloaded ==> reloaded[k] == events[k])
  {
    SaveLoadRoundTrip(Appended(events, key, entry));
  }

  /**
   Reloading after a delete: deleting a day's only event leaves no trace of the day, deleting one
   of several keeps the others in their order, and every other non-empty day reloads unchanged.
   */
  lemma DeleteThenReload(events: Events, key: string, index: nat)
    requires key in events && index < |events[key]|
    ensures var reloaded := Normalized(Some(Serialized(Pruned(DeleteAt(events, key, index)))));
      && (key in reloaded <==> |events[key]| > 1)
      && (key in reloaded ==> reloaded[key] == RemoveAt(events[key], index))
      && (forall k :: k != key ==> (k in reloaded <==> k in events && events[k] != []))
      && (forall k :: k != key && k in reloaded ==> reloaded[k] == events[k])
  {
    SaveLoadRoundTrip(DeleteAt(events, key, index));
  }

  class Calendar {
    var events: Events
    var currentMonth: int
    var currentYear: int
    var selected: Option<string>
    /** The persisted blob, through its parsed value (`None`: absent or unreadable). */
    var storage: Option<Json>

    /**
     The month index is a real month, and reloading the persisted blob would give back every
     non-empty day of the in-memory map, with the same list.
     */
    ghost predicate Valid()
      reads this
    {
      && 0 <= currentMonth <= 11
      && Pruned(Normalized(storage)) == Pruned(events)
    }

    /** Start-up: load the events from the blob and show the given month with nothing selected. */
    constructor (stored: Option<Json>, month: int, year: int)
      requires 0 <= month <= 11
      ensures Valid()
      ensures events == Normalized(stored) && storage == stored
      ensures currentMonth == month && currentYear == year && selected == None
    {
      var loaded := Load(stored);
      events := loaded;
      storage := stored;
      currentMonth := month;
      currentYear := year;
      selected := None;
    }

    /** Overwrites the blob with every non-empty day of the map. */
    method Save()
      modifies this`storage
      ensures storage == Some(Serialized(Pruned(events)))
      ensures Normalized(storage) == Pruned(events)
      ensures Pruned(Normalized(storage)) == Pruned(events)
    {
      var cleaned := Prune(events);
      storage := Some(Serialized(cleaned));
      SaveLoadRoundTrip(events);
      PrunedIdempotent(events);
    }

    /**
     The grid for `month` of `year`: the nested row/column loop that stops emitting rows once the
     days run out.
     */
    method Render(month: int, year: int) returns (rows: seq<seq<Cell>>)
      requires 0 <= month <= 11
      ensures var firstDayOfMonth, daysInMonth := FirstDayOfMonth(year, month), DaysInMonth(year, month);
        && |rows| == RowCount(firstDayOfMonth, daysInMonth)
        && forall r :: 0 <= r < |rows| ==>
             RowMatches(rows[r], events, selected, year, month, firstDayOfMonth, daysInMonth, r)
    {
      var firstDayOfMonth := FirstDayOfMonth(year, month);
      var daysInMonth := DaysInMonth(year, month);
      rows := [];
      var date := 1;
      var i := 0;
      while i < MaxRows
        invariant 0 <= i < RowCount(firstDayOfMonth, daysInMonth)
        invariant |rows| == i
        invariant date == MinInt(daysInMonth + 1, MaxInt(1, 7 * i - firstDayOfMonth + 1)) <= daysInMonth
        invariant forall r :: 0 <= r < i ==>
                    RowMatches(rows[r], events, selected, year, month, firstDayOfMonth, daysInMonth, r)
        decreases MaxRows - i
      {
        var row, cellsRenderedInRow;
        row, date, cellsRenderedInRow := RenderRow(month, year, firstDayOfMonth, daysInMonth, i, date);
        if cellsRenderedInRow > 0 || i == 0 {
          rows := rows + [row];
        } else {
          break;
        }
        if date > daysInMonth {
          break;
        }
        i := i + 1;
      }
    }

    /**
     One row of the grid: the column loop, which places days from `date` on and returns the advanced
     counter together with how many day cells it placed.
     */
    method RenderRow(month: int, year: int, firstDayOfMonth: int, daysInMonth: int, i: int, date: int)
      returns (row: seq<Cell>, next: int, cellsRenderedInRow: int)
      requires 0 <= month <= 11 && MonthShape(firstDayOfMonth, daysInMonth) && 0 <= i
      requires date == MinInt(daysInMonth + 1, MaxInt(1, 7 * i - firstDayOfMonth + 1))
      ensures RowMatches(row, events, selected, year, month, firstDayOfMonth, daysInMonth, i)
      ensures next == MinInt(daysInMonth + 1, MaxInt(1, 7 * (i + 1) - firstDayOfMonth + 1))
      ensures cellsRenderedInRow == next - date
    {
      row := [];
      cellsRenderedInRow := 0;
      next := date;
      var j := 0;
      while j < Columns
        invariant 0 <= j <= Columns && |row| == j
        invariant next == MinInt(daysInMonth + 1, MaxInt(1, 7 * i + j - firstDayOfMonth + 1))
        invariant cellsRenderedInRow == next - date
        invariant forall c :: 0 <= c < j ==>
                    row[c] == GridCell(events, selected, year, month, firstDayOfMonth, daysInMonth, i, c)
      {
        CellAtCursor(firstDayOfMonth, daysInMonth, i, j, next);
        var cell;
        if i == 0 && j < firstDayOfMonth {
          cell := Blank;
        } else if next > daysInMonth {
          cell := Blank;
        } else {
          var key := DateKey(year, month, next);
          cell := Day(next, key, DayEventCount(events, key), selected == Some(key));
          next := next + 1;
          cellsRenderedInRow := cellsRenderedInRow + 1;
        }
        assert cell == GridCell(events, selected, year, month, firstDayOfMonth, daysInMonth, i, j);
        row := row + [cell];
        j := j + 1;
      }
    }

    /**
     Adds the trimmed text as the selected day's last event and saves; does nothing when no day is
     selected or the text is only whitespace.
     */
    method AddEvent(text: string)
      requires Valid()
      modifies this`events, this`storage
      ensures Valid()
      ensures NoTarget(selected) || Trim(text) == [] ==>
                events == old(events) && storage == old(storage)
      ensures !NoTarget(selected) && Trim(text) != [] ==>
                && events == Appended(old(events), selected.value, JString(Trim(text)))
                && storage == Some(Serialized(Pruned(events)))
    {
      if NoTarget(selected) {
        return;
      }
      var description := Trim(text);
      if description == [] {
        return;
      }
      var dayEvents := if selected.value in events then events[selected.value] else [];
      dayEvents := dayEvents + [JString(description)];
      events := events[selected.value := dayEvents];
      Save();
    }

    /**
     Removes the event at `index` of day `key` and saves; does nothing when the day has no list or
     the index is past its end. The selection stays as it is.
     */
    method DeleteEvent(key: string, index: nat)
      requires Valid()
      modifies this`events, this`storage
      ensures Valid()
      ensures events == DeleteAt(old(events), key, index)
      ensures key !in old(events) || |old(events)[key]| <= index ==> storage == old(storage)
      ensures key in old(events) && index < |old(events)[key]| ==> storage == Some(Serialized(Pruned(events)))
      ensures selected == old(selected)
    {
      if key !in events || |events[key]| <= index {
        return;
      }
      events := events[key := RemoveAt(events[key], index)];
      if |events[key]| == 0 {
        events := events - {key};
      }
      Save();
    }

    /** Clicking a day cell makes its key the selection. */
    method SelectDate(key: string)
      requires Valid()
      modifies this`selected
      ensures Valid()
      ensures selected == Some(key)
    {
      selected := Some(key);
    }

    /** The "next month" button: one month forward, rolling over the year, and nothing selected. */
    method NextMonth()
      requires Valid()
      modifies this`currentMonth, this`currentYear, this`selected
      ensures Valid()
      ensures (currentMonth, currentYear) == Following(old(currentMonth), old(currentYear))
      ensures selected == None
    {
      currentMonth := currentMonth + 1;
      if currentMonth > 11 {
        currentMonth := 0;
        currentYear := currentYear + 1;
      }
      selected := None;
    }

    /** The "previous month" button: one month back, rolling over the year, and nothing selected. */
    method PrevMonth()
      requires Valid()
      modifies this`currentMonth, this`currentYear, this`selected
      ensures Valid()
      ensures (currentMonth, currentYear) == Preceding(old(currentMonth), old(currentYear))
      ensures selected == None
    {
      currentMonth := currentMonth - 1;
      if currentMonth < 0 {
        currentMonth := 11;
        currentYear := currentYear - 1;
      }
      selected := None;
    }
  }

  function MinInt(a: int, b: int): int { if a <= b then a else b }

  function MaxInt(a: int, b: int): int { if a >= b then a else b }

  /**
   The render loop's `date` counter at row `row`, column `col`: the day that cell shows when it shows
   one, and the cell then advances it by one.
   */
  lemma CellAtCursor(firstDayOfMonth: int, daysInMonth: int, row: int, col: int, date: int)
    requires MonthShape(firstDayOfMonth, daysInMonth) && 0 <= row && 0 <= col < Columns
    requires date == MinInt(daysInMonth + 1, MaxInt(1, 7 * row + col - firstDayOfMonth + 1))
    ensures CellDay(firstDayOfMonth, daysInMonth, row, col) ==
              if (row == 0 && col < firstDayOfMonth) || date > daysInMonth then None else Some(date)
    ensures var next := if (row == 0 && col < firstDayOfMonth) || date > daysInMonth then date else date + 1;
              next == MinInt(daysInMonth + 1, MaxInt(1, 7 * row + col + 1 - firstDayOfMonth + 1))
  {
  }

}
