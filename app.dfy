/** The rules of the dashboard (app.py) that do not depend on the user
    interface: the sort state of the detailed log and the date range each
    analysis mode asks for.  Dates are day numbers as in `Common`. */
module App {

  import opened Common
  import DataLoader
  import Timeline

  // ---------------------------------------------------------------------
  // The sort state (app.py:125-135)

  /** The columns the log is sorted by: the default, and the two the
      clickable headers toggle. */
  datatype Column = LocalStart | Date | EventName

  datatype SortState = SortState(column: Column, ascending: bool)

  /** The state the session starts with: newest first. */
  const InitialSort := SortState(LocalStart, false)

  /** `toggle_sort(col_name)`: the current column flips its direction, any
      other column becomes current, ascending. */
  function Toggled(s: SortState, col: Column): (r: SortState)
    ensures r.column == col
    ensures s.column == col ==> r.ascending == !s.ascending
    ensures s.column != col ==> r.ascending
  {
    if s.column == col then SortState(col, !s.ascending) else SortState(col, true)
  }

  /** Toggling the same column twice gives back the state exactly when
      that column was already the current one. */
  lemma ToggleTwice(s: SortState, col: Column)
    ensures Toggled(Toggled(s, col), col) == s <==> s.column == col
  {
  }

  /** A new column is sorted ascending on the first click and descending
      on the second. */
  lemma NewColumnTwice(s: SortState, col: Column)
    requires s.column != col
    ensures Toggled(s, col) == SortState(col, true)
    ensures Toggled(Toggled(s, col), col) == SortState(col, false)
  {
  }

  /** The two session fields `sort_col` and `sort_asc`; `present` is
      whether they have been set in this session yet. */
  class SortSession {
    var present: bool
    var column: Column
    var ascending: bool

    function State(): SortState
      reads this
    {
      SortState(column, ascending)
    }

    /** A fresh session holds no sort state. */
    constructor ()
      ensures !present
    {
      present := false;
      column := LocalStart;
      ascending := false;
    }

    /** `if 'sort_col' not in st.session_state`: the defaults are written
        on the first run only; on every later run the state is kept. */
    method EnsureDefaults()
      modifies this
      ensures present
      ensures old(present) ==> State() == old(State())
      ensures !old(present) ==> State() == InitialSort
    {
      if !present {
        column := LocalStart;
        ascending := false;
        present := true;
      }
    }

    /** `toggle_sort(col_name)`, which runs after the defaults. */
    method Toggle(col: Column)
      requires present
      modifies this
      ensures present
      ensures State() == Toggled(old(State()), col)
    {
      if column == col {
        ascending := !ascending;
      } else {
        column := col;
        ascending := true;
      }
    }
  }

  /** Re-running the script, which sets the defaults again, does not undo
      a toggle. */
  method RerunKeepsToggle(session: SortSession, col: Column)
    requires session.present
    modifies session
    ensures session.present
    ensures session.State() == Toggled(old(session.State()), col)
  {
    session.Toggle(col);
    session.EnsureDefaults();
  }

  // ---------------------------------------------------------------------
  // The date range (app.py:84-100)

  /** The "Window" slider: 1 to 30 days, 7 by default. */
  type WindowDays = d: int | 1 <= d <= 30 witness 7

  /** The analysis mode with what its widget returned: the picked day, the
      window, the picked day of the week, or the dates of the range picker
      (one while a range is half chosen, two once it is complete). */
  datatype Mode =
    | SpecificDay(day: int)
    | LastNDays(days: WindowDays)
    | SpecificWeek(pick: int)
    | CustomRange(picked: seq<int>)

  datatype DateRange = DateRange(start: int, end: int)

  /** `start_date` and `end_date` as the mode leaves them; both start as
      today. */
  function RangeFor(mode: Mode, today: int): (r: DateRange)
    ensures mode.SpecificDay? ==> r.start == r.end == mode.day
    ensures mode.LastNDays? ==> r.end == today && r.end - r.start == mode.days
    ensures mode.CustomRange? && |mode.picked| == 2 ==> r == DateRange(mode.picked[0], mode.picked[1])
    ensures mode.CustomRange? && |mode.picked| != 2 ==> r == DateRange(today, today)
  {
    match mode
    case SpecificDay(day) => DateRange(day, day)
    case LastNDays(days) => DateRange(today - days, today)
    case SpecificWeek(pick) =>
      var start := pick - Weekday(pick);
      DateRange(start, start + 6)
    case CustomRange(picked) =>
      if |picked| == 2 then DateRange(picked[0], picked[1]) else DateRange(today, today)
  }

  /** Going back `Weekday(d)` days from `d` lands on a Monday. */
  lemma MondayOf(d: int)
    ensures Weekday(d - Weekday(d)) == 0
  {
    var w := Weekday(d);
    var q := (d + 3) / 7;
    assert d + 3 == 7 * q + w;
    assert d - w + 3 == 7 * q;
  }

  /** Days in one Monday-to-Sunday week have consecutive weekdays. */
  lemma WeekdayInWeek(monday: int, k: int)
    requires Weekday(monday) == 0 && 0 <= k < 7
    ensures Weekday(monday + k) == k
  {
    var q := (monday + 3) / 7;
    assert monday + 3 == 7 * q;
    assert monday + k + 3 == 7 * q + k;
  }

  /** Specific Week: the Monday-to-Sunday week holding the picked day, and
      no other week does. */
  lemma WeekRange(pick: int, today: int)
    ensures var r := RangeFor(SpecificWeek(pick), today);
      && Weekday(r.start) == 0
      && r.end == r.start + 6
      && r.start <= pick <= r.end
      && Weekday(r.end) == 6
    ensures forall monday :: Weekday(monday) == 0 && monday <= pick <= monday + 6 ==>
      monday == RangeFor(SpecificWeek(pick), today).start
  {
    var r := RangeFor(SpecificWeek(pick), today);
    MondayOf(pick);
    WeekdayInWeek(r.start, 6);
    forall monday | Weekday(monday) == 0 && monday <= pick <= monday + 6
      ensures monday == r.start
    {
      WeekdayInWeek(monday, pick - monday);
    }
  }

  /** Last N Days reaches N days back: the range holds N + 1 days, ending
      today, so between 2 and 31 of them. */
  lemma LastNDaysRange(days: WindowDays, today: int)
    ensures var r := RangeFor(LastNDays(days), today);
      && r.end == today
      && r.end - r.start + 1 == days + 1
      && 2 <= r.end - r.start + 1 <= 31
  {
  }

  /** Every mode but a custom range gives a range that does not run
      backwards. */
  lemma RangeOrdered(mode: Mode, today: int)
    requires !mode.CustomRange?
    ensures RangeFor(mode, today).start <= RangeFor(mode, today).end
  {
    if mode.SpecificWeek? {
      WeekRange(mode.pick, today);
    }
  }

  /** In Specific Day mode every row fetched for the range lies on the
      picked day, and so inside the x range of the timeline, which is drawn
      for the picked day (app.py:111-113). */
  lemma DayViewShowsEveryRow(day: int, today: int, events: seq<DataLoader.RawEvent>)
    ensures var range := RangeFor(SpecificDay(day), today);
      var rows := DataLoader.KeptRows(events, range.start, range.end);
      var axis := Timeline.AxisRange(Timeline.ReferenceDay(Some(day), rows, today));
      forall r :: r in rows ==> r.date == day && axis.0 <= r.start <= axis.1
  {
    var rows := DataLoader.KeptRows(events, day, day);
    forall r | r in rows ensures r.date == day && DateOf(r.start) == day {
      DataLoader.KeptRowsExactly(events, day, day, r);
    }
  }
}
