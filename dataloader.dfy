/** The row building of `fetch_calendar_data` (src/data_loader.py:60-99),
    run over events that have already been fetched and converted to the
    calendar's local time: which events become rows, and what each row
    holds. */
module DataLoader {

  import opened Common
  import opened Text
  import opened Notes

  // ---------------------------------------------------------------------
  // The colour table (src/config.py:7-20)

  datatype ColorInfo = ColorInfo(title: string, hex: string, emoji: string)

  const DefaultColor := ColorInfo("Default", "#039be5", "\U{1F5D3}\U{FE0F}")

  const Coffee := "\U{2615}"
  const Coder := "\U{1F468}\U{200D}\U{1F4BB}"

  const ColorMap: map<string, ColorInfo> := map[
    "1" := ColorInfo("Lavender", "#7986cb", Coffee),
    "2" := ColorInfo("Sage", "#33b679", "\U{1F634}\U{1F4A4}"),
    "3" := ColorInfo("Grape", "#8e24aa", Coffee),
    "4" := ColorInfo("Flamingo", "#e67c73", "\U{1F9E0}"),
    "5" := ColorInfo("Banana", "#f6bf26", "\U{1F4DE}"),
    "6" := ColorInfo("Tangerine", "#f4511e", Coder),
    "7" := ColorInfo("Peacock", "#039be5", Coffee),
    "8" := ColorInfo("Graphite", "#616161", "\U{1F4D3}"),
    "9" := ColorInfo("Blueberry", "#3f51b5", "\U{1F379}"),
    "10" := ColorInfo("Basil", "#0b8043", "\U{1F4A4}"),
    "11" := ColorInfo("Tomato", "#d50000", Coder),
    "Default" := DefaultColor
  ]

  predicate IsHexDigit(c: char)
  {
    ('0' <= c <= '9') || ('a' <= c <= 'f')
  }

  /** `#rrggbb` in lower case. */
  predicate IsHexColor(h: string)
  {
    && |h| == 7 && h[0] == '#'
    && IsHexDigit(h[1]) && IsHexDigit(h[2]) && IsHexDigit(h[3])
    && IsHexDigit(h[4]) && IsHexDigit(h[5]) && IsHexDigit(h[6])
  }

  /** The table's keys: the eleven Google Calendar colour ids and "Default". */
  lemma ColorIds(id: string)
    ensures id in ColorMap <==> id in {"1", "2", "3", "4", "5", "6", "7", "8", "9", "10", "11", "Default"}
  {
  }

  /** The colour codes, three entries at a time. */
  lemma HexColorsA()
    ensures IsHexColor(ColorMap["1"].hex) && IsHexColor(ColorMap["2"].hex) && IsHexColor(ColorMap["3"].hex)
  {
  }

  lemma HexColorsB()
    ensures IsHexColor(ColorMap["4"].hex) && IsHexColor(ColorMap["5"].hex) && IsHexColor(ColorMap["6"].hex)
  {
  }

  lemma HexColorsC()
    ensures IsHexColor(ColorMap["7"].hex) && IsHexColor(ColorMap["8"].hex) && IsHexColor(ColorMap["9"].hex)
  {
  }

  lemma HexColorsD()
    ensures IsHexColor(ColorMap["10"].hex) && IsHexColor(ColorMap["11"].hex) && IsHexColor(ColorMap["Default"].hex)
  {
  }

  /** Every entry of the table has a proper colour code. */
  lemma TableColorsAreHex()
    ensures forall id :: id in ColorMap ==> IsHexColor(ColorMap[id].hex)
  {
    HexColorsA();
    HexColorsB();
    HexColorsC();
    HexColorsD();
    forall id | id in ColorMap ensures IsHexColor(ColorMap[id].hex) {
      ColorIds(id);
    }
  }

  /** `COLOR_MAP.get(event.get('colorId', 'Default'), COLOR_MAP['Default'])`:
      a known colour id gets its own entry, a missing or unknown one the
      default entry. */
  function LookupColor(colorId: Option<string>): (c: ColorInfo)
    ensures colorId.Some? && colorId.value in ColorMap ==> c == ColorMap[colorId.value]
    ensures colorId.None? || colorId.value !in ColorMap ==> c == DefaultColor
  {
    var key := if colorId.Some? then colorId.value else "Default";
    if key in ColorMap then ColorMap[key] else ColorMap["Default"]
  }

  // ---------------------------------------------------------------------
  // Events and rows

  /** One fetched event.  `start`/`end` are the local `dateTime` values,
      `None` when absent or empty (all-day events carry only a `date`);
      the other fields are `None` when the event has no such key. */
  datatype RawEvent = RawEvent(
    start: Option<int>,
    end: Option<int>,
    summary: Option<string>,
    description: Option<string>,
    colorId: Option<string>)

  /** One row of the data frame.  The columns the loop derives from the
      event's colour id and description (`Hex Color`, `Cat Emoji` and the
      three note forms) are the members below, computed from the fields
      they are read from. */
  datatype Row = Row(
    date: int,
    name: string,
    start: int,
    end: int,
    description: Option<string>,
    colorId: Option<string>)
  {
    function Color(): ColorInfo
    {
      LookupColor(colorId)
    }

    function Notes(): NoteForms
    {
      ParseHtml(description)
    }
  }

  /** The loop keeps an event when both times are present and its start
      falls on a day in `[startDate, endDate]`. */
  predicate Keep(e: RawEvent, startDate: int, endDate: int)
  {
    && e.start.Some? && e.end.Some?
    && !(DateOf(e.start.value) < startDate || DateOf(e.start.value) > endDate)
  }

  /** `event.get('summary', 'Untitled').strip()`; the default has no
      whitespace to strip. */
  function EventName(summary: Option<string>): string
  {
    if summary.Some? then Strip(summary.value) else "Untitled"
  }

  /** The row dictionary built for a kept event. */
  function ToRow(e: RawEvent): (r: Row)
    requires e.start.Some? && e.end.Some?
    ensures r.start == e.start.value && r.end == e.end.value
    ensures r.date == DateOf(r.start)
    ensures r.name == EventName(e.summary)
  {
    Row(DateOf(e.start.value), EventName(e.summary), e.start.value, e.end.value, e.description, e.colorId)
  }

  /** The name has no whitespace at either end; it is empty exactly when
      the summary is all whitespace; and an event without a summary is
      named "Untitled", which is what stripping the default gives. */
  lemma NameIsStripped(summary: Option<string>)
    ensures var n := EventName(summary);
      n == [] || (!IsSpace(n[0]) && !IsSpace(n[|n| - 1]))
    ensures summary.Some? ==> (EventName(summary) == [] <==> AllSpace(summary.value))
    ensures EventName(None) == Strip("Untitled")
  {
    if summary.Some? {
      StripEmpty(summary.value);
    }
    assert StripStart("Untitled") == 0;
    assert StripEnd("Untitled") == 8;
  }

  /** Every row has a proper colour code from the table, the default entry
      when its colour id is missing or unknown. */
  lemma RowColor(r: Row)
    ensures IsHexColor(r.Color().hex)
    ensures r.colorId.None? || r.colorId.value !in ColorMap ==> r.Color() == DefaultColor
  {
    TableColorsAreHex();
    assert ColorMap["Default"] == DefaultColor;
  }

  /** The events the loop keeps, in order. */
  function KeptEvents(events: seq<RawEvent>, startDate: int, endDate: int): (kept: seq<RawEvent>)
    ensures |kept| <= |events|
    ensures forall k :: 0 <= k < |kept| ==> Keep(kept[k], startDate, endDate)
  {
    if events == [] then []
    else
      var prev := KeptEvents(events[..|events| - 1], startDate, endDate);
      var e := events[|events| - 1];
      if Keep(e, startDate, endDate) then prev + [e] else prev
  }

  /** One row per event, in order. */
  function RowsOf(kept: seq<RawEvent>): (rows: seq<Row>)
    requires forall k :: 0 <= k < |kept| ==> kept[k].start.Some? && kept[k].end.Some?
    ensures |rows| == |kept|
  {
    seq(|kept|, k requires 0 <= k < |kept| => ToRow(kept[k]))
  }

  /** Appending an event appends its row. */
  lemma RowsOfSnoc(kept: seq<RawEvent>, e: RawEvent)
    requires forall k :: 0 <= k < |kept| ==> kept[k].start.Some? && kept[k].end.Some?
    requires e.start.Some? && e.end.Some?
    ensures RowsOf(kept + [e]) == RowsOf(kept) + [ToRow(e)]
  {
    var a, b := RowsOf(kept + [e]), RowsOf(kept) + [ToRow(e)];
    forall k | 0 <= k < |a| ensures a[k] == b[k] {
      if k < |kept| {
        assert (kept + [e])[k] == kept[k];
      }
    }
  }

  /** The rows the loop produces. */
  function KeptRows(events: seq<RawEvent>, startDate: int, endDate: int): (rows: seq<Row>)
    ensures |rows| <= |events|
    ensures forall k :: 0 <= k < |rows| ==> startDate <= rows[k].date <= endDate
  {
    var kept := KeptEvents(events, startDate, endDate);
    RowsOf(kept)
  }

  /** The row loop, appending to `rows`. */
  method FetchRows(events: seq<RawEvent>, startDate: int, endDate: int) returns (rows: seq<Row>)
    ensures rows == KeptRows(events, startDate, endDate)
    ensures |rows| <= |events|
  {
    rows := [];
    ghost var kept: seq<RawEvent> := [];
    for k := 0 to |events|
      invariant kept == KeptEvents(events[..k], startDate, endDate)
      invariant rows == RowsOf(kept)
    {
      assert events[..k + 1][..k] == events[..k];
      var e := events[k];
      if e.start.Some? && e.end.Some? {
        var startDay := DateOf(e.start.value);
        if startDay < startDate || startDay > endDate {
          continue;
        }
        RowsOfSnoc(kept, e);
        rows := rows + [ToRow(e)];
        kept := kept + [e];
      }
    }
    assert events[..|events|] == events;
  }

  // ---------------------------------------------------------------------
  // Properties of the filter

  /** An event is kept exactly when the filter accepts it: every kept
      event is one of the inputs, and every accepted input is kept. */
  lemma {:induction false} KeptEventsExactly(events: seq<RawEvent>, startDate: int, endDate: int, e: RawEvent)
    ensures e in KeptEvents(events, startDate, endDate) <==> e in events && Keep(e, startDate, endDate)
    decreases |events|
  {
    if events != [] {
      var n := |events| - 1;
      KeptEventsExactly(events[..n], startDate, endDate, e);
      assert events == events[..n] + [events[n]];
    }
  }

  /** The same, for rows: each row is the row of an accepted event, and
      each accepted event has its row. */
  lemma KeptRowsExactly(events: seq<RawEvent>, startDate: int, endDate: int, r: Row)
    ensures r in KeptRows(events, startDate, endDate) <==>
      exists e :: e in events && Keep(e, startDate, endDate) && ToRow(e) == r
  {
    var kept := KeptEvents(events, startDate, endDate);
    var rows := KeptRows(events, startDate, endDate);
    if r in rows {
      var k :| 0 <= k < |rows| && rows[k] == r;
      KeptEventsExactly(events, startDate, endDate, kept[k]);
    }
    if exists e :: e in events && Keep(e, startDate, endDate) && ToRow(e) == r {
      var e :| e in events && Keep(e, startDate, endDate) && ToRow(e) == r;
      KeptEventsExactly(events, startDate, endDate, e);
      var k :| 0 <= k < |kept| && kept[k] == e;
      assert rows[k] == ToRow(kept[k]);
    }
  }

  /** Events whose start times (where present) never decrease. */
  ghost predicate InStartOrder(events: seq<RawEvent>)
  {
    forall i, j :: 0 <= i < j < |events| && events[i].start.Some? && events[j].start.Some? ==>
      events[i].start.value <= events[j].start.value
  }

  /** Kept events keep their order: when the fetched events are in start
      order, so are the rows. */
  lemma {:induction false} KeptEventsInOrder(events: seq<RawEvent>, startDate: int, endDate: int)
    requires InStartOrder(events)
    ensures InStartOrder(KeptEvents(events, startDate, endDate))
    decreases |events|
  {
    if events != [] {
      var n := |events| - 1;
      var init := events[..n];
      KeptEventsInOrder(init, startDate, endDate);
      var prev := KeptEvents(init, startDate, endDate);
      if Keep(events[n], startDate, endDate) {
        forall i | 0 <= i < |prev| ensures prev[i].start.value <= events[n].start.value {
          assert prev[i] in prev;
          KeptEventsExactly(init, startDate, endDate, prev[i]);
          var k :| 0 <= k < |init| && init[k] == prev[i];
          assert events[k] == init[k];
        }
        var kept := KeptEvents(events, startDate, endDate);
        assert kept == prev + [events[n]];
        forall i, j | 0 <= i < j < |kept| ensures kept[i].start.value <= kept[j].start.value {
          assert kept[i] == prev[i];
          if j < |prev| {
            assert kept[j] == prev[j];
          } else {
            assert kept[j] == events[n];
          }
        }
      } else {
        assert KeptEvents(events, startDate, endDate) == prev;
      }
    }
  }

  lemma KeptRowsInStartOrder(events: seq<RawEvent>, startDate: int, endDate: int)
    requires InStartOrder(events)
    ensures var rows := KeptRows(events, startDate, endDate);
      forall i, j :: 0 <= i < j < |rows| ==> rows[i].start <= rows[j].start
  {
    KeptEventsInOrder(events, startDate, endDate);
    var kept := KeptEvents(events, startDate, endDate);
    var rows := KeptRows(events, startDate, endDate);
    forall i, j | 0 <= i < j < |rows| ensures rows[i].start <= rows[j].start {
      assert rows[i].start == kept[i].start.value && rows[j].start == kept[j].start.value;
      assert kept[i].start.value <= kept[j].start.value;
    }
  }
}
