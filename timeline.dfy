/** The layout arithmetic of `plot_interactive_timeline`
    (src/visualization.py:13-139) without the drawing calls.

    Vertical positions are in tenths of a y-axis unit, so that the
    source's constants are whole numbers: a sub-lane is 4 tenths
    (`SUB_LANE_OFFSET = 0.4`), half of it 2, the gap between categories 5
    (0.5), and the figure is 50 pixels per unit, 5 per tenth.  Times are
    local seconds as in `Common`. */
module Timeline {

  import opened Common
  import opened Lanes
  import opened DataLoader
  import opened Categories

  const LaneStep: int := 4
  const HalfLane: int := 2
  const CategoryGap: int := 5
  const PixelsPerTenth: int := 5
  const MinHeight: int := 400
  const LabelYShift: int := 16
  const LabelXShift: int := 5

  // ---------------------------------------------------------------------
  // Vertical layout of one category

  /** `category_height = (max_sub + 1) * SUB_LANE_OFFSET`; `max_sub` is the
      lane count, so a band holds one lane more than it uses. */
  function BandHeight(laneCount: nat): int
  {
    (laneCount + 1) * LaneStep
  }

  /** Bottom and top of the grey band (`y0`, `y1` of the rectangle). */
  function BandBottom(base: int): int
  {
    base - HalfLane
  }

  function BandTop(base: int, laneCount: nat): int
  {
    base + BandHeight(laneCount) - HalfLane
  }

  /** `center_y`: the category's tick sits `0.2` per lane above the base,
      in the middle of its band. */
  function LabelCentre(base: int, laneCount: nat): (c: int)
    ensures c == base + 2 * laneCount
    ensures 2 * c == BandBottom(base) + BandTop(base, laneCount)
  {
    base + BandHeight(laneCount) / 2 - HalfLane
  }

  /** `y_pos = current_y_base + sub_idx * SUB_LANE_OFFSET`. */
  function BarY(base: int, lane: nat): int
  {
    base + lane * LaneStep
  }

  /** `current_y_base += category_height + 0.5`. */
  function NextBase(base: int, laneCount: nat): (next: int)
    ensures next == base + 4 * laneCount + 9
  {
    base + BandHeight(laneCount) + CategoryGap
  }

  /** A bar of a used lane lies between the base and the highest used lane,
      strictly inside the band, and distinct lanes get distinct heights. */
  lemma BarInBand(base: int, laneCount: nat, lane: nat)
    requires lane < laneCount
    ensures base <= BarY(base, lane) <= base + (laneCount - 1) * LaneStep
    ensures BandBottom(base) < BarY(base, lane) < BandTop(base, laneCount)
    ensures forall other: nat :: BarY(base, other) == BarY(base, lane) <==> other == lane
  {
  }

  /** The next category's band starts above this one's top, and all its
      bars lie above all of this one's bars. */
  lemma BandsStack(base: int, laneCount: nat, lane: nat, nextLaneCount: nat, nextLane: nat)
    requires lane < laneCount && nextLane < nextLaneCount
    ensures BandTop(base, laneCount) < BandBottom(NextBase(base, laneCount))
    ensures BarY(base, lane) < BarY(NextBase(base, laneCount), nextLane)
  {
    BarInBand(base, laneCount, lane);
  }

  // ---------------------------------------------------------------------
  // Labels

  /** `day_end_limit`: the last whole second of the start's day. */
  function DayEndLimit(start: int): (l: int)
    ensures start <= l && DateOf(l) == DateOf(start) && DateOf(l + 1) == DateOf(start) + 1
  {
    Midnight(start) + SecondsPerDay - 1
  }

  /** `clamped_end = min(end, day_end_limit)`. */
  function ClampedEnd(start: int, end: int): int
  {
    Min(end, DayEndLimit(start))
  }

  /** `is_clipped = end > day_end_limit`. */
  predicate IsClipped(start: int, end: int)
  {
    end > DayEndLimit(start)
  }

  /** The clamp never lengthens an event, it shortens exactly the events
      that run past their start day, and for an event that does not end
      before it starts the clamped end stays on the start day. */
  lemma ClampFacts(start: int, end: int)
    ensures ClampedEnd(start, end) <= end
    ensures IsClipped(start, end) <==> ClampedEnd(start, end) < end
    ensures !IsClipped(start, end) ==> ClampedEnd(start, end) == end
    ensures IsClipped(start, end) ==> ClampedEnd(start, end) == DayEndLimit(start)
    ensures start <= end ==> start <= ClampedEnd(start, end) && DateOf(ClampedEnd(start, end)) == DateOf(start)
  {
    var l := DayEndLimit(start);
    if start <= end && end <= l {
      assert DateOf(start) <= DateOf(end) <= DateOf(l);
    }
  }

  datatype Anchor = Center | Left | Right

  /** One time annotation: x (a real, since the midpoint of two whole
      seconds can be a half second), y, anchor and pixel shifts. */
  datatype Label = Label(x: real, y: int, anchor: Anchor, xshift: int, yshift: int)

  /** The annotation of the `i`-th bar of a category (src/visualization.py:68-91):
      every third label is centred on the visible part of the bar, the next
      sits just after its end (before the day's end when clipped), the next
      just before its start. */
  function PlaceLabel(i: nat, start: int, end: int, y: int): (l: Label)
    ensures l.y == y && l.yshift == LabelYShift
    ensures start <= end ==> start as real <= l.x <= ClampedEnd(start, end) as real
    ensures l.anchor == Center <==> i % 3 == 0
    ensures l.anchor == Left <==> i % 3 == 1 && !IsClipped(start, end)
    ensures l.xshift == match l.anchor
      case Center => 0
      case Left => LabelXShift
      case Right => -LabelXShift
    ensures l.anchor == Center ==> 2.0 * l.x == (start + ClampedEnd(start, end)) as real
    ensures l.anchor == Left ==> l.x == end as real
    ensures i % 3 == 2 ==> l.x == start as real
  {
    ClampFacts(start, end);
    var clamped := ClampedEnd(start, end);
    var m := i % 3;
    if m == 0 then
      Label(start as real + (clamped - start) as real / 2.0, y, Center, 0, LabelYShift)
    else if m == 1 then
      if IsClipped(start, end) then Label(clamped as real, y, Right, -LabelXShift, LabelYShift)
      else Label(end as real, y, Left, LabelXShift, LabelYShift)
    else
      Label(start as real, y, Right, -LabelXShift, LabelYShift)
  }

  /** A clipped label of the middle kind is right-aligned at the last second
      of the start day. */
  lemma ClippedLabelAtDayEnd(i: nat, start: int, end: int, y: int)
    requires i % 3 == 1 && IsClipped(start, end)
    ensures PlaceLabel(i, start, end, y).anchor == Right
    ensures PlaceLabel(i, start, end, y).x == DayEndLimit(start) as real
  {
    ClampFacts(start, end);
  }

  // ---------------------------------------------------------------------
  // Categories and their bars

  /** `df['Event Name']`, row by row. */
  function Names(rows: seq<Row>): (names: seq<string>)
    ensures |names| == |rows|
    ensures forall k :: 0 <= k < |rows| ==> names[k] == rows[k].name
  {
    seq(|rows|, k requires 0 <= k < |rows| => rows[k].name)
  }

  /** `df[df['Event Name'] == event_name]`: the rows of one category, in
      frame order. */
  function Subset(rows: seq<Row>, name: string): (sub: seq<Row>)
    ensures |sub| <= |rows|
    ensures forall k :: 0 <= k < |sub| ==> sub[k].name == name
  {
    if rows == [] then []
    else
      var prev := Subset(rows[..|rows| - 1], name);
      var r := rows[|rows| - 1];
      if r.name == name then prev + [r] else prev
  }

  /** The intervals handed to `solve_overlaps`. */
  function Intervals(rows: seq<Row>): (iv: seq<Interval>)
    ensures |iv| == |rows|
    ensures forall k :: 0 <= k < |rows| ==> iv[k] == Interval(rows[k].start, rows[k].end)
  {
    seq(|rows|, k requires 0 <= k < |rows| => Interval(rows[k].start, rows[k].end))
  }

  ghost predicate RowsInStartOrder(rows: seq<Row>)
  {
    forall i, j :: 0 <= i < j < |rows| ==> rows[i].start <= rows[j].start
  }

  /** One drawn bar: its row, its height and its annotation. */
  datatype Bar = Bar(row: Row, y: int, note: Label)

  function MakeBar(row: Row, lane: nat, i: nat, base: int): Bar
  {
    var y := BarY(base, lane);
    Bar(row, y, PlaceLabel(i, row.start, row.end, y))
  }

  /** `zip(subset.iterrows(), sub_lanes)`: the `i`-th row of the subset, in
      frame order, gets the `i`-th lane index, which `solve_overlaps`
      computed in start order. */
  function CategoryBars(subset: seq<Row>, lanes: seq<nat>, base: int): (bars: seq<Bar>)
    requires |lanes| == |subset|
    ensures |bars| == |subset|
  {
    seq(|subset|, i requires 0 <= i < |subset| => MakeBar(subset[i], lanes[i], i, base))
  }

  /** What one category contributes to the figure. */
  datatype Track = Track(name: string, base: int, laneCount: nat, centre: int, bars: seq<Bar>)

  function TrackFor(rows: seq<Row>, name: string, base: int): Track
  {
    var subset := Subset(rows, name);
    var sorted := SortByStart(Intervals(subset));
    var laneCount := |LanesAfter(sorted)|;
    Track(name, base, laneCount, LabelCentre(base, laneCount), CategoryBars(subset, Assignments(sorted), base))
  }

  /** The base after the given tracks (0 before the first). */
  function EndBase(tracks: seq<Track>): int
  {
    if tracks == [] then 0
    else NextBase(tracks[|tracks| - 1].base, tracks[|tracks| - 1].laneCount)
  }

  /** The tracks of the categories `names`, drawn in that order. */
  function Tracks(rows: seq<Row>, names: seq<string>): (tracks: seq<Track>)
    ensures |tracks| == |names|
  {
    if names == [] then []
    else
      var prev := Tracks(rows, names[..|names| - 1]);
      prev + [TrackFor(rows, names[|names| - 1], EndBase(prev))]
  }

  // ---------------------------------------------------------------------
  // The loops

  /** The inner loop (src/visualization.py:47-102) for one category. */
  method LayoutCategory(subset: seq<Row>, lanes: seq<nat>, base: int) returns (bars: seq<Bar>)
    requires |lanes| == |subset|
    ensures bars == CategoryBars(subset, lanes, base)
  {
    bars := [];
    for i := 0 to |subset|
      invariant |bars| == i
      invariant forall j :: 0 <= j < i ==> bars[j] == MakeBar(subset[j], lanes[j], j, base)
    {
      var row := subset[i];
      var y := base + lanes[i] * LaneStep;
      var note := PlaceLabel(i, row.start, row.end, y);
      bars := bars + [Bar(row, y, note)];
    }
  }

  /** `height=max(400, current_y_base * 50)`: never below 400 pixels, and
      50 pixels per unit of the final base once that is taller. */
  function FigureHeight(finalBase: int): (h: int)
    ensures h >= MinHeight
    ensures h >= finalBase * PixelsPerTenth
    ensures h == MinHeight || h == finalBase * PixelsPerTenth
  {
    Max(MinHeight, finalBase * PixelsPerTenth)
  }

  /** One pass of the category loop: the subset, its lanes, its tick and
      its bars. */
  method LayoutTrack(rows: seq<Row>, name: string, base: int) returns (track: Track)
    ensures track == TrackFor(rows, name, base)
  {
    var subset := Subset(rows, name);
    var lanes, laneCount := SolveOverlaps(Intervals(subset));
    var centre := base + BandHeight(laneCount) / 2 - HalfLane;
    var bars := LayoutCategory(subset, lanes, base);
    track := Track(name, base, laneCount, centre, bars);
  }

  lemma TracksStep(rows: seq<Row>, names: seq<string>, c: nat)
    requires c < |names|
    ensures Tracks(rows, names[..c + 1]) == Tracks(rows, names[..c]) + [TrackFor(rows, names[c], EndBase(Tracks(rows, names[..c])))]
  {
    assert names[..c + 1][..c] == names[..c];
  }

  lemma PrefixSnoc<T>(s: seq<T>, c: nat)
    requires c < |s|
    ensures s[..c + 1] == s[..c] + [s[c]]
  {
  }

  /** The category loop (src/visualization.py:34-116) over the given
      categories: one track and one tick per category, in order, and the
      figure height. */
  method DrawCategories(rows: seq<Row>, names: seq<string>) returns (tracks: seq<Track>, tickVals: seq<int>, tickText: seq<string>, height: int)
    ensures tracks == Tracks(rows, names)
    ensures tickText == names
    ensures |tickVals| == |tracks| && forall c :: 0 <= c < |tracks| ==> tickVals[c] == tracks[c].centre
    ensures height == FigureHeight(EndBase(tracks))
  {
    tracks, tickVals, tickText := [], [], [];
    var base := 0;
    for c := 0 to |names|
      invariant tracks == Tracks(rows, names[..c])
      invariant base == EndBase(tracks)
      invariant tickText == names[..c]
      invariant |tickVals| == c && forall k :: 0 <= k < c ==> tickVals[k] == tracks[k].centre
    {
      TracksStep(rows, names, c);
      PrefixSnoc(names, c);
      var track := LayoutTrack(rows, names[c], base);
      tickVals := tickVals + [track.centre];
      tickText := tickText + [names[c]];
      tracks := tracks + [track];
      base := base + BandHeight(track.laneCount) + CategoryGap;
    }
    assert names[..|names|] == names;
    height := FigureHeight(base);
  }

  /** `plot_interactive_timeline` without the drawing: the categories in
      descending name order, then the category loop. */
  method PlotTimeline(rows: seq<Row>) returns (tracks: seq<Track>, tickVals: seq<int>, tickText: seq<string>, height: int)
    ensures tickText == CategoryOrder(Names(rows))
    ensures tracks == Tracks(rows, tickText)
    ensures |tickVals| == |tracks| && forall c :: 0 <= c < |tracks| ==> tickVals[c] == tracks[c].centre
    ensures height == FigureHeight(EndBase(tracks))
  {
    var names := CategoryOrder(Names(rows));
    tracks, tickVals, tickText, height := DrawCategories(rows, names);
  }

  // ---------------------------------------------------------------------
  // Properties of the layout

  /** A row is in its category's subset exactly when it has that name. */
  lemma {:induction false} SubsetExactly(rows: seq<Row>, name: string, r: Row)
    ensures r in Subset(rows, name) <==> r in rows && r.name == name
    decreases |rows|
  {
    if rows != [] {
      var n := |rows| - 1;
      SubsetExactly(rows[..n], name, r);
      assert rows == rows[..n] + [rows[n]];
    }
  }

  /** Every row belongs to exactly one category, and that category is
      drawn. */
  lemma RowHasOneTrack(rows: seq<Row>, r: Row)
    requires r in rows
    ensures r.name in CategoryOrder(Names(rows))
    ensures r in Subset(rows, r.name)
    ensures forall name :: r in Subset(rows, name) ==> name == r.name
  {
    var k :| 0 <= k < |rows| && rows[k] == r;
    assert Names(rows)[k] == r.name;
    SubsetExactly(rows, r.name, r);
    forall name | r in Subset(rows, name) ensures name == r.name {
      SubsetExactly(rows, name, r);
    }
  }

  /** Filtering keeps the frame order. */
  lemma {:induction false} SubsetInStartOrder(rows: seq<Row>, name: string)
    requires RowsInStartOrder(rows)
    ensures RowsInStartOrder(Subset(rows, name))
    decreases |rows|
  {
    if rows != [] {
      var n := |rows| - 1;
      var prev := Subset(rows[..n], name);
      assert RowsInStartOrder(rows[..n]);
      SubsetInStartOrder(rows[..n], name);
      if rows[n].name == name {
        forall i | 0 <= i < |prev| ensures prev[i].start <= rows[n].start {
          assert prev[i] in prev;
          SubsetExactly(rows[..n], name, prev[i]);
        }
        var sub := Subset(rows, name);
        assert sub == prev + [rows[n]];
        forall i, j | 0 <= i < j < |sub| ensures sub[i].start <= sub[j].start {
          assert sub[i] == prev[i];
          if j < |prev| {
            assert sub[j] == prev[j];
          }
        }
      }
    }
  }

  /** The shape of one track: one bar per row of the category, in frame
      order, every bar inside the band, the tick in the band's middle. */
  lemma TrackShape(rows: seq<Row>, name: string, base: int)
    ensures var t, subset := TrackFor(rows, name, base), Subset(rows, name);
      && t.name == name && t.base == base
      && |t.bars| == |subset|
      && t.centre == base + 2 * t.laneCount
      && (subset != [] ==> 1 <= t.laneCount <= |subset|)
      && forall i :: 0 <= i < |t.bars| ==>
           && t.bars[i].row == subset[i]
           && base <= t.bars[i].y <= base + (t.laneCount - 1) * LaneStep
           && BandBottom(base) < t.bars[i].y < BandTop(base, t.laneCount)
  {
    var t, subset := TrackFor(rows, name, base), Subset(rows, name);
    var sorted := SortByStart(Intervals(subset));
    AssignmentsBelowCount(sorted);
    forall i | 0 <= i < |t.bars| ensures BandBottom(base) < t.bars[i].y < BandTop(base, t.laneCount)
      && base <= t.bars[i].y <= base + (t.laneCount - 1) * LaneStep {
      BarInBand(base, t.laneCount, Assignments(sorted)[i]);
    }
  }

  /** When the rows arrive in start order (the fetch asks for
      `orderBy='startTime'`), sorting a subset changes nothing, so the zip
      pairs each row with its own lane, and two bars at the same height
      never overlap by more than the buffer. */
  lemma SortedRowsKeepTheirLanes(rows: seq<Row>, name: string, base: int, i: nat, j: nat)
    requires RowsInStartOrder(rows)
    requires i < j < |TrackFor(rows, name, base).bars|
    requires TrackFor(rows, name, base).bars[i].y == TrackFor(rows, name, base).bars[j].y
    ensures var subset := Subset(rows, name);
      subset[j].start >= subset[i].end - Buffer
  {
    var subset := Subset(rows, name);
    var iv := Intervals(subset);
    SubsetInStartOrder(rows, name);
    assert SortedByStart(iv);
    SortSortedIsIdentity(iv);
    var t := TrackFor(rows, name, base);
    var a := Assignments(iv);
    assert t.bars[i].y == BarY(base, a[i]) && t.bars[j].y == BarY(base, a[j]);
    assert a[i] == a[j];
    NoSameLaneOverlap(iv, i, j);
  }

  /** Whatever order a sort by start leaves tied rows in: when no two rows
      of the category start together, the zip still pairs each row with its
      own lane, and two bars at the same height overlap by at most the
      buffer. */
  lemma DistinctStartsKeepTheirLanes(subset: seq<Row>, sorted: seq<Interval>, base: int, i: nat, j: nat)
    requires forall a, b :: 0 <= a < b < |subset| ==> subset[a].start < subset[b].start
    requires IsStartSort(Intervals(subset), sorted)
    requires |sorted| == |subset| && i < j < |subset|
    requires CategoryBars(subset, Assignments(sorted), base)[i].y == CategoryBars(subset, Assignments(sorted), base)[j].y
    ensures subset[j].start >= subset[i].end - Buffer
  {
    var iv := Intervals(subset);
    assert StrictlyByStart(iv);
    DistinctStartsSortIsIdentity(iv, sorted);
    var a := Assignments(iv);
    var bars := CategoryBars(subset, a, base);
    assert bars[i].y == BarY(base, a[i]) && bars[j].y == BarY(base, a[j]);
    NoSameLaneOverlap(iv, i, j);
  }

  /** A tie broken the other way: rows A = (0, 10), B = (0, 1000) and
      C = (500, 600) of one category arrive in start order, and [B, A, C]
      is in start order too.  Zipped with the lanes of [B, A, C], A is drawn
      in lane 0 and B and C share lane 1, although C starts 200 seconds
      before B's end less the buffer. */
  lemma TiedStartsCanMispair(base: int)
    ensures var subset := [Row(0, "x", 0, 10, None, None), Row(0, "x", 0, 1000, None, None), Row(0, "x", 500, 600, None, None)];
      var sorted := [Interval(0, 1000), Interval(0, 10), Interval(500, 600)];
      && RowsInStartOrder(subset)
      && IsStartSort(Intervals(subset), sorted)
      && Assignments(sorted) == [0, 1, 1]
      && CategoryBars(subset, [0, 1, 1], base)[1].y == CategoryBars(subset, [0, 1, 1], base)[2].y
      && subset[2].start < subset[1].end - Buffer
  {
    var sorted := [Interval(0, 1000), Interval(0, 10), Interval(500, 600)];
    var subset := [Row(0, "x", 0, 10, None, None), Row(0, "x", 0, 1000, None, None), Row(0, "x", 500, 600, None, None)];
    assert Intervals(subset) == [sorted[1], sorted[0], sorted[2]];
    assert multiset(sorted) == multiset(Intervals(subset)) by {
      assert sorted == [sorted[0]] + [sorted[1]] + [sorted[2]];
    }
    TieBrokenBackwards();
  }

  /** The tracks, one per category in order, each laid out from the base
      the previous ones leave. */
  lemma {:induction false} TracksInOrder(rows: seq<Row>, names: seq<string>, c: nat)
    requires c < |names|
    ensures var tracks := Tracks(rows, names);
      && tracks[c] == TrackFor(rows, names[c], EndBase(tracks[..c]))
      && (c == 0 ==> tracks[c].base == 0)
      && (c > 0 ==> tracks[c].base == NextBase(tracks[c - 1].base, tracks[c - 1].laneCount))
    decreases |names|
  {
    var n := |names| - 1;
    var tracks := Tracks(rows, names);
    var prev := Tracks(rows, names[..n]);
    assert tracks[..n] == prev;
    if c < n {
      TracksInOrder(rows, names[..n], c);
      assert prev[..c] == tracks[..c];
    }
  }

  /** Later categories are drawn strictly above earlier ones: bands do not
      overlap and every bar of a later track is above every bar of an
      earlier one. */
  lemma {:induction false} TracksStack(rows: seq<Row>, names: seq<string>, c1: nat, c2: nat)
    requires c1 < c2 < |names|
    ensures var tracks := Tracks(rows, names);
      && BandTop(tracks[c1].base, tracks[c1].laneCount) < BandBottom(tracks[c2].base)
      && forall i, j :: 0 <= i < |tracks[c1].bars| && 0 <= j < |tracks[c2].bars| ==>
           tracks[c1].bars[i].y < tracks[c2].bars[j].y
    decreases c2 - c1
  {
    var tracks := Tracks(rows, names);
    TracksInOrder(rows, names, c1);
    TracksInOrder(rows, names, c2);
    TrackShape(rows, names[c1], tracks[c1].base);
    TrackShape(rows, names[c2], tracks[c2].base);
    if c1 + 1 < c2 {
      TracksStack(rows, names, c1 + 1, c2);
      TracksInOrder(rows, names, c1 + 1);
      TrackShape(rows, names[c1 + 1], tracks[c1 + 1].base);
    }
  }

  // ---------------------------------------------------------------------
  // The x axis

  /** `ref_date`: the selected day, else the first row's date, else today. */
  function ReferenceDay(selected: Option<int>, rows: seq<Row>, today: int): int
  {
    if selected.Some? then selected.value
    else if rows != [] then rows[0].date
    else today
  }

  /** Without a selected day the axis shows the first row's day, which for
      rows in start order, each dated by its start, is the earliest day of
      any row; with no rows it is today. */
  lemma ReferenceIsEarliest(rows: seq<Row>, today: int)
    requires RowsInStartOrder(rows)
    requires forall r :: r in rows ==> r.date == DateOf(r.start)
    ensures rows == [] ==> ReferenceDay(None, rows, today) == today
    ensures rows != [] ==> ReferenceDay(None, rows, today) in Dates(rows)
    ensures forall r :: r in rows ==> ReferenceDay(None, rows, today) <= r.date
  {
    if rows != [] {
      assert rows[0] in rows;
      forall r | r in rows ensures rows[0].date <= r.date {
        var k :| 0 <= k < |rows| && rows[k] == r;
        assert rows[0].start <= rows[k].start;
        DateMonotone(rows[0].start, rows[k].start);
      }
    }
  }

  function Dates(rows: seq<Row>): set<int>
  {
    set r | r in rows :: r.date
  }

  /** The x range, `datetime.combine(ref_date, time.min)` to
      `time.max`, at whole seconds. */
  function AxisRange(day: int): (r: (int, int))
    ensures forall t :: r.0 <= t <= r.1 <==> DateOf(t) == day
  {
    (day * SecondsPerDay, day * SecondsPerDay + SecondsPerDay - 1)
  }
}
