# Daily Schedule Analyzer: a verified model of its core

The Daily Schedule Analyzer is a Streamlit dashboard. It reads a day (or
a range of days) of Google Calendar events, draws them as a swimlane
timeline, and lists them in a sortable log. This project models in Dafny
the parts of it that are plain logic and proves what they guarantee:

- **Sub-lane assignment** (`Lanes`, src/utils.py). `solve_overlaps` sorts
  one category's events by start. It places each event in the lowest lane
  whose end, less a five-minute buffer, is not after the event's start, and
  opens a new lane when none fits. The nested loop is an imperative method,
  proved against a left-to-right specification (`LanesAfter`,
  `Assignments`). Lemmas state first fit, the lane count, the inclusive
  buffer, and "no two events of one lane overlap by more than the buffer".
- **Timeline layout** (`Timeline`, `Categories`, src/visualization.py).
  This covers:
  - the category order, which is the distinct names in descending string order;
  - the band, tick and bar heights, in tenths of a y unit so the constants are
    whole numbers (lane step 4, half lane 2, gap 5);
  - the running base offset;
  - the clamp of each label to the last second of its start day;
  - the `i % 3` label placement;
  - the figure height.

  The category loop is a method proved against `Tracks`.
- **Note cleaning and the row filter** (`Text`, `Notes`, `NotesMarkup`,
  `DataLoader`, src/data_loader.py, src/config.py). This covers:
  - `parse_html_description`, with its literal rewrites, the non-greedy tag
    strip `<.*?>`, the split, strip and filter into lines, the three joins
    and the 50-character preview;
  - the row loop of `fetch_calendar_data` over already-fetched events: which
    events are kept, and the colour-table fallback.
- **Dashboard rules** (`App`, app.py). This covers the `toggle_sort` state
  machine with its first-run defaults, and the start/end dates of each
  analysis mode.

Times are whole local seconds since local midnight of 1970-01-01, and dates
are day numbers since that Thursday. The weekday is `(d + 3) % 7`, with
Monday = 0 as in Python's `date.weekday()`.

## Model

| member | source | states |
|---|---|---|
| Common.Midnight | src/visualization.py:68 | `normalize()`: the midnight of the timestamp's day is at or before it, less than a day before it, and on the same date |
| Common.Weekday | app.py:96 | a weekday is one of 0..6 |
| Common.DateMonotone | src/visualization.py:21 | a later time is never on an earlier date |
| Text.Strip | src/data_loader.py:23 | a stripped string neither starts nor ends with whitespace and is no longer than the input |
| Text.StripEmpty | src/data_loader.py:23 | `line.strip()` is empty exactly when the line is all whitespace (the filter `if line.strip()`) |
| Text.Split | src/data_loader.py:23 | `text.split('\n')` gives at least one piece, no piece holds a newline, and joining the pieces with newlines gives the text back |
| Text.SplitJoin | src/data_loader.py:23-26 | the other round trip: splitting a newline join of newline-free pieces gives the pieces back |
| Text.JoinLength | src/data_loader.py:25-29 | `sep.join(parts)` of n pieces is as long as the pieces plus n - 1 separators, and begins with the first piece |
| Text.FirstPrefix | src/data_loader.py:18 | the alternation picks the first listed pattern that matches here: it matches and no earlier one does, and none matches when none is picked |
| Text.ReplaceKeepsPlainText | src/data_loader.py:17-18 | `replace` and the literal alternation copy text without `<` unchanged when every pattern begins with `<` |
| Notes.TagEnd | src/data_loader.py:20 | `.*?>` after a `<` stops at the first `>`, with no newline before it; when there is none, every `>` comes after a newline |
| Notes.StripTags | src/data_loader.py:20-21 | after the non-greedy tag strip, no `<` is followed later on the same line by `>`, and the text did not grow |
| Notes.StripTagsKeepsPlain | src/data_loader.py:20-21 | the tag strip deletes only spans that begin with `<`: text before the first `<` is kept as it is, and text without `<` is unchanged |
| Notes.StripKeepsCloseAfterNewline | src/data_loader.py:20-21 | stripping tags never brings a `>` before the first newline, so a `<` kept for lack of a closing `>` stays unclosed |
| Notes.CleanLines | src/data_loader.py:23 | the kept lines are non-empty and stripped, and there are no more of them than pieces |
| Notes.CleanLinesAppend | src/data_loader.py:23 | pieces are cleaned one by one in order: the lines of two runs of pieces are the first run's lines followed by the second's |
| Notes.CleanLinesExactly | src/data_loader.py:23 | a line is kept exactly when it is the non-empty strip of some piece |
| Notes.CleanLinesAreClean | src/data_loader.py:23 | one-line pieces without a tag give clean lines: non-empty, stripped, one line, no `<` before a `>` |
| Notes.CleanLinesOfSpace | src/data_loader.py:23 | pieces that are all whitespace give no line |
| Notes.PlainText | src/data_loader.py:17-21 | the rewritten, tag-stripped description has no tag left on any line |
| Notes.PiecesHaveNoTag | src/data_loader.py:21-23 | every newline-separated piece of such a text is free of tags |
| Notes.NoteLines | src/data_loader.py:17-23 | every line of a cleaned description is non-empty, stripped, one line and free of tags |
| Notes.Shorten | src/data_loader.py:29-33 | the preview has at most 53 characters; it begins with the first min(50, len) characters of the text; it is the text itself when that fits in 50; otherwise it is 50 characters and "..." |
| Notes.ParseHtml | src/data_loader.py:14-15 | a missing or empty description gives exactly the three placeholders |
| Notes.NotesAgree | src/data_loader.py:23-33 | for a non-empty description, the detail text is a newline join of clean lines, and the tooltip (`<br>` join) and preview (space join, shortened) are built from exactly those lines |
| Notes.PlainNoteLines | src/data_loader.py:17-23 | a description without `<` is unchanged by the rewrites and the tag strip, so its lines are its own stripped non-blank lines |
| Notes.PlainOneLine | src/data_loader.py:17-35 | a non-blank one-line description without `<` gives its strip as the tooltip and the detail text, and the shortened strip as the preview |
| NotesMarkup.ReplaceMarkup | src/data_loader.py:17-18 | a literal replacement pass over whitespace and tags rewrites it tag by tag |
| NotesMarkup.StripMarkup | src/data_loader.py:20-21 | stripping tags from whitespace-and-tag markup leaves only whitespace |
| NotesMarkup.StripLeadingTag | src/data_loader.py:20-21 | a whole tag at the front is deleted and the rest is stripped as before |
| NotesMarkup.MarkupOnlyGivesEmpty | src/data_loader.py:14-35 | a non-empty description of whitespace and tags other than `<li>` gives three empty strings, not the placeholders |
| DataLoader.TableColorsAreHex | src/config.py:7-20 | every colour table entry has a `#rrggbb` colour code |
| DataLoader.LookupColor | src/data_loader.py:78-79 | a known colour id gets its own entry; a missing or unknown one gets the `Default` entry |
| DataLoader.RowColor | src/data_loader.py:78-79 | every row's colour is a proper colour code, and the default one when its id is missing or unknown |
| DataLoader.NameIsStripped | src/data_loader.py:73 | the event name has no whitespace at either end; it is empty exactly when the summary is all whitespace; and it is "Untitled", the strip of the default, without a summary |
| DataLoader.ToRow | src/data_loader.py:81-99 | a row keeps the event's start and end, its date is the start's date, and its name is the stripped summary |
| DataLoader.KeptEvents | src/data_loader.py:61-70 | the kept events are no more than the events, and each has both times and a start date in range |
| DataLoader.KeptRows | src/data_loader.py:60-99 | there are no more rows than events, and every row's date lies in [start_date, end_date] |
| DataLoader.FetchRows | src/data_loader.py:60-99 | the row loop appends exactly the rows of the kept events, in order |
| DataLoader.RowsOfSnoc | src/data_loader.py:85 | appending a kept event appends its row |
| DataLoader.KeptEventsExactly | src/data_loader.py:65-70 | an event is kept if and only if it is one of the inputs, has both `dateTime` values, and starts on a day in range |
| DataLoader.KeptRowsExactly | src/data_loader.py:61-99 | a row is produced if and only if it is the row of an accepted event |
| DataLoader.KeptEventsInOrder | src/data_loader.py:52-70 | filtering keeps order: start-ordered events give start-ordered kept events |
| DataLoader.KeptRowsInStartOrder | src/data_loader.py:52-99 | rows of start-ordered events are in start order |
| Lanes.InsertByStart | src/utils.py:10 | inserting into a start-sorted list keeps it sorted and adds one element |
| Lanes.SortByStart | src/utils.py:10 | `sort_values('Local Start')` gives a start-sorted list of the same length |
| Lanes.SortPermutes | src/utils.py:10 | the sort is a permutation of its input |
| Lanes.SortSortedIsIdentity | src/utils.py:10 | sorting already start-ordered events changes nothing |
| Lanes.SortIsStartSort | src/utils.py:10 | the stable sort returns one of the start orders: a permutation of the input, sorted by start |
| Lanes.DistinctStartsSortIsIdentity | src/utils.py:10 | when no two starts are equal, every sort by start, stable or not, returns start-ordered events unchanged |
| Lanes.FirstFit | src/utils.py:17-23 | the chosen lane is the lowest that fits; when none fits it is one past the last lane |
| Lanes.FirstFitIs | src/utils.py:17-23 | the lane the scan stops at is the first fit |
| Lanes.PlaceFacts | src/utils.py:17-26 | placing an event writes its end into the first lane that fits, or appends a new lane with it; every other lane keeps its end |
| Lanes.LanesAfter | src/utils.py:11-28 | there are no more lanes than events, and at least one for non-empty input |
| Lanes.Assignments | src/utils.py:14-26 | one lane index per event, in placement order (AssignmentAt states each entry) |
| Lanes.ScanLanes | src/utils.py:17-23 | the inner scan returns the first-fit lane, or the lane count when no lane fits |
| Lanes.AssignLanes | src/utils.py:11-28 | the loop computes the specification's assignments and lane count: one assignment per event, each below the count; the count is at most the number of events and at least 1 for non-empty input, and 0 lanes and no assignments for empty input |
| Lanes.SolveOverlaps | src/utils.py:5-28 | `solve_overlaps` is the loop over the start-sorted events, so assignment k belongs to the k-th event in start order |
| Lanes.PrefixStep | src/utils.py:14-26 | one more event adds its first-fit lane to the assignments and places its end |
| Lanes.LaneCountMonotone | src/utils.py:24-25 | the lane count never decreases as events are placed |
| Lanes.AssignmentsPrefix | src/utils.py:21-26 | assignments are only appended: a prefix's assignments are a prefix of the whole |
| Lanes.AssignmentAt | src/utils.py:17-26 | assignment k is the first fit among the lanes that existed when event k was reached |
| Lanes.FirstFitAt | src/utils.py:17-26 | per event: lowest fitting lane (earlier lanes fail the test); a new lane numbered the previous count exactly when no lane fits; the chosen lane's end becomes the event's end, and every other lane is unchanged |
| Lanes.AssignmentsBelowCount | src/utils.py:24-28 | every assignment is at most the lane count before it, and below the final count |
| Lanes.StepKeepsLane | src/utils.py:20-25 | placing an event in another lane leaves a lane's end unchanged |
| Lanes.LaneUntouched | src/utils.py:20-25 | a lane no event is placed in keeps its end |
| Lanes.NoSameLaneOverlap | src/utils.py:17-23 | in start-sorted input, a later event in a lane starts no earlier than 5 minutes before the end of any earlier event in that lane |
| Lanes.BufferIsInclusive | src/utils.py:19 | an event starting exactly 5 minutes before a lane's end joins it; one second earlier opens a new lane |
| Lanes.LaneEndCanDecrease | src/utils.py:20 | the lane end is overwritten, not maxed: an event nested at the end of a longer one pulls the end back |
| Lanes.ThreeMeetings | src/utils.py:5-28 | three overlapping meetings get lanes [0, 1, 0], and two lanes |
| Lanes.TieBrokenBackwards | src/utils.py:14-26 | the events (0, 1000), (0, 10), (500, 600), in that order, get lanes [0, 1, 1] |
| Categories.LexTransitive | src/visualization.py:27 | Python's string `<` is transitive |
| Categories.LexTotal | src/visualization.py:27 | of two different strings, one is smaller |
| Categories.InsertDescending | src/visualization.py:27 | inserting a name keeps the list strictly descending and adds exactly that name |
| Categories.CategoryOrder | src/visualization.py:27 | `sorted(unique(), reverse=True)` is strictly descending (so has no repeats) and holds exactly the names present |
| Categories.DescendingIsDistinct | src/visualization.py:27-38 | a strictly descending list repeats no name, so each category is processed once |
| Categories.DescendingUnique | src/visualization.py:27 | two strictly descending lists with the same names are equal: the order depends only on the set of names |
| Timeline.LabelCentre | src/visualization.py:42-43 | the tick is at `base + 0.2 * lane_count`, the middle of the band |
| Timeline.NextBase | src/visualization.py:110 | the base grows by `(lane_count + 1) * 0.4 + 0.5` |
| Timeline.BarInBand | src/visualization.py:48-108 | a bar of lane `< lane_count` lies in `[base, base + (lane_count - 1) * 0.4]`, strictly inside the band; distinct lanes get distinct heights |
| Timeline.BandsStack | src/visualization.py:104-110 | the next category's band starts above this band's top, and its bars lie above this category's bars |
| Timeline.DayEndLimit | src/visualization.py:68 | the limit is the last second of the start's day: not before the start, same date, and the next second is the next day |
| Timeline.ClampFacts | src/visualization.py:68-70 | the clamped end is at most the end; an event is clipped exactly when its clamped end is earlier than its end; the clamped end is the end when not clipped and the day's last second when clipped; for `start <= end` it stays on the start day |
| Timeline.PlaceLabel | src/visualization.py:72-91 | Center exactly for `i % 3 == 0`, at the midpoint of start and clamped end; Left exactly for `i % 3 == 1` unclipped, at the end; for `i % 3 == 2` right-aligned at the start; x shift 0, +5 or -5 by anchor; y shift 16; for `start <= end` the x lies in [start, clamped end] |
| Timeline.ClippedLabelAtDayEnd | src/visualization.py:79-83 | a clipped middle label is right-aligned at the day's last second |
| Timeline.Names | src/visualization.py:27 | one name per row, in row order |
| Timeline.Subset | src/visualization.py:39 | the subset holds only rows of that category |
| Timeline.SubsetExactly | src/visualization.py:39 | a row is in a category's subset exactly when it has that name |
| Timeline.RowHasOneTrack | src/visualization.py:27-39 | every row's category is drawn, and the row is in that subset and in no other |
| Timeline.SubsetInStartOrder | src/visualization.py:39 | filtering a category keeps the rows' start order |
| Timeline.Intervals | src/visualization.py:40 | the intervals handed to `solve_overlaps` are the subset's start and end times, in row order |
| Timeline.CategoryBars | src/visualization.py:47-102 | one bar per subset row |
| Timeline.LayoutCategory | src/visualization.py:47-102 | the inner loop draws bar i of row i at lane i's height with its label |
| Timeline.FigureHeight | src/visualization.py:116 | the height is never below 400 and never below 50 per unit of the final base, and equals one of them |
| Timeline.LayoutTrack | src/visualization.py:39-110 | one pass of the category loop produces that category's track |
| Timeline.Tracks | src/visualization.py:34-110 | one track per category |
| Timeline.DrawCategories | src/visualization.py:34-116 | the category loop yields one track per category in order; one tick per category, valued at its centre and labelled with its name; and the height of the final base |
| Timeline.PlotTimeline | src/visualization.py:13-116 | the categories are drawn in descending name order, with ticks and height as above |
| Timeline.TrackShape | src/visualization.py:40-48 | a track has one bar per subset row, bar i for row i; every bar is within the used lanes and strictly inside the band; the tick is at `base + 0.2 * lane_count`; a non-empty category has 1 to `len(subset)` lanes |
| Timeline.SortedRowsKeepTheirLanes | src/visualization.py:47 | with rows in start order the zip pairs each row with its own lane, and two bars at the same height overlap by at most the buffer |
| Timeline.DistinctStartsKeepTheirLanes | src/visualization.py:40-48 | whatever order a sort by start returns, when no two rows of a category start together the zip pairs each row with its own lane, and two bars at the same height overlap by at most the buffer |
| Timeline.TiedStartsCanMispair | src/visualization.py:40-48 | with tied starts, a sort that returns the tie the other way makes the zip draw two rows that overlap by more than the buffer at the same height |
| Timeline.TracksInOrder | src/visualization.py:36-110 | track c is laid out from the base the earlier tracks leave: 0 for the first, the previous base grown by its band and gap otherwise |
| Timeline.TracksStack | src/visualization.py:36-110 | later categories are strictly above earlier ones: bands do not overlap, and every bar of a later track is above every bar of an earlier one |
| Timeline.AxisRange | src/visualization.py:112-113 | the x range holds exactly the seconds of the reference day |
| Timeline.ReferenceIsEarliest | src/visualization.py:17-25 | without a selected day the reference day is the first row's date, which for start-ordered rows dated by their start is the earliest date of any row; with no rows it is today |
| App.Toggled | app.py:130-135 | toggling makes the column current; toggling the current column flips the direction; toggling another column sets ascending |
| App.ToggleTwice | app.py:131-132 | toggling a column twice restores the state exactly when it was already the current column |
| App.NewColumnTwice | app.py:133-135 | a new column sorts ascending on the first click and descending on the second |
| App.SortSession.EnsureDefaults | app.py:126-128 | the defaults ('Local Start', descending) are written only when absent; a present state is kept |
| App.SortSession.Toggle | app.py:130-135 | the session's new state is the toggled old state |
| App.RerunKeepsToggle | app.py:126-135 | the rerun after a click leaves the session state set and keeps the toggled state |
| App.RangeFor | app.py:86-100 | Specific Day: start = end = the picked day. Last N Days: end = today and end - start = N. Custom Range: the two returned dates when exactly two are returned, otherwise today and today |
| App.MondayOf | app.py:96 | going back `weekday()` days lands on a Monday |
| App.WeekRange | app.py:94-97 | Specific Week: start is a Monday, end = start + 6 is a Sunday, start <= pick <= end, and no other Monday-to-Sunday week holds the pick |
| App.LastNDaysRange | app.py:91-93 | Last N Days: the range ends today and holds N + 1 days, between 2 and 31 |
| App.RangeOrdered | app.py:86-97 | every mode but Custom Range gives start <= end |
| App.DayViewShowsEveryRow | app.py:88-113 | in Specific Day mode every fetched row is on the picked day and inside the timeline's x range |

## Left out

- Google OAuth, the API queries (with their padded query window), the
  calendar time zone lookup, `tz_convert` and daylight saving: these are
  external I/O. Events arrive as local whole-second timestamps.
- `st.cache_data`, the exception path to an empty frame, the Streamlit,
  Plotly and matplotlib calls (traces, annotations, shapes, the dialog, the
  CSS, the row rendering loop) and `plot_pie_chart`: these are user interface
  and foreign libraries.
- Float durations, the `"%.2f"` duration label, `Time Span`, `Event ID`
  and the hover text: these are formatting only.
- Lanes.SortByStart is a stable insertion sort. Pandas' default sort is
  not guaranteed stable, so rows with equal starts may come back in
  another order. IsStartSort describes every order a sort by start may
  return. The greedy lemmas (NoSameLaneOverlap and those before it) hold
  for any start-sorted input.
- Lanes.SortSortedIsIdentity: holds for the stable sort only. With tied
  starts an unstable sort may reorder start-ordered rows.
  DistinctStartsSortIsIdentity proves the same for every sort by start
  when no two starts are equal.
- Timeline.SortedRowsKeepTheirLanes: holds with the stable sort only.
  With tied starts an unstable sort can make the zip pair a row with
  another row's lane, so two bars at the same height overlap by more than
  the buffer. Timeline.TiedStartsCanMispair shows such a case. For every
  sort by start the property is Timeline.DistinctStartsKeepTheirLanes,
  which needs distinct starts within the category.
- The sort of the detailed log (`df.sort_values(by=sort_col, ...)`, app.py:138) and
  the header arrows are not modelled. This is pandas sorting and rendering.
  Only the state that drives it is modelled.
- `time.max` has microseconds. Timeline.AxisRange ends at the day's last
  whole second.
- Python's regular-expression engine is modelled only for the patterns
  the code uses: a literal alternation and `<.*?>`. Text.IsSpace is the
  character set of `str.isspace`.
- DataLoader.Row keeps the description and colour id. The colour,
  emoji and three note columns are its derived members `Color()` and
  `Notes()`, not stored fields.
- Lane-count optimality (equal to the maximum overlap) is not claimed by
  the code and is not modelled.
- The Streamlit widgets are inputs: the picked dates, the slider value
  (1 to 30, default 7) and the range picker's one or two dates become
  parameters of App.RangeFor. Today's date is a parameter.
- App.Column has the three columns the code sorts by. `toggle_sort`
  accepts any string, but only 'Date' and 'Event Name' are passed to it.
