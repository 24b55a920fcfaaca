/** Greedy first-fit assignment of one category's events to sub-lanes
    (src/utils.py, `solve_overlaps`).

    Events are sorted by start; each goes to the lowest lane whose current
    end, less a five-minute buffer, is not after the event's start, and
    that lane's end becomes the event's end.  When no lane fits, a new lane
    is appended. */
module Lanes {

  /** Five minutes, in seconds: an event may start this much before a
      lane's end and still share the lane. */
  const Buffer: int := 300

  /** The only parts of an event the lane assignment reads. */
  datatype Interval = Interval(start: int, end: int)

  // ---------------------------------------------------------------------
  // Sorting by start time

  ghost predicate SortedByStart(s: seq<Interval>)
  {
    forall i, j :: 0 <= i < j < |s| ==> s[i].start <= s[j].start
  }

  /** Inserts `x` into `s` after every element that starts no later. */
  function InsertByStart(x: Interval, s: seq<Interval>): (r: seq<Interval>)
    requires SortedByStart(s)
    ensures |r| == |s| + 1
    ensures r[0] == if s == [] || x.start < s[0].start then x else s[0]
    ensures SortedByStart(r)
  {
    if s == [] then [x]
    else if x.start < s[0].start then [x] + s
    else
      var rest := InsertByStart(x, s[1..]);
      assert s[0].start <= rest[0].start;
      assert s == [s[0]] + s[1..];
      [s[0]] + rest
  }

  /** An element that starts no earlier than all others goes last. */
  lemma {:induction false} InsertLast(x: Interval, s: seq<Interval>)
    requires SortedByStart(s)
    requires forall k :: 0 <= k < |s| ==> s[k].start <= x.start
    ensures InsertByStart(x, s) == s + [x]
  {
    if s != [] {
      InsertLast(x, s[1..]);
      assert s == [s[0]] + s[1..];
    }
  }

  /** `df_subset.sort_values('Local Start')`, as a stable insertion sort. */
  function SortByStart(s: seq<Interval>): (r: seq<Interval>)
    ensures SortedByStart(r)
    ensures |r| == |s|
  {
    if s == [] then []
    else
      var n := |s| - 1;
      InsertByStart(s[n], SortByStart(s[..n]))
  }

  lemma {:induction false} InsertPermutes(x: Interval, s: seq<Interval>)
    requires SortedByStart(s)
    ensures multiset(InsertByStart(x, s)) == multiset(s) + multiset{x}
  {
    if s != [] && x.start >= s[0].start {
      InsertPermutes(x, s[1..]);
      assert s == [s[0]] + s[1..];
    }
  }

  /** The sort is a permutation: it neither drops nor duplicates events. */
  lemma {:induction false} SortPermutes(s: seq<Interval>)
    ensures multiset(SortByStart(s)) == multiset(s)
  {
    if s != [] {
      var n := |s| - 1;
      SortPermutes(s[..n]);
      InsertPermutes(s[n], SortByStart(s[..n]));
      assert s == s[..n] + [s[n]];
    }
  }

  /** Sorting an already start-ordered sequence with this stable sort
      changes nothing, so the assignments line up with the rows in their
      original order.  Rows with equal starts keep their order only because
      the sort is stable; `DistinctStartsSortIsIdentity` needs no stability. */
  lemma {:induction false} SortSortedIsIdentity(s: seq<Interval>)
    requires SortedByStart(s)
    ensures SortByStart(s) == s
  {
    if s != [] {
      var n := |s| - 1;
      SortSortedIsIdentity(s[..n]);
      InsertLast(s[n], s[..n]);
      assert s == s[..n] + [s[n]];
    }
  }

  /** Strictly increasing starts: no two events start together. */
  ghost predicate StrictlyByStart(s: seq<Interval>)
  {
    forall i, j :: 0 <= i < j < |s| ==> s[i].start < s[j].start
  }

  /** Every order a sort by start may return, stable or not: the same
      events, in start order. */
  ghost predicate IsStartSort(s: seq<Interval>, r: seq<Interval>)
  {
    multiset(r) == multiset(s) && SortedByStart(r)
  }

  /** Without ties there is only one start order: any sort by start, stable
      or not, returns strictly start-ordered events unchanged. */
  lemma {:induction false} DistinctStartsSortIsIdentity(s: seq<Interval>, r: seq<Interval>)
    requires StrictlyByStart(s)
    requires IsStartSort(s, r)
    ensures r == s
    decreases |s|
  {
    assert |r| == |multiset(r)| == |multiset(s)| == |s|;
    if s != [] {
      var n := |s| - 1;
      LastOfStartSort(s, r);
      DropLast(s, r);
      DistinctStartsSortIsIdentity(s[..n], r[..n]);
      assert s == s[..n] + [s[n]] && r == r[..n] + [r[n]];
    }
  }

  /** Dropping the common last event keeps both orders and the permutation. */
  lemma DropLast(s: seq<Interval>, r: seq<Interval>)
    requires StrictlyByStart(s) && SortedByStart(r)
    requires multiset(r) == multiset(s) && |r| == |s| > 0
    requires r[|r| - 1] == s[|s| - 1]
    ensures StrictlyByStart(s[..|s| - 1]) && SortedByStart(r[..|r| - 1])
    ensures multiset(r[..|r| - 1]) == multiset(s[..|s| - 1])
  {
    MultisetDropLast(r, s);
  }

  lemma MultisetDropLast(r: seq<Interval>, s: seq<Interval>)
    requires multiset(r) == multiset(s) && |r| == |s| > 0
    requires r[|r| - 1] == s[|s| - 1]
    ensures multiset(r[..|r| - 1]) == multiset(s[..|s| - 1])
  {
    var n := |s| - 1;
    assert r == r[..n] + [r[n]];
    assert s == s[..n] + [s[n]];
    var a, b, x := multiset(r[..n]), multiset(s[..n]), multiset([r[n]]);
    assert multiset(r) == a + x;
    assert multiset(s) == b + x;
    forall e ensures a[e] == b[e] {
      assert (a + x)[e] == a[e] + x[e];
      assert (b + x)[e] == b[e] + x[e];
    }
    assert a == b;
  }

  /** The stable sort is one of those orders. */
  lemma SortIsStartSort(s: seq<Interval>)
    ensures IsStartSort(s, SortByStart(s))
  {
    SortPermutes(s);
  }

  /** The last of strictly ordered events starts after all others, so every
      sort by start puts it last. */
  lemma LastOfStartSort(s: seq<Interval>, r: seq<Interval>)
    requires StrictlyByStart(s) && SortedByStart(r)
    requires multiset(r) == multiset(s) && |r| == |s| > 0
    ensures r[|r| - 1] == s[|s| - 1]
  {
    var n := |s| - 1;
    assert r[n] in multiset(s);
    var k :| 0 <= k < |s| && s[k] == r[n];
    assert s[n] in multiset(r);
    var m :| 0 <= m < |r| && r[m] == s[n];
    assert s[n].start <= s[k].start by {
      if m < n {
        assert r[m].start <= r[n].start;
      }
    }
    assert k == n by {
      assert forall j :: 0 <= j < n ==> s[j].start < s[n].start;
    }
  }

  // ---------------------------------------------------------------------
  // The greedy step, as a specification

  /** The lane test of src/utils.py:19 (inclusive). */
  predicate Fits(start: int, laneEnd: int)
  {
    start >= laneEnd - Buffer
  }

  /** Index of the lowest lane that fits, or |lanes| when none does. */
  function FirstFit(lanes: seq<int>, start: int): (i: nat)
    ensures i <= |lanes|
    ensures i < |lanes| ==> Fits(start, lanes[i])
    ensures forall j :: 0 <= j < i ==> !Fits(start, lanes[j])
  {
    if lanes == [] then 0
    else if Fits(start, lanes[0]) then 0
    else 1 + FirstFit(lanes[1..], start)
  }

  /** The lowest lane that fits is the one the scan stops at. */
  lemma {:induction false} FirstFitIs(lanes: seq<int>, start: int, i: nat)
    requires i <= |lanes|
    requires forall j :: 0 <= j < i ==> !Fits(start, lanes[j])
    requires i < |lanes| ==> Fits(start, lanes[i])
    ensures FirstFit(lanes, start) == i
  {
    if i > 0 {
      assert !Fits(start, lanes[0]);
      FirstFitIs(lanes[1..], start, i - 1);
    }
  }

  /** Lane ends after one event has been placed. */
  function Place(lanes: seq<int>, e: Interval): seq<int>
  {
    var i := FirstFit(lanes, e.start);
    if i < |lanes| then lanes[i := e.end] else lanes + [e.end]
  }

  /** Placing an event: the first lane that fits takes the event's end, or
      a new lane is appended with it, and every other lane keeps its end. */
  lemma PlaceFacts(lanes: seq<int>, e: Interval)
    ensures var i, r := FirstFit(lanes, e.start), Place(lanes, e);
      && |r| == (if i < |lanes| then |lanes| else |lanes| + 1)
      && r[i] == e.end
      && forall j :: 0 <= j < |lanes| && j != i ==> r[j] == lanes[j]
  {
  }

  /** Lane ends after the events have been placed in order. */
  function LanesAfter(events: seq<Interval>): (lanes: seq<int>)
    ensures |lanes| <= |events|
    ensures events != [] ==> |lanes| >= 1
  {
    if events == [] then []
    else Place(LanesAfter(events[..|events| - 1]), events[|events| - 1])
  }

  /** Lane index of every event, in the order the events are placed. */
  function Assignments(events: seq<Interval>): (a: seq<nat>)
    ensures |a| == |events|
  {
    if events == [] then []
    else
      var n := |events| - 1;
      Assignments(events[..n]) + [FirstFit(LanesAfter(events[..n]), events[n].start)]
  }

  // ---------------------------------------------------------------------
  // The imperative algorithm

  /** The inner scan of src/utils.py:18-23: the lowest lane the event
      fits in, or `|lanes|` when it fits in none and a lane is opened. */
  method ScanLanes(lanes: seq<int>, start: int) returns (i: nat)
    ensures i == FirstFit(lanes, start)
  {
    i := 0;
    while i < |lanes| && start < lanes[i] - Buffer
      invariant i <= |lanes|
      invariant forall j :: 0 <= j < i ==> !Fits(start, lanes[j])
    {
      i := i + 1;
    }
    FirstFitIs(lanes, start, i);
  }

  /** The loop of src/utils.py:11-28 over events already in start order. */
  method AssignLanes(events: seq<Interval>) returns (assignments: seq<nat>, laneCount: nat)
    ensures assignments == Assignments(events)
    ensures laneCount == |LanesAfter(events)|
    ensures |assignments| == |events|
    ensures forall k :: 0 <= k < |assignments| ==> assignments[k] < laneCount
    ensures laneCount <= |events|
    ensures events != [] ==> laneCount >= 1
  {
    var lanes: seq<int> := [];
    assignments := [];
    for k := 0 to |events|
      invariant lanes == LanesAfter(events[..k])
      invariant assignments == Assignments(events[..k])
    {
      PrefixStep(events, k);
      var i := ScanLanes(lanes, events[k].start);
      if i < |lanes| {
        lanes := lanes[i := events[k].end];
        assignments := assignments + [i];
      } else {
        lanes := lanes + [events[k].end];
        assignments := assignments + [|lanes| - 1];
      }
    }
    assert events[..|events|] == events;
    laneCount := |lanes|;
    AssignmentsBelowCount(events);
  }

  /** `solve_overlaps`: sort, then assign.  Assignment k belongs to the
      k-th event in start order, not to the k-th input row. */
  method SolveOverlaps(subset: seq<Interval>) returns (assignments: seq<nat>, laneCount: nat)
    ensures assignments == Assignments(SortByStart(subset))
    ensures laneCount == |LanesAfter(SortByStart(subset))|
    ensures |assignments| == |subset|
    ensures forall k :: 0 <= k < |assignments| ==> assignments[k] < laneCount
    ensures laneCount <= |subset|
    ensures subset != [] ==> laneCount >= 1
  {
    var sorted := SortByStart(subset);
    assignments, laneCount := AssignLanes(sorted);
  }

  // ---------------------------------------------------------------------
  // Properties of the specification

  /** Processing one more event keeps every earlier assignment and lane
      count, and adds at most one lane. */
  lemma PrefixStep(events: seq<Interval>, k: nat)
    requires k < |events|
    ensures Assignments(events[..k + 1]) == Assignments(events[..k]) + [FirstFit(LanesAfter(events[..k]), events[k].start)]
    ensures LanesAfter(events[..k + 1]) == Place(LanesAfter(events[..k]), events[k])
  {
    assert events[..k + 1][..k] == events[..k];
  }

  /** The lane count only grows as events are placed. */
  lemma {:induction false} LaneCountMonotone(events: seq<Interval>, k: nat, m: nat)
    requires k <= m <= |events|
    ensures |LanesAfter(events[..k])| <= |LanesAfter(events[..m])|
    decreases m - k
  {
    if k < m {
      PrefixStep(events, k);
      LaneCountMonotone(events, k + 1, m);
    }
  }

  /** Assignments of a prefix are a prefix of the assignments. */
  lemma {:induction false} AssignmentsPrefix(events: seq<Interval>, k: nat)
    requires k <= |events|
    ensures Assignments(events[..k]) == Assignments(events)[..k]
    decreases |events| - k
  {
    if k < |events| {
      PrefixStep(events, k);
      AssignmentsPrefix(events, k + 1);
      assert events[..|events|] == events;
      calc {
        Assignments(events)[..k];
        Assignments(events)[..k + 1][..k];
        Assignments(events[..k + 1])[..k];
      }
    } else {
      assert events[..k] == events;
    }
  }

  /** Assignment k is the first-fit lane among the lanes that existed when
      event k was reached. */
  lemma AssignmentAt(events: seq<Interval>, k: nat)
    requires k < |events|
    ensures Assignments(events)[k] == FirstFit(LanesAfter(events[..k]), events[k].start)
  {
    AssignmentsPrefix(events, k + 1);
    PrefixStep(events, k);
    assert Assignments(events)[k] == Assignments(events)[..k + 1][k];
  }

  /** First fit, stated per event: with `lanes` the lane ends when event k
      is reached, its lane is the lowest one that fits; it is a new lane,
      numbered |lanes|, exactly when no lane fits; that lane's end becomes
      the event's end (overwritten, so it may decrease) and every other
      lane is untouched. */
  lemma FirstFitAt(events: seq<Interval>, k: nat)
    requires k < |events|
    ensures var lanes, a := LanesAfter(events[..k]), Assignments(events)[k];
      && a <= |lanes|
      && (a < |lanes| ==> Fits(events[k].start, lanes[a]))
      && (forall j :: 0 <= j < a ==> !Fits(events[k].start, lanes[j]))
      && (a == |lanes| <==> forall j :: 0 <= j < |lanes| ==> !Fits(events[k].start, lanes[j]))
    ensures var lanes, a, after := LanesAfter(events[..k]), Assignments(events)[k], LanesAfter(events[..k + 1]);
      && |after| == (if a < |lanes| then |lanes| else |lanes| + 1)
      && after[a] == events[k].end
      && (forall j :: 0 <= j < |lanes| && j != a ==> after[j] == lanes[j])
  {
    AssignmentAt(events, k);
    PrefixStep(events, k);
  }

  /** Every assignment names an existing lane: below the final count, and
      at most the number of lanes open before it was made. */
  lemma AssignmentsBelowCount(events: seq<Interval>)
    ensures forall k :: 0 <= k < |events| ==>
      Assignments(events)[k] <= |LanesAfter(events[..k])| &&
      Assignments(events)[k] < |LanesAfter(events)|
  {
    forall k | 0 <= k < |events|
      ensures Assignments(events)[k] <= |LanesAfter(events[..k])|
      ensures Assignments(events)[k] < |LanesAfter(events)|
    {
      FirstFitAt(events, k);
      LaneCountMonotone(events, k + 1, |events|);
      assert events[..|events|] == events;
    }
  }

  /** A lane nobody is placed in keeps its end. */
  lemma {:induction false} LaneUntouched(events: seq<Interval>, i: nat, k: nat, lane: nat)
    requires i <= k <= |events|
    requires lane < |LanesAfter(events[..i])|
    requires forall m :: i <= m < k ==> Assignments(events)[m] != lane
    ensures lane < |LanesAfter(events[..k])|
    ensures LanesAfter(events[..k])[lane] == LanesAfter(events[..i])[lane]
    decreases k - i
  {
    if i < k {
      LaneUntouched(events, i, k - 1, lane);
      StepKeepsLane(events, k - 1, lane);
    }
  }

  /** Placing event k elsewhere leaves a lane as it was. */
  lemma StepKeepsLane(events: seq<Interval>, k: nat, lane: nat)
    requires k < |events|
    requires lane < |LanesAfter(events[..k])|
    requires Assignments(events)[k] != lane
    ensures lane < |LanesAfter(events[..k + 1])|
    ensures LanesAfter(events[..k + 1])[lane] == LanesAfter(events[..k])[lane]
  {
    FirstFitAt(events, k);
  }

  /** On start-sorted input no two events in one lane overlap by more than
      the buffer: a later event in a lane starts no earlier than five
      minutes before the end of any earlier event in that lane. */
  lemma {:induction false} NoSameLaneOverlap(events: seq<Interval>, i: nat, j: nat)
    requires SortedByStart(events)
    requires i < j < |events|
    requires Assignments(events)[i] == Assignments(events)[j]
    ensures events[j].start >= events[i].end - Buffer
    decreases j - i
  {
    var a := Assignments(events);
    if m :| i < m < j && a[m] == a[i] {
      NoSameLaneOverlap(events, i, m);
    } else {
      FirstFitAt(events, i);
      LaneUntouched(events, i + 1, j, a[i]);
      FirstFitAt(events, j);
      var lanes := LanesAfter(events[..j]);
      // event j was not placed in a new lane: lane a[i] already existed
      assert a[j] < |lanes|;
      assert lanes[a[j]] == events[i].end;
    }
  }

  // ---------------------------------------------------------------------
  // The buffer boundary and worked scenarios

  /** The buffer is inclusive: exactly five minutes before a lane's end
      still shares the lane, one second earlier opens a new one. */
  lemma BufferIsInclusive(s0: int, e0: int, e1: int)
    ensures Assignments([Interval(s0, e0), Interval(e0 - Buffer, e1)]) == [0, 0]
    ensures Assignments([Interval(s0, e0), Interval(e0 - Buffer - 1, e1)]) == [0, 1]
  {
    assert [Interval(s0, e0), Interval(e0 - Buffer, e1)][..1] == [Interval(s0, e0)];
    assert [Interval(s0, e0), Interval(e0 - Buffer - 1, e1)][..1] == [Interval(s0, e0)];
  }

  /** Overwriting, not maxing: a short event nested at the end of a long
      one pulls the lane's end back. */
  lemma LaneEndCanDecrease()
    ensures LanesAfter([Interval(0, 1000), Interval(700, 710)]) == [710]
    ensures Assignments([Interval(0, 1000), Interval(700, 710)]) == [0, 0]
  {
    assert [Interval(0, 1000), Interval(700, 710)][..1] == [Interval(0, 1000)];
  }

  /** (0, 1000), (0, 10), (500, 600): the short event cannot share the long
      one's lane, and the third goes in its lane after it. */
  lemma TieBrokenBackwards()
    ensures Assignments([Interval(0, 1000), Interval(0, 10), Interval(500, 600)]) == [0, 1, 1]
  {
    var events := [Interval(0, 1000), Interval(0, 10), Interval(500, 600)];
    assert events[..0] == [];
    PrefixStep(events, 0);
    assert LanesAfter(events[..1]) == [1000] && Assignments(events[..1]) == [0];
    PrefixStep(events, 1);
    assert FirstFit([1000], 0) == 1;
    assert LanesAfter(events[..2]) == [1000, 10] && Assignments(events[..2]) == [0, 1];
    PrefixStep(events, 2);
    assert FirstFit([1000, 10], 500) == 1;
    assert events[..3] == events;
  }

  /** 09:00-10:00, 09:30-11:00 and 10:30-11:30 need two lanes: the second
      event overlaps the first, the third follows the first. */
  lemma ThreeMeetings()
    ensures var events := [Interval(32400, 36000), Interval(34200, 39600), Interval(37800, 41400)];
      Assignments(events) == [0, 1, 0] && |LanesAfter(events)| == 2
  {
    var events := [Interval(32400, 36000), Interval(34200, 39600), Interval(37800, 41400)];
    assert events[..2][..1] == events[..1];
    assert LanesAfter(events[..1]) == [36000];
    assert LanesAfter(events[..2]) == [36000, 39600];
  }
}
