/** `schedule.rs`: a scheduled scene, the copy of the time-range parser it
    carries (minutes parsed before hours), and the linearizer that turns a
    list of possibly overlapping schedules into a list without overlaps. */
module Schedule {
  import opened Text
  import TimeRangeParser

  /** A scene to be active from minute `start` to minute `end`. */
  datatype ScheduledScene = ScheduledScene(sceneId: string, start: nat, end: nat)

  // ---- extract_minutes / extract_time_range ----

  /** The parser of `schedule.rs`: it reads the minutes before the hours,
      which changes nothing, since either failure gives `Err`. */
  function ExtractMinutes(s: string): (r: Result<Option<nat>>)
    ensures r == TimeRangeParser.ExtractMinutes(s)
  {
    var parts := Split(s, ':');
    if 0 < |parts| < 3 then
      match (if |parts| > 1 then ParseU32(parts[1]) else Some(0))
      case None => Err
      case Some(minutes) =>
        match ParseU32(parts[0])
        case None => Err
        case Some(hours) =>
          if minutes > 59 || hours > 24 then Err else Ok(Some(hours * 60 + minutes))
    else Ok(None)
  }

  /** The same pattern as the shared parser, read with this file's
      `ExtractMinutes`: the two parsers agree on every name. */
  function ExtractTimeRange(s: string): (r: Option<TimeRangeParser.TimeRange>)
    ensures r == TimeRangeParser.ExtractTimeRange(s)
  {
    match TimeRangeParser.Captures(s)
    case None => None
    case Some((start, end)) =>
      match (ExtractMinutes(start), ExtractMinutes(end))
      case (Ok(Some(a)), Ok(Some(b))) => Some((a, b))
      case _ => None
  }

  /** The accepted names of `test_extract_time_range`. */
  lemma ExtractTimeRangeAccepts()
    ensures ExtractTimeRange("Test (10h-20h)") == Some((600, 1200))
    ensures ExtractTimeRange("Test (12:23h-20h)") == Some((743, 1200))
    ensures ExtractTimeRange("Test (12:23h-20:59h)") == Some((743, 1259))
    ensures ExtractTimeRange("Test (0:01h-0:00h)") == Some((1, 0))
    ensures ExtractTimeRange("Test (0:00h-0:00h)") == Some((0, 0))
  {
    TimeRangeParser.ExtractTimeRangeAcceptsHours();
    TimeRangeParser.ExtractTimeRangeAcceptsMinutes();
    TimeRangeParser.ExtractTimeRangeAcceptsBothMinutes();
    TimeRangeParser.ExtractTimeRangeAcceptsMidnight();
    TimeRangeParser.ExtractTimeRangeAcceptsEmptyRange();
  }

  /** The refused names of `test_extract_time_range`. */
  lemma ExtractTimeRangeRejects()
    ensures ExtractTimeRange("Test (0:1h-0:0h)") == None
    ensures ExtractTimeRange("Test (10h-20:60h)") == None
    ensures ExtractTimeRange("Test (10h-25h)") == None
    ensures ExtractTimeRange("Test (10h-20h") == None
    ensures ExtractTimeRange("Test 10h-20h)") == None
  {
    TimeRangeParser.ExtractTimeRangeRejectsShortMinutes();
    TimeRangeParser.ExtractTimeRangeRejectsBounds();
    TimeRangeParser.ExtractTimeRangeRejectsOpen();
    TimeRangeParser.ExtractTimeRangeRejectsUnopened();
  }

  // ---- shapes of schedule lists ----

  predicate WellFormed(x: ScheduledScene) {
    x.start <= x.end
  }

  predicate AllWellFormed(s: seq<ScheduledScene>) {
    forall x :: x in s ==> WellFormed(x)
  }

  /** Every entry is well formed and ends no later than the next starts. */
  predicate NonOverlapping(s: seq<ScheduledScene>) {
    AllWellFormed(s) && forall i :: 0 <= i < |s| - 1 ==> s[i].end <= s[i + 1].start
  }

  predicate SortedByStart(s: seq<ScheduledScene>) {
    forall i, j :: 0 <= i < j < |s| ==> s[i].start <= s[j].start
  }

  /** Non-overlapping lists are ordered: every entry ends no later than any
      later entry starts. */
  lemma NonOverlappingOrdered(s: seq<ScheduledScene>)
    requires NonOverlapping(s)
    ensures forall i, j :: 0 <= i < j < |s| ==> s[i].end <= s[j].start
    ensures SortedByStart(s)
  {
    forall i, j | 0 <= i < j < |s| ensures s[i].end <= s[j].start {
      NonOverlappingChain(s, i, j);
    }
    forall i, j | 0 <= i < j < |s| ensures s[i].start <= s[j].start {
      assert s[i] in s;
      NonOverlappingChain(s, i, j);
    }
  }

  lemma {:induction false} NonOverlappingChain(s: seq<ScheduledScene>, i: nat, j: nat)
    requires NonOverlapping(s) && i < j < |s|
    ensures s[i].end <= s[j].start
    decreases j - i
  {
    if i + 1 < j {
      NonOverlappingChain(s, i + 1, j);
      assert s[i + 1] in s;
    }
  }

  /** The scene ids of a list. */
  function Ids(s: seq<ScheduledScene>): set<string> {
    set x | x in s :: x.sceneId
  }

  /** The start and end values of a list. */
  function Bounds(s: seq<ScheduledScene>): set<nat> {
    (set x | x in s :: x.start) + (set x | x in s :: x.end)
  }

  /** Every entry takes its id from `ids` and both its bounds from `bounds`. */
  predicate DrawnFrom(s: seq<ScheduledScene>, ids: set<string>, bounds: set<nat>) {
    forall x :: x in s ==> x.sceneId in ids && x.start in bounds && x.end in bounds
  }

  // ---- the stable sort by start (`sort_by(|a, b| a.start.cmp(&b.start))`) ----

  /** Puts `x` after every entry of `s` that does not start later. */
  function InsertByStart(s: seq<ScheduledScene>, x: ScheduledScene): (r: seq<ScheduledScene>)
    ensures multiset(r) == multiset(s) + multiset{x}
    ensures |r| == |s| + 1
  {
    if s == [] || s[|s| - 1].start <= x.start then s + [x]
    else
      assert s == s[..|s| - 1] + [s[|s| - 1]];
      InsertByStart(s[..|s| - 1], x) + [s[|s| - 1]]
  }

  /** Insertion sort from the left, each new entry going after its equals. */
  function SortByStart(s: seq<ScheduledScene>): (r: seq<ScheduledScene>)
    ensures multiset(r) == multiset(s)
    ensures |r| == |s|
  {
    if s == [] then []
    else
      assert s == s[..|s| - 1] + [s[|s| - 1]];
      InsertByStart(SortByStart(s[..|s| - 1]), s[|s| - 1])
  }

  lemma {:induction false} InsertByStartSorted(s: seq<ScheduledScene>, x: ScheduledScene)
    requires SortedByStart(s)
    ensures SortedByStart(InsertByStart(s, x))
  {
    if s == [] || s[|s| - 1].start <= x.start {
      forall y | y in s ensures y.start <= x.start {
        var k :| 0 <= k < |s| && s[k] == y;
      }
      SortedSnoc(s, x);
    } else {
      var init := s[..|s| - 1];
      var last := s[|s| - 1];
      SortedInit(s);
      SortedBelowLast(s);
      InsertByStartSorted(init, x);
      InsertByStartBounded(init, x, last.start);
      SortedSnoc(InsertByStart(init, x), last);
    }
  }

  /** Dropping the last entry keeps a list sorted. */
  lemma SortedInit(s: seq<ScheduledScene>)
    requires SortedByStart(s) && s != []
    ensures SortedByStart(s[..|s| - 1])
    ensures |s| > 1 ==> s[|s| - 2].start <= s[|s| - 1].start
  {
  }

  /** In a sorted list every entry starts no later than the last. */
  lemma SortedBelowLast(s: seq<ScheduledScene>)
    requires SortedByStart(s) && s != []
    ensures forall y :: y in s[..|s| - 1] ==> y.start <= s[|s| - 1].start
  {
    forall y | y in s[..|s| - 1] ensures y.start <= s[|s| - 1].start {
      var k :| 0 <= k < |s| - 1 && s[..|s| - 1][k] == y;
      assert s[k] == y;
    }
  }

  /** Appending an entry that starts no earlier than every entry keeps a
      list sorted. */
  lemma SortedSnoc(s: seq<ScheduledScene>, x: ScheduledScene)
    requires SortedByStart(s)
    requires forall y :: y in s ==> y.start <= x.start
    ensures SortedByStart(s + [x])
  {
    var t := s + [x];
    forall i, j | 0 <= i < j < |t| ensures t[i].start <= t[j].start {
      if j == |s| {
        assert t[i] == s[i];
        assert s[i] in s;
      } else {
        assert t[i] == s[i] && t[j] == s[j];
      }
    }
  }

  /** A bound on the starts of `s` and `x` bounds the starts of the
      insertion. */
  lemma InsertByStartBounded(s: seq<ScheduledScene>, x: ScheduledScene, bound: nat)
    requires forall y :: y in s ==> y.start <= bound
    requires x.start <= bound
    ensures forall y :: y in InsertByStart(s, x) ==> y.start <= bound
  {
    var r := InsertByStart(s, x);
    forall y | y in r ensures y.start <= bound {
      assert y in multiset(r);
      assert y in multiset(s) || y == x;
    }
  }

  lemma {:induction false} SortByStartSorted(s: seq<ScheduledScene>)
    ensures SortedByStart(SortByStart(s))
  {
    if s != [] {
      SortByStartSorted(s[..|s| - 1]);
      InsertByStartSorted(SortByStart(s[..|s| - 1]), s[|s| - 1]);
    }
  }

  /** The entries of `s` that start at `v`, in their order in `s`. */
  function StartingAt(s: seq<ScheduledScene>, v: nat): seq<ScheduledScene> {
    if s == [] then []
    else StartingAt(s[..|s| - 1], v) + (if s[|s| - 1].start == v then [s[|s| - 1]] else [])
  }

  lemma {:induction false} InsertByStartStable(s: seq<ScheduledScene>, x: ScheduledScene, v: nat)
    ensures StartingAt(InsertByStart(s, x), v) == StartingAt(s, v) + (if x.start == v then [x] else [])
  {
    if s == [] || s[|s| - 1].start <= x.start {
      StartingAtSnoc(s, x, v);
    } else {
      var init := s[..|s| - 1];
      var last := s[|s| - 1];
      InsertByStartStable(init, x, v);
      StartingAtSnoc(InsertByStart(init, x), last, v);
    }
  }

  lemma StartingAtSnoc(s: seq<ScheduledScene>, x: ScheduledScene, v: nat)
    ensures StartingAt(s + [x], v) == StartingAt(s, v) + (if x.start == v then [x] else [])
  {
    assert (s + [x])[..|s|] == s;
  }

  /** The sort is stable: entries with equal starts keep their order. */
  lemma {:induction false} SortByStartStable(s: seq<ScheduledScene>, v: nat)
    ensures StartingAt(SortByStart(s), v) == StartingAt(s, v)
  {
    if s != [] {
      SortByStartStable(s[..|s| - 1], v);
      InsertByStartStable(SortByStart(s[..|s| - 1]), s[|s| - 1], v);
    }
  }

  /** Sorting an already sorted list changes nothing. */
  lemma {:induction false} SortByStartOfSorted(s: seq<ScheduledScene>)
    requires SortedByStart(s)
    ensures SortByStart(s) == s
  {
    if s != [] {
      var init := s[..|s| - 1];
      var last := s[|s| - 1];
      SortedInit(s);
      SortByStartOfSorted(init);
      assert s == init + [last];
      SortByStartSnoc(init, last);
      if init != [] {
        assert init[|init| - 1] == s[|s| - 2];
      }
      assert InsertByStart(init, last) == init + [last];
    }
  }

  // ---- the linearizer, as a function of its input ----

  /** The two vectors of the sweep: `stack` (top last) and `schedules`. */
  datatype Sweep = Sweep(stack: seq<ScheduledScene>, schedules: seq<ScheduledScene>)

  /** One iteration of the `for` loop over the sorted list. */
  function PushStep(sw: Sweep, current: ScheduledScene): Sweep {
    if sw.stack == [] then Sweep([current], sw.schedules)
    else
      var last := sw.stack[|sw.stack| - 1];
      var below := sw.stack[..|sw.stack| - 1];
      if current.start >= last.end then
        // the top ends before `current` starts: it is final
        Sweep(below + [current], sw.schedules + [last])
      else if current.start <= last.start then
        // the top would never be active
        Sweep(sw.stack + [current], sw.schedules)
      else if last.sceneId == current.sceneId then
        Sweep(below + [last.(end := current.start)] + [current], sw.schedules)
      else
        Sweep(sw.stack + [current],
              sw.schedules + [ScheduledScene(last.sceneId, last.start, current.start)])
  }

  /** The `for` loop over a whole list. */
  function SweepAll(s: seq<ScheduledScene>): Sweep {
    if s == [] then Sweep([], [])
    else PushStep(SweepAll(s[..|s| - 1]), s[|s| - 1])
  }

  /** One iteration of the `while let` loop, with the popped entry `x`. */
  function UnwindStep(x: ScheduledScene, schedules: seq<ScheduledScene>): seq<ScheduledScene> {
    if schedules == [] then [x]
    else
      var last := schedules[|schedules| - 1];
      var before := schedules[..|schedules| - 1];
      if x.start >= last.end then
        if last.sceneId == x.sceneId then before + [last.(end := x.end)]
        else schedules + [x]
      else if x.end > last.end then
        if last.sceneId == x.sceneId then before + [last.(end := x.end)]
        else schedules + [ScheduledScene(x.sceneId, last.end, x.end)]
      else schedules
  }

  /** The `while let` loop: pops the stack down to empty. */
  function Unwind(stack: seq<ScheduledScene>, schedules: seq<ScheduledScene>): seq<ScheduledScene>
    decreases |stack|
  {
    if stack == [] then schedules
    else Unwind(stack[..|stack| - 1], UnwindStep(stack[|stack| - 1], schedules))
  }

  /** What `linearize_schedules` returns for `list`. */
  function Linearized(list: seq<ScheduledScene>): seq<ScheduledScene> {
    var sw := SweepAll(SortByStart(list));
    Unwind(sw.stack, sw.schedules)
  }

  // ---- linearize_schedules ----

  /** The imperative linearizer: a sorted copy, then the two loops below. */
  method LinearizeSchedules(list: seq<ScheduledScene>) returns (schedules: seq<ScheduledScene>)
    ensures schedules == Linearized(list)
    ensures AllWellFormed(list) ==> NonOverlapping(schedules)
    ensures DrawnFrom(schedules, Ids(list), Bounds(list))
    ensures |schedules| <= 2 * |list|
    ensures schedules == [] <==> list == []
  {
    var sorted := SortByStart(list);
    var stack, swept := BuildStack(sorted);
    schedules := UnwindStack(stack, swept);
    if AllWellFormed(list) {
      LinearizedNonOverlapping(list);
    }
    LinearizedDrawn(list);
    LinearizedLength(list);
  }

  /** The `for` loop: builds up the stack, moving finished entries to
      `schedules` and cutting the top short in place. */
  method BuildStack(sorted: seq<ScheduledScene>) returns (stack: seq<ScheduledScene>, schedules: seq<ScheduledScene>)
    ensures Sweep(stack, schedules) == SweepAll(sorted)
  {
    stack := [];
    schedules := [];
    for i := 0 to |sorted|
      invariant Sweep(stack, schedules) == SweepAll(sorted[..i])
    {
      var current := sorted[i];
      assert sorted[..i + 1][..i] == sorted[..i];
      if stack == [] {
        stack := stack + [current];
      } else {
        var last := stack[|stack| - 1];
        if current.start >= last.end {
          schedules := schedules + [last];
          stack := stack[..|stack| - 1] + [current];
        } else if current.start <= last.start {
          stack := stack + [current];
        } else {
          if last.sceneId == current.sceneId {
            stack := stack[..|stack| - 1] + [last.(end := current.start)];
          } else {
            schedules := schedules + [ScheduledScene(last.sceneId, last.start, current.start)];
          }
          stack := stack + [current];
        }
      }
    }
    assert sorted[..|sorted|] == sorted;
  }

  /** The `while let` loop: pops the stack, extending the last result entry
      in place or appending to the result. */
  method UnwindStack(stack0: seq<ScheduledScene>, schedules0: seq<ScheduledScene>) returns (schedules: seq<ScheduledScene>)
    ensures schedules == Unwind(stack0, schedules0)
  {
    var stack := stack0;
    schedules := schedules0;
    while stack != []
      invariant Unwind(stack, schedules) == Unwind(stack0, schedules0)
      decreases |stack|
    {
      var schedule := stack[|stack| - 1];
      ghost var next := UnwindStep(schedule, schedules);
      stack := stack[..|stack| - 1];
      if schedules == [] {
        schedules := schedules + [schedule];
      } else {
        var last := schedules[|schedules| - 1];
        if schedule.start >= last.end {
          if last.sceneId == schedule.sceneId {
            schedules := schedules[..|schedules| - 1] + [last.(end := schedule.end)];
          } else {
            schedules := schedules + [schedule];
          }
        } else if schedule.end > last.end {
          if last.sceneId == schedule.sceneId {
            schedules := schedules[..|schedules| - 1] + [last.(end := schedule.end)];
          } else {
            schedules := schedules + [ScheduledScene(schedule.sceneId, last.end, schedule.end)];
          }
        }
      }
      assert schedules == next;
    }
  }

  // ---- what the linearizer guarantees ----

  /** What holds of the two vectors after every iteration of the sweep over
      a sorted list of well-formed entries. */
  ghost predicate SweepInvariant(sw: Sweep) {
    && AllWellFormed(sw.stack)
    && NonOverlapping(sw.schedules)
    && (sw.stack == [] ==> sw.schedules == [])
    && (sw.stack != [] && sw.schedules != [] ==>
          sw.schedules[|sw.schedules| - 1].end <= sw.stack[|sw.stack| - 1].start)
  }

  lemma PushStepInvariant(sw: Sweep, current: ScheduledScene)
    requires SweepInvariant(sw) && WellFormed(current)
    requires sw.stack != [] ==> sw.stack[|sw.stack| - 1].start <= current.start
    ensures SweepInvariant(PushStep(sw, current))
  {
    var next := PushStep(sw, current);
    if sw.stack != [] {
      var last := sw.stack[|sw.stack| - 1];
      assert last in sw.stack;
      var r := sw.schedules;
      if current.start >= last.end {
        assert next.schedules == r + [last];
        assert forall i :: 0 <= i < |r| - 1 ==> (r + [last])[i] == r[i];
      } else if current.start <= last.start {
      } else if last.sceneId == current.sceneId {
      } else {
        var piece := ScheduledScene(last.sceneId, last.start, current.start);
        assert next.schedules == r + [piece];
        assert forall i :: 0 <= i < |r| - 1 ==> (r + [piece])[i] == r[i];
      }
    }
  }

  /** The top of the stack is the entry swept last; the two vectors hold
      at most two entries per entry swept. */
  lemma {:induction false} SweepAllShape(s: seq<ScheduledScene>)
    ensures s == [] ==> SweepAll(s) == Sweep([], [])
    ensures s != [] ==> SweepAll(s).stack != [] && SweepAll(s).stack[|SweepAll(s).stack| - 1] == s[|s| - 1]
    ensures |SweepAll(s).stack| + |SweepAll(s).schedules| <= 2 * |s|
  {
    if s != [] {
      SweepAllShape(s[..|s| - 1]);
    }
  }

  lemma {:induction false} SweepAllInvariant(s: seq<ScheduledScene>)
    requires SortedByStart(s) && AllWellFormed(s)
    ensures SweepInvariant(SweepAll(s))
  {
    if s != [] {
      var init := s[..|s| - 1];
      assert SortedByStart(init);
      assert s[|s| - 1] in s;
      SweepAllInvariant(init);
      SweepAllShape(init);
      PushStepInvariant(SweepAll(init), s[|s| - 1]);
    }
  }

  lemma SweepAllDrawn(s: seq<ScheduledScene>, ids: set<string>, bounds: set<nat>)
    requires DrawnFrom(s, ids, bounds)
    ensures DrawnFrom(SweepAll(s).stack, ids, bounds) && DrawnFrom(SweepAll(s).schedules, ids, bounds)
  {
    if s != [] {
      assert s[|s| - 1] in s;
      SweepAllDrawn(s[..|s| - 1], ids, bounds);
    }
  }

  lemma UnwindStepNonOverlapping(x: ScheduledScene, r: seq<ScheduledScene>)
    requires WellFormed(x) && NonOverlapping(r)
    ensures NonOverlapping(UnwindStep(x, r))
  {
    if r != [] {
      var last := r[|r| - 1];
      assert last in r;
      var before := r[..|r| - 1];
      var next := UnwindStep(x, r);
      if next == before + [last.(end := x.end)] {
        assert forall i :: 0 <= i < |r| - 1 ==> next[i] == r[i];
        forall y | y in next ensures WellFormed(y) {
          if y != last.(end := x.end) {
            var k :| 0 <= k < |next| && next[k] == y;
            assert r[k] == y;
          }
        }
      } else if next != r {
        assert |next| == |r| + 1 && next[..|r|] == r;
        assert forall i :: 0 <= i < |r| ==> next[i] == r[i];
      }
    }
  }

  lemma UnwindStepLength(x: ScheduledScene, r: seq<ScheduledScene>)
    ensures |r| <= |UnwindStep(x, r)| <= |r| + 1
    ensures UnwindStep(x, r) != []
  {
  }

  lemma UnwindStepDrawn(x: ScheduledScene, r: seq<ScheduledScene>, ids: set<string>, bounds: set<nat>)
    requires DrawnFrom([x], ids, bounds) && DrawnFrom(r, ids, bounds)
    ensures DrawnFrom(UnwindStep(x, r), ids, bounds)
  {
    assert x in [x];
    if r != [] {
      assert r[|r| - 1] in r;
    }
  }

  /** The unwinding keeps the result free of overlaps, whatever the stack
      holds, as long as its entries are well formed. */
  lemma {:induction false} UnwindNonOverlapping(stack: seq<ScheduledScene>, r: seq<ScheduledScene>)
    requires AllWellFormed(stack) && NonOverlapping(r)
    ensures NonOverlapping(Unwind(stack, r))
    decreases |stack|
  {
    if stack != [] {
      assert stack[|stack| - 1] in stack;
      UnwindStepNonOverlapping(stack[|stack| - 1], r);
      UnwindNonOverlapping(stack[..|stack| - 1], UnwindStep(stack[|stack| - 1], r));
    }
  }

  lemma {:induction false} UnwindLength(stack: seq<ScheduledScene>, r: seq<ScheduledScene>)
    ensures |r| <= |Unwind(stack, r)| <= |r| + |stack|
    ensures stack != [] ==> Unwind(stack, r) != []
    decreases |stack|
  {
    if stack != [] {
      var next := UnwindStep(stack[|stack| - 1], r);
      UnwindStepLength(stack[|stack| - 1], r);
      UnwindLength(stack[..|stack| - 1], next);
    }
  }

  lemma {:induction false} UnwindDrawn(stack: seq<ScheduledScene>, r: seq<ScheduledScene>, ids: set<string>, bounds: set<nat>)
    requires DrawnFrom(stack, ids, bounds) && DrawnFrom(r, ids, bounds)
    ensures DrawnFrom(Unwind(stack, r), ids, bounds)
    decreases |stack|
  {
    if stack != [] {
      var x := stack[|stack| - 1];
      assert x in stack;
      UnwindStepDrawn(x, r, ids, bounds);
      UnwindDrawn(stack[..|stack| - 1], UnwindStep(x, r), ids, bounds);
    }
  }

  /** With every input entry well formed, the result is sorted and free of
      overlaps. */
  lemma LinearizedNonOverlapping(list: seq<ScheduledScene>)
    requires AllWellFormed(list)
    ensures NonOverlapping(Linearized(list))
    ensures SortedByStart(Linearized(list))
  {
    var sorted := SortByStart(list);
    SortByStartSorted(list);
    assert forall x :: x in sorted ==> x in multiset(list);
    SweepAllInvariant(sorted);
    var sw := SweepAll(sorted);
    UnwindNonOverlapping(sw.stack, sw.schedules);
    NonOverlappingOrdered(Linearized(list));
  }

  /** Every result entry carries an input id, and its start and end are
      each some input entry's start or end. */
  lemma LinearizedDrawn(list: seq<ScheduledScene>)
    ensures DrawnFrom(Linearized(list), Ids(list), Bounds(list))
  {
    var sorted := SortByStart(list);
    forall x | x in sorted ensures x.sceneId in Ids(list) && x.start in Bounds(list) && x.end in Bounds(list) {
      assert x in multiset(list);
    }
    SweepAllDrawn(sorted, Ids(list), Bounds(list));
    var sw := SweepAll(sorted);
    UnwindDrawn(sw.stack, sw.schedules, Ids(list), Bounds(list));
  }

  /** The result is empty exactly for an empty input, and at most twice as
      long as the input. */
  lemma LinearizedLength(list: seq<ScheduledScene>)
    ensures |Linearized(list)| <= 2 * |list|
    ensures Linearized(list) == [] <==> list == []
  {
    var sorted := SortByStart(list);
    SweepAllShape(sorted);
    var sw := SweepAll(sorted);
    UnwindLength(sw.stack, sw.schedules);
  }

  /** A list without overlaps comes back unchanged, unless its last two
      entries share a scene id: the unwinding then merges them. */
  lemma LinearizedOfDisjoint(list: seq<ScheduledScene>)
    requires NonOverlapping(list)
    requires |list| >= 2 ==> list[|list| - 2].sceneId != list[|list| - 1].sceneId
    ensures Linearized(list) == list
  {
    NonOverlappingOrdered(list);
    SortByStartOfSorted(list);
    if list != [] {
      SweepAllOfDisjoint(list);
      var init := list[..|list| - 1];
      var last := list[|list| - 1];
      assert Linearized(list) == Unwind([last], init);
      assert Unwind([last], init) == UnwindStep(last, init);
      if |list| >= 2 {
        assert init[|init| - 1] == list[|list| - 2];
        assert UnwindStep(last, init) == init + [last];
      }
      assert list == init + [last];
    }
  }

  lemma {:induction false} SweepAllOfDisjoint(s: seq<ScheduledScene>)
    requires NonOverlapping(s) && s != []
    ensures SweepAll(s) == Sweep([s[|s| - 1]], s[..|s| - 1])
  {
    var init := s[..|s| - 1];
    if |s| > 1 {
      assert NonOverlapping(init) by {
        assert forall i :: 0 <= i < |init| ==> init[i] == s[i];
      }
      SweepAllOfDisjoint(init);
      assert init[..|init| - 1] + [init[|init| - 1]] == init;
    }
  }

  // ---- the scenarios of the tests, and two the code does not cover ----

  lemma SortByStartSnoc(s: seq<ScheduledScene>, x: ScheduledScene)
    ensures SortByStart(s + [x]) == InsertByStart(SortByStart(s), x)
  {
    assert (s + [x])[..|s|] == s;
  }

  lemma SweepAllSnoc(s: seq<ScheduledScene>, x: ScheduledScene)
    ensures SweepAll(s + [x]) == PushStep(SweepAll(s), x)
  {
    assert (s + [x])[..|s|] == s;
  }

  lemma UnwindSnoc(stack: seq<ScheduledScene>, x: ScheduledScene, r: seq<ScheduledScene>)
    ensures Unwind(stack + [x], r) == Unwind(stack, UnwindStep(x, r))
  {
    assert (stack + [x])[..|stack|] == stack;
  }

  lemma LinearizeNoChange()
    ensures Linearized([ScheduledScene("1", 0, 10)]) == [ScheduledScene("1", 0, 10)]
    ensures var l := [ScheduledScene("1", 0, 10), ScheduledScene("2", 50, 100), ScheduledScene("3", 100, 200)];
      Linearized(l) == l
  {
    NoChangeDisjoint();
    LinearizedOfDisjoint([ScheduledScene("1", 0, 10)]);
    LinearizedOfDisjoint([ScheduledScene("1", 0, 10), ScheduledScene("2", 50, 100), ScheduledScene("3", 100, 200)]);
  }

  /** The lists of `test_linearize_schedules_no_change` have no overlaps. */
  lemma NoChangeDisjoint()
    ensures NonOverlapping([ScheduledScene("1", 0, 10)])
    ensures var l := [ScheduledScene("1", 0, 10), ScheduledScene("2", 50, 100), ScheduledScene("3", 100, 200)];
      NonOverlapping(l) && l[1].sceneId != l[2].sceneId
  {
  }

  lemma LinearizeOverlapping()
    ensures Linearized([ScheduledScene("1", 0, 100), ScheduledScene("2", 25, 75)])
      == [ScheduledScene("1", 0, 25), ScheduledScene("2", 25, 75), ScheduledScene("1", 75, 100)]
  {
    OverlappingSort();
    OverlappingSweep();
    OverlappingUnwind();
  }

  lemma OverlappingSort()
    ensures SortByStart([ScheduledScene("1", 0, 100), ScheduledScene("2", 25, 75)])
      == [ScheduledScene("1", 0, 100), ScheduledScene("2", 25, 75)]
  {
    var a, b := ScheduledScene("1", 0, 100), ScheduledScene("2", 25, 75);
    assert SortedByStart([a, b]);
    SortByStartOfSorted([a, b]);
  }

  lemma OverlappingSweep()
    ensures SweepAll([ScheduledScene("1", 0, 100), ScheduledScene("2", 25, 75)])
      == Sweep([ScheduledScene("1", 0, 100), ScheduledScene("2", 25, 75)], [ScheduledScene("1", 0, 25)])
  {
    var a, b := ScheduledScene("1", 0, 100), ScheduledScene("2", 25, 75);
    assert [a, b] == [a] + [b];
    SweepAllSnoc([], a);
    SweepAllSnoc([a], b);
  }

  lemma OverlappingUnwind()
    ensures Unwind([ScheduledScene("1", 0, 100), ScheduledScene("2", 25, 75)], [ScheduledScene("1", 0, 25)])
      == [ScheduledScene("1", 0, 25), ScheduledScene("2", 25, 75), ScheduledScene("1", 75, 100)]
  {
    var a, b := ScheduledScene("1", 0, 100), ScheduledScene("2", 25, 75);
    var p := ScheduledScene("1", 0, 25);
    assert [a, b] == [a] + [b];
    UnwindSnoc([a], b, [p]);
    UnwindSnoc([], a, [p, b]);
  }

  lemma LinearizeEnclosed()
    ensures Linearized([ScheduledScene("1", 0, 100), ScheduledScene("2", 25, 100), ScheduledScene("2", 0, 25)])
      == [ScheduledScene("2", 0, 100)]
  {
    EnclosedSort();
    EnclosedSweep();
    EnclosedUnwind();
  }

  lemma EnclosedSort()
    ensures SortByStart([ScheduledScene("1", 0, 100), ScheduledScene("2", 25, 100), ScheduledScene("2", 0, 25)])
      == [ScheduledScene("1", 0, 100), ScheduledScene("2", 0, 25), ScheduledScene("2", 25, 100)]
  {
    var a, b, c := ScheduledScene("1", 0, 100), ScheduledScene("2", 25, 100), ScheduledScene("2", 0, 25);
    assert [a, b, c] == [a, b] + [c];
    SortByStartSnoc([a, b], c);
    EnclosedSortPrefix();
    EnclosedInsert();
  }

  lemma EnclosedSortPrefix()
    ensures SortByStart([ScheduledScene("1", 0, 100), ScheduledScene("2", 25, 100)])
      == [ScheduledScene("1", 0, 100), ScheduledScene("2", 25, 100)]
  {
    var a, b := ScheduledScene("1", 0, 100), ScheduledScene("2", 25, 100);
    assert SortedByStart([a, b]);
    SortByStartOfSorted([a, b]);
  }

  lemma EnclosedInsert()
    ensures InsertByStart([ScheduledScene("1", 0, 100), ScheduledScene("2", 25, 100)], ScheduledScene("2", 0, 25))
      == [ScheduledScene("1", 0, 100), ScheduledScene("2", 0, 25), ScheduledScene("2", 25, 100)]
  {
    var a, b, c := ScheduledScene("1", 0, 100), ScheduledScene("2", 25, 100), ScheduledScene("2", 0, 25);
    assert [a, b][..1] == [a];
    assert InsertByStart([a], c) == [a, c];
  }

  lemma EnclosedSweep()
    ensures SweepAll([ScheduledScene("1", 0, 100), ScheduledScene("2", 0, 25), ScheduledScene("2", 25, 100)])
      == Sweep([ScheduledScene("1", 0, 100), ScheduledScene("2", 25, 100)], [ScheduledScene("2", 0, 25)])
  {
    var a, b, c := ScheduledScene("1", 0, 100), ScheduledScene("2", 25, 100), ScheduledScene("2", 0, 25);
    assert SweepAll([a, c]) == Sweep([a, c], []) by {
      assert [a, c] == [a] + [c];
      SweepAllSnoc([], a);
      SweepAllSnoc([a], c);
    }
    assert [a, c, b] == [a, c] + [b];
    SweepAllSnoc([a, c], b);
  }

  lemma EnclosedUnwind()
    ensures Unwind([ScheduledScene("1", 0, 100), ScheduledScene("2", 25, 100)], [ScheduledScene("2", 0, 25)])
      == [ScheduledScene("2", 0, 100)]
  {
    var a, b, c := ScheduledScene("1", 0, 100), ScheduledScene("2", 25, 100), ScheduledScene("2", 0, 25);
    assert [a, b] == [a] + [b];
    UnwindSnoc([a], b, [c]);
    UnwindSnoc([], a, [ScheduledScene("2", 0, 100)]);
  }

  lemma LinearizeOverflow()
    ensures Linearized([ScheduledScene("1", 0, 100), ScheduledScene("2", 50, 100),
                        ScheduledScene("3", 70, 120), ScheduledScene("2", 75, 100)])
      == [ScheduledScene("1", 0, 50), ScheduledScene("2", 50, 70), ScheduledScene("3", 70, 75),
          ScheduledScene("2", 75, 100), ScheduledScene("3", 100, 120)]
  {
    var a, b, c, d := ScheduledScene("1", 0, 100), ScheduledScene("2", 50, 100),
                      ScheduledScene("3", 70, 120), ScheduledScene("2", 75, 100);
    assert SortedByStart([a, b, c, d]);
    SortByStartOfSorted([a, b, c, d]);
    OverflowSweep();
    OverflowUnwind();
  }

  lemma OverflowSweepPrefix()
    ensures SweepAll([ScheduledScene("1", 0, 100), ScheduledScene("2", 50, 100), ScheduledScene("3", 70, 120)])
      == Sweep([ScheduledScene("1", 0, 100), ScheduledScene("2", 50, 100), ScheduledScene("3", 70, 120)],
               [ScheduledScene("1", 0, 50), ScheduledScene("2", 50, 70)])
  {
    var a, b, c := ScheduledScene("1", 0, 100), ScheduledScene("2", 50, 100), ScheduledScene("3", 70, 120);
    assert SweepAll([a, b]) == Sweep([a, b], [ScheduledScene("1", 0, 50)]) by {
      assert [a, b] == [a] + [b];
      SweepAllSnoc([], a);
      SweepAllSnoc([a], b);
    }
    assert [a, b, c] == [a, b] + [c];
    SweepAllSnoc([a, b], c);
  }

  lemma OverflowSweep()
    ensures SweepAll([ScheduledScene("1", 0, 100), ScheduledScene("2", 50, 100),
                      ScheduledScene("3", 70, 120), ScheduledScene("2", 75, 100)])
      == Sweep([ScheduledScene("1", 0, 100), ScheduledScene("2", 50, 100),
                ScheduledScene("3", 70, 120), ScheduledScene("2", 75, 100)],
               [ScheduledScene("1", 0, 50), ScheduledScene("2", 50, 70), ScheduledScene("3", 70, 75)])
  {
    var a, b, c, d := ScheduledScene("1", 0, 100), ScheduledScene("2", 50, 100),
                      ScheduledScene("3", 70, 120), ScheduledScene("2", 75, 100);
    OverflowSweepPrefix();
    assert [a, b, c, d] == [a, b, c] + [d];
    SweepAllSnoc([a, b, c], d);
  }

  lemma OverflowUnwindTop()
    ensures Unwind([ScheduledScene("1", 0, 100), ScheduledScene("2", 50, 100),
                    ScheduledScene("3", 70, 120), ScheduledScene("2", 75, 100)],
                   [ScheduledScene("1", 0, 50), ScheduledScene("2", 50, 70), ScheduledScene("3", 70, 75)])
      == Unwind([ScheduledScene("1", 0, 100), ScheduledScene("2", 50, 100)],
                [ScheduledScene("1", 0, 50), ScheduledScene("2", 50, 70), ScheduledScene("3", 70, 75),
                 ScheduledScene("2", 75, 100), ScheduledScene("3", 100, 120)])
  {
    var a, b, c, d := ScheduledScene("1", 0, 100), ScheduledScene("2", 50, 100),
                      ScheduledScene("3", 70, 120), ScheduledScene("2", 75, 100);
    var p, q, u := ScheduledScene("1", 0, 50), ScheduledScene("2", 50, 70), ScheduledScene("3", 70, 75);
    assert [a, b, c, d] == [a, b, c] + [d];
    UnwindSnoc([a, b, c], d, [p, q, u]);
    assert UnwindStep(d, [p, q, u]) == [p, q, u, d];
    assert [a, b, c] == [a, b] + [c];
    UnwindSnoc([a, b], c, [p, q, u, d]);
  }

  lemma OverflowUnwind()
    ensures Unwind([ScheduledScene("1", 0, 100), ScheduledScene("2", 50, 100),
                    ScheduledScene("3", 70, 120), ScheduledScene("2", 75, 100)],
                   [ScheduledScene("1", 0, 50), ScheduledScene("2", 50, 70), ScheduledScene("3", 70, 75)])
      == [ScheduledScene("1", 0, 50), ScheduledScene("2", 50, 70), ScheduledScene("3", 70, 75),
          ScheduledScene("2", 75, 100), ScheduledScene("3", 100, 120)]
  {
    var a, b := ScheduledScene("1", 0, 100), ScheduledScene("2", 50, 100);
    var r := [ScheduledScene("1", 0, 50), ScheduledScene("2", 50, 70), ScheduledScene("3", 70, 75),
              ScheduledScene("2", 75, 100), ScheduledScene("3", 100, 120)];
    OverflowUnwindTop();
    assert [a, b] == [a] + [b];
    UnwindSnoc([a], b, r);
    UnwindSnoc([], a, r);
  }

  /** Coverage is not kept: the span from 8 to 9, inside the first entry,
      is covered by no result entry. */
  lemma LinearizeLosesCoverage()
    ensures var r := Linearized([ScheduledScene("A", 0, 10), ScheduledScene("B", 5, 8), ScheduledScene("C", 9, 20)]);
      && r == [ScheduledScene("A", 0, 5), ScheduledScene("B", 5, 8), ScheduledScene("C", 9, 20)]
      && forall x :: x in r ==> !(x.start <= 8 && 9 <= x.end)
  {
    GapSort();
    GapSweep();
    GapUnwind();
    GapUncovered();
  }

  lemma GapUncovered()
    ensures var r := [ScheduledScene("A", 0, 5), ScheduledScene("B", 5, 8), ScheduledScene("C", 9, 20)];
      forall x :: x in r ==> !(x.start <= 8 && 9 <= x.end)
  {
  }

  lemma GapSort()
    ensures var l := [ScheduledScene("A", 0, 10), ScheduledScene("B", 5, 8), ScheduledScene("C", 9, 20)];
      SortByStart(l) == l
  {
    var a, b, c := ScheduledScene("A", 0, 10), ScheduledScene("B", 5, 8), ScheduledScene("C", 9, 20);
    assert SortedByStart([a, b, c]);
    SortByStartOfSorted([a, b, c]);
  }

  lemma GapUnwind()
    ensures Unwind([ScheduledScene("A", 0, 10), ScheduledScene("C", 9, 20)],
                   [ScheduledScene("A", 0, 5), ScheduledScene("B", 5, 8)])
      == [ScheduledScene("A", 0, 5), ScheduledScene("B", 5, 8), ScheduledScene("C", 9, 20)]
  {
    var a, b, c := ScheduledScene("A", 0, 10), ScheduledScene("B", 5, 8), ScheduledScene("C", 9, 20);
    var p := ScheduledScene("A", 0, 5);
    assert [a, c] == [a] + [c];
    UnwindSnoc([a], c, [p, b]);
    UnwindSnoc([], a, [p, b, c]);
  }

  lemma GapSweep()
    ensures SweepAll([ScheduledScene("A", 0, 10), ScheduledScene("B", 5, 8), ScheduledScene("C", 9, 20)])
      == Sweep([ScheduledScene("A", 0, 10), ScheduledScene("C", 9, 20)],
               [ScheduledScene("A", 0, 5), ScheduledScene("B", 5, 8)])
  {
    var a, b, c := ScheduledScene("A", 0, 10), ScheduledScene("B", 5, 8), ScheduledScene("C", 9, 20);
    assert SweepAll([a, b]) == Sweep([a, b], [ScheduledScene("A", 0, 5)]) by {
      assert [a, b] == [a] + [b];
      SweepAllSnoc([], a);
      SweepAllSnoc([a], b);
    }
    assert [a, b, c] == [a, b] + [c];
    SweepAllSnoc([a, b], c);
  }

  /** Two entries of one scene with a gap between them come back as one
      entry spanning the gap. */
  lemma LinearizeMergesAcrossGap()
    ensures Linearized([ScheduledScene("A", 0, 10), ScheduledScene("A", 20, 30)]) == [ScheduledScene("A", 0, 30)]
  {
    MergeSort();
    MergeSweep();
    UnwindSnoc([], ScheduledScene("A", 20, 30), [ScheduledScene("A", 0, 10)]);
  }

  lemma MergeSort()
    ensures SortByStart([ScheduledScene("A", 0, 10), ScheduledScene("A", 20, 30)])
      == [ScheduledScene("A", 0, 10), ScheduledScene("A", 20, 30)]
  {
    var a, b := ScheduledScene("A", 0, 10), ScheduledScene("A", 20, 30);
    assert SortedByStart([a, b]);
    SortByStartOfSorted([a, b]);
  }

  lemma MergeSweep()
    ensures SweepAll([ScheduledScene("A", 0, 10), ScheduledScene("A", 20, 30)])
      == Sweep([ScheduledScene("A", 20, 30)], [ScheduledScene("A", 0, 10)])
  {
    var a, b := ScheduledScene("A", 0, 10), ScheduledScene("A", 20, 30);
    assert [a, b] == [a] + [b];
    SweepAllSnoc([], a);
    SweepAllSnoc([a], b);
  }
}
