# hue-scheduler in Dafny

hue-scheduler watches a Philips Hue bridge. A light whose power switch is
flipped on becomes *reachable* again. When every light of a scene has just
come back (or is an *attached* light, one whose name ends in `(att)`), the
scene has been triggered, and the scene scheduled for the current time of
day is activated on it. When every light of a group has just gone
unreachable, the group is switched off. A scene carries its schedule in its
name, as a 24-hour label such as `Evening (18h-22:30h)`.

This project models the decision logic of the repository and proves it
correct against its own specification functions:

- `TimeRangeParser` (`time_range_parser.dfy`) is the label parser and the
  range test of `src/time_range_parser.rs`. The regular expression is
  replaced by a recognizer for its one fixed pattern, including the
  leftmost search that `Regex::captures` performs. `src/utils.rs:15-45`
  holds the same logic as free functions without `&self`; its
  `extract_time_range` compiles the pattern with `Regex::new` on every call
  instead of reading a stored field. The results are the same, so these
  members model those functions as well.
- `Schedule` (`schedule.dfy`) covers `src/schedule.rs`:
  - its own copy of the parser, which reads the minutes before the hours,
    proved equal to the shared one;
  - the stable sort by start;
  - `linearize_schedules`, as a method with a stack and a result vector.
    It is proved against a function that mirrors each branch of the two
    loops.
- `Selection` (`selection.dfy`) is the loop that both
  `get_scheduled_scenes` functions share. Scenes are offered one by one
  to a map keyed by the sorted light list. An offer replaces the entry
  unless that entry starts strictly later.
- `Utils` (`utils.dfy`) is `get_scheduled_scenes` of `src/utils.rs`: one
  range per name, inclusive, no wrapping.
- `Controller` (`controller.dfy`) is one pass of the polling loop of
  `src/main.rs`:
  - the changed-light filter, bootstrap and timestamp recording;
  - trigger lights and scene eligibility;
  - the timestamp reset and the group switch-off test;
  - `get_scheduled_scenes` with its first-matching, wrapping range.

  A pass is a function `Step` of the state map and of the snapshots the
  bridge returned. The method `Cycle` threads the map through the source's
  insertion loops and is proved equal to `Step`. The lemmas beside it state
  what a pass does, and one of them states what two consecutive passes do.
- `Text` (`text.dfy`) holds the string helpers the source gets from Rust's
  standard library:
  - `split` with its inverse `Join`;
  - `parse::<u32>` and `ends_with`;
  - lexicographic order;
  - the sort of a light list, proved sorted, a permutation and canonical.

The model follows the code wherever the code's comments, doc examples or
the natural reading of the names suggest something else:

- Ranges are matched inclusively at both ends (`start <= v <= end`), not
  half-open.
- A range whose ends coincide matches every minute, rather than none.
- Minute values go up to 24:59 = 1499, not below 1440.
- A light seen for the first time triggers like a light that came back, as
  soon as the state map is no longer empty. Only the very first pass, while
  the map is empty, records without triggering. `Controller.NewLightTriggers`
  shows this.
- `main.rs` addresses the activation command to the scene id itself. It
  does not use a group id.

## Model

| member | source | states |
|---|---|---|
| Text.ParseU32 | src/time_range_parser.rs:42 | a successful `parse::<u32>` is at most 2^32 - 1 |
| Text.ParseDigits | src/time_range_parser.rs:42-44 | a non-empty digit string within range parses to its decimal value |
| Text.ParseDigitsOverflow | src/time_range_parser.rs:42-44 | a non-empty digit string above 2^32 - 1 is refused |
| Text.ParseU32Syntax | src/time_range_parser.rs:42-44 | whatever parses is at most one `+` followed by at least one ASCII digit, so any other text is refused |
| Text.Split | src/time_range_parser.rs:39 | `split(":")` yields one more piece than there are separators, and no piece contains one |
| Text.JoinSplit | src/time_range_parser.rs:39 | gluing the pieces back with the separator gives the original string |
| Text.SplitJoin | src/time_range_parser.rs:39 | splitting separator-free pieces glued together gives back the pieces |
| Text.EndsWithIffConcat | src/main.rs:281-283 | `ends_with(suffix)` holds iff the string is some prefix followed by the suffix |
| Text.SortStrings | src/utils.rs:67-68 | the sorted light list is sorted and a permutation of the original |
| Text.SortStringsCanonical | src/utils.rs:67-73 | two light lists sort to the same key iff they hold the same ids with the same multiplicities |
| Text.SortedUnique | src/utils.rs:67-68 | two sorted lists with the same elements are equal |
| TimeRangeParser.MatchesTimeRange | src/time_range_parser.rs:23-29 | `start < end` tests `start <= v <= end`, otherwise `v >= start` or `v <= end`; what this means on the clock face is stated by `MatchesIsClockArc` and `MatchesReversed` |
| TimeRangeParser.MatchesIsClockArc | src/time_range_parser.rs:23-29 | on a clock face, a range with distinct ends matches exactly the minutes met walking forward from start to end, ends included; equal ends match every minute |
| TimeRangeParser.MatchesReversed | src/time_range_parser.rs:24-28 | both ends of a range always match, and every other value is matched by exactly one of the range and its reverse |
| TimeRangeParser.MatchesExamples | src/time_range_parser.rs:125-131 | the seven cases of `test_matches_time_range`, including 600 matching (600,1200) and the two wrapping ranges |
| TimeRangeParser.ExtractMinutes | src/time_range_parser.rs:38-57 | `Ok(None)` exactly when there are two or more `:`; every value is at most 24:59 |
| TimeRangeParser.ExtractMinutesHoursMinutes | src/time_range_parser.rs:41-53 | on `H:M` with any non-empty digit groups, including ones too large for `u32`: `H*60+M` when `M <= 59` and `H <= 24`, `Err` otherwise |
| TimeRangeParser.ParseDigitGroup | src/time_range_parser.rs:42-44 | a non-empty digit group parses to its value when it fits in 32 bits and is refused otherwise |
| TimeRangeParser.ExtractMinutesHours | src/time_range_parser.rs:41-53 | on `H` alone, any non-empty digit group: `H*60` when `H <= 24`, `Err` otherwise |
| TimeRangeParser.ExtractMinutesExampleHoursMinutes | src/time_range_parser.rs:34 | `"12:23"` gives 743 |
| TimeRangeParser.ExtractMinutesExampleHours | src/time_range_parser.rs:35 | `"12"` gives 720 |
| TimeRangeParser.ExtractMinutesExampleMidnight | src/time_range_parser.rs:36 | `"0:00"` gives 0 |
| TimeRangeParser.ExtractMinutesOutOfBounds | src/time_range_parser.rs:49-50 | minutes 60 and hours 25 are errors |
| TimeRangeParser.ExtractMinutesUnparsableHours | src/time_range_parser.rs:41-42 | a text without `:` that `parse::<u32>` refuses, an overflowing one included, gives `Err` (the first `?`) |
| TimeRangeParser.ExtractMinutesUnparsablePair | src/time_range_parser.rs:41-48 | `H:M` where `parse::<u32>` refuses either part gives `Err` (either `?`) |
| TimeRangeParser.ExtractMinutesMalformedHours | src/time_range_parser.rs:41-42 | a text without `:` that is empty, has a second sign or holds anything but ASCII digits after at most one `+` gives `Err` |
| TimeRangeParser.ExtractMinutesMalformedPair | src/time_range_parser.rs:41-48 | `H:M` where either part is malformed in that way gives `Err` |
| TimeRangeParser.ExtractMinutesMalformed | src/time_range_parser.rs:41-56 | the two examples `"1a"` gives `Err` and `"1:2:3"` gives `Ok(None)` |
| TimeRangeParser.LiteralShape | src/time_range_parser.rs:10 | a time literal contains none of `h ( ) -`, so the pattern's delimiters split a name unambiguously |
| TimeRangeParser.ExtractMinutesOfLiteral | src/time_range_parser.rs:61-66 | on every literal the pattern can capture, `extract_minutes` yields its value or `Err`, never `Ok(None)` |
| TimeRangeParser.StartLength | src/time_range_parser.rs:10 | the start capture found is a time literal followed by `h-` |
| TimeRangeParser.BodyCaptures | src/time_range_parser.rs:10 | a pattern body found after `(` is `start h- end h)` with two time literals and nothing after it |
| TimeRangeParser.BodyCapturesComplete | src/time_range_parser.rs:10 | every body `a h- b h)` with two literals is recognized, with exactly those captures |
| TimeRangeParser.BodyHasNoParen | src/time_range_parser.rs:10 | a recognized body contains no `(` |
| TimeRangeParser.CapturesFrom | src/time_range_parser.rs:61 | the leftmost-first search: the body at the first `(` at or after `i` where the anchored pattern matches; `CapturesFromSound` and `CapturesSkipTo` state what it finds and skips |
| TimeRangeParser.Captures | src/time_range_parser.rs:61 | `captures` on the whole name; `CapturesSound` and `CapturesOfLabel` state that it finds exactly a trailing `(a h- b h)` label |
| TimeRangeParser.CapturesFromSound | src/time_range_parser.rs:61 | a capture found from index `i` is the body of a match at some index at or after `i` |
| TimeRangeParser.CapturesSkipTo | src/time_range_parser.rs:61 | no match starts before a later `(`, so the leftmost search may skip to it |
| TimeRangeParser.CapturesShift | src/time_range_parser.rs:61 | searching inside the suffix of a name does not depend on the prefix |
| TimeRangeParser.CapturesWithoutParen | src/time_range_parser.rs:61 | without a `(` there is no match |
| TimeRangeParser.ExtractTimeRange | src/time_range_parser.rs:60-67 | both minute values of a recognized label are at most 24:59 |
| TimeRangeParser.ExtractTimeRangeSuffix | src/time_range_parser.rs:10 | only the text from a `(` onwards decides the result, in particular the text from the last `(` to the end |
| TimeRangeParser.CapturesOfLabel | src/time_range_parser.rs:10 | a name ending in `(a h- b h)` has captures `a` and `b`, whatever precedes them |
| TimeRangeParser.ExtractTimeRangeComplete | src/time_range_parser.rs:60-67 | a name ending in a label of two literals yields their values when both are in bounds, and `None` otherwise |
| TimeRangeParser.CapturesSound | src/time_range_parser.rs:61 | a capture pair consists of two literals that end the name as `(a h- b h)` |
| TimeRangeParser.ExtractTimeRangeSound | src/time_range_parser.rs:60-67 | every recognized name ends in such a label, and the result is the values of its literals |
| TimeRangeParser.ExtractTimeRangeOfLabel | src/time_range_parser.rs:60-67 | round trip: any range within bounds, written as a label after any name, reads back as that range |
| TimeRangeParser.ExtractTimeRangeAcceptsHours | src/time_range_parser.rs:78-81 | `"Test (10h-20h)"` gives (600,1200) |
| TimeRangeParser.ExtractTimeRangeAcceptsMinutes | src/time_range_parser.rs:82-85 | `"Test (12:23h-20h)"` gives (743,1200) |
| TimeRangeParser.ExtractTimeRangeAcceptsBothMinutes | src/time_range_parser.rs:86-89 | `"Test (12:23h-20:59h)"` gives (743,1259) |
| TimeRangeParser.ExtractTimeRangeAcceptsMidnight | src/time_range_parser.rs:90-93 | `"Test (0:01h-0:00h)"` gives (1,0) |
| TimeRangeParser.ExtractTimeRangeAcceptsEmptyRange | src/time_range_parser.rs:94-97 | `"Test (0:00h-0:00h)"` gives (0,0) |
| TimeRangeParser.ExtractTimeRangeRejectsShortMinutes | src/time_range_parser.rs:99-102 | single-digit minutes are refused |
| TimeRangeParser.ExtractTimeRangeRejectsBounds | src/time_range_parser.rs:103-110 | minutes 60 and hours 25 are refused |
| TimeRangeParser.ExtractTimeRangeRejectsOpen | src/time_range_parser.rs:111-114 | a label without `)` is refused |
| TimeRangeParser.ExtractTimeRangeRejectsUnopened | src/time_range_parser.rs:115-118 | a label without `(` is refused |
| Schedule.ExtractMinutes | src/schedule.rs:20-39 | reading the minutes before the hours gives the same result as the shared parser on every string |
| Schedule.ExtractTimeRange | src/schedule.rs:41-50 | this file's copy of `extract_time_range` agrees with the shared parser on every name |
| Schedule.ExtractTimeRangeAccepts | src/schedule.rs:130-151 | the five accepted names of this file's test give their ranges |
| Schedule.ExtractTimeRangeRejects | src/schedule.rs:153-158 | the five refused names of this file's test give `None` |
| Schedule.NonOverlappingOrdered | src/schedule.rs:52-53 | a list in which each entry ends before the next starts is sorted, and every entry ends before every later entry starts |
| Schedule.InsertByStart | src/schedule.rs:56 | inserting adds exactly the one entry |
| Schedule.SortByStart | src/schedule.rs:55-56 | the sorted copy is a permutation of the list |
| Schedule.InsertByStartSorted | src/schedule.rs:56 | inserting into a sorted list keeps it sorted |
| Schedule.SortByStartSorted | src/schedule.rs:56 | the copy is sorted by start |
| Schedule.InsertByStartStable | src/schedule.rs:56 | inserting puts the new entry after every entry with the same start |
| Schedule.SortByStartStable | src/schedule.rs:56 | `sort_by` is stable: entries with equal starts keep their order |
| Schedule.SortByStartOfSorted | src/schedule.rs:56 | sorting a sorted list changes nothing |
| Schedule.LinearizeSchedules | src/schedule.rs:54-123 | the method computes `Linearized`; with well-formed input the result is sorted and free of overlaps; every entry takes its id and bounds from the input; it is empty iff the input is, and at most twice as long |
| Schedule.BuildStack | src/schedule.rs:62-93 | the `for` loop over the sorted list leaves exactly the stack and result vector of `SweepAll`, so the loop invariant ties every iteration to `PushStep` |
| Schedule.UnwindStack | src/schedule.rs:96-120 | the `while let` loop leaves exactly `Unwind` of the stack and result vector it starts from |
| Schedule.PushStep | src/schedule.rs:62-93 | one iteration of the `for` loop with its four branches (empty stack, disjoint top, never-active top, merge or split); `PushStepInvariant` states the invariant it keeps |
| Schedule.SweepAll | src/schedule.rs:62-93 | the `for` loop over a whole list; `SweepAllShape`, `SweepAllInvariant` and `SweepAllDrawn` state its result |
| Schedule.PushStepInvariant | src/schedule.rs:62-93 | one iteration of the sweep keeps the stack well formed, the result free of overlaps, and the result ending no later than the top of the stack starts |
| Schedule.SweepAllShape | src/schedule.rs:62-93 | after the sweep the top of the stack is the last entry, and the two vectors together hold at most twice the input |
| Schedule.SweepAllInvariant | src/schedule.rs:62-93 | over sorted, well-formed input the sweep keeps its invariant |
| Schedule.SweepAllDrawn | src/schedule.rs:62-93 | the sweep takes every id and bound from the input |
| Schedule.UnwindStep | src/schedule.rs:96-120 | one iteration of the `while let` loop with its branches (empty result, disjoint, overhanging, enclosed); the three `UnwindStep` lemmas state what it keeps |
| Schedule.Unwind | src/schedule.rs:96-120 | the `while let` loop down to an empty stack; `UnwindNonOverlapping`, `UnwindLength` and `UnwindDrawn` state its result |
| Schedule.UnwindStepNonOverlapping | src/schedule.rs:96-120 | one unwinding step keeps the result free of overlaps |
| Schedule.UnwindStepLength | src/schedule.rs:96-120 | one unwinding step adds at most one entry and leaves the result non-empty |
| Schedule.UnwindStepDrawn | src/schedule.rs:96-120 | one unwinding step takes its id and bounds from the popped entry and the result |
| Schedule.UnwindNonOverlapping | src/schedule.rs:96-120 | the unwinding keeps the result free of overlaps |
| Schedule.UnwindLength | src/schedule.rs:96-120 | the unwinding adds at most one entry per stack entry, and at least one entry for a non-empty stack |
| Schedule.UnwindDrawn | src/schedule.rs:96-120 | the unwinding takes every id and bound from the stack and the result |
| Schedule.Linearized | src/schedule.rs:54-123 | sort, sweep, unwind: the value `linearize_schedules` returns; `LinearizeSchedules` computes it and the `Linearized` lemmas state its properties |
| Schedule.LinearizedNonOverlapping | src/schedule.rs:52-53 | with every input entry well formed, the result is sorted and free of overlaps |
| Schedule.LinearizedDrawn | src/schedule.rs:83-117 | every result entry carries an input id, and its start and end are input bounds |
| Schedule.LinearizedLength | src/schedule.rs:62-120 | the result is empty iff the input is, and at most twice as long |
| Schedule.LinearizedOfDisjoint | src/schedule.rs:162-180 | a list without overlaps comes back unchanged, provided its last two entries are different scenes |
| Schedule.SweepAllOfDisjoint | src/schedule.rs:62-73 | over a list without overlaps, each entry is moved to the result when the next one arrives |
| Schedule.LinearizeNoChange | src/schedule.rs:162-180 | the two cases of `test_linearize_schedules_no_change` |
| Schedule.LinearizeOverlapping | src/schedule.rs:183-195 | `[(1,0,100),(2,25,75)]` becomes `[(1,0,25),(2,25,75),(1,75,100)]` |
| Schedule.LinearizeEnclosed | src/schedule.rs:198-207 | the enclosed case becomes `[(2,0,100)]` |
| Schedule.LinearizeOverflow | src/schedule.rs:210-226 | the overflow case becomes the five entries of the test |
| Schedule.LinearizeLosesCoverage | src/schedule.rs:96-120 | `[(A,0,10),(B,5,8),(C,9,20)]` becomes `[(A,0,5),(B,5,8),(C,9,20)]`, and no entry covers the span from 8 to 9 |
| Schedule.LinearizeMergesAcrossGap | src/schedule.rs:102-104 | `[(A,0,10),(A,20,30)]` becomes `[(A,0,30)]` |
| Selection.Offer | src/utils.rs:75-89 | one iteration of the shared selection loop (also `src/main.rs:249-263`): the entry under the key is replaced unless it starts strictly later; stated over a whole loop by `KeepLatestKeys` and `KeepLatestWinner` |
| Selection.KeepLatest | src/utils.rs:53-90 | the selection loop over all candidates in order; `KeepLatestKeys`, `KeepLatestWinner`, `KeepLatestSize` and `KeepLatestSkip` state its result |
| Selection.KeepLatestKeys | src/utils.rs:82-89 | a light set has an entry iff some offer carries it |
| Selection.KeepLatestWinner | src/utils.rs:76-89 | the entry under a key is an offer with that key with the largest start, and the last such offer on a tie |
| Selection.KeepLatestSize | src/utils.rs:82-89 | there are no more entries than offers |
| Selection.KeepLatestSkip | src/utils.rs:54-65 | a skipped scene changes nothing, wherever it stands |
| Utils.CandidateOf | src/utils.rs:54-73 | a scene's offer: none without a range, out of range or without a light list, else its sorted light list as key; `SkippedSceneChangesNothing` and `SameLightsSameKey` state what it means for the selection |
| Utils.ScheduledScenes | src/utils.rs:48-96 | the map `get_scheduled_scenes` builds; `ScheduledScenesInRange`, `ScheduledScenesProvenance` and `ScheduledScenesLatest` state its entries |
| Utils.GetScheduledScenes | src/utils.rs:47-96 | the loop computes `ScheduledScenes`; every entry holds `now` with `start <= now <= end`; there are no more entries than scenes |
| Utils.ScheduledScenesInRange | src/utils.rs:58-61 | every entry holds `now` inclusively, so a range with `start > end` is never selected |
| Utils.ScheduledScenesProvenance | src/utils.rs:82-88 | every entry comes from a scene with that id whose light list sorts to the key and whose name parses to exactly the entry's range |
| Utils.ScheduledScenesLatest | src/utils.rs:75-89 | a light set has an entry iff some in-range scene with a light list has it; the entry has the largest start of them, the last such scene on a tie |
| Utils.SameLightsSameKey | src/utils.rs:67-73 | two in-range scenes share a key iff their light lists hold the same lights in any order |
| Utils.SkippedSceneChangesNothing | src/utils.rs:54-65 | a scene without a range, out of range or without lights contributes nothing, wherever it stands |
| Utils.CandidatesConcat | src/utils.rs:53 | the offers of a concatenation are the offers of its parts |
| Controller.IsAttachedLight | src/main.rs:281-283 | a light is attached iff its name is some prefix followed by `(att)` |
| Controller.HasChanged | src/main.rs:46-51 | unrecorded, or recorded with the other reachability; `ChangedLights` states the filter it drives |
| Controller.ChangedLights | src/main.rs:43-52 | a light is selected iff it is in the snapshot, not attached, and either unrecorded or recorded with the other reachability |
| Controller.ChangedLightsDistinct | src/main.rs:43-52 | the changed lights keep the snapshot's distinct ids |
| Controller.ChangedLightsConcat | src/main.rs:43-52 | the filter keeps the snapshot's order: the changed lights of `a + b` are those of `a` followed by those of `b` |
| Controller.Recorded | src/main.rs:74-90 | the insertion loop as a fold over the changed lights; `RecordedFrame` and `RecordedValues` state the map it builds |
| Controller.RecordedFrame | src/main.rs:74-90 | recording adds exactly the recorded ids and keeps every other entry |
| Controller.RecordedValues | src/main.rs:83-89 | each recorded light gets the timestamp and its own current reachability |
| Controller.ResetLights | src/main.rs:141-148 | the inner insertion loop over one scene's lights; `ResetLightsSpec` states its result |
| Controller.ResetScenes | src/main.rs:139-151 | the outer loop over the triggered scenes; `ResetScenesSpec` states its result |
| Controller.ResetLightsSpec | src/main.rs:141-148 | the lights of one scene are set to no timestamp and reachable; other entries are kept |
| Controller.ResetScenesSpec | src/main.rs:139-151 | after the reset, every light of a triggered scene has no timestamp and is reachable; every other entry is kept |
| Controller.IsTrigger | src/main.rs:105-111 | reachable with a timestamp less than the window old; `RecordedTriggers` states which lights satisfy it after recording |
| Controller.TriggerIds | src/main.rs:103-113 | the ids of all trigger lights of the map; `RecordedTriggers` states its members after recording |
| Controller.Triggered | src/main.rs:120-130 | a scene with a light list all of whose lights are attached or triggers; `StepTriggered` states it of a whole pass |
| Controller.TriggeredScenes | src/main.rs:117-132 | a scene is selected iff it is in the snapshot, has a light list, and each of its lights is attached or a trigger |
| Controller.TriggeredScenesConcat | src/main.rs:117-132 | the filter keeps the bridge's scene order, on which the tie-break of the selection depends: the triggered scenes of `a + b` are those of `a` followed by those of `b` |
| Controller.SwitchOff | src/main.rs:186-196 | every light of the group is attached, or changed in this pass and is recorded unreachable; `GroupsToSwitchOff` and `StepSwitchedOff` state the list it selects |
| Controller.GroupsToSwitchOff | src/main.rs:183-198 | a group id is listed iff a group with that id has every light attached, or changed in this pass and recorded unreachable |
| Controller.FirstMatching | src/main.rs:230-235 | `None` iff no range holds `now`; otherwise a range of the scene that holds `now`, with wrapping |
| Controller.FirstMatchingIsFirst | src/main.rs:230-232 | the range found is the first one that holds `now` |
| Controller.CandidateOf | src/main.rs:228-263 | a scene's offer: none without a matching range or a light list, else its first matching range under its sorted light list; `ScheduledScenesProvenance` states what an entry inherits from it |
| Controller.ScheduledScenes | src/main.rs:222-270 | the map `get_scheduled_scenes` builds; `ScheduledScenesProvenance`, `ScheduledScenesLatest` and `GetScheduledScenes` state its entries |
| Controller.GetScheduledScenes | src/main.rs:217-270 | the loop computes `ScheduledScenes`; every entry's range holds the minute of the day; there are no more entries than scenes |
| Controller.ScheduledScenesProvenance | src/main.rs:256-263 | every entry comes from a scene with that id whose light list sorts to the key and whose first matching range is the entry's range |
| Controller.ScheduledScenesLatest | src/main.rs:249-263 | a light set has an entry iff some scene offers it; the entry has the largest start of those offers, the last such scene on a tie |
| Controller.Record | src/main.rs:74-90 | the insertion loop over the changed lights computes `Recorded` |
| Controller.Reset | src/main.rs:139-151 | the nested insertion loop computes `ResetScenes` |
| Controller.SwitchOffGroups | src/main.rs:183-198 | the loop over the groups computes `GroupsToSwitchOff` |
| Controller.Step | src/main.rs:37-212 | one pass as a function, with every early exit; `Cycle` computes it and the `Step` lemmas below state what a pass does |
| Controller.Cycle | src/main.rs:37-212 | one pass of the loop body, threading the state map, computes `Step`, including every early exit on a failed snapshot |
| Controller.StepQuiet | src/main.rs:37-56 | without a light snapshot, or when no light changed, the state map is untouched and nothing is triggered, activated or switched off |
| Controller.NoChangedLights | src/main.rs:43-56 | when no light qualifies as changed, the changed list is empty |
| Controller.StepBootstrap | src/main.rs:58-71 | on an empty map, every non-attached light is recorded with no timestamp and its reachability, and the pass ends before any scene is considered |
| Controller.StepStates | src/main.rs:73-151 | the new state of any light after a later pass: reset if a triggered scene holds it, otherwise stamped with `now` and its reachability if it changed, otherwise as before |
| Controller.DistinctIdsSame | src/main.rs:43-52 | within a snapshot with distinct ids, one id names one light |
| Controller.RecordedTriggers | src/main.rs:103-113 | after recording, a light is a trigger iff it just became reachable and the window is positive, or it did not change and was already a trigger |
| Controller.StepTriggered | src/main.rs:103-132 | after a pass in which some light changed, a scene is triggered iff it has a light list and each of its lights is attached or a trigger, judged on the map before the pass |
| Controller.SwitchedOnSceneTriggers | src/main.rs:115-151 | a scene all of whose lights are attached or just became reachable is triggered, and its lights are reset |
| Controller.NoRetrigger | src/main.rs:139-151 | a light reset by a triggered scene that stays reachable, and is not attached, makes no scene holding it trigger in the next pass |
| Controller.StepSwitchedOff | src/main.rs:183-198 | with a group snapshot, a group is switched off iff every light of it is attached or just became unreachable |
| Controller.ScheduledWereTriggered | src/main.rs:165-166 | only triggered scenes are activated, each under its sorted light list, with its first range that holds the minute of the day |
| Controller.NewLightTriggers | src/main.rs:46-51 | a light first seen while the map is non-empty counts as just switched on and triggers its scene |

## Left out

- `src/config.rs`: loading the configuration from the environment and from files. The reachability window, the time zone and the coordinates appear only through the inputs of a pass.
- Bridge transport: `get_all_lights`, `get_all_scenes`, `get_all_groups` and `set_group_state`. A snapshot is an input and `None` stands for a failed fetch. The activation and switch-off commands are the `scheduled` and `switchedOff` parts of the outcome, and a failed command changes nothing.
- The `loop` with its `sleep`, and all logging.
- Clocks and astronomy:
  - `Instant::now` and `elapsed` become the integer `now` and the `window`;
  - the minute of the day in the home time zone is an input;
  - `get_sunrise_sunset` is reduced to whether it succeeded.
- Controller.Record: every light of one pass is stamped with the same `now`, where the source reads the clock once per light.
- `define_variables` and `extract_time_ranges`: `src/main.rs` calls them on its `TimeRangeParser`, but `src/time_range_parser.rs`, which this model covers, defines neither. A scene of the controller therefore carries its list of ranges directly, and the sunrise and sunset variables are not modelled.
- `DefaultHasher`: selection is keyed by the sorted light list itself, so hash collisions are not modelled.
- The order of the `HashMap` values that `get_scheduled_scenes` returns is unspecified. The result is the map itself.
- `u32` arithmetic: every value the parser can produce is at most 24:59, so nothing overflows. `parse::<u32>` is modelled with its upper bound.
- The regular expression engine: the recognizer accepts ASCII digits only. Rust's `\d` also matches other decimal digits, but those fail `parse::<u32>`, so the results agree.
- Schedule.SortByStart: the in-place `sort_by` of the cloned vector is modelled as a function on the sequence.
- Schedule.LinearizedOfDisjoint: a list whose last two entries belong to the same scene is merged by the unwinding, so the lemma requires them to differ.
- Controller.StepStates, Controller.StepTriggered, Controller.StepSwitchedOff and Controller.StepBootstrap assume a light snapshot with distinct ids, as the bridge keys lights by id.
- `linearize_schedules` coverage: the result does not cover every minute the input covers (Schedule.LinearizeLosesCoverage), and entries of one scene merge across a gap (Schedule.LinearizeMergesAcrossGap). No coverage property is stated.
