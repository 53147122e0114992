/** `utils.rs`: the scenes active at a given minute of the day, one per
    light set. Its free functions `extract_minutes` and `extract_time_range`
    follow the same logic as the methods of `time_range_parser.rs` (the
    pattern is compiled on each call rather than stored) and are modelled
    by `TimeRangeParser.ExtractMinutes` and `TimeRangeParser.ExtractTimeRange`. */
module Utils {
  import opened Text
  import opened Selection
  import Schedule
  import TimeRangeParser

  /** The part of a bridge scene the selection reads. */
  datatype Scene = Scene(id: string, name: string, lights: Option<seq<string>>)

  /** What one iteration of the loop offers to the map: nothing for a name
      without a range, a range that does not hold `now` (no wrapping here)
      or a scene without a light list. */
  function CandidateOf(scene: Scene, now: nat): Option<Candidate> {
    match TimeRangeParser.ExtractTimeRange(scene.name)
    case None => None
    case Some((start, end)) =>
      if now < start || now > end then None
      else
        match scene.lights
        case None => None
        case Some(lights) => Some(Candidate(SortStrings(lights), Schedule.ScheduledScene(scene.id, start, end)))
  }

  /** `CandidateOf` at a fixed minute, to map over the scene list. */
  function CandidateFor(now: nat): Scene -> Option<Candidate> {
    scene => CandidateOf(scene, now)
  }

  /** The offers of the loop, scene by scene. */
  function Candidates(scenes: seq<Scene>, now: nat): seq<Option<Candidate>> {
    MapSeq(scenes, CandidateFor(now))
  }

  /** The map `get_scheduled_scenes` builds; it returns the values. */
  function ScheduledScenes(scenes: seq<Scene>, now: nat): Selected {
    KeepLatest(Candidates(scenes, now))
  }

  /** `get_scheduled_scenes`, with the minute of the day as a parameter. */
  method GetScheduledScenes(scenes: seq<Scene>, now: nat) returns (scheduled: Selected)
    ensures scheduled == ScheduledScenes(scenes, now)
    ensures forall k :: k in scheduled ==> scheduled[k].start <= now <= scheduled[k].end
    ensures |scheduled| <= |scenes|
  {
    scheduled := map[];
    for i := 0 to |scenes|
      invariant scheduled == ScheduledScenes(scenes[..i], now)
    {
      var scene := scenes[i];
      CandidatesConcat(scenes[..i], [scene], now);
      assert scenes[..i + 1] == scenes[..i] + [scene];
      var range := TimeRangeParser.ExtractTimeRange(scene.name);
      if range.None? {
        continue;
      }
      var (start, end) := range.value;
      if now < start || now > end {
        continue;
      }
      if scene.lights.None? {
        continue;
      }
      var key := SortStrings(scene.lights.value);
      if key in scheduled && scheduled[key].start > start {
        continue;
      }
      scheduled := scheduled[key := Schedule.ScheduledScene(scene.id, start, end)];
    }
    assert scenes[..|scenes|] == scenes;
    ScheduledScenesInRange(scenes, now);
    KeepLatestSize(Candidates(scenes, now));
  }

  /** Every entry holds `now` inclusively; a range with `start > end` is
      never selected. */
  lemma ScheduledScenesInRange(scenes: seq<Scene>, now: nat)
    ensures forall k :: k in ScheduledScenes(scenes, now) ==>
      ScheduledScenes(scenes, now)[k].start <= now <= ScheduledScenes(scenes, now)[k].end
  {
    forall k | k in ScheduledScenes(scenes, now)
      ensures ScheduledScenes(scenes, now)[k].start <= now <= ScheduledScenes(scenes, now)[k].end
    {
      KeepLatestWinner(Candidates(scenes, now), k);
    }
  }

  /** Every entry comes from a scene with a light list sorting to its key,
      whose name parses to exactly the entry's range. */
  lemma ScheduledScenesProvenance(scenes: seq<Scene>, now: nat, k: seq<string>)
    requires k in ScheduledScenes(scenes, now)
    ensures exists i ::
      && 0 <= i < |scenes|
      && scenes[i].id == ScheduledScenes(scenes, now)[k].sceneId
      && scenes[i].lights.Some? && SortStrings(scenes[i].lights.value) == k
      && TimeRangeParser.ExtractTimeRange(scenes[i].name)
         == Some((ScheduledScenes(scenes, now)[k].start, ScheduledScenes(scenes, now)[k].end))
  {
    KeepLatestWinner(Candidates(scenes, now), k);
  }

  /** A light set has an entry iff some scene with that light set is in
      range; the entry is one with the largest start, the last such scene
      on a tie. */
  lemma ScheduledScenesLatest(scenes: seq<Scene>, now: nat, k: seq<string>)
    ensures k in ScheduledScenes(scenes, now) <==>
      exists i :: 0 <= i < |scenes| && HasKey(CandidateOf(scenes[i], now), k)
    ensures k in ScheduledScenes(scenes, now) ==>
      && (forall j :: 0 <= j < |scenes| && HasKey(CandidateOf(scenes[j], now), k) ==>
            CandidateOf(scenes[j], now).value.entry.start <= ScheduledScenes(scenes, now)[k].start)
      && exists w ::
           && 0 <= w < |scenes|
           && CandidateOf(scenes[w], now) == Some(Candidate(k, ScheduledScenes(scenes, now)[k]))
           && forall j :: w < j < |scenes| && HasKey(CandidateOf(scenes[j], now), k) ==>
                CandidateOf(scenes[j], now).value.entry.start < ScheduledScenes(scenes, now)[k].start
  {
    var c := Candidates(scenes, now);
    KeepLatestKeys(c, k);
    if k in ScheduledScenes(scenes, now) {
      KeepLatestWinner(c, k);
    }
  }

  /** Two scenes in range share an entry's key iff their light lists hold
      the same lights, in whatever order. */
  lemma SameLightsSameKey(a: Scene, b: Scene, now: nat)
    requires CandidateOf(a, now).Some? && CandidateOf(b, now).Some?
    ensures CandidateOf(a, now).value.key == CandidateOf(b, now).value.key
      <==> multiset(a.lights.value) == multiset(b.lights.value)
  {
    SortStringsCanonical(a.lights.value, b.lights.value);
  }

  /** A scene without a range, out of range or without lights contributes
      nothing, wherever it stands in the list. */
  lemma SkippedSceneChangesNothing(before: seq<Scene>, scene: Scene, after: seq<Scene>, now: nat)
    requires CandidateOf(scene, now).None?
    ensures ScheduledScenes(before + [scene] + after, now) == ScheduledScenes(before + after, now)
  {
    CandidatesConcat(before + [scene], after, now);
    CandidatesConcat(before, [scene], now);
    assert Candidates([scene], now) == [None];
    CandidatesConcat(before, after, now);
    KeepLatestSkip(Candidates(before, now), Candidates(after, now));
  }

  lemma CandidatesConcat(a: seq<Scene>, b: seq<Scene>, now: nat)
    ensures Candidates(a + b, now) == Candidates(a, now) + Candidates(b, now)
  {
    MapSeqConcat(a, b, CandidateFor(now));
  }
}
