/** One pass of the polling loop of `main.rs`: which lights changed
    reachability, the map of recorded light states, which scenes a
    power-switch flip triggers, which of them are scheduled now, and which
    groups are switched off. The bridge, the clock and the sun are inputs:
    a snapshot that could not be fetched is `None`. */
module Controller {
  import opened Text
  import opened Selection
  import opened TimeRangeParser
  import Schedule

  datatype Light = Light(id: string, name: string, reachable: bool)

  /** When (on the monotonic clock) a light last changed, and to what. */
  datatype StateChange = StateChange(timestamp: Option<int>, reachable: bool)

  type LightStates = map<string, StateChange>

  /** A bridge scene, with the time ranges its name denotes; the parser
      producing them is not part of this model. */
  datatype Scene = Scene(id: string, lights: Option<seq<string>>, ranges: seq<TimeRange>)

  datatype Group = Group(id: string, lights: seq<string>)

  /** What one pass reads: the three bridge snapshots, whether sunrise and
      sunset could be computed, the monotonic clock `now`, the reachability
      window, and the minute of the day in the home time zone. */
  datatype Inputs = Inputs(
    lights: Option<seq<Light>>,
    scenes: Option<seq<Scene>>,
    sunKnown: bool,
    groups: Option<seq<Group>>,
    now: int,
    window: int,
    minuteOfDay: nat)

  /** What one pass leaves behind: the new state map, the scenes whose
      lights were all triggered, the scheduled scenes it activates (keyed by
      light set) and the ids of the groups it switches off, in order. */
  datatype Outcome = Outcome(
    states: LightStates,
    triggered: seq<Scene>,
    scheduled: Selected,
    switchedOff: seq<string>)

  // ---- lights ----

  /** `is_attached_light`: the name ends with `(att)`. */
  function IsAttachedLight(light: Light): (r: bool)
    ensures r <==> exists prefix :: light.name == prefix + "(att)"
  {
    EndsWithIffConcat(light.name, "(att)");
    EndsWith(light.name, "(att)")
  }

  /** Not attached, and never recorded or recorded with the other
      reachability. */
  predicate HasChanged(light: Light, states: LightStates) {
    !IsAttachedLight(light) && (light.id in states ==> states[light.id].reachable != light.reachable)
  }

  /** `changed_lights`: the lights that changed, in bridge order. */
  function ChangedLights(lights: seq<Light>, states: LightStates): (r: seq<Light>)
    ensures forall l :: l in r <==> l in lights && HasChanged(l, states)
    ensures |r| <= |lights|
  {
    if lights == [] then []
    else
      var init := lights[..|lights| - 1];
      var last := lights[|lights| - 1];
      assert lights == init + [last];
      ChangedLights(init, states) + (if HasChanged(last, states) then [last] else [])
  }

  /** The filter keeps the snapshot's order: it distributes over
      concatenation, so the changed lights of `a + b` are those of `a`
      followed by those of `b`. */
  lemma {:induction false} ChangedLightsConcat(a: seq<Light>, b: seq<Light>, states: LightStates)
    ensures ChangedLights(a + b, states) == ChangedLights(a, states) + ChangedLights(b, states)
    decreases |b|
  {
    if b == [] {
      assert a + b == a;
    } else {
      var init := b[..|b| - 1];
      var last := b[|b| - 1];
      assert (a + b)[..|a + b| - 1] == a + init;
      assert (a + b)[|a + b| - 1] == last;
      ChangedLightsConcat(a, init, states);
    }
  }

  predicate DistinctIds(lights: seq<Light>) {
    forall i, j :: 0 <= i < j < |lights| ==> lights[i].id != lights[j].id
  }

  lemma {:induction false} ChangedLightsDistinct(lights: seq<Light>, states: LightStates)
    requires DistinctIds(lights)
    ensures DistinctIds(ChangedLights(lights, states))
  {
    if lights != [] {
      var init := lights[..|lights| - 1];
      var last := lights[|lights| - 1];
      ChangedLightsDistinct(init, states);
      var r := ChangedLights(init, states);
      forall l | l in r ensures l.id != last.id {
        var k :| 0 <= k < |init| && init[k] == l;
        assert lights[k] == l;
      }
      var full := r + (if HasChanged(last, states) then [last] else []);
      forall i, j | 0 <= i < j < |full| ensures full[i].id != full[j].id {
        if j == |r| {
          assert full[i] in r;
        }
      }
    }
  }

  function LightIds(lights: seq<Light>): set<string> {
    set l | l in lights :: l.id
  }

  /** `ignored_light_ids`: the ids of the attached lights. */
  function AttachedIds(lights: seq<Light>): set<string> {
    set l | l in lights && IsAttachedLight(l) :: l.id
  }

  // ---- the state map ----

  /** The `insert` loop over `changed_lights`, all with timestamp `ts`. */
  function Recorded(states: LightStates, lights: seq<Light>, ts: Option<int>): LightStates {
    if lights == [] then states
    else
      var last := lights[|lights| - 1];
      Recorded(states, lights[..|lights| - 1], ts)[last.id := StateChange(ts, last.reachable)]
  }

  /** Recording adds exactly the recorded ids and keeps every other
      entry. */
  lemma {:induction false} RecordedFrame(states: LightStates, lights: seq<Light>, ts: Option<int>)
    ensures forall id :: id in Recorded(states, lights, ts) <==> id in states || id in LightIds(lights)
    ensures forall id :: id in states && id !in LightIds(lights) ==>
      Recorded(states, lights, ts)[id] == states[id]
  {
    if lights != [] {
      var init := lights[..|lights| - 1];
      var last := lights[|lights| - 1];
      RecordedFrame(states, init, ts);
      assert lights == init + [last];
      assert LightIds(lights) == LightIds(init) + {last.id};
    }
  }

  /** With one entry per id, each recorded light gets the timestamp and
      its own reachability. */
  lemma {:induction false} RecordedValues(states: LightStates, lights: seq<Light>, ts: Option<int>)
    requires DistinctIds(lights)
    ensures forall i :: 0 <= i < |lights| ==>
      && lights[i].id in Recorded(states, lights, ts)
      && Recorded(states, lights, ts)[lights[i].id] == StateChange(ts, lights[i].reachable)
  {
    if lights != [] {
      var init := lights[..|lights| - 1];
      var last := lights[|lights| - 1];
      RecordedValues(states, init, ts);
      forall i | 0 <= i < |init| ensures init[i].id != last.id {
        assert lights[i] == init[i];
      }
      assert forall i :: 0 <= i < |init| ==> lights[i] == init[i];
    }
  }

  /** The inner `insert` loop over one scene's lights. */
  function ResetLights(states: LightStates, ids: seq<string>): LightStates {
    if ids == [] then states
    else ResetLights(states, ids[..|ids| - 1])[ids[|ids| - 1] := StateChange(None, true)]
  }

  /** The outer loop over the triggered scenes. */
  function ResetScenes(states: LightStates, scenes: seq<Scene>): LightStates {
    if scenes == [] then states
    else
      var m := ResetScenes(states, scenes[..|scenes| - 1]);
      match scenes[|scenes| - 1].lights
      case None => m
      case Some(ids) => ResetLights(m, ids)
  }

  predicate InSomeScene(scenes: seq<Scene>, id: string) {
    exists i :: 0 <= i < |scenes| && scenes[i].lights.Some? && id in scenes[i].lights.value
  }

  lemma {:induction false} ResetLightsSpec(states: LightStates, ids: seq<string>, id: string)
    ensures id in ids ==> id in ResetLights(states, ids) && ResetLights(states, ids)[id] == StateChange(None, true)
    ensures id !in ids ==> (id in ResetLights(states, ids) <==> id in states)
    ensures id !in ids && id in states ==> ResetLights(states, ids)[id] == states[id]
  {
    if ids != [] {
      var init := ids[..|ids| - 1];
      ResetLightsSpec(states, init, id);
      assert ids == init + [ids[|ids| - 1]];
    }
  }

  /** After the reset every light of a triggered scene is recorded
      reachable without a timestamp; every other entry is kept. */
  lemma {:induction false} ResetScenesSpec(states: LightStates, scenes: seq<Scene>, id: string)
    ensures InSomeScene(scenes, id) ==>
      id in ResetScenes(states, scenes) && ResetScenes(states, scenes)[id] == StateChange(None, true)
    ensures !InSomeScene(scenes, id) ==> (id in ResetScenes(states, scenes) <==> id in states)
    ensures !InSomeScene(scenes, id) && id in states ==> ResetScenes(states, scenes)[id] == states[id]
  {
    if scenes != [] {
      var init := scenes[..|scenes| - 1];
      var last := scenes[|scenes| - 1];
      ResetScenesSpec(states, init, id);
      var m := ResetScenes(states, init);
      if last.lights.Some? {
        ResetLightsSpec(m, last.lights.value, id);
      }
      if InSomeScene(init, id) {
        var i :| 0 <= i < |init| && init[i].lights.Some? && id in init[i].lights.value;
        assert scenes[i] == init[i];
      }
      if InSomeScene(scenes, id) && !(last.lights.Some? && id in last.lights.value) {
        var i :| 0 <= i < |scenes| && scenes[i].lights.Some? && id in scenes[i].lights.value;
        assert i < |init| && init[i] == scenes[i];
      }
    }
  }

  // ---- triggers and scenes ----

  /** Reachable, with a timestamp younger than the window. */
  predicate IsTrigger(state: StateChange, now: int, window: int) {
    state.reachable && state.timestamp.Some? && now - state.timestamp.value < window
  }

  /** `light_trigger_ids`. */
  function TriggerIds(states: LightStates, now: int, window: int): set<string> {
    set id | id in states && IsTrigger(states[id], now, window)
  }

  /** A scene with a light list all of whose lights are attached or
      triggers; an empty list qualifies. */
  predicate Triggered(scene: Scene, attached: set<string>, triggers: set<string>) {
    scene.lights.Some? && forall id :: id in scene.lights.value ==> id in attached || id in triggers
  }

  /** `changed_scenes`: the triggered scenes, in bridge order. */
  function TriggeredScenes(scenes: seq<Scene>, attached: set<string>, triggers: set<string>): (r: seq<Scene>)
    ensures forall s :: s in r <==> s in scenes && Triggered(s, attached, triggers)
  {
    if scenes == [] then []
    else
      var init := scenes[..|scenes| - 1];
      var last := scenes[|scenes| - 1];
      assert scenes == init + [last];
      TriggeredScenes(init, attached, triggers) + (if Triggered(last, attached, triggers) then [last] else [])
  }

  // ---- groups ----

  /** `all_non_attached_turned_off`: every light of the group is attached,
      or changed in this pass and is recorded unreachable. */
  /** The filter keeps the bridge's scene order (on which the tie-break of
      the scheduled selection depends): it distributes over concatenation. */
  lemma {:induction false} TriggeredScenesConcat(a: seq<Scene>, b: seq<Scene>, attached: set<string>, triggers: set<string>)
    ensures TriggeredScenes(a + b, attached, triggers)
      == TriggeredScenes(a, attached, triggers) + TriggeredScenes(b, attached, triggers)
    decreases |b|
  {
    if b == [] {
      assert a + b == a;
    } else {
      var init := b[..|b| - 1];
      var last := b[|b| - 1];
      assert (a + b)[..|a + b| - 1] == a + init;
      assert (a + b)[|a + b| - 1] == last;
      TriggeredScenesConcat(a, init, attached, triggers);
    }
  }

  predicate SwitchOff(group: Group, attached: set<string>, changed: set<string>, states: LightStates) {
    forall id :: id in group.lights ==>
      id in attached || (id in changed && id in states && !states[id].reachable)
  }

  /** The ids of the groups switched off, in bridge order. */
  function GroupsToSwitchOff(groups: seq<Group>, attached: set<string>, changed: set<string>, states: LightStates): (r: seq<string>)
    ensures forall id :: id in r <==> exists g :: g in groups && g.id == id && SwitchOff(g, attached, changed, states)
  {
    if groups == [] then []
    else
      var init := groups[..|groups| - 1];
      var last := groups[|groups| - 1];
      assert groups == init + [last];
      GroupsToSwitchOff(init, attached, changed, states)
        + (if SwitchOff(last, attached, changed, states) then [last.id] else [])
  }

  // ---- get_scheduled_scenes of main.rs ----

  /** `time_ranges.iter().find(..)`: the first range holding `now`, with
      wrapping past midnight. */
  function FirstMatching(ranges: seq<TimeRange>, now: nat): (r: Option<TimeRange>)
    ensures r.None? <==> forall i :: 0 <= i < |ranges| ==> !MatchesTimeRange(ranges[i], now)
    ensures r.Some? ==> r.value in ranges && MatchesTimeRange(r.value, now)
  {
    if ranges == [] then None
    else if MatchesTimeRange(ranges[0], now) then Some(ranges[0])
    else
      var r := FirstMatching(ranges[1..], now);
      assert forall i :: 1 <= i < |ranges| ==> ranges[i] == ranges[1..][i - 1];
      r
  }

  /** It is the first one. */
  lemma {:induction false} FirstMatchingIsFirst(ranges: seq<TimeRange>, now: nat, i: nat)
    requires i < |ranges| && MatchesTimeRange(ranges[i], now)
    requires forall j :: 0 <= j < i ==> !MatchesTimeRange(ranges[j], now)
    ensures FirstMatching(ranges, now) == Some(ranges[i])
  {
    if i > 0 {
      FirstMatchingIsFirst(ranges[1..], now, i - 1);
    }
  }

  function CandidateOf(scene: Scene, now: nat): Option<Candidate> {
    match FirstMatching(scene.ranges, now)
    case None => None
    case Some((start, end)) =>
      match scene.lights
      case None => None
      case Some(lights) => Some(Candidate(SortStrings(lights), Schedule.ScheduledScene(scene.id, start, end)))
  }

  function CandidateFor(now: nat): Scene -> Option<Candidate> {
    scene => CandidateOf(scene, now)
  }

  function ScheduledScenes(scenes: seq<Scene>, now: nat): Selected {
    KeepLatest(MapSeq(scenes, CandidateFor(now)))
  }

  /** `get_scheduled_scenes` of `main.rs`, the minute of the day given. */
  method GetScheduledScenes(scenes: seq<Scene>, now: nat) returns (scheduled: Selected)
    ensures scheduled == ScheduledScenes(scenes, now)
    ensures forall k :: k in scheduled ==> MatchesTimeRange((scheduled[k].start, scheduled[k].end), now)
    ensures |scheduled| <= |scenes|
  {
    scheduled := map[];
    for i := 0 to |scenes|
      invariant scheduled == ScheduledScenes(scenes[..i], now)
    {
      var scene := scenes[i];
      MapSeqConcat(scenes[..i], [scene], CandidateFor(now));
      assert scenes[..i + 1] == scenes[..i] + [scene];
      var range := FirstMatching(scene.ranges, now);
      if range.None? {
        continue;
      }
      var (start, end) := range.value;
      if scene.lights.None? {
        continue;
      }
      var key := SortStrings(scene.lights.value);
      if key in scheduled && scheduled[key].start > start {
        continue;
      }
      scheduled := scheduled[key := Schedule.ScheduledScene(scene.id, start, end)];
    }
    assert scenes[..|scenes|] == scenes;
    forall k | k in scheduled ensures MatchesTimeRange((scheduled[k].start, scheduled[k].end), now) {
      ScheduledScenesProvenance(scenes, now, k);
    }
    KeepLatestSize(MapSeq(scenes, CandidateFor(now)));
  }

  /** Every entry comes from a scene with a light list sorting to its key,
      and its range is the first of that scene's ranges holding `now`. */
  lemma ScheduledScenesProvenance(scenes: seq<Scene>, now: nat, k: seq<string>)
    requires k in ScheduledScenes(scenes, now)
    ensures exists i ::
      && 0 <= i < |scenes|
      && scenes[i].id == ScheduledScenes(scenes, now)[k].sceneId
      && scenes[i].lights.Some? && SortStrings(scenes[i].lights.value) == k
      && FirstMatching(scenes[i].ranges, now)
         == Some((ScheduledScenes(scenes, now)[k].start, ScheduledScenes(scenes, now)[k].end))
  {
    KeepLatestWinner(MapSeq(scenes, CandidateFor(now)), k);
  }

  // ---- one pass ----

  /** The pass as a function of the state map and the inputs. */
  function Step(states: LightStates, inp: Inputs): Outcome {
    if inp.lights.None? then Outcome(states, [], map[], [])
    else
      var lights := inp.lights.value;
      var changed := ChangedLights(lights, states);
      if changed == [] then Outcome(states, [], map[], [])
      else if states == map[] then Outcome(Recorded(states, changed, None), [], map[], [])
      else
        var recorded := Recorded(states, changed, Some(inp.now));
        var attached := AttachedIds(lights);
        var triggers := TriggerIds(recorded, inp.now, inp.window);
        if inp.scenes.None? then Outcome(recorded, [], map[], [])
        else
          var triggered := TriggeredScenes(inp.scenes.value, attached, triggers);
          var reset := ResetScenes(recorded, triggered);
          if !inp.sunKnown then Outcome(reset, triggered, map[], [])
          else
            var scheduled := ScheduledScenes(triggered, inp.minuteOfDay);
            if inp.groups.None? then Outcome(reset, triggered, scheduled, [])
            else Outcome(reset, triggered, scheduled,
                         GroupsToSwitchOff(inp.groups.value, attached, LightIds(changed), reset))
  }

  /** The `insert` loop over the changed lights. */
  method Record(states: LightStates, changed: seq<Light>, ts: Option<int>) returns (lightStates: LightStates)
    ensures lightStates == Recorded(states, changed, ts)
  {
    lightStates := states;
    for i := 0 to |changed|
      invariant lightStates == Recorded(states, changed[..i], ts)
    {
      assert changed[..i + 1][..i] == changed[..i];
      lightStates := lightStates[changed[i].id := StateChange(ts, changed[i].reachable)];
    }
    assert changed[..|changed|] == changed;
  }

  /** The nested `insert` loop over the lights of the triggered scenes. */
  method Reset(states: LightStates, triggered: seq<Scene>) returns (lightStates: LightStates)
    ensures lightStates == ResetScenes(states, triggered)
  {
    lightStates := states;
    for i := 0 to |triggered|
      invariant lightStates == ResetScenes(states, triggered[..i])
    {
      assert triggered[..i + 1][..i] == triggered[..i];
      if triggered[i].lights.Some? {
        var ids := triggered[i].lights.value;
        ghost var before := lightStates;
        for j := 0 to |ids|
          invariant lightStates == ResetLights(before, ids[..j])
        {
          assert ids[..j + 1][..j] == ids[..j];
          lightStates := lightStates[ids[j] := StateChange(None, true)];
        }
        assert ids[..|ids|] == ids;
      }
    }
    assert triggered[..|triggered|] == triggered;
  }

  /** The loop over the groups. */
  method SwitchOffGroups(groups: seq<Group>, attached: set<string>, changed: set<string>, states: LightStates)
    returns (off: seq<string>)
    ensures off == GroupsToSwitchOff(groups, attached, changed, states)
  {
    off := [];
    for i := 0 to |groups|
      invariant off == GroupsToSwitchOff(groups[..i], attached, changed, states)
    {
      assert groups[..i + 1][..i] == groups[..i];
      if SwitchOff(groups[i], attached, changed, states) {
        off := off + [groups[i].id];
      }
    }
    assert groups[..|groups|] == groups;
  }

  /** The body of the `loop` in `main`: the state map is threaded through. */
  method Cycle(states: LightStates, inp: Inputs) returns (out: Outcome)
    ensures out == Step(states, inp)
  {
    if inp.lights.None? {
      return Outcome(states, [], map[], []);
    }
    var lights := inp.lights.value;
    var changed := ChangedLights(lights, states);
    if changed == [] {
      return Outcome(states, [], map[], []);
    }
    if states == map[] {
      var initial := Record(states, changed, None);
      return Outcome(initial, [], map[], []);
    }
    var lightStates := Record(states, changed, Some(inp.now));
    var ignored := AttachedIds(lights);
    var triggers := TriggerIds(lightStates, inp.now, inp.window);
    if inp.scenes.None? {
      return Outcome(lightStates, [], map[], []);
    }
    var triggered := TriggeredScenes(inp.scenes.value, ignored, triggers);
    lightStates := Reset(lightStates, triggered);
    if !inp.sunKnown {
      return Outcome(lightStates, triggered, map[], []);
    }
    var scheduled := GetScheduledScenes(triggered, inp.minuteOfDay);
    if inp.groups.None? {
      return Outcome(lightStates, triggered, scheduled, []);
    }
    var off := SwitchOffGroups(inp.groups.value, ignored, LightIds(changed), lightStates);
    return Outcome(lightStates, triggered, scheduled, off);
  }

  // ---- properties of a pass ----

  /** Without a light snapshot, or when no light changed, nothing happens. */
  lemma StepQuiet(states: LightStates, inp: Inputs)
    requires inp.lights.None? || forall l :: l in inp.lights.value ==> !HasChanged(l, states)
    ensures Step(states, inp) == Outcome(states, [], map[], [])
  {
    if inp.lights.Some? {
      NoChangedLights(inp.lights.value, states);
    }
  }

  lemma {:induction false} NoChangedLights(lights: seq<Light>, states: LightStates)
    requires forall l :: l in lights ==> !HasChanged(l, states)
    ensures ChangedLights(lights, states) == []
  {
    if lights != [] {
      var init := lights[..|lights| - 1];
      assert forall l :: l in init ==> l in lights;
      NoChangedLights(init, states);
    }
  }

  /** The first pass that sees lights records every non-attached one
      without a timestamp and does nothing else. */
  lemma StepBootstrap(inp: Inputs)
    requires inp.lights.Some? && DistinctIds(inp.lights.value)
    ensures Step(map[], inp).triggered == [] && Step(map[], inp).scheduled == map[]
    ensures Step(map[], inp).switchedOff == []
    ensures forall id :: id in Step(map[], inp).states <==>
      exists l :: l in inp.lights.value && !IsAttachedLight(l) && l.id == id
    ensures forall l :: l in inp.lights.value && !IsAttachedLight(l) ==>
      Step(map[], inp).states[l.id] == StateChange(None, l.reachable)
  {
    var lights := inp.lights.value;
    var changed := ChangedLights(lights, map[]);
    ChangedLightsDistinct(lights, map[]);
    RecordedFrame(map[], changed, None);
    RecordedValues(map[], changed, None);
    forall l | l in lights && !IsAttachedLight(l)
      ensures l.id in Step(map[], inp).states && Step(map[], inp).states[l.id] == StateChange(None, l.reachable)
    {
      assert l in changed;
      var i :| 0 <= i < |changed| && changed[i] == l;
    }
  }

  /** The new state of every light in a later pass: reset if it belongs to
      a triggered scene, otherwise stamped with `now` if it changed,
      otherwise as before. */
  lemma StepStates(states: LightStates, inp: Inputs, id: string)
    requires inp.lights.Some? && DistinctIds(inp.lights.value) && states != map[]
    ensures InSomeScene(Step(states, inp).triggered, id) ==>
      id in Step(states, inp).states && Step(states, inp).states[id] == StateChange(None, true)
    ensures !InSomeScene(Step(states, inp).triggered, id) ==>
      forall l :: l in inp.lights.value && l.id == id && HasChanged(l, states) ==>
        id in Step(states, inp).states && Step(states, inp).states[id] == StateChange(Some(inp.now), l.reachable)
    ensures
      (&& !InSomeScene(Step(states, inp).triggered, id)
       && forall l :: l in inp.lights.value && l.id == id ==> !HasChanged(l, states))
      ==>
      && (id in Step(states, inp).states <==> id in states)
      && (id in states ==> Step(states, inp).states[id] == states[id])
  {
    var lights := inp.lights.value;
    var changed := ChangedLights(lights, states);
    ChangedLightsDistinct(lights, states);
    var recorded := Recorded(states, changed, Some(inp.now));
    RecordedFrame(states, changed, Some(inp.now));
    RecordedValues(states, changed, Some(inp.now));
    forall l | l in lights && l.id == id && HasChanged(l, states)
      ensures id in recorded && recorded[id] == StateChange(Some(inp.now), l.reachable)
    {
      assert l in changed;
      var i :| 0 <= i < |changed| && changed[i] == l;
    }
    if (forall l :: l in lights && l.id == id ==> !HasChanged(l, states)) {
      assert id !in LightIds(changed);
    }
    if changed != [] && inp.scenes.Some? {
      var triggered := TriggeredScenes(inp.scenes.value, AttachedIds(lights), TriggerIds(recorded, inp.now, inp.window));
      ResetScenesSpec(recorded, triggered, id);
    }
  }

  /** Lights with the same id are the same light. */
  lemma DistinctIdsSame(lights: seq<Light>)
    requires DistinctIds(lights)
    ensures forall a, b :: a in lights && b in lights && a.id == b.id ==> a == b
  {
    forall a, b | a in lights && b in lights && a.id == b.id ensures a == b {
      var i :| 0 <= i < |lights| && lights[i] == a;
      var j :| 0 <= j < |lights| && lights[j] == b;
      assert !(i < j) && !(j < i);
    }
  }

  /** Flipping a power switch on: in a later pass, a scene all of whose
      lights are attached or just became reachable is triggered, and its
      lights are reset. */
  lemma SwitchedOnSceneTriggers(states: LightStates, inp: Inputs, sc: Scene)
    requires inp.lights.Some? && DistinctIds(inp.lights.value) && states != map[]
    requires ChangedLights(inp.lights.value, states) != []
    requires inp.scenes.Some? && sc in inp.scenes.value && inp.window > 0
    requires sc.lights.Some?
    requires forall id :: id in sc.lights.value ==>
      exists l :: l in inp.lights.value && l.id == id && (IsAttachedLight(l) || (HasChanged(l, states) && l.reachable))
    ensures sc in Step(states, inp).triggered
    ensures forall id :: id in sc.lights.value ==>
      id in Step(states, inp).states && Step(states, inp).states[id] == StateChange(None, true)
  {
    var lights := inp.lights.value;
    var changed := ChangedLights(lights, states);
    ChangedLightsDistinct(lights, states);
    var recorded := Recorded(states, changed, Some(inp.now));
    RecordedValues(states, changed, Some(inp.now));
    var attached := AttachedIds(lights);
    var triggers := TriggerIds(recorded, inp.now, inp.window);
    forall id | id in sc.lights.value ensures id in attached || id in triggers {
      var l :| l in lights && l.id == id && (IsAttachedLight(l) || (HasChanged(l, states) && l.reachable));
      if !IsAttachedLight(l) {
        assert l in changed;
        var i :| 0 <= i < |changed| && changed[i] == l;
        assert recorded[id] == StateChange(Some(inp.now), true);
      }
    }
    var triggered := TriggeredScenes(inp.scenes.value, attached, triggers);
    assert sc in triggered;
    var i :| 0 <= i < |triggered| && triggered[i] == sc;
    forall id | id in sc.lights.value
      ensures id in Step(states, inp).states && Step(states, inp).states[id] == StateChange(None, true)
    {
      ResetScenesSpec(recorded, triggered, id);
    }
  }

  /** No re-trigger: a light reset by a triggered scene that stays
      reachable (and is not attached) triggers no scene in the next pass. */
  lemma NoRetrigger(states: LightStates, inp: Inputs, id: string, next: Inputs, sc: Scene)
    requires InSomeScene(Step(states, inp).triggered, id)
    requires next.lights.Some?
    requires forall l :: l in next.lights.value && l.id == id ==> l.reachable && !IsAttachedLight(l)
    requires sc.lights.Some? && id in sc.lights.value
    ensures sc !in Step(Step(states, inp).states, next).triggered
  {
    var lights := inp.lights.value;
    var changed := ChangedLights(lights, states);
    var recorded := Recorded(states, changed, Some(inp.now));
    var out := Step(states, inp);
    ResetScenesSpec(recorded, out.triggered, id);
    assert out.states[id] == StateChange(None, true);
    var lights2 := next.lights.value;
    var changed2 := ChangedLights(lights2, out.states);
    assert id !in LightIds(changed2);
    RecordedFrame(out.states, changed2, Some(next.now));
    var recorded2 := Recorded(out.states, changed2, Some(next.now));
    assert id !in TriggerIds(recorded2, next.now, next.window);
    assert id !in AttachedIds(lights2);
  }

  /** Every light of the group is attached or just became unreachable,
      judged on the light snapshot and the state map before the pass. */
  predicate GroupTurnedOff(g: Group, states: LightStates, lights: seq<Light>) {
    forall id :: id in g.lights ==>
      exists l :: l in lights && l.id == id && (IsAttachedLight(l) || (HasChanged(l, states) && !l.reachable))
  }

  /** A light counts as a trigger after recording iff it just became
      reachable (and the window is positive), or it did not change and its
      earlier state was already a trigger. */
  predicate NowTrigger(states: LightStates, lights: seq<Light>, now: int, window: int, id: string) {
    || (exists l :: l in lights && l.id == id && HasChanged(l, states) && l.reachable && 0 < window)
    || (&& (forall l :: l in lights && l.id == id ==> !HasChanged(l, states))
        && id in states && IsTrigger(states[id], now, window))
  }

  lemma RecordedTriggers(states: LightStates, inp: Inputs, id: string)
    requires inp.lights.Some? && DistinctIds(inp.lights.value)
    ensures id in TriggerIds(Recorded(states, ChangedLights(inp.lights.value, states), Some(inp.now)), inp.now, inp.window)
      <==> NowTrigger(states, inp.lights.value, inp.now, inp.window, id)
  {
    if l :| l in inp.lights.value && l.id == id && HasChanged(l, states) {
      TriggerOfChanged(states, inp.lights.value, inp.now, inp.window, l);
    } else {
      TriggerOfUnchanged(states, inp.lights.value, inp.now, inp.window, id);
    }
  }

  lemma TriggerOfChanged(states: LightStates, lights: seq<Light>, now: int, window: int, l: Light)
    requires DistinctIds(lights) && l in lights && HasChanged(l, states)
    ensures l.id in TriggerIds(Recorded(states, ChangedLights(lights, states), Some(now)), now, window)
      <==> l.reachable && 0 < window
    ensures NowTrigger(states, lights, now, window, l.id) <==> l.reachable && 0 < window
  {
    var changed := ChangedLights(lights, states);
    ChangedLightsDistinct(lights, states);
    RecordedValues(states, changed, Some(now));
    assert l in changed;
    var i :| 0 <= i < |changed| && changed[i] == l;
    DistinctIdsSame(lights);
  }

  lemma TriggerOfUnchanged(states: LightStates, lights: seq<Light>, now: int, window: int, id: string)
    requires forall l :: l in lights && l.id == id ==> !HasChanged(l, states)
    ensures id in TriggerIds(Recorded(states, ChangedLights(lights, states), Some(now)), now, window)
      <==> id in states && IsTrigger(states[id], now, window)
    ensures NowTrigger(states, lights, now, window, id) <==> id in states && IsTrigger(states[id], now, window)
  {
    var changed := ChangedLights(lights, states);
    RecordedFrame(states, changed, Some(now));
    assert id !in LightIds(changed);
  }

  /** Scene eligibility, stated on the snapshots and the state map before
      the pass: a scene is triggered iff it has a light list and each of
      its lights is attached or a trigger after recording. */
  lemma StepTriggered(states: LightStates, inp: Inputs, sc: Scene)
    requires inp.lights.Some? && DistinctIds(inp.lights.value) && states != map[]
    requires ChangedLights(inp.lights.value, states) != [] && inp.scenes.Some?
    ensures sc in Step(states, inp).triggered <==>
      && sc in inp.scenes.value && sc.lights.Some?
      && forall id :: id in sc.lights.value ==>
           id in AttachedIds(inp.lights.value) || NowTrigger(states, inp.lights.value, inp.now, inp.window, id)
  {
    forall id ensures id in TriggerIds(Recorded(states, ChangedLights(inp.lights.value, states), Some(inp.now)), inp.now, inp.window)
      <==> NowTrigger(states, inp.lights.value, inp.now, inp.window, id)
    {
      RecordedTriggers(states, inp, id);
    }
  }

  /** Flipping a power switch off: with a group snapshot, a group is
      switched off iff all its lights are attached or just became
      unreachable. */
  lemma StepSwitchedOff(states: LightStates, inp: Inputs)
    requires inp.lights.Some? && DistinctIds(inp.lights.value) && states != map[]
    requires ChangedLights(inp.lights.value, states) != []
    requires inp.scenes.Some? && inp.sunKnown && inp.groups.Some?
    ensures forall gid :: gid in Step(states, inp).switchedOff <==>
      exists g :: g in inp.groups.value && g.id == gid && GroupTurnedOff(g, states, inp.lights.value)
  {
    var lights := inp.lights.value;
    var changed := ChangedLights(lights, states);
    ChangedLightsDistinct(lights, states);
    DistinctIdsSame(lights);
    var recorded := Recorded(states, changed, Some(inp.now));
    RecordedValues(states, changed, Some(inp.now));
    var attached := AttachedIds(lights);
    var triggers := TriggerIds(recorded, inp.now, inp.window);
    var triggered := TriggeredScenes(inp.scenes.value, attached, triggers);
    var reset := ResetScenes(recorded, triggered);
    forall g | g in inp.groups.value
      ensures SwitchOff(g, attached, LightIds(changed), reset) <==> GroupTurnedOff(g, states, lights)
    {
      forall id | id in g.lights
        ensures (id in attached || (id in LightIds(changed) && id in reset && !reset[id].reachable))
          <==> exists l :: l in lights && l.id == id && (IsAttachedLight(l) || (HasChanged(l, states) && !l.reachable))
      {
        ResetScenesSpec(recorded, triggered, id);
        if c :| c in changed && c.id == id {
          var i :| 0 <= i < |changed| && changed[i] == c;
          assert recorded[id] == StateChange(Some(inp.now), c.reachable);
          if !c.reachable {
            assert id !in attached;
            assert id !in triggers;
            forall j | 0 <= j < |triggered| && triggered[j].lights.Some?
              ensures id !in triggered[j].lights.value
            {
              assert triggered[j] in triggered;
            }
          }
        }
        if l :| l in lights && l.id == id && HasChanged(l, states) && !l.reachable {
          assert l in changed;
        }
      }
    }
  }

  /** Only triggered scenes are activated, each under its sorted light
      list and with its first range holding the minute of the day. */
  lemma ScheduledWereTriggered(states: LightStates, inp: Inputs, k: seq<string>)
    requires k in Step(states, inp).scheduled
    ensures exists sc ::
      && sc in Step(states, inp).triggered
      && sc.id == Step(states, inp).scheduled[k].sceneId
      && sc.lights.Some? && SortStrings(sc.lights.value) == k
      && FirstMatching(sc.ranges, inp.minuteOfDay)
         == Some((Step(states, inp).scheduled[k].start, Step(states, inp).scheduled[k].end))
  {
    ScheduledScenesProvenance(Step(states, inp).triggered, inp.minuteOfDay, k);
  }

  /** A light set has an entry iff some scene offers it; the entry is an
      offer with the largest start, the last such scene on a tie. */
  lemma ScheduledScenesLatest(scenes: seq<Scene>, now: nat, k: seq<string>)
    ensures k in ScheduledScenes(scenes, now) <==>
      exists i :: 0 <= i < |scenes| && HasKey(CandidateOf(scenes[i], now), k)
    ensures k in ScheduledScenes(scenes, now) ==>
      && (forall j :: 0 <= j < |scenes| && HasKey(CandidateOf(scenes[j], now), k) ==>
            CandidateOf(scenes[j], now).value.entry.start <= ScheduledScenes(scenes, now)[k].start)
      && exists w ::
           && 0 <= w < |scenes|
           && CandidateOf(scenes[w], now) == Some(Candidate(k, ScheduledScenes(scenes, now)[k]))
           && forall j :: w < j < |scenes| && HasKey(CandidateOf(scenes[j], now), k) ==>
                CandidateOf(scenes[j], now).value.entry.start < ScheduledScenes(scenes, now)[k].start
  {
    var c := MapSeq(scenes, CandidateFor(now));
    KeepLatestKeys(c, k);
    if k in ScheduledScenes(scenes, now) {
      KeepLatestWinner(c, k);
    }
  }

  /** A light seen for the first time once the map is no longer empty
      counts as just switched on: here `b` triggers scene `s`. */
  lemma NewLightTriggers()
    ensures Step(map["a" := StateChange(None, true)],
                 Inputs(Some([Light("a", "Kitchen", true), Light("b", "Hall", true)]),
                        Some([Scene("s", Some(["b"]), [])]), true, None, 100, 10, 0)).triggered
            == [Scene("s", Some(["b"]), [])]
  {
    var states := map["a" := StateChange(None, true)];
    var lights := [Light("a", "Kitchen", true), Light("b", "Hall", true)];
    var sc := Scene("s", Some(["b"]), []);
    var inp := Inputs(Some(lights), Some([sc]), true, None, 100, 10, 0);
    assert |lights[1].name| < |"(att)"|;
    assert HasChanged(lights[1], states);
    assert lights[1] in ChangedLights(lights, states);
    assert forall id :: id in sc.lights.value ==> id == "b";
    SwitchedOnSceneTriggers(states, inp, sc);
    var out := Step(states, inp);
    assert forall s :: s in out.triggered ==> s == sc;
    assert out.triggered == TriggeredScenes([sc], AttachedIds(lights),
      TriggerIds(Recorded(states, ChangedLights(lights, states), Some(100)), 100, 10));
  }
}
