/** The selection both `get_scheduled_scenes` (in `utils.rs` and in
    `main.rs`) perform: scenes are offered one by one to a map keyed by
    their sorted light list, and an offer replaces the entry under its key
    unless that entry starts strictly later. The map is keyed by the sorted
    list itself, where the source keys it by a hash of that list. */
module Selection {
  import opened Text
  import opened Schedule

  /** A scene that passed the filters: its key and its entry. */
  datatype Candidate = Candidate(key: seq<string>, entry: ScheduledScene)

  type Selected = map<seq<string>, ScheduledScene>

  /** One iteration of the loop: `None` for a scene the loop skips. */
  function Offer(m: Selected, c: Option<Candidate>): Selected {
    match c
    case None => m
    case Some(Candidate(k, e)) =>
      if k in m && m[k].start > e.start then m else m[k := e]
  }

  /** The map after the loop over all candidates, in order. */
  function KeepLatest(cands: seq<Option<Candidate>>): Selected {
    if cands == [] then map[]
    else Offer(KeepLatest(cands[..|cands| - 1]), cands[|cands| - 1])
  }

  predicate HasKey(c: Option<Candidate>, k: seq<string>) {
    c.Some? && c.value.key == k
  }

  /** A key is in the map iff some candidate carries it. */
  lemma {:induction false} KeepLatestKeys(cands: seq<Option<Candidate>>, k: seq<string>)
    ensures k in KeepLatest(cands) <==> exists i :: 0 <= i < |cands| && HasKey(cands[i], k)
  {
    if cands != [] {
      var init := cands[..|cands| - 1];
      KeepLatestKeys(init, k);
      if exists i :: 0 <= i < |init| && HasKey(init[i], k) {
        var i :| 0 <= i < |init| && HasKey(init[i], k);
        assert cands[i] == init[i];
      }
      if i :| 0 <= i < |cands| - 1 && HasKey(cands[i], k) {
        assert init[i] == cands[i];
      }
    }
  }

  /** The entry kept under `k` is the candidate with the largest start
      among those carrying `k`, and the last of them on a tie. */
  lemma {:induction false} KeepLatestWinner(cands: seq<Option<Candidate>>, k: seq<string>)
    requires k in KeepLatest(cands)
    ensures exists w ::
      && 0 <= w < |cands|
      && cands[w] == Some(Candidate(k, KeepLatest(cands)[k]))
      && forall j :: w < j < |cands| && HasKey(cands[j], k) ==>
           cands[j].value.entry.start < KeepLatest(cands)[k].start
    ensures forall j :: 0 <= j < |cands| && HasKey(cands[j], k) ==>
      cands[j].value.entry.start <= KeepLatest(cands)[k].start
  {
    var n := |cands|;
    var init := cands[..n - 1];
    var m := KeepLatest(init);
    var r := KeepLatest(cands);
    var c := cands[n - 1];
    assert forall j :: 0 <= j < n - 1 ==> cands[j] == init[j];
    if HasKey(c, k) && !(k in m && m[k].start > c.value.entry.start) {
      assert r[k] == c.value.entry;
      if k in m {
        KeepLatestWinner(init, k);
      } else {
        KeepLatestKeys(init, k);
      }
    } else {
      assert k in m && r[k] == m[k];
      KeepLatestWinner(init, k);
      var w :|
        && 0 <= w < |init|
        && init[w] == Some(Candidate(k, m[k]))
        && forall j :: w < j < |init| && HasKey(init[j], k) ==> init[j].value.entry.start < m[k].start;
      assert cands[w] == Some(Candidate(k, r[k]));
    }
  }

  /** One entry per distinct key, hence no more entries than candidates. */
  lemma {:induction false} KeepLatestSize(cands: seq<Option<Candidate>>)
    ensures |KeepLatest(cands)| <= |cands|
  {
    if cands != [] {
      var m := KeepLatest(cands[..|cands| - 1]);
      KeepLatestSize(cands[..|cands| - 1]);
      match cands[|cands| - 1]
      case None =>
      case Some(Candidate(k, e)) =>
        assert KeepLatest(cands).Keys <= m.Keys + {k};
        assert |m.Keys + {k}| <= |m.Keys| + 1;
    }
  }

  /** A skipped scene, wherever it stands, changes nothing. */
  lemma {:induction false} KeepLatestSkip(a: seq<Option<Candidate>>, b: seq<Option<Candidate>>)
    ensures KeepLatest(a + [None] + b) == KeepLatest(a + b)
  {
    if b == [] {
      assert (a + [None])[..|a|] == a;
      assert a + [None] + b == a + [None] && a + b == a;
    } else {
      var init := b[..|b| - 1];
      KeepLatestSkip(a, init);
      assert (a + [None] + b)[..|a + [None] + b| - 1] == a + [None] + init;
      assert (a + b)[..|a + b| - 1] == a + init;
    }
  }
}
