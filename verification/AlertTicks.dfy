/** What one engine tick does to each source: the loop of tick in
    web-platform/backend/homefree_alerts_engine.py, seen from the store. */
module AlertTicks {
  import opened Options
  import opened AlertStore
  import opened AlertEngine
  import opened AlertRuns

  ghost predicate IsEnabled(sources: seq<SourceConfig>, id: string)
  {
    exists i :: 0 <= i < |sources| && sources[i] == SourceConfig(id, true)
  }

  ghost predicate DistinctIds(sources: seq<SourceConfig>)
  {
    forall i, j :: 0 <= i < j < |sources| ==> sources[i].id != sources[j].id
  }

  /** What an evaluator answers for a source: no verdict if it is unknown or fails. */
  function Answer(outcomes: map<string, Outcome>, id: string): Outcome
  {
    if id in outcomes then outcomes[id] else Failed
  }

  /** The store before the last source of the tick. */
  lemma BeforeLast(
    db: Db, sources: seq<SourceConfig>, outcomes: map<string, Outcome>, now: int, stamp: int, stop: Stop, after: Db)
    returns (mid: Db)
    requires sources != [] && Reaches(db, TickActs(sources, outcomes, now, stamp, stop), after)
    ensures Reaches(db, TickActs(sources[..|sources| - 1], outcomes, now, stamp, Done), mid)
    ensures
      var s := sources[|sources| - 1];
      if s.enable then DbStep(mid, Act(s.id, now, stamp, Answer(outcomes, s.id), stop), after) else mid == after
  {
    var n := |sources| - 1;
    var s, before := sources[n], TickActs(sources[..n], outcomes, now, stamp, Done);
    if s.enable {
      var act := Act(s.id, now, stamp, Answer(outcomes, s.id), stop);
      assert TickActs(sources, outcomes, now, stamp, stop) == before + [act];
      assert (before + [act])[..|before|] == before;
      mid :| Reaches(db, before, mid) && DbStep(mid, act, after);
    } else {
      assert TickActs(sources, outcomes, now, stamp, stop) == before;
      mid := after;
    }
  }

  /** A source that is disabled, or not configured among those the tick reaches, keeps
      its state and its rows. */
  lemma {:induction false} TickSkipsDisabled(
    db: Db, sources: seq<SourceConfig>, outcomes: map<string, Outcome>, now: int, stamp: int, stop: Stop, after: Db,
    id: string)
    requires Reaches(db, TickActs(sources, outcomes, now, stamp, stop), after) && !IsEnabled(sources, id)
    ensures ViewOf(after, id) == ViewOf(db, id)
  {
    if sources != [] {
      var n := |sources| - 1;
      var mid := BeforeLast(db, sources, outcomes, now, stamp, stop, after);
      TickSkipsDisabled(db, sources[..n], outcomes, now, stamp, Done, mid, id);
      if sources[n].enable {
        assert sources[n].id != id;
        SourcesAreIndependent(mid, Act(sources[n].id, now, stamp, Answer(outcomes, sources[n].id), stop), after, id);
      }
    }
  }

  /** What the tick makes of the view of its i-th source. */
  ghost predicate Ticked(v: View, id: string, outcome: Outcome, now: int, stamp: int, stop: Stop, after: View)
  {
    if outcome.Failed? then after == v else ViewStep(v, Act(id, now, stamp, outcome, stop), after)
  }

  /** An enabled source the tick reaches makes exactly one step, with its own verdict at
      the tick's time; without a verdict it keeps its view. Only the last source reached
      can stop half way. */
  lemma {:induction false} TickStepsEnabled(
    db: Db, sources: seq<SourceConfig>, outcomes: map<string, Outcome>, now: int, stamp: int, stop: Stop, after: Db,
    i: nat)
    requires Reaches(db, TickActs(sources, outcomes, now, stamp, stop), after) && DistinctIds(sources)
    requires i < |sources| && sources[i].enable
    ensures
      var id := sources[i].id;
      Ticked(ViewOf(db, id), id, Answer(outcomes, id), now, stamp, if i == |sources| - 1 then stop else Done,
             ViewOf(after, id))
  {
    var n, id := |sources| - 1, sources[i].id;
    var mid := BeforeLast(db, sources, outcomes, now, stamp, stop, after);
    if sources[n].enable {
      SourcesAreIndependent(mid, Act(sources[n].id, now, stamp, Answer(outcomes, sources[n].id), stop), after, id);
    }
    if i == n {
      TickSkipsDisabled(db, sources[..n], outcomes, now, stamp, Done, mid, id);
    } else {
      TickStepsEnabled(db, sources[..n], outcomes, now, stamp, Done, mid, i);
    }
  }
}
