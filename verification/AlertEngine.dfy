/** One evaluation of one alert source, and a whole engine tick
    (web-platform/backend/homefree_alerts_engine.py).

    An evaluator is foreign code: its result is an arbitrary verdict, or no
    verdict at all when it raises or the source is unknown. The state write and
    each log write are SQLite transactions of their own, so an act may stop between
    any two of them. */
module AlertEngine {
  import opened Options
  import opened AlertStore

  datatype Outcome =
    | Failed                                                     // unknown source or evaluator exception
    | Verdict(severity: Severity, value: Option<real>, message: string)

  /** How far a verdict's writes got before the process ended, or SQLite refused: all
      of them, the state only, or, of an escalation's two log writes, the first. */
  datatype Stop = Done | AfterState | AfterSeverity

  /** One call of run_source: `now` is the engine's clock for the tick, `stamp`
      the clock the store reads. */
  datatype Act = Act(source: string, now: int, stamp: int, outcome: Outcome, stop: Stop)

  function RankOf(prev: Option<StateRow>): nat
  {
    if prev.Some? then Rank(prev.value.severity) else 0
  }

  function PeakOf(prev: Option<StateRow>): Option<real>
  {
    if prev.Some? then prev.value.peak else None
  }

  function NextState(prev: Option<StateRow>, act: Act): StateRow
    requires act.outcome.Verdict?
  {
    var Verdict(severity, value, message) := act.outcome;
    var row := StateRow(Rank(severity) > 0, None, value, message, act.stamp, severity);
    if Rank(severity) == 0 then row
    else if RankOf(prev) == 0 then
      row.(started := Some(act.now), peak := Some(if value.Some? then value.value else 0.0))
    else
      row.(started := if prev.value.started.Some? && prev.value.started.value != 0
                      then prev.value.started else Some(act.now),
           peak := if value.Some? && (PeakOf(prev).None? || value.value > PeakOf(prev).value)
                   then value else PeakOf(prev))
  }

  function RaiseSeverities(events: seq<EventRow>, source: string, severity: Severity): seq<EventRow>
  {
    Amend(events, e => RaiseSeverity(e, source, severity))
  }

  function RaisePeaks(events: seq<EventRow>, source: string, value: Option<real>): seq<EventRow>
  {
    if value.Some? then Amend(events, e => RaisePeak(e, source, value.value)) else events
  }

  /** The value a verdict raises the peak of the open row to, if any. */
  function PeakToLog(prev: Option<StateRow>, act: Act): Option<real>
    requires act.outcome.Verdict?
  {
    var peak := NextState(prev, act).peak;
    if peak == PeakOf(prev) || (act.stop.AfterSeverity? && Rank(act.outcome.severity) > RankOf(prev))
    then None else peak
  }

  /** What the log looks like after the transition from `prev` on this verdict. */
  ghost predicate LogStep(events: seq<EventRow>, prev: Option<StateRow>, act: Act, after: seq<EventRow>)
    requires act.outcome.Verdict?
  {
    var Verdict(severity, _, message) := act.outcome;
    var row := NextState(prev, act);
    var was, cur := RankOf(prev), Rank(severity);
    var newPeak := PeakToLog(prev, act);
    if cur > 0 && was == 0 then
      after == events + [EventRow(act.source, act.now, None, row.peak.value, message, None, severity)]
    else if cur > was then
      after == RaisePeaks(RaiseSeverities(events, act.source, severity), act.source, newPeak)
    else if cur > 0 && cur == was then after == RaisePeaks(events, act.source, newPeak)
    else if cur == 0 && was > 0 then Closed(events, act.source, act.now, message, after)
    else after == events
  }

  function Lookup(db: Db, source: string): Option<StateRow>
  {
    if source in db.states then Some(db.states[source]) else None
  }

  ghost predicate DbStep(db: Db, act: Act, after: Db)
  {
    if act.outcome.Failed? then after == db
    else
      var prev := Lookup(db, act.source);
      && after.states == db.states[act.source := NextState(prev, act)]
      && (if act.stop.AfterState? then after.events == db.events else LogStep(db.events, prev, act, after.events))
  }

  /** run_source: read the state, judge the transition, write the state, then
      the log. */
  method RunSource(store: AlertStateStore, act: Act)
    modifies store
    ensures DbStep(old(store.View()), act, store.View())
  {
    if act.outcome.Failed? {
      return;
    }
    var Verdict(severity, value, message) := act.outcome;
    var prev := store.GetState(act.source);
    var prevPeak := PeakOf(prev);
    var prevRank, newRank := RankOf(prev), Rank(severity);

    var statePeak: Option<real>, started: Option<int>;
    if newRank > 0 && prevRank > 0 {
      if value.Some? && (prevPeak.None? || value.value > prevPeak.value) {
        statePeak := value;
      } else {
        statePeak := prevPeak;
      }
      started := if prev.value.started.Some? && prev.value.started.value != 0
                 then prev.value.started else Some(act.now);
    } else if newRank > 0 {
      statePeak := Some(if value.Some? then value.value else 0.0);
      started := Some(act.now);
    } else {
      statePeak := value;
      started := None;
    }
    store.SetState(act.source, StateRow(newRank > 0, started, statePeak, message, act.stamp, severity));
    if act.stop.AfterState? {
      return;
    }

    if newRank > 0 && prevRank == 0 {
      var _ := store.OpenEvent(act.source, started.value, statePeak.value, message, severity);
    } else if newRank > prevRank {
      store.UpdateSeverity(act.source, severity);
      if act.stop.AfterSeverity? {
        return;
      }
      if statePeak.Some? && statePeak != prevPeak {
        store.UpdatePeak(act.source, statePeak.value);
      }
    } else if prevRank > newRank > 0 {
      // De-escalation: the open event keeps its severity and its peak.
    } else if newRank > 0 {
      if statePeak.Some? && statePeak != prevPeak {
        store.UpdatePeak(act.source, statePeak.value);
      }
    } else if prevRank > 0 {
      store.CloseEvent(act.source, act.now, message);
    }
  }

  // --------------------------------------------------------------- whole ticks

  /** `after` is reached from `db` by performing the acts in order. */
  ghost predicate Reaches(db: Db, acts: seq<Act>, after: Db)
  {
    if acts == [] then after == db
    else
      var n := |acts| - 1;
      exists mid :: Reaches(db, acts[..n], mid) && DbStep(mid, acts[n], after)
  }

  lemma ReachesSnoc(db: Db, acts: seq<Act>, mid: Db, act: Act, after: Db)
    requires Reaches(db, acts, mid) && DbStep(mid, act, after)
    ensures Reaches(db, acts + [act], after)
  {
    assert (acts + [act])[..|acts|] == acts;
  }

  datatype SourceConfig = SourceConfig(id: string, enable: bool)

  /** The acts of one tick: the enabled sources in order, all at one `now`. The last
      source stops as `stop` says. */
  function TickActs(
    sources: seq<SourceConfig>, outcomes: map<string, Outcome>, now: int, stamp: int, stop: Stop): seq<Act>
  {
    if sources == [] then []
    else
      var n := |sources| - 1;
      var s := sources[n];
      TickActs(sources[..n], outcomes, now, stamp, Done) +
      (if s.enable
       then [Act(s.id, now, stamp, if s.id in outcomes then outcomes[s.id] else Failed, stop)]
       else [])
  }

  /** One engine tick over the configured sources. It ends after `reached` of them, the
      last one stopped as `stop` says: a whole tick reaches all of them and is Done. */
  method Tick(store: AlertStateStore, enable: bool, sources: seq<SourceConfig>,
              outcomes: map<string, Outcome>, now: int, stamp: int, reached: nat, stop: Stop)
    requires reached <= |sources|
    modifies store
    ensures Reaches(old(store.View()),
                    if enable then TickActs(sources[..reached], outcomes, now, stamp, stop) else [],
                    store.View())
    ensures !enable ==> store.View() == old(store.View())
  {
    if !enable {
      return;
    }
    for i := 0 to reached
      invariant
        Reaches(old(store.View()),
                TickActs(sources[..i], outcomes, now, stamp, if i < reached then Done else stop),
                store.View())
    {
      ghost var acts := TickActs(sources[..i], outcomes, now, stamp, Done);
      assert sources[..i + 1][..i] == sources[..i];
      var here := if i + 1 < reached then Done else stop;
      if sources[i].enable {
        ghost var mid := store.View();
        var act := Act(sources[i].id, now, stamp,
                       if sources[i].id in outcomes then outcomes[sources[i].id] else Failed, here);
        RunSource(store, act);
        ReachesSnoc(old(store.View()), acts, mid, act, store.View());
        assert TickActs(sources[..i + 1], outcomes, now, stamp, here) == acts + [act];
      } else {
        assert TickActs(sources[..i + 1], outcomes, now, stamp, here) == acts;
      }
    }
  }
}
