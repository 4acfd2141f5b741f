/** What the alert log means over whole runs.

    The reference is the history itself: the verdicts one source gave, in
    order. An alarm is a maximal block of firing verdicts. After any run without
    a cut the log of a source is exactly the list of its alarms; cut runs keep a
    ledger of stranded and missing rows instead. */
module AlertRuns {
  import opened Options
  import opened AlertStore
  import opened AlertEngine

  const EMPTY_DB := Db(map[], [])

  // ------------------------------------------------------ one source at a time

  datatype View = View(state: Option<StateRow>, log: seq<EventRow>)

  function ViewOf(db: Db, source: string): View
  {
    View(Lookup(db, source), EventsOf(db.events, source))
  }

  ghost predicate ViewStep(v: View, act: Act, after: View)
    requires act.outcome.Verdict?
  {
    && after.state == Some(NextState(v.state, act))
    && (if act.stop.AfterState? then after.log == v.log else LogStep(v.log, v.state, act, after.log))
  }

  /** The acts of one source that produced a verdict. */
  function Trace(acts: seq<Act>, source: string): (tr: seq<Act>)
    ensures forall i :: 0 <= i < |tr| ==> tr[i].source == source && tr[i].outcome.Verdict?
  {
    if acts == [] then []
    else
      var n := |acts| - 1;
      var last := acts[n];
      Trace(acts[..n], source) + (if last.source == source && last.outcome.Verdict? then [last] else [])
  }

  lemma EventsOfSeverities(events: seq<EventRow>, source: string, severity: Severity)
    ensures forall s :: EventsOf(RaiseSeverities(events, source, severity), s)
                        == if s == source then RaiseSeverities(EventsOf(events, s), source, severity)
                           else EventsOf(events, s)
  {
    forall s ensures EventsOf(RaiseSeverities(events, source, severity), s) ==
      if s == source then RaiseSeverities(EventsOf(events, s), source, severity) else EventsOf(events, s)
    {
      EventsOfAmend(events, e => RaiseSeverity(e, source, severity), s);
    }
  }

  lemma EventsOfPeaks(events: seq<EventRow>, source: string, value: Option<real>)
    ensures forall s :: EventsOf(RaisePeaks(events, source, value), s)
                        == if s == source then RaisePeaks(EventsOf(events, s), source, value)
                           else EventsOf(events, s)
  {
    if value.Some? {
      forall s ensures EventsOf(RaisePeaks(events, source, value), s) ==
        if s == source then RaisePeaks(EventsOf(events, s), source, value) else EventsOf(events, s)
      {
        EventsOfAmend(events, e => RaisePeak(e, source, value.value), s);
      }
    }
  }

  /** Sources do not interfere: an act moves its own source's view by the same
      step relation and leaves every other view alone. */
  lemma SourcesAreIndependent(db: Db, act: Act, after: Db, source: string)
    requires DbStep(db, act, after)
    ensures act.source == source && act.outcome.Verdict? ==>
      ViewStep(ViewOf(db, source), act, ViewOf(after, source))
    ensures act.source != source || act.outcome.Failed? ==> ViewOf(after, source) == ViewOf(db, source)
  {
    if act.outcome.Verdict? && !act.stop.AfterState? {
      var Verdict(severity, _, message) := act.outcome;
      var prev := Lookup(db, act.source);
      var newPeak := PeakToLog(prev, act);
      if RankOf(prev) == 0 && Rank(severity) > 0 {
        assert after.events[..|after.events| - 1] == db.events;
      } else if Rank(severity) > RankOf(prev) {
        var raised := RaiseSeverities(db.events, act.source, severity);
        EventsOfSeverities(db.events, act.source, severity);
        EventsOfPeaks(raised, act.source, newPeak);
      } else if Rank(severity) > 0 {
        EventsOfPeaks(db.events, act.source, newPeak);
      } else if RankOf(prev) > 0 {
        EventsOfClosed(db.events, act.source, act.now, message, after.events);
      }
    }
  }

  // ------------------------------------------------------------ alarms in history

  predicate Firing(a: Act)
  {
    a.outcome.Verdict? && Rank(a.outcome.severity) > 0
  }

  /** Positions lo..hi of a trace. */
  datatype Block = Block(lo: nat, hi: nat)

  /** A stretch of firing verdicts with none before and none after it. */
  ghost predicate IsAlarm(tr: seq<Act>, b: Block)
  {
    && b.lo < b.hi <= |tr|
    && (forall i :: b.lo <= i < b.hi ==> Firing(tr[i]))
    && (b.lo > 0 ==> !Firing(tr[b.lo - 1]))
    && (b.hi < |tr| ==> !Firing(tr[b.hi]))
  }

  /** The blocks are exactly the alarms of the trace, in order. */
  ghost predicate AreAlarms(tr: seq<Act>, bs: seq<Block>)
  {
    && (forall k :: 0 <= k < |bs| ==> IsAlarm(tr, bs[k]))
    && (forall j, k :: 0 <= j < k < |bs| ==> bs[j].hi < bs[k].lo)
    && (forall i :: 0 <= i < |tr| && Firing(tr[i]) ==> Covered(bs, i))
  }

  ghost predicate Covered(bs: seq<Block>, i: int)
  {
    exists k :: 0 <= k < |bs| && bs[k].lo <= i < bs[k].hi
  }

  ghost predicate IsTrace(tr: seq<Act>)
  {
    forall i :: 0 <= i < |tr| ==> tr[i].outcome.Verdict?
  }

  /** The first reading of an alarm counts as 0.0 when it is missing. */
  function OpeningValue(a: Act): real
    requires a.outcome.Verdict?
  {
    if a.outcome.value.Some? then a.outcome.value.value else 0.0
  }

  predicate Above(a: Act, level: real)
    requires a.outcome.Verdict?
  {
    a.outcome.value.Some? && a.outcome.value.value > level
  }

  /** The highest reading of lo..hi. */
  function High(tr: seq<Act>, lo: nat, hi: nat): real
    requires IsTrace(tr) && lo < hi <= |tr|
    decreases hi
  {
    if hi == lo + 1 then OpeningValue(tr[lo])
    else if Above(tr[hi - 1], High(tr, lo, hi - 1)) then tr[hi - 1].outcome.value.value
    else High(tr, lo, hi - 1)
  }

  /** Where that reading was first seen. */
  function HighAt(tr: seq<Act>, lo: nat, hi: nat): (p: nat)
    requires IsTrace(tr) && lo < hi <= |tr|
    ensures lo <= p < hi
    decreases hi
  {
    if hi == lo + 1 then lo
    else if Above(tr[hi - 1], High(tr, lo, hi - 1)) then hi - 1
    else HighAt(tr, lo, hi - 1)
  }

  /** The reading that counts at position i of an alarm starting at lo. */
  function Reading(tr: seq<Act>, lo: nat, i: nat): Option<real>
    requires IsTrace(tr) && lo <= i < |tr|
  {
    if i == lo then Some(OpeningValue(tr[lo])) else tr[i].outcome.value
  }

  /** High and HighAt are what their names say. */
  lemma {:induction false} HighIsMaximum(tr: seq<Act>, lo: nat, hi: nat)
    requires IsTrace(tr) && lo < hi <= |tr|
    ensures forall i :: lo <= i < hi && Reading(tr, lo, i).Some? ==> Reading(tr, lo, i).value <= High(tr, lo, hi)
    ensures Reading(tr, lo, HighAt(tr, lo, hi)) == Some(High(tr, lo, hi))
    ensures forall i :: lo <= i < HighAt(tr, lo, hi) && Reading(tr, lo, i).Some? ==>
      Reading(tr, lo, i).value < High(tr, lo, hi)
    decreases hi
  {
    if hi > lo + 1 {
      HighIsMaximum(tr, lo, hi - 1);
    }
  }

  /** The tick at i made no peak write: it fell from err to warn, or it rose from warn
      to err and stopped after the severity. */
  predicate SkipsPeak(tr: seq<Act>, lo: nat, i: nat)
    requires IsTrace(tr) && lo <= i < |tr|
  {
    && i > lo
    && var was, cur := Rank(tr[i - 1].outcome.severity), Rank(tr[i].outcome.severity);
       was > cur || (was < cur && tr[i].stop.AfterSeverity?)
  }

  /** The peak the log row carries: new highs count unless their tick skipped the
      peak write. */
  function LoggedHigh(tr: seq<Act>, lo: nat, hi: nat): real
    requires IsTrace(tr) && lo < hi <= |tr|
    decreases hi
  {
    if hi == lo + 1 then OpeningValue(tr[lo])
    else if Above(tr[hi - 1], High(tr, lo, hi - 1)) && !SkipsPeak(tr, lo, hi - 1)
    then tr[hi - 1].outcome.value.value
    else LoggedHigh(tr, lo, hi - 1)
  }

  /** The log row's peak never exceeds the state's, and falls short exactly when
      the tick that set the state's peak skipped the peak write. */
  lemma {:induction false} LoggedHighFallsShort(tr: seq<Act>, lo: nat, hi: nat)
    requires IsTrace(tr) && lo < hi <= |tr|
    ensures LoggedHigh(tr, lo, hi) <= High(tr, lo, hi)
    ensures LoggedHigh(tr, lo, hi) == High(tr, lo, hi) <==> !SkipsPeak(tr, lo, HighAt(tr, lo, hi))
    decreases hi
  {
    if hi > lo + 1 {
      LoggedHighFallsShort(tr, lo, hi - 1);
    }
  }

  function Worst(tr: seq<Act>, lo: nat, hi: nat): (s: Severity)
    requires IsTrace(tr) && lo < hi <= |tr|
    ensures forall i :: lo <= i < hi ==> Rank(tr[i].outcome.severity) <= Rank(s)
    ensures exists i :: lo <= i < hi && tr[i].outcome.severity == s
    decreases hi
  {
    if hi == lo + 1 then tr[lo].outcome.severity
    else
      var s := Worst(tr, lo, hi - 1);
      if Rank(tr[hi - 1].outcome.severity) > Rank(s) then tr[hi - 1].outcome.severity else s
  }

  /** When the state says the alarm began: the first clock reading that is not
      the falsy 0. */
  function StateStart(tr: seq<Act>, lo: nat, hi: nat): int
    requires IsTrace(tr) && lo < hi <= |tr|
    decreases hi
  {
    if hi == lo + 1 then tr[lo].now
    else if StateStart(tr, lo, hi - 1) != 0 then StateStart(tr, lo, hi - 1)
    else tr[hi - 1].now
  }

  /** The row the log must hold for one alarm. */
  function AlarmRow(tr: seq<Act>, b: Block, source: string): EventRow
    requires IsTrace(tr) && b.lo < b.hi <= |tr|
  {
    EventRow(source, tr[b.lo].now,
             if b.hi < |tr| then Some(tr[b.hi].now) else None,
             LoggedHigh(tr, b.lo, b.hi),
             tr[b.lo].outcome.message,
             if b.hi < |tr| then Some(tr[b.hi].outcome.message) else None,
             Worst(tr, b.lo, b.hi))
  }

  ghost predicate Ongoing(tr: seq<Act>, bs: seq<Block>)
  {
    |bs| > 0 && bs[|bs| - 1].lo < bs[|bs| - 1].hi == |tr|
  }

  /** The state row the last verdict must leave behind. */
  ghost predicate StateMatches(tr: seq<Act>, bs: seq<Block>, state: Option<StateRow>)
    requires IsTrace(tr)
  {
    if tr == [] then state.None?
    else
      var last := tr[|tr| - 1];
      && state.Some?
      && state.value.severity == last.outcome.severity
      && state.value.firing == Firing(last)
      && state.value.message == last.outcome.message
      && state.value.updated == last.stamp
      && (if Firing(last)
          then Ongoing(tr, bs)
               && state.value.started == Some(StateStart(tr, bs[|bs| - 1].lo, |tr|))
               && state.value.peak == Some(High(tr, bs[|bs| - 1].lo, |tr|))
          else state.value.started == None && state.value.peak == last.outcome.value)
  }

  ghost predicate RowMatches(tr: seq<Act>, b: Block, source: string, e: EventRow)
    requires IsTrace(tr)
  {
    b.lo < b.hi <= |tr| && e == AlarmRow(tr, b, source)
  }

  ghost predicate RowsMatch(tr: seq<Act>, bs: seq<Block>, log: seq<EventRow>, source: string)
    requires IsTrace(tr)
  {
    |log| == |bs| && forall k :: 0 <= k < |bs| ==> RowMatches(tr, bs[k], source, log[k])
  }

  ghost predicate LogMatches(tr: seq<Act>, bs: seq<Block>, v: View, source: string)
  {
    && IsTrace(tr) && AreAlarms(tr, bs)
    && StateMatches(tr, bs, v.state) && RowsMatch(tr, bs, v.log, source)
  }

  // ------------------------------------------------------------------ the step

  /** The alarms after one more verdict. */
  function NextBlocks(tr: seq<Act>, bs: seq<Block>, a: Act): seq<Block>
  {
    if !Firing(a) then bs
    else if |bs| > 0 && bs[|bs| - 1].hi == |tr|
    then bs[..|bs| - 1] + [Block(bs[|bs| - 1].lo, |tr| + 1)]
    else bs + [Block(|tr|, |tr| + 1)]
  }

  lemma FiringEndIsInTheLastAlarm(tr: seq<Act>, bs: seq<Block>)
    requires AreAlarms(tr, bs) && |tr| > 0 && Firing(tr[|tr| - 1])
    ensures |bs| > 0 && bs[|bs| - 1].hi == |tr|
  {
    assert Covered(bs, |tr| - 1);
    var k :| 0 <= k < |bs| && bs[k].lo <= |tr| - 1 < bs[k].hi;
    assert IsAlarm(tr, bs[k]) && IsAlarm(tr, bs[|bs| - 1]);
  }

  /** The alarms stay what they were, except that the last one may grow. */
  lemma OldAlarmsStay(tr: seq<Act>, bs: seq<Block>, a: Act, k: int)
    requires AreAlarms(tr, bs) && 0 <= k < |bs|
    ensures !Firing(a) || bs[k].hi < |tr| ==> IsAlarm(tr + [a], bs[k])
    ensures Firing(a) && bs[k].hi == |tr| ==> IsAlarm(tr + [a], Block(bs[k].lo, |tr| + 1))
    ensures bs[k].hi == |tr| ==> k == |bs| - 1
  {
    assert IsAlarm(tr, bs[k]);
    if k < |bs| - 1 {
      assert bs[k].hi < bs[|bs| - 1].lo && IsAlarm(tr, bs[|bs| - 1]);
    }
  }

  lemma NewAlarm(tr: seq<Act>, bs: seq<Block>, a: Act)
    requires AreAlarms(tr, bs) && Firing(a)
    requires |bs| == 0 || bs[|bs| - 1].hi < |tr|
    ensures IsAlarm(tr + [a], Block(|tr|, |tr| + 1))
  {
    if |tr| > 0 && Firing(tr[|tr| - 1]) {
      FiringEndIsInTheLastAlarm(tr, bs);
    }
  }

  lemma StillCovered(bs: seq<Block>, bs': seq<Block>, i: int)
    requires Covered(bs, i) && |bs| <= |bs'|
    requires forall k :: 0 <= k < |bs| ==> bs'[k].lo == bs[k].lo && bs[k].hi <= bs'[k].hi
    ensures Covered(bs', i)
  {
    var k :| 0 <= k < |bs| && bs[k].lo <= i < bs[k].hi;
    assert bs'[k].lo <= i < bs'[k].hi;
  }

  lemma NextBlocksAreAlarms(tr: seq<Act>, bs: seq<Block>, a: Act)
    requires AreAlarms(tr, bs)
    ensures AreAlarms(tr + [a], NextBlocks(tr, bs, a))
  {
    var tr', bs' := tr + [a], NextBlocks(tr, bs, a);
    forall k | 0 <= k < |bs'| ensures IsAlarm(tr', bs'[k]) {
      if k < |bs| {
        OldAlarmsStay(tr, bs, a, k);
        assert IsAlarm(tr, bs[k]);
      } else {
        NewAlarm(tr, bs, a);
      }
    }
    forall j, k | 0 <= j < k < |bs'| ensures bs'[j].hi < bs'[k].lo {
      assert IsAlarm(tr, bs[j]);
      if k < |bs| {
        assert bs[j].hi < bs[k].lo;
      } else if j < |bs| - 1 {
        assert bs[j].hi < bs[|bs| - 1].lo && IsAlarm(tr, bs[|bs| - 1]);
      }
    }
    forall i | 0 <= i < |tr'| && Firing(tr'[i]) ensures Covered(bs', i) {
      if i < |tr| {
        assert Covered(bs, i);
        StillCovered(bs, bs', i);
      } else {
        assert bs'[|bs'| - 1].lo <= i < bs'[|bs'| - 1].hi;
      }
    }
  }

  /** Everything said about a block depends only on the trace up to its end. */
  lemma {:induction false} BlockExtends(tr: seq<Act>, a: Act, lo: nat, hi: nat)
    requires IsTrace(tr) && a.outcome.Verdict? && lo < hi <= |tr|
    ensures High(tr + [a], lo, hi) == High(tr, lo, hi)
    ensures LoggedHigh(tr + [a], lo, hi) == LoggedHigh(tr, lo, hi)
    ensures Worst(tr + [a], lo, hi) == Worst(tr, lo, hi)
    ensures StateStart(tr + [a], lo, hi) == StateStart(tr, lo, hi)
    decreases hi
  {
    if hi > lo + 1 {
      BlockExtends(tr, a, lo, hi - 1);
    }
  }

  lemma EndedRowStays(tr: seq<Act>, a: Act, b: Block, source: string, e: EventRow)
    requires IsTrace(tr) && a.outcome.Verdict? && RowMatches(tr, b, source, e) && b.hi < |tr|
    ensures RowMatches(tr + [a], b, source, e)
  {
    BlockExtends(tr, a, b.lo, b.hi);
  }

  lemma RowCloses(tr: seq<Act>, a: Act, b: Block, source: string, e: EventRow)
    requires IsTrace(tr) && a.outcome.Verdict? && RowMatches(tr, b, source, e) && b.hi == |tr|
    ensures RowMatches(tr + [a], b, source, Ended(e, a.now, a.outcome.message))
  {
    BlockExtends(tr, a, b.lo, b.hi);
  }

  /** What one more firing verdict does to the row of the running alarm. */
  lemma RowGrows(tr: seq<Act>, a: Act, lo: nat, source: string, e: EventRow)
    requires IsTrace(tr) && a.outcome.Verdict? && RowMatches(tr, Block(lo, |tr|), source, e)
    requires Rank(tr[|tr| - 1].outcome.severity) <= Rank(a.outcome.severity)
    ensures
      var raised := RaiseSeverity(e, source, a.outcome.severity);
      RowMatches(tr + [a], Block(lo, |tr| + 1), source,
        if Above(a, High(tr, lo, |tr|)) && !SkipsPeak(tr + [a], lo, |tr|)
        then RaisePeak(raised, source, a.outcome.value.value) else raised)
  {
    BlockExtends(tr, a, lo, |tr|);
    LoggedHighFallsShort(tr, lo, |tr|);
  }

  /** A de-escalating verdict leaves the row alone. */
  lemma RowRests(tr: seq<Act>, a: Act, lo: nat, source: string, e: EventRow)
    requires IsTrace(tr) && a.outcome.Verdict? && RowMatches(tr, Block(lo, |tr|), source, e)
    requires Rank(tr[|tr| - 1].outcome.severity) > Rank(a.outcome.severity)
    ensures RowMatches(tr + [a], Block(lo, |tr| + 1), source, e)
  {
    BlockExtends(tr, a, lo, |tr|);
    assert SkipsPeak(tr + [a], lo, |tr|);
    assert Rank(tr[|tr| - 1].outcome.severity) <= Rank(Worst(tr, lo, |tr|));
  }

  // ----------------------------------------------------- one step keeps the match

  /** What the steps need to know about the blocks: only the last can reach the
      end of the trace, and it does exactly while the trace ends firing. */
  ghost predicate Tidy(tr: seq<Act>, bs: seq<Block>)
  {
    && (forall k :: 0 <= k < |bs| - 1 ==> bs[k].hi < |tr|)
    && (|bs| > 0 ==> bs[|bs| - 1].lo < bs[|bs| - 1].hi <= |tr|)
    && (Ongoing(tr, bs) <==> |tr| > 0 && Firing(tr[|tr| - 1]))
  }

  lemma AlarmsAreTidy(tr: seq<Act>, bs: seq<Block>)
    requires AreAlarms(tr, bs)
    ensures Tidy(tr, bs)
  {
    forall k | 0 <= k < |bs| ensures bs[k].hi <= |tr| && (k < |bs| - 1 ==> bs[k].hi < |tr|) {
      assert IsAlarm(tr, bs[k]) && IsAlarm(tr, bs[|bs| - 1]);
    }
    if |tr| > 0 && Firing(tr[|tr| - 1]) {
      FiringEndIsInTheLastAlarm(tr, bs);
      assert IsAlarm(tr, bs[|bs| - 1]);
    } else if |bs| > 0 {
      assert IsAlarm(tr, bs[|bs| - 1]);
    }
  }

  /** The state row follows the trace. */
  lemma StateFollows(tr: seq<Act>, bs: seq<Block>, state: Option<StateRow>, a: Act)
    requires IsTrace(tr) && a.outcome.Verdict? && Tidy(tr, bs) && StateMatches(tr, bs, state)
    ensures StateMatches(tr + [a], NextBlocks(tr, bs, a), Some(NextState(state, a)))
  {
    var tr' := tr + [a];
    assert tr'[|tr'| - 1] == a;
    if Firing(a) && RankOf(state) > 0 {
      var lo := bs[|bs| - 1].lo;
      BlockExtends(tr, a, lo, |tr|);
      assert NextBlocks(tr, bs, a)[|bs| - 1] == Block(lo, |tr'|);
      assert StateStart(tr', lo, |tr'|) ==
        if StateStart(tr, lo, |tr|) != 0 then StateStart(tr, lo, |tr|) else a.now;
    } else if Firing(a) {
      assert NextBlocks(tr, bs, a) == bs + [Block(|tr|, |tr'|)];
    }
  }

  /** Rows of ended alarms survive any verdict. */
  lemma EndedRowsStay(tr: seq<Act>, a: Act, bs: seq<Block>, log: seq<EventRow>, source: string, n: nat)
    requires IsTrace(tr) && a.outcome.Verdict? && RowsMatch(tr, bs, log, source)
    requires n <= |bs| && forall k :: 0 <= k < n ==> bs[k].hi < |tr|
    ensures forall k :: 0 <= k < n ==> RowMatches(tr + [a], bs[k], source, log[k])
  {
    forall k | 0 <= k < n ensures RowMatches(tr + [a], bs[k], source, log[k]) {
      EndedRowStays(tr, a, bs[k], source, log[k]);
    }
  }

  /** With exactly one open row, at the end, every amendment lands there. */
  lemma AmendLandsOnLast(log: seq<EventRow>, z: nat, f: EventRow -> EventRow)
    requires z < |log|
    requires forall k :: 0 <= k < |log| && k != z ==> f(log[k]) == log[k]
    ensures Amend(log, f) == log[z := f(log[z])]
  {
  }

  /** What a verdict makes of the open row. */
  function NextRow(e: EventRow, prev: Option<StateRow>, a: Act): EventRow
    requires a.outcome.Verdict?
  {
    var peak, rank := PeakToLog(prev, a), Rank(a.outcome.severity);
    if rank == 0 then Ended(e, a.now, a.outcome.message)
    else if rank < RankOf(prev) then e
    else
      var raised := if rank > RankOf(prev) then RaiseSeverity(e, a.source, a.outcome.severity) else e;
      if peak.Some? then RaisePeak(raised, a.source, peak.value) else raised
  }

  lemma LogStepOnLast(log: seq<EventRow>, prev: Option<StateRow>, a: Act, after: seq<EventRow>, z: nat)
    requires a.outcome.Verdict? && LogStep(log, prev, a, after) && RankOf(prev) > 0
    requires z < |log| && forall k :: 0 <= k < |log| ==> (IsOpen(log[k], a.source) <==> k == z)
    ensures after == log[z := NextRow(log[z], prev, a)]
  {
    var peak := PeakToLog(prev, a);
    assert HasOpen(log, a.source) by { assert IsOpen(log[z], a.source); }
    AmendLandsOnLast(log, z, e => RaiseSeverity(e, a.source, a.outcome.severity));
    var raised := RaiseSeverities(log, a.source, a.outcome.severity);
    if peak.Some? {
      AmendLandsOnLast(log, z, e => RaisePeak(e, a.source, peak.value));
      AmendLandsOnLast(raised, z, e => RaisePeak(e, a.source, peak.value));
    }
  }

  /** The running row after any verdict. */
  lemma RunningRowFollows(tr: seq<Act>, lo: nat, state: Option<StateRow>, a: Act, e: EventRow)
    requires IsTrace(tr) && a.outcome.Verdict? && RowMatches(tr, Block(lo, |tr|), a.source, e)
    requires state.Some? && state.value.severity == tr[|tr| - 1].outcome.severity
    requires state.value.peak == Some(High(tr, lo, |tr|)) && RankOf(state) > 0
    ensures
      RowMatches(tr + [a], Block(lo, if Firing(a) then |tr| + 1 else |tr|), a.source, NextRow(e, state, a))
  {
    if !Firing(a) {
      RowCloses(tr, a, Block(lo, |tr|), a.source, e);
    } else if Rank(a.outcome.severity) < RankOf(state) {
      RowRests(tr, a, lo, a.source, e);
    } else {
      assert Rank(tr[|tr| - 1].outcome.severity) <= Rank(e.severity);
      RowGrows(tr, a, lo, a.source, e);
    }
  }

  lemma RowsFollowRunning(tr: seq<Act>, bs: seq<Block>, v: View, a: Act, v': View)
    requires IsTrace(tr) && Tidy(tr, bs) && StateMatches(tr, bs, v.state) && RowsMatch(tr, bs, v.log, a.source)
    requires a.outcome.Verdict? && !a.stop.AfterState? && ViewStep(v, a, v') && RankOf(v.state) > 0
    ensures RowsMatch(tr + [a], NextBlocks(tr, bs, a), v'.log, a.source)
  {
    var z := |bs| - 1;
    EndedRowsStay(tr, a, bs, v.log, a.source, z);
    assert RowMatches(tr, bs[z], a.source, v.log[z]);
    forall k | 0 <= k < |bs| ensures IsOpen(v.log[k], a.source) <==> k == z {
      assert RowMatches(tr, bs[k], a.source, v.log[k]);
    }
    LogStepOnLast(v.log, v.state, a, v'.log, z);
    RunningRowFollows(tr, bs[z].lo, v.state, a, v.log[z]);
  }

  lemma NoRowOngoing(tr: seq<Act>, bs: seq<Block>)
    requires Tidy(tr, bs) && (|tr| == 0 || !Firing(tr[|tr| - 1]))
    ensures forall k :: 0 <= k < |bs| ==> bs[k].hi < |tr|
  {
  }

  lemma RowsFollowIdle(tr: seq<Act>, bs: seq<Block>, v: View, a: Act, v': View)
    requires IsTrace(tr) && Tidy(tr, bs) && StateMatches(tr, bs, v.state) && RowsMatch(tr, bs, v.log, a.source)
    requires a.outcome.Verdict? && !a.stop.AfterState? && ViewStep(v, a, v') && RankOf(v.state) == 0
    ensures RowsMatch(tr + [a], NextBlocks(tr, bs, a), v'.log, a.source)
  {
    NoRowOngoing(tr, bs);
    EndedRowsStay(tr, a, bs, v.log, a.source, |bs|);
    if Firing(a) {
      var b, e := Block(|tr|, |tr| + 1), v'.log[|bs|];
      assert RowMatches(tr + [a], b, a.source, e);
      assert NextBlocks(tr, bs, a) == bs + [b] && v'.log == v.log + [e];
    }
  }

  lemma RowsFollow(tr: seq<Act>, bs: seq<Block>, v: View, a: Act, v': View)
    requires IsTrace(tr) && Tidy(tr, bs) && StateMatches(tr, bs, v.state) && RowsMatch(tr, bs, v.log, a.source)
    requires a.outcome.Verdict? && !a.stop.AfterState? && ViewStep(v, a, v')
    ensures RowsMatch(tr + [a], NextBlocks(tr, bs, a), v'.log, a.source)
  {
    if RankOf(v.state) > 0 {
      RowsFollowRunning(tr, bs, v, a, v');
    } else {
      RowsFollowIdle(tr, bs, v, a, v');
    }
  }

  lemma StepKeepsMatch(tr: seq<Act>, bs: seq<Block>, v: View, a: Act, v': View)
    requires LogMatches(tr, bs, v, a.source) && a.outcome.Verdict? && !a.stop.AfterState? && ViewStep(v, a, v')
    ensures LogMatches(tr + [a], NextBlocks(tr, bs, a), v', a.source)
  {
    AlarmsAreTidy(tr, bs);
    NextBlocksAreAlarms(tr, bs, a);
    StateFollows(tr, bs, v.state, a);
    RowsFollow(tr, bs, v, a, v');
  }

  // -------------------------------------------------------------- uncut runs

  ghost predicate Uncut(acts: seq<Act>, source: string)
  {
    forall i :: 0 <= i < |acts| && acts[i].source == source ==> !acts[i].stop.AfterState?
  }

  /** One act of a run, whoever it belongs to. */
  lemma HistoryStep(tr: seq<Act>, bs: seq<Block>, mid: Db, a: Act, db: Db, source: string) returns (bs': seq<Block>)
    requires LogMatches(tr, bs, ViewOf(mid, source), source) && DbStep(mid, a, db)
    requires a.source == source ==> !a.stop.AfterState?
    ensures
      var now := if a.source == source && a.outcome.Verdict? then tr + [a] else tr;
      LogMatches(now, bs', ViewOf(db, source), source)
  {
    SourcesAreIndependent(mid, a, db, source);
    if a.source == source && a.outcome.Verdict? {
      StepKeepsMatch(tr, bs, ViewOf(mid, source), a, ViewOf(db, source));
      bs' := NextBlocks(tr, bs, a);
    } else {
      bs' := bs;
    }
  }

  /** The log of a source is its history of alarms, after any run whatever the
      other sources did (and whether or not they were cut). */
  lemma {:induction false} LogIsTheAlarmHistory(acts: seq<Act>, db: Db, source: string) returns (bs: seq<Block>)
    requires Reaches(EMPTY_DB, acts, db) && Uncut(acts, source)
    ensures LogMatches(Trace(acts, source), bs, ViewOf(db, source), source)
  {
    if acts == [] {
      bs := [];
    } else {
      var n := |acts| - 1;
      var mid :| Reaches(EMPTY_DB, acts[..n], mid) && DbStep(mid, acts[n], db);
      var before := LogIsTheAlarmHistory(acts[..n], mid, source);
      var tr := Trace(acts[..n], source);
      assert Trace(acts, source) ==
        if acts[n].source == source && acts[n].outcome.Verdict? then tr + [acts[n]] else tr;
      bs := HistoryStep(tr, before, mid, acts[n], db, source);
    }
  }

  /** The meaning of one row of the log, read off the verdicts of its alarm. */
  lemma AlarmRowMeaning(tr: seq<Act>, b: Block, source: string)
    requires IsTrace(tr) && b.lo < b.hi <= |tr|
    ensures
      var e := AlarmRow(tr, b, source);
      && (forall i :: b.lo <= i < b.hi ==> Rank(tr[i].outcome.severity) <= Rank(e.severity))
      && (exists i :: b.lo <= i < b.hi && tr[i].outcome.severity == e.severity)
      && e.peak <= High(tr, b.lo, b.hi)
      && (e.peak == High(tr, b.lo, b.hi) <==> !SkipsPeak(tr, b.lo, HighAt(tr, b.lo, b.hi)))
    ensures forall i :: b.lo <= i < b.hi && Reading(tr, b.lo, i).Some? ==>
      Reading(tr, b.lo, i).value <= High(tr, b.lo, b.hi)
  {
    LoggedHighFallsShort(tr, b.lo, b.hi);
    HighIsMaximum(tr, b.lo, b.hi);
  }

  function OpenCount(log: seq<EventRow>): nat
  {
    if log == [] then 0
    else
      var n := |log| - 1;
      OpenCount(log[..n]) + (if log[n].ended.None? then 1 else 0)
  }

  lemma {:induction false} NoneOpen(log: seq<EventRow>)
    requires forall k :: 0 <= k < |log| ==> log[k].ended.Some?
    ensures OpenCount(log) == 0
  {
    if log != [] {
      NoneOpen(log[..|log| - 1]);
    }
  }

  lemma OneOpenAtTheEnd(log: seq<EventRow>)
    requires |log| > 0 && log[|log| - 1].ended.None?
    requires forall k :: 0 <= k < |log| - 1 ==> log[k].ended.Some?
    ensures OpenCount(log) == 1
  {
    NoneOpen(log[..|log| - 1]);
  }

  lemma RowOpenIffOngoing(tr: seq<Act>, bs: seq<Block>, log: seq<EventRow>, source: string)
    requires IsTrace(tr) && RowsMatch(tr, bs, log, source)
    ensures forall k :: 0 <= k < |bs| ==> (log[k].ended.None? <==> bs[k].hi == |tr|)
  {
    forall k | 0 <= k < |bs| ensures log[k].ended.None? <==> bs[k].hi == |tr| {
      assert RowMatches(tr, bs[k], source, log[k]);
    }
  }

  lemma MatchedLogHasOneOpenRow(tr: seq<Act>, bs: seq<Block>, v: View, source: string)
    requires IsTrace(tr) && Tidy(tr, bs) && StateMatches(tr, bs, v.state) && RowsMatch(tr, bs, v.log, source)
    ensures OpenCount(v.log) == if RankOf(v.state) > 0 then 1 else 0
    ensures RankOf(v.state) > 0 ==> Ongoing(tr, bs) && v.log[|bs| - 1].ended.None?
  {
    RowOpenIffOngoing(tr, bs, v.log, source);
    if RankOf(v.state) > 0 {
      OneOpenAtTheEnd(v.log);
    } else {
      NoneOpen(v.log);
    }
  }

  lemma {:induction false} StartExactly(tr: seq<Act>, lo: nat, hi: nat)
    requires IsTrace(tr) && lo < hi <= |tr|
    ensures StateStart(tr, lo, hi) == tr[lo].now <==> tr[lo].now != 0 || forall i :: lo < i < hi ==> tr[i].now == 0
    decreases hi
  {
    if hi > lo + 1 {
      StartExactly(tr, lo, hi - 1);
    }
  }

  /** The row of the running alarm. */
  ghost predicate RunningRow(tr: seq<Act>, v: View, lo: nat)
  {
    && |v.log| > 0 && v.log[|v.log| - 1].ended.None? && v.state.Some? && v.state.value.started.Some?
    && lo < |tr| && IsAlarm(tr, Block(lo, |tr|)) && v.log[|v.log| - 1].started == tr[lo].now
    && (v.state.value.started.value == tr[lo].now <==>
          tr[lo].now != 0 || forall i :: lo < i < |tr| ==> tr[i].now == 0)
  }

  lemma OngoingRow(tr: seq<Act>, bs: seq<Block>, v: View, source: string)
    requires IsTrace(tr) && StateMatches(tr, bs, v.state) && RowsMatch(tr, bs, v.log, source)
    requires RankOf(v.state) > 0 && Ongoing(tr, bs) && IsAlarm(tr, bs[|bs| - 1])
    ensures RunningRow(tr, v, bs[|bs| - 1].lo)
  {
    var b := bs[|bs| - 1];
    assert RowMatches(tr, b, source, v.log[|bs| - 1]);
    assert b == Block(b.lo, |tr|);
    StartExactly(tr, b.lo, |tr|);
  }

  lemma OneRowWhileFiring(tr: seq<Act>, bs: seq<Block>, v: View, source: string) returns (lo: nat)
    requires LogMatches(tr, bs, v, source)
    ensures OpenCount(v.log) == if RankOf(v.state) > 0 then 1 else 0
    ensures RankOf(v.state) > 0 ==> RunningRow(tr, v, lo)
  {
    AlarmsAreTidy(tr, bs);
    MatchedLogHasOneOpenRow(tr, bs, v, source);
    lo := 0;
    if RankOf(v.state) > 0 {
      lo := bs[|bs| - 1].lo;
      OngoingRow(tr, bs, v, source);
    }
  }

  /** After any uncut run: one open row while the source fires, none otherwise, and the
      open row is the newest. It starts with the alarm, at verdict lo, and the state's
      start equals it exactly when the clock did not read 0 then, or has read 0 ever
      since. */
  lemma OneOpenRowWhileFiring(acts: seq<Act>, db: Db, source: string) returns (lo: nat)
    requires Reaches(EMPTY_DB, acts, db) && Uncut(acts, source)
    ensures OpenCount(ViewOf(db, source).log) == if RankOf(ViewOf(db, source).state) > 0 then 1 else 0
    ensures RankOf(ViewOf(db, source).state) > 0 ==> RunningRow(Trace(acts, source), ViewOf(db, source), lo)
  {
    var bs := LogIsTheAlarmHistory(acts, db, source);
    lo := OneRowWhileFiring(Trace(acts, source), bs, ViewOf(db, source), source);
  }

  /** The clock-0 case is real: the state's start moves away from the row's. */
  lemma StartsDisagreeAtClockZero()
    ensures exists acts, db ::
      && Reaches(EMPTY_DB, acts, db) && Uncut(acts, "s")
      && RankOf(ViewOf(db, "s").state) > 0
      && |ViewOf(db, "s").log| == 1
      && ViewOf(db, "s").state.value.started != Some(ViewOf(db, "s").log[0].started)
  {
    var a0 := Act("s", 0, 0, Verdict(Warn, Some(1.0), "m"), Done);
    var a1 := Act("s", 5, 5, Verdict(Warn, Some(1.0), "m"), Done);
    var row0 := StateRow(true, Some(0), Some(1.0), "m", 0, Warn);
    var row1 := StateRow(true, Some(5), Some(1.0), "m", 5, Warn);
    var e := EventRow("s", 0, None, 1.0, "m", None, Warn);
    var db0, db1 := Db(map["s" := row0], [e]), Db(map["s" := row1], [e]);
    TwoActs(a0, db0, a1, db1) by {
      assert DbStep(EMPTY_DB, a0, db0);
      assert db0.states["s" := row1] == db1.states;
      assert DbStep(db0, a1, db1);
    }
    assert EventsOf([e], "s") == [e] by { assert [e][..0] == []; }
    assert ViewOf(db1, "s") == View(Some(row1), [e]);
    assert Uncut([a0, a1], "s");
  }

  /** The logged peak can fall short: err at 1.0, then warn at 5.0. */
  lemma DeescalationLosesThePeak()
    ensures exists acts, db ::
      && Reaches(EMPTY_DB, acts, db) && Uncut(acts, "s")
      && |ViewOf(db, "s").log| == 1 && ViewOf(db, "s").log[0].peak == 1.0
      && ViewOf(db, "s").state.Some? && ViewOf(db, "s").state.value.peak == Some(5.0)
  {
    var a0 := Act("s", 3, 3, Verdict(Err, Some(1.0), "m"), Done);
    var a1 := Act("s", 5, 5, Verdict(Warn, Some(5.0), "m"), Done);
    var row0 := StateRow(true, Some(3), Some(1.0), "m", 3, Err);
    var row1 := StateRow(true, Some(3), Some(5.0), "m", 5, Warn);
    var e := EventRow("s", 3, None, 1.0, "m", None, Err);
    var db0, db1 := Db(map["s" := row0], [e]), Db(map["s" := row1], [e]);
    TwoActs(a0, db0, a1, db1) by {
      assert DbStep(EMPTY_DB, a0, db0);
      assert db0.states["s" := row1] == db1.states;
      assert DbStep(db0, a1, db1);
    }
    assert EventsOf([e], "s") == [e] by { assert [e][..0] == []; }
    assert ViewOf(db1, "s") == View(Some(row1), [e]);
    assert Uncut([a0, a1], "s");
  }

  lemma TwoActs(a0: Act, db0: Db, a1: Act, db1: Db)
    requires DbStep(EMPTY_DB, a0, db0) && DbStep(db0, a1, db1)
    ensures Reaches(EMPTY_DB, [a0, a1], db1)
  {
    ReachesSnoc(EMPTY_DB, [], EMPTY_DB, a0, db0);
    ReachesSnoc(EMPTY_DB, [a0], db0, a1, db1) by { assert [] + [a0] == [a0]; }
    assert [a0] + [a1] == [a0, a1];
  }

  ghost predicate ClockMonotone(acts: seq<Act>)
  {
    forall i, j :: 0 <= i < j < |acts| ==> acts[i].now <= acts[j].now
  }

  lemma {:induction false} TraceMonotone(acts: seq<Act>, source: string)
    requires ClockMonotone(acts)
    ensures ClockMonotone(Trace(acts, source))
    ensures forall i :: 0 <= i < |Trace(acts, source)| ==> Trace(acts, source)[i] in acts
  {
    if acts != [] {
      var n := |acts| - 1;
      TraceMonotone(acts[..n], source);
      var before := Trace(acts[..n], source);
      forall i | 0 <= i < |before| ensures before[i] in acts && before[i].now <= acts[n].now {
        var j :| 0 <= j < n && acts[..n][j] == before[i];
      }
    }
  }

  /** With a clock that never runs backwards the rows of a source are ordered,
      non-overlapping intervals. */
  lemma AlarmsDoNotOverlap(acts: seq<Act>, db: Db, source: string)
    requires Reaches(EMPTY_DB, acts, db) && Uncut(acts, source) && ClockMonotone(acts)
    ensures
      var log := ViewOf(db, source).log;
      && (forall k :: 0 <= k < |log| && log[k].ended.Some? ==> log[k].started <= log[k].ended.value)
      && (forall j, k :: 0 <= j < k < |log| ==> log[j].ended.Some? && log[j].ended.value <= log[k].started)
  {
    var tr, log := Trace(acts, source), ViewOf(db, source).log;
    TraceMonotone(acts, source);
    var bs := LogIsTheAlarmHistory(acts, db, source);
    forall k | 0 <= k < |log| && log[k].ended.Some? ensures log[k].started <= log[k].ended.value {
      RowIsAnInterval(tr, bs, log, source, k);
    }
    forall j, k | 0 <= j < k < |log| ensures log[j].ended.Some? && log[j].ended.value <= log[k].started {
      RowsAreOrdered(tr, bs, log, source, j, k);
    }
  }

  lemma RowIsAnInterval(tr: seq<Act>, bs: seq<Block>, log: seq<EventRow>, source: string, k: nat)
    requires IsTrace(tr) && ClockMonotone(tr) && RowsMatch(tr, bs, log, source)
    requires k < |log| && log[k].ended.Some?
    ensures log[k].started <= log[k].ended.value
  {
    assert RowMatches(tr, bs[k], source, log[k]);
    assert tr[bs[k].lo].now <= tr[bs[k].hi].now;
  }

  lemma RowsAreOrdered(tr: seq<Act>, bs: seq<Block>, log: seq<EventRow>, source: string, j: nat, k: nat)
    requires IsTrace(tr) && ClockMonotone(tr) && RowsMatch(tr, bs, log, source) && AreAlarms(tr, bs)
    requires j < k < |log|
    ensures log[j].ended.Some? && log[j].ended.value <= log[k].started
  {
    assert RowMatches(tr, bs[j], source, log[j]) && RowMatches(tr, bs[k], source, log[k]);
    assert tr[bs[j].hi].now <= tr[bs[k].lo].now;
  }
}
