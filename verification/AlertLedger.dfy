/** Runs in which a tick may be cut between the state write and the log write: how
    many rows that leaves open, and which ones; and the append-only discipline of the
    log in every run. */
module AlertLedger {
  import opened Options
  import opened AlertStore
  import opened AlertEngine
  import opened AlertRuns

  // --------------------------------------------------------------- cut runs

  /** Open rows beyond the one a firing state is entitled to. Minus one means the
      row of a firing state is missing. */
  function Excess(v: View): int
  {
    OpenCount(v.log) - (if RankOf(v.state) > 0 then 1 else 0)
  }

  function WasFiring(tr: seq<Act>): bool
  {
    |tr| > 0 && Firing(tr[|tr| - 1])
  }

  /** Interrupted ticks of the trace that should have opened a row. */
  function CutOpens(tr: seq<Act>): nat
  {
    if tr == [] then 0
    else
      var n := |tr| - 1;
      CutOpens(tr[..n]) + (if tr[n].stop.AfterState? && Firing(tr[n]) && !WasFiring(tr[..n]) then 1 else 0)
  }

  /** Interrupted ticks of the trace that should have closed a row. */
  function CutCloses(tr: seq<Act>): nat
  {
    if tr == [] then 0
    else
      var n := |tr| - 1;
      CutCloses(tr[..n]) + (if tr[n].stop.AfterState? && !Firing(tr[n]) && WasFiring(tr[..n]) then 1 else 0)
  }

  lemma LedgerSnoc(tr: seq<Act>, a: Act)
    ensures CutOpens(tr + [a]) == CutOpens(tr) + (if a.stop.AfterState? && Firing(a) && !WasFiring(tr) then 1 else 0)
    ensures CutCloses(tr + [a]) == CutCloses(tr) + (if a.stop.AfterState? && !Firing(a) && WasFiring(tr) then 1 else 0)
  {
    assert (tr + [a])[..|tr|] == tr;
  }

  lemma {:induction false} AmendKeepsOpenCount(log: seq<EventRow>, f: EventRow -> EventRow)
    requires forall e :: f(e).ended == e.ended
    ensures OpenCount(Amend(log, f)) == OpenCount(log)
  {
    if log != [] {
      var n := |log| - 1;
      assert Amend(log, f)[..n] == Amend(log[..n], f);
      AmendKeepsOpenCount(log[..n], f);
    }
  }

  lemma {:induction false} CloseLowersOpenCount(log: seq<EventRow>, k: nat, ended: int, message: string)
    requires k < |log| && log[k].ended.None?
    ensures OpenCount(log[k := Ended(log[k], ended, message)]) == OpenCount(log) - 1
  {
    var n := |log| - 1;
    if k < n {
      assert log[k := Ended(log[k], ended, message)][..n] == log[..n][k := Ended(log[k], ended, message)];
      CloseLowersOpenCount(log[..n], k, ended, message);
    } else {
      assert log[k := Ended(log[k], ended, message)][..n] == log[..n];
    }
  }

  lemma {:induction false} OpenCountIsZeroWithoutOpenRows(log: seq<EventRow>, source: string)
    requires forall k :: 0 <= k < |log| ==> log[k].source == source
    ensures OpenCount(log) > 0 <==> HasOpen(log, source)
  {
    if log != [] {
      var n := |log| - 1;
      OpenCountIsZeroWithoutOpenRows(log[..n], source);
      if HasOpen(log[..n], source) {
        var j :| 0 <= j < n && IsOpen(log[..n][j], source);
        assert IsOpen(log[j], source);
      }
      if HasOpen(log, source) && log[n].ended.Some? {
        var j :| 0 <= j < |log| && IsOpen(log[j], source);
        assert IsOpen(log[..n][j], source);
      }
      if log[n].ended.None? {
        assert IsOpen(log[n], source);
      }
    }
  }

  lemma ClosedCount(log: seq<EventRow>, source: string, ended: int, message: string, after: seq<EventRow>)
    requires Closed(log, source, ended, message, after)
    requires forall k :: 0 <= k < |log| ==> log[k].source == source
    ensures OpenCount(after) == if OpenCount(log) > 0 then OpenCount(log) - 1 else 0
  {
    OpenCountIsZeroWithoutOpenRows(log, source);
    if HasOpen(log, source) {
      var k :| Closable(log, source, k) && after == log[k := Ended(log[k], ended, message)];
      CloseLowersOpenCount(log, k, ended, message);
    }
  }

  /** How one verdict moves the ledger. Only a cut can strand a row; an uncut
      verdict never heals a stranded row, and it forgets a missing one only when
      the alarm clears. */
  lemma ExcessStep(v: View, a: Act, v': View)
    requires a.outcome.Verdict? && ViewStep(v, a, v')
    requires forall k :: 0 <= k < |v.log| ==> v.log[k].source == a.source
    ensures !a.stop.AfterState? ==> Excess(v') == if Excess(v) == -1 && !Firing(a) then 0 else Excess(v)
    ensures a.stop.AfterState? ==>
      Excess(v') == Excess(v) + (if RankOf(v.state) > 0 then 1 else 0) - (if Firing(a) then 1 else 0)
  {
    if !a.stop.AfterState? {
      var newPeak := PeakToLog(v.state, a);
      var raised := RaiseSeverities(v.log, a.source, a.outcome.severity);
      AmendKeepsOpenCount(v.log, e => RaiseSeverity(e, a.source, a.outcome.severity));
      if newPeak.Some? {
        AmendKeepsOpenCount(v.log, e => RaisePeak(e, a.source, newPeak.value));
        AmendKeepsOpenCount(raised, e => RaisePeak(e, a.source, newPeak.value));
      }
      if Firing(a) && RankOf(v.state) == 0 {
        assert v'.log[..|v'.log| - 1] == v.log;
      } else if !Firing(a) && RankOf(v.state) > 0 {
        ClosedCount(v.log, a.source, a.now, a.outcome.message, v'.log);
      }
    }
  }

  /** The excess read off the verdicts alone: a cut takes the difference between the
      row there was to close and the row there was to open, and an uncut clear
      verdict forgets a missing row. */
  function Balance(tr: seq<Act>): int
  {
    if tr == [] then 0
    else
      var n := |tr| - 1;
      var before := Balance(tr[..n]);
      if tr[n].stop.AfterState? then before + (if WasFiring(tr[..n]) then 1 else 0) - (if Firing(tr[n]) then 1 else 0)
      else if before == -1 && !Firing(tr[n]) then 0
      else before
  }

  lemma BalanceStep(tr: seq<Act>, v: View, a: Act, v': View)
    requires a.outcome.Verdict? && ViewStep(v, a, v')
    requires forall k :: 0 <= k < |v.log| ==> v.log[k].source == a.source
    requires (RankOf(v.state) > 0 <==> WasFiring(tr)) && Excess(v) == Balance(tr)
    ensures (RankOf(v'.state) > 0 <==> WasFiring(tr + [a])) && Excess(v') == Balance(tr + [a])
  {
    ExcessStep(v, a, v');
    assert (tr + [a])[..|tr|] == tr;
  }

  /** The ledger after any run, cut or not: the excess of open rows is the balance of
      the verdicts. So a source has its one open row while it fires, and none
      otherwise, exactly when that balance is 0. */
  lemma {:induction false} ExcessIsBalance(acts: seq<Act>, db: Db, source: string)
    requires Reaches(EMPTY_DB, acts, db)
    ensures RankOf(ViewOf(db, source).state) > 0 <==> WasFiring(Trace(acts, source))
    ensures Excess(ViewOf(db, source)) == Balance(Trace(acts, source))
  {
    if acts != [] {
      var n := |acts| - 1;
      var a := acts[n];
      var mid :| Reaches(EMPTY_DB, acts[..n], mid) && DbStep(mid, a, db);
      ExcessIsBalance(acts[..n], mid, source);
      SourcesAreIndependent(mid, a, db, source);
      if a.source == source && a.outcome.Verdict? {
        BalanceStep(Trace(acts[..n], source), ViewOf(mid, source), a, ViewOf(db, source));
      } else {
        assert Trace(acts, source) == Trace(acts[..n], source);
      }
    }
  }

  lemma {:induction false} BalanceIsBounded(tr: seq<Act>)
    ensures 0 - CutOpens(tr) <= Balance(tr) <= CutCloses(tr)
  {
    if tr != [] {
      BalanceIsBounded(tr[..|tr| - 1]);
    }
  }

  /** Open rows lie between the firing state minus the cut opens and the firing state
      plus the cut closes. */
  lemma OpenRowLedger(acts: seq<Act>, db: Db, source: string)
    requires Reaches(EMPTY_DB, acts, db)
    ensures 0 - CutOpens(Trace(acts, source)) <= Excess(ViewOf(db, source)) <= CutCloses(Trace(acts, source))
  {
    ExcessIsBalance(acts, db, source);
    BalanceIsBounded(Trace(acts, source));
  }

  function Interrupted(acts: seq<Act>, source: string): nat
  {
    if acts == [] then 0
    else
      var n := |acts| - 1;
      Interrupted(acts[..n], source) + (if acts[n].source == source && acts[n].stop.AfterState? then 1 else 0)
  }

  lemma {:induction false} CutClosesAreInterruptions(acts: seq<Act>, source: string)
    ensures CutCloses(Trace(acts, source)) <= Interrupted(acts, source)
  {
    if acts != [] {
      var n := |acts| - 1;
      CutClosesAreInterruptions(acts[..n], source);
      if acts[n].source == source && acts[n].outcome.Verdict? {
        LedgerSnoc(Trace(acts[..n], source), acts[n]);
      } else {
        assert Trace(acts, source) == Trace(acts[..n], source);
      }
    }
  }

  /** Each interrupted tick can strand at most one open row. */
  lemma OpenRowsBoundedByInterruptions(acts: seq<Act>, db: Db, source: string)
    requires Reaches(EMPTY_DB, acts, db)
    ensures OpenCount(ViewOf(db, source).log)
            <= (if RankOf(ViewOf(db, source).state) > 0 then 1 else 0) + Interrupted(acts, source)
  {
    OpenRowLedger(acts, db, source);
    CutClosesAreInterruptions(acts, source);
  }

  /** As long as no further tick is cut, the excess of open rows stays what it is.
      Which rows make it up can change. */
  lemma {:induction false} ExcessStays(start: Db, acts: seq<Act>, db: Db, source: string)
    requires Reaches(start, acts, db) && Uncut(acts, source) && Excess(ViewOf(start, source)) >= 0
    ensures Excess(ViewOf(db, source)) == Excess(ViewOf(start, source))
  {
    if acts != [] {
      var n := |acts| - 1;
      var mid :| Reaches(start, acts[..n], mid) && DbStep(mid, acts[n], db);
      ExcessStays(start, acts[..n], mid, source);
      SourcesAreIndependent(mid, acts[n], db, source);
      if acts[n].source == source && acts[n].outcome.Verdict? {
        ExcessStep(ViewOf(mid, source), acts[n], ViewOf(db, source));
      }
    }
  }

  // ------------------------------------------------------- which rows stay open

  function Min(a: int, b: int): int
  {
    if a <= b then a else b
  }

  /** Open rows that started before t. */
  function OpenBefore(log: seq<EventRow>, t: int): nat
  {
    if log == [] then 0
    else
      var n := |log| - 1;
      OpenBefore(log[..n], t) + (if log[n].ended.None? && log[n].started < t then 1 else 0)
  }

  /** Alarms that began before t. */
  function AlarmsBefore(was: bool, tr: seq<Act>, t: int): nat
  {
    if tr == [] then 0
    else
      var n := |tr| - 1;
      AlarmsBefore(was, tr[..n], t) + (if Opens(was, tr, n) && tr[n].now < t then 1 else 0)
  }

  /** Whether the source fires after the verdicts; `was` says whether it did before. */
  predicate FiresAfter(was: bool, tr: seq<Act>)
  {
    if tr == [] then was else Firing(tr[|tr| - 1])
  }

  /** The verdict at i begins an alarm. */
  predicate Opens(was: bool, tr: seq<Act>, i: nat)
    requires i < |tr|
  {
    Firing(tr[i]) && !FiresAfter(was, tr[..i])
  }

  lemma {:induction false} AmendKeepsOpenBefore(log: seq<EventRow>, f: EventRow -> EventRow, t: int)
    requires forall e :: f(e).ended == e.ended && f(e).started == e.started
    ensures OpenBefore(Amend(log, f), t) == OpenBefore(log, t)
  {
    if log != [] {
      var n := |log| - 1;
      assert Amend(log, f)[..n] == Amend(log[..n], f);
      AmendKeepsOpenBefore(log[..n], f, t);
    }
  }

  lemma {:induction false} CloseLowersOpenBefore(log: seq<EventRow>, k: nat, ended: int, message: string, t: int)
    requires k < |log| && log[k].ended.None?
    ensures OpenBefore(log[k := Ended(log[k], ended, message)], t)
         == OpenBefore(log, t) - if log[k].started < t then 1 else 0
  {
    var n := |log| - 1;
    if k < n {
      assert log[k := Ended(log[k], ended, message)][..n] == log[..n][k := Ended(log[k], ended, message)];
      CloseLowersOpenBefore(log[..n], k, ended, message, t);
    } else {
      assert log[k := Ended(log[k], ended, message)][..n] == log[..n];
    }
  }

  lemma {:induction false} AllOpenBefore(log: seq<EventRow>, t: int)
    ensures OpenBefore(log, t) <= OpenCount(log)
    ensures OpenBefore(log, t) == OpenCount(log) <==>
      forall k :: 0 <= k < |log| && log[k].ended.None? ==> log[k].started < t
  {
    if log != [] {
      AllOpenBefore(log[..|log| - 1], t);
    }
  }

  /** Closing takes a latest start away. */
  lemma ClosedBefore(log: seq<EventRow>, source: string, ended: int, message: string, after: seq<EventRow>, t: int)
    requires Closed(log, source, ended, message, after) && OpenCount(log) > 0
    requires forall k :: 0 <= k < |log| ==> log[k].source == source
    ensures OpenBefore(after, t) == Min(OpenCount(log) - 1, OpenBefore(log, t))
  {
    OpenCountIsZeroWithoutOpenRows(log, source);
    var k :| Closable(log, source, k) && after == log[k := Ended(log[k], ended, message)];
    CloseLowersOpenBefore(log, k, ended, message, t);
    AllOpenBefore(log, t);
    if log[k].started < t {
      forall j | 0 <= j < |log| && log[j].ended.None? ensures log[j].started < t {
        assert IsOpen(log[j], source);
      }
    }
  }

  lemma AmendedBefore(log: seq<EventRow>, v: View, a: Act, v': View, t: int)
    requires a.outcome.Verdict? && !a.stop.AfterState? && ViewStep(v, a, v') && log == v.log
    requires Firing(a) && RankOf(v.state) > 0
    ensures OpenBefore(v'.log, t) == OpenBefore(log, t)
  {
    var newPeak := PeakToLog(v.state, a);
    var raised := RaiseSeverities(log, a.source, a.outcome.severity);
    AmendKeepsOpenBefore(log, e => RaiseSeverity(e, a.source, a.outcome.severity), t);
    if newPeak.Some? {
      AmendKeepsOpenBefore(log, e => RaisePeak(e, a.source, newPeak.value), t);
      AmendKeepsOpenBefore(raised, e => RaisePeak(e, a.source, newPeak.value), t);
    }
  }

  lemma OpenedBefore(v: View, a: Act, v': View, t: int)
    requires a.outcome.Verdict? && !a.stop.AfterState? && ViewStep(v, a, v')
    requires Firing(a) && RankOf(v.state) == 0
    ensures OpenBefore(v'.log, t) == OpenBefore(v.log, t) + if a.now < t then 1 else 0
  {
    assert v'.log[..|v'.log| - 1] == v.log;
  }

  lemma OpenBeforeStep(v: View, a: Act, v': View, t: int)
    requires a.outcome.Verdict? && !a.stop.AfterState? && ViewStep(v, a, v') && Excess(v) >= 0
    requires forall k :: 0 <= k < |v.log| ==> v.log[k].source == a.source
    ensures Firing(a) && RankOf(v.state) == 0 ==>
      OpenBefore(v'.log, t) == OpenBefore(v.log, t) + if a.now < t then 1 else 0
    ensures !Firing(a) && RankOf(v.state) > 0 ==> OpenBefore(v'.log, t) == Min(Excess(v), OpenBefore(v.log, t))
    ensures (Firing(a) <==> RankOf(v.state) > 0) ==> OpenBefore(v'.log, t) == OpenBefore(v.log, t)
  {
    if Firing(a) && RankOf(v.state) == 0 {
      OpenedBefore(v, a, v', t);
    } else if Firing(a) {
      AmendedBefore(v.log, v, a, v', t);
    } else if RankOf(v.state) > 0 {
      ClosedBefore(v.log, a.source, a.now, a.outcome.message, v'.log, t);
    }
  }

  lemma AlarmsSnoc(was: bool, tr: seq<Act>, a: Act, t: int)
    ensures AlarmsBefore(was, tr + [a], t) == AlarmsBefore(was, tr, t)
      + if Firing(a) && !FiresAfter(was, tr) && a.now < t then 1 else 0
  {
    assert (tr + [a])[..|tr|] == tr;
  }

  /** What a run without cuts keeps: `before` open rows started before t when it began. */
  ghost predicate KeepsEarliest(v: View, was: bool, tr: seq<Act>, excess: int, before: nat, t: int)
  {
    && (RankOf(v.state) > 0 <==> FiresAfter(was, tr))
    && Excess(v) == excess
    && Min(excess, OpenBefore(v.log, t)) == Min(excess, before + AlarmsBefore(was, tr, t))
  }

  lemma KeepsEarliestStep(v: View, a: Act, v': View, was: bool, tr: seq<Act>, excess: nat, before: nat, t: int)
    requires a.outcome.Verdict? && !a.stop.AfterState? && ViewStep(v, a, v')
    requires forall k :: 0 <= k < |v.log| ==> v.log[k].source == a.source
    requires KeepsEarliest(v, was, tr, excess, before, t)
    ensures KeepsEarliest(v', was, tr + [a], excess, before, t)
  {
    ExcessStep(v, a, v');
    OpenBeforeStep(v, a, v', t);
    AlarmsSnoc(was, tr, a, t);
  }

  /** Through any run without a further cut, each alarm adds its row and its end takes
      a latest-started row away: counted up to the excess, the open rows that started
      before t are those there were and the alarms that began before t. */
  lemma {:induction false} EarliestStayOpen(start: Db, acts: seq<Act>, db: Db, source: string, t: int)
    requires Reaches(start, acts, db) && Uncut(acts, source) && Excess(ViewOf(start, source)) >= 0
    ensures
      var v := ViewOf(start, source);
      KeepsEarliest(ViewOf(db, source), RankOf(v.state) > 0, Trace(acts, source), Excess(v), OpenBefore(v.log, t), t)
  {
    if acts != [] {
      var n := |acts| - 1;
      var a, v := acts[n], ViewOf(start, source);
      var mid :| Reaches(start, acts[..n], mid) && DbStep(mid, a, db);
      EarliestStayOpen(start, acts[..n], mid, source, t);
      SourcesAreIndependent(mid, a, db, source);
      if a.source == source && a.outcome.Verdict? {
        KeepsEarliestStep(ViewOf(mid, source), a, ViewOf(db, source), RankOf(v.state) > 0, Trace(acts[..n], source),
                          Excess(v), OpenBefore(v.log, t), t);
      } else {
        assert Trace(acts, source) == Trace(acts[..n], source);
      }
    }
  }

  lemma {:induction false} AlarmIsBefore(was: bool, tr: seq<Act>, t: int)
    ensures AlarmsBefore(was, tr, t) > 0 <==> exists i :: 0 <= i < |tr| && Opens(was, tr, i) && tr[i].now < t
  {
    if tr != [] {
      var n := |tr| - 1;
      AlarmIsBefore(was, tr[..n], t);
      if i :| 0 <= i < |tr| && Opens(was, tr, i) && tr[i].now < t {
        assert i < n ==> Opens(was, tr[..n], i) by { assert tr[..n][..i] == tr[..i]; }
      }
      if i :| 0 <= i < n && Opens(was, tr[..n], i) && tr[..n][i].now < t {
        assert Opens(was, tr, i) by { assert tr[..n][..i] == tr[..i]; }
      }
    }
  }

  /** The open rows have the same starts. */
  ghost predicate SameStarts(older: seq<EventRow>, newer: seq<EventRow>)
  {
    forall t :: OpenBefore(newer, t) == OpenBefore(older, t)
  }

  /** Row k is open and started after the alarm that begins at i. */
  predicate BeginsBefore(tr: seq<Act>, i: nat, log: seq<EventRow>, k: nat)
    requires i < |tr| && k < |log|
  {
    Opens(false, tr, i) && log[k].ended.None? && tr[i].now < log[k].started
  }

  ghost predicate SomeAlarmBeginsBefore(tr: seq<Act>, log: seq<EventRow>)
  {
    exists i, k :: 0 <= i < |tr| && 0 <= k < |log| && BeginsBefore(tr, i, log, k)
  }

  lemma ClearKeeps(v: View, tr: seq<Act>, excess: nat, before: nat, t: int)
    requires KeepsEarliest(v, false, tr, excess, before, t) && RankOf(v.state) == 0
    ensures OpenBefore(v.log, t) == Min(excess, before + AlarmsBefore(false, tr, t))
  {
    AllOpenBefore(v.log, t);
  }

  lemma OpenBeforeLaw(
    start: Db, acts: seq<Act>, db: Db, source: string, older: View, newer: View, tr: seq<Act>, t: int)
    requires Reaches(start, acts, db) && Uncut(acts, source)
    requires older == ViewOf(start, source) && newer == ViewOf(db, source) && tr == Trace(acts, source)
    requires RankOf(older.state) == 0 == RankOf(newer.state)
    ensures OpenBefore(newer.log, t) == Min(OpenCount(older.log), OpenBefore(older.log, t) + AlarmsBefore(false, tr, t))
  {
    EarliestStayOpen(start, acts, db, source, t);
    assert Excess(older) == OpenCount(older.log);
    ClearKeeps(newer, tr, OpenCount(older.log), OpenBefore(older.log, t), t);
  }

  lemma SameBefore(older: seq<EventRow>, tr: seq<Act>, t: int)
    requires !SomeAlarmBeginsBefore(tr, older)
    ensures Min(OpenCount(older), OpenBefore(older, t) + AlarmsBefore(false, tr, t)) == OpenBefore(older, t)
  {
    AllOpenBefore(older, t);
    AlarmIsBefore(false, tr, t);
    if i :| 0 <= i < |tr| && Opens(false, tr, i) && tr[i].now < t {
      forall k | 0 <= k < |older| && older[k].ended.None? ensures older[k].started < t {
        assert !BeginsBefore(tr, i, older, k);
      }
    }
  }

  lemma DifferentBefore(older: seq<EventRow>, tr: seq<Act>, i: nat, k: nat)
    requires i < |tr| && k < |older| && BeginsBefore(tr, i, older, k)
    ensures
      var t := tr[i].now + 1;
      Min(OpenCount(older), OpenBefore(older, t) + AlarmsBefore(false, tr, t)) != OpenBefore(older, t)
  {
    var t := tr[i].now + 1;
    AllOpenBefore(older, t);
    AlarmIsBefore(false, tr, t);
  }

  /** Between two clear states, with no cut in between, the starts of the stranded rows
      are what they were if and only if no alarm began before any of them. */
  lemma StrandedStartsExactly(start: Db, acts: seq<Act>, db: Db, source: string)
    requires Reaches(start, acts, db) && Uncut(acts, source)
    requires RankOf(ViewOf(start, source).state) == 0 == RankOf(ViewOf(db, source).state)
    ensures SameStarts(ViewOf(start, source).log, ViewOf(db, source).log) <==>
      !SomeAlarmBeginsBefore(Trace(acts, source), ViewOf(start, source).log)
  {
    var older, newer, tr := ViewOf(start, source), ViewOf(db, source), Trace(acts, source);
    if i, k :| 0 <= i < |tr| && 0 <= k < |older.log| && BeginsBefore(tr, i, older.log, k) {
      OpenBeforeLaw(start, acts, db, source, older, newer, tr, tr[i].now + 1);
      DifferentBefore(older.log, tr, i, k);
    } else {
      forall t ensures OpenBefore(newer.log, t) == OpenBefore(older.log, t) {
        OpenBeforeLaw(start, acts, db, source, older, newer, tr, t);
        SameBefore(older.log, tr, t);
      }
    }
  }

  /** Row p is open with this start, and while the source fires it is not the latest. */
  ghost predicate Survives(v: View, p: nat, started: int)
  {
    && p < |v.log| && v.log[p].ended.None? && v.log[p].started == started
    && (RankOf(v.state) > 0 ==> LaterOpen(v.log, started))
  }

  ghost predicate LaterOpen(log: seq<EventRow>, started: int)
  {
    exists j :: 0 <= j < |log| && log[j].ended.None? && log[j].started > started
  }

  lemma AmendedSurvives(log: seq<EventRow>, f: EventRow -> EventRow, p: nat, started: int)
    requires forall e :: f(e).ended == e.ended && f(e).started == e.started
    requires p < |log| && log[p].ended.None? && log[p].started == started && LaterOpen(log, started)
    ensures Amend(log, f)[p].ended.None? && Amend(log, f)[p].started == started && LaterOpen(Amend(log, f), started)
  {
    var j :| 0 <= j < |log| && log[j].ended.None? && log[j].started > started;
    assert Amend(log, f)[j].ended.None? && Amend(log, f)[j].started > started;
  }

  lemma FiringSurvives(v: View, a: Act, v': View, p: nat, started: int)
    requires a.outcome.Verdict? && !a.stop.AfterState? && ViewStep(v, a, v')
    requires Firing(a) && RankOf(v.state) > 0 && Survives(v, p, started)
    ensures Survives(v', p, started)
  {
    var newPeak := PeakToLog(v.state, a);
    var raised := RaiseSeverities(v.log, a.source, a.outcome.severity);
    AmendedSurvives(v.log, e => RaiseSeverity(e, a.source, a.outcome.severity), p, started);
    if newPeak.Some? {
      AmendedSurvives(v.log, e => RaisePeak(e, a.source, newPeak.value), p, started);
      AmendedSurvives(raised, e => RaisePeak(e, a.source, newPeak.value), p, started);
    }
  }

  lemma CloseSurvives(v: View, a: Act, v': View, p: nat, started: int)
    requires a.outcome.Verdict? && !a.stop.AfterState? && ViewStep(v, a, v')
    requires forall k :: 0 <= k < |v.log| ==> v.log[k].source == a.source
    requires !Firing(a) && RankOf(v.state) > 0 && Survives(v, p, started)
    ensures Survives(v', p, started)
  {
    assert IsOpen(v.log[p], a.source);
    var j :| 0 <= j < |v.log| && v.log[j].ended.None? && v.log[j].started > started;
    var k :| Closable(v.log, a.source, k) && v'.log == v.log[k := Ended(v.log[k], a.now, a.outcome.message)];
    assert IsOpen(v.log[j], a.source);
  }

  lemma SurvivesStep(v: View, a: Act, v': View, p: nat, started: int)
    requires a.outcome.Verdict? && !a.stop.AfterState? && ViewStep(v, a, v')
    requires forall k :: 0 <= k < |v.log| ==> v.log[k].source == a.source
    requires Survives(v, p, started) && (Firing(a) && RankOf(v.state) == 0 ==> started < a.now)
    ensures Survives(v', p, started)
  {
    if RankOf(v.state) > 0 {
      if Firing(a) {
        FiringSurvives(v, a, v', p, started);
      } else {
        CloseSurvives(v, a, v', p, started);
      }
    } else if Firing(a) {
      assert v'.log[|v.log|].started == a.now;
    }
  }

  ghost predicate AlarmsBeginAfter(was: bool, tr: seq<Act>, started: int)
  {
    forall i :: 0 <= i < |tr| && Opens(was, tr, i) ==> started < tr[i].now
  }

  lemma BeginAfterFront(was: bool, tr: seq<Act>, a: Act, started: int)
    requires AlarmsBeginAfter(was, tr + [a], started)
    ensures AlarmsBeginAfter(was, tr, started)
    ensures Firing(a) && !FiresAfter(was, tr) ==> started < a.now
  {
    var longer := tr + [a];
    forall i | 0 <= i < |tr| && Opens(was, tr, i) ensures started < tr[i].now {
      assert longer[..i] == tr[..i] && Opens(was, longer, i);
    }
    assert longer[..|tr|] == tr && longer[|tr|] == a;
    assert Firing(a) && !FiresAfter(was, tr) ==> Opens(was, longer, |tr|);
  }

  /** Row p outlasts the verdicts. */
  ghost predicate Outlasts(v: View, was: bool, tr: seq<Act>, p: nat, started: int)
  {
    (RankOf(v.state) > 0 <==> FiresAfter(was, tr)) && Survives(v, p, started)
  }

  lemma OutlastsStep(v: View, a: Act, v': View, was: bool, tr: seq<Act>, p: nat, started: int)
    requires a.outcome.Verdict? && !a.stop.AfterState? && ViewStep(v, a, v')
    requires forall k :: 0 <= k < |v.log| ==> v.log[k].source == a.source
    requires AlarmsBeginAfter(was, tr + [a], started)
    requires AlarmsBeginAfter(was, tr, started) ==> Outlasts(v, was, tr, p, started)
    ensures Outlasts(v', was, tr + [a], p, started)
  {
    BeginAfterFront(was, tr, a, started);
    SurvivesStep(v, a, v', p, started);
  }

  lemma {:induction false} RowOutlasts(
    start: Db, acts: seq<Act>, db: Db, source: string, was: bool, p: nat, started: int)
    requires Reaches(start, acts, db) && Uncut(acts, source)
    requires (RankOf(ViewOf(start, source).state) > 0 <==> was) && Survives(ViewOf(start, source), p, started)
    ensures AlarmsBeginAfter(was, Trace(acts, source), started) ==>
      Outlasts(ViewOf(db, source), was, Trace(acts, source), p, started)
  {
    if acts != [] {
      var n := |acts| - 1;
      var mid :| Reaches(start, acts[..n], mid) && DbStep(mid, acts[n], db);
      RowOutlasts(start, acts[..n], mid, source, was, p, started);
      SourcesAreIndependent(mid, acts[n], db, source);
      if acts[n].source == source && acts[n].outcome.Verdict? {
        if AlarmsBeginAfter(was, Trace(acts, source), started) {
          OutlastsStep(ViewOf(mid, source), acts[n], ViewOf(db, source), was, Trace(acts[..n], source), p, started);
        }
      } else {
        assert Trace(acts, source) == Trace(acts[..n], source);
      }
    }
  }

  /** A stranded row is never closed, and stays that very row, as long as no further
      tick is cut and every later alarm begins after it did. */
  lemma StrandedRowStays(start: Db, acts: seq<Act>, db: Db, source: string, p: nat)
    requires Reaches(start, acts, db) && Uncut(acts, source)
    requires p < |ViewOf(start, source).log| && RankOf(ViewOf(start, source).state) == 0
    requires
      var row := ViewOf(start, source).log[p];
      row.ended.None? && AlarmsBeginAfter(false, Trace(acts, source), row.started)
    ensures p < |ViewOf(db, source).log|
    ensures
      var row, row' := ViewOf(start, source).log[p], ViewOf(db, source).log[p];
      row'.ended.None? && row'.started == row.started
  {
    RowOutlasts(start, acts, db, source, false, p, ViewOf(start, source).log[p].started);
  }

  // --------------------------------------------------- the log is append-only

  lemma StepContinues(db: Db, act: Act, after: Db)
    requires DbStep(db, act, after)
    ensures Continues(db.events, after.events)
  {
  }

  /** Over any run, cut or not: no row is lost, a closed row never changes, and
      an open row keeps its start while its severity and peak only rise. */
  lemma {:induction false} ClosedRowsAreFrozen(start: Db, acts: seq<Act>, db: Db)
    requires Reaches(start, acts, db)
    ensures Continues(start.events, db.events)
  {
    if acts != [] {
      var n := |acts| - 1;
      var mid :| Reaches(start, acts[..n], mid) && DbStep(mid, acts[n], db);
      ClosedRowsAreFrozen(start, acts[..n], mid);
      StepContinues(mid, acts[n], db);
      forall i | 0 <= i < |start.events| ensures RowContinues(start.events[i], db.events[i]) {
        assert RowContinues(start.events[i], mid.events[i]) && RowContinues(mid.events[i], db.events[i]);
      }
    }
  }

  // ------------------------------------------------------------ concrete runs

  function Warning(now: int, stop: Stop): Act
  {
    Act("s", now, now, Verdict(Warn, Some(1.0), "m"), stop)
  }

  function Clearing(now: int, stop: Stop): Act
  {
    Act("s", now, now, Verdict(Clear, Some(0.0), "m"), stop)
  }

  function OpenRow(started: int): EventRow
  {
    EventRow("s", started, None, 1.0, "m", None, Warn)
  }

  function Warned(started: int, log: seq<EventRow>): Db
  {
    Db(map["s" := StateRow(true, Some(started), Some(1.0), "m", started, Warn)], log)
  }

  function Cleared(now: int, log: seq<EventRow>): Db
  {
    Db(map["s" := StateRow(false, None, Some(0.0), "m", now, Clear)], log)
  }

  lemma WarningOpens(db: Db, now: int, log: seq<EventRow>)
    requires db == EMPTY_DB || exists before :: db == Cleared(before, log)
    requires log == db.events
    ensures DbStep(db, Warning(now, Done), Warned(now, log + [OpenRow(now)]))
    ensures DbStep(db, Warning(now, AfterState), Warned(now, log))
  {
    assert db.states["s" := Warned(now, log).states["s"]] == Warned(now, log).states;
  }

  lemma ClearingCut(started: int, now: int, log: seq<EventRow>)
    ensures DbStep(Warned(started, log), Clearing(now, AfterState), Cleared(now, log))
  {
    assert Warned(started, log).states["s" := Cleared(now, log).states["s"]] == Cleared(now, log).states;
  }

  lemma ClearingCloses(started: int, now: int, log: seq<EventRow>, k: nat)
    requires Closable(log, "s", k)
    ensures DbStep(Warned(started, log), Clearing(now, Done), Cleared(now, log[k := Ended(log[k], now, "m")]))
  {
    assert Warned(started, log).states["s" := Cleared(now, log).states["s"]] == Cleared(now, log).states;
    assert Closed(log, "s", now, "m", log[k := Ended(log[k], now, "m")]);
  }

  lemma Stranded(now: int, cut: int)
    ensures Reaches(EMPTY_DB, [Warning(now, Done), Clearing(cut, AfterState)], Cleared(cut, [OpenRow(now)]))
  {
    WarningOpens(EMPTY_DB, now, []);
    assert [] + [OpenRow(now)] == [OpenRow(now)];
    ClearingCut(now, cut, [OpenRow(now)]);
    TwoActs(Warning(now, Done), Warned(now, [OpenRow(now)]), Clearing(cut, AfterState), Cleared(cut, [OpenRow(now)]));
  }

  lemma TwoMore(acts: seq<Act>, db: Db, a: Act, mid: Db, b: Act, after: Db)
    requires Reaches(EMPTY_DB, acts, db) && DbStep(db, a, mid) && DbStep(mid, b, after)
    ensures Reaches(EMPTY_DB, acts + [a, b], after)
  {
    ReachesSnoc(EMPTY_DB, acts, db, a, mid);
    ReachesSnoc(EMPTY_DB, acts + [a], mid, b, after);
    assert acts + [a] + [b] == acts + [a, b];
  }

  /** A stranded row exists: a warning, then a clear verdict cut before its log write,
      leaves a clear state and an open row. */
  lemma CutCloseStrandsARow(now: int, cut: int)
    ensures Reaches(EMPTY_DB, [Warning(now, Done), Clearing(cut, AfterState)], Cleared(cut, [OpenRow(now)]))
    ensures ViewOf(Cleared(cut, [OpenRow(now)]), "s").log == [OpenRow(now)]
    ensures Excess(ViewOf(Cleared(cut, [OpenRow(now)]), "s")) == 1
  {
    Stranded(now, cut);
    assert [OpenRow(now)][..0] == [];
    assert EventsOf([OpenRow(now)], "s") == [OpenRow(now)];
    assert OpenCount([OpenRow(now)]) == 1;
  }

  /** A later alarm whose opening is cut closes the stranded row instead of its own:
      one row spans two alarms and the clear time between them. */
  lemma CutAlarmClosesAStrandedRow()
    ensures Reaches(EMPTY_DB,
      [Warning(3, Done), Clearing(5, AfterState)] + [Warning(7, AfterState), Clearing(9, Done)],
      Cleared(9, [Ended(OpenRow(3), 9, "m")]))
  {
    var log := [OpenRow(3)];
    Stranded(3, 5);
    WarningOpens(Cleared(5, log), 7, log);
    assert Closable(log, "s", 0);
    ClearingCloses(7, 9, log, 0);
    assert log[0 := Ended(log[0], 9, "m")] == [Ended(OpenRow(3), 9, "m")];
    TwoMore([Warning(3, Done), Clearing(5, AfterState)], Cleared(5, log), Warning(7, AfterState), Warned(7, log),
            Clearing(9, Done), Cleared(9, [Ended(OpenRow(3), 9, "m")]));
  }

  /** After the clock stepped back an alarm's end closes the stranded row, before that
      row's own start, and leaves the alarm's row open. */
  lemma SteppedClockClosesAStrandedRow()
    ensures Reaches(EMPTY_DB,
      [Warning(10, Done), Clearing(11, AfterState)] + [Warning(5, Done), Clearing(6, Done)],
      Cleared(6, [Ended(OpenRow(10), 6, "m"), OpenRow(5)]))
  {
    var log, both := [OpenRow(10)], [OpenRow(10), OpenRow(5)];
    var after := [Ended(OpenRow(10), 6, "m"), OpenRow(5)];
    Stranded(10, 11);
    WarningOpens(Cleared(11, log), 5, log);
    assert log + [OpenRow(5)] == both;
    assert DbStep(Warned(5, both), Clearing(6, Done), Cleared(6, after)) by {
      assert Closable(both, "s", 0);
      ClearingCloses(5, 6, both, 0);
      assert both[0 := Ended(both[0], 6, "m")] == after;
    }
    TwoMore([Warning(10, Done), Clearing(11, AfterState)], Cleared(11, log), Warning(5, Done), Warned(5, both),
            Clearing(6, Done), Cleared(6, after));
  }
}
