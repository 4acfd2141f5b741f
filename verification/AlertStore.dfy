/** The two tables of web-platform/backend/services/alerts_state_store.py:
    one state row per source, rewritten on every tick, and an append-only log
    of alarms whose open rows are amended in place.

    The row with id k is events[k - 1]: ids grow by one and rows are never
    deleted. Each method is one SQLite transaction. */
module AlertStore {
  import opened Options

  datatype Severity = Clear | Warn | Err

  function Rank(s: Severity): nat
  {
    match s
    case Clear => 0
    case Warn => 1
    case Err => 2
  }

  datatype StateRow = StateRow(
    firing: bool, started: Option<int>, peak: Option<real>, message: string,
    updated: int, severity: Severity)

  datatype EventRow = EventRow(
    source: string, started: int, ended: Option<int>, peak: real,
    openMessage: string, closeMessage: Option<string>, severity: Severity)

  /** The whole database as a value. */
  datatype Db = Db(states: map<string, StateRow>, events: seq<EventRow>)

  predicate IsOpen(e: EventRow, source: string)
  {
    e.source == source && e.ended.None?
  }

  // ------------------------------------------------------- row-level amendments

  function RaiseSeverity(e: EventRow, source: string, severity: Severity): EventRow
  {
    if e.source == source && e.ended.None? && Rank(e.severity) < Rank(severity)
    then e.(severity := severity) else e
  }

  function RaisePeak(e: EventRow, source: string, value: real): EventRow
  {
    if e.source == source && e.ended.None? && e.peak < value
    then e.(peak := value) else e
  }

  function Amend(events: seq<EventRow>, f: EventRow -> EventRow): (r: seq<EventRow>)
    ensures |r| == |events|
    ensures forall i :: 0 <= i < |r| ==> r[i] == f(events[i])
  {
    seq(|events|, i requires 0 <= i < |events| => f(events[i]))
  }

  /** Row k is an open row of the source and none of its open rows started
      later: what `ORDER BY started_ts DESC LIMIT 1` may return. SQL leaves
      ties to the engine, so several rows can qualify. */
  predicate Closable(events: seq<EventRow>, source: string, k: int)
  {
    && 0 <= k < |events| && IsOpen(events[k], source)
    && forall j :: 0 <= j < |events| && IsOpen(events[j], source) ==> events[j].started <= events[k].started
  }

  function Ended(e: EventRow, ended: int, message: string): EventRow
  {
    e.(ended := Some(ended), closeMessage := Some(message))
  }

  predicate HasOpen(events: seq<EventRow>, source: string)
  {
    exists j :: 0 <= j < |events| && IsOpen(events[j], source)
  }

  ghost predicate Closed(events: seq<EventRow>, source: string, ended: int, message: string, after: seq<EventRow>)
  {
    if !HasOpen(events, source) then after == events
    else exists k :: Closable(events, source, k) && after == events[k := Ended(events[k], ended, message)]
  }

  // ----------------------------------------------------------------- the store

  class AlertStateStore {
    var states: map<string, StateRow>
    var events: seq<EventRow>

    ghost function View(): Db
      reads this
    {
      Db(states, events)
    }

    constructor ()
      ensures View() == Db(map[], [])
    {
      states, events := map[], [];
    }

    method GetState(source: string) returns (row: Option<StateRow>)
      ensures row == if source in states then Some(states[source]) else None
    {
      row := if source in states then Some(states[source]) else None;
    }

    method SetState(source: string, row: StateRow)
      modifies this`states
      ensures states == old(states)[source := row]
    {
      states := states[source := row];
    }

    method OpenEvent(source: string, started: int, value: real, message: string, severity: Severity)
      returns (id: nat)
      modifies this`events
      ensures events == old(events) + [EventRow(source, started, None, value, message, None, severity)]
      ensures id == |events|
    {
      events := events + [EventRow(source, started, None, value, message, None, severity)];
      id := |events|;
    }

    method UpdateSeverity(source: string, severity: Severity)
      modifies this`events
      ensures events == Amend(old(events), e => RaiseSeverity(e, source, severity))
    {
      events := Amend(events, e => RaiseSeverity(e, source, severity));
    }

    method UpdatePeak(source: string, value: real)
      modifies this`events
      ensures events == Amend(old(events), e => RaisePeak(e, source, value))
    {
      events := Amend(events, e => RaisePeak(e, source, value));
    }

    /** Closes one of the most recently started open rows of the source. */
    method CloseEvent(source: string, ended: int, message: string)
      modifies this`events
      ensures Closed(old(events), source, ended, message, events)
    {
      if HasOpen(events, source) {
        LatestOpenExists(events, source);
        var k :| 0 <= k < |events| && Closable(events, source, k);
        events := events[k := Ended(events[k], ended, message)];
      }
    }
  }

  lemma LatestOpenExists(events: seq<EventRow>, source: string)
    requires HasOpen(events, source)
    ensures exists k :: Closable(events, source, k)
  {
    var k :| 0 <= k < |events| && IsOpen(events[k], source);
    for i := 0 to |events|
      invariant 0 <= k < |events| && IsOpen(events[k], source)
      invariant forall m :: 0 <= m < i && IsOpen(events[m], source) ==> events[m].started <= events[k].started
    {
      if IsOpen(events[i], source) && events[i].started > events[k].started {
        k := i;
      }
    }
    assert Closable(events, source, k);
  }

  // -------------------------------------------------- the log only ever grows

  /** Later is a continuation of earlier: rows keep their identity, closed rows
      are frozen, and open rows only get worse or closed. */
  ghost predicate Continues(earlier: seq<EventRow>, later: seq<EventRow>)
  {
    && |earlier| <= |later|
    && forall i :: 0 <= i < |earlier| ==> RowContinues(earlier[i], later[i])
  }

  ghost predicate RowContinues(a: EventRow, b: EventRow)
  {
    && a.source == b.source && a.started == b.started && a.openMessage == b.openMessage
    && a.peak <= b.peak && Rank(a.severity) <= Rank(b.severity)
    && (a.ended.Some? ==> a == b)
  }

  // -------------------------------------------------- the rows of one source

  function EventsOf(events: seq<EventRow>, source: string): (r: seq<EventRow>)
    ensures forall i :: 0 <= i < |r| ==> r[i].source == source
  {
    if events == [] then []
    else
      var n := |events| - 1;
      EventsOf(events[..n], source) + (if events[n].source == source then [events[n]] else [])
  }

  lemma {:induction false} EventsOfAmend(events: seq<EventRow>, f: EventRow -> EventRow, source: string)
    requires forall e :: f(e).source == e.source
    ensures EventsOf(Amend(events, f), source) == Amend(EventsOf(events, source), f)
  {
    if events != [] {
      var n := |events| - 1;
      assert Amend(events, f)[..n] == Amend(events[..n], f);
      EventsOfAmend(events[..n], f, source);
    }
  }

  lemma {:induction false} EventsOfUpdateOther(events: seq<EventRow>, k: nat, e: EventRow, source: string)
    requires k < |events| && e.source == events[k].source != source
    ensures EventsOf(events[k := e], source) == EventsOf(events, source)
  {
    var n := |events| - 1;
    if k == n {
      assert events[k := e][..n] == events[..n];
    } else {
      assert events[k := e][..n] == events[..n][k := e];
      EventsOfUpdateOther(events[..n], k, e, source);
    }
  }

  /** Row k of the log is the p-th row of its source. */
  lemma {:induction false} EventsOfUpdate(events: seq<EventRow>, k: nat, e: EventRow, source: string) returns (p: nat)
    requires k < |events| && e.source == events[k].source == source
    ensures p < |EventsOf(events, source)| && EventsOf(events, source)[p] == events[k]
    ensures EventsOf(events[k := e], source) == EventsOf(events, source)[p := e]
  {
    var n := |events| - 1;
    var updated := events[k := e];
    if k == n {
      assert updated[..n] == events[..n];
      p := |EventsOf(events[..n], source)|;
    } else {
      assert updated[..n] == events[..n][k := e] && updated[n] == events[n];
      p := EventsOfUpdate(events[..n], k, e, source);
    }
  }

  lemma {:induction false} EventsOfOrigin(events: seq<EventRow>, source: string, e: EventRow)
    requires e in EventsOf(events, source)
    ensures e in events
  {
    var n := |events| - 1;
    if e in EventsOf(events[..n], source) {
      EventsOfOrigin(events[..n], source, e);
    }
  }

  /** Closing a row in the full log is closing a row in the source's own log. */
  lemma EventsOfClosed(events: seq<EventRow>, source: string, ended: int, message: string, after: seq<EventRow>)
    requires Closed(events, source, ended, message, after)
    ensures Closed(EventsOf(events, source), source, ended, message, EventsOf(after, source))
    ensures forall other :: other != source ==> EventsOf(after, other) == EventsOf(events, other)
  {
    var log := EventsOf(events, source);
    if HasOpen(events, source) {
      var k :| Closable(events, source, k) && after == events[k := Ended(events[k], ended, message)];
      var p := EventsOfUpdate(events, k, Ended(events[k], ended, message), source);
      forall other | other != source ensures EventsOf(after, other) == EventsOf(events, other) {
        EventsOfUpdateOther(events, k, Ended(events[k], ended, message), other);
      }
      forall j | 0 <= j < |log| && IsOpen(log[j], source) ensures log[j].started <= log[p].started {
        EventsOfOrigin(events, source, log[j]);
        var i :| 0 <= i < |events| && events[i] == log[j];
        assert IsOpen(events[i], source);
      }
      assert Closable(log, source, p);
    } else {
      forall j | 0 <= j < |log| ensures !IsOpen(log[j], source) {
        EventsOfOrigin(events, source, log[j]);
        var i :| 0 <= i < |events| && events[i] == log[j];
        assert !IsOpen(events[i], source);
      }
    }
  }
}
