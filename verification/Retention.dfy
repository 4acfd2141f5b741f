/** The dashboard's sample history and the schedule that prunes it
    (web-platform/backend/services/dashboard_history_store.py and the run loop of
    web-platform/backend/dashboard_sampler.py).

    The clock is a parameter of every step, in seconds and never negative, so that
    int() is the floor. A measurement or a transaction that fails leaves the table as
    it was. */
module Retention {
  import opened Options

  const SAMPLE_INTERVAL := 10
  const HISTORY_SECONDS := 24 * 3600
  const PRUNE_EVERY_TICKS := 60

  datatype Sample = Sample(
    connected: bool, latencyMs: Option<real>, cpuPercent: real, memoryPercent: real,
    rates: map<string, (int, int)>)

  /** The samples table, keyed by its primary key, the second of the tick. */
  type Rows = map<int, Sample>

  function Kept(rows: Rows, cutoff: int): Rows
  {
    map ts | ts in rows && ts >= cutoff :: rows[ts]
  }

  /** out lists the rows of these keys, oldest first. */
  ghost predicate Lists(rows: Rows, keys: set<int>, out: seq<(int, Sample)>)
  {
    && (forall i, j :: 0 <= i < j < |out| ==> out[i].0 < out[j].0)
    && (forall i :: 0 <= i < |out| ==> out[i].0 in keys && out[i].0 in rows && out[i].1 == rows[out[i].0])
    && (forall ts :: ts in keys ==> exists i :: 0 <= i < |out| && out[i].0 == ts)
  }

  function Recent(rows: Rows, cutoff: int): set<int>
  {
    set ts | ts in rows && ts >= cutoff
  }

  /** A listing of the rows from the cutoff on. */
  ghost predicate IsListing(rows: Rows, cutoff: int, out: seq<(int, Sample)>)
  {
    Lists(rows, Recent(rows, cutoff), out)
  }

  lemma Prepend(rows: Rows, keys: set<int>, out: seq<(int, Sample)>, ts: int)
    requires Lists(rows, keys, out) && ts in rows && forall k :: k in keys ==> ts < k
    ensures Lists(rows, keys + {ts}, [(ts, rows[ts])] + out)
  {
    var longer := [(ts, rows[ts])] + out;
    forall k | k in keys + {ts} ensures exists i :: 0 <= i < |longer| && longer[i].0 == k {
      if k == ts {
        assert longer[0].0 == k;
      } else {
        var i :| 0 <= i < |out| && out[i].0 == k;
        assert longer[i + 1].0 == k;
      }
    }
  }

  ghost predicate IsLatest(rows: Rows, r: Option<(int, Sample)>)
  {
    if r.None? then rows == map[]
    else r.value.0 in rows && r.value.1 == rows[r.value.0] && forall ts :: ts in rows ==> ts <= r.value.0
  }

  lemma Member<T>(s: set<T>) returns (x: T)
    requires s != {}
    ensures x in s
  {
    x :| x in s;
  }

  lemma {:induction false} HasMax(keys: set<int>)
    requires keys != {}
    ensures exists m :: m in keys && forall k :: k in keys ==> k <= m
  {
    var x := Member(keys);
    var rest := keys - {x};
    if rest == {} {
      assert keys == {x};
    } else {
      HasMax(rest);
      var m :| m in rest && forall k :: k in rest ==> k <= m;
      var top := if x > m then x else m;
      assert top in keys && forall k :: k in keys ==> k <= top by {
        forall k | k in keys ensures k <= top {
          assert k == x || k in rest;
        }
      }
    }
  }

  class DashboardHistoryStore {
    var rows: Rows

    constructor ()
      ensures rows == map[]
    {
      rows := map[];
    }

    method InsertSample(ts: int, sample: Sample)
      modifies this
      ensures rows == old(rows)[ts := sample]
    {
      rows := rows[ts := sample];
    }

    method Prune(now: real, window: int)
      modifies this
      ensures rows == Kept(old(rows), now.Floor - window)
    {
      var cutoff := now.Floor - window;
      rows := map ts | ts in rows && ts >= cutoff :: rows[ts];
    }

    method GetSamples(now: real, window: int) returns (out: seq<(int, Sample)>)
      ensures IsListing(rows, now.Floor - window, out)
    {
      var cutoff := now.Floor - window;
      var todo := Recent(rows, cutoff);
      ghost var done: set<int> := {};
      out := [];
      while todo != {}
        invariant todo + done == Recent(rows, cutoff) && Lists(rows, done, out)
        invariant forall ts, k :: ts in todo && k in done ==> ts < k
      {
        HasMax(todo);
        var last :| last in todo && forall ts :: ts in todo ==> ts <= last;
        Prepend(rows, done, out, last);
        out := [(last, rows[last])] + out;
        todo, done := todo - {last}, done + {last};
      }
      assert done == Recent(rows, cutoff);
    }

    method LatestSample() returns (r: Option<(int, Sample)>)
      ensures IsLatest(rows, r)
    {
      if rows.Keys == {} {
        return None;
      }
      HasMax(rows.Keys);
      var last :| last in rows.Keys && forall ts :: ts in rows.Keys ==> ts <= last;
      r := Some((last, rows[last]));
    }
  }

  // ----------------------------------------------------------- the run loop

  /** One pass of the run loop. `restarted` says a new process began with it, so the
      tick counter started over; `inserted` and `pruned` say the write went through. */
  datatype Pass = Pass(restarted: bool, at: real, sample: Sample, inserted: bool, pruneAt: real, pruned: bool)

  datatype State = State(rows: Rows, ticks: nat)

  function Ticks(s: State, pass: Pass): nat
  {
    if pass.restarted then 1 else s.ticks + 1
  }

  function Inserted(rows: Rows, pass: Pass): Rows
  {
    if pass.inserted then rows[pass.at.Floor := pass.sample] else rows
  }

  /** This pass prunes, and the prune goes through. */
  predicate Prunes(ticks: nat, pass: Pass)
  {
    ticks % PRUNE_EVERY_TICKS == 0 && pass.pruned
  }

  function Next(s: State, pass: Pass): State
  {
    var ticks, rows := Ticks(s, pass), Inserted(s.rows, pass);
    State(if Prunes(ticks, pass) then Kept(rows, pass.pruneAt.Floor - HISTORY_SECONDS) else rows, ticks)
  }

  function Replay(s: State, passes: seq<Pass>): State
  {
    if passes == [] then s else Next(Replay(s, passes[..|passes| - 1]), passes[|passes| - 1])
  }

  class Sampler {
    const store: DashboardHistoryStore

    constructor (store: DashboardHistoryStore)
      ensures this.store == store
    {
      this.store := store;
    }

    /** The loop of one process, until it is asked to stop. */
    method Run(passes: seq<Pass>)
      requires forall i :: 0 <= i < |passes| ==> !passes[i].restarted
      modifies store
      ensures store.rows == Replay(State(old(store.rows), 0), passes).rows
    {
      var ticks := 0;
      for i := 0 to |passes|
        invariant State(store.rows, ticks) == Replay(State(old(store.rows), 0), passes[..i])
      {
        assert passes[..i + 1][..i] == passes[..i];
        var pass := passes[i];
        if pass.inserted {
          store.InsertSample(pass.at.Floor, pass.sample);
        }
        ticks := ticks + 1;
        if ticks % PRUNE_EVERY_TICKS == 0 {
          if pass.pruned {
            store.Prune(pass.pruneAt, HISTORY_SECONDS);
          }
        }
      }
      assert passes[..|passes|] == passes;
    }
  }

  const EMPTY := State(map[], 0)

  // ------------------------------------------------------------------ bounds

  /** The clock does not run backwards, and passes are an interval apart: the loop
      sleeps that long before every tick. */
  ghost predicate Paced(passes: seq<Pass>)
  {
    && (forall i :: 0 <= i < |passes| ==> passes[i].at <= passes[i].pruneAt)
    && (forall i :: 0 < i < |passes| ==>
          && passes[i - 1].at + SAMPLE_INTERVAL as real <= passes[i].at
          && passes[i - 1].pruneAt <= passes[i].at)
  }

  /** Rows inserted since the last prune that went through. */
  function SincePrune(passes: seq<Pass>): nat
  {
    if passes == [] then 0
    else
      var n := |passes| - 1;
      if Prunes(Ticks(Replay(EMPTY, passes[..n]), passes[n]), passes[n]) then 0
      else SincePrune(passes[..n]) + if passes[n].inserted then 1 else 0
  }

  ghost predicate Spaced(keys: set<int>)
  {
    forall a, b :: a in keys && b in keys && a < b ==> a + SAMPLE_INTERVAL <= b
  }

  /** Spaced keys in a window are few. */
  lemma {:induction false} SpacedKeysAreFew(keys: set<int>, lo: int, hi: int)
    requires Spaced(keys) && keys != {} && forall k :: k in keys ==> lo <= k <= hi
    ensures |keys| <= (hi - lo) / SAMPLE_INTERVAL + 1
    decreases |keys|
  {
    HasMax(keys);
    var m :| m in keys && forall k :: k in keys ==> k <= m;
    var rest := keys - {m};
    if rest != {} {
      forall k | k in rest ensures lo <= k <= m - SAMPLE_INTERVAL {
        assert k in keys && k < m;
      }
      SpacedKeysAreFew(rest, lo, m - SAMPLE_INTERVAL);
      assert (m - SAMPLE_INTERVAL - lo) / SAMPLE_INTERVAL == (m - lo) / SAMPLE_INTERVAL - 1;
    }
    assert |keys| == |rest| + 1;
  }

  lemma InsertKeepsSpaced(rows: Rows, pass: Pass)
    requires Spaced(rows.Keys) && forall ts :: ts in rows ==> ts + SAMPLE_INTERVAL <= pass.at.Floor
    ensures Spaced(Inserted(rows, pass).Keys) && forall ts :: ts in Inserted(rows, pass) ==> ts <= pass.at.Floor
  {
  }

  lemma NextKeys(s: State, pass: Pass)
    ensures Next(s, pass).rows.Keys <= Inserted(s.rows, pass).Keys
  {
  }

  /** When a pass of a paced run begins, the keys are spaced and an interval old. */
  lemma {:induction false} KeysAreSpaced(passes: seq<Pass>, pass: Pass)
    requires Paced(passes + [pass])
    ensures Spaced(Replay(EMPTY, passes).rows.Keys)
    ensures forall ts :: ts in Replay(EMPTY, passes).rows ==> ts + SAMPLE_INTERVAL <= pass.at.Floor
  {
    if passes != [] {
      var n := |passes| - 1;
      PacedFront(passes, pass);
      KeysAreSpaced(passes[..n], passes[n]);
      var before := Replay(EMPTY, passes[..n]);
      InsertKeepsSpaced(before.rows, passes[n]);
      NextKeys(before, passes[n]);
      FloorGap(passes[n].at, pass.at);
    }
  }

  lemma PacedFront(passes: seq<Pass>, pass: Pass)
    requires Paced(passes + [pass]) && passes != []
    ensures Paced(passes[..|passes| - 1] + [passes[|passes| - 1]])
    ensures passes[|passes| - 1].at + SAMPLE_INTERVAL as real <= pass.at
  {
    var all := passes + [pass];
    assert passes[..|passes| - 1] + [passes[|passes| - 1]] == all[..|passes|];
    assert all[|passes| - 1] == passes[|passes| - 1] && all[|passes|] == pass;
  }

  lemma FloorGap(a: real, b: real)
    requires a + SAMPLE_INTERVAL as real <= b
    ensures a.Floor + SAMPLE_INTERVAL <= b.Floor
  {
    assert (a + SAMPLE_INTERVAL as real).Floor == a.Floor + SAMPLE_INTERVAL;
  }

  lemma KeptFitsTheWindow(rows: Rows, last: real, now: real)
    requires Spaced(rows.Keys) && last <= now && forall ts :: ts in rows ==> ts <= last.Floor
    ensures |Kept(rows, now.Floor - HISTORY_SECONDS)| <= HISTORY_SECONDS / SAMPLE_INTERVAL + 1
  {
    var kept := Kept(rows, now.Floor - HISTORY_SECONDS);
    if kept.Keys != {} {
      SpacedKeysAreFew(kept.Keys, now.Floor - HISTORY_SECONDS, now.Floor);
    }
    assert |kept| == |kept.Keys|;
  }

  lemma InsertAddsOne(rows: Rows, pass: Pass)
    ensures |Inserted(rows, pass)| <= |rows| + if pass.inserted then 1 else 0
  {
    var inserted := Inserted(rows, pass);
    assert inserted.Keys <= rows.Keys + {pass.at.Floor};
    SubsetSize(inserted.Keys, rows.Keys + {pass.at.Floor});
    assert |inserted| == |inserted.Keys| && |rows| == |rows.Keys|;
  }

  lemma SubsetSize(a: set<int>, b: set<int>)
    requires a <= b
    ensures |a| <= |b|
  {
    assert b == a + (b - a);
  }

  /** What a prune leaves after a pass's insert. */
  lemma PruneLeavesOneWindow(passes: seq<Pass>, pass: Pass)
    requires Paced(passes + [pass])
    ensures |Kept(Inserted(Replay(EMPTY, passes).rows, pass), pass.pruneAt.Floor - HISTORY_SECONDS)|
         <= HISTORY_SECONDS / SAMPLE_INTERVAL + 1
  {
    assert (passes + [pass])[|passes|] == pass;
    KeysAreSpaced(passes, pass);
    InsertKeepsSpaced(Replay(EMPTY, passes).rows, pass);
    KeptFitsTheWindow(Inserted(Replay(EMPTY, passes).rows, pass), pass.at, pass.pruneAt);
  }

  lemma NextIsBounded(s: State, pass: Pass, since: nat)
    requires |s.rows| <= HISTORY_SECONDS / SAMPLE_INTERVAL + 1 + since
    requires |Kept(Inserted(s.rows, pass), pass.pruneAt.Floor - HISTORY_SECONDS)|
          <= HISTORY_SECONDS / SAMPLE_INTERVAL + 1
    ensures |Next(s, pass).rows| <= HISTORY_SECONDS / SAMPLE_INTERVAL + 1
      + (if Prunes(Ticks(s, pass), pass) then 0 else since + if pass.inserted then 1 else 0)
  {
    InsertAddsOne(s.rows, pass);
  }

  /** The table is bounded in every paced run, failed writes, failed prunes and
      restarts included: by one window of rows plus what was inserted since the last
      prune that went through. */
  lemma {:induction false} RowsAreBounded(passes: seq<Pass>)
    requires Paced(passes)
    ensures |Replay(EMPTY, passes).rows| <= HISTORY_SECONDS / SAMPLE_INTERVAL + 1 + SincePrune(passes)
  {
    if passes != [] {
      var n := |passes| - 1;
      var front, pass := passes[..n], passes[n];
      assert Paced(front);
      RowsAreBounded(front);
      PruneLeavesOneWindow(front, pass) by { assert passes == front + [pass]; }
      NextIsBounded(Replay(EMPTY, front), pass, SincePrune(front));
    }
  }

  /** One process, every due prune going through. */
  ghost predicate Undisturbed(passes: seq<Pass>)
  {
    && (forall i :: 0 < i < |passes| ==> !passes[i].restarted)
    && (forall i :: 0 <= i < |passes| ==> passes[i].pruned)
  }

  lemma {:induction false} PrunedEverySixtyTicks(passes: seq<Pass>)
    requires Undisturbed(passes)
    ensures Replay(EMPTY, passes).ticks == |passes| && SincePrune(passes) <= |passes| % PRUNE_EVERY_TICKS
  {
    if passes != [] {
      PrunedEverySixtyTicks(passes[..|passes| - 1]);
    }
  }

  /** In an undisturbed run the table never holds more than one window of rows plus
      the ticks between two prunes, even in the middle of a pass. */
  lemma HistoryIsBounded(passes: seq<Pass>, pass: Pass)
    requires Paced(passes + [pass]) && Undisturbed(passes + [pass])
    ensures |Replay(EMPTY, passes + [pass]).rows| < HISTORY_SECONDS / SAMPLE_INTERVAL + 1 + PRUNE_EVERY_TICKS
    ensures |Inserted(Replay(EMPTY, passes).rows, pass)| <= HISTORY_SECONDS / SAMPLE_INTERVAL + 1 + PRUNE_EVERY_TICKS
  {
    var all := passes + [pass];
    assert all[..|passes|] == passes;
    forall i | 0 <= i < |passes| ensures passes[i] == all[i] {
    }
    RowsAreBounded(all);
    RowsAreBounded(passes);
    PrunedEverySixtyTicks(all);
    PrunedEverySixtyTicks(passes);
    InsertAddsOne(Replay(EMPTY, passes).rows, pass);
  }

  // -------------------------------------------------------- what readers see

  /** Everything ever inserted. */
  function AllInserted(passes: seq<Pass>): Rows
  {
    if passes == [] then map[] else Inserted(AllInserted(passes[..|passes| - 1]), passes[|passes| - 1])
  }

  lemma KeptKept(rows: Rows, early: int, cutoff: int)
    requires early <= cutoff
    ensures Kept(Kept(rows, early), cutoff) == Kept(rows, cutoff)
  {
  }

  /** The cutoff of the last prune that went through. */
  function LastCutoff(passes: seq<Pass>): Option<int>
  {
    if passes == [] then None
    else
      var n := |passes| - 1;
      if Prunes(Ticks(Replay(EMPTY, passes[..n]), passes[n]), passes[n])
      then Some(passes[n].pruneAt.Floor - HISTORY_SECONDS)
      else LastCutoff(passes[..n])
  }

  function KeptFrom(rows: Rows, cutoff: Option<int>): Rows
  {
    if cutoff.Some? then Kept(rows, cutoff.value) else rows
  }

  lemma {:induction false} CutoffIsPast(passes: seq<Pass>)
    requires Paced(passes) && LastCutoff(passes).Some?
    ensures passes != [] && LastCutoff(passes).value <= passes[|passes| - 1].pruneAt.Floor - HISTORY_SECONDS
  {
    var n := |passes| - 1;
    if !Prunes(Ticks(Replay(EMPTY, passes[..n]), passes[n]), passes[n]) {
      CutoffIsPast(passes[..n]);
      assert passes[n - 1].pruneAt <= passes[n].at <= passes[n].pruneAt;
    }
  }

  lemma EarlierCutoff(passes: seq<Pass>)
    requires Paced(passes) && passes != []
    ensures
      var n := |passes| - 1;
      var cutoff := LastCutoff(passes[..n]);
      cutoff.Some? ==>
        cutoff.value <= passes[n].at.Floor && cutoff.value <= passes[n].pruneAt.Floor - HISTORY_SECONDS
  {
    var n := |passes| - 1;
    if LastCutoff(passes[..n]).Some? {
      CutoffIsPast(passes[..n]);
      assert passes[n - 1].pruneAt <= passes[n].at <= passes[n].pruneAt;
    }
  }

  lemma InsertedFrom(rows: Rows, pass: Pass, cutoff: Option<int>)
    requires cutoff.Some? ==> cutoff.value <= pass.at.Floor
    ensures Inserted(KeptFrom(rows, cutoff), pass) == KeptFrom(Inserted(rows, pass), cutoff)
  {
  }

  lemma PrunedFrom(rows: Rows, earlier: Option<int>, cutoff: int)
    requires earlier.Some? ==> earlier.value <= cutoff
    ensures Kept(KeptFrom(rows, earlier), cutoff) == Kept(rows, cutoff)
  {
    if earlier.Some? {
      KeptKept(rows, earlier.value, cutoff);
    }
  }

  /** One pass of the theorem below. */
  lemma TableStep(s: State, pass: Pass, all: Rows, earlier: Option<int>)
    requires s.rows == KeptFrom(all, earlier)
    requires earlier.Some? ==> earlier.value <= pass.at.Floor && earlier.value <= pass.pruneAt.Floor - HISTORY_SECONDS
    ensures
      var cutoff := if Prunes(Ticks(s, pass), pass) then Some(pass.pruneAt.Floor - HISTORY_SECONDS) else earlier;
      Next(s, pass).rows == KeptFrom(Inserted(all, pass), cutoff)
  {
    InsertedFrom(all, pass, earlier);
    PrunedFrom(Inserted(all, pass), earlier, pass.pruneAt.Floor - HISTORY_SECONDS);
  }

  /** After every paced run, failed writes, failed prunes and restarts included, the
      table holds exactly what was ever inserted from the cutoff of the last prune that
      went through on, and all of it when there was none. */
  lemma {:induction false} TableExactly(passes: seq<Pass>)
    requires Paced(passes)
    ensures Replay(EMPTY, passes).rows == KeptFrom(AllInserted(passes), LastCutoff(passes))
  {
    if passes != [] {
      var n := |passes| - 1;
      TableExactly(passes[..n]);
      EarlierCutoff(passes);
      TableStep(Replay(EMPTY, passes[..n]), passes[n], AllInserted(passes[..n]), LastCutoff(passes[..n]));
    }
  }

  /** Inserts from the cutoff on. */
  function Inserts(passes: seq<Pass>, cutoff: Option<int>): nat
  {
    if passes == [] then 0
    else
      var n := |passes| - 1;
      Inserts(passes[..n], cutoff) +
      (if passes[n].inserted && (cutoff.Some? ==> cutoff.value <= passes[n].at.Floor) then 1 else 0)
  }

  lemma {:induction false} InsertedEarlier(passes: seq<Pass>, pass: Pass)
    requires Paced(passes + [pass])
    ensures forall ts :: ts in AllInserted(passes) ==> ts < pass.at.Floor
  {
    if passes != [] {
      var n := |passes| - 1;
      PacedFront(passes, pass);
      InsertedEarlier(passes[..n], passes[n]);
      FloorGap(passes[n].at, pass.at);
    }
  }

  lemma GrowsByOne(rows: Rows, ts: int, sample: Sample)
    requires ts !in rows
    ensures |rows[ts := sample]| == |rows| + 1
  {
    var after := rows[ts := sample];
    assert after.Keys == rows.Keys + {ts};
    assert |after| == |after.Keys| && |rows| == |rows.Keys|;
  }

  lemma InsertGrows(rows: Rows, pass: Pass, cutoff: Option<int>)
    requires pass.at.Floor !in rows
    ensures |KeptFrom(Inserted(rows, pass), cutoff)| == |KeptFrom(rows, cutoff)|
      + if pass.inserted && (cutoff.Some? ==> cutoff.value <= pass.at.Floor) then 1 else 0
  {
    var ts := pass.at.Floor;
    var before, after := KeptFrom(rows, cutoff), KeptFrom(Inserted(rows, pass), cutoff);
    if pass.inserted && (cutoff.Some? ==> cutoff.value <= ts) {
      assert after == before[ts := pass.sample];
      GrowsByOne(before, ts, pass.sample);
    } else {
      assert after == before;
    }
  }

  lemma {:induction false} InsertsAreRows(passes: seq<Pass>, cutoff: Option<int>)
    requires Paced(passes)
    ensures |KeptFrom(AllInserted(passes), cutoff)| == Inserts(passes, cutoff)
  {
    if passes == [] {
      assert KeptFrom(map[], cutoff) == map[];
    } else {
      var n := |passes| - 1;
      assert passes == passes[..n] + [passes[n]];
      InsertsAreRows(passes[..n], cutoff);
      InsertedEarlier(passes[..n], passes[n]);
      InsertGrows(AllInserted(passes[..n]), passes[n], cutoff);
    }
  }

  /** So its size is exactly the number of inserts from that cutoff on. */
  lemma SizeExactly(passes: seq<Pass>)
    requires Paced(passes)
    ensures |Replay(EMPTY, passes).rows| == Inserts(passes, LastCutoff(passes))
  {
    TableExactly(passes);
    InsertsAreRows(passes, LastCutoff(passes));
  }

  /** Pruning never shows: a reader asking for the whole window or less, at any time
      after the run, sees exactly the samples inserted in that window, whatever was
      pruned, failed or restarted. */
  lemma PruningIsInvisible(passes: seq<Pass>, cutoff: int)
    requires Paced(passes)
    requires passes != [] ==> passes[|passes| - 1].pruneAt.Floor - HISTORY_SECONDS <= cutoff
    ensures Kept(Replay(EMPTY, passes).rows, cutoff) == Kept(AllInserted(passes), cutoff)
    ensures forall out :: IsListing(Replay(EMPTY, passes).rows, cutoff, out) <==>
      IsListing(AllInserted(passes), cutoff, out)
  {
    TableExactly(passes);
    if LastCutoff(passes).Some? {
      CutoffIsPast(passes);
    }
    PrunedFrom(AllInserted(passes), LastCutoff(passes), cutoff);
    forall out
      ensures IsListing(Replay(EMPTY, passes).rows, cutoff, out) <==> IsListing(AllInserted(passes), cutoff, out)
    {
      SameListing(Replay(EMPTY, passes).rows, AllInserted(passes), cutoff, out);
    }
  }

  lemma SameListing(a: Rows, b: Rows, cutoff: int, out: seq<(int, Sample)>)
    requires Kept(a, cutoff) == Kept(b, cutoff)
    ensures IsListing(a, cutoff, out) <==> IsListing(b, cutoff, out)
  {
    assert Recent(a, cutoff) == Kept(a, cutoff).Keys && Recent(b, cutoff) == Kept(b, cutoff).Keys;
    forall ts | ts in Recent(a, cutoff) ensures ts in b && a[ts] == b[ts] {
      assert Kept(a, cutoff)[ts] == Kept(b, cutoff)[ts];
    }
  }

  /** The latest sample ends every window that is not empty. */
  lemma LatestEndsEveryWindow(rows: Rows, cutoff: int, out: seq<(int, Sample)>, latest: Option<(int, Sample)>)
    requires IsListing(rows, cutoff, out) && IsLatest(rows, latest) && out != []
    ensures latest == Some(out[|out| - 1])
  {
    var last := out[|out| - 1];
    assert last.0 in rows;
    assert latest.value.0 in Recent(rows, cutoff);
    var i :| 0 <= i < |out| && out[i].0 == latest.value.0;
  }

  // ---------------------------------------------------------------- restarts

  /** No process lives for sixty ticks: any fifty-nine consecutive passes that do not
      start the run hold a restart. */
  ghost predicate ShortLived(passes: seq<Pass>)
  {
    forall i :: PRUNE_EVERY_TICKS - 1 <= i < |passes| ==> RestartedWithin(passes, i)
  }

  ghost predicate RestartedWithin(passes: seq<Pass>, i: int)
    requires PRUNE_EVERY_TICKS - 1 <= i < |passes|
  {
    exists j :: i - PRUNE_EVERY_TICKS + 1 < j <= i && passes[j].restarted
  }

  lemma {:induction false} TicksSince(passes: seq<Pass>, j: nat)
    requires j <= |passes| && (j == 0 || (j < |passes| && passes[j].restarted))
    ensures Replay(EMPTY, passes).ticks <= |passes| - j
  {
    if j < |passes| {
      var n := |passes| - 1;
      TicksSince(passes[..n], if j < n then j else 0);
    }
  }

  lemma ShortLivedTicks(passes: seq<Pass>)
    requires ShortLived(passes)
    ensures Replay(EMPTY, passes).ticks < PRUNE_EVERY_TICKS
  {
    var n := |passes| - 1;
    if n < PRUNE_EVERY_TICKS - 1 {
      TicksSince(passes, 0);
    } else {
      assert RestartedWithin(passes, n);
      var j :| n - PRUNE_EVERY_TICKS + 1 < j <= n && passes[j].restarted;
      TicksSince(passes, j);
    }
  }

  lemma ShortLivedFront(passes: seq<Pass>, n: nat)
    requires ShortLived(passes) && n <= |passes|
    ensures ShortLived(passes[..n])
  {
    forall i | PRUNE_EVERY_TICKS - 1 <= i < n ensures RestartedWithin(passes[..n], i) {
      assert RestartedWithin(passes, i);
      var j :| i - PRUNE_EVERY_TICKS + 1 < j <= i && passes[j].restarted;
      assert passes[..n][j].restarted;
    }
  }

  lemma {:induction false} ShortLivedNeverPrunes(passes: seq<Pass>)
    requires ShortLived(passes)
    ensures LastCutoff(passes) == None
  {
    if passes != [] {
      var n := |passes| - 1;
      ShortLivedFront(passes, n);
      ShortLivedNeverPrunes(passes[..n]);
      ShortLivedTicks(passes);
      assert Replay(EMPTY, passes).ticks == Ticks(Replay(EMPTY, passes[..n]), passes[n]);
    }
  }

  /** The tick counter starts over with the process, so a sampler that is always
      restarted before its sixtieth tick never prunes: its table holds every sample
      ever inserted. */
  lemma RestartsDefeatPruning(passes: seq<Pass>)
    requires Paced(passes) && ShortLived(passes)
    ensures Replay(EMPTY, passes).rows == AllInserted(passes) && |Replay(EMPTY, passes).rows| == Inserts(passes, None)
  {
    ShortLivedNeverPrunes(passes);
    TableExactly(passes);
    SizeExactly(passes);
  }

  /** The n-th pass of a sampler whose processes live for fifty-nine ticks. */
  function ShortPass(n: nat, sample: Sample): Pass
  {
    var at := (SAMPLE_INTERVAL * n) as real;
    Pass(n % (PRUNE_EVERY_TICKS - 1) == 0, at, sample, true, at, true)
  }

  function ShortPasses(n: nat, sample: Sample): (passes: seq<Pass>)
    ensures |passes| == n && forall i :: 0 <= i < n ==> passes[i] == ShortPass(i, sample)
  {
    seq(n, i requires 0 <= i < n => ShortPass(i, sample))
  }

  lemma {:induction false} AllInsert(passes: seq<Pass>)
    requires forall i :: 0 <= i < |passes| ==> passes[i].inserted
    ensures Inserts(passes, None) == |passes|
  {
    if passes != [] {
      AllInsert(passes[..|passes| - 1]);
    }
  }

  lemma ShortPassesAreShort(n: nat, sample: Sample)
    ensures ShortLived(ShortPasses(n, sample))
  {
    var passes := ShortPasses(n, sample);
    forall i | PRUNE_EVERY_TICKS - 1 <= i < n ensures RestartedWithin(passes, i) {
      var j := i - i % (PRUNE_EVERY_TICKS - 1);
      assert passes[j].restarted;
    }
  }

  lemma ShortPassesArePaced(n: nat, sample: Sample)
    ensures Paced(ShortPasses(n, sample))
  {
  }

  /** So the table grows without bound. */
  lemma UnboundedRuns(n: nat, sample: Sample)
    ensures Paced(ShortPasses(n, sample)) && ShortLived(ShortPasses(n, sample))
    ensures |Replay(EMPTY, ShortPasses(n, sample)).rows| == n
  {
    ShortPassesAreShort(n, sample);
    ShortPassesArePaced(n, sample);
    AllInsert(ShortPasses(n, sample));
    RestartsDefeatPruning(ShortPasses(n, sample));
  }
}
