/** The upstream-version cache and its last-known-good preservation: refresh_all of
    web-platform/backend/resolvers/app_versions.py.

    A lookup is an arbitrary result, found or not. The cache file may also be lost
    or unreadable between refreshes, in which case a refresh starts from nothing. */
module UpstreamCache {
  import opened Options

  /** What one catalog row contributes: its key, its strategy, and whether its image
      string parses. */
  datatype Row = Row(key: string, strategy: string, parseable: bool)

  datatype Lookup = Lookup(latest: Option<string>, note: string, advisories: seq<string>, sourceRepo: Option<string>)

  datatype CacheEntry = CacheEntry(
    latest: Option<string>, note: string, lastChecked: int, strategy: string, stale: bool,
    advisories: seq<string>, sourceRepo: Option<string>)

  type Cache = map<string, CacheEntry>

  predicate Unparseable(row: Row)
  {
    !row.parseable && row.strategy == "image"
  }

  /** The entry a refresh writes for one row. */
  function EntryFor(prev: Cache, row: Row, res: Lookup, now: int): CacheEntry
  {
    if Unparseable(row) then
      CacheEntry(None, "image string unparseable", now, row.strategy, false, [], None)
    else if
      && res.latest.None? && row.key in prev
      && prev[row.key].latest.Some? && prev[row.key].strategy == row.strategy
    then
      var old_ := prev[row.key];
      CacheEntry(old_.latest, "last lookup failed (" + res.note + "); showing last known good",
                 old_.lastChecked, row.strategy, true, old_.advisories, old_.sourceRepo)
    else CacheEntry(res.latest, res.note, now, row.strategy, false, res.advisories, res.sourceRepo)
  }

  /** One refresh over the catalog; results[i] answers row i. A key listed twice ends
      up with its last row. */
  function Refreshed(prev: Cache, catalog: seq<Row>, results: seq<Lookup>, now: int): Cache
    requires |results| == |catalog|
  {
    if catalog == [] then map[]
    else
      var n := |catalog| - 1;
      Refreshed(prev, catalog[..n], results[..n], now)[catalog[n].key := EntryFor(prev, catalog[n], results[n], now)]
  }

  class CacheFile {
    /** The file's contents; None when it is missing or not readable as a cache. */
    var contents: Option<Cache>

    constructor ()
      ensures contents == None
    {
      contents := None;
    }

    method ReadCache() returns (c: Cache)
      ensures c == Readable(contents)
    {
      c := if contents.Some? then contents.value else map[];
    }

    /** The whole refresh: read the previous cache, look every row up, write the new
        cache in one replace. */
    method RefreshAll(catalog: seq<Row>, results: seq<Lookup>, now: int) returns (cache: Cache)
      requires |results| == |catalog|
      modifies this
      ensures cache == Refreshed(old(Readable(contents)), catalog, results, now)
      ensures contents == Some(cache)
    {
      var prev := ReadCache();
      cache := map[];
      for i := 0 to |catalog|
        invariant cache == Refreshed(prev, catalog[..i], results[..i], now)
        invariant contents == old(contents)
      {
        assert catalog[..i + 1][..i] == catalog[..i] && results[..i + 1][..i] == results[..i];
        var row, res := catalog[i], results[i];
        if Unparseable(row) {
          cache := cache[row.key := CacheEntry(None, "image string unparseable", now, row.strategy, false, [], None)];
          continue;
        }
        var entry := CacheEntry(res.latest, res.note, now, row.strategy, false, res.advisories, res.sourceRepo);
        if res.latest.None? && row.key in prev {
          var old_ := prev[row.key];
          if old_.latest.Some? && old_.strategy == row.strategy {
            entry := entry.(latest := old_.latest, sourceRepo := old_.sourceRepo, advisories := old_.advisories,
                            lastChecked := old_.lastChecked, stale := true,
                            note := "last lookup failed (" + res.note + "); showing last known good");
          }
        }
        cache := cache[row.key := entry];
      }
      assert catalog[..|catalog|] == catalog && results[..|results|] == results;
      contents := Some(cache);
    }

    /** The file vanishes or turns unreadable. */
    method Lose()
      modifies this
      ensures contents == None
    {
      contents := None;
    }
  }

  function Readable(contents: Option<Cache>): Cache
  {
    if contents.Some? then contents.value else map[]
  }

  // ------------------------------------------------------------------- runs

  datatype Action = Refresh(catalog: seq<Row>, results: seq<Lookup>, now: int) | Lose

  ghost predicate ValidAction(a: Action)
  {
    a.Refresh? ==> |a.results| == |a.catalog|
  }

  ghost predicate ValidRun(actions: seq<Action>)
  {
    forall i :: 0 <= i < |actions| ==> ValidAction(actions[i])
  }

  ghost function After(actions: seq<Action>): Option<Cache>
    requires ValidRun(actions)
  {
    if actions == [] then None
    else
      var n := |actions| - 1;
      var a := actions[n];
      assert ValidAction(a) && ValidRun(actions[..n]);
      if a.Lose? then None else Some(Refreshed(Readable(After(actions[..n])), a.catalog, a.results, a.now))
  }

  // --------------------------------------------------------- one key's history

  /** What one action means for one key: a lookup, an unparseable image, or nothing
      (not in the catalog, or the file lost). */
  datatype Seen = Looked(now: int, strategy: string, res: Lookup) | Blank(at: int) | Gone

  function SeenIn(catalog: seq<Row>, results: seq<Lookup>, now: int, key: string): Seen
    requires |results| == |catalog|
  {
    if catalog == [] then Gone
    else
      var n := |catalog| - 1;
      if catalog[n].key != key then SeenIn(catalog[..n], results[..n], now, key)
      else if !catalog[n].parseable && catalog[n].strategy == "image" then Blank(now)
      else Looked(now, catalog[n].strategy, results[n])
  }

  ghost function SeenBy(a: Action, key: string): Seen
    requires ValidAction(a)
  {
    if a.Lose? then Gone else SeenIn(a.catalog, a.results, a.now, key)
  }

  ghost function History(actions: seq<Action>, key: string): (h: seq<Seen>)
    requires ValidRun(actions)
    ensures |h| == |actions|
  {
    if actions == [] then []
    else
      var n := |actions| - 1;
      assert ValidAction(actions[n]) && ValidRun(actions[..n]);
      History(actions[..n], key) + [SeenBy(actions[n], key)]
  }

  predicate Succeeded(s: Seen)
  {
    s.Looked? && s.res.latest.Some?
  }

  /** j is the most recent successful lookup, and since then every action looked the
      key up under the same strategy and failed. */
  ghost predicate LastGoodAt(h: seq<Seen>, j: int)
  {
    && 0 <= j < |h| && Succeeded(h[j])
    && forall i :: j < i < |h| ==> h[i].Looked? && h[i].strategy == h[j].strategy && h[i].res.latest.None?
  }

  /** What the cache must hold for a key with this history. */
  ghost predicate EntryMatches(h: seq<Seen>, cache: Cache, key: string)
  {
    if h == [] || h[|h| - 1].Gone? then key !in cache
    else if h[|h| - 1].Blank? then
      && key in cache && cache[key].latest.None? && !cache[key].stale
      && cache[key].lastChecked == h[|h| - 1].at && cache[key].strategy == "image"
      && cache[key].note == "image string unparseable"
      && cache[key].advisories == [] && cache[key].sourceRepo == None
    else
      && key in cache && cache[key].strategy == h[|h| - 1].strategy
      && (forall j :: LastGoodAt(h, j) ==>
            && cache[key].latest == h[j].res.latest
            && cache[key].lastChecked == h[j].now
            && cache[key].advisories == h[j].res.advisories && cache[key].sourceRepo == h[j].res.sourceRepo
            && (cache[key].stale <==> j < |h| - 1)
            && cache[key].note ==
                 if j == |h| - 1 then h[j].res.note
                 else "last lookup failed (" + h[|h| - 1].res.note + "); showing last known good")
      && ((forall j :: !LastGoodAt(h, j)) ==>
            var last := h[|h| - 1];
            && cache[key].latest.None? && !cache[key].stale && cache[key].lastChecked == last.now
            && cache[key].note == last.res.note
            && cache[key].advisories == last.res.advisories && cache[key].sourceRepo == last.res.sourceRepo)
  }

  lemma {:induction false} RefreshedAt(prev: Cache, catalog: seq<Row>, results: seq<Lookup>, now: int, key: string)
    requires |results| == |catalog|
    ensures
      var c, s := Refreshed(prev, catalog, results, now), SeenIn(catalog, results, now, key);
      && (s.Gone? <==> key !in c)
      && (s.Blank? ==>
            s.at == now && c[key] == EntryFor(prev, Row(key, "image", false), Lookup(None, "", [], None), now))
      && (s.Looked? ==>
            s.now == now && c[key] == EntryFor(prev, Row(key, s.strategy, true), s.res, now))
  {
    if catalog != [] {
      var n := |catalog| - 1;
      if catalog[n].key != key {
        RefreshedAt(prev, catalog[..n], results[..n], now, key);
      }
    }
  }

  lemma LastGoodIsUnique(h: seq<Seen>, i: int, j: int)
    requires LastGoodAt(h, i) && LastGoodAt(h, j)
    ensures i == j
  {
  }

  lemma LastGoodExtends(h: seq<Seen>, s: Seen, j: int)
    ensures LastGoodAt(h + [s], j) <==>
      || (j == |h| && Succeeded(s))
      || (LastGoodAt(h, j) && s.Looked? && s.res.latest.None? && s.strategy == h[j].strategy)
  {
    var h' := h + [s];
    if LastGoodAt(h', j) && j < |h| {
      assert h'[|h|] == s;
      assert forall i :: j < i < |h| ==> h'[i] == h[i];
    }
  }

  lemma GoodMeansLooked(h: seq<Seen>, j: int)
    requires LastGoodAt(h, j)
    ensures h[|h| - 1].Looked? && h[|h| - 1].strategy == h[j].strategy
  {
  }

  lemma FailureStep(h: seq<Seen>, prev: Cache, cache: Cache, key: string, s: Seen)
    requires EntryMatches(h, prev, key) && s.Looked? && s.res.latest.None?
    requires key in cache && cache[key] == EntryFor(prev, Row(key, s.strategy, true), s.res, s.now)
    ensures EntryMatches(h + [s], cache, key)
  {
    var h' := h + [s];
    assert h'[|h'| - 1] == s;
    forall j ensures LastGoodAt(h', j) <==> LastGoodAt(h, j) && s.strategy == h[j].strategy {
      LastGoodExtends(h, s, j);
    }
    if j :| LastGoodAt(h, j) {
      GoodMeansLooked(h, j);
      if s.strategy == h[j].strategy {
        forall i | LastGoodAt(h', i) ensures i == j {
          LastGoodIsUnique(h, i, j);
        }
      } else {
        forall i ensures !LastGoodAt(h', i) {
          if LastGoodAt(h', i) {
            LastGoodIsUnique(h, i, j);
          }
        }
      }
    }
  }

  lemma SuccessStep(h: seq<Seen>, prev: Cache, cache: Cache, key: string, s: Seen)
    requires Succeeded(s)
    requires key in cache && cache[key] == EntryFor(prev, Row(key, s.strategy, true), s.res, s.now)
    ensures EntryMatches(h + [s], cache, key)
  {
    var h' := h + [s];
    assert h'[|h'| - 1] == s;
    LastGoodExtends(h, s, |h|);
    forall j | LastGoodAt(h', j) ensures j == |h| {
      LastGoodIsUnique(h', j, |h|);
    }
  }

  /** Last known good, over every run of refreshes, catalog changes, strategy
      changes and lost files. The entry of a key holds the tag, time and details of
      the most recent successful lookup for as long as every later refresh looked
      the key up under the same strategy and failed, and it is stale exactly when
      such a failure came after the success. */
  lemma {:induction false} CacheHoldsLastKnownGood(actions: seq<Action>, key: string)
    requires ValidRun(actions)
    ensures EntryMatches(History(actions, key), Readable(After(actions)), key)
  {
    if actions != [] {
      var n := |actions| - 1;
      var a := actions[n];
      assert ValidAction(a) && ValidRun(actions[..n]);
      CacheHoldsLastKnownGood(actions[..n], key);
      var h, prev, s := History(actions[..n], key), Readable(After(actions[..n])), SeenBy(a, key);
      if a.Refresh? {
        RefreshedAt(prev, a.catalog, a.results, a.now, key);
        if s.Looked? {
          if s.res.latest.None? {
            FailureStep(h, prev, Readable(After(actions)), key, s);
          } else {
            SuccessStep(h, prev, Readable(After(actions)), key, s);
          }
        }
      }
    }
  }

  /** The actions a key stays listed through: each one is a refresh that looks it up
      under the given strategy. */
  ghost predicate KeepsLooking(more: seq<Action>, key: string, strategy: string)
  {
    forall i :: 0 <= i < |more| ==>
      ValidAction(more[i]) && SeenBy(more[i], key).Looked? && SeenBy(more[i], key).strategy == strategy
  }

  /** While a key stays in the catalog with the same strategy and a parseable image,
      a latest tag once set stays set, whatever the lookups answer. */
  lemma {:induction false} LatestStaysSet(actions: seq<Action>, more: seq<Action>, key: string, strategy: string)
    requires ValidRun(actions) && ValidRun(actions + more)
    requires key in Readable(After(actions))
    requires Readable(After(actions))[key].latest.Some? && Readable(After(actions))[key].strategy == strategy
    requires KeepsLooking(more, key, strategy)
    ensures key in Readable(After(actions + more))
    ensures Readable(After(actions + more))[key].latest.Some?
    ensures Readable(After(actions + more))[key].strategy == strategy
    decreases |more|
  {
    if more == [] {
      assert actions + more == actions;
    } else {
      var n := |more| - 1;
      var a := more[n];
      var all := actions + more;
      assert all[..|all| - 1] == actions + more[..n] && all[|all| - 1] == a;
      assert ValidRun(actions + more[..n]) by {
        forall i | 0 <= i < |actions + more[..n]| ensures ValidAction((actions + more[..n])[i]) {
          assert (actions + more[..n])[i] == all[i];
        }
      }
      LatestStaysSet(actions, more[..n], key, strategy);
      RefreshedAt(Readable(After(actions + more[..n])), a.catalog, a.results, a.now, key);
    }
  }
}
