/** The keys of the merged catalog, which the upstream cache is keyed by. */
module CatalogKeys {
  import opened Options
  import opened Catalog
  import opened CatalogProofs

  ghost predicate UniqueKeys(rows: seq<Row>)
  {
    forall i, j :: 0 <= i < j < |rows| ==> rows[i].key != rows[j].key
  }

  /** From row m on, every key differs from all keys before it. */
  ghost predicate FreshFrom(rows: seq<Row>, m: nat)
  {
    m <= |rows| && forall i, j :: 0 <= i < j < |rows| && m <= j ==> rows[i].key != rows[j].key
  }

  /** The search for a free number ends at the first number that is not taken. */
  lemma {:induction false} FirstFreeIsTheFirst(base: string, seen: set<string>, n: nat) returns (m: nat)
    ensures m >= n && FirstFree(base, seen, n) == Numbered(base, m) && Numbered(base, m) !in seen
    ensures forall k :: n <= k < m ==> Numbered(base, k) in seen
    decreases |seen|
  {
    m := n;
    var key := Numbered(base, n);
    if key in seen {
      m := FirstFreeIsTheFirst(base, seen - {key}, n + 1);
      if Numbered(base, m) == key {
        NumberedIsInjective(base, m, n);
      }
    }
  }

  lemma KeyForIsFree(app: string, image: string, seen: set<string>)
    ensures KeyFor(app, image, seen) !in seen
  {
    var m := FirstFreeIsTheFirst(SecondChoice(app, image), seen, 2);
  }

  /** `later` continues `rows` with keys that are new each time. */
  ghost predicate Continues(later: Listing, rows: seq<Row>)
  {
    && later.seen == Keys(later.rows) && FreshFrom(later.rows, |rows|)
    && later.rows[..|rows|] == rows
  }

  lemma AppendFresh(l: Listing, row: Row, rows: seq<Row>)
    requires Continues(l, rows) && row.key !in l.seen
    ensures Continues(Append(l, row), rows)
  {
    var longer := Append(l, row).rows;
    forall i, j | 0 <= i < j < |longer| && |rows| <= j ensures longer[i].key != longer[j].key {
      if j == |l.rows| {
        assert longer[i] == l.rows[i] && l.rows[i] in l.rows;
      }
    }
    assert longer[..|rows|] == l.rows[..|rows|];
    assert Keys(longer) == Keys(l.rows) + {row.key};
  }

  lemma {:induction false} DisabledAreFresh(ctx: Context, l: Listing, sources: seq<Source>, running: set<string>,
                                              rows: seq<Row>)
    requires Continues(l, rows)
    ensures Continues(WithDisabled(ctx, l, sources, running), rows)
  {
    if sources != [] {
      var n := |sources| - 1;
      DisabledAreFresh(ctx, l, sources[..n], running, rows);
      var before, e := WithDisabled(ctx, l, sources[..n], running), sources[n];
      if e.image !in running {
        KeyForIsFree(e.app, e.image, before.seen);
        AppendFresh(before, DisabledRow(ctx, e, KeyFor(e.app, e.image, before.seen)), rows);
      }
    }
  }

  lemma {:induction false} HostsAreFresh(l: Listing, hosts: seq<Host>, rows: seq<Row>)
    requires Continues(l, rows)
    ensures Continues(WithHosts(l, hosts), rows)
  {
    if hosts != [] {
      var n := |hosts| - 1;
      HostsAreFresh(l, hosts[..n], rows);
      var before := WithHosts(l, hosts[..n]);
      if hosts[n].name !in before.seen {
        AppendFresh(before, HostRow(hosts[n]), rows);
      }
    }
  }

  /** Every row after the enabled containers, disabled image or host app, has a key
      that no row before it has. */
  lemma LaterKeysAreFresh(ctx: Context, containers: seq<Container>, hosts: seq<Host>)
    ensures
      var part, out := EnabledPart(ctx, containers).rows, MergedCatalog(ctx, containers, hosts);
      FreshFrom(out, |part|) && out[..|part|] == part
  {
    var part := EnabledPart(ctx, containers);
    assert part.rows[..|part.rows|] == part.rows;
    DisabledAreFresh(ctx, part, ctx.sources, Images(containers), part.rows);
    HostsAreFresh(WithDisabled(ctx, part, ctx.sources, Images(containers)), hosts, part.rows);
  }

  // ----------------------------------------------------- every uncovered image

  function Uncovered(sources: seq<Source>, running: set<string>): seq<Source>
  {
    if sources == [] then []
    else
      var n := |sources| - 1;
      Uncovered(sources[..n], running) + if sources[n].image in running then [] else [sources[n]]
  }

  ghost predicate RowsFor(rows: seq<Row>, sources: seq<Source>)
  {
    |rows| == |sources| && forall i :: 0 <= i < |rows| ==>
      rows[i].app == Some(sources[i].app) && rows[i].image == sources[i].image && !rows[i].enabled && !rows[i].host
  }

  /** Exactly the source images that no enabled container runs get a disabled row,
      one each and in source order. */
  lemma {:induction false} UncoveredImagesAreListed(ctx: Context, l: Listing, sources: seq<Source>,
                                                      running: set<string>)
    ensures
      var rows := WithDisabled(ctx, l, sources, running).rows;
      |rows| >= |l.rows| && rows[..|l.rows|] == l.rows && RowsFor(rows[|l.rows|..], Uncovered(sources, running))
  {
    if sources != [] {
      UncoveredImagesAreListed(ctx, l, sources[..|sources| - 1], running);
    }
  }

  // ------------------------------------------------------- are keys unique?

  lemma {:induction false} KeptKeysDiffer(rows: seq<Row>, away: set<string>)
    requires forall i :: 0 <= i < |rows| ==> rows[i].key == rows[i].name
    requires UniqueKeys(rows)
    ensures UniqueKeys(Without(rows, away))
  {
    if rows != [] {
      var n := |rows| - 1;
      KeptKeysDiffer(rows[..n], away);
      forall r | r in Without(rows[..n], away) ensures r.key != rows[n].key {
        KeptAreRows(rows[..n], away, r);
        var i :| 0 <= i < n && rows[..n][i] == r;
        assert rows[i].key != rows[n].key;
      }
    }
  }

  lemma {:induction false} BigPinsDiffer(groups: seq<Group>)
    requires DistinctPins(groups)
    ensures DistinctPins(Big(groups)) && forall g :: g in Big(groups) ==> g in groups
  {
    if groups != [] {
      var n := |groups| - 1;
      assert groups == groups[..n] + [groups[n]];
      BigPinsDiffer(groups[..n]);
      forall g | g in Big(groups[..n]) ensures g.pin != groups[n].pin {
        var i :| 0 <= i < n && groups[..n][i] == g;
        assert groups[i].pin != groups[n].pin;
      }
    }
  }

  lemma {:induction false} MergedAwayHolds(groups: seq<Group>, g: Group)
    requires g in groups && |g.members| >= 2
    ensures NameSet(g.members) <= MergedAway(groups)
  {
    var n := |groups| - 1;
    if g != groups[n] {
      assert groups == groups[..n] + [groups[n]];
      MergedAwayHolds(groups[..n], g);
    }
  }

  /** The names of the merged groups differ, and a group that falls back to its
      repository's base name meets no container that keeps its own row. */
  ghost predicate NamesFit(groups: seq<Group>, taken: set<string>)
  {
    && (forall g, h :: g in groups && h in groups && |g.members| >= 2 && |h.members| >= 2 && g != h ==>
          GroupName(g, taken) != GroupName(h, taken))
    && (forall g :: g in groups && |g.members| >= 2 && g.pin.0 in taken - NameSet(g.members) ==>
          AfterLast(g.pin.1, '/') !in taken - MergedAway(groups))
  }

  lemma KeptMeetsMerged(rows: seq<Row>, groups: seq<Group>, g: Group, row: Row)
    requires g in groups && |g.members| >= 2
    requires row in rows && row.name !in MergedAway(groups) && row.name == GroupName(g, NameSet(rows))
    ensures !NamesFit(groups, NameSet(rows))
  {
    MergedAwayHolds(groups, g);
    assert row.name in NameSet(rows);
  }

  lemma FitIsEnough(ctx: Context, rows: seq<Row>)
    requires (forall i :: 0 <= i < |rows| ==> rows[i].key == rows[i].name) && UniqueKeys(rows)
    requires NamesFit(GroupsOf(ctx, rows), NameSet(rows))
    ensures UniqueKeys(Collapsed(ctx, rows))
  {
    var groups, taken := GroupsOf(ctx, rows), NameSet(rows);
    var kept, merged, big := Without(rows, MergedAway(groups)), MergedRows(ctx, groups, taken), Big(groups);
    KeptKeysDiffer(rows, MergedAway(groups));
    GroupsArePinned(ctx, rows, ("", ""));
    BigPinsDiffer(groups);
    BigGroups(ctx, groups, taken);
    forall i, j | 0 <= i < |kept| && 0 <= j < |merged| ensures kept[i].key != merged[j].key {
      KeptAreRows(rows, MergedAway(groups), kept[i]);
      if kept[i].name == GroupName(big[j], taken) {
        KeptMeetsMerged(rows, groups, big[j], kept[i]);
      }
    }
    forall i, j | 0 <= i < j < |merged| ensures merged[i].key != merged[j].key {
      assert big[i].pin != big[j].pin;
      assert big[i] in groups && big[j] in groups;
    }
  }

  lemma MergedAt(ctx: Context, groups: seq<Group>, taken: set<string>, g: Group) returns (i: nat)
    requires g in groups && |g.members| >= 2
    ensures i < |Big(groups)| == |MergedRows(ctx, groups, taken)| && Big(groups)[i] == g
    ensures MergedRows(ctx, groups, taken)[i].key == GroupName(g, taken)
  {
    BigGroups(ctx, groups, taken);
    assert g in Big(groups);
    i :| 0 <= i < |Big(groups)| && Big(groups)[i] == g;
  }

  lemma MergedNamesDiffer(ctx: Context, kept: seq<Row>, groups: seq<Group>, taken: set<string>, g: Group, h: Group)
    requires UniqueKeys(kept + MergedRows(ctx, groups, taken))
    requires g in groups && h in groups && |g.members| >= 2 && |h.members| >= 2 && g != h
    ensures GroupName(g, taken) != GroupName(h, taken)
  {
    var all := kept + MergedRows(ctx, groups, taken);
    var i := MergedAt(ctx, groups, taken, g);
    var j := MergedAt(ctx, groups, taken, h);
    assert all[|kept| + i].key == GroupName(g, taken) && all[|kept| + j].key == GroupName(h, taken);
  }

  lemma KeptNameIsFree(ctx: Context, kept: seq<Row>, groups: seq<Group>, taken: set<string>, g: Group, r: Row)
    requires UniqueKeys(kept + MergedRows(ctx, groups, taken))
    requires g in groups && |g.members| >= 2 && r in kept
    ensures r.key != GroupName(g, taken)
  {
    var all := kept + MergedRows(ctx, groups, taken);
    var i := MergedAt(ctx, groups, taken, g);
    var k :| 0 <= k < |kept| && kept[k] == r;
    assert all[k] == r && all[|kept| + i].key == GroupName(g, taken);
  }

  lemma FitIsNeeded(ctx: Context, rows: seq<Row>)
    requires forall i :: 0 <= i < |rows| ==> rows[i].key == rows[i].name
    requires UniqueKeys(Collapsed(ctx, rows))
    ensures NamesFit(GroupsOf(ctx, rows), NameSet(rows))
  {
    var groups, taken := GroupsOf(ctx, rows), NameSet(rows);
    var kept := Without(rows, MergedAway(groups));
    forall g, h | g in groups && h in groups && |g.members| >= 2 && |h.members| >= 2 && g != h
      ensures GroupName(g, taken) != GroupName(h, taken)
    {
      MergedNamesDiffer(ctx, kept, groups, taken, g, h);
    }
    forall g | g in groups && |g.members| >= 2 && g.pin.0 in taken - NameSet(g.members)
      ensures AfterLast(g.pin.1, '/') !in taken - MergedAway(groups)
    {
      forall r | r in rows && r.name !in MergedAway(groups) ensures r.name != AfterLast(g.pin.1, '/') {
        KeptAreRows(rows, MergedAway(groups), r);
        KeptNameIsFree(ctx, kept, groups, taken, g, r);
      }
    }
  }

  /** The catalog's keys are unique, as its documentation promises, exactly when the
      names of the merged groups fit. */
  lemma KeysAreUniqueExactlyWhen(ctx: Context, containers: seq<Container>, hosts: seq<Host>)
    requires DistinctNames(containers)
    ensures
      var rows := OwnRows(ctx, containers);
      UniqueKeys(MergedCatalog(ctx, containers, hosts)) <==> NamesFit(GroupsOf(ctx, rows), NameSet(rows))
  {
    var rows := OwnRows(ctx, containers);
    var part, out := EnabledPart(ctx, containers).rows, MergedCatalog(ctx, containers, hosts);
    LaterKeysAreFresh(ctx, containers, hosts);
    assert UniqueKeys(rows) by {
      forall i, j | 0 <= i < j < |rows| ensures rows[i].key != rows[j].key {
        assert containers[i].name != containers[j].name;
      }
    }
    if UniqueKeys(out) {
      forall i, j | 0 <= i < j < |part| ensures part[i].key != part[j].key {
        assert part[i] == out[i] && part[j] == out[j];
      }
      FitIsNeeded(ctx, rows);
    }
    if NamesFit(GroupsOf(ctx, rows), NameSet(rows)) {
      FitIsEnough(ctx, rows);
      forall i, j | 0 <= i < j < |out| ensures out[i].key != out[j].key {
        if j < |part| {
          assert part[i] == out[i] && part[j] == out[j];
        }
      }
    }
  }

  /** An app with two source images, each run by two or more containers, gets two
      merged rows under one key. */
  lemma TwoImagesOneKey(ctx: Context, containers: seq<Container>, hosts: seq<Host>,
                        app: string, one: string, two: string, a: Container, b: Container, c: Container, d: Container)
    requires DistinctNames(containers) && one != two
    requires a in containers && b in containers && c in containers && d in containers
    requires a.name != b.name && c.name != d.name
    requires PinOf(ctx, a.image) == PinOf(ctx, b.image) == Some((app, one))
    requires PinOf(ctx, c.image) == PinOf(ctx, d.image) == Some((app, two))
    requires forall x :: x in containers ==> x.name != app
    ensures !UniqueKeys(MergedCatalog(ctx, containers, hosts))
  {
    var rows := OwnRows(ctx, containers);
    var taken := NameSet(rows);
    OwnRowIn(ctx, containers, a);
    OwnRowIn(ctx, containers, b);
    OwnRowIn(ctx, containers, c);
    OwnRowIn(ctx, containers, d);
    var g := PinMakesAGroup(ctx, rows, OwnRow(ctx, a), OwnRow(ctx, b), (app, one));
    var h := PinMakesAGroup(ctx, rows, OwnRow(ctx, c), OwnRow(ctx, d), (app, two));
    forall r | r in rows ensures r.name != app {
      var i :| 0 <= i < |rows| && rows[i] == r;
      assert containers[i] in containers;
    }
    assert GroupName(g, taken) == app == GroupName(h, taken);
    KeysAreUniqueExactlyWhen(ctx, containers, hosts);
  }

  lemma OwnRowIn(ctx: Context, containers: seq<Container>, c: Container)
    requires c in containers
    ensures OwnRow(ctx, c) in OwnRows(ctx, containers)
  {
    var i :| 0 <= i < |containers| && containers[i] == c;
    assert OwnRows(ctx, containers)[i] == OwnRow(ctx, c);
  }

  function Exact(image: string): string
  {
    image
  }

  lemma SuchCatalogsExist(ctx: Context, containers: seq<Container>)
    requires ctx == Context(Exact, [Source("a", "x"), Source("a", "y")], map[])
    requires containers == [Container("1", "x", false), Container("2", "x", false),
                            Container("3", "y", false), Container("4", "y", false)]
    ensures !UniqueKeys(MergedCatalog(ctx, containers, []))
  {
    assert ctx.sources[..1] == [Source("a", "x")] && ctx.sources[..1][..0] == [];
    assert Entry<string>(map[], "x") + {"a"} == {"a"} && Entry(map["x" := {"a"}], "y") + {"a"} == {"a"};
    assert AppsByRepo(ctx.sources[..1], ctx.repoKey) == map["x" := {"a"}];
    assert AppsByRepo(ctx.sources, ctx.repoKey) == map["x" := {"a"}, "y" := {"a"}];
    SingletonsHaveOne({"a"});
    assert PinOf(ctx, "x") == Some(("a", "x")) && PinOf(ctx, "y") == Some(("a", "y"));
    TwoImagesOneKey(ctx, containers, [], "a", "x", "y", containers[0], containers[1], containers[2], containers[3]);
  }
}
