/** What the merged catalog keeps: every enabled container exactly once, merged by
    source pin, and keys that differ from all keys placed before. */
module CatalogProofs {
  import opened Options
  import opened Catalog

  ghost predicate DistinctNames(containers: seq<Container>)
  {
    forall i, j :: 0 <= i < j < |containers| ==> containers[i].name != containers[j].name
  }

  // ------------------------------------------------------------ conservation

  /** How often a row shows a container: as itself, or among its members. */
  function Shows(row: Row, name: string): nat
  {
    if row.members != [] then multiset(row.members)[name]
    else if row.enabled && !row.host && row.name == name then 1
    else 0
  }

  function Appearances(rows: seq<Row>, name: string): nat
  {
    if rows == [] then 0 else Appearances(rows[..|rows| - 1], name) + Shows(rows[|rows| - 1], name)
  }

  function CountName(rows: seq<Row>, name: string): nat
  {
    if rows == [] then 0 else CountName(rows[..|rows| - 1], name) + if rows[|rows| - 1].name == name then 1 else 0
  }

  predicate AllOwn(rows: seq<Row>)
  {
    forall i :: 0 <= i < |rows| ==> rows[i].members == [] && rows[i].enabled && !rows[i].host
  }

  lemma {:induction false} AppearancesAdd(a: seq<Row>, b: seq<Row>, name: string)
    ensures Appearances(a + b, name) == Appearances(a, name) + Appearances(b, name)
  {
    if b == [] {
      assert a + b == a;
    } else {
      var n := |b| - 1;
      assert (a + b)[..|a| + n] == a + b[..n];
      AppearancesAdd(a, b[..n], name);
    }
  }

  lemma AppearancesOneMore(rows: seq<Row>, row: Row, name: string)
    ensures Appearances(rows + [row], name) == Appearances(rows, name) + Shows(row, name)
  {
    assert (rows + [row])[..|rows|] == rows;
  }

  lemma {:induction false} KeptAppear(rows: seq<Row>, away: set<string>, name: string)
    requires AllOwn(rows)
    ensures Appearances(Without(rows, away), name) == if name in away then 0 else CountName(rows, name)
  {
    if rows != [] {
      var n := |rows| - 1;
      KeptAppear(rows[..n], away, name);
      AppearancesOneMore(Without(rows[..n], away), rows[n], name);
    }
  }

  lemma {:induction false} NamesCount(rows: seq<Row>, name: string)
    ensures multiset(Names(rows))[name] == CountName(rows, name)
    ensures name in NameSet(rows) <==> CountName(rows, name) > 0
  {
    if rows != [] {
      var n := |rows| - 1;
      NamesCount(rows[..n], name);
      assert Names(rows) == Names(rows[..n]) + [rows[n].name];
      assert rows == rows[..n] + [rows[n]];
      assert NameSet(rows) == NameSet(rows[..n]) + {rows[n].name};
    }
  }

  /** Members with this name in the groups that are merged. */
  function MergedTotal(groups: seq<Group>, name: string): nat
  {
    if groups == [] then 0
    else
      var n := |groups| - 1;
      MergedTotal(groups[..n], name) + if |groups[n].members| < 2 then 0 else CountName(groups[n].members, name)
  }

  /** Members with this name in all groups. */
  function Total(groups: seq<Group>, name: string): nat
  {
    if groups == [] then 0 else CountName(groups[0].members, name) + Total(groups[1..], name)
  }

  lemma {:induction false} TotalFromTheEnd(groups: seq<Group>, last: Group, name: string)
    ensures Total(groups + [last], name) == Total(groups, name) + CountName(last.members, name)
  {
    if groups == [] {
      assert [last][1..] == [];
    } else {
      assert (groups + [last])[1..] == groups[1..] + [last];
      TotalFromTheEnd(groups[1..], last, name);
    }
  }

  lemma MergedShows(ctx: Context, g: Group, taken: set<string>, name: string)
    requires |g.members| >= 2
    ensures Shows(MergedRow(ctx, g, taken), name) == CountName(g.members, name)
  {
    var members := MergedRow(ctx, g, taken).members;
    assert |multiset(members)| == |multiset(Names(g.members))|;
    NamesCount(g.members, name);
  }

  lemma {:induction false} MergedAppear(ctx: Context, groups: seq<Group>, taken: set<string>, name: string)
    ensures Appearances(MergedRows(ctx, groups, taken), name) == MergedTotal(groups, name)
    ensures name in MergedAway(groups) <==> MergedTotal(groups, name) > 0
    ensures MergedTotal(groups, name) <= Total(groups, name)
  {
    if groups != [] {
      var n := |groups| - 1;
      var g := groups[n];
      MergedAppear(ctx, groups[..n], taken, name);
      assert groups == groups[..n] + [g];
      TotalFromTheEnd(groups[..n], g, name);
      NamesCount(g.members, name);
      if |g.members| >= 2 {
        MergedShows(ctx, g, taken, name);
        AppearancesOneMore(MergedRows(ctx, groups[..n], taken), MergedRow(ctx, g, taken), name);
      }
    }
  }

  lemma CountOneMore(rows: seq<Row>, row: Row, name: string)
    ensures CountName(rows + [row], name) == CountName(rows, name) + if row.name == name then 1 else 0
  {
    assert (rows + [row])[..|rows|] == rows;
  }

  lemma TotalHead(g: Group, rest: seq<Group>, name: string)
    ensures Total([g] + rest, name) == CountName(g.members, name) + Total(rest, name)
  {
    assert ([g] + rest)[1..] == rest;
  }

  lemma {:induction false} AddMemberCounts(groups: seq<Group>, pin: (string, string), row: Row, name: string)
    ensures Total(AddMember(groups, pin, row), name) == Total(groups, name) + if row.name == name then 1 else 0
  {
    if groups == [] {
      CountOneMore([], row, name);
      assert [] + [row] == [row] && [Group(pin, [row])] + [] == [Group(pin, [row])];
      TotalHead(Group(pin, [row]), [], name);
    } else if groups[0].pin == pin {
      CountOneMore(groups[0].members, row, name);
      TotalHead(groups[0].(members := groups[0].members + [row]), groups[1..], name);
    } else {
      AddMemberCounts(groups[1..], pin, row, name);
      TotalHead(groups[0], AddMember(groups[1..], pin, row), name);
    }
  }

  lemma {:induction false} GroupsCount(ctx: Context, rows: seq<Row>, name: string)
    ensures Total(GroupsOf(ctx, rows), name) <= CountName(rows, name)
  {
    if rows != [] {
      var n := |rows| - 1;
      GroupsCount(ctx, rows[..n], name);
      var pin := PinOf(ctx, rows[n].image);
      if pin.Some? {
        AddMemberCounts(GroupsOf(ctx, rows[..n]), pin.value, rows[n], name);
      }
    }
  }

  ghost predicate HasName(containers: seq<Container>, name: string)
  {
    exists c :: c in containers && c.name == name
  }

  lemma OneMoreName(front: seq<Container>, last: Container, name: string)
    ensures HasName(front + [last], name) <==> HasName(front, name) || last.name == name
    ensures DistinctNames(front + [last]) && last.name == name ==> !HasName(front, name)
  {
    var all := front + [last];
    assert last in all;
    if DistinctNames(all) && last.name == name {
      forall c | c in front ensures c.name != name {
        var i :| 0 <= i < |front| && front[i] == c;
        assert all[i].name != all[|front|].name;
      }
    }
  }

  lemma {:induction false} OwnRowsCount(ctx: Context, containers: seq<Container>, name: string)
    requires DistinctNames(containers)
    ensures CountName(OwnRows(ctx, containers), name) == if HasName(containers, name) then 1 else 0
  {
    if containers != [] {
      var n := |containers| - 1;
      var front := containers[..n];
      OwnRowsCount(ctx, front, name);
      assert OwnRows(ctx, containers)[..n] == OwnRows(ctx, front);
      assert containers == front + [containers[n]];
      OneMoreName(front, containers[n], name);
    }
  }

  lemma CollapseConserves(ctx: Context, rows: seq<Row>, name: string)
    requires AllOwn(rows) && CountName(rows, name) <= 1
    ensures Appearances(Collapsed(ctx, rows), name) == CountName(rows, name)
  {
    var groups := GroupsOf(ctx, rows);
    KeptAppear(rows, MergedAway(groups), name);
    MergedAppear(ctx, groups, NameSet(rows), name);
    GroupsCount(ctx, rows, name);
    AppearancesAdd(Without(rows, MergedAway(groups)), MergedRows(ctx, groups, NameSet(rows)), name);
  }

  lemma AppendShowsNothing(l: Listing, row: Row, name: string)
    requires row.members == [] && (!row.enabled || row.host)
    ensures Appearances(Append(l, row).rows, name) == Appearances(l.rows, name)
  {
    AppearancesOneMore(l.rows, row, name);
  }

  lemma {:induction false} DisabledShowNothing(ctx: Context, l: Listing, sources: seq<Source>, running: set<string>,
                                                 name: string)
    ensures Appearances(WithDisabled(ctx, l, sources, running).rows, name) == Appearances(l.rows, name)
  {
    if sources != [] {
      var n := |sources| - 1;
      DisabledShowNothing(ctx, l, sources[..n], running, name);
      var before, e := WithDisabled(ctx, l, sources[..n], running), sources[n];
      AppendShowsNothing(before, DisabledRow(ctx, e, KeyFor(e.app, e.image, before.seen)), name);
    }
  }

  lemma {:induction false} HostsShowNothing(l: Listing, hosts: seq<Host>, name: string)
    ensures Appearances(WithHosts(l, hosts).rows, name) == Appearances(l.rows, name)
  {
    if hosts != [] {
      var n := |hosts| - 1;
      HostsShowNothing(l, hosts[..n], name);
      AppendShowsNothing(WithHosts(l, hosts[..n]), HostRow(hosts[n]), name);
    }
  }

  /** Every enabled container is in the catalog exactly once, as its own row or as one
      member of one merged row, and nothing else is shown as a container. */
  lemma EveryContainerAppearsOnce(ctx: Context, containers: seq<Container>, hosts: seq<Host>, name: string)
    requires DistinctNames(containers)
    ensures Appearances(MergedCatalog(ctx, containers, hosts), name) == if HasName(containers, name) then 1 else 0
  {
    var part := EnabledPart(ctx, containers);
    OwnRowsCount(ctx, containers, name);
    CollapseConserves(ctx, OwnRows(ctx, containers), name);
    DisabledShowNothing(ctx, part, ctx.sources, Images(containers), name);
    HostsShowNothing(WithDisabled(ctx, part, ctx.sources, Images(containers)), hosts, name);
  }

  // --------------------------------------------------- merging by source pin

  /** The rows of one pin, in order. */
  function Pinned(ctx: Context, rows: seq<Row>, pin: (string, string)): seq<Row>
  {
    if rows == [] then []
    else
      var n := |rows| - 1;
      var before := Pinned(ctx, rows[..n], pin);
      if PinOf(ctx, rows[n].image) == Some(pin) then before + [rows[n]] else before
  }

  lemma {:induction false} InPinned(ctx: Context, rows: seq<Row>, pin: (string, string), row: Row)
    ensures row in Pinned(ctx, rows, pin) <==> row in rows && PinOf(ctx, row.image) == Some(pin)
  {
    if rows != [] {
      var n := |rows| - 1;
      assert rows == rows[..n] + [rows[n]];
      InPinned(ctx, rows[..n], pin, row);
    }
  }

  /** The members recorded for a pin; [] when it has no group. */
  function MembersFor(groups: seq<Group>, pin: (string, string)): seq<Row>
  {
    if groups == [] then []
    else if groups[0].pin == pin then groups[0].members
    else MembersFor(groups[1..], pin)
  }

  ghost predicate DistinctPins(groups: seq<Group>)
  {
    forall i, j :: 0 <= i < j < |groups| ==> groups[i].pin != groups[j].pin
  }

  lemma {:induction false} AddMemberFor(groups: seq<Group>, pin: (string, string), row: Row, p: (string, string))
    ensures MembersFor(AddMember(groups, pin, row), p)
         == if p == pin then MembersFor(groups, p) + [row] else MembersFor(groups, p)
  {
    if groups == [] {
      assert AddMember(groups, pin, row) == [Group(pin, [row])] && [Group(pin, [row])][1..] == [];
      assert [] + [row] == [row];
    } else if groups[0].pin != pin {
      AddMemberFor(groups[1..], pin, row, p);
    }
  }

  lemma {:induction false} AddMemberPins(groups: seq<Group>, pin: (string, string), row: Row)
    requires DistinctPins(groups) && forall i :: 0 <= i < |groups| ==> groups[i].members != []
    ensures DistinctPins(AddMember(groups, pin, row))
    ensures forall g :: g in AddMember(groups, pin, row) ==>
      g.members != [] && (g.pin == pin || exists h :: h in groups && h.pin == g.pin)
  {
    if groups != [] && groups[0].pin != pin {
      var rest := AddMember(groups[1..], pin, row);
      AddMemberPins(groups[1..], pin, row);
      forall i | 0 <= i < |rest| ensures rest[i].pin != groups[0].pin {
        assert rest[i] in rest;
        if rest[i].pin != pin {
          var h :| h in groups[1..] && h.pin == rest[i].pin;
          var j :| 0 <= j < |groups[1..]| && groups[1..][j] == h;
          assert groups[0].pin != groups[j + 1].pin;
        }
      }
    }
  }

  lemma {:induction false} DistinctPinsFind(groups: seq<Group>, i: nat)
    requires DistinctPins(groups) && i < |groups|
    ensures MembersFor(groups, groups[i].pin) == groups[i].members
  {
    if i > 0 {
      DistinctPinsFind(groups[1..], i - 1);
    }
  }

  lemma {:induction false} GroupsArePinned(ctx: Context, rows: seq<Row>, pin: (string, string))
    ensures MembersFor(GroupsOf(ctx, rows), pin) == Pinned(ctx, rows, pin)
    ensures DistinctPins(GroupsOf(ctx, rows))
    ensures forall i :: 0 <= i < |GroupsOf(ctx, rows)| ==> GroupsOf(ctx, rows)[i].members != []
  {
    if rows != [] {
      var n := |rows| - 1;
      GroupsArePinned(ctx, rows[..n], pin);
      var p := PinOf(ctx, rows[n].image);
      if p.Some? {
        AddMemberFor(GroupsOf(ctx, rows[..n]), p.value, rows[n], pin);
        AddMemberPins(GroupsOf(ctx, rows[..n]), p.value, rows[n]);
      }
    }
  }

  /** The groups that are merged, in order. */
  function Big(groups: seq<Group>): seq<Group>
  {
    if groups == [] then []
    else
      var n := |groups| - 1;
      if |groups[n].members| < 2 then Big(groups[..n]) else Big(groups[..n]) + [groups[n]]
  }

  lemma {:induction false} BigGroups(ctx: Context, groups: seq<Group>, taken: set<string>)
    ensures forall g :: g in Big(groups) <==> g in groups && |g.members| >= 2
    ensures |MergedRows(ctx, groups, taken)| == |Big(groups)|
    ensures forall i :: 0 <= i < |Big(groups)| ==>
      |Big(groups)[i].members| >= 2 && MergedRows(ctx, groups, taken)[i] == MergedRow(ctx, Big(groups)[i], taken)
  {
    if groups != [] {
      var n := |groups| - 1;
      assert groups == groups[..n] + [groups[n]];
      BigGroups(ctx, groups[..n], taken);
    }
  }

  /** A merged row made from this pin's containers. */
  ghost predicate ShowsPin(ctx: Context, containers: seq<Container>, row: Row, pin: (string, string))
  {
    && row.app == Some(pin.0)
    && forall name :: name in row.members <==>
         exists c :: c in containers && c.name == name && PinOf(ctx, c.image) == Some(pin)
  }

  lemma PinnedNames(ctx: Context, containers: seq<Container>, pin: (string, string), name: string)
    ensures name in Sorted(Names(Pinned(ctx, OwnRows(ctx, containers), pin)))
       <==> exists c :: c in containers && c.name == name && PinOf(ctx, c.image) == Some(pin)
  {
    var rows := OwnRows(ctx, containers);
    var members := Pinned(ctx, rows, pin);
    assert multiset(Sorted(Names(members)))[name] == multiset(Names(members))[name];
    if name in Sorted(Names(members)) {
      assert name in multiset(Sorted(Names(members)));
      assert name in Names(members);
      var i :| 0 <= i < |members| && members[i].name == name;
      InPinned(ctx, rows, pin, members[i]);
      var j :| 0 <= j < |rows| && rows[j] == members[i];
      assert containers[j] in containers;
    }
    if c :| c in containers && c.name == name && PinOf(ctx, c.image) == Some(pin) {
      var j :| 0 <= j < |containers| && containers[j] == c;
      InPinned(ctx, rows, pin, rows[j]);
      var i :| 0 <= i < |members| && members[i] == rows[j];
      assert Names(members)[i] == name;
      assert name in multiset(Names(members));
      assert name in multiset(Sorted(Names(members)));
    }
  }

  lemma RowShowsItsPin(ctx: Context, containers: seq<Container>, g: Group, taken: set<string>)
    requires g.members == Pinned(ctx, OwnRows(ctx, containers), g.pin) && |g.members| >= 2
    ensures ShowsPin(ctx, containers, MergedRow(ctx, g, taken), g.pin) && |MergedRow(ctx, g, taken).members| >= 2
  {
    var row := MergedRow(ctx, g, taken);
    assert |multiset(row.members)| == |multiset(Names(g.members))|;
    forall name
      ensures name in row.members <==>
        exists c :: c in containers && c.name == name && PinOf(ctx, c.image) == Some(g.pin)
    {
      PinnedNames(ctx, containers, g.pin, name);
    }
  }

  lemma GroupIsPinned(ctx: Context, rows: seq<Row>, g: Group)
    requires g in GroupsOf(ctx, rows)
    ensures g.members == Pinned(ctx, rows, g.pin)
  {
    GroupsArePinned(ctx, rows, g.pin);
    var j :| 0 <= j < |GroupsOf(ctx, rows)| && GroupsOf(ctx, rows)[j] == g;
    DistinctPinsFind(GroupsOf(ctx, rows), j);
  }

  lemma {:induction false} GroupHasARow(ctx: Context, groups: seq<Group>, taken: set<string>, g: Group)
    requires g in groups && |g.members| >= 2
    ensures MergedRow(ctx, g, taken) in MergedRows(ctx, groups, taken)
  {
    var n := |groups| - 1;
    if g != groups[n] {
      assert groups == groups[..n] + [groups[n]];
      GroupHasARow(ctx, groups[..n], taken, g);
    }
  }

  lemma {:induction false} RowHasAGroup(ctx: Context, groups: seq<Group>, taken: set<string>, row: Row)
    returns (g: Group)
    requires row in MergedRows(ctx, groups, taken)
    ensures g in groups && |g.members| >= 2 && row == MergedRow(ctx, g, taken)
  {
    var n := |groups| - 1;
    if row in MergedRows(ctx, groups[..n], taken) {
      g := RowHasAGroup(ctx, groups[..n], taken, row);
    } else {
      g := groups[n];
    }
  }

  /** A merged row holds exactly the containers of one source pin. */
  lemma MergedRowsArePins(ctx: Context, containers: seq<Container>, row: Row)
    requires row in EnabledPart(ctx, containers).rows && row.members != []
    ensures |row.members| >= 2 && exists pin :: ShowsPin(ctx, containers, row, pin)
  {
    var rows := OwnRows(ctx, containers);
    var groups := GroupsOf(ctx, rows);
    KeptAreRows(rows, MergedAway(groups), row);
    var g := RowHasAGroup(ctx, groups, NameSet(rows), row);
    GroupIsPinned(ctx, rows, g);
    RowShowsItsPin(ctx, containers, g, NameSet(rows));
  }

  lemma {:induction false} KeptAreRows(rows: seq<Row>, away: set<string>, row: Row)
    ensures row in Without(rows, away) <==> row in rows && row.name !in away
  {
    if rows != [] {
      var n := |rows| - 1;
      assert rows == rows[..n] + [rows[n]];
      KeptAreRows(rows[..n], away, row);
    }
  }

  lemma {:induction false} FindGroup(groups: seq<Group>, pin: (string, string)) returns (i: nat)
    requires MembersFor(groups, pin) != []
    ensures i < |groups| && groups[i].pin == pin && groups[i].members == MembersFor(groups, pin)
  {
    if groups[0].pin == pin {
      i := 0;
    } else {
      i := FindGroup(groups[1..], pin);
      i := i + 1;
    }
  }

  lemma TwoMembers(rows: seq<Row>, a: Row, b: Row)
    requires a in rows && b in rows && a != b
    ensures |rows| >= 2
  {
    var i :| 0 <= i < |rows| && rows[i] == a;
    var j :| 0 <= j < |rows| && rows[j] == b;
  }

  /** Two rows of one pin make a group that is merged. */
  lemma PinMakesAGroup(ctx: Context, rows: seq<Row>, a: Row, b: Row, pin: (string, string)) returns (g: Group)
    requires a in rows && b in rows && a != b && PinOf(ctx, a.image) == Some(pin) == PinOf(ctx, b.image)
    ensures g in GroupsOf(ctx, rows) && g.pin == pin && |g.members| >= 2 && g.members == Pinned(ctx, rows, pin)
  {
    GroupsArePinned(ctx, rows, pin);
    InPinned(ctx, rows, pin, a);
    InPinned(ctx, rows, pin, b);
    var k := FindGroup(GroupsOf(ctx, rows), pin);
    g := GroupsOf(ctx, rows)[k];
    TwoMembers(g.members, a, b);
  }

  /** Two containers of one source pin always share a row. */
  lemma SamePinSharesARow(ctx: Context, containers: seq<Container>, a: Container, b: Container, pin: (string, string))
    returns (row: Row)
    requires a in containers && b in containers && a.name != b.name
    requires PinOf(ctx, a.image) == Some(pin) == PinOf(ctx, b.image)
    ensures row in EnabledPart(ctx, containers).rows && ShowsPin(ctx, containers, row, pin)
    ensures a.name in row.members && b.name in row.members
  {
    var rows := OwnRows(ctx, containers);
    var i :| 0 <= i < |containers| && containers[i] == a;
    var j :| 0 <= j < |containers| && containers[j] == b;
    assert rows[i] in rows && rows[j] in rows;
    var g := PinMakesAGroup(ctx, rows, rows[i], rows[j], pin);
    row := MergedRow(ctx, g, NameSet(rows));
    RowShowsItsPin(ctx, containers, g, NameSet(rows));
    GroupHasARow(ctx, GroupsOf(ctx, rows), NameSet(rows), g);
  }

  lemma {:induction false} PinHasAnImage(sources: seq<Source>, repoKey: RepoKey, app: string, repo: string)
    ensures app in Entry(AppsByRepo(sources, repoKey), repo) <==> (app, repo) in ImageByPin(sources, repoKey)
    ensures (app, repo) in ImageByPin(sources, repoKey) ==> exists s ::
      s in sources && s.app == app && repoKey(s.image) == repo && ImageByPin(sources, repoKey)[(app, repo)] == s.image
  {
    if sources != [] {
      var n := |sources| - 1;
      PinHasAnImage(sources[..n], repoKey, app, repo);
      assert sources == sources[..n] + [sources[n]];
      if repoKey(sources[n].image) == repo && sources[n].app == app {
        assert sources[n] in sources;
      }
    }
  }

  /** A merged row tracks its pin's image as the source tree has it, which is what a
      bump can rewrite, not the image of any one container. */
  lemma MergedRowTracksTheSource(ctx: Context, containers: seq<Container>, row: Row) returns (s: Source)
    requires row in EnabledPart(ctx, containers).rows && row.members != []
    ensures s in ctx.sources && row.image == s.image && ShowsPin(ctx, containers, row, (s.app, ctx.repoKey(s.image)))
  {
    var rows := OwnRows(ctx, containers);
    var groups := GroupsOf(ctx, rows);
    KeptAreRows(rows, MergedAway(groups), row);
    var g := RowHasAGroup(ctx, groups, NameSet(rows), row);
    GroupIsPinned(ctx, rows, g);
    RowShowsItsPin(ctx, containers, g, NameSet(rows));
    InPinned(ctx, rows, g.pin, g.members[0]);
    assert g.members[0] in g.members;
    PinHasAnImage(ctx.sources, ctx.repoKey, g.pin.0, g.pin.1);
    var image := ImageByPin(ctx.sources, ctx.repoKey)[g.pin];
    s :| s in ctx.sources && s.app == g.pin.0 && ctx.repoKey(s.image) == g.pin.1 && image == s.image;
  }
}
