/** What the rows of the merged catalog hold: each kind of row, field by field, in terms
    of containers, sources and hosts. */
module CatalogRows {
  import opened Options
  import Text
  import opened Catalog
  import opened CatalogProofs
  import opened CatalogKeys

  // ------------------------------------------------------------- source pins

  ghost predicate Pins(repoKey: RepoKey, s: Source, app: string, repo: string)
  {
    s.app == app && repoKey(s.image) == repo
  }

  lemma {:induction false} AppsExactly(sources: seq<Source>, repoKey: RepoKey, app: string, repo: string)
    ensures app in Entry(AppsByRepo(sources, repoKey), repo) <==>
      repo != "" && exists s :: s in sources && Pins(repoKey, s, app, repo)
  {
    if sources != [] {
      var n := |sources| - 1;
      AppsExactly(sources[..n], repoKey, app, repo);
      assert sources == sources[..n] + [sources[n]];
      if repo != "" && Pins(repoKey, sources[n], app, repo) {
        assert sources[n] in sources;
      }
      if s :| s in sources[..n] && Pins(repoKey, s, app, repo) {
        assert s in sources;
      }
    }
  }

  lemma SoleAppExactly(apps: set<string>, app: string)
    ensures SoleApp(apps) == Some(app) <==> app in apps && forall other :: other in apps ==> other == app
  {
    if app in apps && forall other :: other in apps ==> other == app {
      assert apps == {app};
    }
    if |apps| == 1 {
      SingletonsHaveOne(apps);
    }
  }

  /** An image belongs to a source pin exactly when it names a repository that some
      source pins and only that app's sources do. */
  lemma PinExactly(ctx: Context, image: string, app: string, repo: string)
    ensures PinOf(ctx, image) == Some((app, repo)) <==>
      && repo == ctx.repoKey(image) && repo != ""
      && (exists s :: s in ctx.sources && Pins(ctx.repoKey, s, app, repo))
      && (forall s :: s in ctx.sources && ctx.repoKey(s.image) == repo ==> s.app == app)
  {
    var apps := Entry(AppsByRepo(ctx.sources, ctx.repoKey), ctx.repoKey(image));
    SoleAppExactly(apps, app);
    forall other
      ensures other in apps <==>
        && ctx.repoKey(image) != ""
        && exists s :: s in ctx.sources && Pins(ctx.repoKey, s, other, ctx.repoKey(image))
    {
      AppsExactly(ctx.sources, ctx.repoKey, other, ctx.repoKey(image));
    }
    if PinOf(ctx, image) == Some((app, repo)) {
      forall s | s in ctx.sources && ctx.repoKey(s.image) == repo ensures s.app == app {
        assert Pins(ctx.repoKey, s, s.app, repo);
        assert s.app in apps;
      }
    }
  }

  /** A pin's image is that of its last source line. */
  lemma {:induction false} PinHasItsLastImage(sources: seq<Source>, repoKey: RepoKey, i: nat)
    requires i < |sources| && repoKey(sources[i].image) != ""
    requires forall j :: i < j < |sources| ==> !Pins(repoKey, sources[j], sources[i].app, repoKey(sources[i].image))
    ensures
      var pin := (sources[i].app, repoKey(sources[i].image));
      pin in ImageByPin(sources, repoKey) && ImageByPin(sources, repoKey)[pin] == sources[i].image
  {
    var n := |sources| - 1;
    if i < n {
      assert !Pins(repoKey, sources[n], sources[i].app, repoKey(sources[i].image));
      PinHasItsLastImage(sources[..n], repoKey, i);
    }
  }

  // ------------------------------------------------------------------ texts

  lemma {:induction false} AfterLastExactly(path: string, c: char, rest: string)
    requires c !in rest
    ensures AfterLast(path + [c] + rest, c) == rest && AfterLast(rest, c) == rest
  {
    if rest != "" {
      var n := |rest| - 1;
      AfterLastExactly(path, c, rest[..n]);
      assert (path + [c] + rest)[..|path| + 1 + n] == path + [c] + rest[..n];
      assert rest[..n] + [rest[n]] == rest;
    }
  }

  lemma {:induction false} BeforeFirstExactly(start: string, c: char, rest: string)
    requires c !in start && (rest == "" || rest[0] == c)
    ensures BeforeFirst(start + rest, c) == start
  {
    if start == "" {
      assert start + rest == rest;
    } else {
      assert (start + rest)[1..] == start[1..] + rest;
      BeforeFirstExactly(start[1..], c, rest);
    }
  }

  /** The base name of an image: after the last slash, up to its tag or digest. */
  lemma SegmentExactly(path: string, name: string, end: string)
    requires '/' !in name && '@' !in name && ':' !in name && '/' !in end
    requires end == "" || end[0] == ':' || end[0] == '@'
    ensures Segment(path + "/" + (name + end)) == name && Segment(name + end) == name
  {
    AfterLastExactly(path, '/', name + end);
    CutAtDigest(name, end);
  }

  lemma CutAtDigest(name: string, end: string)
    requires '@' !in name && ':' !in name && (end == "" || end[0] == ':' || end[0] == '@')
    ensures BeforeFirst(BeforeFirst(name + end, '@'), ':') == name
  {
    if end != "" && end[0] == ':' {
      var n := |BeforeFirst(end, '@')|;
      BeforeFirstConcat(name, end, '@');
      BeforeFirstExactly(name, ':', BeforeFirst(end, '@'));
    } else {
      BeforeFirstExactly(name, '@', end);
      BeforeFirstExactly(name, ':', "");
      assert name + "" == name;
    }
  }

  lemma {:induction false} BeforeFirstConcat(a: string, b: string, c: char)
    requires c !in a
    ensures BeforeFirst(a + b, c) == a + BeforeFirst(b, c)
  {
    if a == "" {
      assert a + b == b;
    } else {
      assert (a + b)[1..] == a[1..] + b;
      BeforeFirstConcat(a[1..], b, c);
    }
  }

  // ----------------------------------------------------------------- sorting

  ghost predicate Ascending(names: seq<string>)
  {
    forall i, j :: 0 <= i < j < |names| ==> !Earlier(names[j], names[i])
  }

  lemma EarlierOrder(a: string, b: string, c: string)
    ensures !Earlier(a, a)
    ensures Earlier(a, b) ==> !Earlier(b, a)
    ensures !Earlier(b, a) && !Earlier(c, b) ==> !Earlier(c, a)
  {
    var less := (x: char, y: char) => x < y;
    assert Text.StrictTotal(less);
    Text.LexIsStrictTotal(less);
    var before := (x: string, y: string) => Text.Lex(less, x, y);
    assert Text.StrictTotal(before);
    assert before(a, b) == Earlier(a, b) && before(b, a) == Earlier(b, a) && before(a, a) == Earlier(a, a);
    assert before(c, b) == Earlier(c, b) && before(c, a) == Earlier(c, a) && before(b, c) == Earlier(b, c);
  }

  lemma {:induction false} InsertKeepsAscending(name: string, names: seq<string>)
    requires Ascending(names)
    ensures Ascending(InsertName(name, names))
  {
    var r := InsertName(name, names);
    if names != [] && Earlier(names[0], name) {
      var rest := InsertName(name, names[1..]);
      InsertKeepsAscending(name, names[1..]);
      EarlierOrder(names[0], name, name);
      forall j | 0 <= j < |rest| ensures !Earlier(rest[j], names[0]) {
        assert rest[j] in multiset(rest);
        assert rest[j] == name || rest[j] in names[1..];
      }
    } else if names != [] {
      forall j | 0 <= j < |names| ensures !Earlier(names[j], name) {
        EarlierOrder(name, names[0], names[j]);
      }
    }
  }

  /** The members of a merged row are listed in order. */
  lemma {:induction false} SortedIsAscending(names: seq<string>)
    ensures Ascending(Sorted(names))
  {
    if names != [] {
      SortedIsAscending(names[1..]);
      InsertKeepsAscending(names[0], Sorted(names[1..]));
    }
  }

  // ------------------------------------------------------------- descriptors

  /** The metadata of the app, else of the name, else the default image strategy. */
  ghost predicate Describes(metadata: Metadata, app: string, name: string, d: Descriptor)
  {
    && (app in metadata ==> d == metadata[app])
    && (app !in metadata && name in metadata ==> d == metadata[name])
    && (app !in metadata && name !in metadata ==> d == Descriptor("image", map[]))
  }

  lemma DescriptorExactly(metadata: Metadata, app: string, name: string)
    ensures Describes(metadata, app, name, DescriptorFor(metadata, app, name))
  {
  }

  /** d is what the first candidate declares whose strategy is not image, candidate k,
      and the default when there is none. */
  ghost predicate DescribesFirst(metadata: Metadata, candidates: seq<string>, k: nat, d: Descriptor)
  {
    && k <= |candidates|
    && (forall j :: 0 <= j < k ==> exists c :: Describes(metadata, "", candidates[j], c) && c.strategy == "image")
    && (if k < |candidates| then Describes(metadata, "", candidates[k], d) && d.strategy != "image"
        else d == Descriptor("image", map[]))
  }

  lemma {:induction false} FirstDeclaredExactly(metadata: Metadata, candidates: seq<string>) returns (k: nat)
    ensures DescribesFirst(metadata, candidates, k, FirstDeclared(metadata, candidates))
  {
    k := 0;
    if candidates != [] {
      var c := DescriptorFor(metadata, "", candidates[0]);
      DescriptorExactly(metadata, "", candidates[0]);
      if c.strategy == "image" {
        var n := FirstDeclaredExactly(metadata, candidates[1..]);
        k := n + 1;
        forall j | 0 <= j < k ensures exists c :: Describes(metadata, "", candidates[j], c) && c.strategy == "image" {
          assert j > 0 ==> candidates[1..][j - 1] == candidates[j];
        }
      }
    }
  }

  // ------------------------------------------------------- enabled containers

  /** The row a container has to itself. */
  ghost predicate IsOwnRow(ctx: Context, c: Container, row: Row)
  {
    && row.key == row.name == c.name && row.image == c.image && row.external == c.external
    && row.enabled && !row.host && row.app == None && row.members == []
    && Describes(ctx.metadata, "", c.name, row.descriptor)
  }

  ghost predicate SharesItsPin(ctx: Context, containers: seq<Container>, c: Container)
  {
    PinOf(ctx, c.image).Some?
    && exists d :: d in containers && d.name != c.name && PinOf(ctx, d.image) == PinOf(ctx, c.image)
  }

  lemma {:induction false} MergedAwayExactly(groups: seq<Group>, name: string)
    ensures name in MergedAway(groups) <==>
      exists g :: g in groups && |g.members| >= 2 && name in NameSet(g.members)
  {
    if groups != [] {
      var n := |groups| - 1;
      assert groups == groups[..n] + [groups[n]];
      MergedAwayExactly(groups[..n], name);
    }
  }

  lemma OwnRowOf(ctx: Context, containers: seq<Container>, row: Row) returns (c: Container)
    requires row in OwnRows(ctx, containers)
    ensures c in containers && row == OwnRow(ctx, c)
  {
    var rows := OwnRows(ctx, containers);
    var i :| 0 <= i < |rows| && rows[i] == row;
    c := containers[i];
  }

  lemma SameNameSameContainer(containers: seq<Container>, a: Container, b: Container)
    requires DistinctNames(containers) && a in containers && b in containers && a.name == b.name
    ensures a == b
  {
    var i :| 0 <= i < |containers| && containers[i] == a;
    var j :| 0 <= j < |containers| && containers[j] == b;
  }

  lemma NamesDiffer(ctx: Context, containers: seq<Container>, pin: (string, string), rows: seq<Row>)
    requires DistinctNames(containers) && rows == Pinned(ctx, OwnRows(ctx, containers), pin)
    ensures forall i, j :: 0 <= i < j < |rows| ==> rows[i].name != rows[j].name
  {
    PinnedNamesDiffer(ctx, OwnRows(ctx, containers), pin) by {
      var all := OwnRows(ctx, containers);
      forall i, j | 0 <= i < j < |all| ensures all[i].name != all[j].name {
        assert containers[i].name != containers[j].name;
      }
    }
  }

  lemma {:induction false} PinnedNamesDiffer(ctx: Context, rows: seq<Row>, pin: (string, string))
    requires forall i, j :: 0 <= i < j < |rows| ==> rows[i].name != rows[j].name
    ensures forall i, j :: 0 <= i < j < |Pinned(ctx, rows, pin)| ==>
      Pinned(ctx, rows, pin)[i].name != Pinned(ctx, rows, pin)[j].name
  {
    if rows != [] {
      var n := |rows| - 1;
      PinnedNamesDiffer(ctx, rows[..n], pin);
      var before := Pinned(ctx, rows[..n], pin);
      forall i | 0 <= i < |before| ensures before[i].name != rows[n].name {
        InPinned(ctx, rows[..n], pin, before[i]);
        var k :| 0 <= k < n && rows[..n][k] == before[i];
        assert rows[k].name != rows[n].name;
      }
    }
  }

  lemma MergedOnlyWhenShared(ctx: Context, containers: seq<Container>, c: Container)
    requires DistinctNames(containers) && c in containers
    requires c.name in MergedAway(GroupsOf(ctx, OwnRows(ctx, containers)))
    ensures SharesItsPin(ctx, containers, c)
  {
    var rows := OwnRows(ctx, containers);
    var groups := GroupsOf(ctx, rows);
    MergedAwayExactly(groups, c.name);
    var g :| g in groups && |g.members| >= 2 && c.name in NameSet(g.members);
    GroupIsPinned(ctx, rows, g);
    NamesDiffer(ctx, containers, g.pin, g.members);
    var r :| r in g.members && r.name == c.name;
    var other := if g.members[0].name == c.name then g.members[1] else g.members[0];
    InPinned(ctx, rows, g.pin, r);
    InPinned(ctx, rows, g.pin, other);
    var a := OwnRowOf(ctx, containers, r);
    var b := OwnRowOf(ctx, containers, other);
    SameNameSameContainer(containers, a, c);
  }

  /** A container that shares its pin with no other container has a row of its own. */
  lemma OwnRowIsShown(ctx: Context, containers: seq<Container>, hosts: seq<Host>, c: Container) returns (row: Row)
    requires DistinctNames(containers) && c in containers && !SharesItsPin(ctx, containers, c)
    ensures row in MergedCatalog(ctx, containers, hosts) && IsOwnRow(ctx, c, row)
  {
    var rows := OwnRows(ctx, containers);
    row := OwnRow(ctx, c);
    OwnRowIn(ctx, containers, c);
    if c.name in MergedAway(GroupsOf(ctx, rows)) {
      MergedOnlyWhenShared(ctx, containers, c);
    }
    KeptAreRows(rows, MergedAway(GroupsOf(ctx, rows)), row);
    EnabledRowsStay(ctx, containers, hosts, row);
    DescriptorExactly(ctx.metadata, "", c.name);
  }

  lemma EnabledRowsStay(ctx: Context, containers: seq<Container>, hosts: seq<Host>, row: Row)
    requires row in EnabledPart(ctx, containers).rows
    ensures row in MergedCatalog(ctx, containers, hosts)
  {
    var part, out := EnabledPart(ctx, containers).rows, MergedCatalog(ctx, containers, hosts);
    LaterKeysAreFresh(ctx, containers, hosts);
    var i :| 0 <= i < |part| && part[i] == row;
    assert out[..|part|][i] == row;
  }

  // ------------------------------------------------------------- merged rows

  /** c is the first container of the pin. */
  ghost predicate FirstOfPin(ctx: Context, containers: seq<Container>, pin: (string, string), i: nat)
  {
    && i < |containers| && PinOf(ctx, containers[i].image) == Some(pin)
    && forall j :: 0 <= j < i ==> PinOf(ctx, containers[j].image) != Some(pin)
  }

  /** Another container, not of this pin, already has the app's name. */
  ghost predicate AppNameTaken(ctx: Context, containers: seq<Container>, pin: (string, string))
  {
    exists c :: c in containers && c.name == pin.0 && PinOf(ctx, c.image) != Some(pin)
  }

  lemma {:induction false} FirstPinned(ctx: Context, containers: seq<Container>, pin: (string, string))
    returns (i: nat)
    requires Pinned(ctx, OwnRows(ctx, containers), pin) != []
    ensures FirstOfPin(ctx, containers, pin, i)
    ensures Pinned(ctx, OwnRows(ctx, containers), pin)[0] == OwnRow(ctx, containers[i])
  {
    var n := |containers| - 1;
    assert OwnRows(ctx, containers)[..n] == OwnRows(ctx, containers[..n]);
    if Pinned(ctx, OwnRows(ctx, containers[..n]), pin) != [] {
      i := FirstPinned(ctx, containers[..n], pin);
    } else {
      i := n;
      forall j | 0 <= j < n ensures PinOf(ctx, containers[j].image) != Some(pin) {
        InPinned(ctx, OwnRows(ctx, containers[..n]), pin, OwnRow(ctx, containers[j]));
        assert OwnRows(ctx, containers[..n])[j] == OwnRow(ctx, containers[j]);
      }
    }
  }

  lemma GroupNameExactly(ctx: Context, containers: seq<Container>, g: Group)
    requires DistinctNames(containers) && g in GroupsOf(ctx, OwnRows(ctx, containers))
    ensures GroupName(g, NameSet(OwnRows(ctx, containers))) ==
      if AppNameTaken(ctx, containers, g.pin) then AfterLast(g.pin.1, '/') else g.pin.0
  {
    var rows := OwnRows(ctx, containers);
    GroupIsPinned(ctx, rows, g);
    if c :| c in containers && c.name == g.pin.0 && PinOf(ctx, c.image) != Some(g.pin) {
      OwnRowIn(ctx, containers, c);
      assert OwnRow(ctx, c).name in NameSet(rows);
      forall r | r in g.members ensures r.name != c.name {
        InPinned(ctx, rows, g.pin, r);
        var a := OwnRowOf(ctx, containers, r);
        if a.name == c.name {
          SameNameSameContainer(containers, a, c);
        }
      }
    }
    if g.pin.0 in NameSet(rows) - NameSet(g.members) {
      var r :| r in rows && r.name == g.pin.0;
      var c := OwnRowOf(ctx, containers, r);
      InPinned(ctx, rows, g.pin, r);
      assert r.name in NameSet(rows) && r !in g.members;
    }
  }

  /** The row of a pin that two or more containers run. */
  ghost predicate IsMergedRow(
    ctx: Context, containers: seq<Container>, pin: (string, string), first: nat, k: nat, row: Row)
  {
    && FirstOfPin(ctx, containers, pin, first) && row.external == containers[first].external
    && row.key == row.name == (if AppNameTaken(ctx, containers, pin) then AfterLast(pin.1, '/') else pin.0)
    && row.enabled && !row.host && row.app == Some(pin.0) && Ascending(row.members)
    && DescribesFirst(ctx.metadata, [row.name, pin.0] + row.members, k, row.descriptor)
  }

  /** A merged row, field by field: it is named like its app unless another container is,
      lists its members in order, takes its descriptor from the first of its name, its
      app and its members that declares one, and its external flag from its first
      container. */
  lemma MergedRowIsShown(ctx: Context, containers: seq<Container>, row: Row)
    returns (pin: (string, string), first: nat, k: nat)
    requires DistinctNames(containers) && row in EnabledPart(ctx, containers).rows && row.members != []
    ensures ShowsPin(ctx, containers, row, pin) && IsMergedRow(ctx, containers, pin, first, k, row)
  {
    var rows := OwnRows(ctx, containers);
    var groups := GroupsOf(ctx, rows);
    KeptAreRows(rows, MergedAway(groups), row);
    var g := RowHasAGroup(ctx, groups, NameSet(rows), row);
    pin := g.pin;
    GroupIsPinned(ctx, rows, g);
    RowShowsItsPin(ctx, containers, g, NameSet(rows));
    first := FirstPinned(ctx, containers, pin);
    GroupNameExactly(ctx, containers, g);
    SortedIsAscending(Names(g.members));
    k := FirstDeclaredExactly(ctx.metadata, [row.name, pin.0] + row.members);
  }

  // ------------------------------------------------ disabled rows and hosts

  /** The key of a disabled row: the app; if that is taken the image's base name, with
      the app in front unless it begins so; if that is taken too, the first free number
      from 2 on behind it. */
  ghost predicate KeyChosen(app: string, image: string, taken: set<string>, key: string)
  {
    var base := Segment(image);
    var second := if |app| <= |base| && base[..|app|] == app then base else app + "-" + base;
    if app !in taken then key == app
    else if second !in taken then key == second
    else exists n: nat :: n >= 2 && key == Numbered(second, n) && key !in taken
           && forall m :: 2 <= m < n ==> Numbered(second, m) in taken
  }

  lemma KeyExactly(app: string, image: string, taken: set<string>)
    ensures KeyChosen(app, image, taken, KeyFor(app, image, taken))
  {
    var n := FirstFreeIsTheFirst(SecondChoice(app, image), taken, 2);
  }

  /** The row of a source image that does not run, given the keys before it. */
  ghost predicate IsDisabledRow(ctx: Context, s: Source, taken: set<string>, row: Row)
  {
    && row.key == row.name && KeyChosen(s.app, s.image, taken, row.key)
    && row.image == s.image && row.app == Some(s.app)
    && !row.enabled && !row.host && !row.external && row.members == []
    && Describes(ctx.metadata, s.app, row.key, row.descriptor)
  }

  /** What p says of a source, the keys before its row, and the row. */
  type Kind = (Source, set<string>, Row) -> bool

  ghost function DisabledKind(ctx: Context): Kind
  {
    (s: Source, taken: set<string>, row: Row) => IsDisabledRow(ctx, s, taken, row)
  }

  ghost predicate RowsOfKind(p: Kind, taken: set<string>, sources: seq<Source>, rows: seq<Row>)
  {
    |rows| == |sources| && forall i :: 0 <= i < |sources| ==> p(sources[i], taken + Keys(rows[..i]), rows[i])
  }

  /** One row for each source, in order, `taken` being the keys before the first. */
  ghost predicate AreDisabledRows(ctx: Context, taken: set<string>, sources: seq<Source>, rows: seq<Row>)
  {
    RowsOfKind(DisabledKind(ctx), taken, sources, rows)
  }

  lemma NewDisabledRow(ctx: Context, s: Source, taken: set<string>) returns (row: Row)
    ensures row == DisabledRow(ctx, s, KeyFor(s.app, s.image, taken)) && IsDisabledRow(ctx, s, taken, row)
  {
    row := DisabledRow(ctx, s, KeyFor(s.app, s.image, taken));
    KeyExactly(s.app, s.image, taken);
    DescriptorExactly(ctx.metadata, s.app, row.key);
  }

  lemma KeysConcat(a: seq<Row>, b: seq<Row>)
    ensures Keys(a + b) == Keys(a) + Keys(b)
  {
  }

  lemma KeysOneMore(rows: seq<Row>, row: Row)
    ensures Keys(rows + [row]) == Keys(rows) + {row.key}
  {
    KeysConcat(rows, [row]);
    assert [row][0] == row;
    assert Keys([row]) == {row.key};
  }

  lemma OneMoreRow(p: Kind, taken: set<string>, sources: seq<Source>, rows: seq<Row>, s: Source, row: Row)
    requires RowsOfKind(p, taken, sources, rows) && p(s, taken + Keys(rows), row)
    ensures RowsOfKind(p, taken, sources + [s], rows + [row])
  {
    var more, longer := rows + [row], sources + [s];
    forall i | 0 <= i < |longer| ensures p(longer[i], taken + Keys(more[..i]), more[i]) {
      if i < |sources| {
        assert more[..i] == rows[..i] && more[i] == rows[i] && longer[i] == sources[i];
      } else {
        assert more[..i] == rows && more[i] == row && longer[i] == s;
      }
    }
  }

  lemma {:induction false} DisabledRowsAre(ctx: Context, l: Listing, sources: seq<Source>, running: set<string>)
    returns (rows: seq<Row>)
    ensures WithDisabled(ctx, l, sources, running) == Listing(l.rows + rows, l.seen + Keys(rows))
    ensures AreDisabledRows(ctx, l.seen, Uncovered(sources, running), rows)
  {
    rows := [];
    if sources == [] {
      assert l.rows + [] == l.rows;
    } else {
      var n := |sources| - 1;
      rows := DisabledRowsAre(ctx, l, sources[..n], running);
      if sources[n].image in running {
        assert Uncovered(sources, running) == Uncovered(sources[..n], running);
      } else {
        var row := NewDisabledRow(ctx, sources[n], l.seen + Keys(rows));
        KeysOneMore(rows, row);
        OneMoreRow(DisabledKind(ctx), l.seen, Uncovered(sources[..n], running), rows, sources[n], row);
        Text.Associates(l.rows, rows, [row]);
        rows := rows + [row];
      }
    }
  }

  /** Hosts whose name no row and no earlier host has. */
  function NewHosts(hosts: seq<Host>, taken: set<string>): seq<Host>
  {
    if hosts == [] then []
    else if hosts[0].name in taken then NewHosts(hosts[1..], taken)
    else [hosts[0]] + NewHosts(hosts[1..], taken + {hosts[0].name})
  }

  ghost predicate IsHostRow(h: Host, row: Row)
  {
    && row.key == row.name == h.name && row.app == Some(h.name) && row.image == ""
    && row.enabled == h.enabled && row.descriptor == h.tracking && row.host && !row.external && row.members == []
  }

  ghost predicate AreHostRows(hosts: seq<Host>, rows: seq<Row>)
  {
    |rows| == |hosts| && forall i :: 0 <= i < |rows| ==> IsHostRow(hosts[i], rows[i])
  }

  lemma {:induction false} NewHostsSnoc(hosts: seq<Host>, h: Host, taken: set<string>)
    ensures NewHosts(hosts + [h], taken) ==
      NewHosts(hosts, taken) + if h.name in taken || exists i :: 0 <= i < |hosts| && hosts[i].name == h.name
                               then [] else [h]
  {
    if hosts == [] {
      assert [] + [h] == [h] && [h][1..] == [];
    } else {
      assert (hosts + [h])[1..] == hosts[1..] + [h];
      var next := if hosts[0].name in taken then taken else taken + {hosts[0].name};
      NewHostsSnoc(hosts[1..], h, next);
      if i :| 0 <= i < |hosts| && hosts[i].name == h.name {
        assert i > 0 ==> hosts[1..][i - 1].name == h.name;
      }
    }
  }

  lemma {:induction false} HostRowsAre(l: Listing, hosts: seq<Host>) returns (rows: seq<Row>)
    ensures WithHosts(l, hosts).rows == l.rows + rows && AreHostRows(NewHosts(hosts, l.seen), rows)
    ensures forall name :: name in WithHosts(l, hosts).seen <==>
      name in l.seen || exists i :: 0 <= i < |hosts| && hosts[i].name == name
  {
    rows := [];
    if hosts == [] {
      assert l.rows + [] == l.rows;
    } else {
      var n := |hosts| - 1;
      rows := HostRowsAre(l, hosts[..n]);
      NewHostsSnoc(hosts[..n], hosts[n], l.seen);
      assert hosts == hosts[..n] + [hosts[n]];
      if hosts[n].name in WithHosts(l, hosts[..n]).seen {
        assert NewHosts(hosts, l.seen) == NewHosts(hosts[..n], l.seen);
      } else {
        Text.Associates(l.rows, rows, [HostRow(hosts[n])]);
        rows := rows + [HostRow(hosts[n])];
      }
    }
  }

  /** The catalog in three parts: the enabled containers, then a disabled row for each
      source image that none of them runs, then a row for each host app whose name is
      new. */
  lemma CatalogParts(ctx: Context, containers: seq<Container>, hosts: seq<Host>)
    returns (disabled: seq<Row>, hostRows: seq<Row>)
    ensures
      var part, running := EnabledPart(ctx, containers), set c | c in containers :: c.image;
      && MergedCatalog(ctx, containers, hosts) == part.rows + disabled + hostRows
      && AreDisabledRows(ctx, Keys(part.rows), Uncovered(ctx.sources, running), disabled)
      && AreHostRows(NewHosts(hosts, Keys(part.rows + disabled)), hostRows)
  {
    var part := EnabledPart(ctx, containers);
    disabled := DisabledRowsAre(ctx, part, ctx.sources, Images(containers));
    KeysConcat(part.rows, disabled);
    hostRows := HostRowsAre(Listing(part.rows + disabled, part.seen + Keys(disabled)), hosts);
  }
}
