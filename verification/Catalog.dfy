/** The merged version catalog: _source_index, _collapse_instance_rows and
    _merged_catalog of web-platform/backend/resolvers/app_versions.py.

    How an image string yields its registry and repository is a parameter, repoKey,
    with "" for an image that names none; nothing proved here depends on it. */
module Catalog {
  import opened Options
  import Text

  datatype Container = Container(name: string, image: string, external: bool)
  datatype Source = Source(app: string, image: string)
  datatype Descriptor = Descriptor(strategy: string, params: map<string, string>)
  datatype Host = Host(name: string, enabled: bool, tracking: Descriptor)

  /** `members` is empty on a row of its own; `host` marks an app without an image. */
  datatype Row = Row(
    key: string, name: string, image: string, enabled: bool, app: Option<string>,
    descriptor: Descriptor, external: bool, members: seq<string>, host: bool)

  type Metadata = map<string, Descriptor>
  type RepoKey = string -> string

  // ----------------------------------------------------------------- strings

  function AfterLast(s: string, c: char): string
  {
    if s == "" then ""
    else if s[|s| - 1] == c then ""
    else AfterLast(s[..|s| - 1], c) + [s[|s| - 1]]
  }

  function BeforeFirst(s: string, c: char): string
  {
    if s == "" || s[0] == c then "" else [s[0]] + BeforeFirst(s[1..], c)
  }

  function Decimal(n: nat): string
  {
    (if n < 10 then "" else Decimal(n / 10)) + [(n % 10) as char + '0']
  }

  lemma {:induction false} DecimalReads(n: nat)
    ensures forall i :: 0 <= i < |Decimal(n)| ==> Text.IsDigit(Decimal(n)[i])
    ensures Text.Value(Decimal(n)) == n
  {
    if n >= 10 {
      DecimalReads(n / 10);
    }
  }

  function Numbered(base: string, n: nat): string
  {
    base + "-" + Decimal(n)
  }

  lemma NumberedIsInjective(base: string, m: nat, n: nat)
    requires Numbered(base, m) == Numbered(base, n)
    ensures m == n
  {
    DecimalReads(m);
    DecimalReads(n);
    assert Numbered(base, m)[|base| + 1..] == Decimal(m);
    assert Numbered(base, n)[|base| + 1..] == Decimal(n);
  }

  predicate Earlier(a: string, b: string)
  {
    Text.Lex((x: char, y: char) => x < y, a, b)
  }

  function InsertName(name: string, names: seq<string>): (r: seq<string>)
    ensures multiset(r) == multiset(names) + multiset{name}
  {
    if names == [] || !Earlier(names[0], name) then [name] + names
    else
      assert names == [names[0]] + names[1..];
      [names[0]] + InsertName(name, names[1..])
  }

  /** The built-in sort of names. */
  function Sorted(names: seq<string>): (r: seq<string>)
    ensures multiset(r) == multiset(names)
  {
    if names == [] then []
    else
      assert names == [names[0]] + names[1..];
      InsertName(names[0], Sorted(names[1..]))
  }

  // ------------------------------------------------------------ source index

  function Entry<T>(m: map<string, set<T>>, key: string): set<T>
  {
    if key in m then m[key] else {}
  }

  function AppsByRepo(sources: seq<Source>, repoKey: RepoKey): map<string, set<string>>
  {
    if sources == [] then map[]
    else
      var n := |sources| - 1;
      var before, repo := AppsByRepo(sources[..n], repoKey), repoKey(sources[n].image);
      if repo == "" then before else before[repo := Entry(before, repo) + {sources[n].app}]
  }

  function ImageByPin(sources: seq<Source>, repoKey: RepoKey): map<(string, string), string>
  {
    if sources == [] then map[]
    else
      var n := |sources| - 1;
      var before, repo := ImageByPin(sources[..n], repoKey), repoKey(sources[n].image);
      if repo == "" then before else before[(sources[n].app, repo) := sources[n].image]
  }

  lemma SingletonHasOne<T>(s: set<T>, a: T, b: T)
    requires |s| == 1 && a in s && b in s
    ensures a == b
  {
    assert |s - {a}| == 0;
    assert b !in s - {a};
  }

  lemma SingletonsHaveOne<T>(s: set<T>)
    requires |s| == 1
    ensures forall a, b :: a in s && b in s ==> a == b
  {
    forall a, b | a in s && b in s ensures a == b {
      SingletonHasOne(s, a, b);
    }
  }

  /** The one app that pins a repository; none when nobody or several do. */
  function SoleApp(apps: set<string>): Option<string>
  {
    if |apps| == 1 then
      SingletonsHaveOne(apps);
      var app :| app in apps;
      Some(app)
    else None
  }

  /** What the catalog is computed from, next to the enabled containers. */
  datatype Context = Context(repoKey: RepoKey, sources: seq<Source>, metadata: Metadata)

  /** The source pin, app directory and repository, a container image belongs to. */
  function PinOf(ctx: Context, image: string): Option<(string, string)>
  {
    var repo := ctx.repoKey(image);
    var app := SoleApp(Entry(AppsByRepo(ctx.sources, ctx.repoKey), repo));
    if app.Some? then Some((app.value, repo)) else None
  }

  method SourceIndex(ctx: Context)
    returns (appsByRepo: map<string, set<string>>, imageByPin: map<(string, string), string>)
    ensures appsByRepo == AppsByRepo(ctx.sources, ctx.repoKey)
    ensures imageByPin == ImageByPin(ctx.sources, ctx.repoKey)
  {
    appsByRepo, imageByPin := map[], map[];
    for i := 0 to |ctx.sources|
      invariant appsByRepo == AppsByRepo(ctx.sources[..i], ctx.repoKey)
      invariant imageByPin == ImageByPin(ctx.sources[..i], ctx.repoKey)
    {
      assert ctx.sources[..i + 1][..i] == ctx.sources[..i];
      var e := ctx.sources[i];
      var repo := ctx.repoKey(e.image);
      if repo == "" {
        continue;
      }
      appsByRepo := appsByRepo[repo := Entry(appsByRepo, repo) + {e.app}];
      imageByPin := imageByPin[(e.app, repo) := e.image];
    }
    assert ctx.sources[..|ctx.sources|] == ctx.sources;
  }

  // ------------------------------------------------------------------ groups

  datatype Group = Group(pin: (string, string), members: seq<Row>)

  /** setdefault(pin, []).append(row) on an insertion-ordered dictionary. */
  function AddMember(groups: seq<Group>, pin: (string, string), row: Row): seq<Group>
  {
    if groups == [] then [Group(pin, [row])]
    else if groups[0].pin == pin then [groups[0].(members := groups[0].members + [row])] + groups[1..]
    else [groups[0]] + AddMember(groups[1..], pin, row)
  }

  function GroupsOf(ctx: Context, rows: seq<Row>): seq<Group>
  {
    if rows == [] then []
    else
      var n := |rows| - 1;
      var before, pin := GroupsOf(ctx, rows[..n]), PinOf(ctx, rows[n].image);
      if pin.None? then before else AddMember(before, pin.value, rows[n])
  }

  function Names(rows: seq<Row>): (names: seq<string>)
    ensures |names| == |rows| && forall i :: 0 <= i < |rows| ==> names[i] == rows[i].name
  {
    seq(|rows|, i requires 0 <= i < |rows| => rows[i].name)
  }

  function NameSet(rows: seq<Row>): set<string>
  {
    set r | r in rows :: r.name
  }

  const DEFAULT := Descriptor("image", map[])

  function DescriptorFor(metadata: Metadata, app: string, name: string): Descriptor
  {
    if app in metadata then metadata[app] else if name in metadata then metadata[name] else DEFAULT
  }

  /** The first candidate with a strategy of its own. */
  function FirstDeclared(metadata: Metadata, candidates: seq<string>): Descriptor
  {
    if candidates == [] then DEFAULT
    else
      var d := DescriptorFor(metadata, "", candidates[0]);
      if d.strategy != "image" then d else FirstDeclared(metadata, candidates[1..])
  }

  /** The merged row's name: the app, unless a container outside the group has it. */
  function GroupName(g: Group, taken: set<string>): string
  {
    if g.pin.0 in taken - NameSet(g.members) then AfterLast(g.pin.1, '/') else g.pin.0
  }

  function MergedRow(ctx: Context, g: Group, taken: set<string>): Row
    requires g.members != []
  {
    var images := ImageByPin(ctx.sources, ctx.repoKey);
    var names, name := Sorted(Names(g.members)), GroupName(g, taken);
    Row(name, name, if g.pin in images then images[g.pin] else g.members[0].image, true, Some(g.pin.0),
        FirstDeclared(ctx.metadata, [name, g.pin.0] + names), g.members[0].external, names, false)
  }

  function MergedRows(ctx: Context, groups: seq<Group>, taken: set<string>): seq<Row>
  {
    if groups == [] then []
    else
      var n := |groups| - 1;
      var before := MergedRows(ctx, groups[..n], taken);
      if |groups[n].members| < 2 then before else before + [MergedRow(ctx, groups[n], taken)]
  }

  function MergedAway(groups: seq<Group>): set<string>
  {
    if groups == [] then {}
    else
      var n := |groups| - 1;
      MergedAway(groups[..n]) + if |groups[n].members| < 2 then {} else NameSet(groups[n].members)
  }

  function Without(rows: seq<Row>, away: set<string>): seq<Row>
  {
    if rows == [] then []
    else
      var n := |rows| - 1;
      if rows[n].name in away then Without(rows[..n], away) else Without(rows[..n], away) + [rows[n]]
  }

  function Collapsed(ctx: Context, rows: seq<Row>): seq<Row>
  {
    var groups := GroupsOf(ctx, rows);
    Without(rows, MergedAway(groups)) + MergedRows(ctx, groups, NameSet(rows))
  }

  function Keys(rows: seq<Row>): set<string>
  {
    set r | r in rows :: r.key
  }

  method GroupRows(ctx: Context, rows: seq<Row>, appsByRepo: map<string, set<string>>) returns (groups: seq<Group>)
    requires appsByRepo == AppsByRepo(ctx.sources, ctx.repoKey)
    ensures groups == GroupsOf(ctx, rows)
  {
    groups := [];
    for i := 0 to |rows|
      invariant groups == GroupsOf(ctx, rows[..i])
    {
      assert rows[..i + 1][..i] == rows[..i];
      var repo := ctx.repoKey(rows[i].image);
      var app := SoleApp(Entry(appsByRepo, repo));
      if app.Some? {
        groups := AddMember(groups, (app.value, repo), rows[i]);
      }
    }
    assert rows[..|rows|] == rows;
  }

  method MergeGroup(ctx: Context, g: Group, taken: set<string>, imageByPin: map<(string, string), string>)
    returns (row: Row)
    requires g.members != [] && imageByPin == ImageByPin(ctx.sources, ctx.repoKey)
    ensures row == MergedRow(ctx, g, taken)
  {
    var memberNames := Sorted(Names(g.members));
    var name := g.pin.0;
    if name in taken - NameSet(g.members) {
      name := AfterLast(g.pin.1, '/');
    }
    row := Row(name, name, if g.pin in imageByPin then imageByPin[g.pin] else g.members[0].image, true, Some(g.pin.0),
               FirstDeclared(ctx.metadata, [name, g.pin.0] + memberNames), g.members[0].external, memberNames, false);
  }

  method MergeGroups(ctx: Context, groups: seq<Group>, taken: set<string>, imageByPin: map<(string, string), string>)
    returns (mergedAway: set<string>, mergedRows: seq<Row>)
    requires imageByPin == ImageByPin(ctx.sources, ctx.repoKey)
    ensures mergedAway == MergedAway(groups) && mergedRows == MergedRows(ctx, groups, taken)
  {
    mergedAway, mergedRows := {}, [];
    for i := 0 to |groups|
      invariant mergedAway == MergedAway(groups[..i]) && mergedRows == MergedRows(ctx, groups[..i], taken)
    {
      assert groups[..i + 1][..i] == groups[..i];
      var g := groups[i];
      if |g.members| < 2 {
        continue;
      }
      mergedAway := mergedAway + NameSet(g.members);
      var row := MergeGroup(ctx, g, taken, imageByPin);
      mergedRows := mergedRows + [row];
    }
    assert groups[..|groups|] == groups;
  }

  method DropMerged(rows: seq<Row>, mergedAway: set<string>) returns (kept: seq<Row>)
    ensures kept == Without(rows, mergedAway)
  {
    kept := [];
    for i := 0 to |rows|
      invariant kept == Without(rows[..i], mergedAway)
    {
      assert rows[..i + 1][..i] == rows[..i];
      if rows[i].name !in mergedAway {
        kept := kept + [rows[i]];
      }
    }
    assert rows[..|rows|] == rows;
  }

  method CollapseInstanceRows(ctx: Context, rows: seq<Row>) returns (kept: seq<Row>, keys: set<string>)
    ensures kept == Collapsed(ctx, rows) && keys == Keys(kept)
  {
    var appsByRepo, imageByPin := SourceIndex(ctx);
    var groups := GroupRows(ctx, rows, appsByRepo);
    var mergedAway, mergedRows := MergeGroups(ctx, groups, NameSet(rows), imageByPin);
    kept := DropMerged(rows, mergedAway);
    kept := kept + mergedRows;
    keys := Keys(kept);
  }

  // -------------------------------------------------------- the whole catalog

  function OwnRow(ctx: Context, c: Container): Row
  {
    Row(c.name, c.name, c.image, true, None, DescriptorFor(ctx.metadata, "", c.name), c.external, [], false)
  }

  function OwnRows(ctx: Context, containers: seq<Container>): (rows: seq<Row>)
    ensures |rows| == |containers| && forall i :: 0 <= i < |rows| ==> rows[i] == OwnRow(ctx, containers[i])
  {
    seq(|containers|, i requires 0 <= i < |containers| => OwnRow(ctx, containers[i]))
  }

  predicate StartsWith(s: string, prefix: string)
  {
    |prefix| <= |s| && s[..|prefix|] == prefix
  }

  /** The first of base-n, base-(n+1), ... that is not taken; a taken one is dropped
      from the set, which is what makes the search end. */
  function FirstFree(base: string, seen: set<string>, n: nat): string
    decreases |seen|
  {
    var key := Numbered(base, n);
    if key in seen then FirstFree(base, seen - {key}, n + 1) else key
  }

  function Segment(image: string): string
  {
    BeforeFirst(BeforeFirst(AfterLast(image, '/'), '@'), ':')
  }

  function SecondChoice(app: string, image: string): string
  {
    if StartsWith(Segment(image), app) then Segment(image) else app + "-" + Segment(image)
  }

  function KeyFor(app: string, image: string, seen: set<string>): string
  {
    if app !in seen then app
    else if SecondChoice(app, image) !in seen then SecondChoice(app, image)
    else FirstFree(SecondChoice(app, image), seen, 2)
  }

  function DisabledRow(ctx: Context, e: Source, key: string): Row
  {
    Row(key, key, e.image, false, Some(e.app), DescriptorFor(ctx.metadata, e.app, key), false, [], false)
  }

  /** A list of rows and the keys they use. */
  datatype Listing = Listing(rows: seq<Row>, seen: set<string>)

  function Append(l: Listing, row: Row): Listing
  {
    Listing(l.rows + [row], l.seen + {row.key})
  }

  function WithDisabled(ctx: Context, l: Listing, sources: seq<Source>, running: set<string>): Listing
  {
    if sources == [] then l
    else
      var n := |sources| - 1;
      var before, e := WithDisabled(ctx, l, sources[..n], running), sources[n];
      if e.image in running then before else Append(before, DisabledRow(ctx, e, KeyFor(e.app, e.image, before.seen)))
  }

  function HostRow(h: Host): Row
  {
    Row(h.name, h.name, "", h.enabled, Some(h.name), h.tracking, false, [], true)
  }

  function WithHosts(l: Listing, hosts: seq<Host>): Listing
  {
    if hosts == [] then l
    else
      var n := |hosts| - 1;
      var before := WithHosts(l, hosts[..n]);
      if hosts[n].name in before.seen then before else Append(before, HostRow(hosts[n]))
  }

  function Images(containers: seq<Container>): set<string>
  {
    set c | c in containers :: c.image
  }

  function EnabledPart(ctx: Context, containers: seq<Container>): Listing
  {
    var rows := Collapsed(ctx, OwnRows(ctx, containers));
    Listing(rows, Keys(rows))
  }

  function MergedCatalog(ctx: Context, containers: seq<Container>, hosts: seq<Host>): seq<Row>
  {
    WithHosts(WithDisabled(ctx, EnabledPart(ctx, containers), ctx.sources, Images(containers)), hosts).rows
  }

  /** The disambiguation of one source image's key. */
  method ChooseKey(app: string, image: string, seen: set<string>) returns (key: string)
    ensures key == KeyFor(app, image, seen)
  {
    key := app;
    if key in seen {
      var segment := Segment(image);
      key := if StartsWith(segment, app) then segment else app + "-" + segment;
      var base, n := key, 2;
      ghost var left := seen;
      while key in seen
        invariant n >= 2 && left <= seen
        invariant forall m: nat :: m >= n - 1 ==> (Numbered(base, m) in seen <==> Numbered(base, m) in left)
        invariant n == 2 ==> key == base && left == seen
        invariant n > 2 ==> key == Numbered(base, n - 1) && base in seen
        invariant n > 2 ==> FirstFree(base, seen, 2) == FirstFree(base, left, n - 1)
        decreases |left|, if n == 2 then 1 else 0
      {
        if n > 2 {
          left := left - {key};
          forall m: nat | m >= n ensures Numbered(base, m) in seen <==> Numbered(base, m) in left {
            if Numbered(base, m) == key {
              NumberedIsInjective(base, m, n - 1);
            }
          }
        }
        key := Numbered(base, n);
        n := n + 1;
      }
    }
  }

  method AppendDisabled(ctx: Context, out: seq<Row>, seen: set<string>, running: set<string>)
    returns (rows: seq<Row>, keys: set<string>)
    ensures Listing(rows, keys) == WithDisabled(ctx, Listing(out, seen), ctx.sources, running)
  {
    rows, keys := out, seen;
    for i := 0 to |ctx.sources|
      invariant Listing(rows, keys) == WithDisabled(ctx, Listing(out, seen), ctx.sources[..i], running)
    {
      assert ctx.sources[..i + 1][..i] == ctx.sources[..i];
      var e := ctx.sources[i];
      if e.image in running {
        continue;
      }
      var key := ChooseKey(e.app, e.image, keys);
      keys := keys + {key};
      rows := rows + [DisabledRow(ctx, e, key)];
    }
    assert ctx.sources[..|ctx.sources|] == ctx.sources;
  }

  method AppendHosts(out: seq<Row>, seen: set<string>, hosts: seq<Host>) returns (rows: seq<Row>)
    ensures rows == WithHosts(Listing(out, seen), hosts).rows
  {
    rows := out;
    var keys := seen;
    for i := 0 to |hosts|
      invariant Listing(rows, keys) == WithHosts(Listing(out, seen), hosts[..i])
    {
      assert hosts[..i + 1][..i] == hosts[..i];
      var h := hosts[i];
      if h.name in keys {
        continue;
      }
      keys := keys + {h.name};
      rows := rows + [HostRow(h)];
    }
    assert hosts[..|hosts|] == hosts;
  }

  /** The whole catalog: enabled containers, collapsed, then source images that do not
      run, then host apps. */
  method BuildCatalog(ctx: Context, containers: seq<Container>, hosts: seq<Host>) returns (out: seq<Row>)
    ensures out == MergedCatalog(ctx, containers, hosts)
  {
    out := [];
    for i := 0 to |containers|
      invariant out == OwnRows(ctx, containers[..i])
    {
      assert containers[..i + 1][..i] == containers[..i];
      out := out + [OwnRow(ctx, containers[i])];
    }
    assert containers[..|containers|] == containers;
    var keys: set<string>;
    out, keys := CollapseInstanceRows(ctx, out);
    out, keys := AppendDisabled(ctx, out, keys, Images(containers));
    out := AppendHosts(out, keys, hosts);
  }
}
