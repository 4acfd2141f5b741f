/** Image pins read from a source file, and the rewrite of one binding: the
    parser of web-platform/backend/resolvers/app_source_index.py against
    rewrite_binding of scripts/upgrade-apps.py.

    A file is its list of lines; no line holds a newline. */
module SourceFile {
  import opened Options
  import opened Text
  import opened Template
  import opened SourceLine

  datatype Bound = Bound(line: nat, value: string)

  /** What the collector takes from one line. */
  datatype Reading = Reading(bind: Option<(string, string)>, image: Option<string>)

  function ReadLine(line: string): Reading
  {
    if IsComment(line) then Reading(None, None) else Reading(LetBind(line), ImageLine(line))
  }

  function ReadLines(lines: seq<string>): (rs: seq<Reading>)
    ensures |rs| == |lines|
    ensures forall i :: 0 <= i < |lines| ==> rs[i] == ReadLine(lines[i])
  {
    seq(|lines|, i requires 0 <= i < |lines| => ReadLine(lines[i]))
  }

  // ------------------------------------------------------------ the collector

  /** The first binding of every name, by line, from line i on. */
  function BindingsFrom(rs: seq<Reading>, i: nat): (m: map<string, Bound>)
    requires i <= |rs|
    decreases |rs| - i
  {
    if i == |rs| then map[]
    else
      var rest := BindingsFrom(rs, i + 1);
      if rs[i].bind.Some? then rest[rs[i].bind.value.0 := Bound(i, rs[i].bind.value.1)] else rest
  }

  /** The image templates in line order, from line i on. */
  function ImagesFrom(rs: seq<Reading>, i: nat): seq<(nat, string)>
    requires i <= |rs|
    decreases |rs| - i
  {
    if i == |rs| then []
    else (if rs[i].image.Some? then [(i, rs[i].image.value)] else []) + ImagesFrom(rs, i + 1)
  }

  function Bindings(lines: seq<string>): map<string, Bound>
  {
    BindingsFrom(ReadLines(lines), 0)
  }

  function Images(lines: seq<string>): seq<(nat, string)>
  {
    ImagesFrom(ReadLines(lines), 0)
  }

  /** dict.setdefault for one line's binding. */
  function SetDefault(m: map<string, Bound>, i: nat, bind: Option<(string, string)>): map<string, Bound>
  {
    if bind.Some? && bind.value.0 !in m then m[bind.value.0 := Bound(i, bind.value.1)] else m
  }

  ghost predicate CollectedSoFar(rs: seq<Reading>, i: nat, m: map<string, Bound>, images: seq<(nat, string)>)
  {
    && i <= |rs|
    && BindingsFrom(rs, 0) == BindingsFrom(rs, i) + m
    && ImagesFrom(rs, 0) == images + ImagesFrom(rs, i)
  }

  lemma CollectStart(rs: seq<Reading>)
    ensures CollectedSoFar(rs, 0, map[], [])
  {
    assert BindingsFrom(rs, 0) + map[] == BindingsFrom(rs, 0);
    assert [] + ImagesFrom(rs, 0) == ImagesFrom(rs, 0);
  }

  lemma CollectStep(rs: seq<Reading>, i: nat, m: map<string, Bound>, images: seq<(nat, string)>)
    requires i < |rs| && CollectedSoFar(rs, i, m, images)
    ensures CollectedSoFar(rs, i + 1, SetDefault(m, i, rs[i].bind),
                           if rs[i].image.Some? then images + [(i, rs[i].image.value)] else images)
  {
    Associates(images, if rs[i].image.Some? then [(i, rs[i].image.value)] else [], ImagesFrom(rs, i + 1));
    assert BindingsFrom(rs, i) + m == BindingsFrom(rs, i + 1) + SetDefault(m, i, rs[i].bind);
  }

  lemma CollectEnd(rs: seq<Reading>, m: map<string, Bound>, images: seq<(nat, string)>)
    requires CollectedSoFar(rs, |rs|, m, images)
    ensures m == BindingsFrom(rs, 0) && images == ImagesFrom(rs, 0)
  {
    assert map[] + m == m;
  }

  /** One pass over the lines. */
  method CollectLines(lines: seq<string>) returns (bindings: map<string, Bound>, images: seq<(nat, string)>)
    ensures bindings == Bindings(lines) && images == Images(lines)
  {
    var rs := ReadLines(lines);
    bindings, images := map[], [];
    CollectStart(rs);
    for i := 0 to |rs|
      invariant CollectedSoFar(rs, i, bindings, images)
    {
      CollectStep(rs, i, bindings, images);
      if rs[i].image.Some? {
        images := images + [(i, rs[i].image.value)];
      }
      bindings := SetDefault(bindings, i, rs[i].bind);
    }
    CollectEnd(rs, bindings, images);
  }

  ghost predicate BindsAt(rs: seq<Reading>, k: int, name: string)
  {
    0 <= k < |rs| && rs[k].bind.Some? && rs[k].bind.value.0 == name
  }

  ghost predicate FirstAt(rs: seq<Reading>, i: nat, name: string, b: Bound)
  {
    && i <= b.line < |rs| && rs[b.line].bind == Some((name, b.value))
    && forall k :: i <= k < b.line ==> !BindsAt(rs, k, name)
  }

  /** What the collected map means: a name is bound to its first binding line. */
  lemma {:induction false} BindingsAreFirst(rs: seq<Reading>, i: nat)
    requires i <= |rs|
    ensures forall name :: name in BindingsFrom(rs, i) ==> FirstAt(rs, i, name, BindingsFrom(rs, i)[name])
    ensures forall name, k :: i <= k && BindsAt(rs, k, name) ==> name in BindingsFrom(rs, i)
    decreases |rs| - i
  {
    if i < |rs| {
      BindingsAreFirst(rs, i + 1);
      var m, rest := BindingsFrom(rs, i), BindingsFrom(rs, i + 1);
      forall name | name in m ensures FirstAt(rs, i, name, m[name]) {
        if !BindsAt(rs, i, name) {
          assert FirstAt(rs, i + 1, name, rest[name]);
        }
      }
      forall name, k | i <= k && BindsAt(rs, k, name) ensures name in m {
        if k > i {
          assert name in rest;
        }
      }
    }
  }

  // ------------------------------------------------------------- the entries

  datatype Entry = Entry(binding: string, line: nat, current: string, prefix: string, suffix: string)

  /** The text after the last colon, if there is a colon. */
  function AfterLastColon(s: string): (r: Option<string>)
    ensures r.Some? ==> |r.value| < |s| && s[|s| - |r.value|..] == r.value && s[|s| - |r.value| - 1] == ':'
  {
    if s == "" then None
    else
      var rest := AfterLastColon(s[1..]);
      if rest.Some? then
        assert s[1..][|s[1..]| - |rest.value|..] == s[|s| - |rest.value|..];
        rest
      else if s[0] == ':' then Some(s[1..]) else None
  }

  /** Position of the first occurrence of p in s, or |s|. */
  function Find(s: string, p: string): (n: nat)
    ensures n <= |s| && (n < |s| ==> p <= s[n..])
  {
    if s == "" then 0 else if p <= s then 0 else 1 + Find(s[1..], p)
  }

  /** str.partition at a placeholder that occurs: the text before and after it. */
  function Partition(s: string, p: string): (r: (string, string))
    ensures |r.0| < |s| && p <= s[|r.0|..] ==> s == r.0 + p + r.1
  {
    var n := Find(s, p);
    if n < |s| then
      assert s[n..] == p + s[n..][|p|..] && s == s[..n] + s[n..];
      (s[..n], s[n..][|p|..])
    else (s, "")
  }

  function ValuesOf(bindings: map<string, Bound>): map<string, string>
  {
    map name | name in bindings :: bindings[name].value
  }

  /** One image template against the bindings: the resolved image and the entry the
      bumper can rewrite, if the tag opens with a bound reference. */
  function EntryFor(template: string, bindings: map<string, Bound>): Option<(string, Entry)>
  {
    var tag := AfterLastColon(template);
    if Contains(template, "@sha256:") || tag.None? then None
    else
      var refs := FindAll(tag.value);
      if refs == [] || refs[0] !in bindings then None
      else
        var resolved := Resolve(template, ValuesOf(bindings), 4);
        var (before, after) := Partition(tag.value, Placeholder(refs[0]));
        if resolved.None? || HasOpening(before) || HasOpening(after) then None
        else
          var b := bindings[refs[0]];
          Some((resolved.value, Entry(refs[0], b.line, b.value, before, after)))
  }

  function Entries(images: seq<(nat, string)>, bindings: map<string, Bound>): (r: seq<(string, Entry)>)
  {
    if images == [] then []
    else
      var e := EntryFor(images[0].1, bindings);
      (if e.Some? then [e.value] else []) + Entries(images[1..], bindings)
  }

  function Parse(lines: seq<string>): seq<(string, Entry)>
  {
    Entries(Images(lines), Bindings(lines))
  }

  method FindEntry(template: string, bindings: map<string, Bound>) returns (e: Option<(string, Entry)>)
    ensures e == EntryFor(template, bindings)
  {
    var tag := AfterLastColon(template);
    if Contains(template, "@sha256:") || tag.None? {
      return None;
    }
    var refs := FindAll(tag.value);
    if refs == [] || refs[0] !in bindings {
      return None;
    }
    var resolved := ResolveTemplate(template, ValuesOf(bindings));
    var (before, after) := Partition(tag.value, Placeholder(refs[0]));
    if resolved.None? || HasOpening(before) || HasOpening(after) {
      return None;
    }
    var b := bindings[refs[0]];
    e := Some((resolved.value, Entry(refs[0], b.line, b.value, before, after)));
  }

  lemma EntriesStep(images: seq<(nat, string)>, i: nat, bindings: map<string, Bound>, results: seq<(string, Entry)>,
                    e: Option<(string, Entry)>)
    requires i < |images| && e == EntryFor(images[i].1, bindings)
    ensures results + Entries(images[i..], bindings) ==
      (if e.Some? then results + [e.value] else results) + Entries(images[i + 1..], bindings)
  {
    assert images[i..][0] == images[i] && images[i..][1..] == images[i + 1..];
    Associates(results, if e.Some? then [e.value] else [], Entries(images[i + 1..], bindings));
  }

  method ParseSourceFile(lines: seq<string>) returns (results: seq<(string, Entry)>)
    ensures results == Parse(lines)
  {
    var bindings, images := CollectLines(lines);
    results := [];
    for i := 0 to |images|
      invariant Entries(images, bindings) == results + Entries(images[i..], bindings)
    {
      var e := FindEntry(images[i].1, bindings);
      EntriesStep(images, i, bindings, results, e);
      if e.Some? {
        results := results + [e.value];
      }
    }
  }

  // -------------------------------------------------------------- the rewrite

  /** rewrite_binding on the lines: nothing happens unless the line still binds
      that name. */
  function Rewritten(lines: seq<string>, line: nat, name: string, v: string): Option<seq<string>>
  {
    if line >= |lines| then None else Replaced(lines, line, RewriteLine(lines[line], name, v))
  }

  function Replaced(lines: seq<string>, line: nat, r: Option<string>): Option<seq<string>>
    requires line < |lines|
  {
    if r.Some? then Some(lines[line := r.value]) else None
  }

  /** How the collector reads a rewritten line. */
  lemma RewrittenReading(line: string, name: string, v: string)
    requires ReadLine(line).bind.Some? && ReadLine(line).bind.value.0 == name
    requires name != "image" && All(v, NotQuote)
    ensures RewriteLine(line, name, v).Some? && ReadLine(line).image.None?
    ensures ReadLine(RewriteLine(line, name, v).value) == Reading(Some((name, v)), None)
  {
    RewrittenLineScans(line, name, v);
    BoundLineIsNoComment(RewriteLine(line, name, v).value);
  }

  lemma {:induction false} BindingsAfterUpdate(rs: seq<Reading>, line: nat, name: string, v: string, i: nat)
    requires i <= |rs| && BindsAt(rs, line, name)
    ensures
      var was := BindingsFrom(rs, i);
      BindingsFrom(rs[line := Reading(Some((name, v)), None)], i)
        == if name in was && was[name].line == line then was[name := Bound(line, v)] else was
    decreases |rs| - i
  {
    if i < |rs| {
      BindingsAfterUpdate(rs, line, name, v, i + 1);
      BindingsAreFirst(rs, i + 1);
    }
  }

  lemma {:induction false} ImagesAfterUpdate(rs: seq<Reading>, line: nat, r: Reading, i: nat)
    requires i <= |rs| && line < |rs| && rs[line].image == r.image
    ensures ImagesFrom(rs[line := r], i) == ImagesFrom(rs, i)
    decreases |rs| - i
  {
    if i < |rs| {
      ImagesAfterUpdate(rs, line, r, i + 1);
    }
  }

  /** Rewriting a collected binding (not the one named image) to a value without a
      quote always succeeds and changes one line; collecting again finds the same
      images and the same bindings, with the new value in its place. */
  lemma RewriteThenCollect(lines: seq<string>, name: string, v: string) returns (after: seq<string>)
    requires name in Bindings(lines) && name != "image" && All(v, NotQuote)
    ensures Rewritten(lines, Bindings(lines)[name].line, name, v) == Some(after)
    ensures |after| == |lines|
    ensures forall k :: 0 <= k < |lines| && k != Bindings(lines)[name].line ==> after[k] == lines[k]
    ensures Bindings(after) == Bindings(lines)[name := Bound(Bindings(lines)[name].line, v)]
    ensures Images(after) == Images(lines)
  {
    var rs := ReadLines(lines);
    BindingsAreFirst(rs, 0);
    var b := Bindings(lines)[name];
    assert FirstAt(rs, 0, name, b);
    RewrittenReading(lines[b.line], name, v);
    after := lines[b.line := RewriteLine(lines[b.line], name, v).value];
    var r := Reading(Some((name, v)), None);
    assert ReadLines(after) == rs[b.line := r];
    BindingsAfterUpdate(rs, b.line, name, v, 0);
    ImagesAfterUpdate(rs, b.line, r, 0);
  }

  /** Distinct bindings sit on distinct lines. */
  lemma BindingLinesAreDistinct(lines: seq<string>, a: string, b: string)
    requires a in Bindings(lines) && b in Bindings(lines) && a != b
    ensures Bindings(lines)[a].line != Bindings(lines)[b].line
  {
    var rs := ReadLines(lines);
    BindingsAreFirst(rs, 0);
    assert FirstAt(rs, 0, a, Bindings(lines)[a]) && FirstAt(rs, 0, b, Bindings(lines)[b]);
  }

  lemma ReplacedElsewhere(lines: seq<string>, line: nat, r: Option<string>, at: nat, x: string)
    requires line < |lines| && at < |lines| && at != line && r.Some?
    ensures Replaced(lines[at := x], line, r) == Some(Replaced(lines, line, r).value[at := x])
  {
    assert lines[at := x][line := r.value] == lines[line := r.value][at := x];
  }

  /** Rewrites of two distinct bindings of one file commute, and each is what the
      other left for it. */
  lemma RewritesCommute(lines: seq<string>, a: string, v: string, b: string, w: string)
    returns (first: seq<string>, second: seq<string>, both: seq<string>)
    requires a in Bindings(lines) && b in Bindings(lines) && a != b
    requires a != "image" && b != "image" && All(v, NotQuote) && All(w, NotQuote)
    ensures Rewritten(lines, Bindings(lines)[a].line, a, v) == Some(first)
    ensures Rewritten(lines, Bindings(lines)[b].line, b, w) == Some(second)
    ensures Rewritten(first, Bindings(lines)[b].line, b, w) == Some(both)
    ensures Rewritten(second, Bindings(lines)[a].line, a, v) == Some(both)
    ensures Bindings(both) == Bindings(lines)[a := Bound(Bindings(lines)[a].line, v)]
                                             [b := Bound(Bindings(lines)[b].line, w)]
  {
    BindingLinesAreDistinct(lines, a, b);
    var la, lb := Bindings(lines)[a].line, Bindings(lines)[b].line;
    first := RewriteThenCollect(lines, a, v);
    second := RewriteThenCollect(lines, b, w);
    both := RewriteThenCollect(first, b, w);
    var x, y := RewriteLine(lines[la], a, v), RewriteLine(lines[lb], b, w);
    assert first == lines[la := x.value] && second == lines[lb := y.value];
    assert first[lb] == lines[lb] && second[la] == lines[la];
    ReplacedElsewhere(lines, lb, y, la, x.value);
    ReplacedElsewhere(lines, la, x, lb, y.value);
    assert lines[la := x.value][lb := y.value] == lines[lb := y.value][la := x.value];
  }
}
