/** Picking the latest tag of a release stream: _pick_latest and
    _pick_latest_loose of web-platform/backend/resolvers/app_versions.py. */
module Picker {
  import opened Options
  import opened Text
  import opened Tags

  datatype Cand = Cand(version: Version, tag: string)

  /** The listed tags that parse, in listing order. */
  function SemverTags(tags: seq<string>): (r: seq<Cand>)
    ensures forall c :: c in r <==> c.tag in tags && SemverTuple(c.tag) == Some(c.version)
  {
    if tags == [] then []
    else
      var rest := SemverTags(tags[1..]);
      var v := SemverTuple(tags[0]);
      if v.Some? then [Cand(v.value, tags[0])] + rest else rest
  }

  function SameShape(cands: seq<Cand>, shape: Option<Shape>): (r: seq<Cand>)
    ensures forall c :: c in r <==> c in cands && TagShape(c.tag) == shape
  {
    if cands == [] then []
    else
      var rest := SameShape(cands[1..], shape);
      if TagShape(cands[0].tag) == shape then [cands[0]] + rest else rest
  }

  function SameMajor(cands: seq<Cand>, major: nat): (r: seq<Cand>)
    requires forall c :: c in cands ==> |c.version.core| == 4
    ensures forall c :: c in r <==> c in cands && c.version.core[0] == major
  {
    if cands == [] then []
    else
      assert cands[0] in cands;
      var rest := SameMajor(cands[1..], major);
      if cands[0].version.core[0] == major then [cands[0]] + rest else rest
  }

  /** Ranks by version, then by carrying the wanted literal lead. */
  predicate Outranks(a: Cand, b: Cand, lead: string)
  {
    VersionLess(b.version, a.version)
    || (a.version == b.version && RawTagLead(a.tag) == lead && RawTagLead(b.tag) != lead)
  }

  lemma OutranksIsTransitive(a: Cand, b: Cand, c: Cand, lead: string)
    ensures !Outranks(a, b, lead) && !Outranks(b, c, lead) ==> !Outranks(a, c, lead)
    ensures !Outranks(a, a, lead)
  {
    VersionOrder();
  }

  /** Python's max: the first candidate none outranks. */
  function Top(cands: seq<Cand>, lead: string): (r: Cand)
    requires cands != []
    ensures r in cands && forall c :: c in cands ==> !Outranks(c, r, lead)
  {
    var n := |cands| - 1;
    if n == 0 then OutranksIsTransitive(cands[0], cands[0], cands[0], lead); cands[0]
    else
      var best := Top(cands[..n], lead);
      var r := if Outranks(cands[n], best, lead) then cands[n] else best;
      TopStep(cands, best, r, lead);
      r
  }

  lemma TopStep(cands: seq<Cand>, best: Cand, r: Cand, lead: string)
    requires |cands| > 1 && best in cands[..|cands| - 1]
    requires forall c :: c in cands[..|cands| - 1] ==> !Outranks(c, best, lead)
    requires r == if Outranks(cands[|cands| - 1], best, lead) then cands[|cands| - 1] else best
    ensures r in cands && forall c :: c in cands ==> !Outranks(c, r, lead)
  {
    VersionOrder();
    forall c | c in cands ensures !Outranks(c, r, lead) {
      if c in cands[..|cands| - 1] {
        OutranksIsTransitive(c, best, r, lead);
      }
    }
  }

  /** Ranks by version, then by the tag text: the order of (tuple, tag) pairs. */
  predicate PairLess(a: Cand, b: Cand)
  {
    VersionLess(a.version, b.version) || (a.version == b.version && Lex(CharLess, a.tag, b.tag))
  }

  lemma PairOrder()
    ensures StrictTotal(PairLess)
  {
    VersionOrder();
    assert StrictTotal(CharLess);
    LexIsStrictTotal(CharLess);
    var strLess := (a: string, b: string) => Lex(CharLess, a, b);
    assert StrictTotal(strLess);
    forall x, y, z | PairLess(x, y) && PairLess(y, z) ensures PairLess(x, z) {
      assert strLess(x.tag, y.tag) && strLess(y.tag, z.tag) ==> strLess(x.tag, z.tag);
    }
    forall x, y ensures PairLess(x, y) || x == y || PairLess(y, x) {
      assert strLess(x.tag, y.tag) || x.tag == y.tag || strLess(y.tag, x.tag);
    }
    forall x ensures !PairLess(x, x) {
      assert !strLess(x.tag, x.tag);
    }
  }

  function TopPair(cands: seq<Cand>): (r: Cand)
    requires cands != []
    ensures r in cands && forall c :: c in cands ==> !PairLess(r, c)
  {
    var n := |cands| - 1;
    PairOrder();
    if n == 0 then cands[0]
    else
      var best := TopPair(cands[..n]);
      assert forall c :: c in cands ==> c in cands[..n] || c == cands[n];
      if PairLess(best, cands[n]) then cands[n] else best
  }

  lemma CoreHasFour(cands: seq<Cand>, tags: seq<string>)
    requires forall c :: c in cands ==> c in SemverTags(tags)
    ensures forall c :: c in cands ==> |c.version.core| == 4
  {
  }

  function PickLatest(tags: seq<string>, current: string): Option<string>
  {
    var cands := SemverTags(tags);
    var shape, cur := TagShape(current), SemverTuple(current);
    if cands == [] || shape.None? then None
    else
      var lane := SameShape(cands, shape);
      if lane == [] then None
      else if cur.None? then Some(TopPair(lane).tag)
      else
        CoreHasFour(lane, tags);
        var line := SameMajor(lane, cur.value.core[0]);
        if line == [] then None
        else
          var top := Top(line, RawTagLead(current));
          if VersionLess(top.version, cur.value) then None else Some(top.tag)
  }

  function PickLatestLoose(tags: seq<string>, anchor: string, allowBehind: bool): Option<string>
  {
    var cands := SemverTags(tags);
    if cands == [] then None
    else
      var top := TopPair(cands);
      var at := SemverTuple(anchor);
      if !allowBehind && at.Some? && VersionLess(top.version, at.value) then None else Some(top.tag)
  }

  // ------------------------------------------------------------ what a pick is

  /** t is a listed tag of current's stream and major line. */
  ghost predicate InLine(tags: seq<string>, current: string, t: string)
    requires SemverTuple(current).Some?
  {
    && t in tags && SemverTuple(t).Some?
    && TagShape(t) == TagShape(current)
    && SemverTuple(t).value.core[0] == SemverTuple(current).value.core[0]
  }

  predicate NotBelow(t: string, current: string)
    requires SemverTuple(t).Some? && SemverTuple(current).Some?
  {
    !VersionLess(SemverTuple(t).value, SemverTuple(current).value)
  }

  /** The candidates _pick_latest narrows the listing down to. */
  function Line(tags: seq<string>, current: string): (r: seq<Cand>)
    requires SemverTuple(current).Some?
    ensures forall c :: c in r <==> InLine(tags, current, c.tag) && SemverTuple(c.tag) == Some(c.version)
  {
    var lane := SameShape(SemverTags(tags), TagShape(current));
    CoreHasFour(lane, tags);
    SameMajor(lane, SemverTuple(current).value.core[0])
  }

  lemma SemverHasShape(tag: string)
    requires SemverTuple(tag).Some?
    ensures TagShape(tag).Some?
  {
    var s := StripTagPrefix(tag);
    var t := AfterV(s);
    var k := |tag| - |t|;
    assert tag[k..] == t && IsDigit(tag[k]);
  }

  /** PickLatest in one line, for a current tag that parses. */
  lemma PickIsTopOfLine(tags: seq<string>, current: string)
    requires SemverTuple(current).Some?
    ensures
      var line := Line(tags, current);
      PickLatest(tags, current) ==
        if line == [] then None
        else if VersionLess(Top(line, RawTagLead(current)).version, SemverTuple(current).value) then None
        else Some(Top(line, RawTagLead(current)).tag)
  {
    SemverHasShape(current);
    var line := Line(tags, current);
    if line != [] {
      assert line[0] in line;
      var c := line[0];
      assert c in SemverTags(tags);
      assert c in SameShape(SemverTags(tags), TagShape(current));
    }
  }

  /** The top of the line is a tag of the line, and maximal there. */
  lemma TopOfLine(tags: seq<string>, current: string)
    requires SemverTuple(current).Some?
    ensures
      var line := Line(tags, current);
      if line == [] then forall t :: !InLine(tags, current, t)
      else
        var top := Top(line, RawTagLead(current));
        && InLine(tags, current, top.tag) && SemverTuple(top.tag) == Some(top.version)
        && forall t :: InLine(tags, current, t) ==> NotBelow(top.tag, t)
  {
    var line := Line(tags, current);
    forall t | InLine(tags, current, t)
      ensures line != [] && !VersionLess(Top(line, RawTagLead(current)).version, SemverTuple(t).value)
    {
      assert Cand(SemverTuple(t).value, t) in line;
    }
    if line != [] {
      assert Top(line, RawTagLead(current)) in line;
    }
  }

  /** Sound and complete: a pick is a maximal tag of the stream that is not below
      current, and nothing is picked exactly when there is no such tag. */
  lemma PickSoundAndComplete(tags: seq<string>, current: string)
    requires SemverTuple(current).Some?
    ensures PickLatest(tags, current).None? <==>
      !exists t :: InLine(tags, current, t) && NotBelow(t, current)
    ensures PickLatest(tags, current).Some? ==>
      var p := PickLatest(tags, current).value;
      && InLine(tags, current, p) && NotBelow(p, current)
      && forall t :: InLine(tags, current, t) ==> NotBelow(p, t)
  {
    PickIsTopOfLine(tags, current);
    TopOfLine(tags, current);
    VersionOrder();
  }

  /** Among equal versions the pick carries current's literal lead when any does. */
  lemma PickKeepsLead(tags: seq<string>, current: string)
    requires SemverTuple(current).Some? && PickLatest(tags, current).Some?
    ensures
      var p := PickLatest(tags, current).value;
      RawTagLead(p) == RawTagLead(current) <==>
        exists t :: InLine(tags, current, t) && SemverTuple(t) == SemverTuple(p) && RawTagLead(t) == RawTagLead(current)
  {
    PickIsTopOfLine(tags, current);
    PickSoundAndComplete(tags, current);
    var line := Line(tags, current);
    var top := Top(line, RawTagLead(current));
    if t :| InLine(tags, current, t) && SemverTuple(t) == SemverTuple(top.tag) && RawTagLead(t) == RawTagLead(current) {
      assert Cand(SemverTuple(t).value, t) in line;
    }
  }

  /** Python's max keeps the first: the top candidate outranks all before it. */
  lemma {:induction false} TopIsFirst(cands: seq<Cand>, lead: string) returns (i: nat)
    requires cands != []
    ensures i < |cands| && cands[i] == Top(cands, lead)
    ensures forall j :: 0 <= j < i ==> Outranks(cands[i], cands[j], lead)
  {
    var n := |cands| - 1;
    i := 0;
    if n > 0 {
      var best := Top(cands[..n], lead);
      if Outranks(cands[n], best, lead) {
        i := n;
        forall j | 0 <= j < n ensures Outranks(cands[n], cands[j], lead) {
          assert cands[j] in cands[..n];
          OutranksIsTransitive(cands[n], cands[j], best, lead);
        }
      } else {
        i := TopIsFirst(cands[..n], lead);
        assert forall j :: 0 <= j < n ==> cands[..n][j] == cands[j];
      }
    }
  }

  type Parser = string -> Option<Version>

  function Candidate(v: Option<Version>, tag: string): Option<Cand>
  {
    if v.Some? then Some(Cand(v.value, tag)) else None
  }

  /** What each listed tag parses to. */
  function Parsed(parse: Parser, tags: seq<string>): (r: seq<Option<Cand>>)
    ensures |r| == |tags| && forall i :: 0 <= i < |tags| ==> r[i] == Candidate(parse(tags[i]), tags[i])
  {
    seq(|tags|, i requires 0 <= i < |tags| => Candidate(parse(tags[i]), tags[i]))
  }

  lemma ParsedHead(parse: Parser, tags: seq<string>)
    requires tags != []
    ensures Parsed(parse, tags) == [Candidate(parse(tags[0]), tags[0])] + Parsed(parse, tags[1..])
  {
  }

  lemma SemverTagsHead(parse: Parser, tags: seq<string>, c: Option<Cand>)
    requires tags != [] && parse(tags[0]) == SemverTuple(tags[0]) && c == Candidate(parse(tags[0]), tags[0])
    ensures SemverTags(tags) == (if c.Some? then [c.value] else []) + SemverTags(tags[1..])
  {
  }

  lemma {:induction false} ParsedInOrder(parse: Parser, tags: seq<string>) returns (at: seq<nat>)
    requires forall t :: parse(t) == SemverTuple(t)
    ensures AreValues(Parsed(parse, tags), SemverTags(tags), at)
  {
    at := [];
    if tags != [] {
      var c := Candidate(parse(tags[0]), tags[0]);
      var before := ParsedInOrder(parse, tags[1..]);
      ParsedHead(parse, tags);
      SemverTagsHead(parse, tags, c);
      at := (if c.Some? then [0] else []) + Shifted(before);
      OneMoreValue(c, Parsed(parse, tags[1..]), SemverTags(tags[1..]), before, at);
    }
  }

  function HasShape(shape: Option<Shape>): Cand -> bool
  {
    (c: Cand) => TagShape(c.tag) == shape
  }

  function HasMajor(major: nat): Cand -> bool
  {
    (c: Cand) => c.version.core != [] && c.version.core[0] == major
  }

  lemma NarrowedHead(cands: seq<Cand>, p: Cand -> bool)
    requires cands != []
    ensures Narrowed(Somes(cands), p) ==
      [if p(cands[0]) then Some(cands[0]) else None] + Narrowed(Somes(cands[1..]), p)
  {
  }

  lemma SameShapeHead(cands: seq<Cand>, shape: Option<Shape>, keep: bool)
    requires cands != [] && keep == (TagShape(cands[0].tag) == shape)
    ensures SameShape(cands, shape) == (if keep then [cands[0]] else []) + SameShape(cands[1..], shape)
  {
  }

  lemma {:induction false} ShapeInOrder(cands: seq<Cand>, shape: Option<Shape>, p: Cand -> bool)
    returns (at: seq<nat>)
    requires forall c :: p(c) <==> TagShape(c.tag) == shape
    ensures AreValues(Narrowed(Somes(cands), p), SameShape(cands, shape), at)
  {
    at := [];
    if cands != [] {
      var c := if p(cands[0]) then Some(cands[0]) else None;
      var before := ShapeInOrder(cands[1..], shape, p);
      NarrowedHead(cands, p);
      SameShapeHead(cands, shape, p(cands[0]));
      at := (if c.Some? then [0] else []) + Shifted(before);
      OneMoreValue(c, Narrowed(Somes(cands[1..]), p), SameShape(cands[1..], shape), before, at);
    }
  }

  lemma {:induction false} MajorInOrder(cands: seq<Cand>, major: nat, p: Cand -> bool) returns (at: seq<nat>)
    requires p == HasMajor(major) && forall c :: c in cands ==> |c.version.core| == 4
    ensures AreValues(Narrowed(Somes(cands), p), SameMajor(cands, major), at)
  {
    at := [];
    if cands != [] {
      assert cands[0] in cands;
      var c := if p(cands[0]) then Some(cands[0]) else None;
      var before := MajorInOrder(cands[1..], major, p);
      NarrowedHead(cands, p);
      at := (if c.Some? then [0] else []) + Shifted(before);
      OneMoreValue(c, Narrowed(Somes(cands[1..]), p), SameMajor(cands[1..], major), before, at);
    }
  }

  /** The candidates of the stream and major line, tag by tag. */
  function InTheLine(parse: Parser, tags: seq<string>, shape: Option<Shape>, major: nat): seq<Option<Cand>>
  {
    Narrowed(Narrowed(Parsed(parse, tags), HasShape(shape)), HasMajor(major))
  }

  /** The line is the listing's candidates, in listing order. */
  lemma LineInOrder(parse: Parser, tags: seq<string>, current: string, shape: Option<Shape>, major: nat)
    returns (at: seq<nat>)
    requires SemverTuple(current).Some? && forall t :: parse(t) == SemverTuple(t)
    requires shape == TagShape(current) && major == SemverTuple(current).value.core[0]
    ensures AreValues(InTheLine(parse, tags, shape, major), Line(tags, current), at)
  {
    var cands := SemverTags(tags);
    var lane := SameShape(cands, shape);
    var first := ParsedInOrder(parse, tags);
    var second := ShapeInOrder(cands, shape, HasShape(shape));
    NarrowedValues(Parsed(parse, tags), cands, first, HasShape(shape), lane, second);
    CoreHasFour(lane, tags);
    var third := MajorInOrder(lane, major, HasMajor(major));
    NarrowedValues(Narrowed(Parsed(parse, tags), HasShape(shape)), lane, Through(first, second), HasMajor(major),
                   SameMajor(lane, major), third);
    at := Through(Through(first, second), third);
  }

  lemma InTheLineExactly(
    parse: Parser, tags: seq<string>, current: string, shape: Option<Shape>, major: nat, i: nat)
    requires SemverTuple(current).Some? && i < |tags| && parse(tags[i]) == SemverTuple(tags[i])
    requires shape == TagShape(current) && major == SemverTuple(current).value.core[0]
    ensures |InTheLine(parse, tags, shape, major)| == |tags|
    ensures InTheLine(parse, tags, shape, major)[i].Some? <==> InLine(tags, current, tags[i])
    ensures InTheLine(parse, tags, shape, major)[i].Some? ==>
      InTheLine(parse, tags, shape, major)[i].value.tag == tags[i]
  {
  }

  /** Every tag of the stream listed before candidate i is a candidate before it. */
  lemma EarlierInLine(tags: seq<string>, current: string, i: nat) returns (first: nat)
    requires SemverTuple(current).Some? && i < |Line(tags, current)|
    ensures first < |tags| && tags[first] == Line(tags, current)[i].tag
    ensures forall j :: 0 <= j < first && InLine(tags, current, tags[j]) ==>
      exists k :: 0 <= k < i && Line(tags, current)[k].tag == tags[j]
  {
    var line, parse := Line(tags, current), (t: string) => SemverTuple(t);
    var shape, major := TagShape(current), SemverTuple(current).value.core[0];
    var at := LineInOrder(parse, tags, current, shape, major);
    var answers := InTheLine(parse, tags, shape, major);
    first := at[i];
    InTheLineExactly(parse, tags, current, shape, major, first);
    forall j | 0 <= j < first && InLine(tags, current, tags[j])
      ensures exists k :: 0 <= k < i && line[k].tag == tags[j]
    {
      InTheLineExactly(parse, tags, current, shape, major, j);
      var k := EarlierValue(answers, line, at, i, j);
      assert line[k].tag == tags[j];
    }
  }

  /** Among tags of one version that carry current's literal lead alike, the one listed
      first is picked. */
  lemma PickIsFirstOfEquals(tags: seq<string>, current: string) returns (first: nat)
    requires SemverTuple(current).Some? && PickLatest(tags, current).Some?
    ensures
      var p, lead := PickLatest(tags, current).value, RawTagLead(current);
      && first < |tags| && tags[first] == p
      && forall j :: 0 <= j < first && InLine(tags, current, tags[j]) && SemverTuple(tags[j]) == SemverTuple(p) ==>
           RawTagLead(tags[j]) != lead && RawTagLead(p) == lead
  {
    var line, lead := Line(tags, current), RawTagLead(current);
    PickIsTopOfLine(tags, current);
    var i := TopIsFirst(line, lead);
    first := EarlierInLine(tags, current, i);
    forall j | 0 <= j < first && InLine(tags, current, tags[j]) && SemverTuple(tags[j]) == SemverTuple(tags[first])
      ensures RawTagLead(tags[j]) != lead && RawTagLead(tags[first]) == lead
    {
      var k :| 0 <= k < i && line[k].tag == tags[j];
      assert line[k] in line && line[i] in line;
      VersionIsNotBelowItself(line[i].version);
    }
  }

  lemma VersionIsNotBelowItself(v: Version)
    ensures !VersionLess(v, v)
  {
    VersionOrder();
  }

  /** The picked version depends on which tags are listed, not on their order or
      repetition. */
  lemma PickIgnoresOrder(tags: seq<string>, other: seq<string>, current: string)
    requires SemverTuple(current).Some?
    requires forall t :: t in tags <==> t in other
    ensures PickLatest(tags, current).Some? <==> PickLatest(other, current).Some?
    ensures PickLatest(tags, current).Some? ==>
      SemverTuple(PickLatest(tags, current).value) == SemverTuple(PickLatest(other, current).value)
  {
    PickSoundAndComplete(tags, current);
    PickSoundAndComplete(other, current);
    VersionOrder();
    forall t ensures InLine(tags, current, t) <==> InLine(other, current, t) {
    }
  }

  /** The pin after picking from each listing in turn; a failed pick keeps it. */
  function PinAfter(pin: string, listings: seq<seq<string>>): string
  {
    if listings == [] then pin
    else
      var n := |listings| - 1;
      var before := PinAfter(pin, listings[..n]);
      var picked := PickLatest(listings[n], before);
      if picked.Some? then picked.value else before
  }

  /** Repeated picks over changing listings stay in one stream and one major line,
      and the version never goes down. */
  lemma {:induction false} PinsStayInStream(pin: string, listings: seq<seq<string>>)
    requires SemverTuple(pin).Some?
    ensures
      var p := PinAfter(pin, listings);
      && SemverTuple(p).Some? && TagShape(p) == TagShape(pin)
      && SemverTuple(p).value.core[0] == SemverTuple(pin).value.core[0]
      && NotBelow(p, pin)
  {
    VersionOrder();
    if listings != [] {
      var n := |listings| - 1;
      PinsStayInStream(pin, listings[..n]);
      PickSoundAndComplete(listings[n], PinAfter(pin, listings[..n]));
    }
  }

  /** t is a listed tag of the stream of a current tag that has no version. */
  ghost predicate InLane(tags: seq<string>, current: string, t: string)
  {
    && t in tags && SemverTuple(t).Some?
    && TagShape(current).Some? && TagShape(t) == TagShape(current)
  }

  /** Without a version to anchor to, the pick is a maximal tag of the stream, of any
      major line, the last in text order among equal versions, and nothing is picked
      exactly when the stream is not listed. */
  lemma UnanchoredPickSoundAndComplete(tags: seq<string>, current: string)
    requires SemverTuple(current).None?
    ensures PickLatest(tags, current).None? <==> !exists t :: InLane(tags, current, t)
    ensures PickLatest(tags, current).Some? ==>
      var p := PickLatest(tags, current).value;
      && InLane(tags, current, p) && (forall t :: InLane(tags, current, t) ==> NotBelow(p, t))
      && forall t :: InLane(tags, current, t) && SemverTuple(t) == SemverTuple(p) ==> !Lex(CharLess, p, t)
  {
    var cands := SemverTags(tags);
    var lane := SameShape(cands, TagShape(current));
    forall t | InLane(tags, current, t)
      ensures lane != [] && !PairLess(TopPair(lane), Cand(SemverTuple(t).value, t))
    {
      var c := Cand(SemverTuple(t).value, t);
      assert c in cands && c in lane;
    }
    if TagShape(current).Some? && lane != [] {
      assert TopPair(lane) in lane && TopPair(lane) in cands;
      assert InLane(tags, current, TopPair(lane).tag);
    }
  }

  /** The loose picker: maximal over every parseable tag, by text among equals; refuses only an empty
      field or, unless allowed, a field that is all behind a parseable anchor. */
  lemma LoosePickSoundAndComplete(tags: seq<string>, anchor: string, allowBehind: bool)
    ensures PickLatestLoose(tags, anchor, allowBehind).Some? ==>
      var p := PickLatestLoose(tags, anchor, allowBehind).value;
      && p in tags && SemverTuple(p).Some?
      && (forall t :: t in tags && SemverTuple(t).Some? ==> NotBelow(p, t))
      && forall t :: t in tags && SemverTuple(t) == SemverTuple(p) ==> !Lex(CharLess, p, t)
    ensures PickLatestLoose(tags, anchor, allowBehind).None? <==>
      forall t :: t in tags && SemverTuple(t).Some? ==>
        !allowBehind && SemverTuple(anchor).Some? && !NotBelow(t, anchor)
  {
    VersionOrder();
    var cands := SemverTags(tags);
    forall t | t in tags && SemverTuple(t).Some?
      ensures cands != [] && !PairLess(TopPair(cands), Cand(SemverTuple(t).value, t))
    {
      assert Cand(SemverTuple(t).value, t) in cands;
    }
    if cands != [] {
      assert TopPair(cands) in cands;
    }
  }
}
