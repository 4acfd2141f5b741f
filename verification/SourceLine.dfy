/** One line of a Nix source file of the shape
        name = "value"; anything
    as the let-binding and image patterns of
    web-platform/backend/resolvers/app_source_index.py see it, and its rewrite by
    scripts/upgrade-apps.py. */
module SourceLine {
  import opened Options
  import opened Text

  /** A line cut at its fixed characters:
      indent name gap1 = gap2 " value " gap3 ; rest */
  datatype Binding = Binding(
    indent: string, name: string, gap1: string, gap2: string, value: string, gap3: string, rest: string)

  predicate All(s: string, p: char -> bool)
  {
    forall i :: 0 <= i < |s| ==> p(s[i])
  }

  /** The parts every matching line is made of. */
  predicate Proper(b: Binding)
  {
    && All(b.indent, IsSpace) && All(b.gap1, IsSpace) && All(b.gap2, IsSpace) && All(b.gap3, IsSpace)
    && b.name != "" && IsLetter(b.name[0]) && All(b.name, IsNameChar)
    && All(b.value, NotQuote)
  }

  // ------------------------------------------------------------------ printing

  function PrintTail(gap3: string, rest: string): string
  {
    ['"'] + (gap3 + ([';'] + rest))
  }

  function PrintQuoted(value: string, tail: string): string
  {
    ['"'] + (value + tail)
  }

  function PrintAssigned(gap1: string, gap2: string, quoted: string): string
  {
    gap1 + (['='] + (gap2 + quoted))
  }

  function Print(b: Binding): string
  {
    b.indent + (b.name + PrintAssigned(b.gap1, b.gap2, PrintQuoted(b.value, PrintTail(b.gap3, b.rest))))
  }

  // ------------------------------------------------------------------ scanning

  /** Splits off the longest prefix of characters in p. */
  function Take(s: string, p: char -> bool): (r: (string, string))
    ensures s == r.0 + r.1 && All(r.0, p) && (r.1 != "" ==> !p(r.1[0]))
  {
    var n := Run(s, p);
    (s[..n], s[n..])
  }

  lemma TakeConcat(a: string, b: string, p: char -> bool)
    requires All(a, p) && (b != "" ==> !p(b[0]))
    ensures Take(a + b, p) == (a, b)
  {
    RunIs(a + b, p, |a|);
  }

  /** A required character, then a run of characters in p: the run and what follows. */
  function ExpectTake(s: string, c: char, p: char -> bool): (r: Option<(string, string)>)
    ensures r.Some? ==> s == [c] + (r.value.0 + r.value.1) && All(r.value.0, p)
    ensures r.Some? && r.value.1 != "" ==> !p(r.value.1[0])
  {
    if s != "" && s[0] == c then Some(Take(s[1..], p)) else None
  }

  lemma ExpectTakePrinted(c: char, a: string, b: string, p: char -> bool)
    requires All(a, p) && (b != "" ==> !p(b[0]))
    ensures ExpectTake([c] + (a + b), c, p) == Some((a, b))
  {
    assert ([c] + (a + b))[1..] == a + b;
    TakeConcat(a, b, p);
  }

  /** The closing quote, a gap and the semicolon. */
  function ScanTail(s: string): (r: Option<(string, string)>)
    ensures r.Some? ==> All(r.value.0, IsSpace) && s == PrintTail(r.value.0, r.value.1)
  {
    var g := ExpectTake(s, '"', IsSpace);
    if g.None? || g.value.1 == "" || g.value.1[0] != ';' then None
    else
      assert g.value.1 == [';'] + g.value.1[1..];
      Some((g.value.0, g.value.1[1..]))
  }

  lemma ScanTailPrinted(gap3: string, rest: string)
    requires All(gap3, IsSpace)
    ensures ScanTail(PrintTail(gap3, rest)) == Some((gap3, rest))
  {
    var s := [';'] + rest;
    ExpectTakePrinted('"', gap3, s, IsSpace);
    assert s[1..] == rest;
  }

  /** The quoted value and what must follow it. */
  function ScanQuoted(s: string): (r: Option<(string, string, string)>)
    ensures r.Some? ==> All(r.value.0, NotQuote) && All(r.value.1, IsSpace)
    ensures r.Some? ==> s == PrintQuoted(r.value.0, PrintTail(r.value.1, r.value.2))
  {
    var v := ExpectTake(s, '"', NotQuote);
    if v.None? then None
    else
      var t := ScanTail(v.value.1);
      if t.None? then None else Some((v.value.0, t.value.0, t.value.1))
  }

  lemma ScanQuotedPrinted(value: string, gap3: string, rest: string)
    requires All(value, NotQuote) && All(gap3, IsSpace)
    ensures ScanQuoted(PrintQuoted(value, PrintTail(gap3, rest))) == Some((value, gap3, rest))
  {
    var tail := PrintTail(gap3, rest);
    assert tail[0] == '"';
    ScanTailPrinted(gap3, rest);
    ExpectTakePrinted('"', value, tail, NotQuote);
  }

  datatype Assigned = Assigned(gap1: string, gap2: string, value: string, gap3: string, rest: string)

  predicate ProperAssigned(a: Assigned)
  {
    All(a.gap1, IsSpace) && All(a.gap2, IsSpace) && All(a.gap3, IsSpace) && All(a.value, NotQuote)
  }

  function PrintAll(a: Assigned): string
  {
    PrintAssigned(a.gap1, a.gap2, PrintQuoted(a.value, PrintTail(a.gap3, a.rest)))
  }

  /** Everything after the name. */
  function ScanAssigned(s: string): (r: Option<Assigned>)
    ensures r.Some? ==> ProperAssigned(r.value) && s == PrintAll(r.value)
  {
    var (gap1, s1) := Take(s, IsSpace);
    var g := ExpectTake(s1, '=', IsSpace);
    if g.None? then None
    else
      var q := ScanQuoted(g.value.1);
      if q.None? then None
      else Some(Assigned(gap1, g.value.0, q.value.0, q.value.1, q.value.2))
  }

  lemma ScanAssignedUnfolds(s: string, gap1: string, s1: string, g: (string, string), q: (string, string, string))
    requires Take(s, IsSpace) == (gap1, s1) && ExpectTake(s1, '=', IsSpace) == Some(g)
    requires ScanQuoted(g.1) == Some(q)
    ensures ScanAssigned(s) == Some(Assigned(gap1, g.0, q.0, q.1, q.2))
  {
  }

  lemma ScanAssignedFrom(gap1: string, gap2: string, quoted: string, q: (string, string, string))
    requires All(gap1, IsSpace) && All(gap2, IsSpace)
    requires quoted != "" && quoted[0] == '"' && ScanQuoted(quoted) == Some(q)
    ensures ScanAssigned(PrintAssigned(gap1, gap2, quoted)) == Some(Assigned(gap1, gap2, q.0, q.1, q.2))
  {
    ExpectTakePrinted('=', gap2, quoted, IsSpace);
    var s1 := ['='] + (gap2 + quoted);
    assert s1[0] == '=';
    TakeConcat(gap1, s1, IsSpace);
    ScanAssignedUnfolds(PrintAssigned(gap1, gap2, quoted), gap1, s1, (gap2, quoted), q);
  }

  lemma ScanAssignedPrinted(a: Assigned)
    requires ProperAssigned(a)
    ensures ScanAssigned(PrintAll(a)) == Some(a)
  {
    var quoted := PrintQuoted(a.value, PrintTail(a.gap3, a.rest));
    assert quoted[0] == '"';
    ScanQuotedPrinted(a.value, a.gap3, a.rest);
    ScanAssignedFrom(a.gap1, a.gap2, quoted, (a.value, a.gap3, a.rest));
  }

  /** Reads a line into its parts. */
  function Scan(line: string): (r: Option<Binding>)
    ensures r.Some? ==> Proper(r.value) && Print(r.value) == line
  {
    var (indent, s0) := Take(line, IsSpace);
    var (name, s1) := Take(s0, IsNameChar);
    if name == "" || !IsLetter(name[0]) then None
    else
      var a := ScanAssigned(s1);
      if a.None? then None
      else Some(Binding(indent, name, a.value.gap1, a.value.gap2, a.value.value, a.value.gap3, a.value.rest))
  }

  lemma ScanNamed(indent: string, name: string, s1: string, a: Assigned)
    requires All(indent, IsSpace) && All(name, IsNameChar) && name != "" && IsLetter(name[0])
    requires ScanAssigned(s1) == Some(a) && s1 != "" && !IsNameChar(s1[0])
    ensures Scan(indent + (name + s1)) == Some(Binding(indent, name, a.gap1, a.gap2, a.value, a.gap3, a.rest))
  {
    TakeConcat(name, s1, IsNameChar);
    assert (name + s1)[0] == name[0];
    TakeConcat(indent, name + s1, IsSpace);
  }

  lemma AssignedStarts(gap1: string, gap2: string, quoted: string)
    requires All(gap1, IsSpace)
    ensures
      var s := PrintAssigned(gap1, gap2, quoted);
      s != "" && !IsNameChar(s[0])
  {
    assert PrintAssigned(gap1, gap2, quoted)[0] == if gap1 == "" then '=' else gap1[0];
  }

  /** Scanning undoes printing; Scan's own contract says the converse. */
  lemma ScanPrinted(b: Binding)
    requires Proper(b)
    ensures Scan(Print(b)) == Some(b)
  {
    var a := Assigned(b.gap1, b.gap2, b.value, b.gap3, b.rest);
    ScanAssignedPrinted(a);
    AssignedStarts(b.gap1, b.gap2, PrintQuoted(b.value, PrintTail(b.gap3, b.rest)));
    ScanNamed(b.indent, b.name, PrintAll(a), a);
  }

  // ------------------------------------------------------------ the two patterns

  /** LET_BIND_RE: an indented binding. */
  function LetBind(line: string): Option<(string, string)>
  {
    var b := Scan(line);
    if b.Some? && b.value.indent != "" then Some((b.value.name, b.value.value)) else None
  }

  /** IMAGE_LINE_RE: an indented, non-empty binding of `image`. */
  function ImageLine(line: string): Option<string>
  {
    var b := Scan(line);
    if b.Some? && b.value.indent != "" && b.value.name == "image" && b.value.value != ""
    then Some(b.value.value) else None
  }

  /** The line starts with # once its indentation is gone. */
  predicate IsComment(line: string)
  {
    var s := Take(line, IsSpace).1;
    s != "" && s[0] == '#'
  }

  lemma BoundLineIsNoComment(line: string)
    requires Scan(line).Some?
    ensures !IsComment(line)
  {
    var s0 := Take(line, IsSpace).1;
    assert s0[0] == Scan(line).value.name[0];
  }

  /** The anchored rewrite: only the quoted value of the named binding changes. */
  function RewriteLine(line: string, name: string, v: string): Option<string>
  {
    var b := Scan(line);
    if b.Some? && b.value.name == name then Some(Print(b.value.(value := v))) else None
  }

  lemma RewrittenLineScans(line: string, name: string, v: string)
    requires Scan(line).Some? && Scan(line).value.name == name && All(v, NotQuote)
    ensures RewriteLine(line, name, v).Some?
    ensures Scan(RewriteLine(line, name, v).value) == Some(Scan(line).value.(value := v))
  {
    ScanPrinted(Scan(line).value.(value := v));
  }
}
