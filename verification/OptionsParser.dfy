/** The textual parser of option blocks: _parse_options_attrset and
    _read_enable_default of scripts/sync-config.py.

    The parser counts braces line by line. Here it is proved against the readings of
    a printed tree's lines; OptionsText has the printer and the theorem on text. */
module OptionsParser {
  import opened Options
  import opened Text

  // -------------------------------------------------------------- one line

  const MK_OPTION := "lib.mkOption"

  /** Everything the parser asks of a line. */
  datatype Reading = Reading(
    opens: nat,               // number of {
    closes: nat,              // number of }
    key: Option<string>,      // name = lib.mkOption...  or  name = {...
    option: bool,             // mentions lib.mkOption
    dflt: Option<bool>,       // default = true|false ;
    ends: bool)               // contains };

  function Count(s: string, c: char): nat
  {
    if s == "" then 0 else (if s[0] == c then 1 else 0) + Count(s[1..], c)
  }

  /** The text after white space, a name, white space, = and white space; and the name. */
  function AfterEquals(line: string): Option<(string, string)>
  {
    var s0 := line[Run(line, IsSpace)..];
    var name := s0[..Run(s0, IsNameChar)];
    var s1 := s0[|name|..];
    var s2 := s1[Run(s1, IsSpace)..];
    if name == "" || s2 == "" || s2[0] != '=' then None
    else
      var s3 := s2[1..];
      Some((name, s3[Run(s3, IsSpace)..]))
  }

  function KeyIn(a: Option<(string, string)>): Option<string>
  {
    if a.Some? && (MK_OPTION <= a.value.1 || "{" <= a.value.1) then Some(a.value.0) else None
  }

  function KeyOf(line: string): Option<string>
  {
    KeyIn(AfterEquals(line))
  }

  predicate SemicolonNext(s: string)
  {
    var t := s[Run(s, IsSpace)..];
    t != "" && t[0] == ';'
  }

  function DefaultIn(a: Option<(string, string)>): Option<bool>
  {
    if a.None? || a.value.0 != "default" then None
    else if "true" <= a.value.1 && SemicolonNext(a.value.1[4..]) then Some(true)
    else if "false" <= a.value.1 && SemicolonNext(a.value.1[5..]) then Some(false)
    else None
  }

  function DefaultOf(line: string): Option<bool>
  {
    DefaultIn(AfterEquals(line))
  }

  function ReadLine(line: string): Reading
  {
    Reading(Count(line, '{'), Count(line, '}'), KeyOf(line), Contains(line, MK_OPTION),
            DefaultOf(line), Contains(line, "};"))
  }

  function ReadLines(lines: seq<string>): (rs: seq<Reading>)
    ensures |rs| == |lines| && forall i :: 0 <= i < |lines| ==> rs[i] == ReadLine(lines[i])
  {
    seq(|lines|, i requires 0 <= i < |lines| => ReadLine(lines[i]))
  }

  // ------------------------------------------------------------ the parser

  /** Scans n lines from `start` for a default; stops at a block end. */
  function EnableDefault(rs: seq<Reading>, start: nat, n: nat): bool
    decreases n
  {
    if n == 0 || start >= |rs| then false
    else if rs[start].dflt.Some? then rs[start].dflt.value
    else if rs[start].ends then false
    else EnableDefault(rs, start + 1, n - 1)
  }

  const WINDOW: nat := 15

  datatype Parsed = Parsed(subkeys: set<string>, enableDefault: bool)

  /** What a line at the top level of the block adds. */
  function AddKey(p: Parsed, rs: seq<Reading>, i: nat): Parsed
    requires i < |rs|
  {
    var r := rs[i];
    if r.key.None? then p
    else Parsed(p.subkeys + {r.key.value},
                if r.key.value == "enable" && r.option then EnableDefault(rs, i + 1, WINDOW) else p.enableDefault)
  }

  function ScanFrom(rs: seq<Reading>, i: nat, depth: int, started: bool, p: Parsed): Parsed
    requires i <= |rs|
    decreases |rs| - i
  {
    if i == |rs| then p
    else
      var next := depth + rs[i].opens - rs[i].closes;
      if !started then ScanFrom(rs, i + 1, next, next > 0, p)
      else
        var q := if depth == 1 then AddKey(p, rs, i) else p;
        if next <= 0 then q else ScanFrom(rs, i + 1, next, true, q)
  }

  method ReadEnableDefault(rs: seq<Reading>, start: nat) returns (r: bool)
    ensures r == EnableDefault(rs, start, WINDOW)
  {
    var j := start;
    while j < start + WINDOW && j < |rs|
      invariant start <= j <= start + WINDOW
      invariant EnableDefault(rs, start, WINDOW) == EnableDefault(rs, j, start + WINDOW - j)
    {
      if rs[j].dflt.Some? {
        return rs[j].dflt.value;
      }
      if rs[j].ends {
        return false;
      }
      j := j + 1;
    }
    r := false;
  }

  method ParseOptionsAttrset(lines: seq<string>, openIdx: nat) returns (p: Parsed)
    requires openIdx <= |lines|
    ensures p == ScanFrom(ReadLines(lines), openIdx, 0, false, Parsed({}, false))
  {
    var rs := ReadLines(lines);
    p := ScanLines(rs, openIdx);
  }

  method ScanLines(rs: seq<Reading>, openIdx: nat) returns (p: Parsed)
    requires openIdx <= |rs|
    ensures p == ScanFrom(rs, openIdx, 0, false, Parsed({}, false))
  {
    var depth, started := 0, false;
    p := Parsed({}, false);
    var i := openIdx;
    while i < |rs|
      invariant openIdx <= i <= |rs|
      invariant ScanFrom(rs, openIdx, 0, false, Parsed({}, false)) == ScanFrom(rs, i, depth, started, p)
    {
      var before := depth;
      depth := depth + rs[i].opens - rs[i].closes;
      if !started {
        if depth > 0 {
          started := true;
        }
        i := i + 1;
        continue;
      }
      if before == 1 && rs[i].key.Some? {
        var enable := p.enableDefault;
        if rs[i].key.value == "enable" && rs[i].option {
          enable := ReadEnableDefault(rs, i + 1);
        }
        p := Parsed(p.subkeys + {rs[i].key.value}, enable);
      }
      if depth <= 0 {
        return;
      }
      i := i + 1;
    }
  }

  // ------------------------------------------------------------- option trees

  /** A plain line, or a named block: an option (`name = lib.mkOption {`) or a
      grouping (`name = {`). */
  datatype Node = Leaf(dflt: Option<bool>, option: bool) | Block(name: string, option: bool, body: seq<Node>)

  function Header(name: string, option: bool): Reading
  {
    Reading(1, 0, Some(name), option, None, false)
  }

  const FOOTER := Reading(0, 1, None, false, None, true)

  /** How the lines of a printed tree read, one line per header, footer and leaf. */
  function Lines(nodes: seq<Node>): seq<Reading>
    decreases nodes
  {
    if nodes == [] then [] else NodeLines(nodes[0]) + Lines(nodes[1..])
  }

  function NodeLines(node: Node): (rs: seq<Reading>)
    ensures |rs| > 0
    decreases node
  {
    match node
    case Leaf(dflt, option) => [Reading(0, 0, None, option, dflt, false)]
    case Block(name, option, body) => [Header(name, option)] + Lines(body) + [FOOTER]
  }

  /** The names bound at the top level. */
  function TopNames(nodes: seq<Node>): set<string>
  {
    if nodes == [] then {}
    else (if nodes[0].Block? then {nodes[0].name} else {}) + TopNames(nodes[1..])
  }

  /** The default a block's own lines show within the window. */
  function BlockDefault(body: seq<Node>): bool
  {
    EnableDefault(Lines(body) + [FOOTER], 0, WINDOW)
  }

  /** The default of the last top-level enable option; p when there is none. */
  function TopDefault(nodes: seq<Node>, p: bool): bool
  {
    if nodes == [] then p
    else
      var n := nodes[0];
      TopDefault(nodes[1..], if n.Block? && n.name == "enable" && n.option then BlockDefault(n.body) else p)
  }

  // --------------------------------------------------------------- the proof

  ghost predicate At(rs: seq<Reading>, i: nat, part: seq<Reading>)
  {
    i + |part| <= |rs| && rs[i..i + |part|] == part
  }

  lemma AtSplit(rs: seq<Reading>, i: nat, a: seq<Reading>, b: seq<Reading>)
    requires At(rs, i, a + b)
    ensures At(rs, i, a) && At(rs, i + |a|, b)
  {
    assert rs[i..i + |a|] == (a + b)[..|a|];
    assert rs[i + |a|..i + |a| + |b|] == (a + b)[|a|..];
  }

  lemma AtIndex(rs: seq<Reading>, i: nat, part: seq<Reading>, k: nat)
    requires At(rs, i, part) && k < |part|
    ensures rs[i + k] == part[k]
  {
    assert rs[i..i + |part|][k] == part[k];
  }

  /** The scan for a default looks no further than the block's own end. */
  lemma {:induction false} DefaultStopsAtEnd(rs: seq<Reading>, i: nat, part: seq<Reading>, k: nat, n: nat)
    requires At(rs, i, part) && k < |part| && part[|part| - 1] == FOOTER
    ensures EnableDefault(rs, i + k, n) == EnableDefault(part, k, n)
    decreases |part| - k
  {
    AtIndex(rs, i, part, k);
    if n > 0 && k + 1 < |part| {
      DefaultStopsAtEnd(rs, i, part, k + 1, n - 1);
    }
  }

  /** Below the top level nothing is collected. */
  lemma {:induction false} ScanNested(rs: seq<Reading>, i: nat, nodes: seq<Node>, depth: int, p: Parsed)
    requires At(rs, i, Lines(nodes)) && depth >= 2
    ensures ScanFrom(rs, i, depth, true, p) == ScanFrom(rs, i + |Lines(nodes)|, depth, true, p)
    decreases nodes
  {
    if nodes != [] {
      AtSplit(rs, i, NodeLines(nodes[0]), Lines(nodes[1..]));
      ScanNestedNode(rs, i, nodes[0], depth, p);
      ScanNested(rs, i + |NodeLines(nodes[0])|, nodes[1..], depth, p);
    }
  }

  lemma {:induction false} ScanNestedNode(rs: seq<Reading>, i: nat, node: Node, depth: int, p: Parsed)
    requires At(rs, i, NodeLines(node)) && depth >= 2
    ensures ScanFrom(rs, i, depth, true, p) == ScanFrom(rs, i + |NodeLines(node)|, depth, true, p)
    decreases node
  {
    AtIndex(rs, i, NodeLines(node), 0);
    if node.Block? {
      SkipBody(rs, i, node, depth + 1, p);
    }
  }

  /** From a block's header line to just after its footer. */
  lemma {:induction false} SkipBody(rs: seq<Reading>, i: nat, node: Node, depth: int, p: Parsed)
    requires node.Block? && At(rs, i, NodeLines(node)) && depth >= 2
    ensures ScanFrom(rs, i + 1, depth, true, p) == ScanFrom(rs, i + |NodeLines(node)|, depth - 1, true, p)
    decreases node, 0
  {
    var body := Lines(node.body);
    AtSplit(rs, i, [Header(node.name, node.option)] + body, [FOOTER]);
    AtSplit(rs, i, [Header(node.name, node.option)], body);
    ScanNested(rs, i + 1, node.body, depth, p);
    AtIndex(rs, i + 1 + |body|, [FOOTER], 0);
  }

  lemma OneMoreNode(nodes: seq<Node>, p: Parsed)
    requires nodes != []
    ensures
      var q := AfterNode(nodes[0], p);
      && q.subkeys + TopNames(nodes[1..]) == p.subkeys + TopNames(nodes)
      && TopDefault(nodes[1..], q.enableDefault) == TopDefault(nodes, p.enableDefault)
      && |Lines(nodes)| == |NodeLines(nodes[0])| + |Lines(nodes[1..])|
  {
  }

  /** At the top level exactly the block names are collected. */
  lemma {:induction false} ScanTop(rs: seq<Reading>, i: nat, nodes: seq<Node>, p: Parsed)
    requires At(rs, i, Lines(nodes))
    ensures ScanFrom(rs, i, 1, true, p) ==
      ScanFrom(rs, i + |Lines(nodes)|, 1, true,
               Parsed(p.subkeys + TopNames(nodes), TopDefault(nodes, p.enableDefault)))
    decreases nodes
  {
    if nodes == [] {
      assert p.subkeys + {} == p.subkeys;
    } else {
      var node := nodes[0];
      AtSplit(rs, i, NodeLines(node), Lines(nodes[1..]));
      ScanTopNode(rs, i, node, p);
      ScanTop(rs, i + |NodeLines(node)|, nodes[1..], AfterNode(node, p));
      OneMoreNode(nodes, p);
    }
  }

  function AfterNode(node: Node, p: Parsed): Parsed
  {
    if node.Leaf? then p
    else Parsed(p.subkeys + {node.name},
                if node.name == "enable" && node.option then BlockDefault(node.body) else p.enableDefault)
  }

  lemma ScanTopNode(rs: seq<Reading>, i: nat, node: Node, p: Parsed)
    requires At(rs, i, NodeLines(node))
    ensures ScanFrom(rs, i, 1, true, p) == ScanFrom(rs, i + |NodeLines(node)|, 1, true, AfterNode(node, p))
  {
    AtIndex(rs, i, NodeLines(node), 0);
    if node.Block? {
      SkipBody(rs, i, node, 2, AfterNode(node, p));
      var inner := Lines(node.body) + [FOOTER];
      assert NodeLines(node) == [Header(node.name, node.option)] + inner;
      AtSplit(rs, i, [Header(node.name, node.option)], inner);
      DefaultStopsAtEnd(rs, i + 1, inner, 0, WINDOW);
    }
  }

  /** Parsing undoes printing. For any text whose lines read as an opening line, a
      printed tree and a closing line, and whatever follows, the parser returns
      exactly the tree's top-level names and the default of its enable option. */
  lemma ParseUndoesPrint(rs: seq<Reading>, i: nat, open: Reading, nodes: seq<Node>, close: Reading)
    requires At(rs, i, [open] + Lines(nodes) + [close])
    requires open.opens == open.closes + 1 && close.closes == close.opens + 1 && close.key.None?
    ensures ScanFrom(rs, i, 0, false, Parsed({}, false)) == Parsed(TopNames(nodes), TopDefault(nodes, false))
  {
    AtSplit(rs, i, [open] + Lines(nodes), [close]);
    AtSplit(rs, i, [open], Lines(nodes));
    AtIndex(rs, i, [open], 0);
    ScanTop(rs, i + 1, nodes, Parsed({}, false));
    AtIndex(rs, i + 1 + |Lines(nodes)|, [close], 0);
    assert {} + TopNames(nodes) == TopNames(nodes);
  }

  // ------------------------------------------------------ printed lines read so

  predicate IsBlank(s: string)
  {
    forall i :: 0 <= i < |s| ==> IsSpace(s[i])
  }

  predicate IsKey(s: string)
  {
    s != "" && forall i :: 0 <= i < |s| ==> IsNameChar(s[i])
  }

  lemma {:induction false} CountConcat(a: string, b: string, c: char)
    ensures Count(a + b, c) == Count(a, c) + Count(b, c)
  {
    if a == "" {
      assert a + b == b;
    } else {
      assert (a + b)[1..] == a[1..] + b;
      CountConcat(a[1..], b, c);
    }
  }

  lemma {:induction false} CountNone(s: string, c: char)
    requires c !in s
    ensures Count(s, c) == 0
  {
    if s != "" {
      CountNone(s[1..], c);
    }
  }

  lemma {:induction false} ContainsInside(a: string, t: string, b: string)
    ensures Contains(a + t + b, t)
  {
    if a == "" {
      assert a + t + b == t + b;
    } else {
      assert (a + t + b)[1..] == a[1..] + t + b;
      ContainsInside(a[1..], t, b);
    }
  }

  lemma {:induction false} ContainsNeedsChar(s: string, t: string, c: char)
    requires c in t && c !in s
    ensures !Contains(s, t)
  {
    if s != "" {
      ContainsNeedsChar(s[1..], t, c);
    }
  }

  /** A key line: indentation, name, " = " and what the value opens with. */
  lemma KeyLine(indent: string, name: string, rhs: string)
    requires IsBlank(indent) && IsKey(name) && rhs != "" && !IsSpace(rhs[0])
    ensures AfterEquals(indent + (name + (" = " + rhs))) == Some((name, rhs))
  {
    var s1 := " = " + rhs;
    var s0 := name + s1;
    var line := indent + s0;
    assert s0[0] == name[0];
    RunIs(line, IsSpace, |indent|);
    assert line[|indent|..] == s0;
    assert s1[0] == ' ';
    RunIs(s0, IsNameChar, |name|);
    assert s0[..|name|] == name && s0[|name|..] == s1;
    RunIs(s1, IsSpace, 1);
    assert s1[1..] == "= " + rhs;
    var s3 := " " + rhs;
    assert ("= " + rhs)[1..] == s3;
    RunIs(s3, IsSpace, 1);
    assert s3[1..] == rhs;
  }

  lemma CountLine(indent: string, name: string, rhs: string, c: char)
    requires IsBlank(indent) && IsKey(name) && !IsSpace(c) && !IsNameChar(c) && c != '='
    ensures Count(indent + (name + (" = " + rhs)), c) == Count(rhs, c)
  {
    CountNone(indent, c);
    CountNone(name, c);
    CountNone(" = ", c);
    CountConcat(" = ", rhs, c);
    CountConcat(name, " = " + rhs, c);
    CountConcat(indent, name + (" = " + rhs), c);
  }

  lemma LineLacks(indent: string, name: string, rhs: string, c: char)
    requires IsBlank(indent) && IsKey(name) && !IsSpace(c) && !IsNameChar(c) && c != '=' && c !in rhs
    ensures c !in indent + (name + (" = " + rhs))
  {
  }

  lemma StartsWith(a: string, b: string)
    ensures a <= a + b
  {
  }

  lemma FirstDiffers(p: string, s: string)
    requires p != "" && (s == "" || p[0] != s[0])
    ensures !(p <= s)
  {
  }

  /** What the key and default patterns make of a header. */
  lemma HeaderPatterns(line: string, name: string, rhs: string)
    requires AfterEquals(line) == Some((name, rhs)) && rhs != "" && rhs[0] != 't' && rhs[0] != 'f'
    ensures DefaultOf(line).None?
    ensures MK_OPTION <= rhs || "{" <= rhs ==> KeyOf(line) == Some(name)
  {
    FirstDiffers("true", rhs);
    FirstDiffers("false", rhs);
  }

  lemma NoBlockEnd(line: string)
    requires '}' !in line
    ensures Count(line, '}') == 0 && !Contains(line, "};")
  {
    CountNone(line, '}');
    ContainsNeedsChar(line, "};", '}') by {
      assert "};"[0] == '}';
    }
  }

  lemma NoMkOption(line: string)
    requires '.' !in line
    ensures !Contains(line, MK_OPTION)
  {
    ContainsNeedsChar(line, MK_OPTION, '.') by {
      assert MK_OPTION[3] == '.';
    }
  }

  lemma HeaderFrom(line: string, name: string, rhs: string, option: bool)
    requires AfterEquals(line) == Some((name, rhs)) && rhs != "" && rhs[0] != 't' && rhs[0] != 'f'
    requires MK_OPTION <= rhs || "{" <= rhs
    requires Count(line, '{') == 1 && '}' !in line && Contains(line, MK_OPTION) == option
    ensures ReadLine(line) == Header(name, option)
  {
    HeaderPatterns(line, name, rhs);
    NoBlockEnd(line);
  }

  lemma GroupParts(indent: string, name: string, line: string)
    requires IsBlank(indent) && IsKey(name) && line == indent + (name + (" = " + "{"))
    ensures '}' !in line && !Contains(line, MK_OPTION)
  {
    LineLacks(indent, name, "{", '}');
    LineLacks(indent, name, "{", '.');
    NoMkOption(line);
  }

  lemma OptionParts(indent: string, name: string, rhs: string, line: string)
    requires IsBlank(indent) && IsKey(name) && rhs == MK_OPTION + " {" && line == indent + (name + (" = " + rhs))
    ensures '}' !in line && Contains(line, MK_OPTION)
  {
    OneBrace();
    LineLacks(indent, name, rhs, '}');
    OptionMentioned(indent, name, rhs);
  }

  lemma OpensOnce(indent: string, name: string, rhs: string, line: string)
    requires IsBlank(indent) && IsKey(name) && Count(rhs, '{') == 1 && line == indent + (name + (" = " + rhs))
    ensures Count(line, '{') == 1
  {
    CountLine(indent, name, rhs, '{');
  }

  /** A printed grouping header. */
  lemma GroupHeaderReads(indent: string, name: string, line: string)
    requires IsBlank(indent) && IsKey(name) && line == indent + (name + (" = " + "{"))
    ensures ReadLine(line) == Header(name, false)
  {
    KeyLine(indent, name, "{");
    assert Count("{", '{') == 1;
    OpensOnce(indent, name, "{", line);
    GroupParts(indent, name, line);
    HeaderFrom(line, name, "{", false);
  }

  lemma OneBrace()
    ensures '}' !in MK_OPTION + " {" && Count(MK_OPTION + " {", '{') == 1
  {
    CountNone(MK_OPTION + " ", '{');
    assert Count("{", '{') == 1;
    CountConcat(MK_OPTION + " ", "{", '{');
    assert MK_OPTION + " " + "{" == MK_OPTION + " {";
  }

  lemma OptionMentioned(indent: string, name: string, rhs: string)
    requires rhs == MK_OPTION + " {"
    ensures Contains(indent + (name + (" = " + rhs)), MK_OPTION)
  {
    ContainsInside(indent + (name + " = "), MK_OPTION, " {");
    assert indent + (name + " = ") + MK_OPTION + " {" == indent + (name + (" = " + rhs));
  }

  /** A printed option header. */
  lemma OptionHeaderReads(indent: string, name: string, rhs: string, line: string)
    requires IsBlank(indent) && IsKey(name) && rhs == MK_OPTION + " {" && line == indent + (name + (" = " + rhs))
    ensures ReadLine(line) == Header(name, true)
  {
    assert rhs[0] == 'l';
    KeyLine(indent, name, rhs);
    StartsWith(MK_OPTION, " {");
    OneBrace();
    OpensOnce(indent, name, rhs, line);
    OptionParts(indent, name, rhs, line);
    HeaderFrom(line, name, rhs, true);
  }

  lemma FooterCounts(indent: string)
    requires IsBlank(indent)
    ensures Count(indent + "};", '{') == 0 && Count(indent + "};", '}') == 1
  {
    CountNone(indent, '{');
    CountNone(indent, '}');
    CountNone("};", '{');
    CountConcat(indent, "};", '{');
    CountConcat(indent, "};", '}');
    assert "};"[1..] == ";";
    CountNone(";", '}');
  }

  lemma FooterHasNoName(indent: string)
    requires IsBlank(indent)
    ensures AfterEquals(indent + "};").None?
  {
    var line := indent + "};";
    RunIs(line, IsSpace, |indent|);
    assert line[|indent|..] == "};";
    RunIs("};", IsNameChar, 0);
  }

  lemma FooterFrom(line: string)
    requires Count(line, '{') == 0 && Count(line, '}') == 1 && AfterEquals(line).None?
    requires Contains(line, "};") && !Contains(line, MK_OPTION)
    ensures ReadLine(line) == FOOTER
  {
  }

  lemma FooterMentions(indent: string, line: string)
    requires IsBlank(indent) && line == indent + "};"
    ensures Contains(line, "};") && !Contains(line, MK_OPTION)
  {
    ContainsInside(indent, "};", "");
    assert indent + "};" + "" == line;
    NoMkOption(line);
  }

  /** A printed footer. */
  lemma FooterReads(indent: string, line: string)
    requires IsBlank(indent) && line == indent + "};"
    ensures ReadLine(line) == FOOTER
  {
    FooterCounts(indent);
    FooterHasNoName(indent);
    FooterMentions(indent, line);
    FooterFrom(line);
  }

  /** A line without braces that is no key reads as a leaf. */
  lemma LeafReads(line: string)
    requires '{' !in line && '}' !in line && KeyOf(line).None?
    ensures ReadLine(line) == Reading(0, 0, None, Contains(line, MK_OPTION), DefaultOf(line), false)
  {
    CountNone(line, '{');
    NoBlockEnd(line);
  }

  lemma BareSemicolon()
    ensures SemicolonNext(";")
  {
    RunIs(";", IsSpace, 0);
  }

  lemma BooleanIsNoKey(line: string, rhs: string)
    requires AfterEquals(line).Some? && AfterEquals(line).value.1 == rhs && rhs != ""
    requires rhs[0] == 't' || rhs[0] == 'f'
    ensures KeyOf(line).None?
  {
    FirstDiffers(MK_OPTION, rhs);
    FirstDiffers("{", rhs);
  }

  lemma TrueValue(line: string)
    requires AfterEquals(line) == Some(("default", "true" + ";"))
    ensures DefaultOf(line) == Some(true)
  {
    assert ("true" + ";")[4..] == ";";
    StartsWith("true", ";");
    BareSemicolon();
  }

  lemma FalseValue(line: string)
    requires AfterEquals(line) == Some(("default", "false" + ";"))
    ensures DefaultOf(line) == Some(false)
  {
    assert ("false" + ";")[5..] == ";";
    StartsWith("false", ";");
    FirstDiffers("true", "false" + ";");
    BareSemicolon();
  }

  /** A printed default line reads as that default. */
  lemma DefaultReads(indent: string, v: bool, line: string)
    requires IsBlank(indent)
    requires line == indent + ("default" + (" = " + ((if v then "true" else "false") + ";")))
    ensures DefaultOf(line) == Some(v) && KeyOf(line).None?
  {
    var word := if v then "true" else "false";
    assert IsKey("default");
    assert (word + ";")[0] == word[0];
    KeyLine(indent, "default", word + ";");
    BooleanIsNoKey(line, word + ";");
    if v {
      TrueValue(line);
    } else {
      FalseValue(line);
    }
  }

  // ------------------------------------------------ what the patterns accept

  /** white space, a name, white space, =, white space, and a value that starts with none. */
  predicate IsAssignment(line: string, indent: string, name: string, gap1: string, gap2: string, rhs: string)
  {
    && IsBlank(indent) && IsKey(name) && IsBlank(gap1) && IsBlank(gap2) && (rhs == "" || !IsSpace(rhs[0]))
    && line == indent + (name + (gap1 + ("=" + (gap2 + rhs))))
  }

  lemma SkipRun(run: string, rest: string, p: char -> bool)
    requires (forall i :: 0 <= i < |run| ==> p(run[i])) && (rest == "" || !p(rest[0]))
    ensures Run(run + rest, p) == |run| && (run + rest)[..|run|] == run && (run + rest)[|run|..] == rest
  {
    RunIs(run + rest, p, |run|);
  }

  lemma AssignmentReads(line: string, indent: string, name: string, gap1: string, gap2: string, rhs: string)
    requires IsAssignment(line, indent, name, gap1, gap2, rhs)
    ensures AfterEquals(line) == Some((name, rhs))
  {
    var s3 := gap2 + rhs;
    var s2 := "=" + s3;
    var s1 := gap1 + s2;
    var s0 := name + s1;
    assert s2[0] == '=' && s2[1..] == s3 && s0[0] == name[0];
    assert s1[0] == if gap1 == "" then '=' else gap1[0];
    SkipRun(indent, s0, IsSpace);
    SkipRun(name, s1, IsNameChar);
    SkipRun(gap1, s2, IsSpace);
    SkipRun(gap2, rhs, IsSpace);
  }

  lemma RunSplits(s: string, p: char -> bool) returns (run: string, rest: string)
    ensures run == s[..Run(s, p)] && rest == s[Run(s, p)..] && s == run + rest
    ensures (forall i :: 0 <= i < |run| ==> p(run[i])) && (rest == "" || !p(rest[0]))
  {
    run, rest := s[..Run(s, p)], s[Run(s, p)..];
  }

  lemma AfterEqualsParts(line: string, s0: string, name: string, s1: string, s2: string, rhs: string)
    requires AfterEquals(line).Some?
    requires s0 == line[Run(line, IsSpace)..] && name == s0[..Run(s0, IsNameChar)] && s1 == s0[Run(s0, IsNameChar)..]
    requires s2 == s1[Run(s1, IsSpace)..]
    ensures name != "" && s2 != "" && s2[0] == '='
    ensures rhs == s2[1..][Run(s2[1..], IsSpace)..] ==> AfterEquals(line) == Some((name, rhs))
  {
  }

  lemma JoinAssignment(
    line: string, indent: string, s0: string, name: string, s1: string, gap1: string, s2: string, gap2: string,
    rhs: string)
    requires line == indent + s0 && s0 == name + s1 && s1 == gap1 + s2
    requires s2 != "" && s2[0] == '=' && s2[1..] == gap2 + rhs
    ensures line == indent + (name + (gap1 + ("=" + (gap2 + rhs))))
  {
    assert s2 == "=" + s2[1..];
  }

  lemma ReadAssignment(line: string) returns (indent: string, gap1: string, gap2: string)
    requires AfterEquals(line).Some?
    ensures IsAssignment(line, indent, AfterEquals(line).value.0, gap1, gap2, AfterEquals(line).value.1)
  {
    var s0, name, s1, s2, rhs: string;
    indent, s0 := RunSplits(line, IsSpace);
    name, s1 := RunSplits(s0, IsNameChar);
    gap1, s2 := RunSplits(s1, IsSpace);
    AfterEqualsParts(line, s0, name, s1, s2, "");
    gap2, rhs := RunSplits(s2[1..], IsSpace);
    AfterEqualsParts(line, s0, name, s1, s2, rhs);
    JoinAssignment(line, indent, s0, name, s1, gap1, s2, gap2, rhs);
  }

  /** A key is read exactly from an assignment whose value opens with lib.mkOption or {. */
  lemma KeyExactly(line: string, name: string)
    ensures KeyOf(line) == Some(name) <==>
      exists indent, gap1, gap2, rhs ::
        IsAssignment(line, indent, name, gap1, gap2, rhs) && (MK_OPTION <= rhs || "{" <= rhs)
  {
    if indent, gap1, gap2, rhs :|
      IsAssignment(line, indent, name, gap1, gap2, rhs) && (MK_OPTION <= rhs || "{" <= rhs) {
      AssignmentReads(line, indent, name, gap1, gap2, rhs);
    }
    if KeyOf(line) == Some(name) {
      var indent, gap1, gap2 := ReadAssignment(line);
      assert IsAssignment(line, indent, name, gap1, gap2, AfterEquals(line).value.1);
    }
  }

  /** rhs is true or false, then white space and a semicolon. */
  ghost predicate IsBoolean(rhs: string, v: bool)
  {
    exists gap, rest :: IsBlank(gap) && rhs == (if v then "true" else "false") + (gap + (";" + rest))
  }

  lemma SemicolonExactly(s: string)
    ensures SemicolonNext(s) <==> exists gap, rest :: IsBlank(gap) && s == gap + (";" + rest)
  {
    if gap, rest :| IsBlank(gap) && s == gap + (";" + rest) {
      assert (";" + rest)[0] == ';';
      SkipRun(gap, ";" + rest, IsSpace);
    }
    if SemicolonNext(s) {
      var gap, t := RunSplits(s, IsSpace);
      assert t == ";" + t[1..];
      assert IsBlank(gap) && s == gap + (";" + t[1..]);
    }
  }

  lemma BooleanExactly(rhs: string, v: bool)
    ensures DefaultIn(Some(("default", rhs))) == Some(v) <==> IsBoolean(rhs, v)
  {
    var word := if v then "true" else "false";
    if word <= rhs {
      var s := rhs[|word|..];
      SemicolonExactly(s);
      assert rhs == word + s;
      if gap, rest :| IsBlank(gap) && s == gap + (";" + rest) {
        assert IsBoolean(rhs, v);
      }
      forall gap, rest | IsBlank(gap) && rhs == word + (gap + (";" + rest)) ensures SemicolonNext(s) {
        assert s == gap + (";" + rest);
      }
    }
    if !v && "true" <= rhs {
      FirstDiffers("false", rhs);
    }
  }

  /** A default is read exactly from an assignment of true or false to default. */
  lemma DefaultExactly(line: string, v: bool)
    ensures DefaultOf(line) == Some(v) <==>
      exists indent, gap1, gap2, rhs ::
        IsAssignment(line, indent, "default", gap1, gap2, rhs) && IsBoolean(rhs, v)
  {
    if indent, gap1, gap2, rhs :| IsAssignment(line, indent, "default", gap1, gap2, rhs) && IsBoolean(rhs, v) {
      AssignmentReads(line, indent, "default", gap1, gap2, rhs);
      BooleanExactly(rhs, v);
    }
    if DefaultOf(line) == Some(v) {
      var indent, gap1, gap2 := ReadAssignment(line);
      var rhs := AfterEquals(line).value.1;
      BooleanExactly(rhs, v);
      assert IsAssignment(line, indent, "default", gap1, gap2, rhs) && IsBoolean(rhs, v);
    }
  }
}
