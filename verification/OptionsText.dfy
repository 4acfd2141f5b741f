/** A printer for option blocks and the parser's round trip on its text. */
module OptionsText {
  import opened Options
  import opened Text
  import opened OptionsParser

  /** One item of a block: a line of its own, a default, a grouping or an option. */
  datatype Item =
    | Line(text: string)
    | Default(value: bool)
    | Group(name: string, body: seq<Item>)
    | Opt(name: string, body: seq<Item>)

  /** A line of its own holds no brace and does not look like a binding the parser
      collects; a name is a name. */
  predicate Printable(items: seq<Item>)
    decreases items
  {
    items == [] || (PrintableItem(items[0]) && Printable(items[1..]))
  }

  predicate PrintableItem(item: Item)
    decreases item
  {
    match item
    case Line(text) => '{' !in text && '}' !in text && KeyOf(text).None?
    case Default(_) => true
    case Group(name, body) => IsKey(name) && Printable(body)
    case Opt(name, body) => IsKey(name) && Printable(body)
  }

  function DefaultText(value: bool): string
  {
    "default" + (" = " + (if value then "true;" else "false;"))
  }

  /** One binding per line, the opening brace at the end of its line. */
  function Print(items: seq<Item>, indent: string): seq<string>
    decreases items
  {
    if items == [] then [] else PrintItem(items[0], indent) + Print(items[1..], indent)
  }

  function PrintItem(item: Item, indent: string): seq<string>
    decreases item
  {
    match item
    case Line(text) => [indent + text]
    case Default(value) => [indent + DefaultText(value)]
    case Group(name, body) =>
      [indent + (name + (" = " + "{"))] + Print(body, indent + "  ") + [indent + "};"]
    case Opt(name, body) =>
      [indent + (name + (" = " + (MK_OPTION + " {")))] + Print(body, indent + "  ") + [indent + "};"]
  }

  /** The tree the parser's specification speaks of. */
  function Nodes(items: seq<Item>): seq<Node>
    decreases items
  {
    if items == [] then [] else [NodeOf(items[0])] + Nodes(items[1..])
  }

  function NodeOf(item: Item): Node
    decreases item
  {
    match item
    case Line(text) => Leaf(DefaultOf(text), Contains(text, MK_OPTION))
    case Default(value) => Leaf(Some(value), false)
    case Group(name, body) => Block(name, false, Nodes(body))
    case Opt(name, body) => Block(name, true, Nodes(body))
  }

  // ------------------------------------------------------- lines in isolation

  lemma IndentIsSkipped(indent: string, text: string)
    requires IsBlank(indent)
    ensures AfterEquals(indent + text) == AfterEquals(text)
  {
    var line := indent + text;
    RunConcat(indent, text, IsSpace);
    RunIs(indent, IsSpace, |indent|);
    assert line[Run(line, IsSpace)..] == text[Run(text, IsSpace)..];
  }

  lemma {:induction false} IndentMentionsNothing(indent: string, text: string)
    requires IsBlank(indent)
    ensures Contains(indent + text, MK_OPTION) == Contains(text, MK_OPTION)
  {
    if indent == "" {
      assert indent + text == text;
    } else {
      assert (indent + text)[1..] == indent[1..] + text && (indent + text)[0] == indent[0];
      IndentMentionsNothing(indent[1..], text);
      assert MK_OPTION[0] == 'l';
    }
  }

  lemma SamePatterns(line: string, text: string)
    requires AfterEquals(line) == AfterEquals(text)
    ensures KeyOf(line) == KeyOf(text) && DefaultOf(line) == DefaultOf(text)
  {
  }

  lemma IndentHasNoBrace(indent: string, text: string)
    requires IsBlank(indent) && '{' !in text && '}' !in text
    ensures '{' !in indent + text && '}' !in indent + text
  {
  }

  lemma TextLineReads(indent: string, text: string, line: string)
    requires IsBlank(indent) && '{' !in text && '}' !in text && KeyOf(text).None? && line == indent + text
    ensures ReadLine(line) == Reading(0, 0, None, Contains(text, MK_OPTION), DefaultOf(text), false)
  {
    var key, dflt := KeyOf(text), DefaultOf(text);
    IndentIsSkipped(indent, text);
    SamePatterns(line, text);
    IndentHasNoBrace(indent, text);
    IndentMentionsNothing(indent, text);
    assert KeyOf(line) == key && DefaultOf(line) == dflt;
    LeafReads(line);
  }

  lemma DefaultLineLacks(indent: string, rhs: string, line: string)
    requires IsBlank(indent) && (rhs == "true;" || rhs == "false;") && line == indent + ("default" + (" = " + rhs))
    ensures '{' !in line && '}' !in line && '.' !in line
  {
    assert IsKey("default");
    LineLacks(indent, "default", rhs, '{');
    LineLacks(indent, "default", rhs, '}');
    LineLacks(indent, "default", rhs, '.');
  }

  lemma DefaultFrom(line: string, value: bool)
    requires '{' !in line && '}' !in line && '.' !in line
    requires KeyOf(line) == None && DefaultOf(line) == Some(value)
    ensures ReadLine(line) == Reading(0, 0, None, false, Some(value), false)
  {
    LeafReads(line);
    NoMkOption(line);
  }

  lemma DefaultLineReads(indent: string, value: bool, rhs: string, line: string)
    requires IsBlank(indent) && rhs == (if value then "true;" else "false;")
    requires line == indent + ("default" + (" = " + rhs))
    ensures ReadLine(line) == Reading(0, 0, None, false, Some(value), false)
  {
    assert "true" + ";" == "true;" && "false" + ";" == "false;";
    DefaultLineLacks(indent, rhs, line);
    DefaultReads(indent, value, line);
    DefaultFrom(line, value);
  }

  // -------------------------------------------------------------- whole texts

  lemma ReadLinesConcat(a: seq<string>, b: seq<string>)
    ensures ReadLines(a + b) == ReadLines(a) + ReadLines(b)
  {
  }

  lemma BlockReads(header: string, body: seq<string>, footer: string, name: string, option: bool, nodes: seq<Node>)
    requires ReadLine(header) == Header(name, option) && ReadLine(footer) == FOOTER && ReadLines(body) == Lines(nodes)
    ensures ReadLines([header] + body + [footer]) == NodeLines(Block(name, option, nodes))
  {
    ReadLinesConcat([header] + body, [footer]);
    ReadLinesConcat([header], body);
    assert ReadLines([header]) == [Header(name, option)] && ReadLines([footer]) == [FOOTER];
  }

  lemma {:induction false} ItemReads(item: Item, indent: string)
    requires PrintableItem(item) && IsBlank(indent)
    ensures ReadLines(PrintItem(item, indent)) == NodeLines(NodeOf(item))
    decreases item
  {
    match item
    case Line(text) =>
      TextLineReads(indent, text, indent + text);
    case Default(value) =>
      DefaultLineReads(indent, value, if value then "true;" else "false;", indent + DefaultText(value));
    case Group(name, body) =>
      TreeReads(body, indent + "  ");
      GroupHeaderReads(indent, name, indent + (name + (" = " + "{")));
      FooterReads(indent, indent + "};");
      BlockReads(indent + (name + (" = " + "{")), Print(body, indent + "  "), indent + "};", name, false, Nodes(body));
    case Opt(name, body) =>
      TreeReads(body, indent + "  ");
      OptionHeaderReads(indent, name, MK_OPTION + " {", indent + (name + (" = " + (MK_OPTION + " {"))));
      FooterReads(indent, indent + "};");
      BlockReads(indent + (name + (" = " + (MK_OPTION + " {"))), Print(body, indent + "  "), indent + "};",
                 name, true, Nodes(body));
  }

  /** A printed tree reads as its tree. */
  lemma {:induction false} TreeReads(items: seq<Item>, indent: string)
    requires Printable(items) && IsBlank(indent)
    ensures ReadLines(Print(items, indent)) == Lines(Nodes(items))
    decreases items
  {
    if items != [] {
      ItemReads(items[0], indent);
      TreeReads(items[1..], indent);
      ReadLinesConcat(PrintItem(items[0], indent), Print(items[1..], indent));
      assert Nodes(items)[1..] == Nodes(items[1..]);
    }
  }

  /** The names a block binds at its own level. */
  function OwnNames(items: seq<Item>): set<string>
  {
    if items == [] then {}
    else (if items[0].Group? || items[0].Opt? then {items[0].name} else {}) + OwnNames(items[1..])
  }

  lemma {:induction false} OwnNamesAreTop(items: seq<Item>)
    ensures TopNames(Nodes(items)) == OwnNames(items)
  {
    if items != [] {
      OwnNamesAreTop(items[1..]);
      assert Nodes(items)[1..] == Nodes(items[1..]);
    }
  }

  // ------------------------------------------------- the enable option's default

  predicate IsBlock(item: Item)
  {
    item.Group? || item.Opt?
  }

  /** The default an item of a block states by itself. */
  function ItemDefault(item: Item): Option<bool>
  {
    match item
    case Line(text) => DefaultOf(text)
    case Default(value) => Some(value)
    case _ => None
  }

  /** The number of lines a tree prints to. */
  function Size(items: seq<Item>): nat
    decreases items
  {
    if items == [] then 0 else ItemSize(items[0]) + Size(items[1..])
  }

  function ItemSize(item: Item): nat
    decreases item
  {
    match item
    case Group(_, body) => Size(body) + 2
    case Opt(_, body) => Size(body) + 2
    case _ => 1
  }

  /** A line of a printed tree that states a default, or ends a block (no value). */
  datatype Event = Event(line: nat, value: Option<bool>)

  function Later(e: Option<Event>, lines: nat): Option<Event>
  {
    if e.Some? then Some(Event(e.value.line + lines, e.value.value)) else None
  }

  /** The first such line of a tree, nested blocks included. */
  function First(items: seq<Item>): Option<Event>
    decreases items, 0
  {
    if items == [] then None
    else
      var e := FirstOf(items[0]);
      if e.Some? then e else Later(First(items[1..]), ItemSize(items[0]))
  }

  function FirstOf(item: Item): Option<Event>
    decreases item, 0
  {
    match item
    case Group(_, body) => FirstIn(body)
    case Opt(_, body) => FirstIn(body)
    case _ => if ItemDefault(item).Some? then Some(Event(0, ItemDefault(item))) else None
  }

  /** Inside a block: after its header, and its own end at the latest. */
  function FirstIn(body: seq<Item>): Option<Event>
    decreases body, 1
  {
    if First(body).Some? then Later(First(body), 1) else Some(Event(Size(body) + 1, None))
  }

  /** What the forward scan makes of an option's body. */
  predicate Shown(body: seq<Item>)
  {
    var e := First(body);
    e.Some? && e.value.line < 15 && e.value.value == Some(true)
  }

  lemma {:induction false} SizeIsLines(items: seq<Item>)
    ensures |Lines(Nodes(items))| == Size(items)
    decreases items
  {
    if items != [] {
      ItemSizeIsLines(items[0]);
      SizeIsLines(items[1..]);
      assert Nodes(items)[1..] == Nodes(items[1..]);
    }
  }

  lemma {:induction false} ItemSizeIsLines(item: Item)
    ensures |NodeLines(NodeOf(item))| == ItemSize(item)
    decreases item
  {
    match item
    case Group(_, body) => SizeIsLines(body);
    case Opt(_, body) => SizeIsLines(body);
    case _ =>
  }

  /** The first line of a stretch that states a default or ends a block. */
  function FirstLine(rs: seq<Reading>): Option<Event>
  {
    if rs == [] then None
    else if rs[0].dflt.Some? then Some(Event(0, rs[0].dflt))
    else if rs[0].ends then Some(Event(0, None))
    else Later(FirstLine(rs[1..]), 1)
  }

  lemma {:induction false} ScanStopsAtFirst(rs: seq<Reading>, k: nat, n: nat)
    requires k <= |rs|
    ensures EnableDefault(rs, k, n) ==
      var e := FirstLine(rs[k..]);
      e.Some? && e.value.line < n && e.value.value == Some(true)
    decreases |rs| - k
  {
    if k < |rs| {
      assert rs[k..][1..] == rs[k + 1..];
      ScanStopsAtFirst(rs, k + 1, if n > 0 then n - 1 else 0);
    }
  }

  lemma {:induction false} FirstLineConcat(a: seq<Reading>, b: seq<Reading>)
    ensures FirstLine(a + b) == if FirstLine(a).Some? then FirstLine(a) else Later(FirstLine(b), |a|)
  {
    if a == [] {
      assert a + b == b;
    } else {
      assert (a + b)[1..] == a[1..] + b;
      FirstLineConcat(a[1..], b);
    }
  }

  lemma {:induction false} FirstIsFirstLine(items: seq<Item>)
    ensures FirstLine(Lines(Nodes(items))) == First(items)
    decreases items, 0
  {
    if items != [] {
      FirstOfIsFirstLine(items[0]);
      FirstIsFirstLine(items[1..]);
      ItemSizeIsLines(items[0]);
      assert Nodes(items)[1..] == Nodes(items[1..]);
      FirstLineConcat(NodeLines(NodeOf(items[0])), Lines(Nodes(items[1..])));
    }
  }

  lemma {:induction false} FirstOfIsFirstLine(item: Item)
    ensures FirstLine(NodeLines(NodeOf(item))) == FirstOf(item)
    decreases item, 0
  {
    match item
    case Group(name, body) => FirstInIsFirstLine(Header(name, false), body);
    case Opt(name, body) => FirstInIsFirstLine(Header(name, true), body);
    case _ => assert NodeLines(NodeOf(item))[1..] == [];
  }

  lemma {:induction false} FirstInIsFirstLine(header: Reading, body: seq<Item>)
    requires header.dflt.None? && !header.ends
    ensures FirstLine([header] + Lines(Nodes(body)) + [FOOTER]) == FirstIn(body)
    decreases body, 1
  {
    FirstIsFirstLine(body);
    SizeIsLines(body);
    FirstInBlock(header, Lines(Nodes(body)));
  }

  lemma FirstInBlock(header: Reading, lines: seq<Reading>)
    requires header.dflt.None? && !header.ends
    ensures FirstLine([header] + lines + [FOOTER])
         == if FirstLine(lines).Some? then Later(FirstLine(lines), 1) else Some(Event(|lines| + 1, None))
  {
    FirstLineConcat([header] + lines, [FOOTER]);
    FirstLineConcat([header], lines);
    assert [header][1..] == [] && [FOOTER][1..] == [];
  }

  /** The window scan of an option's lines, read off the tree. */
  lemma BlockDefaultIsShown(body: seq<Item>)
    ensures BlockDefault(Nodes(body)) == Shown(body)
  {
    var lines := Lines(Nodes(body));
    FirstIsFirstLine(body);
    FirstLineConcat(lines, [FOOTER]);
    assert (lines + [FOOTER])[0..] == lines + [FOOTER] && [FOOTER][1..] == [];
    ScanStopsAtFirst(lines + [FOOTER], 0, WINDOW);
  }

  /** The enable default of a block: what its last enable option shows. */
  function EnableShown(items: seq<Item>, p: bool): bool
  {
    if items == [] then p
    else EnableShown(items[1..], if items[0].Opt? && items[0].name == "enable" then Shown(items[0].body) else p)
  }

  lemma {:induction false} TopDefaultIsShown(items: seq<Item>, p: bool)
    ensures TopDefault(Nodes(items), p) == EnableShown(items, p)
  {
    if items != [] {
      var q := if items[0].Opt? && items[0].name == "enable" then Shown(items[0].body) else p;
      TopDefaultIsShown(items[1..], q);
      assert Nodes(items)[1..] == Nodes(items[1..]);
      if items[0].Opt? {
        BlockDefaultIsShown(items[0].body);
      }
    }
  }

  /** The whole round trip on text: in any file, from the line that opens a printed
      block, the parser returns exactly the names bound at the block's own level and
      what the last enable option of that level shows, whatever stands before and
      after the block. */
  lemma ParsingUndoesPrinting(before: seq<string>, name: string, items: seq<Item>, indent: string, after: seq<string>)
    requires Printable(items) && IsBlank(indent) && IsKey(name)
    ensures
      var block := PrintItem(Group(name, items), indent);
      ScanFrom(ReadLines(before + block + after), |before|, 0, false, Parsed({}, false))
        == Parsed(OwnNames(items), EnableShown(items, false))
  {
    var block := PrintItem(Group(name, items), indent);
    var part := [Header(name, false)] + Lines(Nodes(items)) + [FOOTER];
    ItemReads(Group(name, items), indent);
    ReadLinesConcat(before + block, after);
    ReadLinesConcat(before, block);
    InTheMiddle(ReadLines(before), part, ReadLines(after));
    ParseUndoesPrint(ReadLines(before + block + after), |before|, Header(name, false), Nodes(items), FOOTER);
    OwnNamesAreTop(items);
    TopDefaultIsShown(items, false);
  }

  lemma InTheMiddle(before: seq<Reading>, part: seq<Reading>, after: seq<Reading>)
    ensures At(before + part + after, |before|, part)
  {
    assert (before + part + after)[|before|..|before| + |part|] == part;
  }

  // ------------------------------------------------- an option's own default

  /** The first position whose element satisfies p, |xs| when there is none. */
  function FirstIndex<T>(xs: seq<T>, p: T -> bool): (i: nat)
    ensures i <= |xs| && (i < |xs| ==> p(xs[i]))
    ensures forall k :: 0 <= k < i ==> !p(xs[k])
  {
    if xs == [] || p(xs[0]) then 0 else 1 + FirstIndex(xs[1..], p)
  }

  lemma FirstIndexInTail<T>(xs: seq<T>, p: T -> bool)
    requires xs != [] && !p(xs[0])
    ensures FirstIndex(xs, p) == 1 + FirstIndex(xs[1..], p)
  {
  }

  predicate StatesDefault(item: Item)
  {
    ItemDefault(item).Some?
  }

  /** Where a block states its own default, not counting nested blocks. */
  function OwnDefault(items: seq<Item>): nat
  {
    FirstIndex(items, StatesDefault)
  }

  function FirstBlock(items: seq<Item>): nat
  {
    FirstIndex(items, IsBlock)
  }

  lemma {:induction false} PlainSize(items: seq<Item>)
    requires forall i :: 0 <= i < |items| ==> !IsBlock(items[i])
    ensures Size(items) == |items|
  {
    if items != [] {
      PlainSize(items[1..]);
    }
  }

  lemma EventOf(item: Item)
    ensures !IsBlock(item) ==> ItemSize(item) == 1
    ensures FirstOf(item) ==
      if ItemDefault(item).Some? then Some(Event(0, ItemDefault(item)))
      else if IsBlock(item) then FirstOf(item) else None
    ensures IsBlock(item) ==> FirstOf(item).Some? && ItemDefault(item).None?
  {
  }

  /** What comes first in a list, at its first `own` place or at its first block. */
  function OwnOrNested<T>(xs: seq<T>, own: T -> Option<bool>, isOwn: T -> bool, isBlock: T -> bool,
                          nested: T -> Option<Event>): Option<Event>
  {
    var k, j := FirstIndex(xs, isOwn), FirstIndex(xs, isBlock);
    if k < j then Some(Event(k, own(xs[k])))
    else if j < |xs| then Later(nested(xs[j]), j)
    else None
  }

  lemma NoEventAtHead<T>(xs: seq<T>, own: T -> Option<bool>, isOwn: T -> bool, isBlock: T -> bool,
                         nested: T -> Option<Event>)
    requires xs != [] && !isOwn(xs[0]) && !isBlock(xs[0])
    ensures OwnOrNested(xs, own, isOwn, isBlock, nested) == Later(OwnOrNested(xs[1..], own, isOwn, isBlock, nested), 1)
  {
    FirstIndexInTail(xs, isOwn);
    FirstIndexInTail(xs, isBlock);
  }

  /** What comes first in a block: its own default, or something in its first nested
      block. */
  lemma {:induction false} FirstEvent(items: seq<Item>)
    ensures First(items) == OwnOrNested(items, ItemDefault, StatesDefault, IsBlock, FirstOf)
  {
    if items != [] {
      EventOf(items[0]);
      if FirstOf(items[0]).None? {
        FirstEvent(items[1..]);
        NoEventAtHead(items, ItemDefault, StatesDefault, IsBlock, FirstOf);
      }
    }
  }

  /** The line a forward scan reads its answer from. */
  function ReadFrom(rs: seq<Reading>, start: nat, n: nat): Option<nat>
    decreases n
  {
    if n == 0 || start >= |rs| then None
    else if rs[start].dflt.Some? then Some(start)
    else if rs[start].ends then None
    else ReadFrom(rs, start + 1, n - 1)
  }

  lemma {:induction false} ReadFromFirst(rs: seq<Reading>, k: nat, n: nat)
    requires k <= |rs|
    ensures EnableDefault(rs, k, n) ==
      (ReadFrom(rs, k, n).Some? && ReadFrom(rs, k, n).value < |rs| && rs[ReadFrom(rs, k, n).value].dflt == Some(true))
    ensures
      var e := FirstLine(rs[k..]);
      ReadFrom(rs, k, n) ==
        if e.Some? && e.value.line < n && e.value.value.Some? then Some(k + e.value.line) else None
    decreases |rs| - k
  {
    if k < |rs| {
      assert rs[k..][1..] == rs[k + 1..];
      ReadFromFirst(rs, k + 1, if n > 0 then n - 1 else 0);
    }
  }

  lemma OwnDefaultLine(body: seq<Item>, k: nat)
    requires OwnDefault(body) == k < |body|
    ensures
      var e := First(body);
      e.Some? && (FirstBlock(body) > k ==> e.value == Event(k, ItemDefault(body[k])) && Size(body[..k]) == k)
      && (FirstBlock(body) < k ==> e.value.line < Size(body[..k]))
      && FirstBlock(body) != k
  {
    FirstEvent(body);
    if FirstBlock(body) > k {
      PlainSize(body[..k]);
    } else {
      assert FirstBlock(body) != k;
      NestedIsBefore(body, k);
    }
  }

  /** An option's own default is the line read exactly when no nested block stands
      before it and it lies in the window: a nested block always ends the scan, at a
      default of its own or at its closing brace. */
  lemma OwnDefaultIsReadExactly(body: seq<Item>, k: nat, rs: seq<Reading>)
    requires OwnDefault(body) == k < |body| && rs == Lines(Nodes(body)) + [FOOTER]
    ensures ReadFrom(rs, 0, WINDOW) == Some(Size(body[..k])) <==> FirstBlock(body) > k && k < 15
  {
    OwnDefaultLine(body, k);
    FirstIsFirstLine(body);
    FirstLineConcat(Lines(Nodes(body)), [FOOTER]);
    assert rs[0..] == rs;
    ReadFromFirst(rs, 0, WINDOW);
  }

  /** What an option with an own default shows: that default, if it is read; with a
      nested block before it, whatever that block puts first. */
  lemma ShownExactly(body: seq<Item>, k: nat)
    requires OwnDefault(body) == k < |body|
    ensures FirstBlock(body) > k ==> (Shown(body) <==> k < 15 && ItemDefault(body[k]) == Some(true))
    ensures FirstBlock(body) <= k ==>
      var j := FirstBlock(body);
      var e := FirstOf(body[j]);
      Shown(body) <==> e.Some? && j + e.value.line < 15 && e.value.value == Some(true)
  {
    FirstEvent(body);
  }

  /** A default found in a nested block stands before the own default. */
  lemma NestedIsBefore(body: seq<Item>, k: nat)
    requires k < |body| && FirstBlock(body) < k
    ensures
      var j := FirstBlock(body);
      FirstOf(body[j]).Some? && j + FirstOf(body[j]).value.line < Size(body[..k])
  {
    FirstWithin(body[FirstBlock(body)]);
    LinesBefore(body, FirstBlock(body), k);
  }

  lemma {:induction false} LinesBefore(items: seq<Item>, j: nat, k: nat)
    requires j < k <= |items| && forall i :: 0 <= i < j ==> !IsBlock(items[i])
    ensures Size(items[..k]) >= j + ItemSize(items[j])
  {
    assert items[..k][1..] == items[1..][..k - 1];
    if j > 0 {
      LinesBefore(items[1..], j - 1, k - 1);
    }
  }

  lemma {:induction false} FirstWithin(item: Item)
    ensures FirstOf(item).Some? ==> FirstOf(item).value.line < ItemSize(item)
    ensures IsBlock(item) ==> FirstOf(item).Some?
    decreases item, 0
  {
    match item
    case Group(_, body) => FirstWithinItems(body);
    case Opt(_, body) => FirstWithinItems(body);
    case _ =>
  }

  lemma {:induction false} FirstWithinItems(items: seq<Item>)
    ensures First(items).Some? ==> First(items).value.line < Size(items)
    decreases items, 0
  {
    if items != [] {
      FirstWithin(items[0]);
      FirstWithinItems(items[1..]);
    }
  }

  lemma {:induction false} LastEnableShows(a: seq<Item>, body: seq<Item>, b: seq<Item>, p: bool)
    requires forall i :: 0 <= i < |b| ==> !(b[i].Opt? && b[i].name == "enable")
    ensures EnableShown(a + ([Opt("enable", body)] + b), p) == Shown(body)
  {
    var items := a + ([Opt("enable", body)] + b);
    if a == [] {
      assert items[0] == Opt("enable", body) && items[1..] == b;
      NoEnableShows(b, Shown(body));
    } else {
      assert items[0] == a[0] && items[1..] == a[1..] + ([Opt("enable", body)] + b);
      LastEnableShows(a[1..], body, b, if a[0].Opt? && a[0].name == "enable" then Shown(a[0].body) else p);
    }
  }

  lemma {:induction false} NoEnableShows(items: seq<Item>, p: bool)
    requires forall i :: 0 <= i < |items| ==> !(items[i].Opt? && items[i].name == "enable")
    ensures EnableShown(items, p) == p
  {
    if items != [] {
      NoEnableShows(items[1..], p);
    }
  }

  /** The parser and the block's own enable default, exactly: they agree when no nested
      block of the option stands before its default and the default lies in the window;
      a true default read as anything else reads as false, unless a nested block's own
      first default is true. */
  lemma EnableDefaultExactly(a: seq<Item>, body: seq<Item>, b: seq<Item>, k: nat)
    requires OwnDefault(body) == k < |body|
    requires forall i :: 0 <= i < |b| ==> !(b[i].Opt? && b[i].name == "enable")
    ensures
      var items, j, v := a + ([Opt("enable", body)] + b), FirstBlock(body), ItemDefault(body[k]) == Some(true);
      EnableShown(items, false) == v <==>
        if j > k then v ==> k < 15
        else v == (var e := FirstOf(body[j]); e.Some? && j + e.value.line < 15 && e.value.value == Some(true))
  {
    LastEnableShows(a, body, b, false);
    ShownExactly(body, k);
  }

  /** Any nested block before the default hides it, however short. */
  lemma NestedBlockHidesTheDefault()
    ensures
      var body := [Group("apply", []), Default(true)];
      OwnDefault(body) == 1 && ItemDefault(body[1]) == Some(true) && !Shown(body)
  {
    var body := [Group("apply", []), Default(true)];
    assert body[1..] == [Default(true)];
    FirstEvent(body);
  }

  /** A nested option's default is taken for the option's own. */
  lemma NestedDefaultIsTaken()
    ensures
      var body := [Group("apply", [Default(true)]), Default(false)];
      OwnDefault(body) == 1 && ItemDefault(body[1]) == Some(false) && Shown(body)
  {
    var body := [Group("apply", [Default(true)]), Default(false)];
    assert body[1..] == [Default(false)];
    FirstEvent(body);
    FirstEvent([Default(true)]);
  }
}
