/** Parse, rewrite, parse: what the bumper writes is what the parser reads back. */
module RoundTrip {
  import opened Options
  import opened Text
  import opened Template
  import opened Expansion
  import opened SourceLine
  import opened SourceFile

  // ----------------------------------------------------------- cutting a text

  /** A character that can only stand before or after a reference, or open one. */
  predicate Outside(c: char)
  {
    !IsNameChar(c) && c != '{' && c != '}'
  }

  lemma RefEndsBefore(x: string, y: string)
    requires x != "" && y != "" && Outside(y[0]) && RefAt(x + y).Some?
    ensures RefAt(x) == RefAt(x + y)
  {
    var s, q := x + y, RefAt(x + y).value;
    var n := Run(s[2..], IsNameChar);
    assert forall j :: 1 <= j < n + 3 ==> !Outside(s[j]) by {
      forall j | 2 <= j < n + 2 ensures IsNameChar(s[j]) {
        assert s[j] == s[2..][j - 2];
      }
    }
    assert s[|x|] == y[0];
    assert |x| >= n + 3;
    assert x[2..] == s[2..][..|x| - 2];
    forall i | 0 <= i < n ensures IsNameChar(x[2..][i]) {
      assert x[2..][i] == s[2..][i];
    }
    RunIs(x[2..], IsNameChar, n);
    assert x[2..][..n] == s[2..][..n];
  }

  /** A text can be cut in front of any such character. */
  lemma {:induction false} CutAt(x: string, y: string)
    requires y != "" && Outside(y[0])
    ensures Tokens(x + y) == Tokens(x) + Tokens(y)
    decreases |x|
  {
    if x == "" {
      assert x + y == y;
    } else if RefAt(x + y).Some? {
      RefEndsBefore(x, y);
      var q := RefAt(x).value;
      CutAfter(x, y, Ref(q), |q| + 3);
    } else {
      if RefAt(x).Some? {
        var q := RefAt(x).value;
        PlaceholderAtRef(x);
        Associates(Placeholder(q), x[|q| + 3..], y);
        RefAtPlaceholder(q, x[|q| + 3..] + y);
      }
      CutAfter(x, y, Ch(x[0]), 1);
    }
  }

  lemma {:induction false} CutAfter(x: string, y: string, t: Token, k: nat)
    requires y != "" && Outside(y[0]) && 0 < k <= |x|
    requires Tokens(x) == [t] + Tokens(x[k..]) && Tokens(x + y) == [t] + Tokens((x + y)[k..])
    ensures Tokens(x + y) == Tokens(x) + Tokens(y)
    decreases |x|, 0
  {
    assert (x + y)[k..] == x[k..] + y;
    CutAt(x[k..], y);
    Associates([t], Tokens(x[k..]), Tokens(y));
  }

  // ------------------------------------------------------ finding the reference

  lemma {:induction false} FindIsFirst(s: string, p: string, k: nat)
    requires k <= |s| && Find(s[k..], p) < |s| - k
    ensures Find(s, p) < |s|
  {
    if k > 0 {
      assert s[1..][k - 1..] == s[k..];
      FindIsFirst(s[1..], p, k - 1);
    } else {
      assert s[0..] == s;
    }
  }

  lemma {:induction false} ReferencedIsFound(s: string, q: string)
    requires Ref(q) in Tokens(s)
    ensures Find(s, Placeholder(q)) < |s|
    decreases |s|
  {
    if RefAt(s).Some? {
      PlaceholderAtRef(s);
      var r := RefAt(s).value;
      if r != q {
        ReferencedIsFound(s[|r| + 3..], q);
        FindIsFirst(s, Placeholder(q), |r| + 3);
      }
    } else {
      ReferencedIsFound(s[1..], q);
      FindIsFirst(s, Placeholder(q), 1);
    }
  }

  // ------------------------------------------------------ rebinding some names

  /** The same names, each with its old value or with one that holds no reference. */
  ghost predicate Rebinds(was: map<string, string>, now: map<string, string>)
  {
    && was.Keys == now.Keys
    && forall q :: q in was ==> now[q] == was[q] || Flat(now[q])
  }

  lemma {:induction false} RebindKeepsDepth(ts: seq<Token>, was: map<string, string>, now: map<string, string>, n: nat)
    requires DepthAtMost(ts, was, n) && Rebinds(was, now)
    ensures DepthAtMost(ts, now, n)
    decreases n
  {
    forall q | Ref(q) in ts ensures n > 0 && (q in now ==> DepthAtMost(Tokens(now[q]), now, n - 1)) {
      if q in was && now[q] == was[q] {
        RebindKeepsDepth(Tokens(was[q]), was, now, n - 1);
      }
    }
  }

  lemma {:induction false} RebindKeepsBound(ts: seq<Token>, was: map<string, string>, now: map<string, string>, n: nat)
    requires Expand(ts, was, n).Some? && Rebinds(was, now)
    ensures Expand(ts, now, n).Some?
    decreases n, |ts|
  {
    if ts != [] {
      RebindKeepsBound(ts[1..], was, now, n);
      if ts[0].Ref? {
        var q := ts[0].name;
        if now[q] == was[q] {
          RebindKeepsBound(Tokens(was[q]), was, now, n - 1);
        } else {
          FlatIsItself(now[q], now, n - 1);
        }
      }
    }
  }

  // ------------------------------------------------------------ the image's tag

  /** The tag of an entry's template, from the colon on. */
  function Pending(e: Entry): string
  {
    ":" + (e.prefix + (Placeholder(e.binding) + e.suffix))
  }

  /** The same tag with a value for the binding. */
  function Filled(e: Entry, v: string): string
  {
    ":" + (e.prefix + (v + e.suffix))
  }

  /** A template cut at its tag: head : prefix ${binding} suffix. */
  ghost predicate TagCut(template: string, head: string, e: Entry)
  {
    template == head + Pending(e)
  }

  lemma PartitionCuts(tag: string, q: string)
    requires Ref(q) in Tokens(tag)
    ensures
      var p := Partition(tag, Placeholder(q));
      tag == p.0 + (Placeholder(q) + p.1) && IsName(q)
  {
    TokenNames(tag);
    ReferencedIsFound(tag, q);
    var p := Partition(tag, Placeholder(q));
    Associates(p.0, Placeholder(q), p.1);
  }

  lemma EntryParts(template: string, bindings: map<string, Bound>) returns (tag: string)
    requires EntryFor(template, bindings).Some?
    ensures AfterLastColon(template) == Some(tag)
    ensures
      var e := EntryFor(template, bindings).value.1;
      && Ref(e.binding) in Tokens(tag)
      && (e.prefix, e.suffix) == Partition(tag, Placeholder(e.binding))
      && !HasOpening(e.prefix) && !HasOpening(e.suffix)
  {
    tag := AfterLastColon(template).value;
    var refs := FindAll(tag);
    assert refs[0] in refs;
  }

  lemma ColonCuts(template: string, tag: string) returns (head: string)
    requires AfterLastColon(template) == Some(tag)
    ensures template == head + (":" + tag)
  {
    head := template[..|template| - |tag| - 1];
  }

  lemma EntryCutsTemplate(template: string, bindings: map<string, Bound>) returns (head: string)
    requires EntryFor(template, bindings).Some?
    ensures
      var e := EntryFor(template, bindings).value.1;
      && TagCut(template, head, e) && IsName(e.binding)
      && !HasOpening(e.prefix) && !HasOpening(e.suffix)
  {
    var tag := EntryParts(template, bindings);
    var e := EntryFor(template, bindings).value.1;
    PartitionCuts(tag, e.binding);
    head := ColonCuts(template, tag);
  }

  lemma PlainText(s: string, b: map<string, string>, n: nat)
    requires !HasOpening(s)
    ensures Expand(Tokens(s), b, n) == Some(s)
  {
    NoOpeningNoRefs(s);
    FlatIsItself(s, b, n);
  }

  lemma ColonFirst(tag: string, b: map<string, string>, n: nat)
    ensures Expand(Tokens(":" + tag), b, n) == Join(Some(":"), Expand(Tokens(tag), b, n))
  {
    assert ":" + tag == [':'] + tag;
    PlainHead(':', tag);
    ExpandHead(Tokens(":" + tag), b, n);
    assert ([Ch(':')] + Tokens(tag))[1..] == Tokens(tag);
  }

  lemma RefFirst(q: string, rest: string, b: map<string, string>, v: string, n: nat)
    requires IsName(q) && n > 0 && q in b && b[q] == v && Flat(v)
    ensures Expand(Tokens(Placeholder(q) + rest), b, n) == Join(Some(v), Expand(Tokens(rest), b, n))
  {
    RefAtPlaceholder(q, rest);
    ExpandHead(Tokens(Placeholder(q) + rest), b, n);
    assert ([Ref(q)] + Tokens(rest))[1..] == Tokens(rest);
    FlatIsItself(v, b, n - 1);
  }

  /** Expanding a tag cut at its one reference. */
  lemma ExpandTag(prefix: string, q: string, suffix: string, b: map<string, string>, v: string, n: nat)
    requires !HasOpening(prefix) && !HasOpening(suffix)
    requires IsName(q) && n > 0 && q in b && b[q] == v && Flat(v)
    ensures Expand(Tokens(prefix + (Placeholder(q) + suffix)), b, n) == Some(prefix + (v + suffix))
  {
    var ref := Placeholder(q) + suffix;
    assert ref[0] == '$';
    CutAt(prefix, ref);
    ExpandConcat(Tokens(prefix), Tokens(ref), b, n);
    PlainText(prefix, b, n);
    RefFirst(q, suffix, b, v, n);
    PlainText(suffix, b, n);
  }

  /** Expanding a cut template: whatever the head becomes, then : prefix value suffix. */
  lemma ExpandCut(template: string, head: string, e: Entry, b: map<string, string>, v: string, n: nat)
    requires TagCut(template, head, e) && IsName(e.binding) && n > 0
    requires !HasOpening(e.prefix) && !HasOpening(e.suffix)
    requires e.binding in b && b[e.binding] == v && Flat(v)
    ensures Expand(Tokens(template), b, n) ==
      Join(Expand(Tokens(head), b, n), Some(Filled(e, v)))
  {
    var tag := e.prefix + (Placeholder(e.binding) + e.suffix);
    var rest := ":" + tag;
    assert rest[0] == ':';
    CutAt(head, rest);
    ColonFirst(tag, b, n);
    ExpandConcat(Tokens(head), Tokens(rest), b, n);
    ExpandTag(e.prefix, e.binding, e.suffix, b, v, n);
  }

  // ------------------------------------------------- the tag through the loop

  lemma {:induction false} SubstConcat(a: seq<Token>, b: seq<Token>, name: string, value: seq<Token>)
    ensures Subst(a + b, name, value) == Subst(a, name, value) + Subst(b, name, value)
  {
    if a == [] {
      assert a + b == b;
    } else {
      assert (a + b)[1..] == a[1..] + b;
      SubstConcat(a[1..], b, name, value);
      Associates(if a[0] == Ref(name) then value else [a[0]], Subst(a[1..], name, value), Subst(b, name, value));
    }
  }

  lemma {:induction false} SubstAbsent(ts: seq<Token>, name: string, value: seq<Token>)
    requires Ref(name) !in ts
    ensures Subst(ts, name, value) == ts
  {
    if ts != [] {
      SubstAbsent(ts[1..], name, value);
    }
  }

  lemma ReplaceAbsent(s: string, name: string, value: string)
    requires IsName(name) && Ref(name) !in Tokens(s)
    ensures ReplaceRef(s, name, value) == s
  {
    ReplaceIsSubst(s, name, value);
    SubstAbsent(Tokens(s), name, Tokens(value));
    RenderTokens(s);
  }

  /** No reference reaches across such a character, so both sides are replaced alone. */
  lemma ReplaceCut(x: string, y: string, name: string, value: string)
    requires IsName(name) && y != "" && Outside(y[0])
    ensures ReplaceRef(x + y, name, value) == ReplaceRef(x, name, value) + ReplaceRef(y, name, value)
  {
    CutAt(x, y);
    ReplaceIsSubst(x + y, name, value);
    ReplaceIsSubst(x, name, value);
    ReplaceIsSubst(y, name, value);
    SubstConcat(Tokens(x), Tokens(y), name, Tokens(value));
    RenderConcat(Subst(Tokens(x), name, Tokens(value)), Subst(Tokens(y), name, Tokens(value)));
  }

  lemma ReplaceFirst(q: string, suffix: string, name: string, value: string)
    requires IsName(q) && IsName(name) && !HasOpening(suffix)
    ensures ReplaceRef(Placeholder(q) + suffix, name, value) ==
      if name == q then value + suffix else Placeholder(q) + suffix
  {
    var s := Placeholder(q) + suffix;
    RefAtPlaceholder(q, suffix);
    NoOpeningNoRefs(suffix);
    if name == q {
      ReplaceAbsent(suffix, name, value);
      assert Placeholder(name) <= s && s[|name| + 3..] == suffix;
    } else {
      ReplaceAbsent(s, name, value);
    }
  }

  lemma ColonAndPrefix(prefix: string)
    requires !HasOpening(prefix)
    ensures !HasOpening(":" + prefix)
  {
    var s := ":" + prefix;
    forall i | 0 <= i < |s| - 1 ensures !(s[i] == '$' && s[i + 1] == '{') {
      assert i > 0 ==> s[i] == prefix[i - 1] && s[i + 1] == prefix[i];
    }
  }

  /** In the tag only its own reference is replaced. */
  lemma ReplacePending(e: Entry, name: string, value: string)
    requires IsName(e.binding) && IsName(name) && !HasOpening(e.prefix) && !HasOpening(e.suffix)
    ensures ReplaceRef(Pending(e), name, value) == if name == e.binding then Filled(e, value) else Pending(e)
  {
    var lead, ref := ":" + e.prefix, Placeholder(e.binding) + e.suffix;
    assert ref[0] == '$';
    ColonAndPrefix(e.prefix);
    NoOpeningNoRefs(lead);
    ReplaceAbsent(lead, name, value);
    ReplaceCut(lead, ref, name, value);
    ReplaceFirst(e.binding, e.suffix, name, value);
    Associates(":", e.prefix, ref);
    Associates(":", e.prefix, value + e.suffix);
  }

  /** An entry whose tag, once filled with the value of its binding, holds no
      reference. */
  ghost predicate Fillable(e: Entry, b: map<string, string>)
  {
    && IsName(e.binding) && !HasOpening(e.prefix) && !HasOpening(e.suffix)
    && e.binding in b && Flat(Filled(e, b[e.binding]))
  }

  /** The tag while the loop runs. */
  function TagNow(e: Entry, v: string, filled: bool): string
  {
    if filled then Filled(e, v) else Pending(e)
  }

  lemma TagStep(head: string, e: Entry, b: map<string, string>, name: string, filled: bool)
    requires Fillable(e, b) && IsName(name) && name in b
    ensures
      var v := b[e.binding];
      ReplaceRef(head + TagNow(e, v, filled), name, b[name])
      == ReplaceRef(head, name, b[name]) + TagNow(e, v, filled || name == e.binding)
  {
    var tag := TagNow(e, b[e.binding], filled);
    assert tag[0] == ':';
    ReplaceCut(head, tag, name, b[name]);
    if filled {
      ReplaceAbsent(tag, name, b[name]);
    } else {
      ReplacePending(e, name, b[name]);
    }
  }

  lemma {:induction false} TagPass(
    text: string, refs: seq<string>, head: string, e: Entry, b: map<string, string>, filled: bool)
    returns (after: string)
    requires Fillable(e, b) && text == head + TagNow(e, b[e.binding], filled)
    requires Pass(text, refs, b).Some? && forall q :: q in refs ==> IsName(q)
    ensures Pass(text, refs, b) == Some(after + TagNow(e, b[e.binding], filled || e.binding in refs))
    decreases |refs|
  {
    if refs == [] {
      after := head;
    } else {
      TagStep(head, e, b, refs[0], filled);
      after := TagPass(ReplaceRef(text, refs[0], b[refs[0]]), refs[1..], ReplaceRef(head, refs[0], b[refs[0]]),
                       e, b, filled || refs[0] == e.binding);
      assert refs == [refs[0]] + refs[1..];
    }
  }

  /** The tag's reference is among those a pass finds. */
  lemma PendingIsFound(head: string, e: Entry)
    requires IsName(e.binding)
    ensures HasOpening(head + Pending(e)) && Ref(e.binding) in Tokens(head + Pending(e))
  {
    var lead := head + (":" + e.prefix);
    var ref := Placeholder(e.binding) + e.suffix;
    Associates(":", e.prefix, ref);
    Associates(head, ":" + e.prefix, ref);
    assert lead + ref == head + Pending(e);
    RefAtPlaceholder(e.binding, e.suffix);
    RefSurvivesPrefix(lead, ref, e.binding);
    assert (lead + ref)[|lead|] == '$' && (lead + ref)[|lead| + 1] == '{';
  }

  lemma TagRound(text: string, depth: nat, head: string, e: Entry, b: map<string, string>, filled: bool)
    returns (next: string, after: string)
    requires Fillable(e, b) && text == head + TagNow(e, b[e.binding], filled)
    requires depth > 0 && HasOpening(text) && Resolve(text, b, depth).Some?
    ensures next == after + Filled(e, b[e.binding])
    ensures Resolve(text, b, depth) == if next == text then Some(next) else Resolve(next, b, depth - 1)
  {
    TokenNames(text);
    if !filled {
      PendingIsFound(head, e);
    }
    after := TagPass(text, FindAll(text), head, e, b, filled);
    next := after + Filled(e, b[e.binding]);
    ResolveRound(text, b, depth, Some(next));
  }

  lemma TagAtRest(text: string, depth: nat, head: string, e: Entry, b: map<string, string>, filled: bool)
    requires Fillable(e, b) && text == head + TagNow(e, b[e.binding], filled)
    requires (depth == 0 || !HasOpening(text)) && (filled || depth > 0)
    ensures Resolve(text, b, depth) == Some(ImageWith(head, e, b[e.binding]))
  {
    if !filled {
      PendingIsFound(head, e);
    }
  }

  /** Whatever the loop makes of the head, the tag is filled in and stays. */
  lemma {:induction false} TagResolves(
    text: string, depth: nat, head: string, e: Entry, b: map<string, string>, filled: bool)
    returns (after: string)
    requires Fillable(e, b) && text == head + TagNow(e, b[e.binding], filled)
    requires Resolve(text, b, depth).Some? && (filled || depth > 0)
    ensures Resolve(text, b, depth) == Some(ImageWith(after, e, b[e.binding]))
    decreases depth
  {
    if depth == 0 || !HasOpening(text) {
      TagAtRest(text, depth, head, e, b, filled);
      after := head;
    } else {
      var next: string;
      next, after := TagRound(text, depth, head, e, b, filled);
      if next != text {
        after := TagResolves(next, depth - 1, after, e, b, true);
      }
    }
  }

  // ----------------------------------------------------------- one image template

  /** An image that ends in the tag prefix value suffix. */
  function ImageWith(head: string, e: Entry, v: string): string
  {
    head + Filled(e, v)
  }

  /** An image that gave an entry means, under new values, an image that ends in the
      entry's tag with the new value. */
  lemma NewImage(template: string, was: map<string, Bound>, now: map<string, Bound>) returns (head: string)
    requires EntryFor(template, was).Some? && Rebinds(ValuesOf(was), ValuesOf(now))
    requires DepthAtMost(Tokens(template), ValuesOf(was), 4)
    requires
      var q := EntryFor(template, was).value.1.binding;
      q in now && Flat(now[q].value)
    ensures DepthAtMost(Tokens(template), ValuesOf(now), 4)
    ensures
      var e := EntryFor(template, was).value.1;
      Expand(Tokens(template), ValuesOf(now), 4) == Some(ImageWith(head, e, now[e.binding].value))
  {
    var e := EntryFor(template, was).value.1;
    var b := ValuesOf(now);
    if Expand(Tokens(template), ValuesOf(was), 4).None? {
      NoneIsReached(template, ValuesOf(was), 4, 4);
    }
    RebindKeepsBound(Tokens(template), ValuesOf(was), b, 4);
    RebindKeepsDepth(Tokens(template), ValuesOf(was), b, 4);
    var cut := EntryCutsTemplate(template, was);
    ExpandCut(template, cut, e, b, now[e.binding].value, 4);
    head := Expand(Tokens(cut), b, 4).value;
  }

  /** An entry depends on the bindings through its own and through what the whole
      template resolves to. */
  lemma EntryAgain(template: string, was: map<string, Bound>, now: map<string, Bound>, image: Option<string>)
    requires EntryFor(template, was).Some? && EntryFor(template, was).value.1.binding in now
    requires image == Resolve(template, ValuesOf(now), 4)
    ensures
      var e := EntryFor(template, was).value.1;
      EntryFor(template, now) ==
        if image.None? then None
        else Some((image.value, e.(line := now[e.binding].line, current := now[e.binding].value)))
  {
  }

  /** Whatever the nesting, cycles included: the entry is found exactly when the
      template resolves, and the image then ends in the entry's tag. */
  ghost predicate FoundIfResolved(template: string, bindings: map<string, Bound>, e: Entry)
  {
    match EntryFor(template, bindings)
    case None => Resolve(template, ValuesOf(bindings), 4).None?
    case Some((image, found)) => found == e && EndsWith(image, Filled(e, e.current))
  }

  lemma EntryIsFound(template: string, was: map<string, Bound>, now: map<string, Bound>)
    requires EntryFor(template, was).Some?
    requires
      var e := EntryFor(template, was).value.1;
      e.binding in now && Flat(Filled(e, now[e.binding].value))
    ensures
      var e := EntryFor(template, was).value.1;
      FoundIfResolved(template, now, e.(line := now[e.binding].line, current := now[e.binding].value))
  {
    var e := EntryFor(template, was).value.1;
    var image := Resolve(template, ValuesOf(now), 4);
    EntryAgain(template, was, now, image);
    if image.Some? {
      var head := EntryCutsTemplate(template, was);
      var after := TagResolves(template, 4, head, e, ValuesOf(now), false);
    }
  }

  /** How a template reads under new values, the entry now being e. Nested no deeper
      than the passes it means this image, and is found with the entry if the image
      holds no reference of its own. Nested deeper or in a cycle it is found with the
      entry exactly when it resolves, if its filled tag holds no reference. */
  ghost predicate ReadAs(
    template: string, was: map<string, Bound>, now: map<string, Bound>, head: string, e: Entry)
  {
    && (DepthAtMost(Tokens(template), ValuesOf(was), 4) ==>
          && Expand(Tokens(template), ValuesOf(now), 4) == Some(ImageWith(head, e, e.current))
          && (Flat(ImageWith(head, e, e.current)) ==>
                EntryFor(template, now) == Some((ImageWith(head, e, e.current), e))))
    && (Flat(Filled(e, e.current)) ==> FoundIfResolved(template, now, e))
  }

  lemma ImageIsFound(template: string, was: map<string, Bound>, now: map<string, Bound>, head: string)
    requires EntryFor(template, was).Some? && EntryFor(template, was).value.1.binding in now
    requires DepthAtMost(Tokens(template), ValuesOf(now), 4)
    requires
      var e := EntryFor(template, was).value.1;
      var image := ImageWith(head, e, now[e.binding].value);
      Expand(Tokens(template), ValuesOf(now), 4) == Some(image) && Flat(image)
    ensures
      var e := EntryFor(template, was).value.1;
      var b := now[e.binding];
      EntryFor(template, now) == Some((ImageWith(head, e, b.value), e.(line := b.line, current := b.value)))
  {
    var e := EntryFor(template, was).value.1;
    ResolveIsExpansion(template, ValuesOf(now), 4, 4);
    EntryAgain(template, was, now, Some(ImageWith(head, e, now[e.binding].value)));
  }

  /** An image that gave an entry, read under new values that hold no reference. */
  lemma EntryReadsBack(template: string, was: map<string, Bound>, now: map<string, Bound>) returns (head: string)
    requires EntryFor(template, was).Some? && Rebinds(ValuesOf(was), ValuesOf(now))
    requires
      var q := EntryFor(template, was).value.1.binding;
      q in now && Flat(now[q].value)
    ensures
      var e := EntryFor(template, was).value.1;
      ReadAs(template, was, now, head, e.(line := now[e.binding].line, current := now[e.binding].value))
  {
    var e := EntryFor(template, was).value.1;
    var v := now[e.binding].value;
    head := "";
    if DepthAtMost(Tokens(template), ValuesOf(was), 4) {
      head := NewImage(template, was, now);
      if Flat(ImageWith(head, e, v)) {
        ImageIsFound(template, was, now, head);
      }
    }
    if Flat(Filled(e, v)) {
      EntryIsFound(template, was, now);
    }
  }

  /** And exactly then: with nesting below the pass limit, an image that does hold a
      reference, none of them bound, is lost. */
  lemma EntryReadsBackExactly(template: string, was: map<string, Bound>, now: map<string, Bound>, head: string)
    requires EntryFor(template, was).Some? && Rebinds(ValuesOf(was), ValuesOf(now))
    requires DepthAtMost(Tokens(template), ValuesOf(was), 3)
    requires
      var e := EntryFor(template, was).value.1;
      && e.binding in now && Flat(now[e.binding].value)
      && Expand(Tokens(template), ValuesOf(now), 4) == Some(ImageWith(head, e, now[e.binding].value))
      && Unbound(ImageWith(head, e, now[e.binding].value), ValuesOf(now))
    ensures
      var e := EntryFor(template, was).value.1;
      var image := ImageWith(head, e, now[e.binding].value);
      EntryFor(template, now).Some? <==> Flat(image)
  {
    var e := EntryFor(template, was).value.1;
    var b := ValuesOf(now);
    RebindKeepsDepth(Tokens(template), ValuesOf(was), b, 3);
    ExpandFuel(Tokens(template), b, 3, 4);
    ResolveExactly(template, b, 3, 4);
    EntryAgain(template, was, now, Resolve(template, b, 4));
  }

  // ------------------------------------------------------- parse, rewrite, parse

  lemma RewriteRebinds(bindings: map<string, Bound>, name: string, v: string)
    requires name in bindings && Flat(v)
    ensures Rebinds(ValuesOf(bindings), ValuesOf(bindings[name := Bound(bindings[name].line, v)]))
  {
  }

  /** Parse, rewrite, parse. For any file and any image of it that yields an entry,
      writing a value without quote and without reference to the entry's binding (not
      the one named image) succeeds, and the image then reads as one with the tag
      prefix + value + suffix and the same entry with the new value. */
  lemma ParseRewriteParse(lines: seq<string>, k: nat, v: string) returns (after: seq<string>, head: string)
    requires k < |Images(lines)| && EntryFor(Images(lines)[k].1, Bindings(lines)).Some?
    requires EntryFor(Images(lines)[k].1, Bindings(lines)).value.1.binding != "image"
    requires All(v, NotQuote) && Flat(v)
    ensures
      var template, e := Images(lines)[k].1, EntryFor(Images(lines)[k].1, Bindings(lines)).value.1;
      && Rewritten(lines, e.line, e.binding, v) == Some(after)
      && Images(after) == Images(lines)
      && Bindings(after) == Bindings(lines)[e.binding := Bound(e.line, v)]
      && ReadAs(template, Bindings(lines), Bindings(after), head, e.(current := v))
  {
    var template := Images(lines)[k].1;
    var e := EntryFor(template, Bindings(lines)).value.1;
    after := RewriteThenCollect(lines, e.binding, v);
    RewriteRebinds(Bindings(lines), e.binding, v);
    head := EntryReadsBack(template, Bindings(lines), Bindings(after));
  }

  /** The condition is real: written next to {x} a lone $ makes a new reference, and a
      template that resolved before the rewrite resolves to nothing after it. */
  lemma DollarValueLosesTheImage(q: string, x: string, was: string, b: map<string, string>)
    requires IsName(q) && IsName(x) && q in b && b[q] == "$" && x !in b && '$' !in was
    ensures
      var template := Placeholder(q) + ("{" + x + "}");
      Resolve(template, b[q := was], 4) == Some(was + ("{" + x + "}")) && Resolve(template, b, 4).None?
  {
    var tail := "{" + x + "}";
    var template := Placeholder(q) + tail;
    PlaceholderInside(x);
    assert Placeholder(x)[1..] == tail;
    PlainPrefix(tail, "");
    PlainPrefix(was + tail, "");
    PlainPrefix(was, "");
    assert tail + "" == tail && (was + tail) + "" == was + tail && was + "" == was;
    RefAtPlaceholder(q, tail);
    OneReference(template, q, tail, was, b[q := was]);
    OneReference(template, q, tail, "$", b);
    ResolveIsExpansion(template, b[q := was], 1, 4);
    assert "$" + tail == Placeholder(x);
    SingleRefTokens(x);
    ResolveExactly(template, b, 1, 4);
  }

  lemma OneReference(template: string, q: string, tail: string, v: string, b: map<string, string>)
    requires IsName(q) && template == Placeholder(q) + tail && Flat(tail) && q in b && b[q] == v && Flat(v)
    ensures DepthAtMost(Tokens(template), b, 1) && Expand(Tokens(template), b, 1) == Some(v + tail)
  {
    RefAtPlaceholder(q, tail);
    RefFirst(q, tail, b, v, 1);
    FlatIsItself(tail, b, 1);
  }
}
