/** The pass-limited loop computes the full recursive expansion of a template whose
    references nest no deeper than the pass limit, as long as the expanded text
    itself holds no reference.

    Nothing is asked of a $ that opens no reference: what could go wrong at a seam
    shows in the expanded text. */
module Expansion {
  import opened Options
  import opened Text
  import opened Template

  // ------------------------------------------------------- text against tokens

  /** A text that holds no reference. */
  ghost predicate Flat(s: string)
  {
    forall q :: Ref(q) !in Tokens(s)
  }

  ghost predicate Named(ts: seq<Token>)
  {
    forall q :: Ref(q) in ts ==> IsName(q)
  }

  function RenderOne(t: Token): string
  {
    if t.Ch? then [t.c] else Placeholder(t.name)
  }

  /** The text that tokens stand for. */
  function Render(ts: seq<Token>): string
  {
    if ts == [] then "" else RenderOne(ts[0]) + Render(ts[1..])
  }

  lemma RefAtPlaceholder(q: string, rest: string)
    requires IsName(q)
    ensures RefAt(Placeholder(q) + rest) == Some(q)
    ensures (Placeholder(q) + rest)[|q| + 3..] == rest
    ensures Tokens(Placeholder(q) + rest) == [Ref(q)] + Tokens(rest)
  {
    var s := Placeholder(q) + rest;
    var tail := "}" + rest;
    assert s[2..] == q + tail;
    RunIs(s[2..], IsNameChar, |q|) by {
      assert s[2..][|q|] == '}';
    }
    assert s[2..][..|q|] == q && s[|q| + 2] == '}';
    assert s[|q| + 3..] == rest;
  }

  lemma PlaceholderAtRef(s: string)
    requires RefAt(s).Some?
    ensures s == Placeholder(RefAt(s).value) + s[|RefAt(s).value| + 3..]
  {
    var q := RefAt(s).value;
    var n := Run(s[2..], IsNameChar);
    assert q == s[2..n + 2] && s[n + 2] == '}';
  }

  lemma NoRefHere(s: string, q: string)
    requires RefAt(s).None? && IsName(q)
    ensures !(Placeholder(q) <= s)
  {
    if Placeholder(q) <= s {
      assert s == Placeholder(q) + s[|q| + 3..];
      RefAtPlaceholder(q, s[|q| + 3..]);
    }
  }

  lemma {:induction false} TokenNames(s: string)
    ensures Named(Tokens(s))
    decreases |s|
  {
    if s != "" {
      TokenNames(if RefAt(s).Some? then s[|RefAt(s).value| + 3..] else s[1..]);
    }
  }

  lemma {:induction false} RenderTokens(s: string)
    ensures Render(Tokens(s)) == s
    decreases |s|
  {
    if s != "" {
      if RefAt(s).Some? {
        var rest := s[|RefAt(s).value| + 3..];
        PlaceholderAtRef(s);
        RenderTokens(rest);
        RenderHead(Ref(RefAt(s).value), Tokens(rest));
      } else {
        RenderTokens(s[1..]);
        RenderHead(Ch(s[0]), Tokens(s[1..]));
        assert [s[0]] + s[1..] == s;
      }
    }
  }

  lemma RenderHead(t: Token, rest: seq<Token>)
    ensures Render([t] + rest) == RenderOne(t) + Render(rest)
  {
    assert ([t] + rest)[1..] == rest;
  }

  lemma {:induction false} RenderConcat(a: seq<Token>, b: seq<Token>)
    ensures Render(a + b) == Render(a) + Render(b)
  {
    if a == [] {
      assert a + b == b;
    } else {
      assert (a + b)[1..] == a[1..] + b;
      RenderConcat(a[1..], b);
      Associates(RenderOne(a[0]), Render(a[1..]), Render(b));
    }
  }

  /** Text without a $ reads as itself, whatever follows. */
  lemma {:induction false} PlainPrefix(w: string, rest: string)
    requires '$' !in w
    ensures forall q :: Ref(q) in Tokens(w + rest) <==> Ref(q) in Tokens(rest)
  {
    if w == "" {
      assert w + rest == rest;
    } else {
      PlainPrefix(w[1..], rest);
      PlainHead(w[0], w[1..] + rest);
      assert [w[0]] + (w[1..] + rest) == w + rest;
    }
  }

  lemma PlainHead(c: char, rest: string)
    requires c != '$'
    ensures Tokens([c] + rest) == [Ch(c)] + Tokens(rest)
  {
    assert ([c] + rest)[1..] == rest;
  }

  lemma PlaceholderInside(q: string)
    requires IsName(q)
    ensures '$' !in Placeholder(q)[1..]
  {
    forall i | 1 <= i < |Placeholder(q)| ensures Placeholder(q)[i] != '$' {
      if 2 <= i < |q| + 2 {
        assert Placeholder(q)[i] == q[i - 2];
      }
    }
  }

  /** A reference stays one whatever is put in front of it: the only $ of a
      reference is its first character. */
  lemma {:induction false} RefSurvivesPrefix(a: string, s: string, q: string)
    requires Ref(q) in Tokens(s)
    ensures Ref(q) in Tokens(a + s)
    decreases |a|
  {
    if a == "" {
      assert a + s == s;
    } else if RefAt(a + s).None? {
      assert (a + s)[1..] == a[1..] + s;
      RefSurvivesPrefix(a[1..], s, q);
    } else {
      var r := RefAt(a + s).value;
      var k := |r| + 3;
      PlaceholderAtRef(a + s);
      if k <= |a| {
        assert (a + s)[k..] == a[k..] + s;
        RefSurvivesPrefix(a[k..], s, q);
      } else {
        var w := s[..k - |a|];
        PlaceholderInside(r);
        assert '$' !in w by {
          forall i | 0 <= i < |w| ensures w[i] != '$' {
            assert w[i] == (a + s)[|a| + i] == Placeholder(r)[|a| + i] == Placeholder(r)[1..][|a| + i - 1];
          }
        }
        assert w + s[|w|..] == s && (a + s)[k..] == s[|w|..];
        PlainPrefix(w, s[|w|..]);
      }
    }
  }

  /** Tokens keep their references when they are rendered and read again. */
  lemma {:induction false} RenderKeepsRefs(ts: seq<Token>, q: string)
    requires Ref(q) in ts && IsName(q)
    ensures Ref(q) in Tokens(Render(ts))
  {
    if ts[0] == Ref(q) {
      RefAtPlaceholder(q, Render(ts[1..]));
    } else {
      RenderKeepsRefs(ts[1..], q);
      RefSurvivesPrefix(RenderOne(ts[0]), Render(ts[1..]), q);
    }
  }

  /** Replacing a reference by a list of tokens. */
  function Subst(ts: seq<Token>, name: string, by_: seq<Token>): seq<Token>
  {
    if ts == [] then []
    else (if ts[0] == Ref(name) then by_ else [ts[0]]) + Subst(ts[1..], name, by_)
  }

  lemma {:induction false} SubstMembers(ts: seq<Token>, name: string, value: seq<Token>, t: Token)
    ensures t in Subst(ts, name, value) <==> (t in ts && t != Ref(name)) || (Ref(name) in ts && t in value)
  {
    if ts != [] {
      SubstMembers(ts[1..], name, value, t);
    }
  }

  lemma {:induction false} ReplaceSkips(s: string, name: string, value: string, k: nat)
    requires k <= |s| && forall i :: 0 <= i < k ==> s[i] != '$'
    ensures ReplaceRef(s, name, value) == s[..k] + ReplaceRef(s[k..], name, value)
  {
    if k > 0 {
      ReplaceSkips(s[1..], name, value, k - 1);
      assert s[1..][k - 1..] == s[k..] && s[..k] == [s[0]] + s[1..][..k - 1];
      assert !(Placeholder(name) <= s) by {
        assert Placeholder(name)[0] == '$';
      }
      Associates([s[0]], s[1..][..k - 1], ReplaceRef(s[k..], name, value));
    } else {
      assert s[0..] == s && s[..0] == "";
    }
  }

  /** Another reference is copied whole. */
  lemma ReplaceCopiesRef(s: string, name: string, value: string)
    requires IsName(name) && RefAt(s).Some? && RefAt(s).value != name
    ensures
      var q := RefAt(s).value;
      ReplaceRef(s, name, value) == Placeholder(q) + ReplaceRef(s[|q| + 3..], name, value)
  {
    var q := RefAt(s).value;
    var rest := s[|q| + 3..];
    PlaceholderAtRef(s);
    if Placeholder(name) <= s {
      assert s == Placeholder(name) + s[|name| + 3..];
      RefAtPlaceholder(name, s[|name| + 3..]);
      assert false;
    }
    assert s[1..] == Placeholder(q)[1..] + rest;
    forall i | 0 <= i < |q| + 2 ensures s[1..][i] != '$' {
      assert s[1..][i] == Placeholder(q)[i + 1];
    }
    ReplaceSkips(s[1..], name, value, |q| + 2);
    assert s[1..][|q| + 2..] == rest && s[1..][..|q| + 2] == Placeholder(q)[1..];
    Associates([s[0]], Placeholder(q)[1..], ReplaceRef(rest, name, value));
    assert [s[0]] + Placeholder(q)[1..] == Placeholder(q);
  }

  /** Replacing in the text is substituting in its tokens, for every text. */
  lemma {:induction false} ReplaceIsSubst(s: string, name: string, value: string)
    requires IsName(name)
    ensures ReplaceRef(s, name, value) == Render(Subst(Tokens(s), name, Tokens(value)))
    decreases |s|
  {
    if s != "" {
      var t := if RefAt(s).Some? then Ref(RefAt(s).value) else Ch(s[0]);
      var rest := if RefAt(s).Some? then s[|RefAt(s).value| + 3..] else s[1..];
      ReplaceIsSubst(rest, name, value);
      SubstHead(t, Tokens(rest), name, Tokens(value));
      if RefAt(s).None? {
        NoRefHere(s, name);
      } else if t == Ref(name) {
        PlaceholderAtRef(s);
        RenderTokens(value);
      } else {
        ReplaceCopiesRef(s, name, value);
      }
    }
  }

  lemma SubstHead(t: Token, rest: seq<Token>, name: string, value: seq<Token>)
    ensures Render(Subst([t] + rest, name, value)) ==
      (if t == Ref(name) then Render(value) else RenderOne(t)) + Render(Subst(rest, name, value))
  {
    assert ([t] + rest)[1..] == rest;
    if t == Ref(name) {
      RenderConcat(value, Subst(rest, name, value));
    } else {
      RenderHead(t, Subst(rest, name, value));
    }
  }

  // ----------------------------------------------------------- expansion laws

  lemma {:induction false} DepthMonotone(ts: seq<Token>, b: map<string, string>, m: nat, n: nat)
    requires m <= n && DepthAtMost(ts, b, m)
    ensures DepthAtMost(ts, b, n)
    decreases m
  {
    forall q | Ref(q) in ts ensures n > 0 && (q in b ==> DepthAtMost(Tokens(b[q]), b, n - 1)) {
      if q in b {
        DepthMonotone(Tokens(b[q]), b, m - 1, n - 1);
      }
    }
  }

  function Join(a: Option<string>, b: Option<string>): Option<string>
  {
    if a.Some? && b.Some? then Some(a.value + b.value) else None
  }

  lemma {:induction false} ExpandConcat(x: seq<Token>, y: seq<Token>, b: map<string, string>, n: nat)
    ensures Expand(x + y, b, n) == Join(Expand(x, b, n), Expand(y, b, n))
    decreases |x|
  {
    if x == [] {
      assert x + y == y;
      assert Expand(y, b, n).Some? ==> "" + Expand(y, b, n).value == Expand(y, b, n).value;
    } else {
      assert (x + y)[1..] == x[1..] + y && (x + y)[0] == x[0];
      ExpandConcat(x[1..], y, b, n);
      var first := ExpandOne(x[0], b, n);
      ExpandHead(x, b, n);
      ExpandHead(x + y, b, n);
      JoinAssociates(first, Expand(x[1..], b, n), Expand(y, b, n));
    }
  }

  function ExpandOne(t: Token, b: map<string, string>, n: nat): Option<string>
  {
    if t.Ch? then Some([t.c])
    else if n == 0 || t.name !in b then None
    else Expand(Tokens(b[t.name]), b, n - 1)
  }

  lemma ExpandHead(ts: seq<Token>, b: map<string, string>, n: nat)
    requires ts != []
    ensures Expand(ts, b, n) == Join(ExpandOne(ts[0], b, n), Expand(ts[1..], b, n))
  {
  }

  lemma JoinAssociates(a: Option<string>, b: Option<string>, c: Option<string>)
    ensures Join(a, Join(b, c)) == Join(Join(a, b), c)
  {
    if a.Some? && b.Some? && c.Some? {
      Associates(a.value, b.value, c.value);
    }
  }

  /** More fuel than the nesting needs changes nothing. */
  lemma {:induction false} ExpandFuel(ts: seq<Token>, b: map<string, string>, m: nat, n: nat)
    requires m <= n && DepthAtMost(ts, b, m)
    ensures Expand(ts, b, n) == Expand(ts, b, m)
    decreases m, |ts|
  {
    if ts != [] {
      ExpandHead(ts, b, n);
      ExpandHead(ts, b, m);
      forall q | Ref(q) in ts[1..] ensures m > 0 && (q in b ==> DepthAtMost(Tokens(b[q]), b, m - 1)) {
        assert Ref(q) in ts;
      }
      ExpandFuel(ts[1..], b, m, n);
      if ts[0].Ref? {
        var q := ts[0].name;
        assert Ref(q) in ts;
        if q in b {
          ExpandFuel(Tokens(b[q]), b, m - 1, n - 1);
        }
      }
    }
  }

  /** Each replacement keeps the full expansion. */
  lemma {:induction false} ExpandSubst(ts: seq<Token>, name: string, b: map<string, string>, n: nat)
    requires n > 0 && name in b && DepthAtMost(Tokens(b[name]), b, n - 1)
    ensures Expand(Subst(ts, name, Tokens(b[name])), b, n) == Expand(ts, b, n)
    decreases |ts|
  {
    if ts != [] {
      ExpandSubst(ts[1..], name, b, n);
      var value := Tokens(b[name]);
      ExpandHead(ts, b, n);
      ExpandConcat(if ts[0] == Ref(name) then value else [ts[0]], Subst(ts[1..], name, value), b, n);
      if ts[0] == Ref(name) {
        ExpandFuel(value, b, n - 1, n);
      } else {
        ExpandHead([ts[0]], b, n);
        assert [ts[0]][1..] == [];
        assert ExpandOne(ts[0], b, n).Some? ==> ExpandOne(ts[0], b, n).value + "" == ExpandOne(ts[0], b, n).value;
      }
    }
  }

  lemma {:induction false} UnboundIsNone(ts: seq<Token>, b: map<string, string>, n: nat, q: string)
    requires Ref(q) in ts && q !in b
    ensures Expand(ts, b, n).None?
    decreases |ts|
  {
    ExpandHead(ts, b, n);
    if ts[0] != Ref(q) {
      UnboundIsNone(ts[1..], b, n, q);
    }
  }

  lemma FlatHead(s: string)
    requires s != "" && forall q :: Ref(q) !in Tokens(s)
    ensures RefAt(s).None? && Tokens(s) == [Ch(s[0])] + Tokens(s[1..])
    ensures forall q :: Ref(q) !in Tokens(s[1..])
  {
    assert Tokens(s)[0] in Tokens(s);
  }

  lemma {:induction false} NoRefsIsItself(s: string, b: map<string, string>)
    requires DepthAtMost(Tokens(s), b, 0)
    ensures Expand(Tokens(s), b, 0) == Some(s)
    decreases |s|
  {
    if s != "" {
      FlatHead(s);
      ExpandHead(Tokens(s), b, 0);
      assert Tokens(s)[1..] == Tokens(s[1..]);
      NoRefsIsItself(s[1..], b);
      assert [s[0]] + s[1..] == s;
    }
  }

  // ------------------------------------------------- when a text reads as meant

  lemma RenderStarts(ts: seq<Token>)
    requires ts != []
    ensures Render(ts) != "" && Render(ts)[0] == if ts[0].Ch? then ts[0].c else '$'
  {
  }

  /** A $-free beginning of the rendered tokens begins their expansion too. */
  lemma {:induction false} PlainBeginning(ts: seq<Token>, w: string, b: map<string, string>, n: nat)
    requires '$' !in w && w <= Render(ts) && Expand(ts, b, n).Some?
    ensures w <= Expand(ts, b, n).value
    decreases |ts|
  {
    if w != "" {
      ExpandHead(ts, b, n);
      RenderStarts(ts);
      assert Render(ts)[0] == w[0];
      assert Render(ts)[1..] == Render(ts[1..]);
      PlainBeginning(ts[1..], w[1..], b, n);
    }
  }

  lemma RefInExpansion(p: string, x: string)
    requires IsName(p) && Placeholder(p) <= x
    ensures Ref(p) in Tokens(x)
  {
    assert x == Placeholder(p) + x[|p| + 3..];
    RefAtPlaceholder(p, x[|p| + 3..]);
  }

  /** Rendered tokens read as those tokens, or a seam made a reference; that
      reference then stands in the full expansion as well. */
  lemma {:induction false} ReadsAsMeant(ts: seq<Token>, b: map<string, string>, n: nat) returns (q: string)
    requires Named(ts) && Expand(ts, b, n).Some?
    ensures Tokens(Render(ts)) == ts
         || (Ref(q) in Tokens(Render(ts)) && Ref(q) in Tokens(Expand(ts, b, n).value))
    decreases |ts|
  {
    q := "";
    if ts != [] {
      var text, rest := Render(ts), Render(ts[1..]);
      ExpandHead(ts, b, n);
      var first, x := ExpandOne(ts[0], b, n).value, Expand(ts[1..], b, n).value;
      assert text == RenderOne(ts[0]) + rest;
      if ts[0].Ch? && RefAt(text).Some? {
        q := RefAt(text).value;
        PlaceholderAtRef(text);
        PlaceholderInside(q);
        assert Placeholder(q)[1..] <= rest by {
          assert rest == text[1..];
        }
        PlainBeginning(ts[1..], Placeholder(q)[1..], b, n);
        assert Placeholder(q) == [ts[0].c] + Placeholder(q)[1..];
        RefInExpansion(q, first + x);
      } else {
        q := ReadsAsMeant(ts[1..], b, n);
        if ts[0].Ref? {
          assert Ref(ts[0].name) in ts;
          RefAtPlaceholder(ts[0].name, rest);
        } else {
          assert text[1..] == rest;
        }
        if Tokens(rest) != ts[1..] {
          RefSurvivesPrefix(RenderOne(ts[0]), rest, q);
          RefSurvivesPrefix(first, x, q);
        }
      }
    }
  }

  // ---------------------------------------------------------------- one pass

  /** In the middle of a pass: what is not yet replaced is still listed, the rest
      already nests less deep. */
  ghost predicate MidPass(ts: seq<Token>, refs: seq<string>, b: map<string, string>, n: nat)
  {
    && (forall q :: q in refs ==> n > 0 && IsName(q) && (q in b ==> DepthAtMost(Tokens(b[q]), b, n - 1)))
    && (forall q :: Ref(q) in ts && q !in refs ==> Shallow(q, b, n))
  }

  ghost predicate Shallow(q: string, b: map<string, string>, n: nat)
  {
    n > 1 && (q in b ==> DepthAtMost(Tokens(b[q]), b, n - 2))
  }

  lemma MidPassStep(ts: seq<Token>, refs: seq<string>, b: map<string, string>, n: nat)
    requires refs != [] && refs[0] in b && MidPass(ts, refs, b, n)
    ensures MidPass(Subst(ts, refs[0], Tokens(b[refs[0]])), refs[1..], b, n)
  {
    var name, value := refs[0], Tokens(b[refs[0]]);
    forall q | Ref(q) in Subst(ts, name, value) && q !in refs[1..] ensures Shallow(q, b, n) {
      SubstMembers(ts, name, value, Ref(q));
      assert name in refs;
    }
  }

  lemma SubstNames(ts: seq<Token>, name: string, value: string)
    requires Named(ts)
    ensures Named(Subst(ts, name, Tokens(value)))
  {
    TokenNames(value);
    forall q | Ref(q) in Subst(ts, name, Tokens(value)) ensures IsName(q) {
      SubstMembers(ts, name, Tokens(value), Ref(q));
    }
  }

  /** A reference that a seam made: it stands in the full expansion x. */
  ghost predicate Stray(q: string, text: string, x: string)
  {
    Ref(q) in Tokens(text) && Ref(q) in Tokens(x)
  }

  /** One replacement of a pass. Unless a stray reference appears it keeps the full
      expansion. */
  lemma ReplaceKeepsExpansion(text: string, refs: seq<string>, b: map<string, string>, n: nat, x: string)
    returns (q: string, next: string)
    requires refs != [] && refs[0] in b && MidPass(Tokens(text), refs, b, n)
    requires Expand(Tokens(text), b, n) == Some(x)
    ensures next == ReplaceRef(text, refs[0], b[refs[0]])
    ensures Stray(q, next, x) || (Expand(Tokens(next), b, n) == Some(x) && MidPass(Tokens(next), refs[1..], b, n))
  {
    var name := refs[0];
    assert name in refs;
    var ts := Subst(Tokens(text), name, Tokens(b[name]));
    next := ReplaceRef(text, name, b[name]);
    ReplaceIsSubst(text, name, b[name]);
    TokenNames(text);
    SubstNames(Tokens(text), name, b[name]);
    ExpandSubst(Tokens(text), name, b, n);
    MidPassStep(Tokens(text), refs, b, n);
    q := ReadsAsMeant(ts, b, n);
  }

  lemma RefSurvivesReplace(s: string, name: string, value: string, q: string)
    requires Ref(q) in Tokens(s) && q != name && IsName(name)
    ensures Ref(q) in Tokens(ReplaceRef(s, name, value))
  {
    TokenNames(s);
    ReplaceIsSubst(s, name, value);
    SubstMembers(Tokens(s), name, Tokens(value), Ref(q));
    RenderKeepsRefs(Subst(Tokens(s), name, Tokens(value)), q);
  }

  lemma ReplaceBringsIn(s: string, name: string, value: string, q: string)
    requires Ref(name) in Tokens(s) && Ref(q) in Tokens(value) && IsName(name)
    ensures Ref(q) in Tokens(ReplaceRef(s, name, value))
  {
    TokenNames(value);
    ReplaceIsSubst(s, name, value);
    SubstMembers(Tokens(s), name, Tokens(value), Ref(q));
    RenderKeepsRefs(Subst(Tokens(s), name, Tokens(value)), q);
  }

  lemma {:induction false} UnboundSurvivesPass(text: string, refs: seq<string>, b: map<string, string>, q: string)
    requires Ref(q) in Tokens(text) && q !in b && (forall r :: r in refs ==> IsName(r)) && Pass(text, refs, b).Some?
    ensures Ref(q) in Tokens(Pass(text, refs, b).value)
    decreases |refs|
  {
    if refs != [] {
      assert refs[0] in refs;
      RefSurvivesReplace(text, refs[0], b[refs[0]], q);
      UnboundSurvivesPass(ReplaceRef(text, refs[0], b[refs[0]]), refs[1..], b, q);
    }
  }

  /** No reference of x is bound. */
  ghost predicate Unbound(x: string, b: map<string, string>)
  {
    forall q :: Ref(q) in Tokens(x) ==> q !in b
  }

  lemma {:induction false} PassNeedsBound(text: string, refs: seq<string>, b: map<string, string>)
    ensures Pass(text, refs, b).None? <==> exists q :: q in refs && q !in b
    decreases |refs|
  {
    if refs != [] && refs[0] in b {
      PassNeedsBound(ReplaceRef(text, refs[0], b[refs[0]]), refs[1..], b);
    }
  }

  /** A pass keeps the full expansion and lowers the depth, unless a stray reference
      appears. */
  lemma {:induction false} PassLowersDepth(text: string, refs: seq<string>, b: map<string, string>, n: nat, x: string)
    returns (q: string)
    requires MidPass(Tokens(text), refs, b, n) && Expand(Tokens(text), b, n) == Some(x) && Unbound(x, b)
    requires Pass(text, refs, b).Some?
    ensures
      var t := Pass(text, refs, b).value;
      || Stray(q, t, x)
      || (Expand(Tokens(t), b, n) == Some(x) && DepthAtMost(Tokens(t), b, if n > 0 then n - 1 else 0))
    decreases |refs|
  {
    q := "";
    if refs != [] {
      assert refs[0] in refs;
      var next: string;
      q, next := ReplaceKeepsExpansion(text, refs, b, n, x);
      if Stray(q, next, x) {
        UnboundSurvivesPass(next, refs[1..], b, q);
      } else {
        q := PassLowersDepth(next, refs[1..], b, n, x);
      }
    }
  }

  lemma StartsMidPass(text: string, b: map<string, string>, n: nat)
    requires DepthAtMost(Tokens(text), b, n)
    ensures MidPass(Tokens(text), FindAll(text), b, n)
  {
    TokenNames(text);
  }

  lemma {:induction false} NoOpeningNoRefs(s: string)
    requires !HasOpening(s)
    ensures forall q :: Ref(q) !in Tokens(s)
    decreases |s|
  {
    if s != "" {
      assert |s| >= 2 ==> !(s[0] == '$' && s[0 + 1] == '{');
      forall i | 0 <= i < |s[1..]| - 1 ensures !(s[1..][i] == '$' && s[1..][i + 1] == '{') {
        assert s[i + 1] == s[1..][i] && s[i + 1 + 1] == s[1..][i + 1];
      }
      NoOpeningNoRefs(s[1..]);
    }
  }

  lemma FlatIsItself(text: string, b: map<string, string>, n: nat)
    requires DepthAtMost(Tokens(text), b, 0)
    ensures Expand(Tokens(text), b, n) == Some(text)
  {
    NoRefsIsItself(text, b);
    ExpandFuel(Tokens(text), b, 0, n);
  }

  lemma BoundToPass(text: string, b: map<string, string>, n: nat)
    requires Expand(Tokens(text), b, n).Some?
    ensures Pass(text, FindAll(text), b).Some?
  {
    PassNeedsBound(text, FindAll(text), b);
    forall q | q in FindAll(text) ensures q in b {
      if q !in b {
        UnboundIsNone(Tokens(text), b, n, q);
      }
    }
  }

  lemma OpeningOrDone(text: string, b: map<string, string>, n: nat, x: string)
    requires !HasOpening(text) && Expand(Tokens(text), b, n) == Some(x)
    ensures text == x && DepthAtMost(Tokens(text), b, 0)
  {
    NoOpeningNoRefs(text);
    FlatIsItself(text, b, n);
  }

  /** A text that a pass leaves alone has nothing left to replace. */
  lemma {:induction false} FixedPointIsFlat(text: string, b: map<string, string>, n: nat, x: string)
    requires DepthAtMost(Tokens(text), b, n) && Expand(Tokens(text), b, n) == Some(x) && Flat(x)
    requires Pass(text, FindAll(text), b) == Some(text)
    ensures DepthAtMost(Tokens(text), b, 0)
  {
    if n > 0 {
      StartsMidPass(text, b, n);
      var q := PassLowersDepth(text, FindAll(text), b, n, x);
      ExpandFuel(Tokens(text), b, n - 1, n);
      FixedPointIsFlat(text, b, n - 1, x);
    }
  }

  lemma ResolveRound(text: string, b: map<string, string>, depth: nat, next: Option<string>)
    requires depth > 0 && HasOpening(text) && next == Pass(text, FindAll(text), b)
    ensures Resolve(text, b, depth) ==
      if next.None? || next.value == text then next else Resolve(next.value, b, depth - 1)
  {
  }

  function Less(n: nat, m: nat): nat
  {
    if n > m then n - m else 0
  }

  /** The text t means x and nests at most n deep. */
  ghost predicate Means(t: string, b: map<string, string>, n: nat, x: string)
  {
    DepthAtMost(Tokens(t), b, n) && Expand(Tokens(t), b, n) == Some(x)
  }

  lemma MeansDeeper(t: string, b: map<string, string>, m: nat, n: nat, x: string)
    requires Means(t, b, m, x) && m <= n
    ensures Means(t, b, n, x)
  {
    DepthMonotone(Tokens(t), b, m, n);
    ExpandFuel(Tokens(t), b, m, n);
  }

  lemma PassMeans(text: string, b: map<string, string>, n: nat, x: string) returns (next: string)
    requires Means(text, b, n, x) && Flat(x)
    ensures Pass(text, FindAll(text), b) == Some(next) && Means(next, b, Less(n, 1), x)
    ensures next == text ==> Means(text, b, 0, x)
  {
    BoundToPass(text, b, n);
    StartsMidPass(text, b, n);
    next := Pass(text, FindAll(text), b).value;
    var q := PassLowersDepth(text, FindAll(text), b, n, x);
    ExpandFuel(Tokens(next), b, Less(n, 1), n);
    if next == text {
      FixedPointIsFlat(text, b, n, x);
      ExpandFuel(Tokens(text), b, 0, n);
    }
  }

  /** One round of the loop on a text that means x: it stops with all nesting gone, or
      goes on one level less deep. */
  lemma RoundMeans(text: string, b: map<string, string>, n: nat, depth: nat, x: string)
    returns (next: string, done: bool)
    requires Means(text, b, n, x) && Flat(x) && depth > 0
    ensures done ==> Resolve(text, b, depth) == Some(text) && Means(text, b, Less(n, depth), x)
    ensures !done ==> Resolve(text, b, depth) == Resolve(next, b, depth - 1) && Means(next, b, Less(n, 1), x)
  {
    next, done := "", true;
    if !HasOpening(text) {
      OpeningOrDone(text, b, n, x);
      FlatIsItself(text, b, 0);
      MeansDeeper(text, b, 0, Less(n, depth), x);
    } else {
      next := PassMeans(text, b, n, x);
      ResolveRound(text, b, depth, Some(next));
      if next == text {
        MeansDeeper(text, b, 0, Less(n, depth), x);
      } else {
        done := false;
      }
    }
  }

  lemma LessTwice(n: nat, depth: nat)
    requires depth > 0
    ensures Less(Less(n, 1), depth - 1) == Less(n, depth)
  {
  }

  /** The loop keeps the meaning, and every pass makes the text nest one level less:
      whatever the pass limit, the text returned still means x, and what is left of
      the nesting is what the passes did not reach. */
  lemma {:induction false} PassesKeepMeaning(text: string, b: map<string, string>, n: nat, depth: nat, x: string)
    returns (r: string)
    requires Means(text, b, n, x) && Flat(x)
    ensures Resolve(text, b, depth) == Some(r) && Means(r, b, Less(n, depth), x)
    decreases depth
  {
    r := text;
    if depth > 0 {
      var next, done := RoundMeans(text, b, n, depth, x);
      if !done {
        LessTwice(n, depth);
        r := PassesKeepMeaning(next, b, Less(n, 1), depth - 1, x);
      }
    }
  }

  // ---------------------------------------------------------- unbound names

  /** A chain of references from ts along bound names. */
  ghost predicate ReachedBy(ts: seq<Token>, b: map<string, string>, path: seq<string>)
    decreases |path|
  {
    && path != [] && Ref(path[0]) in ts
    && (|path| > 1 ==> path[0] in b && ReachedBy(Tokens(b[path[0]]), b, path[1..]))
  }

  ghost predicate UnboundReachable(ts: seq<Token>, b: map<string, string>)
  {
    exists path :: ReachedBy(ts, b, path) && path[|path| - 1] !in b
  }

  lemma {:induction false} UnboundPathIsNone(ts: seq<Token>, b: map<string, string>, n: nat, path: seq<string>)
    requires DepthAtMost(ts, b, n) && ReachedBy(ts, b, path) && path[|path| - 1] !in b
    ensures Expand(ts, b, n).None?
    decreases |path|, |ts|
  {
    if |path| == 1 {
      UnboundIsNone(ts, b, n, path[0]);
    } else {
      UnboundPathIsNone(Tokens(b[path[0]]), b, n - 1, path[1..]);
      NoneInside(ts, b, n, path[0]);
    }
  }

  lemma {:induction false} NoneInside(ts: seq<Token>, b: map<string, string>, n: nat, q: string)
    requires Ref(q) in ts && n > 0 && q in b && Expand(Tokens(b[q]), b, n - 1).None?
    ensures Expand(ts, b, n).None?
    decreases |ts|
  {
    ExpandHead(ts, b, n);
    if ts[0] != Ref(q) {
      NoneInside(ts[1..], b, n, q);
    }
  }

  lemma {:induction false} NoneHasUnboundPath(ts: seq<Token>, b: map<string, string>, n: nat)
    returns (path: seq<string>)
    requires DepthAtMost(ts, b, n) && Expand(ts, b, n).None?
    ensures ReachedBy(ts, b, path) && path[|path| - 1] !in b
    decreases n, |ts|
  {
    ExpandHead(ts, b, n);
    if ExpandOne(ts[0], b, n).None? {
      var q := ts[0].name;
      assert Ref(q) in ts;
      if q !in b {
        path := [q];
      } else {
        var tail := NoneHasUnboundPath(Tokens(b[q]), b, n - 1);
        path := [q] + tail;
        assert path[1..] == tail;
      }
    } else {
      forall q | Ref(q) in ts[1..] ensures n > 0 && (q in b ==> DepthAtMost(Tokens(b[q]), b, n - 1)) {
        assert Ref(q) in ts;
      }
      path := NoneHasUnboundPath(ts[1..], b, n);
      assert Ref(path[0]) in ts;
    }
  }

  lemma {:induction false} PathWithinDepth(ts: seq<Token>, b: map<string, string>, n: nat, path: seq<string>)
    requires DepthAtMost(ts, b, n) && ReachedBy(ts, b, path)
    ensures |path| <= n
    decreases |path|
  {
    if |path| > 1 {
      PathWithinDepth(Tokens(b[path[0]]), b, n - 1, path[1..]);
    }
  }

  /** A pass moves along a path of references, past its first name at least. */
  lemma {:induction false} PassMovesAlong(text: string, refs: seq<string>, b: map<string, string>, path: seq<string>)
    returns (j: nat)
    requires (forall r :: r in refs ==> IsName(r)) && Pass(text, refs, b).Some?
    requires ReachedBy(Tokens(text), b, path) && path[|path| - 1] !in b
    ensures j < |path| && ReachedBy(Tokens(Pass(text, refs, b).value), b, path[j..])
    ensures path[0] in refs ==> j > 0
    decreases |refs|
  {
    j := 0;
    if refs == [] {
      assert path[0..] == path;
    } else {
      var name := refs[0];
      assert name in refs;
      var next := ReplaceRef(text, name, b[name]);
      if name == path[0] {
        ReplaceBringsIn(text, name, b[name], path[1]);
        j := PassMovesAlong(next, refs[1..], b, path[1..]);
        assert path[1..][j..] == path[j + 1..];
        j := j + 1;
      } else {
        RefSurvivesReplace(text, name, b[name], path[0]);
        j := PassMovesAlong(next, refs[1..], b, path);
      }
    }
  }

  /** A reachable unbound name makes the loop return nothing, given the passes to
      reach it. */
  lemma {:induction false} UnboundIsReached(text: string, b: map<string, string>, depth: nat, path: seq<string>)
    requires ReachedBy(Tokens(text), b, path) && path[|path| - 1] !in b && |path| <= depth
    ensures Resolve(text, b, depth).None?
    decreases |path|
  {
    if !HasOpening(text) {
      NoOpeningNoRefs(text);
    }
    var refs := FindAll(text);
    TokenNames(text);
    var next := Pass(text, refs, b);
    ResolveRound(text, b, depth, next);
    if next.Some? {
      var j := PassMovesAlong(text, refs, b, path);
      UnboundIsReached(next.value, b, if next.value == text then depth else depth - 1, path[j..]);
    }
  }

  lemma UnboundHere(text: string, b: map<string, string>, depth: nat, q: string)
    requires Ref(q) in Tokens(text) && q !in b && depth > 0
    ensures Resolve(text, b, depth).None?
  {
    UnboundIsReached(text, b, depth, [q]);
  }

  lemma NoneIsReached(text: string, b: map<string, string>, n: nat, depth: nat)
    requires DepthAtMost(Tokens(text), b, n) && n <= depth && Expand(Tokens(text), b, n).None?
    ensures Resolve(text, b, depth).None?
  {
    var path := NoneHasUnboundPath(Tokens(text), b, n);
    PathWithinDepth(Tokens(text), b, n, path);
    UnboundIsReached(text, b, depth, path);
  }

  // ------------------------------------------------------- the main theorems

  /** The full expansion holds no reference of its own, made at a seam. */
  ghost predicate NoStray(ts: seq<Token>, b: map<string, string>, n: nat)
  {
    Expand(ts, b, n).Some? ==> Flat(Expand(ts, b, n).value)
  }

  /** Expansion is correct: with enough passes for the nesting the loop returns the
      full recursive expansion. */
  lemma ResolveIsExpansion(text: string, b: map<string, string>, n: nat, depth: nat)
    requires DepthAtMost(Tokens(text), b, n) && n <= depth && NoStray(Tokens(text), b, n)
    ensures Resolve(text, b, depth) == Expand(Tokens(text), b, n)
  {
    if Expand(Tokens(text), b, n).None? {
      NoneIsReached(text, b, n, depth);
    } else {
      var x := Expand(Tokens(text), b, n).value;
      var r := PassesKeepMeaning(text, b, n, depth, x);
      NoRefsIsItself(r, b);
    }
  }

  /** Nothing is returned exactly when an unbound name is reachable. */
  lemma ResolveNoneIffUnboundReachable(text: string, b: map<string, string>, n: nat, depth: nat)
    requires DepthAtMost(Tokens(text), b, n) && n <= depth && NoStray(Tokens(text), b, n)
    ensures Resolve(text, b, depth).None? <==> UnboundReachable(Tokens(text), b)
  {
    ResolveIsExpansion(text, b, n, depth);
    if Expand(Tokens(text), b, n).None? {
      var path := NoneHasUnboundPath(Tokens(text), b, n);
    }
    if path :| ReachedBy(Tokens(text), b, path) && path[|path| - 1] !in b {
      UnboundPathIsNone(Tokens(text), b, n, path);
    }
  }

  lemma MeansNeedsPass(text: string, b: map<string, string>, n: nat, x: string)
    requires Means(text, b, n, x) && !Flat(x)
    ensures n > 0 && HasOpening(text)
  {
    if n == 0 {
      NoRefsIsItself(text, b);
    } else if !HasOpening(text) {
      OpeningOrDone(text, b, n, x);
    }
  }

  /** One pass where the expansion does hold references, all unbound: one of them has
      come to stand in the text, or the text nests one level less. */
  lemma PassMeansOrStray(text: string, b: map<string, string>, n: nat, x: string)
    returns (next: string, q: string, stray: bool)
    requires Means(text, b, n, x) && n > 0 && Unbound(x, b)
    ensures Pass(text, FindAll(text), b) == Some(next)
    ensures stray ==> Stray(q, next, x) && next != text
    ensures !stray ==> Means(next, b, n - 1, x)
  {
    BoundToPass(text, b, n);
    StartsMidPass(text, b, n);
    next := Pass(text, FindAll(text), b).value;
    q := PassLowersDepth(text, FindAll(text), b, n, x);
    stray := Ref(q) in Tokens(next) && Ref(q) in Tokens(x);
    if stray {
      PassNeedsBound(text, FindAll(text), b);
    } else {
      ExpandFuel(Tokens(next), b, n - 1, n);
    }
  }

  lemma StrayEnds(text: string, b: map<string, string>, depth: nat, x: string, next: string, q: string)
    requires depth > 1 && HasOpening(text) && Pass(text, FindAll(text), b) == Some(next)
    requires Stray(q, next, x) && next != text && Unbound(x, b)
    ensures Resolve(text, b, depth).None?
  {
    ResolveRound(text, b, depth, Some(next));
    UnboundHere(next, b, depth - 1, q);
  }

  lemma ResolveOn(text: string, b: map<string, string>, depth: nat, next: string, left: nat)
    requires depth > 0 && HasOpening(text) && Pass(text, FindAll(text), b) == Some(next)
    requires left == if next == text then depth else depth - 1
    ensures Resolve(text, b, depth) == Resolve(next, b, left)
  {
    ResolveRound(text, b, depth, Some(next));
  }

  lemma RoundOrStray(text: string, b: map<string, string>, n: nat, depth: nat, x: string)
    returns (next: string, left: nat, done: bool)
    requires Means(text, b, n, x) && n < depth && !Flat(x) && Unbound(x, b)
    ensures done ==> Resolve(text, b, depth).None?
    ensures !done ==> 0 < n <= left && Resolve(text, b, depth) == Resolve(next, b, left) && Means(next, b, n - 1, x)
  {
    MeansNeedsPass(text, b, n, x);
    var q: string;
    next, q, done := PassMeansOrStray(text, b, n, x);
    left := if next == text then depth else depth - 1;
    if done {
      StrayEnds(text, b, depth, x, next, q);
    } else {
      ResolveOn(text, b, depth, next, left);
    }
  }

  /** A stray reference to an unbound name loses the text, given one pass to spare. */
  lemma {:induction false} StrayIsNone(text: string, b: map<string, string>, n: nat, depth: nat, x: string)
    requires Means(text, b, n, x) && n < depth && !Flat(x) && Unbound(x, b)
    ensures Resolve(text, b, depth).None?
    decreases n
  {
    var next, left, done := RoundOrStray(text, b, n, depth, x);
    if !done {
      StrayIsNone(next, b, n - 1, left, x);
    }
  }

  /** The loop against the full expansion, exactly: for nesting below the pass limit,
      where no reference made at a seam is bound, the expansion is returned if it is
      there and holds no reference, and nothing is returned otherwise. */
  lemma ResolveExactly(text: string, b: map<string, string>, n: nat, depth: nat)
    requires DepthAtMost(Tokens(text), b, n) && n < depth
    requires Expand(Tokens(text), b, n).Some? ==> Unbound(Expand(Tokens(text), b, n).value, b)
    ensures Resolve(text, b, depth) ==
      if NoStray(Tokens(text), b, n) then Expand(Tokens(text), b, n) else None
  {
    if NoStray(Tokens(text), b, n) {
      ResolveIsExpansion(text, b, n, depth);
    } else {
      StrayIsNone(text, b, n, depth, Expand(Tokens(text), b, n).value);
    }
  }

  // ----------------------------------------------------- the limit is a limit

  lemma SingleRefTokens(q: string)
    requires IsName(q)
    ensures Tokens(Placeholder(q)) == [Ref(q)] && FindAll(Placeholder(q)) == [q] && HasOpening(Placeholder(q))
  {
    RefAtPlaceholder(q, "");
    assert Placeholder(q) + "" == Placeholder(q);
    assert [Ref(q)][1..] == [] && RefNames([]) == [];
    assert RefNames([Ref(q)]) == [q];
    var s := Placeholder(q);
    assert s[0] == '$' && s[0 + 1] == '{';
  }

  lemma ReplaceWhole(q: string, value: string)
    ensures ReplaceRef(Placeholder(q), q, value) == value
  {
    assert Placeholder(q)[|q| + 3..] == "";
    assert value + "" == value;
  }

  /** A chain one longer than the limit is returned with its last reference left
      in, bound or not: four passes do not reach the fifth name. */
  lemma ChainBeyondLimit(b: map<string, string>, q: seq<string>)
    requires |q| == 5 && forall i :: 0 <= i < 5 ==> IsName(q[i])
    requires forall i, j :: 0 <= i < j < 5 ==> q[i] != q[j]
    requires forall i :: 0 <= i < 4 ==> q[i] in b && b[q[i]] == Placeholder(q[i + 1])
    ensures Resolve(Placeholder(q[0]), b, 4) == Some(Placeholder(q[4]))
  {
    forall i | 0 <= i < 4
      ensures Pass(Placeholder(q[i]), FindAll(Placeholder(q[i])), b) == Some(Placeholder(q[i + 1]))
      ensures HasOpening(Placeholder(q[i])) && Placeholder(q[i]) != Placeholder(q[i + 1])
    {
      SingleRefTokens(q[i]);
      ReplaceWhole(q[i], Placeholder(q[i + 1]));
      assert [q[i]][1..] == [];
      if Placeholder(q[i]) == Placeholder(q[i + 1]) {
        SingleRefTokens(q[i + 1]);
      }
    }
    assert Resolve(Placeholder(q[3]), b, 1) == Resolve(Placeholder(q[4]), b, 0);
    assert Resolve(Placeholder(q[2]), b, 2) == Resolve(Placeholder(q[3]), b, 1);
    assert Resolve(Placeholder(q[1]), b, 3) == Resolve(Placeholder(q[2]), b, 2);
  }
}
