/** ${name} templates and their pass-limited expansion: resolve_template of
    web-platform/backend/resolvers/app_source_index.py.

    The loop works on text: it lists the references of the text, then replaces
    them one name after the other, so a replacement may bring in names that the
    same pass replaces too. The reference meaning is the recursive expansion of
    the text's tokens. */
module Template {
  import opened Options
  import opened Text

  // ------------------------------------------------------------------ tokens

  datatype Token = Ch(c: char) | Ref(name: string)

  predicate IsName(s: string)
  {
    s != "" && IsLetter(s[0]) && forall i :: 0 <= i < |s| ==> IsNameChar(s[i])
  }

  /** The name of the reference the text starts with, if it starts with one. */
  function RefAt(s: string): (r: Option<string>)
    ensures r.Some? ==> IsName(r.value) && |r.value| + 3 <= |s|
  {
    if |s| < 3 || s[0] != '$' || s[1] != '{' then None
    else
      var n := Run(s[2..], IsNameChar);
      if n > 0 && IsLetter(s[2]) && n + 2 < |s| && s[n + 2] == '}' then
        assert s[2..][..n] == s[2..n + 2];
        Some(s[2..][..n])
      else None
  }

  /** The text as characters and references. */
  function Tokens(s: string): seq<Token>
    decreases |s|
  {
    if s == "" then []
    else if RefAt(s).Some? then [Ref(RefAt(s).value)] + Tokens(s[|RefAt(s).value| + 3..])
    else [Ch(s[0])] + Tokens(s[1..])
  }

  /** INTERP_RE.findall: the referenced names in order. */
  function FindAll(s: string): seq<string>
  {
    RefNames(Tokens(s))
  }

  function RefNames(ts: seq<Token>): (r: seq<string>)
    ensures forall q :: q in r <==> Ref(q) in ts
  {
    if ts == [] then []
    else (if ts[0].Ref? then [ts[0].name] else []) + RefNames(ts[1..])
  }

  function Placeholder(name: string): string
  {
    "${" + name + "}"
  }

  /** str.replace of ${name} by value. */
  function ReplaceRef(s: string, name: string, value: string): string
    decreases |s|
  {
    if s == "" then ""
    else if Placeholder(name) <= s then value + ReplaceRef(s[|name| + 3..], name, value)
    else [s[0]] + ReplaceRef(s[1..], name, value)
  }

  predicate HasOpening(s: string)
  {
    exists i :: 0 <= i < |s| - 1 && s[i] == '$' && s[i + 1] == '{'
  }

  // ------------------------------------------------------------------ the loop

  /** The inner loop: replaces the listed names in turn. */
  function Pass(text: string, refs: seq<string>, b: map<string, string>): Option<string>
    decreases |refs|
  {
    if refs == [] then Some(text)
    else if refs[0] !in b then None
    else Pass(ReplaceRef(text, refs[0], b[refs[0]]), refs[1..], b)
  }

  function Resolve(text: string, b: map<string, string>, depth: nat): Option<string>
    decreases depth
  {
    if depth == 0 || !HasOpening(text) then Some(text)
    else
      var next := Pass(text, FindAll(text), b);
      if next.None? then None
      else if next.value == text then Some(text)
      else Resolve(next.value, b, depth - 1)
  }

  method ResolveTemplate(template: string, bindings: map<string, string>, depth: nat := 4)
    returns (r: Option<string>)
    ensures r == Resolve(template, bindings, depth)
  {
    var seen, text := 0, template;
    while seen < depth && HasOpening(text)
      invariant seen <= depth
      invariant Resolve(template, bindings, depth) == Resolve(text, bindings, depth - seen)
    {
      var newText, refs := text, FindAll(text);
      for i := 0 to |refs|
        invariant Pass(text, refs, bindings) == Pass(newText, refs[i..], bindings)
      {
        if refs[i] !in bindings {
          return None;
        }
        newText := ReplaceRef(newText, refs[i], bindings[refs[i]]);
        assert refs[i..][1..] == refs[i + 1..];
      }
      if newText == text {
        return Some(text);
      }
      text, seen := newText, seen + 1;
    }
    return Some(text);
  }

  // ------------------------------------------------------- full expansion

  /** Every reference in ts nests at most n deep. */
  ghost predicate DepthAtMost(ts: seq<Token>, b: map<string, string>, n: nat)
    decreases n
  {
    forall q :: Ref(q) in ts ==> n > 0 && (q in b ==> DepthAtMost(Tokens(b[q]), b, n - 1))
  }

  /** The recursive expansion; None when a reference is unbound or deeper than n. */
  function Expand(ts: seq<Token>, b: map<string, string>, n: nat): Option<string>
    decreases n, |ts|
  {
    if ts == [] then Some("")
    else
      var rest := Expand(ts[1..], b, n);
      if ts[0].Ch? then
        if rest.Some? then Some([ts[0].c] + rest.value) else None
      else if n == 0 || ts[0].name !in b then None
      else
        var first := Expand(Tokens(b[ts[0].name]), b, n - 1);
        if first.Some? && rest.Some? then Some(first.value + rest.value) else None
  }
}
