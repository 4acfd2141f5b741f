/** ASCII text matching: the few character classes and scans behind the
    repository's fixed regular expressions. Digits, white space and word
    characters are their ASCII members; no modelled text holds a newline. */
module Text {
  import opened Options


  predicate IsDigit(c: char) { '0' <= c <= '9' }

  predicate NotDigit(c: char) { !IsDigit(c) }

  predicate IsSpace(c: char)
  {
    c == ' ' || '\t' <= c <= '\r' || '\U{1c}' <= c <= '\U{1f}'
  }

  predicate IsLetter(c: char) { 'a' <= c <= 'z' || 'A' <= c <= 'Z' }

  /** [\w-] */
  predicate IsNameChar(c: char) { IsLetter(c) || IsDigit(c) || c == '_' || c == '-' }

  predicate NotQuote(c: char) { c != '"' }

  /** Length of the longest prefix whose characters all satisfy p. */
  function Run(s: string, p: char -> bool): (n: nat)
    ensures n <= |s|
    ensures forall i :: 0 <= i < n ==> p(s[i])
    ensures n < |s| ==> !p(s[n])
  {
    if s == "" || !p(s[0]) then 0 else 1 + Run(s[1..], p)
  }

  lemma RunIs(s: string, p: char -> bool, n: nat)
    requires n <= |s| && (forall i :: 0 <= i < n ==> p(s[i])) && (n < |s| ==> !p(s[n]))
    ensures Run(s, p) == n
  {
  }

  /** A run stops at the seam unless it swallows all of the first part. */
  lemma RunConcat(a: string, b: string, p: char -> bool)
    ensures Run(a + b, p) == if Run(a, p) < |a| then Run(a, p) else |a| + Run(b, p)
  {
    var n := if Run(a, p) < |a| then Run(a, p) else |a| + Run(b, p);
    forall i | 0 <= i < n ensures p((a + b)[i]) {
      if i >= |a| {
        assert (a + b)[i] == b[i - |a|];
      }
    }
    RunIs(a + b, p, n);
  }

  predicate EndsWith(s: string, suffix: string)
  {
    |suffix| <= |s| && s[|s| - |suffix|..] == suffix
  }

  predicate Contains(s: string, t: string)
  {
    t <= s || (s != "" && Contains(s[1..], t))
  }

  /** The number a digit string denotes. */
  function Value(digits: string): nat
    requires forall i :: 0 <= i < |digits| ==> IsDigit(digits[i])
  {
    if digits == "" then 0
    else
      var n := |digits| - 1;
      assert IsDigit(digits[n]);
      10 * Value(digits[..n]) + (digits[n] as int - '0' as int)
  }

  /** A list of numbers filled up with zeros. */
  function Padded(nums: seq<nat>, width: nat): (r: seq<nat>)
    requires |nums| <= width
    ensures |r| == width && forall i :: 0 <= i < width ==> r[i] == if i < |nums| then nums[i] else 0
  {
    nums + seq(width - |nums|, i => 0)
  }

  lemma Associates<T>(a: seq<T>, b: seq<T>, c: seq<T>)
    ensures a + (b + c) == (a + b) + c
  {
  }

  lemma DropDrop<T>(s: seq<T>, a: nat, b: nat)
    requires a + b <= |s|
    ensures s[a..][b..] == s[a + b..]
  {
  }

  // ---------------------------------------------------------------- ordering

  /** A strict total order on T. */
  ghost predicate StrictTotal<T(!new)>(less: (T, T) -> bool)
  {
    && (forall x :: !less(x, x))
    && (forall x, y, z :: less(x, y) && less(y, z) ==> less(x, z))
    && (forall x, y :: less(x, y) || x == y || less(y, x))
  }

  /** Python's tuple and string comparison: element by element, and a proper
      prefix comes first. */
  predicate Lex<T(==)>(less: (T, T) -> bool, a: seq<T>, b: seq<T>)
  {
    if b == [] then false
    else if a == [] then true
    else less(a[0], b[0]) || (a[0] == b[0] && Lex(less, a[1..], b[1..]))
  }

  lemma {:induction false} LexIrreflexive<T(!new)>(less: (T, T) -> bool, a: seq<T>)
    requires StrictTotal(less)
    ensures !Lex(less, a, a)
  {
    if a != [] {
      LexIrreflexive(less, a[1..]);
    }
  }

  lemma {:induction false} LexTransitive<T(!new)>(less: (T, T) -> bool, a: seq<T>, b: seq<T>, c: seq<T>)
    requires StrictTotal(less) && Lex(less, a, b) && Lex(less, b, c)
    ensures Lex(less, a, c)
  {
    if a != [] && a[0] == b[0] && b[0] == c[0] {
      LexTransitive(less, a[1..], b[1..], c[1..]);
    }
  }

  lemma {:induction false} LexTotal<T(!new)>(less: (T, T) -> bool, a: seq<T>, b: seq<T>)
    requires StrictTotal(less)
    ensures Lex(less, a, b) || a == b || Lex(less, b, a)
  {
    if a != [] && b != [] {
      LexTotal(less, a[1..], b[1..]);
      if a[1..] == b[1..] && a[0] == b[0] {
        assert a == [a[0]] + a[1..] && b == [b[0]] + b[1..];
      }
    }
  }

  lemma LexIsStrictTotal<T(!new)>(less: (T, T) -> bool)
    requires StrictTotal(less)
    ensures StrictTotal((a: seq<T>, b: seq<T>) => Lex(less, a, b))
  {
    forall a ensures !Lex(less, a, a) {
      LexIrreflexive(less, a);
    }
    forall a, b, c | Lex(less, a, b) && Lex(less, b, c) ensures Lex(less, a, c) {
      LexTransitive(less, a, b, c);
    }
    forall a, b ensures Lex(less, a, b) || a == b || Lex(less, b, a) {
      LexTotal(less, a, b);
    }
  }

  /** Equal heads can be skipped. */
  lemma {:induction false} LexPrefix<T(!new)>(less: (T, T) -> bool, p: seq<T>, a: seq<T>, b: seq<T>)
    requires StrictTotal(less)
    ensures Lex(less, p + a, p + b) <==> Lex(less, a, b)
  {
    if p == [] {
      assert p + a == a && p + b == b;
    } else {
      assert (p + a)[1..] == p[1..] + a && (p + b)[1..] == p[1..] + b;
      LexPrefix(less, p[1..], a, b);
    }
  }

  // ---------------------------------------------------------- answers and values

  /** The values among the answers, in order: value m comes from answer at[m]. */
  ghost predicate AreValues<T>(answers: seq<Option<T>>, values: seq<T>, at: seq<nat>)
  {
    && |at| == |values|
    && (forall j, k :: 0 <= j < k < |at| ==> at[j] < at[k])
    && (forall m :: 0 <= m < |at| ==> at[m] < |answers| && answers[at[m]] == Some(values[m]))
    && (forall k :: 0 <= k < |answers| && answers[k].Some? ==> k in at)
  }

  function Shifted(at: seq<nat>): (r: seq<nat>)
    ensures |r| == |at| && forall m :: 0 <= m < |at| ==> r[m] == at[m] + 1
  {
    seq(|at|, m requires 0 <= m < |at| => at[m] + 1)
  }

  lemma OneMoreValue<T>(answer: Option<T>, answers: seq<Option<T>>, values: seq<T>, before: seq<nat>, at: seq<nat>)
    requires AreValues(answers, values, before)
    requires at == (if answer.Some? then [0] else []) + Shifted(before)
    ensures AreValues([answer] + answers, (if answer.Some? then [answer.value] else []) + values, at)
  {
    var all := [answer] + answers;
    var d := if answer.Some? then 1 else 0;
    forall k | 0 <= k < |all| && all[k].Some? ensures k in at {
      if k > 0 {
        assert answers[k - 1].Some?;
        var m :| 0 <= m < |before| && before[m] == k - 1;
        assert at[m + d] == k;
      } else {
        assert at[0] == k;
      }
    }
  }

  /** Each answer that p keeps. */
  function Narrowed<T>(answers: seq<Option<T>>, p: T -> bool): (r: seq<Option<T>>)
    ensures |r| == |answers|
    ensures forall k :: 0 <= k < |answers| ==>
      r[k] == if answers[k].Some? && p(answers[k].value) then answers[k] else None
  {
    seq(|answers|, k requires 0 <= k < |answers| =>
      if answers[k].Some? && p(answers[k].value) then answers[k] else None)
  }

  function Somes<T>(values: seq<T>): (r: seq<Option<T>>)
    ensures |r| == |values| && forall k :: 0 <= k < |values| ==> r[k] == Some(values[k])
  {
    seq(|values|, k requires 0 <= k < |values| => Some(values[k]))
  }

  function Through(first: seq<nat>, second: seq<nat>): (r: seq<nat>)
    requires forall k :: 0 <= k < |second| ==> second[k] < |first|
    ensures |r| == |second| && forall k :: 0 <= k < |second| ==> r[k] == first[second[k]]
  {
    seq(|second|, k requires 0 <= k < |second| => first[second[k]])
  }

  /** Narrowing the values narrows the answers. */
  lemma NarrowedValues<T>(
    answers: seq<Option<T>>, values: seq<T>, at: seq<nat>, p: T -> bool, kept: seq<T>, from: seq<nat>)
    requires AreValues(answers, values, at) && AreValues(Narrowed(Somes(values), p), kept, from)
    ensures AreValues(Narrowed(answers, p), kept, Through(at, from))
  {
    var both := Through(at, from);
    forall k | 0 <= k < |answers| && Narrowed(answers, p)[k].Some? ensures k in both {
      assert k in at;
      var m :| 0 <= m < |at| && at[m] == k;
      assert Narrowed(Somes(values), p)[m].Some?;
      var n :| 0 <= n < |from| && from[n] == m;
      assert both[n] == k;
    }
  }

  /** An answer before that of value i is one of the values before it. */
  lemma EarlierValue<T>(answers: seq<Option<T>>, values: seq<T>, at: seq<nat>, i: nat, j: nat) returns (k: nat)
    requires AreValues(answers, values, at) && i < |at| && j < at[i] && answers[j].Some?
    ensures k < i && values[k] == answers[j].value
  {
    k :| 0 <= k < |at| && at[k] == j;
  }
}
