/** Tags as they are printed: parsing undoes printing, and two printed tags on
    which picker and bumper go different ways. */
module PrintedTags {
  import opened Options
  import opened Text
  import opened Tags
  import opened Picker
  import opened Bumper

  predicate Digits(s: string)
  {
    s != "" && forall i :: 0 <= i < |s| ==> IsDigit(s[i])
  }

  ghost predicate AllDigits(parts: seq<string>)
  {
    forall i :: 0 <= i < |parts| ==> Digits(parts[i])
  }

  function Dotted(parts: seq<string>): string
    requires parts != []
  {
    if |parts| == 1 then parts[0] else parts[0] + "." + Dotted(parts[1..])
  }

  ghost function Values(parts: seq<string>): (r: seq<nat>)
    requires AllDigits(parts)
    ensures |r| == |parts|
  {
    if parts == [] then [] else assert Digits(parts[0]); [Value(parts[0])] + Values(parts[1..])
  }

  predicate EndsCore(rest: string)
  {
    rest == "" || rest[0] == '-' || rest[0] == '+'
  }

  /** What follows a core's first number. */
  function AfterHead(parts: seq<string>, rest: string): string
    requires parts != []
  {
    if |parts| == 1 then rest else "." + (Dotted(parts[1..]) + rest)
  }

  lemma DottedSplits(parts: seq<string>, rest: string)
    requires parts != []
    ensures Dotted(parts) + rest == parts[0] + AfterHead(parts, rest)
  {
    if |parts| > 1 {
      Associates(parts[0], ".", Dotted(parts[1..]));
      Associates(parts[0], "." + Dotted(parts[1..]), rest);
      Associates(".", Dotted(parts[1..]), rest);
    }
  }

  /** A number and what follows it. */
  lemma NumberEnds(number: string, after: string, s: string)
    requires Digits(number) && (after == "" || !IsDigit(after[0])) && s == number + after
    ensures s != "" && IsDigit(s[0]) && Run(s, IsDigit) == |number|
    ensures s[..|number|] == number && s[|number|..] == after
  {
    forall i | 0 <= i < |number| ensures IsDigit(s[i]) {
      assert s[i] == number[i];
    }
    RunIs(s, IsDigit, |number|);
  }

  /** How a printed core begins. */
  lemma DottedHead(parts: seq<string>, rest: string, s: string, n: nat)
    requires parts != [] && AllDigits(parts) && EndsCore(rest) && s == Dotted(parts) + rest && n == |parts[0]|
    ensures 0 < n <= |s| && IsDigit(s[0]) && Run(s, IsDigit) == n && s[..n] == parts[0]
    ensures |parts| > 1 ==> n < |s| && s[n] == '.' && s[n + 1..] == Dotted(parts[1..]) + rest
    ensures |parts| == 1 ==> n == |s| || s[n] != '.'
  {
    assert Digits(parts[0]);
    var after := AfterHead(parts, rest);
    DottedSplits(parts, rest);
    NumberEnds(parts[0], after, s);
    assert after != "" ==> s[n] == after[0] && s[n + 1..] == after[1..];
  }

  lemma {:induction false} CoreOfDotted(parts: seq<string>, rest: string)
    requires parts != [] && AllDigits(parts) && EndsCore(rest)
    ensures Dotted(parts) != "" && IsDigit((Dotted(parts) + rest)[0])
    ensures CoreOf(Dotted(parts) + rest) == Core(Values(parts), |Dotted(parts)|)
  {
    var s, n := Dotted(parts) + rest, |parts[0]|;
    DottedHead(parts, rest, s, n);
    if |parts| > 1 {
      CoreOfDotted(parts[1..], rest);
      CoreAfterDot(s, n);
    } else {
      assert Values(parts) == [Value(parts[0])] + Values(parts[1..]);
    }
  }

  lemma NotPrefix(p: string, s: string, k: nat)
    requires k < |p| && k < |s| && p[k] != s[k]
    ensures !(p <= s)
  {
  }

  lemma NoKnownPrefix(tag: string, k: nat)
    requires k < |tag| && IsDigit(tag[k]) && k <= 1
    ensures StripTagPrefix(tag) == tag
  {
    LowerLength(tag);
    var low := Lower(tag);
    assert low[k] == tag[k] by {
      if k == 1 {
        assert low == [low[0]] + Lower(tag[1..]);
      }
    }
    NotPrefix("version-", low, k);
    NotPrefix("release-", low, k);
    NotPrefix("release/v", low, k);
    NotPrefix("release/", low, k);
  }

  /** What the parsers see once the lead is known. */
  lemma TagWithBody(tag: string, k: nat, body: string)
    requires k <= 1 && k <= |tag| && tag[k..] == body && (k == 1 ==> tag[0] == 'v')
    requires body != "" && IsDigit(body[0])
    ensures TagShape(tag) == Some(Shape("", body[CoreOf(body).len..])) && TagNums(tag) == CoreOf(body).nums
    ensures RawTagLead(tag) == tag[..k] && AfterV(StripTagPrefix(tag)) == body
  {
    assert tag[k] == body[0];
    RunIs(tag, NotDigit, k);
    NoKnownPrefix(tag, k);
  }

  lemma SemverOfBody(tag: string, body: string, c: Core)
    requires AfterV(StripTagPrefix(tag)) == body && body != "" && IsDigit(body[0]) && CoreOf(body) == c
    requires 2 <= |c.nums| <= 4
    requires body[c.len..] == "" || (|body[c.len..]| >= 2 && EndsCore(body[c.len..]))
    ensures SemverTuple(tag) == Some(Version(Pad(c.nums), SuffixKey(body[c.len..])))
  {
  }

  /** A tag printed as v?N.N[.N[.N]][suffix] parses back to its numbers and suffix. */
  lemma PrintedTagParses(v: bool, parts: seq<string>, suffix: string)
    requires 2 <= |parts| <= 4 && AllDigits(parts)
    requires suffix == "" || (|suffix| >= 2 && EndsCore(suffix))
    ensures
      var tag := (if v then "v" else "") + (Dotted(parts) + suffix);
      && SemverTuple(tag) == Some(Version(Pad(Values(parts)), SuffixKey(suffix)))
      && TagShape(tag) == Some(Shape("", suffix)) && TagNums(tag) == Values(parts)
      && RawTagLead(tag) == (if v then "v" else "")
  {
    var body := Dotted(parts) + suffix;
    CoreOfDotted(parts, suffix);
    assert body[|Dotted(parts)|..] == suffix;
    var lead := if v then "v" else "";
    var tag := lead + body;
    assert tag[|lead|..] == body && tag[..|lead|] == lead;
    TagWithBody(tag, |lead|, body);
    SemverOfBody(tag, body, Core(Values(parts), |Dotted(parts)|));
  }

  // --------------------------------------------------------- where it goes wrong

  lemma OneDigit(s: string, d: nat)
    requires |s| == 1 && IsDigit(s[0]) && d == s[0] as int - '0' as int
    ensures Digits(s) && Value(s) == d
  {
    assert s[..0] == "";
  }

  lemma TwoDigits(s: string)
    requires |s| == 2 && IsDigit(s[0]) && IsDigit(s[1])
    ensures Digits(s) && Value(s) == 10 * (s[0] as int - '0' as int) + (s[1] as int - '0' as int)
  {
    OneDigit(s[..1], s[0] as int - '0' as int);
  }

  lemma OnlyListedTagIsPicked(t: string, current: string)
    requires SemverTuple(current).Some? && InLine([t], current, t) && NotBelow(t, current)
    ensures PickLatest([t], current) == Some(t)
  {
    PickSoundAndComplete([t], current);
  }

  lemma NewerIsNotBelow(current: string, y: string, u: Version, w: Version)
    requires SemverTuple(current) == Some(u) && SemverTuple(y) == Some(w) && VersionLess(u, w)
    ensures NotBelow(y, current)
  {
    VersionOrder();
  }

  lemma NewerIsPicked(current: string, y: string, u: Version, w: Version)
    requires SemverTuple(current) == Some(u) && SemverTuple(y) == Some(w)
    requires VersionLess(u, w) && u.core[0] == w.core[0]
    requires TagShape(current).Some? && TagShape(current) == TagShape(y)
    ensures PickLatest([y], current) == Some(y)
  {
    NewerIsNotBelow(current, y, u, w);
    OnlyListedTagIsPicked(y, current);
  }

  /** A newer release, the only one listed, is picked, and accepted for a pin
      that carries its literal lead. */
  lemma NewerIsPickedAndAccepted(current: string, pinned: string, y: string, u: Version, w: Version)
    requires SemverTuple(current) == Some(u) && SemverTuple(pinned) == Some(u) && SemverTuple(y) == Some(w)
    requires VersionLess(u, w) && u.core[0] == w.core[0]
    requires TagShape(current) == TagShape(pinned) == TagShape(y) == Some(Shape("", ""))
    requires RawTagLead(pinned) == RawTagLead(y)
    ensures PickLatest([y], current) == Some(y) && IsUnsafeBump(pinned, y).None?
  {
    NewerIsPicked(current, y, u, w);
    VerdictOnNewer(pinned, y);
    DigitFreeSuffixNeverMisleads(pinned, y);
  }

  lemma UnlistedTag(y: string)
    requires y != "" && y[0] != 'v'
    ensures DeriveNewValue(y, "v", "") == y && "v" + y !in [y]
  {
    NotPrefix("v", y, 0);
    assert |"v" + y| == |y| + 1;
  }

  lemma PrintedRelease(v: bool, parts: seq<string>, tag: string)
    requires 2 <= |parts| <= 4 && AllDigits(parts) && tag == (if v then "v" else "") + Dotted(parts)
    ensures SemverTuple(tag) == Some(Version(Pad(Values(parts)), [Plain]))
    ensures TagShape(tag) == Some(Shape("", "")) && RawTagLead(tag) == (if v then "v" else "")
    ensures !v ==> tag != "" && tag[0] != 'v'
  {
    PrintedTagParses(v, parts, "");
    assert Dotted(parts) + "" == Dotted(parts);
    CoreOfDotted(parts, "");
  }

  /** When the template cannot produce the picked tag the bumper still derives a
      value and accepts it. A pin v<old> whose registry lists only the bare <new>
      is rewritten to v<new>, a tag that is not listed. */
  lemma TemplateWritesAnUnlistedTag(old_: seq<string>, new_: seq<string>, x: string, y: string, pin: string)
    requires 2 <= |old_| <= 4 && AllDigits(old_) && 2 <= |new_| <= 4 && AllDigits(new_)
    requires x == Dotted(old_) && y == Dotted(new_) && pin == "v" + x
    requires Pad(Values(old_))[0] == Pad(Values(new_))[0]
    requires Lex(NatLess, Pad(Values(old_)), Pad(Values(new_)))
    ensures PickLatest([y], pin) == Some(y)
    ensures IsUnsafeBump(x, DeriveNewValue(y, "v", "")).None?
    ensures "v" + DeriveNewValue(y, "v", "") !in [y]
  {
    PrintedRelease(true, old_, pin);
    PrintedRelease(false, old_, x) by { assert x == "" + x; }
    PrintedRelease(false, new_, y) by { assert y == "" + y; }
    UnlistedTag(y);
    NewerIsPickedAndAccepted(pin, x, y,
      Version(Pad(Values(old_)), [Plain]), Version(Pad(Values(new_)), [Plain]));
  }

  lemma NewerIsPickedButRefused(current: string, y: string, u: Version, w: Version)
    requires SemverTuple(current) == Some(u) && SemverTuple(y) == Some(w)
    requires VersionLess(u, w) && u.core[0] == w.core[0]
    requires TagShape(current).Some? && TagShape(current) == TagShape(y)
    requires SuffixNumbersMislead(current, y)
    ensures PickLatest([y], current) == Some(y) && IsUnsafeBump(current, y).Some?
  {
    NewerIsPicked(current, y, u, w);
    VerdictOnNewer(current, y);
  }

  lemma ShortBelowLong(a: nat, b: nat, c: nat, key: seq<Piece>)
    requires 0 < c
    ensures VersionLess(Version([a, b, 0, 0], key), Version([a, b, c, 0], key))
  {
    assert [a, b, 0, 0][1..] == [b, 0, 0] && [a, b, c, 0][1..] == [b, c, 0];
    assert [b, 0, 0][1..] == [0, 0] && [b, c, 0][1..] == [c, 0];
    assert Lex(NatLess, [0, 0], [c, 0]);
    assert Lex(NatLess, [b, 0, 0], [b, c, 0]);
  }

  lemma ValuesOfThree(a: string, b: string, c: string)
    requires Digits(a) && Digits(b) && Digits(c)
    ensures AllDigits([a, b]) && Values([a, b]) == [Value(a), Value(b)]
    ensures AllDigits([a, b, c]) && Values([a, b, c]) == [Value(a), Value(b), Value(c)]
  {
    assert [a, b, c][1..] == [b, c] && [b, c][1..] == [c] && [a, b][1..] == [b] && [b][1..] == [] && [c][1..] == [];
    assert Values([c]) == [Value(c)] && Values([b]) == [Value(b)];
    assert Values([b, c]) == [Value(b), Value(c)];
  }

  lemma Misleading(current: string, y: string, a: nat, b: nat, c: nat, n: nat)
    requires TagShape(current).Some? && TagShape(y).Some?
    requires TagNums(current) == [a, b] && TagNums(y) == [a, b, c]
    requires NumericTuple(TagShape(current).value.suffix) == [n] && c < n
    ensures SuffixNumbersMislead(current, y)
  {
    assert [a, b, c][2..] + [n] == [c, n];
  }

  lemma PrintedTag(parts: seq<string>, suffix: string, tag: string)
    requires 2 <= |parts| <= 4 && AllDigits(parts) && tag == Dotted(parts) + suffix
    requires |suffix| >= 2 && EndsCore(suffix)
    ensures SemverTuple(tag) == Some(Version(Pad(Values(parts)), SuffixKey(suffix)))
    ensures TagShape(tag) == Some(Shape("", suffix)) && TagNums(tag) == Values(parts)
  {
    PrintedTagParses(false, parts, suffix);
    assert "" + tag == tag;
  }

  lemma TwoPartTag(a: string, b: string, suffix: string, tag: string)
    requires Digits(a) && Digits(b) && |suffix| >= 2 && EndsCore(suffix) && tag == Dotted([a, b]) + suffix
    ensures SemverTuple(tag) == Some(Version([Value(a), Value(b), 0, 0], SuffixKey(suffix)))
    ensures TagShape(tag) == Some(Shape("", suffix)) && TagNums(tag) == [Value(a), Value(b)]
  {
    ValuesOfThree(a, b, b);
    PrintedTag([a, b], suffix, tag);
    assert Pad([Value(a), Value(b)]) == [Value(a), Value(b), 0, 0];
  }

  lemma ThreePartTag(a: string, b: string, c: string, suffix: string, tag: string)
    requires Digits(a) && Digits(b) && Digits(c)
    requires |suffix| >= 2 && EndsCore(suffix) && tag == Dotted([a, b, c]) + suffix
    ensures SemverTuple(tag) == Some(Version([Value(a), Value(b), Value(c), 0], SuffixKey(suffix)))
    ensures TagShape(tag) == Some(Shape("", suffix)) && TagNums(tag) == [Value(a), Value(b), Value(c)]
  {
    ValuesOfThree(a, b, c);
    PrintedTag([a, b, c], suffix, tag);
    assert Pad([Value(a), Value(b), Value(c)]) == [Value(a), Value(b), Value(c), 0];
  }

  /** The suffix numbers can mislead: a.b.c<suffix> is the pick for a.b<suffix>,
      and the bumper refuses it whenever c is below the suffix's first number. */
  lemma SuffixNumbersRefuseANewerTag(a: string, b: string, c: string, suffix: string, n: nat,
                                     old_: string, new_: string)
    requires Digits(a) && Digits(b) && Digits(c) && 0 < Value(c) < n
    requires |suffix| >= 2 && EndsCore(suffix) && NumericTuple(suffix) == [n]
    requires old_ == Dotted([a, b]) + suffix && new_ == Dotted([a, b, c]) + suffix
    ensures PickLatest([new_], old_) == Some(new_) && IsUnsafeBump(old_, new_).Some?
  {
    TwoPartTag(a, b, suffix, old_);
    ThreePartTag(a, b, c, suffix, new_);
    var x, y, z, key := Value(a), Value(b), Value(c), SuffixKey(suffix);
    ShortBelowLong(x, y, z, key);
    Misleading(old_, new_, x, y, z, n);
    NewerIsPickedButRefused(old_, new_, Version([x, y, 0, 0], key), Version([x, y, z, 0], key));
  }

  /** The two lemmas above have instances: v0.95.0 with only 0.96.0 listed, and
      1.2-rc5 against 1.2.3-rc5. */
  lemma SuchTagsExist()
    ensures AllDigits(["0", "95", "0"]) && Values(["0", "95", "0"]) == [0, 95, 0]
    ensures AllDigits(["0", "96", "0"]) && Values(["0", "96", "0"]) == [0, 96, 0]
    ensures Digits("1") && Digits("2") && Digits("3") && Value("3") == 3 && NumericTuple("-rc" + "5") == [5]
  {
    OneDigit("0", 0);
    OneDigit("1", 1);
    OneDigit("2", 2);
    OneDigit("3", 3);
    OneDigit("5", 5);
    TwoDigits("95");
    TwoDigits("96");
    ValuesOfThree("0", "95", "0");
    ValuesOfThree("0", "96", "0");
    NumericConcat("-rc", "5");
    DigitFreeHasNoNumbers("-rc");
    PiecesOfDigits("5");
  }
}
