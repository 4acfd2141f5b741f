/** Which texts the two tag patterns accept, and what they read from them. */
module TagGrammar {
  import opened Options
  import opened Text
  import opened Tags
  import opened Bumper
  import opened PrintedTags

  // ------------------------------------------------------------- number cores

  /** A core ends where neither a digit nor a dot and a digit follow. */
  predicate CoreEnds(rest: string)
  {
    (rest == "" || !IsDigit(rest[0])) && !(|rest| > 1 && rest[0] == '.' && IsDigit(rest[1]))
  }

  lemma CoreOfNumber(number: string, rest: string)
    requires Digits(number) && CoreEnds(rest)
    ensures number + rest != "" && IsDigit((number + rest)[0])
    ensures CoreOf(number + rest) == Core([Value(number)], |number|)
  {
    var s, n := number + rest, |number|;
    NumberEnds(number, rest, s);
    assert n + 1 < |s| ==> s[n] == rest[0] && s[n + 1] == rest[1];
  }

  lemma CoreStep(s: string, n: nat, number: string, after: string)
    requires s != "" && IsDigit(s[0]) && n == Run(s, IsDigit)
    requires n + 1 < |s| && s[n] == '.' && IsDigit(s[n + 1]) && s[..n] == number && s[n + 1..] == after
    ensures CoreOf(s) == Core([Value(number)] + CoreOf(after).nums, n + 1 + CoreOf(after).len)
  {
    CoreAfterDot(s, n);
  }

  lemma DottedMore(number: string, rest: seq<string>, parts: seq<string>, tail: string)
    requires Digits(number) && rest != [] && AllDigits(rest) && parts == [number] + rest && AllDigits(parts)
    ensures parts[1..] == rest && Values(parts) == [Value(number)] + Values(rest)
    ensures |Dotted(parts)| == |number| + 1 + |Dotted(rest)|
    ensures number + ("." + (Dotted(rest) + tail)) == Dotted(parts) + tail
  {
    assert parts[1..] == rest;
    DottedSplits(parts, tail);
  }

  lemma DotBetween(number: string, after: string, s: string)
    requires s == number + ("." + after) && after != ""
    ensures |number| + 1 < |s| && s[|number|] == '.' && s[|number| + 1] == after[0] && s[|number| + 1..] == after
  {
    assert ("." + after)[1..] == after;
  }

  lemma CoreOfMore(number: string, rest: seq<string>, parts: seq<string>, tail: string, s: string)
    requires Digits(number) && rest != [] && AllDigits(rest) && parts == [number] + rest && AllDigits(parts)
    requires Dotted(rest) != "" && IsDigit((Dotted(rest) + tail)[0])
    requires CoreOf(Dotted(rest) + tail) == Core(Values(rest), |Dotted(rest)|)
    requires s == number + ("." + (Dotted(rest) + tail))
    ensures s != "" && IsDigit(s[0]) && CoreOf(s) == Core(Values(parts), |Dotted(parts)|)
  {
    var after := Dotted(rest) + tail;
    NumberEnds(number, "." + after, s);
    DotBetween(number, after, s);
    CoreStep(s, |number|, number, after);
    DottedMore(number, rest, parts, tail);
  }

  /** Reading a printed core. */
  lemma {:induction false} CoreOfForm(parts: seq<string>, rest: string)
    requires parts != [] && AllDigits(parts) && CoreEnds(rest)
    ensures Dotted(parts) != "" && IsDigit((Dotted(parts) + rest)[0])
    ensures CoreOf(Dotted(parts) + rest) == Core(Values(parts), |Dotted(parts)|)
  {
    assert Digits(parts[0]);
    if |parts| == 1 {
      CoreOfNumber(parts[0], rest);
      assert Values(parts) == [Value(parts[0])] + Values(parts[1..]);
    } else {
      CoreOfForm(parts[1..], rest);
      assert parts == [parts[0]] + parts[1..];
      DottedMore(parts[0], parts[1..], parts, rest);
      CoreOfMore(parts[0], parts[1..], parts, rest, Dotted(parts) + rest);
    }
  }

  /** The text starts with the core these parts print, and tail follows it. */
  ghost predicate ReadsAs(s: string, parts: seq<string>, tail: string)
  {
    && parts != [] && AllDigits(parts) && s != "" && IsDigit(s[0])
    && CoreOf(s) == Core(Values(parts), |Dotted(parts)|) && s == Dotted(parts) + tail && CoreEnds(tail)
  }

  /** Every core is a printed one. */
  lemma {:induction false} CoreIsDotted(s: string) returns (parts: seq<string>, tail: string)
    requires s != "" && IsDigit(s[0])
    ensures ReadsAs(s, parts, tail)
    decreases |s|
  {
    var n := Run(s, IsDigit);
    var number := s[..n];
    if n + 1 < |s| && s[n] == '.' && IsDigit(s[n + 1]) {
      var rest: seq<string>;
      rest, tail := CoreIsDotted(s[n + 1..]);
      parts := [number] + rest;
      ReadMore(s, n, number, s[n + 1..], rest, tail);
    } else {
      tail := s[n..];
      parts := [number];
      ReadLast(s, n, number, tail);
    }
  }

  lemma ReadLast(s: string, n: nat, number: string, tail: string)
    requires s != "" && IsDigit(s[0]) && n == Run(s, IsDigit) && s[..n] == number && s[n..] == tail
    requires !(n + 1 < |s| && s[n] == '.' && IsDigit(s[n + 1]))
    ensures ReadsAs(s, [number], tail)
  {
    assert Digits(number);
    assert Values([number]) == [Value(number)] + Values([]);
  }

  lemma MoreDigits(number: string, rest: seq<string>)
    requires Digits(number) && AllDigits(rest)
    ensures AllDigits([number] + rest)
  {
  }

  lemma ReadMore(s: string, n: nat, number: string, after: string, rest: seq<string>, tail: string)
    requires s != "" && IsDigit(s[0]) && n == Run(s, IsDigit) && s[..n] == number
    requires n + 1 < |s| && s[n] == '.' && IsDigit(s[n + 1]) && s[n + 1..] == after
    requires ReadsAs(after, rest, tail)
    ensures ReadsAs(s, [number] + rest, tail)
  {
    assert Digits(number);
    MoreDigits(number, rest);
    CoreStep(s, n, number, after);
    AroundDot(s, n);
    DottedMore(number, rest, [number] + rest, tail);
  }

  lemma AroundDot(s: string, n: nat)
    requires n < |s| && s[n] == '.'
    ensures s == s[..n] + ("." + s[n + 1..])
  {
  }

  // ------------------------------------------------------------------ shapes

  /** A tag's parts: literal lead, numbers and suffix. */
  ghost predicate Cut(tag: string, lead: string, parts: seq<string>, suffix: string)
  {
    && parts != [] && AllDigits(parts) && DigitFree(lead) && CoreEnds(suffix)
    && tag == lead + (Dotted(parts) + suffix)
  }

  /** What the shape pattern reads from a tag's parts. */
  lemma ShapeOfCut(tag: string, lead: string, parts: seq<string>, suffix: string)
    requires Cut(tag, lead, parts, suffix)
    ensures TagShape(tag) == Some(Shape(NormaliseLead(lead), suffix))
    ensures RawTagLead(tag) == lead && TagNums(tag) == Values(parts)
  {
    var body := Dotted(parts) + suffix;
    CoreOfForm(parts, suffix);
    assert tag[|lead|..] == body && tag[..|lead|] == lead && tag[|lead|] == body[0];
    RunIs(tag, NotDigit, |lead|) by {
      forall i | 0 <= i < |lead| ensures NotDigit(tag[i]) {
        assert tag[i] == lead[i];
      }
    }
    assert body[|Dotted(parts)|..] == suffix;
  }

  /** Every tag with a digit has such parts, and no other has a shape. */
  lemma ShapeExactly(tag: string) returns (lead: string, parts: seq<string>, suffix: string)
    ensures TagShape(tag).Some? <==> !DigitFree(tag)
    ensures TagShape(tag).Some? ==> Cut(tag, lead, parts, suffix)
  {
    var n := Run(tag, NotDigit);
    lead, parts, suffix := tag[..n], [], "";
    if n < |tag| {
      var body := tag[n..];
      parts, suffix := CoreIsDotted(body);
      assert tag == lead + body;
    }
  }

  // ---------------------------------------------------------------- versions

  /** The leads a version tag may have, in any letter case. */
  ghost predicate KnownLead(lead: string)
  {
    Lower(lead) in {"", "version-", "release-", "release/v", "release/"}
  }

  /** known lead, optional v, two to four numbers, and nothing or a suffix that opens with
      - or + and is more than that sign. */
  ghost predicate IsVersionTag(tag: string, lead: string, v: string, parts: seq<string>, suffix: string)
  {
    && KnownLead(lead) && (v == "" || v == "v") && 2 <= |parts| <= 4 && AllDigits(parts)
    && (suffix == "" || (|suffix| >= 2 && (suffix[0] == '-' || suffix[0] == '+')))
    && tag == lead + (v + (Dotted(parts) + suffix))
  }

  lemma {:induction false} LowerConcat(a: string, b: string)
    ensures Lower(a + b) == Lower(a) + Lower(b)
  {
    if a == "" {
      assert a + b == b;
    } else {
      assert (a + b)[1..] == a[1..] + b;
      LowerConcat(a[1..], b);
    }
  }

  lemma PrefixIsFirst(p: string, a: string, b: string)
    requires p <= a + b && |p| == |a|
    ensures p == a
  {
  }

  lemma LowerFront(tag: string, a: string, b: string, p: string)
    requires tag == a + b && p <= Lower(tag) && |p| == |a|
    ensures Lower(a) == p
  {
    LowerConcat(a, b);
    LowerLength(a);
    PrefixIsFirst(p, Lower(a), Lower(b));
  }

  lemma FrontOf(s: string, k: nat)
    requires k <= |s|
    ensures s == s[..k] + s[k..] && |s[..k]| == k
  {
  }

  /** What stripping takes off is a known lead. */
  lemma StrippedIsKnown(tag: string) returns (lead: string)
    ensures KnownLead(lead) && tag == lead + StripTagPrefix(tag)
  {
    LowerLength(tag);
    var low := Lower(tag);
    lead := "";
    if "version-" <= low {
      FrontOf(tag, 8);
      lead := tag[..8];
      LowerFront(tag, lead, tag[8..], "version-");
    } else if "release-" <= low {
      FrontOf(tag, 8);
      lead := tag[..8];
      LowerFront(tag, lead, tag[8..], "release-");
    } else if "release/v" <= low {
      FrontOf(tag, 9);
      lead := tag[..9];
      LowerFront(tag, lead, tag[9..], "release/v");
    } else if "release/" <= low {
      FrontOf(tag, 8);
      lead := tag[..8];
      LowerFront(tag, lead, tag[8..], "release/");
    }
    assert Lower("") == "";
  }

  lemma LowerOfBody(v: string, body: string)
    requires (v == "" || v == "v") && body != "" && IsDigit(body[0])
    ensures |Lower(v + body)| == |v + body| && Lower(v + body)[|v|] == body[0]
    ensures v == "v" ==> Lower(v + body)[0] == 'v'
  {
    LowerLength(v + body);
    assert (v + body)[|v|] == body[0];
    if v == "v" {
      assert (v + body)[1..] == body;
    }
  }

  /** Which prefix is stripped. */
  lemma Strips(tag: string, low: string)
    requires low == Lower(tag)
    ensures |low| == |tag|
    ensures StripTagPrefix(tag) ==
      if "version-" <= low then tag[8..]
      else if "release-" <= low then tag[8..]
      else if "release/v" <= low then tag[9..]
      else if "release/" <= low then tag[8..]
      else tag
  {
    LowerLength(tag);
  }

  lemma NoEarlierPrefix(low: string)
    requires "release/" <= low
    ensures !("version-" <= low) && !("release-" <= low)
  {
    NotPrefix("version-", low, 0);
    NotPrefix("release-", low, 7);
  }

  lemma StripReleaseV(tag: string, low: string, v: string, body: string, lead: string)
    requires low == Lower(tag) == Lower(lead) + Lower(v + body) && tag == lead + (v + body)
    requires Lower(lead) == "release/v" && (v == "" || v == "v") && body != "" && IsDigit(body[0])
    ensures AfterV(StripTagPrefix(tag)) == body
  {
    LowerLength(lead);
    assert (v + body)[|v|..] == body && "release/" <= low;
    NoEarlierPrefix(low);
    Strips(tag, low);
    assert tag[9..] == v + body;
  }

  lemma StripRelease(tag: string, low: string, body: string, lead: string)
    requires low == Lower(tag) == Lower(lead) + Lower(body) && tag == lead + body
    requires Lower(lead) == "release/" && body != "" && IsDigit(body[0])
    ensures AfterV(StripTagPrefix(tag)) == body
  {
    LowerOfBody("", body);
    assert "" + body == body;
    LowerLength(lead);
    NoEarlierPrefix(low);
    assert tag[8..] == body && low[8] == Lower(body)[0];
    NotPrefix("release/v", low, 8);
    Strips(tag, low);
  }

  /** The lead release/ and a v are the lead release/v. */
  lemma ReleaseAndV(lead: string)
    requires Lower(lead) == "release/"
    ensures Lower(lead + "v") == "release/v"
  {
    LowerConcat(lead, "v");
    assert "v"[1..] == "";
    assert Lower("v") == "v";
  }

  lemma StripDashed(tag: string, low: string, lead: string, rest: string)
    requires low == Lower(tag) == Lower(lead) + Lower(rest) && tag == lead + rest
    requires Lower(lead) == "version-" || Lower(lead) == "release-"
    ensures StripTagPrefix(tag) == rest
  {
    LowerLength(lead);
    Strips(tag, low);
    assert tag[8..] == rest;
    if Lower(lead) == "release-" {
      NotPrefix("version-", low, 0);
    }
  }

  lemma StripReleaseAny(tag: string, low: string, lead: string, v: string, body: string)
    requires low == Lower(tag) == Lower(lead) + Lower(v + body) && tag == lead + (v + body)
    requires Lower(lead) == "release/" && (v == "" || v == "v") && body != "" && IsDigit(body[0])
    ensures AfterV(StripTagPrefix(tag)) == body
  {
    if v == "v" {
      ReleaseAndV(lead);
      assert "" + body == body;
      Associates(lead, v, body);
      LowerConcat(lead + v, body);
      StripReleaseV(tag, low, "", body, lead + v);
    } else {
      assert v + body == body;
      StripRelease(tag, low, body, lead);
    }
  }

  /** Stripping a tag whose lead is known and whose body starts with a digit. */
  lemma StripKnown(tag: string, lead: string, v: string, body: string)
    requires KnownLead(lead) && (v == "" || v == "v") && body != "" && IsDigit(body[0])
    requires tag == lead + (v + body)
    ensures AfterV(StripTagPrefix(tag)) == body
  {
    var low := Lower(tag);
    LowerConcat(lead, v + body);
    assert (v + body)[|v|..] == body;
    if Lower(lead) == "" {
      LowerLength(lead);
      assert tag == v + body && tag[|v|] == body[0];
      NoKnownPrefix(tag, |v|);
    } else if Lower(lead) == "release/v" {
      StripReleaseV(tag, low, v, body, lead);
    } else if Lower(lead) == "release/" {
      StripReleaseAny(tag, low, lead, v, body);
    } else {
      StripDashed(tag, low, lead, v + body);
    }
  }

  lemma VersionOfForm(tag: string, lead: string, v: string, parts: seq<string>, suffix: string)
    requires IsVersionTag(tag, lead, v, parts, suffix)
    ensures SemverTuple(tag) == Some(Version(Pad(Values(parts)), SuffixKey(suffix)))
  {
    var body := Dotted(parts) + suffix;
    CoreOfForm(parts, suffix);
    StripKnown(tag, lead, v, body);
    assert body[|Dotted(parts)|..] == suffix;
    SemverOfBody(tag, body, Core(Values(parts), |Dotted(parts)|));
  }

  /** What the version pattern asks of the text behind prefix and v. */
  lemma BodyOfVersion(tag: string, body: string)
    requires SemverTuple(tag).Some? && body == AfterV(StripTagPrefix(tag))
    ensures body != "" && IsDigit(body[0]) && 2 <= |CoreOf(body).nums| <= 4
    ensures
      var suffix := body[CoreOf(body).len..];
      suffix == "" || (|suffix| >= 2 && (suffix[0] == '-' || suffix[0] == '+'))
  {
  }

  lemma VBefore(stripped: string) returns (v: string)
    ensures (v == "" || v == "v") && stripped == v + AfterV(stripped)
  {
    v := if stripped != "" && stripped[0] == 'v' then "v" else "";
  }

  lemma FormOfVersion(tag: string) returns (lead: string, v: string, parts: seq<string>, suffix: string)
    requires SemverTuple(tag).Some?
    ensures IsVersionTag(tag, lead, v, parts, suffix)
  {
    var body := AfterV(StripTagPrefix(tag));
    lead := StrippedIsKnown(tag);
    v := VBefore(StripTagPrefix(tag));
    BodyOfVersion(tag, body);
    parts, suffix := CoreIsDotted(body);
    assert body[CoreOf(body).len..] == suffix;
  }

  /** A tag is a version exactly when it has that form; its version is then its numbers,
      padded with zeros, and the key of its suffix. */
  lemma VersionExactly(tag: string, version: Version)
    ensures SemverTuple(tag) == Some(version) <==>
      exists lead, v, parts, suffix ::
        IsVersionTag(tag, lead, v, parts, suffix) && version == Version(Pad(Values(parts)), SuffixKey(suffix))
  {
    if SemverTuple(tag) == Some(version) {
      var lead, v, parts, suffix := FormOfVersion(tag);
      VersionOfForm(tag, lead, v, parts, suffix);
      assert IsVersionTag(tag, lead, v, parts, suffix) && version == Version(Pad(Values(parts)), SuffixKey(suffix));
    }
    if lead, v, parts, suffix :|
      IsVersionTag(tag, lead, v, parts, suffix) && version == Version(Pad(Values(parts)), SuffixKey(suffix)) {
      VersionOfForm(tag, lead, v, parts, suffix);
    }
  }
}
