/** The safety check and value derivation of scripts/upgrade-apps.py, and its
    agreement with the picker: what the picker recommends against what the bumper
    is willing to write. */
module Bumper {
  import opened Options
  import opened Text
  import opened Tags
  import opened Picker

  // ---------------------------------------------------------- the operations

  /** Takes a template's fixed prefix and suffix off a tag, each only if present. */
  function DeriveNewValue(latest: string, prefix: string, suffix: string): string
  {
    var v := if prefix != "" && prefix <= latest then latest[|prefix|..] else latest;
    if suffix != "" && EndsWith(v, suffix) then v[..|v| - |suffix|] else v
  }

  function Numbers(pieces: seq<Piece>): seq<nat>
  {
    if pieces == [] then []
    else (if pieces[0].Num? then [pieces[0].n] else []) + Numbers(pieces[1..])
  }

  /** Every digit run of s, as numbers. */
  function NumericTuple(s: string): seq<nat>
  {
    Numbers(Pieces(s))
  }

  datatype Unsafe = NumericDowngrade | SchemeChanged

  function IsUnsafeBump(current: string, new': string): Option<Unsafe>
  {
    if Lex(NatLess, NumericTuple(new'), NumericTuple(current)) then Some(NumericDowngrade)
    else if RawTagLead(current) != RawTagLead(new') then Some(SchemeChanged)
    else None
  }

  // ----------------------------------------------------- deriving is a section

  /** The written tag is the picked tag exactly when the template can produce it. */
  lemma DeriveReversesTemplate(latest: string, prefix: string, suffix: string)
    ensures prefix + DeriveNewValue(latest, prefix, suffix) + suffix == latest <==>
      exists v :: latest == prefix + v + suffix
    ensures forall v :: latest == prefix + v + suffix ==> DeriveNewValue(latest, prefix, suffix) == v
  {
    forall v | latest == prefix + v + suffix ensures DeriveNewValue(latest, prefix, suffix) == v {
      var rest := v + suffix;
      assert latest == prefix + rest;
      assert latest[|prefix|..] == rest && latest[..|prefix|] == prefix;
      assert rest[|rest| - |suffix|..] == suffix && rest[..|rest| - |suffix|] == v;
    }
  }

  // ------------------------------------------------- numbers of a semver tag

  lemma {:induction false} NumbersConcat(a: seq<Piece>, b: seq<Piece>)
    ensures Numbers(a + b) == Numbers(a) + Numbers(b)
  {
    if a == [] {
      assert a + b == b;
    } else {
      assert (a + b)[1..] == a[1..] + b && (a + b)[0] == a[0];
      NumbersConcat(a[1..], b);
      Associates(if a[0].Num? then [a[0].n] else [], Numbers(a[1..]), Numbers(b));
    }
  }

  predicate DigitFree(s: string)
  {
    forall i :: 0 <= i < |s| ==> NotDigit(s[i])
  }

  /** Text before the first digit adds no number. */
  lemma LeadHasNoNumbers(s: string)
    ensures NumericTuple(s) == NumericTuple(s[Run(s, NotDigit)..])
  {
    if s != "" && NotDigit(s[0]) {
      var n := Run(s, NotDigit);
      assert FirstRun(s) == n;
      var rest := Pieces(s[n..]);
      assert Pieces(s) == [FirstPiece(s)] + rest && ([FirstPiece(s)] + rest)[1..] == rest;
      assert Numbers(Pieces(s)) == [] + Numbers(rest);
    } else {
      assert s[0..] == s;
    }
  }

  lemma DigitFreeHasNoNumbers(s: string)
    requires DigitFree(s)
    ensures NumericTuple(s) == []
  {
    LeadHasNoNumbers(s);
    RunIs(s, NotDigit, |s|);
    assert s[|s|..] == "" && Pieces("") == [];
  }

  /** Splitting anywhere but inside a digit run splits the numbers. */
  lemma {:induction false} NumericConcat(a: string, b: string)
    requires a != "" && b != "" && IsDigit(a[|a| - 1]) ==> NotDigit(b[0])
    ensures NumericTuple(a + b) == NumericTuple(a) + NumericTuple(b)
    decreases |a|
  {
    if DigitFree(a) {
      DigitFreeFront(a, b);
    } else {
      var tail := PeelNumber(a, b);
      NumericConcat(tail, b);
      NumbersAfterPeel(FirstPiece(a), Pieces(tail), Pieces(b), Pieces(tail + b));
    }
  }

  lemma NumbersAfterPeel(p: Piece, tail: seq<Piece>, b: seq<Piece>, both: seq<Piece>)
    requires Numbers(both) == Numbers(tail) + Numbers(b)
    ensures Numbers([p] + both) == Numbers([p] + tail) + Numbers(b)
  {
    NumbersConcat([p], tail);
    NumbersConcat([p], both);
    Associates(Numbers([p]), Numbers(tail), Numbers(b));
  }

  lemma DigitFreeRun(a: string, b: string)
    requires DigitFree(a)
    ensures Run(a + b, NotDigit) == |a| + Run(b, NotDigit)
    ensures (a + b)[Run(a + b, NotDigit)..] == b[Run(b, NotDigit)..]
  {
    RunIs(a, NotDigit, |a|);
    RunConcat(a, b, NotDigit);
  }

  lemma DigitFreeFront(a: string, b: string)
    requires DigitFree(a)
    ensures NumericTuple(a + b) == NumericTuple(a) + NumericTuple(b)
  {
    DigitFreeRun(a, b);
    LeadHasNoNumbers(a + b);
    LeadHasNoNumbers(b);
    DigitFreeHasNoNumbers(a);
  }

  lemma PeelNumber(a: string, b: string) returns (tail: string)
    requires !DigitFree(a)
    requires b != "" && IsDigit(a[|a| - 1]) ==> NotDigit(b[0])
    ensures |tail| < |a| && (tail != "" ==> tail[|tail| - 1] == a[|a| - 1])
    ensures Pieces(a) == [FirstPiece(a)] + Pieces(tail)
    ensures Pieces(a + b) == [FirstPiece(a)] + Pieces(tail + b)
  {
    var n := FirstRun(a);
    tail := a[n..];
    assert (a + b)[0] == a[0];
    FirstRunWithin(a, b);
    assert (a + b)[..n] == a[..n] && (a + b)[n..] == tail + b;
  }

  lemma FirstRunWithin(a: string, b: string)
    requires !DigitFree(a)
    requires b != "" && IsDigit(a[|a| - 1]) ==> NotDigit(b[0])
    ensures FirstRun(a + b) == FirstRun(a)
  {
    assert (a + b)[0] == a[0];
    if IsDigit(a[0]) {
      RunConcat(a, b, IsDigit);
      assert Run(a, IsDigit) == |a| ==> IsDigit(a[|a| - 1]);
    } else {
      RunConcat(a, b, NotDigit);
    }
  }

  /** The numbers of a text that opens with a core: the core's, then the rest's. */
  lemma {:induction false} CoreNumbers(s: string)
    requires s != "" && IsDigit(s[0])
    ensures NumericTuple(s) == CoreOf(s).nums + NumericTuple(s[CoreOf(s).len..])
    decreases |s|
  {
    var n := Run(s, IsDigit);
    NumbersOfHead(s, n);
    if n + 1 < |s| && s[n] == '.' && IsDigit(s[n + 1]) {
      var rest := s[n + 1..];
      NumbersPastDot(s[n..], rest);
      CoreNumbers(rest);
      CoreAfterDot(s, n);
      Associates([Value(s[..n])], CoreOf(rest).nums, NumericTuple(rest[CoreOf(rest).len..]));
    }
  }

  lemma CoreAfterDot(s: string, n: nat)
    requires s != "" && IsDigit(s[0]) && n == Run(s, IsDigit)
    requires n + 1 < |s| && s[n] == '.' && IsDigit(s[n + 1])
    ensures 0 < n && forall i :: 0 <= i < n ==> IsDigit(s[..n][i])
    ensures CoreOf(s).nums == [Value(s[..n])] + CoreOf(s[n + 1..]).nums
    ensures CoreOf(s).len == n + 1 + CoreOf(s[n + 1..]).len
    ensures s[CoreOf(s).len..] == s[n + 1..][CoreOf(s[n + 1..]).len..]
  {
    RunIsDigits(s, n);
    CoreUnfolds(s, n, s[..n], s[n + 1..]);
    DropDrop(s, n + 1, CoreOf(s[n + 1..]).len);
  }

  lemma RunIsDigits(s: string, n: nat)
    requires s != "" && IsDigit(s[0]) && n == Run(s, IsDigit)
    ensures 0 < n <= |s| && forall i :: 0 <= i < n ==> IsDigit(s[..n][i])
  {
  }

  lemma NumbersOfHead(s: string, n: nat)
    requires s != "" && IsDigit(s[0]) && n == Run(s, IsDigit)
    ensures 0 < n <= |s| && (forall i :: 0 <= i < n ==> IsDigit(s[..n][i]))
    ensures NumericTuple(s) == [Value(s[..n])] + NumericTuple(s[n..])
  {
    var head, tail := s[..n], s[n..];
    assert s == head + tail && IsDigit(head[n - 1]);
    NumericConcat(head, tail);
    PiecesOfDigits(head);
  }

  lemma NumbersPastDot(s: string, rest: string)
    requires s == "." + rest && rest != "" && IsDigit(rest[0])
    ensures NumericTuple(s) == NumericTuple(rest)
  {
    NumericConcat(".", rest);
    DigitFreeHasNoNumbers(".");
  }

  lemma {:induction false} LowerAt(s: string, i: nat)
    requires i < |s|
    ensures |Lower(s)| == |s|
    ensures NotDigit(Lower(s)[i]) ==> NotDigit(s[i])
  {
    LowerLength(s);
    if i > 0 {
      LowerAt(s[1..], i - 1);
    }
  }

  lemma {:induction false} LowerLength(s: string)
    ensures |Lower(s)| == |s|
  {
    if s != "" {
      LowerLength(s[1..]);
    }
  }

  lemma LowerPrefixIsDigitFree(tag: string, p: string)
    requires p <= Lower(tag) && DigitFree(p)
    ensures |p| <= |tag| && DigitFree(tag[..|p|])
  {
    LowerLength(tag);
    forall i | 0 <= i < |p| ensures NotDigit(tag[i]) {
      LowerAt(tag, i);
      assert p[i] == Lower(tag)[i];
    }
  }

  /** Stripping a known prefix removes no digit. */
  lemma StripRemovesNoDigit(tag: string) returns (n: nat)
    ensures n <= |tag| && StripTagPrefix(tag) == tag[n..] && DigitFree(tag[..n])
  {
    var low := Lower(tag);
    LowerLength(tag);
    n := 0;
    if "version-" <= low {
      LowerPrefixIsDigitFree(tag, "version-");
      n := 8;
    } else if "release-" <= low {
      LowerPrefixIsDigitFree(tag, "release-");
      n := 8;
    } else if "release/v" <= low {
      LowerPrefixIsDigitFree(tag, "release/v");
      n := 9;
    } else if "release/" <= low {
      LowerPrefixIsDigitFree(tag, "release/");
      n := 8;
    }
  }

  /** The numbers of the core of a tag. */
  function TagNums(tag: string): seq<nat>
    requires TagShape(tag).Some?
  {
    CoreOf(tag[Run(tag, NotDigit)..]).nums
  }

  /** The parsed tuple and the shape read the same core and the same suffix. */
  lemma ParsesAgree(tag: string)
    requires SemverTuple(tag).Some?
    ensures TagShape(tag).Some? && 2 <= |TagNums(tag)| <= 4
    ensures SemverTuple(tag).value == Version(Pad(TagNums(tag)), SuffixKey(TagShape(tag).value.suffix))
  {
    var n := StripRemovesNoDigit(tag);
    var k := if n < |tag| && tag[n] == 'v' then n + 1 else n;
    assert AfterV(tag[n..]) == tag[k..];
    forall i | 0 <= i < k ensures NotDigit(tag[i]) {
      if i < n {
        assert NotDigit(tag[..n][i]);
      }
    }
    RunIs(tag, NotDigit, k) by {
      assert tag[k..][0] == tag[k];
    }
  }

  /** Every number of a tag: its core, then the numbers of its suffix. */
  lemma TagNumbers(tag: string)
    requires TagShape(tag).Some?
    ensures NumericTuple(tag) == TagNums(tag) + NumericTuple(TagShape(tag).value.suffix)
  {
    var k := Run(tag, NotDigit);
    var lead, rest := tag[..k], tag[k..];
    assert tag == lead + rest;
    NumericConcat(lead, rest);
    DigitFreeHasNoNumbers(lead);
    CoreNumbers(rest);
  }

  // ------------------------------------------------ padded order and list order

  lemma {:induction false} ZerosAreLeast(a: seq<nat>, b: seq<nat>)
    requires |a| == |b| && forall i :: 0 <= i < |b| ==> b[i] == 0
    ensures !Lex(NatLess, a, b)
  {
    if a != [] {
      ZerosAreLeast(a[1..], b[1..]);
    }
  }

  /** Greater once padded with zeros is greater as a list, unless the old list is
      a proper prefix and what follows both tips the balance. */
  lemma {:induction false} PaddedOrder(old_: seq<nat>, new_: seq<nat>, tail: seq<nat>, width: nat)
    requires |old_| <= width && |new_| <= width
    requires Lex(NatLess, Padded(old_, width), Padded(new_, width))
    ensures Lex(NatLess, new_ + tail, old_ + tail) <==>
      old_ < new_ && Lex(NatLess, new_[|old_|..] + tail, tail)
    decreases width
  {
    if new_ == [] {
      ZerosAreLeast(Padded(old_, width), Padded(new_, width));
    } else if old_ == [] {
      assert old_ + tail == tail && new_[0..] == new_;
    } else {
      assert Padded(old_, width)[1..] == Padded(old_[1..], width - 1);
      assert Padded(new_, width)[1..] == Padded(new_[1..], width - 1);
      assert (new_ + tail)[1..] == new_[1..] + tail && (old_ + tail)[1..] == old_[1..] + tail;
      if old_[0] == new_[0] {
        PaddedOrder(old_[1..], new_[1..], tail, width - 1);
        assert |old_| <= |new_| ==> new_[1..][|old_| - 1..] == new_[|old_|..];
        assert old_ == [old_[0]] + old_[1..] && new_ == [new_[0]] + new_[1..];
      }
    }
  }

  // ----------------------------------------------------- picker against bumper

  /** The new tag writes more numbers than the old, and the suffix numbers that
      follow make the longer list the smaller one (1.2-rc5 against 1.2.3-rc5). */
  predicate SuffixNumbersMislead(current: string, new': string)
    requires TagShape(current).Some? && TagShape(new').Some?
  {
    var old_, new_ := TagNums(current), TagNums(new');
    var tail := NumericTuple(TagShape(current).value.suffix);
    old_ < new_ && Lex(NatLess, new_[|old_|..] + tail, tail)
  }

  /** For a tag strictly above current in the same stream, the bumper's verdict. */
  lemma VerdictOnNewer(current: string, new': string)
    requires SemverTuple(current).Some? && SemverTuple(new').Some?
    requires TagShape(current) == TagShape(new')
    requires VersionLess(SemverTuple(current).value, SemverTuple(new').value)
    ensures TagShape(current).Some?
    ensures IsUnsafeBump(current, new') ==
      if SuffixNumbersMislead(current, new') then Some(NumericDowngrade)
      else if RawTagLead(current) != RawTagLead(new') then Some(SchemeChanged)
      else None
  {
    ParsesAgree(current);
    ParsesAgree(new');
    TagNumbers(current);
    TagNumbers(new');
    PieceOrder();
    LexIrreflexive(PieceLess, SemverTuple(current).value.key);
    var old_, new_ := TagNums(current), TagNums(new');
    PaddedOrder(old_, new_, NumericTuple(TagShape(current).value.suffix), 4);
  }

  lemma {:induction false} LexAt(a: seq<nat>, b: seq<nat>, i: nat)
    requires i < |a| && i < |b| && a[..i] == b[..i] && a[i] != b[i]
    ensures Lex(NatLess, a, b) <==> a[i] < b[i]
  {
    if i > 0 {
      assert a[0] == a[..i][0] == b[..i][0] == b[0];
      assert a[1..][..i - 1] == a[..i][1..] && b[1..][..i - 1] == b[..i][1..];
      LexAt(a[1..], b[1..], i - 1);
    }
  }

  /** Across streams, too, the first number that differs decides: a smaller one is
      refused whatever the suffixes and prefixes, a greater one is no downgrade. */
  lemma FirstDifferenceDecides(current: string, new': string, i: nat)
    requires TagShape(current).Some? && TagShape(new').Some?
    requires i < |TagNums(current)| && i < |TagNums(new')|
    requires TagNums(current)[..i] == TagNums(new')[..i] && TagNums(current)[i] != TagNums(new')[i]
    ensures IsUnsafeBump(current, new') == Some(NumericDowngrade) <==> TagNums(new')[i] < TagNums(current)[i]
    ensures IsUnsafeBump(current, new').None? <==>
      TagNums(current)[i] < TagNums(new')[i] && RawTagLead(current) == RawTagLead(new')
  {
    TagNumbers(current);
    TagNumbers(new');
    var old_, new_ := NumericTuple(current), NumericTuple(new');
    assert old_[..i] == TagNums(current)[..i] && new_[..i] == TagNums(new')[..i];
    LexAt(new_, old_, i);
  }

  /** Smaller once padded is smaller as a list, under the same exception. */
  lemma OlderNumbers(old_: seq<nat>, new_: seq<nat>, tail: seq<nat>)
    requires |old_| <= 4 && |new_| <= 4 && Lex(NatLess, Pad(new_), Pad(old_))
    ensures Lex(NatLess, new_ + tail, old_ + tail) <==>
      !(new_ < old_ && Lex(NatLess, old_[|new_|..] + tail, tail))
  {
    PaddedOrder(new_, old_, tail, 4);
    LexTotal(NatLess, old_ + tail, new_ + tail);
    if old_ + tail == new_ + tail {
      assert |old_| == |new_|;
      assert old_ == (old_ + tail)[..|old_|] == new_;
      LexIrreflexive(NatLess, Pad(new_));
      LexIrreflexive(NatLess, new_ + tail);
    } else if Lex(NatLess, old_ + tail, new_ + tail) && Lex(NatLess, new_ + tail, old_ + tail) {
      LexTransitive(NatLess, old_ + tail, new_ + tail, old_ + tail);
      LexIrreflexive(NatLess, old_ + tail);
    }
  }

  /** For a tag strictly below current in the same stream the roles are swapped: it is
      refused as a downgrade, unless misleading suffix numbers make it look newer. */
  lemma VerdictOnOlder(current: string, new': string)
    requires SemverTuple(current).Some? && SemverTuple(new').Some?
    requires TagShape(current) == TagShape(new')
    requires VersionLess(SemverTuple(new').value, SemverTuple(current).value)
    ensures TagShape(current).Some?
    ensures IsUnsafeBump(current, new') ==
      if !SuffixNumbersMislead(new', current) then Some(NumericDowngrade)
      else if RawTagLead(current) != RawTagLead(new') then Some(SchemeChanged)
      else None
  {
    ParsesAgree(current);
    ParsesAgree(new');
    TagNumbers(current);
    TagNumbers(new');
    PieceOrder();
    LexIrreflexive(PieceLess, SemverTuple(current).value.key);
    OlderNumbers(TagNums(current), TagNums(new'), NumericTuple(TagShape(current).value.suffix));
  }

  /** For any tag of the stream that is not below current: same release, or a bump
      the check accepts, exactly when it ties with current or keeps the literal
      lead without misleading suffix numbers. */
  lemma VerdictOnNotBelow(current: string, p: string)
    requires SemverTuple(current).Some? && SemverTuple(p).Some? && TagShape(current) == TagShape(p)
    requires NotBelow(p, current)
    ensures TagShape(current).Some?
    ensures SameRelease(current, p) <==> SemverTuple(p) == SemverTuple(current)
    ensures SemverTuple(p) != SemverTuple(current) ==>
      (IsUnsafeBump(current, p).None? <==>
        RawTagLead(current) == RawTagLead(p) && !SuffixNumbersMislead(current, p))
  {
    ParsesAgree(current);
    VersionOrder();
    if SemverTuple(p) != SemverTuple(current) {
      VerdictOnNewer(current, p);
    }
  }

  /** A listed tag has the picked version and the pin's literal lead. */
  ghost predicate TopListedUnderLead(tags: seq<string>, current: string, top: string)
    requires SemverTuple(current).Some?
  {
    exists t :: InLine(tags, current, t) && SemverTuple(t) == SemverTuple(top) && RawTagLead(t) == RawTagLead(current)
  }

  /** Picker and bumper agree: a pick is the release already pinned, or a bump the
      check accepts, exactly when the top version equals the current one, or it is
      listed under the pin's literal lead and the suffix numbers do not mislead. */
  lemma PickerAndBumperAgree(tags: seq<string>, current: string)
    requires SemverTuple(current).Some? && PickLatest(tags, current).Some?
    ensures TagShape(current).Some? && TagShape(PickLatest(tags, current).value) == TagShape(current)
    ensures
      var p := PickLatest(tags, current).value;
      SameRelease(current, p) || IsUnsafeBump(current, p).None? <==>
        || SemverTuple(p) == SemverTuple(current)
        || (TopListedUnderLead(tags, current, p) && !SuffixNumbersMislead(current, p))
  {
    PickSoundAndComplete(tags, current);
    PickKeepsLead(tags, current);
    VerdictOnNotBelow(current, PickLatest(tags, current).value);
  }

  lemma DigitFreeSuffixNeverMisleads(current: string, new': string)
    requires TagShape(current).Some? && TagShape(new').Some?
    requires DigitFree(TagShape(current).value.suffix)
    ensures !SuffixNumbersMislead(current, new')
  {
    DigitFreeHasNoNumbers(TagShape(current).value.suffix);
  }

  /** With a digit-free suffix the suffix can never mislead. */
  lemma DigitFreeSuffixAgrees(tags: seq<string>, current: string)
    requires SemverTuple(current).Some? && PickLatest(tags, current).Some?
    requires TagShape(current).Some? && DigitFree(TagShape(current).value.suffix)
    ensures
      var p := PickLatest(tags, current).value;
      SameRelease(current, p) || IsUnsafeBump(current, p).None? <==>
        SemverTuple(p) == SemverTuple(current) || TopListedUnderLead(tags, current, p)
  {
    PickerAndBumperAgree(tags, current);
    DigitFreeSuffixNeverMisleads(current, PickLatest(tags, current).value);
  }

  // ---------------------------------------------------------- templated pins

  lemma LeadThroughTemplate(prefix: string, v: string, suffix: string)
    requires DigitFree(prefix) && !DigitFree(v)
    ensures RawTagLead(prefix + v + suffix) == prefix + RawTagLead(v)
  {
    RunIs(prefix, NotDigit, |prefix|);
    RunConcat(prefix, v, NotDigit);
    RunConcat(prefix + v, suffix, NotDigit);
    var n := Run(v, NotDigit);
    assert (prefix + v + suffix)[..|prefix| + n] == prefix + v[..n];
  }

  /** No digit run reaches across. */
  predicate Seam(a: string, b: string)
  {
    a != "" && b != "" && IsDigit(a[|a| - 1]) ==> NotDigit(b[0])
  }

  predicate Seams(prefix: string, v: string, suffix: string)
  {
    Seam(prefix, v) && Seam(prefix + v, suffix)
  }

  lemma NumbersThroughTemplate(prefix: string, v: string, suffix: string)
    requires Seams(prefix, v, suffix)
    ensures NumericTuple(prefix + v + suffix) == NumericTuple(prefix) + NumericTuple(v) + NumericTuple(suffix)
  {
    NumericConcat(prefix + v, suffix);
    NumericConcat(prefix, v);
  }

  lemma {:induction false} LexSuffix(a: seq<nat>, b: seq<nat>, s: seq<nat>)
    requires |a| == |b|
    ensures Lex(NatLess, a + s, b + s) <==> Lex(NatLess, a, b)
  {
    if a == [] {
      assert a + s == s && b + s == s;
      LexIrreflexive(NatLess, s);
    } else {
      assert (a + s)[1..] == a[1..] + s && (b + s)[1..] == b[1..] + s;
      LexSuffix(a[1..], b[1..], s);
    }
  }

  /** Judging the values can stand for judging the tags: the fixed text joins no digit
      runs, a suffix with digits follows as many numbers in both, and a prefix without
      digits is followed by one. */
  predicate Comparable(prefix: string, v: string, w: string, suffix: string)
  {
    && Seams(prefix, v, suffix) && Seams(prefix, w, suffix)
    && (DigitFree(suffix) || |NumericTuple(v)| == |NumericTuple(w)|)
    && (DigitFree(prefix) ==> !DigitFree(v) && !DigitFree(w))
  }

  lemma OrderThroughTemplate(prefix: string, v: string, w: string, suffix: string)
    requires Comparable(prefix, v, w, suffix)
    ensures Lex(NatLess, NumericTuple(prefix + w + suffix), NumericTuple(prefix + v + suffix)) <==>
            Lex(NatLess, NumericTuple(w), NumericTuple(v))
  {
    var p, x, y, s := NumericTuple(prefix), NumericTuple(w), NumericTuple(v), NumericTuple(suffix);
    NumbersThroughTemplate(prefix, v, suffix);
    NumbersThroughTemplate(prefix, w, suffix);
    Associates(p, x, s);
    Associates(p, y, s);
    LexPrefix(NatLess, p, x + s, y + s);
    if DigitFree(suffix) {
      DigitFreeHasNoNumbers(suffix);
      assert x + s == x && y + s == y;
    } else {
      LexSuffix(x, y, s);
    }
  }

  lemma LeadInPrefix(prefix: string, rest: string)
    requires !DigitFree(prefix)
    ensures RawTagLead(prefix + rest) == RawTagLead(prefix)
  {
    RunConcat(prefix, rest, NotDigit);
    assert Run(prefix, NotDigit) < |prefix|;
    assert (prefix + rest)[..Run(prefix, NotDigit)] == prefix[..Run(prefix, NotDigit)];
  }

  lemma LeadsThroughTemplate(prefix: string, v: string, w: string, suffix: string)
    requires Comparable(prefix, v, w, suffix)
    ensures RawTagLead(prefix + v + suffix) == RawTagLead(prefix + w + suffix) <==>
            !DigitFree(prefix) || RawTagLead(v) == RawTagLead(w)
  {
    if DigitFree(prefix) {
      LeadThroughTemplate(prefix, v, suffix);
      LeadThroughTemplate(prefix, w, suffix);
      assert (prefix + RawTagLead(v))[|prefix|..] == RawTagLead(v);
      assert (prefix + RawTagLead(w))[|prefix|..] == RawTagLead(w);
    } else {
      Associates(prefix, v, suffix);
      Associates(prefix, w, suffix);
      LeadInPrefix(prefix, v + suffix);
      LeadInPrefix(prefix, w + suffix);
    }
  }

  /** The verdict on two values against the verdict on the tags they make. */
  lemma VerdictThroughTemplate(prefix: string, v: string, w: string, suffix: string)
    requires Comparable(prefix, v, w, suffix)
    ensures IsUnsafeBump(v, w).None? <==>
      IsUnsafeBump(prefix + v + suffix, prefix + w + suffix).None? && RawTagLead(v) == RawTagLead(w)
    ensures DigitFree(prefix) ==> IsUnsafeBump(v, w) == IsUnsafeBump(prefix + v + suffix, prefix + w + suffix)
  {
    OrderThroughTemplate(prefix, v, w, suffix);
    LeadsThroughTemplate(prefix, v, w, suffix);
  }

  /** The agreement for a pin written through a template such as v${version} or
      ${version}-alpine3, as long as the template can produce the picked tag: the
      derived value is then the one the check judges, and writing it yields the picked
      tag. A prefix with digits hides the values' own leads, which must agree as well. */
  lemma TemplatedPinAgrees(tags: seq<string>, prefix: string, value: string, w: string, suffix: string)
    requires SemverTuple(prefix + value + suffix).Some? && Comparable(prefix, value, w, suffix)
    requires PickLatest(tags, prefix + value + suffix) == Some(prefix + w + suffix)
    ensures
      var current, p := prefix + value + suffix, prefix + w + suffix;
      && DeriveNewValue(p, prefix, suffix) == w
      && TagShape(current).Some? && TagShape(p) == TagShape(current)
      && (SameRelease(current, p) || IsUnsafeBump(value, w).None? <==>
            || SameRelease(current, p)
            || (RawTagLead(value) == RawTagLead(w)
                && (|| SemverTuple(p) == SemverTuple(current)
                    || (TopListedUnderLead(tags, current, p) && !SuffixNumbersMislead(current, p)))))
  {
    var current, p := prefix + value + suffix, prefix + w + suffix;
    DeriveReversesTemplate(p, prefix, suffix);
    PickerAndBumperAgree(tags, current);
    PickSoundAndComplete(tags, current);
    VerdictThroughTemplate(prefix, value, w, suffix);
  }

  lemma ParsedTagHasDigit(prefix: string, v: string, suffix: string)
    requires DigitFree(prefix) && DigitFree(suffix) && SemverTuple(prefix + v + suffix).Some?
    ensures !DigitFree(v)
  {
    if DigitFree(v) {
      RunIs(prefix + v + suffix, NotDigit, |prefix + v + suffix|);
    }
    ParsesAgree(prefix + v + suffix);
  }

  /** In particular for a template without digits, whatever the values, and then the
      tags' leads are enough. */
  lemma DigitFreeTemplateAgrees(tags: seq<string>, prefix: string, value: string, w: string, suffix: string)
    requires SemverTuple(prefix + value + suffix).Some? && DigitFree(prefix) && DigitFree(suffix)
    requires PickLatest(tags, prefix + value + suffix) == Some(prefix + w + suffix)
    ensures
      var current, p := prefix + value + suffix, prefix + w + suffix;
      && DeriveNewValue(p, prefix, suffix) == w
      && TagShape(current).Some? && TagShape(p) == TagShape(current)
      && (SameRelease(current, p) || IsUnsafeBump(value, w).None? <==>
            || SemverTuple(p) == SemverTuple(current)
            || (TopListedUnderLead(tags, current, p) && !SuffixNumbersMislead(current, p)))
  {
    var current, p := prefix + value + suffix, prefix + w + suffix;
    PickSoundAndComplete(tags, current);
    ParsedTagHasDigit(prefix, value, suffix);
    ParsedTagHasDigit(prefix, w, suffix);
    TemplatedPinAgrees(tags, prefix, value, w, suffix);
    PickerAndBumperAgree(tags, current);
    VerdictThroughTemplate(prefix, value, w, suffix);
  }
}
