/** Version tags: their numbers, their stream shape and their order
    (web-platform/backend/resolvers/app_versions.py). */
module Tags {
  import opened Options
  import opened Text

  // ------------------------------------------------------------ number cores

  /** A dotted run of numbers and how many characters it spans. */
  datatype Core = Core(nums: seq<nat>, len: nat)

  /** The longest \d+(\.\d+)* at the start of s. */
  function CoreOf(s: string): (c: Core)
    requires s != "" && IsDigit(s[0])
    ensures 0 < c.len <= |s| && |c.nums| > 0
    ensures c.len < |s| ==> NotDigit(s[c.len])
  {
    var n := Run(s, IsDigit);
    if n + 1 < |s| && s[n] == '.' && IsDigit(s[n + 1]) then
      var rest := CoreOf(s[n + 1..]);
      Core([Value(s[..n])] + rest.nums, n + 1 + rest.len)
    else Core([Value(s[..n])], n)
  }

  lemma CoreUnfolds(s: string, n: nat, head: string, tail: string)
    requires s != "" && IsDigit(s[0]) && n == Run(s, IsDigit)
    requires n + 1 < |s| && s[n] == '.' && IsDigit(s[n + 1]) && head == s[..n] && tail == s[n + 1..]
    ensures tail != "" && IsDigit(tail[0])
    ensures CoreOf(s) == Core([Value(head)] + CoreOf(tail).nums, n + 1 + CoreOf(tail).len)
  {
  }

  // ------------------------------------------------------------ suffix keys

  /** One element of the sort key of a suffix; Plain stands for the empty suffix. */
  datatype Piece = Num(n: nat) | Txt(s: string) | Plain

  function PieceRank(p: Piece): nat
  {
    match p
    case Num(_) => 0
    case Txt(_) => 1
    case Plain => 9
  }

  predicate CharLess(a: char, b: char) { a < b }

  predicate NatLess(a: nat, b: nat) { a < b }

  predicate PieceLess(a: Piece, b: Piece)
  {
    if PieceRank(a) != PieceRank(b) then PieceRank(a) < PieceRank(b)
    else if a.Num? then a.n < b.n
    else if a.Txt? then Lex(CharLess, a.s, b.s)
    else false
  }

  /** The digit and non-digit runs of s, in order. */
  function Pieces(s: string): seq<Piece>
    decreases |s|
  {
    if s == "" then [] else [FirstPiece(s)] + Pieces(s[FirstRun(s)..])
  }

  function FirstRun(s: string): (n: nat)
    requires s != ""
    ensures 0 < n <= |s|
  {
    Run(s, if IsDigit(s[0]) then IsDigit else NotDigit)
  }

  function FirstPiece(s: string): Piece
    requires s != ""
  {
    var n := FirstRun(s);
    if IsDigit(s[0]) then Num(Value(s[..n])) else Txt(s[..n])
  }

  function SuffixKey(suffix: string): seq<Piece>
  {
    if suffix == "" then [Plain] else Pieces(suffix)
  }

  predicate KeyLess(a: seq<Piece>, b: seq<Piece>)
  {
    Lex(PieceLess, a, b)
  }

  // ------------------------------------------------------------ tags

  /** (major, minor, patch, fourth) and the key of the suffix. */
  datatype Version = Version(core: seq<nat>, key: seq<Piece>)

  predicate VersionLess(a: Version, b: Version)
  {
    Lex(NatLess, a.core, b.core) || (a.core == b.core && KeyLess(a.key, b.key))
  }

  function Lower(s: string): string
  {
    if s == "" then ""
    else [if 'A' <= s[0] <= 'Z' then (s[0] as int + 32) as char else s[0]] + Lower(s[1..])
  }

  /** Drops a known literal prefix, whatever its case. */
  function StripTagPrefix(tag: string): string
  {
    var low := Lower(tag);
    if |tag| >= 8 && "version-" <= low then tag[8..]
    else if |tag| >= 8 && "release-" <= low then tag[8..]
    else if |tag| >= 9 && "release/v" <= low then tag[9..]
    else if |tag| >= 8 && "release/" <= low then tag[8..]
    else tag
  }

  function Pad(nums: seq<nat>): seq<nat>
    requires |nums| <= 4
  {
    Padded(nums, 4)
  }

  /** The text after an optional v that the number core starts with. */
  function AfterV(s: string): string
  {
    if s != "" && s[0] == 'v' then s[1..] else s
  }

  /** v?N.N(.N)?(.N)?([-+].+)? : two to four numbers, then nothing or a suffix
      that opens with - or + and is not just that sign. */
  function SemverTuple(tag: string): (v: Option<Version>)
    ensures v.Some? ==> |v.value.core| == 4
  {
    var s := AfterV(StripTagPrefix(tag));
    if s == "" || NotDigit(s[0]) then None
    else
      var c := CoreOf(s);
      var suffix := s[c.len..];
      if !(2 <= |c.nums| <= 4) then None
      else if suffix == "" || (|suffix| >= 2 && (suffix[0] == '-' || suffix[0] == '+'))
      then Some(Version(Pad(c.nums), SuffixKey(suffix)))
      else None
  }

  /** The literal text before the first digit. */
  function RawTagLead(tag: string): string
  {
    tag[..Run(tag, NotDigit)]
  }

  /** Drops one v that starts the text or follows - _ or /. */
  function NormaliseLead(lead: string): string
  {
    var n := |lead|;
    if n > 0 && lead[n - 1] == 'v' && (n == 1 || lead[n - 2] in "-_/") then lead[..n - 1] else lead
  }

  datatype Shape = Shape(lead: string, suffix: string)

  function TagShape(tag: string): Option<Shape>
  {
    var n := Run(tag, NotDigit);
    if n == |tag| then None
    else Some(Shape(NormaliseLead(tag[..n]), tag[n..][CoreOf(tag[n..]).len..]))
  }

  predicate SameRelease(current: string, latest: string)
  {
    var cs, ls := TagShape(current), TagShape(latest);
    if cs.None? || ls.None? || cs != ls then false
    else
      var ct, lt := SemverTuple(current), SemverTuple(latest);
      if ct.None? || lt.None? then current == latest else ct == lt
  }

  // ------------------------------------------------------------ the order laws

  lemma PieceOrder()
    ensures StrictTotal(PieceLess)
  {
    assert StrictTotal(CharLess);
    LexIsStrictTotal(CharLess);
    var strLess := (a: string, b: string) => Lex(CharLess, a, b);
    assert StrictTotal(strLess);
    forall x, y, z | PieceLess(x, y) && PieceLess(y, z) ensures PieceLess(x, z) {
      if x.Txt? && y.Txt? && z.Txt? {
        assert strLess(x.s, y.s) && strLess(y.s, z.s);
        assert strLess(x.s, z.s);
      }
    }
    forall x, y ensures PieceLess(x, y) || x == y || PieceLess(y, x) {
      if x.Txt? && y.Txt? {
        assert strLess(x.s, y.s) || x.s == y.s || strLess(y.s, x.s);
      }
    }
    forall x ensures !PieceLess(x, x) {
      if x.Txt? {
        assert !strLess(x.s, x.s);
      }
    }
  }

  /** The sort key of a tag is strictly and totally ordered, so tags themselves
      form a total preorder: two tags tie exactly when their keys are equal. */
  lemma VersionOrder()
    ensures StrictTotal(VersionLess)
  {
    PieceOrder();
    LexIsStrictTotal(PieceLess);
    assert StrictTotal(NatLess);
    LexIsStrictTotal(NatLess);
    var keyLess := (a: seq<Piece>, b: seq<Piece>) => Lex(PieceLess, a, b);
    var numLess := (a: seq<nat>, b: seq<nat>) => Lex(NatLess, a, b);
    assert StrictTotal(keyLess) && StrictTotal(numLess);
    forall x ensures !VersionLess(x, x) {
      assert !keyLess(x.key, x.key) && !numLess(x.core, x.core);
    }
    forall x, y, z | VersionLess(x, y) && VersionLess(y, z) ensures VersionLess(x, z) {
      assert numLess(x.core, y.core) && numLess(y.core, z.core) ==> numLess(x.core, z.core);
      assert keyLess(x.key, y.key) && keyLess(y.key, z.key) ==> keyLess(x.key, z.key);
    }
    forall x, y ensures VersionLess(x, y) || x == y || VersionLess(y, x) {
      assert numLess(x.core, y.core) || x.core == y.core || numLess(y.core, x.core);
      assert keyLess(x.key, y.key) || x.key == y.key || keyLess(y.key, x.key);
    }
  }

  /** A plain release is above every suffixed tag of the same numbers. */
  lemma PlainAboveSuffixed(core: seq<nat>, suffix: string)
    requires suffix != ""
    ensures VersionLess(Version(core, SuffixKey(suffix)), Version(core, SuffixKey("")))
  {
  }

  // ------------------------------------------------------------ numbered builds

  lemma RunStopsAtSeam(a: string, b: string, p: char -> bool)
    requires a != "" && b != "" && (p(a[|a| - 1]) ==> !p(b[0]))
    ensures Run(a + b, p) == Run(a, p)
  {
    RunConcat(a, b, p);
    if Run(a, p) == |a| {
      assert p(a[|a| - 1]);
    }
  }

  lemma FirstRunStopsAtSeam(a: string, b: string)
    requires a != "" && b != "" && IsDigit(a[|a| - 1]) != IsDigit(b[0])
    ensures FirstRun(a + b) == FirstRun(a)
  {
    assert (a + b)[0] == a[0];
    if IsDigit(a[0]) {
      RunStopsAtSeam(a, b, IsDigit);
    } else {
      RunStopsAtSeam(a, b, NotDigit);
    }
  }

  lemma FirstPieceStopsAtSeam(a: string, b: string)
    requires a != "" && b != "" && IsDigit(a[|a| - 1]) != IsDigit(b[0])
    ensures FirstRun(a + b) == FirstRun(a) && FirstPiece(a + b) == FirstPiece(a)
    ensures (a + b)[FirstRun(a)..] == a[FirstRun(a)..] + b
  {
    FirstRunStopsAtSeam(a, b);
    var n := FirstRun(a);
    assert (a + b)[0] == a[0];
    assert (a + b)[..n] == a[..n];
  }

  /** A seam between a non-digit and a digit never splits or joins a run. */
  lemma {:induction false} PiecesConcat(a: string, b: string)
    requires a != "" && b != "" ==> IsDigit(a[|a| - 1]) != IsDigit(b[0])
    ensures Pieces(a + b) == Pieces(a) + Pieces(b)
    decreases |a|
  {
    if a == "" {
      assert a + b == b;
    } else if b == "" {
      assert a + b == a;
    } else {
      var tail := PeelFirstPiece(a, b);
      PiecesConcat(tail, b);
      Associates([FirstPiece(a)], Pieces(tail), Pieces(b));
    }
  }

  lemma PeelFirstPiece(a: string, b: string) returns (tail: string)
    requires a != "" && b != "" && IsDigit(a[|a| - 1]) != IsDigit(b[0])
    ensures |tail| < |a| && (tail != "" ==> tail[|tail| - 1] == a[|a| - 1])
    ensures Pieces(a) == [FirstPiece(a)] + Pieces(tail)
    ensures Pieces(a + b) == [FirstPiece(a)] + Pieces(tail + b)
  {
    FirstPieceStopsAtSeam(a, b);
    tail := a[FirstRun(a)..];
  }

  lemma PiecesOfDigits(digits: string)
    requires digits != "" && forall i :: 0 <= i < |digits| ==> IsDigit(digits[i])
    ensures Pieces(digits) == [Num(Value(digits))]
  {
    RunIs(digits, IsDigit, |digits|);
    assert digits[..|digits|] == digits && digits[|digits|..] == "";
  }

  /** Numbered builds sort by number: with the same stem, not ending in a digit,
      the smaller number comes first whatever follows the numbers. */
  lemma NumberedBuildsSortNumerically(stem: string, m: string, n: string, s: string, t: string)
    requires stem != "" && NotDigit(stem[|stem| - 1])
    requires m != "" && forall i :: 0 <= i < |m| ==> IsDigit(m[i])
    requires n != "" && forall i :: 0 <= i < |n| ==> IsDigit(n[i])
    requires (s != "" ==> NotDigit(s[0])) && (t != "" ==> NotDigit(t[0]))
    requires Value(m) < Value(n)
    ensures KeyLess(SuffixKey(stem + m + s), SuffixKey(stem + n + t))
  {
    PieceOrder();
    NumberedPieces(stem, m, s);
    NumberedPieces(stem, n, t);
    LexPrefix(PieceLess, Pieces(stem), [Num(Value(m))] + Pieces(s), [Num(Value(n))] + Pieces(t));
  }

  /** One text is before another: a proper beginning of it, or smaller in the first
      character that differs. */
  ghost predicate TextBefore(x: string, y: string)
  {
    exists i :: TextDiffers(x, y, i)
  }

  predicate TextDiffers(x: string, y: string, i: nat)
  {
    i <= |x| && i < |y| && x[..i] == y[..i] && (i == |x| || x[i] < y[i])
  }

  lemma {:induction false} TextLess(x: string, y: string, i: nat)
    requires TextDiffers(x, y, i)
    ensures Lex(CharLess, x, y)
  {
    if i > 0 {
      assert x[0] == x[..i][0] == y[..i][0] == y[0];
      assert x[1..][..i - 1] == x[..i][1..] && y[1..][..i - 1] == y[..i][1..];
      TextLess(x[1..], y[1..], i - 1);
    }
  }

  lemma PiecesOfText(text: string)
    requires text != "" && forall i :: 0 <= i < |text| ==> NotDigit(text[i])
    ensures Pieces(text) == [Txt(text)]
  {
    RunIs(text, NotDigit, |text|);
    assert text[..|text|] == text && text[|text|..] == "";
  }

  lemma TextAndRest(text: string, rest: string)
    requires text != "" && forall i :: 0 <= i < |text| ==> NotDigit(text[i])
    requires rest != "" ==> IsDigit(rest[0])
    ensures Pieces(text + rest) == [Txt(text)] + Pieces(rest)
  {
    assert NotDigit(text[|text| - 1]);
    PiecesConcat(text, rest);
    PiecesOfText(text);
  }

  lemma TextPieces(stem: string, text: string, rest: string)
    requires stem != "" ==> IsDigit(stem[|stem| - 1])
    requires text != "" && forall i :: 0 <= i < |text| ==> NotDigit(text[i])
    requires rest != "" ==> IsDigit(rest[0])
    ensures Pieces(stem + text + rest) == Pieces(stem) + ([Txt(text)] + Pieces(rest))
  {
    var tail := text + rest;
    Associates(stem, text, rest);
    assert tail[0] == text[0] && NotDigit(text[0]);
    PiecesConcat(stem, tail);
    TextAndRest(text, rest);
  }

  /** Where two suffixes first differ in a run of text, the text decides: -alpha before
      -beta, whatever follows. */
  lemma TextRunsSortAsText(stem: string, x: string, y: string, s: string, t: string)
    requires stem != "" ==> IsDigit(stem[|stem| - 1])
    requires x != "" && forall i :: 0 <= i < |x| ==> NotDigit(x[i])
    requires y != "" && forall i :: 0 <= i < |y| ==> NotDigit(y[i])
    requires (s != "" ==> IsDigit(s[0])) && (t != "" ==> IsDigit(t[0]))
    requires TextBefore(x, y)
    ensures KeyLess(SuffixKey(stem + x + s), SuffixKey(stem + y + t))
  {
    PieceOrder();
    TextPieces(stem, x, s);
    TextPieces(stem, y, t);
    var i :| TextDiffers(x, y, i);
    TextLess(x, y, i);
    LexPrefix(PieceLess, Pieces(stem), [Txt(x)] + Pieces(s), [Txt(y)] + Pieces(t));
  }

  /** A suffix that goes on with another run comes later: -rc before -rc1. */
  lemma LongerSuffixIsLater(a: string, b: string)
    requires a != "" && b != "" && IsDigit(a[|a| - 1]) != IsDigit(b[0])
    ensures KeyLess(SuffixKey(a), SuffixKey(a + b))
  {
    PieceOrder();
    PiecesConcat(a, b);
    assert Pieces(a) + [] == Pieces(a);
    LexPrefix(PieceLess, Pieces(a), [], Pieces(b));
  }

  /** Which literal leads count as one stream: equal ones, and one that only has a v
      more, where that v starts the lead or follows - _ or /. */
  lemma LeadsAlikeExactly(a: string, b: string)
    ensures NormaliseLead(a) == NormaliseLead(b) <==> a == b || VersionMark(a, b) || VersionMark(b, a)
  {
    if NormaliseLead(a) == NormaliseLead(b) {
      assert a == NormaliseLead(a) || a == NormaliseLead(a) + "v";
      assert b == NormaliseLead(b) || b == NormaliseLead(b) + "v";
    }
  }

  /** b is a with a v marker behind it. */
  predicate VersionMark(a: string, b: string)
  {
    b == a + "v" && (a == "" || a[|a| - 1] == '-' || a[|a| - 1] == '_' || a[|a| - 1] == '/')
  }

  lemma NumberedPieces(stem: string, digits: string, rest: string)
    requires stem != "" && NotDigit(stem[|stem| - 1])
    requires digits != "" && forall i :: 0 <= i < |digits| ==> IsDigit(digits[i])
    requires rest != "" ==> NotDigit(rest[0])
    ensures Pieces(stem + digits + rest) == Pieces(stem) + ([Num(Value(digits))] + Pieces(rest))
  {
    var tail := digits + rest;
    assert stem + digits + rest == stem + tail;
    assert tail[0] == digits[0] && IsDigit(digits[0]);
    PiecesConcat(stem, tail);
    assert IsDigit(digits[|digits| - 1]);
    PiecesConcat(digits, rest);
    PiecesOfDigits(digits);
  }
}
