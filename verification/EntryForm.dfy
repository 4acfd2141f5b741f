/** Which images of a source file give an entry, and which entries a file yields. */
module EntryForm {
  import opened Options
  import opened Text
  import opened Template
  import opened Expansion
  import opened SourceLine
  import opened SourceFile
  import opened RoundTrip

  // -------------------------------------------------------- cutting a template

  lemma {:induction false} NoColonAfterLast(s: string)
    ensures AfterLastColon(s).None? <==> ':' !in s
    ensures AfterLastColon(s).Some? ==> ':' !in AfterLastColon(s).value
  {
    if s != "" {
      NoColonAfterLast(s[1..]);
    }
  }

  lemma {:induction false} LastColonOf(head: string, tag: string)
    requires ':' !in tag
    ensures AfterLastColon(head + (":" + tag)) == Some(tag)
  {
    var s := head + (":" + tag);
    if head == "" {
      assert s[1..] == tag;
      NoColonAfterLast(tag);
    } else {
      assert s[1..] == head[1..] + (":" + tag);
      LastColonOf(head[1..], tag);
    }
  }

  /** The reference is found where the text before it ends. */
  lemma {:induction false} FindAfter(prefix: string, q: string, rest: string)
    requires !HasOpening(prefix)
    ensures Find(prefix + (Placeholder(q) + rest), Placeholder(q)) == |prefix|
  {
    var s := prefix + (Placeholder(q) + rest);
    if prefix != "" {
      assert s[1..] == prefix[1..] + (Placeholder(q) + rest);
      assert !(Placeholder(q) <= s) by {
        assert s[0] == prefix[0] && s[1] == if |prefix| > 1 then prefix[1] else '$';
        assert Placeholder(q)[0] == '$' && Placeholder(q)[1] == '{';
        assert |prefix| > 1 ==> !(prefix[0] == '$' && prefix[1] == '{');
      }
      assert !HasOpening(prefix[1..]) by {
        forall i | 0 <= i < |prefix[1..]| - 1 ensures !(prefix[1..][i] == '$' && prefix[1..][i + 1] == '{') {
          assert prefix[1..][i] == prefix[i + 1] && prefix[1..][i + 1] == prefix[i + 2];
        }
      }
      FindAfter(prefix[1..], q, rest);
    }
  }

  lemma PartitionAt(prefix: string, q: string, rest: string)
    requires !HasOpening(prefix)
    ensures Partition(prefix + (Placeholder(q) + rest), Placeholder(q)) == (prefix, rest)
  {
    var s := prefix + (Placeholder(q) + rest);
    FindAfter(prefix, q, rest);
    assert s[..|prefix|] == prefix && s[|prefix|..] == Placeholder(q) + rest;
  }

  lemma {:induction false} NamesAfterPlain(a: seq<Token>, b: seq<Token>)
    requires forall q :: Ref(q) !in a
    ensures RefNames(a + b) == RefNames(b)
  {
    if a == [] {
      assert a + b == b;
    } else {
      assert a[0] in a;
      assert (a + b)[1..] == a[1..] + b;
      NamesAfterPlain(a[1..], b);
    }
  }

  lemma FirstReference(prefix: string, q: string, suffix: string)
    requires IsName(q) && !HasOpening(prefix)
    ensures
      var refs := FindAll(prefix + (Placeholder(q) + suffix));
      refs != [] && refs[0] == q
  {
    var rest := Placeholder(q) + suffix;
    assert rest[0] == '$';
    CutAt(prefix, rest);
    NoOpeningNoRefs(prefix);
    NamesAfterPlain(Tokens(prefix), Tokens(rest));
    RefAtPlaceholder(q, suffix);
  }

  // ------------------------------------------------------ which images give one

  /** The template pins its tag through this entry: head : prefix ${binding} suffix,
      the colon being the last one and the reference the only opening of the tag. */
  ghost predicate HasForm(template: string, head: string, e: Entry)
  {
    && template == head + Pending(e) && IsName(e.binding)
    && ':' !in e.prefix && ':' !in e.suffix && !HasOpening(e.prefix) && !HasOpening(e.suffix)
  }

  lemma NoColonInTag(prefix: string, q: string, suffix: string)
    requires IsName(q)
    ensures ':' in prefix + (Placeholder(q) + suffix) <==> ':' in prefix || ':' in suffix
  {
    assert ':' !in q by {
      assert forall i :: 0 <= i < |q| ==> IsNameChar(q[i]);
    }
    assert ':' !in Placeholder(q);
  }

  /** A template of that form gives its entry exactly when it has no digest, its name is
      bound and it resolves. */
  lemma FormGivesEntry(template: string, head: string, e: Entry, bindings: map<string, Bound>)
    requires HasForm(template, head, e)
    ensures EntryFor(template, bindings) ==
      if Contains(template, "@sha256:") || e.binding !in bindings || Resolve(template, ValuesOf(bindings), 4).None?
      then None
      else Some((Resolve(template, ValuesOf(bindings), 4).value,
                 e.(line := bindings[e.binding].line, current := bindings[e.binding].value)))
  {
    NoColonInTag(e.prefix, e.binding, e.suffix);
    LastColonOf(head, e.prefix + (Placeholder(e.binding) + e.suffix));
    FirstReference(e.prefix, e.binding, e.suffix);
    PartitionAt(e.prefix, e.binding, e.suffix);
  }

  /** And no other template gives one. */
  lemma EntryHasForm(template: string, bindings: map<string, Bound>) returns (head: string)
    requires EntryFor(template, bindings).Some?
    ensures HasForm(template, head, EntryFor(template, bindings).value.1)
  {
    var e := EntryFor(template, bindings).value.1;
    var tag := EntryParts(template, bindings);
    head := EntryCutsTemplate(template, bindings);
    PartitionCuts(tag, e.binding);
    NoColonAfterLast(template);
    NoColonInTag(e.prefix, e.binding, e.suffix);
  }

  /** The entry an image gives, exactly. */
  lemma EntryExactly(template: string, bindings: map<string, Bound>, image: string, e: Entry)
    ensures EntryFor(template, bindings) == Some((image, e)) <==>
      && (exists head :: HasForm(template, head, e))
      && !Contains(template, "@sha256:")
      && e.binding in bindings && bindings[e.binding] == Bound(e.line, e.current)
      && Resolve(template, ValuesOf(bindings), 4) == Some(image)
  {
    if EntryFor(template, bindings) == Some((image, e)) {
      var head := EntryHasForm(template, bindings);
      FormGivesEntry(template, head, e, bindings);
    } else if head :| HasForm(template, head, e) {
      FormGivesEntry(template, head, e, bindings);
    }
  }

  // -------------------------------------------------------- what a file yields

  /** The lines that hold an image, in order. */
  ghost predicate AreImageLines(rs: seq<Reading>, i: nat, images: seq<(nat, string)>)
  {
    && (forall j, k :: 0 <= j < k < |images| ==> images[j].0 < images[k].0)
    && (forall k :: 0 <= k < |images| ==> i <= images[k].0 < |rs| && rs[images[k].0].image == Some(images[k].1))
    && (forall n :: i <= n < |rs| && rs[n].image.Some? ==> (n, rs[n].image.value) in images)
  }

  /** Every image line is collected once, in line order, and nothing else is. */
  lemma {:induction false} ImagesAreCollected(rs: seq<Reading>, i: nat)
    requires i <= |rs|
    ensures AreImageLines(rs, i, ImagesFrom(rs, i))
    decreases |rs| - i
  {
    if i < |rs| {
      ImagesAreCollected(rs, i + 1);
      var images, rest := ImagesFrom(rs, i), ImagesFrom(rs, i + 1);
      forall n | i <= n < |rs| && rs[n].image.Some? ensures (n, rs[n].image.value) in images {
        if n > i {
          assert (n, rs[n].image.value) in rest;
        } else {
          assert images[0] == (n, rs[n].image.value);
        }
      }
    }
  }

  /** What each image gives. */
  function Answers(images: seq<(nat, string)>, bindings: map<string, Bound>): (r: seq<Option<(string, Entry)>>)
    ensures |r| == |images| && forall k :: 0 <= k < |images| ==> r[k] == EntryFor(images[k].1, bindings)
  {
    seq(|images|, k requires 0 <= k < |images| => EntryFor(images[k].1, bindings))
  }

  lemma AnswersHead(images: seq<(nat, string)>, bindings: map<string, Bound>, e: Option<(string, Entry)>)
    requires images != [] && e == EntryFor(images[0].1, bindings)
    ensures Answers(images, bindings) == [e] + Answers(images[1..], bindings)
  {
  }

  lemma {:induction false} EntriesAreListed(images: seq<(nat, string)>, bindings: map<string, Bound>)
    returns (at: seq<nat>)
    ensures AreValues(Answers(images, bindings), Entries(images, bindings), at)
  {
    if images == [] {
      at := [];
    } else {
      var e := EntryFor(images[0].1, bindings);
      var before := EntriesAreListed(images[1..], bindings);
      at := (if e.Some? then [0] else []) + Shifted(before);
      OneMoreValue(e, Answers(images[1..], bindings), Entries(images[1..], bindings), before, at);
      AnswersHead(images, bindings, e);
    }
  }

  /** The source file's entries are those of its image lines, from top to bottom. */
  lemma FileEntries(lines: seq<string>) returns (at: seq<nat>)
    ensures AreImageLines(ReadLines(lines), 0, Images(lines))
    ensures AreValues(Answers(Images(lines), Bindings(lines)), Parse(lines), at)
  {
    ImagesAreCollected(ReadLines(lines), 0);
    at := EntriesAreListed(Images(lines), Bindings(lines));
  }

  // ------------------------------------------------------------- one line

  /** A binding is read exactly from an indented printed line. */
  lemma LetBindExactly(line: string, name: string, value: string)
    ensures LetBind(line) == Some((name, value)) <==>
      exists b :: Proper(b) && Print(b) == line && b.indent != "" && b.name == name && b.value == value
  {
    if b :| Proper(b) && Print(b) == line && b.indent != "" && b.name == name && b.value == value {
      ScanPrinted(b);
    }
    if LetBind(line) == Some((name, value)) {
      var b := Scan(line).value;
      assert Proper(b) && Print(b) == line && b.indent != "" && b.name == name && b.value == value;
    }
  }

  /** An image template exactly from such a line that binds image to some text. */
  lemma ImageLineExactly(line: string, template: string)
    ensures ImageLine(line) == Some(template) <==> template != "" && LetBind(line) == Some(("image", template))
  {
  }

  /** A comment is an indentation and a #. */
  lemma CommentExactly(line: string)
    ensures IsComment(line) <==>
      exists indent, rest :: All(indent, IsSpace) && line == indent + (['#'] + rest)
  {
    if indent, rest :| All(indent, IsSpace) && line == indent + (['#'] + rest) {
      assert (['#'] + rest)[0] == '#';
      TakeConcat(indent, ['#'] + rest, IsSpace);
    }
    if IsComment(line) {
      var (indent, s) := Take(line, IsSpace);
      assert s == ['#'] + s[1..];
      assert All(indent, IsSpace) && line == indent + (['#'] + s[1..]);
    }
  }

  /** What a line gives: a comment nothing, any other line its binding and its image. */
  lemma LineReads(line: string)
    ensures ReadLine(line).bind == (if IsComment(line) then None else LetBind(line))
    ensures ReadLine(line).image == (if IsComment(line) then None else ImageLine(line))
    ensures IsComment(line) ==> LetBind(line).None?
  {
    if IsComment(line) && Scan(line).Some? {
      BoundLineIsNoComment(line);
    }
  }

  /** A line is rewritten exactly when it still binds the name, and then only its quoted
      value changes. */
  lemma RewriteExactly(line: string, name: string, v: string, after: string)
    ensures RewriteLine(line, name, v) == Some(after) <==>
      exists b :: Proper(b) && Print(b) == line && b.name == name && after == Print(b.(value := v))
  {
    if b :| Proper(b) && Print(b) == line && b.name == name && after == Print(b.(value := v)) {
      ScanPrinted(b);
    }
    if RewriteLine(line, name, v) == Some(after) {
      var b := Scan(line).value;
      assert Proper(b) && Print(b) == line && b.name == name && after == Print(b.(value := v));
    }
  }

  /** The line binds the name. */
  ghost predicate Binds(line: string, name: string)
  {
    exists b :: Proper(b) && Print(b) == line && b.name == name
  }

  lemma RewrittenIffBound(line: string, name: string, v: string)
    ensures RewriteLine(line, name, v).Some? <==> Binds(line, name)
  {
    if b :| Proper(b) && Print(b) == line && b.name == name {
      ScanPrinted(b);
    }
    if RewriteLine(line, name, v).Some? {
      var b := Scan(line).value;
      assert Proper(b) && Print(b) == line && b.name == name;
    }
  }

  /** A planned line that no longer binds the name, or is gone, leaves the file alone. */
  lemma StaleLineIsLeft(lines: seq<string>, line: nat, name: string, v: string)
    ensures Rewritten(lines, line, name, v).None? <==> line >= |lines| || !Binds(lines[line], name)
    ensures Rewritten(lines, line, name, v).Some? ==>
      var after := Rewritten(lines, line, name, v).value;
      |after| == |lines| && forall k :: 0 <= k < |lines| && k != line ==> after[k] == lines[k]
  {
    if line < |lines| {
      RewrittenIffBound(lines[line], name, v);
    }
  }
}
