/** From the picked tag to the image read back: picker, template, safety check,
    rewriter, apply loop and parser put together. */
module Upgrade {
  import opened Options
  import opened Text
  import opened Tags
  import opened Picker
  import opened Bumper
  import opened Template
  import opened Expansion
  import opened SourceLine
  import opened SourceFile
  import opened RoundTrip
  import opened ApplyBumps

  /** The tag an entry pins. */
  function PinnedTag(e: Entry): string
  {
    e.prefix + (e.current + e.suffix)
  }

  /** A tag that can be written into a source file: no quote, no $. */
  predicate Writable(tag: string)
  {
    '"' !in tag && '$' !in tag
  }

  lemma ValueIsWritable(prefix: string, v: string, suffix: string)
    requires Writable(prefix + v + suffix)
    ensures All(v, NotQuote) && Flat(v)
  {
    var tag := prefix + v + suffix;
    assert forall c :: c in v ==> c in tag;
    PlainPrefix(v, "");
    assert v + "" == v;
  }

  lemma TagIsFlat(tag: string)
    requires Writable(tag)
    ensures Flat(":" + tag)
  {
    PlainPrefix(":" + tag, "");
    assert (":" + tag) + "" == ":" + tag;
  }

  /** Once the pick is pinned, the same listing offers nothing newer: the next pick is
      the release just pinned. */
  lemma PickedAgainIsSameRelease(tags: seq<string>, current: string, p: string)
    requires SemverTuple(current).Some? && PickLatest(tags, current) == Some(p)
    ensures PickLatest(tags, p).Some? && SameRelease(p, PickLatest(tags, p).value)
  {
    PickSoundAndComplete(tags, current);
    PickSoundAndComplete(tags, p);
    VersionOrder();
    assert InLine(tags, p, p) && NotBelow(p, p);
    var again := PickLatest(tags, p).value;
    assert InLine(tags, current, again);
    assert NotBelow(p, again) && NotBelow(again, p);
    ParsesAgree(p);
  }

  /** A pick that the entry's template can produce, written and read back. Whatever the
      template's nesting, the image then carries exactly the picked tag if it resolves,
      the entry pins it, and the same listing has nothing newer for it. */
  lemma PickIsReadBack(lines: seq<string>, k: nat, tags: seq<string>, p: string, w: string)
    returns (after: seq<string>, head: string)
    requires k < |Images(lines)| && EntryFor(Images(lines)[k].1, Bindings(lines)).Some?
    requires EntryFor(Images(lines)[k].1, Bindings(lines)).value.1.binding != "image"
    requires
      var e := EntryFor(Images(lines)[k].1, Bindings(lines)).value.1;
      && SemverTuple(PinnedTag(e)).Some? && PickLatest(tags, PinnedTag(e)) == Some(p)
      && p == e.prefix + w + e.suffix && Writable(p)
    ensures
      var template, e := Images(lines)[k].1, EntryFor(Images(lines)[k].1, Bindings(lines)).value.1;
      var v := DeriveNewValue(p, e.prefix, e.suffix);
      && Rewritten(lines, e.line, e.binding, v) == Some(after)
      && Images(after) == Images(lines)
      && PinnedTag(e.(current := v)) == p
      && Filled(e, v) == ":" + p
      && ReadAs(template, Bindings(lines), Bindings(after), head, e.(current := v))
      && FoundIfResolved(template, Bindings(after), e.(current := v))
    ensures PickLatest(tags, p).Some? && SameRelease(p, PickLatest(tags, p).value)
  {
    var e := EntryFor(Images(lines)[k].1, Bindings(lines)).value.1;
    var v := DeriveNewValue(p, e.prefix, e.suffix);
    DeriveReversesTemplate(p, e.prefix, e.suffix);
    assert v == w;
    ValueIsWritable(e.prefix, v, e.suffix);
    Associates(e.prefix, v, e.suffix);
    TagIsFlat(p);
    after, head := ParseRewriteParse(lines, k, v);
    PickedAgainIsSameRelease(tags, PinnedTag(e), p);
  }

  // -------------------------------------------------------- over a whole loop

  lemma {:induction false} BumpsRebind(v: FileView, file: string, bumped: seq<Bump>)
    requires forall i :: 0 <= i < |bumped| ==> Flat(bumped[i].value)
    ensures Rebinds(ValuesOf(v.bindings), ValuesOf(WithBumps(v, file, bumped).bindings))
  {
    if bumped != [] {
      BumpsRebind(v, file, bumped[..|bumped| - 1]);
    }
  }

  /** What a file reads as after the loop. */
  lemma FileAfterApply(read: Reader, files: Files, planned: seq<Bump>, p: Progress, file: string)
    requires ReadsBack(read, files, planned, p) && file in files
    requires forall j :: 0 <= j < |planned| ==> Flat(planned[j].value)
    ensures file in p.files && read(p.files[file]) == WithBumps(read(files[file]), file, p.bumped)
    ensures Rebinds(ValuesOf(read(files[file]).bindings), ValuesOf(read(p.files[file]).bindings))
  {
    assert FileAsExpected(read, files[file], p.files[file], file, p.bumped);
    forall j | 0 <= j < |p.bumped| ensures Flat(p.bumped[j].value) {
      assert p.bumped[j] in planned;
    }
    BumpsRebind(read(files[file]), file, p.bumped);
  }

  /** The image an entry with an accepted bump belongs to, after the loop. */
  lemma ImageAfter(read: Reader, files: Files, planned: seq<Bump>, p: Progress, file: string, k: nat, i: nat)
    returns (head: string)
    requires ReadsBack(read, files, planned, p) && OnePerBinding(p.bumped)
    requires forall j :: 0 <= j < |planned| ==> Flat(planned[j].value)
    requires file in files && k < |read(files[file]).images| && i < |p.bumped| && p.bumped[i].file == file
    requires
      var template, bindings := read(files[file]).images[k].1, read(files[file]).bindings;
      EntryFor(template, bindings).Some? && EntryFor(template, bindings).value.1.binding == p.bumped[i].binding
    ensures file in p.files && read(p.files[file]).images == read(files[file]).images
    ensures
      var template, v := read(files[file]).images[k].1, p.bumped[i].value;
      var e := EntryFor(template, read(files[file]).bindings).value.1;
      ReadAs(template, read(files[file]).bindings, read(p.files[file]).bindings, head, e.(current := v))
  {
    var was := read(files[file]);
    var e := EntryFor(was.images[k].1, was.bindings).value.1;
    FileAfterApply(read, files, planned, p, file);
    BumpIsLast(was, p.bumped, i);
    assert p.bumped[i] in p.bumped && p.bumped[i] in planned;
    head := EntryReadsBack(was.images[k].1, was.bindings, read(p.files[file]).bindings);
  }

  /** After the whole apply loop, whatever was rolled back and however many bindings of
      a file were bumped: an image whose binding has an accepted bump carries the tag
      prefix + accepted value + suffix, and the parser finds it with that value. */
  lemma ImagesAfterApply(files: Files, planned: seq<Bump>, parses: File -> bool, p: Progress,
                         file: string, k: nat, i: nat)
    returns (head: string)
    requires forall j :: 0 <= j < |planned| ==> Planned(ReadFile, files, planned[j]) && Flat(planned[j].value)
    requires p == ApplyBumps.Run(files, planned, WriteBump, parses) && OnePerBinding(p.bumped)
    requires file in files && k < |Images(files[file])| && i < |p.bumped| && p.bumped[i].file == file
    requires
      var template, bindings := Images(files[file])[k].1, Bindings(files[file]);
      EntryFor(template, bindings).Some? && EntryFor(template, bindings).value.1.binding == p.bumped[i].binding
    ensures file in p.files && Images(p.files[file]) == Images(files[file])
    ensures
      var template, v := Images(files[file])[k].1, p.bumped[i].value;
      var e := EntryFor(template, Bindings(files[file])).value.1;
      ReadAs(template, Bindings(files[file]), Bindings(p.files[file]), head, e.(current := v))
  {
    ApplyReadsBack(files, planned, parses);
    head := ImageAfter(ReadFile, files, planned, p, file, k, i);
  }
}
