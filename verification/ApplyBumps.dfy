/** The apply loop of scripts/upgrade-apps.py: every planned bump is written,
    checked by the Nix parser, and rolled back when the check fails.

    The loop is stated for any `write` and any `read` that obey the law proved of
    rewrite_binding and the source parser, which are then plugged in. The parser
    check is an arbitrary predicate on the file's lines. */
module ApplyBumps {
  import opened Options
  import opened Text
  import opened SourceLine
  import opened SourceFile

  datatype Bump = Bump(file: string, binding: string, line: nat, value: string)

  type File = seq<string>
  type Files = map<string, File>

  /** What the collector sees of a file. */
  datatype FileView = FileView(images: seq<(nat, string)>, bindings: map<string, Bound>)

  type Reader = File -> FileView
  type Writer = (File, Bump) -> Option<File>

  function ReadFile(lines: File): FileView
  {
    FileView(Images(lines), Bindings(lines))
  }

  function WriteBump(lines: File, b: Bump): Option<File>
  {
    Rewritten(lines, b.line, b.binding, b.value)
  }

  // -------------------------------------------------------------------- the loop

  /** What the loop has done so far: the files, the bumps written for good, those
      rolled back, and those whose file or line could not be used. */
  datatype Progress = Progress(files: Files, bumped: seq<Bump>, rolledBack: seq<Bump>, failed: seq<Bump>)

  function Attempt(files: Files, b: Bump, write: Writer): Option<File>
  {
    if b.file in files then write(files[b.file], b) else None
  }

  /** The outcome of one bump, given what the rewrite produced. */
  function Settle(p: Progress, b: Bump, written: Option<File>, parses: File -> bool): Progress
  {
    if written.None? then p.(failed := p.failed + [b])
    else if !parses(written.value) then p.(rolledBack := p.rolledBack + [b])
    else p.(files := p.files[b.file := written.value], bumped := p.bumped + [b])
  }

  function Run(files: Files, planned: seq<Bump>, write: Writer, parses: File -> bool): Progress
  {
    if planned == [] then Progress(files, [], [], [])
    else
      var n := |planned| - 1;
      var before := Run(files, planned[..n], write, parses);
      Settle(before, planned[n], Attempt(before.files, planned[n], write), parses)
  }

  /** One bump: write, check, and put the original back when the check fails. */
  method ApplyOne(p: Progress, b: Bump, write: Writer, parses: File -> bool) returns (q: Progress)
    ensures q == Settle(p, b, Attempt(p.files, b, write), parses)
  {
    var r := Attempt(p.files, b, write);
    if r.None? {
      return p.(failed := p.failed + [b]);
    }
    var original := p.files[b.file];
    var files := p.files[b.file := r.value];
    if !parses(files[b.file]) {
      files := files[b.file := original];
      assert files == p.files;
      return p.(files := files, rolledBack := p.rolledBack + [b]);
    }
    q := p.(files := files, bumped := p.bumped + [b]);
  }

  method Apply(files: Files, planned: seq<Bump>, write: Writer, parses: File -> bool) returns (p: Progress)
    ensures p == Run(files, planned, write, parses)
  {
    p := Progress(files, [], [], []);
    for i := 0 to |planned|
      invariant p == Run(files, planned[..i], write, parses)
    {
      assert planned[..i + 1][..i] == planned[..i];
      p := ApplyOne(p, planned[i], write, parses);
    }
    assert planned[..|planned|] == planned;
  }

  // --------------------------------------------------------------------- the law

  function Rebound(v: FileView, b: Bump): FileView
    requires b.binding in v.bindings
  {
    v.(bindings := v.bindings[b.binding := Bound(v.bindings[b.binding].line, b.value)])
  }

  /** A bump as the planner makes it, against what the file reads as: a collected
      binding other than image, and a value that can stand between quotes. */
  predicate Fits(v: FileView, b: Bump)
  {
    && b.binding in v.bindings && b.binding != "image"
    && b.line == v.bindings[b.binding].line && All(b.value, NotQuote)
  }

  /** Writing a fitting bump succeeds and reads back as just that value changed. */
  ghost predicate Lawful(read: Reader, write: Writer)
  {
    forall f, b :: Fits(read(f), b) ==> write(f, b).Some? && read(write(f, b).value) == Rebound(read(f), b)
  }

  lemma RewriteIsLawful()
    ensures Lawful(ReadFile, WriteBump)
  {
    forall f, b | Fits(ReadFile(f), b)
      ensures WriteBump(f, b).Some? && ReadFile(WriteBump(f, b).value) == Rebound(ReadFile(f), b)
    {
      var after := RewriteThenCollect(f, b.binding, b.value);
    }
  }

  // ------------------------------------------------------------- whole runs

  /** What one file reads as after the bumps that stayed. */
  function WithBumps(v: FileView, file: string, bumped: seq<Bump>): (r: FileView)
    ensures r.bindings.Keys == v.bindings.Keys && r.images == v.images
    ensures forall name :: name in v.bindings ==> r.bindings[name].line == v.bindings[name].line
  {
    if bumped == [] then v
    else
      var n := |bumped| - 1;
      var before := WithBumps(v, file, bumped[..n]);
      if bumped[n].file == file && bumped[n].binding in before.bindings
      then Rebound(before, bumped[n]) else before
  }

  ghost predicate FileAsExpected(read: Reader, was: File, now: File, file: string, bumped: seq<Bump>)
  {
    && read(now) == WithBumps(read(was), file, bumped)
    && ((forall i :: 0 <= i < |bumped| ==> bumped[i].file != file) ==> now == was)
  }

  ghost predicate AsExpected(read: Reader, files: Files, p: Progress)
  {
    && p.files.Keys == files.Keys && p.failed == []
    && forall f :: f in files ==> FileAsExpected(read, files[f], p.files[f], f, p.bumped)
  }

  ghost predicate Planned(read: Reader, files: Files, b: Bump)
  {
    b.file in files && Fits(read(files[b.file]), b)
  }

  lemma WithOneMore(v: FileView, file: string, bumped: seq<Bump>, b: Bump)
    ensures WithBumps(v, file, bumped + [b]) ==
      var before := WithBumps(v, file, bumped);
      if b.file == file && b.binding in before.bindings then Rebound(before, b) else before
  {
    assert (bumped + [b])[..|bumped|] == bumped;
  }

  lemma OneMoreFile(read: Reader, was: File, now: File, after: File, file: string, bumped: seq<Bump>, b: Bump)
    requires FileAsExpected(read, was, now, file, bumped)
    requires
      if b.file == file then b.binding in read(now).bindings && read(after) == Rebound(read(now), b)
      else after == now
    ensures FileAsExpected(read, was, after, file, bumped + [b])
  {
    WithOneMore(read(was), file, bumped, b);
    assert (bumped + [b])[|bumped|] == b;
    assert forall i :: 0 <= i < |bumped| ==> (bumped + [b])[i] == bumped[i];
  }

  lemma AcceptedBump(read: Reader, files: Files, p: Progress, b: Bump, after: File)
    requires AsExpected(read, files, p) && b.file in files
    requires b.binding in read(p.files[b.file]).bindings && read(after) == Rebound(read(p.files[b.file]), b)
    ensures AsExpected(read, files, p.(files := p.files[b.file := after], bumped := p.bumped + [b]))
  {
    var q := p.(files := p.files[b.file := after], bumped := p.bumped + [b]);
    forall f | f in files ensures FileAsExpected(read, files[f], q.files[f], f, q.bumped) {
      assert FileAsExpected(read, files[f], p.files[f], f, p.bumped);
      OneMoreFile(read, files[f], p.files[f], q.files[f], f, p.bumped, b);
    }
  }

  /** A planned bump still fits its file, whatever was bumped before. */
  lemma StillFits(read: Reader, files: Files, p: Progress, b: Bump)
    requires AsExpected(read, files, p) && Planned(read, files, b)
    ensures b.file in p.files && Fits(read(p.files[b.file]), b)
  {
    assert FileAsExpected(read, files[b.file], p.files[b.file], b.file, p.bumped);
  }

  lemma StepAsExpected(read: Reader, write: Writer, files: Files, p: Progress, b: Bump, parses: File -> bool)
    returns (q: Progress)
    requires Lawful(read, write) && AsExpected(read, files, p) && Planned(read, files, b)
    ensures q == Settle(p, b, Attempt(p.files, b, write), parses) && AsExpected(read, files, q)
    ensures |q.bumped| + |q.rolledBack| == |p.bumped| + |p.rolledBack| + 1
    ensures forall x :: x in q.bumped ==> x in p.bumped || x == b
  {
    var now := p.files[b.file];
    StillFits(read, files, p, b);
    var after := write(now, b).value;
    q := Settle(p, b, Some(after), parses);
    if parses(after) {
      AcceptedBump(read, files, p, b, after);
    }
  }

  /** What the whole loop guarantees. */
  ghost predicate ReadsBack(read: Reader, files: Files, planned: seq<Bump>, p: Progress)
  {
    && AsExpected(read, files, p)
    && |p.bumped| + |p.rolledBack| == |planned|
    && forall b :: b in p.bumped ==> b in planned
  }

  lemma {:induction false} LawfulRunsReadBack(read: Reader, write: Writer, files: Files, planned: seq<Bump>,
                                                parses: File -> bool)
    requires Lawful(read, write)
    requires forall i :: 0 <= i < |planned| ==> Planned(read, files, planned[i])
    ensures ReadsBack(read, files, planned, Run(files, planned, write, parses))
  {
    if planned != [] {
      var n := |planned| - 1;
      LawfulRunsReadBack(read, write, files, planned[..n], parses);
      var q := StepAsExpected(read, write, files, Run(files, planned[..n], write, parses), planned[n], parses);
    }
  }

  /** After the whole loop: no planned bump fails on a moved line, whatever bumps
      went before it in the same file; every file reads back as it was with exactly
      the accepted values in place; and a rolled-back bump leaves no trace. */
  lemma ApplyReadsBack(files: Files, planned: seq<Bump>, parses: File -> bool)
    requires forall i :: 0 <= i < |planned| ==> Planned(ReadFile, files, planned[i])
    ensures ReadsBack(ReadFile, files, planned, Run(files, planned, WriteBump, parses))
  {
    RewriteIsLawful();
    LawfulRunsReadBack(ReadFile, WriteBump, files, planned, parses);
  }

  // --------------------------------------------------------- what is accepted

  /** What the check was asked about one planned bump, and what became of it. */
  datatype Trial = Trial(bump: Bump, after: File, accepted: bool)

  function Accepted(trials: seq<Trial>): seq<Bump>
  {
    if trials == [] then []
    else
      var n := |trials| - 1;
      if trials[n].accepted then Accepted(trials[..n]) + [trials[n].bump] else Accepted(trials[..n])
  }

  function Rejected(trials: seq<Trial>): seq<Bump>
  {
    if trials == [] then []
    else
      var n := |trials| - 1;
      if trials[n].accepted then Rejected(trials[..n]) else Rejected(trials[..n]) + [trials[n].bump]
  }

  /** The trial of one bump: the check saw its file with the bumps accepted before and
      this one, and the bump was accepted exactly when that file parses. */
  ghost predicate TrialOf(
    read: Reader, files: Files, b: Bump, accepted: seq<Bump>, parses: File -> bool, t: Trial)
  {
    && t.bump == b && t.accepted == parses(t.after) && b.file in files
    && read(t.after) == WithBumps(read(files[b.file]), b.file, accepted + [b])
  }

  /** One trial for each planned bump, in order. */
  ghost predicate Tried(
    read: Reader, files: Files, planned: seq<Bump>, parses: File -> bool, trials: seq<Trial>)
  {
    && |trials| == |planned|
    && forall i :: 0 <= i < |trials| ==>
         TrialOf(read, files, planned[i], Accepted(trials[..i]), parses, trials[i])
  }

  lemma OneMoreTrial(
    read: Reader, files: Files, planned: seq<Bump>, parses: File -> bool, trials: seq<Trial>, b: Bump, t: Trial)
    requires Tried(read, files, planned, parses, trials)
    requires TrialOf(read, files, b, Accepted(trials), parses, t)
    ensures Tried(read, files, planned + [b], parses, trials + [t])
  {
    var more := trials + [t];
    forall i | 0 <= i < |more|
      ensures TrialOf(read, files, (planned + [b])[i], Accepted(more[..i]), parses, more[i])
    {
      assert more[..i] == trials[..i];
      assert i == |trials| ==> trials[..i] == trials;
    }
  }

  lemma TrialOutcome(trials: seq<Trial>, t: Trial)
    ensures Accepted(trials + [t]) == if t.accepted then Accepted(trials) + [t.bump] else Accepted(trials)
    ensures Rejected(trials + [t]) == if t.accepted then Rejected(trials) else Rejected(trials) + [t.bump]
  {
    assert (trials + [t])[..|trials|] == trials;
  }

  /** The trial of the next bump, and how the loop settles it. */
  lemma NextTrial(read: Reader, write: Writer, files: Files, p: Progress, b: Bump, parses: File -> bool)
    returns (t: Trial)
    requires Lawful(read, write) && AsExpected(read, files, p) && Planned(read, files, b)
    ensures TrialOf(read, files, b, p.bumped, parses, t)
    ensures
      var q := Settle(p, b, Attempt(p.files, b, write), parses);
      && q.failed == p.failed
      && q.bumped == (if t.accepted then p.bumped + [b] else p.bumped)
      && q.rolledBack == (if t.accepted then p.rolledBack else p.rolledBack + [b])
  {
    StillFits(read, files, p, b);
    assert FileAsExpected(read, files[b.file], p.files[b.file], b.file, p.bumped);
    var after := write(p.files[b.file], b).value;
    WithOneMore(read(files[b.file]), b.file, p.bumped, b);
    t := Trial(b, after, parses(after));
  }

  /** What the whole loop reports, against the trials. */
  ghost predicate Reports(p: Progress, trials: seq<Trial>)
  {
    p.bumped == Accepted(trials) && p.rolledBack == Rejected(trials) && p.failed == []
  }

  lemma ReportOneMore(
    read: Reader, write: Writer, files: Files, planned: seq<Bump>, parses: File -> bool, p: Progress,
    trials: seq<Trial>, b: Bump) returns (t: Trial)
    requires Lawful(read, write) && AsExpected(read, files, p) && Planned(read, files, b)
    requires Tried(read, files, planned, parses, trials) && Reports(p, trials)
    ensures Tried(read, files, planned + [b], parses, trials + [t])
    ensures Reports(Settle(p, b, Attempt(p.files, b, write), parses), trials + [t])
  {
    t := NextTrial(read, write, files, p, b, parses);
    OneMoreTrial(read, files, planned, parses, trials, b, t);
    TrialOutcome(trials, t);
  }

  lemma RunIsAsExpected(read: Reader, write: Writer, files: Files, planned: seq<Bump>, parses: File -> bool)
    requires Lawful(read, write) && forall i :: 0 <= i < |planned| ==> Planned(read, files, planned[i])
    ensures AsExpected(read, files, Run(files, planned, write, parses))
  {
    LawfulRunsReadBack(read, write, files, planned, parses);
  }

  lemma {:induction false} LawfulRunsReport(
    read: Reader, write: Writer, files: Files, planned: seq<Bump>, parses: File -> bool) returns (trials: seq<Trial>)
    requires Lawful(read, write)
    requires forall i :: 0 <= i < |planned| ==> Planned(read, files, planned[i])
    ensures Tried(read, files, planned, parses, trials) && Reports(Run(files, planned, write, parses), trials)
  {
    trials := [];
    if planned != [] {
      var front, b := planned[..|planned| - 1], planned[|planned| - 1];
      assert front + [b] == planned;
      trials := LawfulRunsReport(read, write, files, front, parses);
      RunIsAsExpected(read, write, files, front, parses);
      var t := ReportOneMore(read, write, files, front, parses, Run(files, front, write, parses), trials, b);
      trials := trials + [t];
    }
  }

  /** A bump stays exactly when the check parses the file it leaves; the bumps that stay
      and those rolled back are reported in the order they were planned. */
  lemma AcceptedExactlyWhenParsed(files: Files, planned: seq<Bump>, parses: File -> bool)
    returns (trials: seq<Trial>)
    requires forall i :: 0 <= i < |planned| ==> Planned(ReadFile, files, planned[i])
    ensures Tried(ReadFile, files, planned, parses, trials)
    ensures Reports(Run(files, planned, WriteBump, parses), trials)
  {
    RewriteIsLawful();
    trials := LawfulRunsReport(ReadFile, WriteBump, files, planned, parses);
  }

  function Reported(p: Progress): multiset<Bump>
  {
    multiset(p.bumped) + multiset(p.rolledBack) + multiset(p.failed)
  }

  lemma SettleReports(p: Progress, b: Bump, written: Option<File>, parses: File -> bool)
    ensures Reported(Settle(p, b, written, parses)) == Reported(p) + multiset{b}
  {
  }

  /** Whatever the bumps and the writer are, every planned bump is reported once: bumped,
      rolled back or failed. */
  lemma {:induction false} EveryBumpIsReported(
    files: Files, planned: seq<Bump>, write: Writer, parses: File -> bool)
    ensures Reported(Run(files, planned, write, parses)) == multiset(planned)
  {
    if planned != [] {
      var n := |planned| - 1;
      var before := Run(files, planned[..n], write, parses);
      EveryBumpIsReported(files, planned[..n], write, parses);
      SettleReports(before, planned[n], Attempt(before.files, planned[n], write), parses);
      LastBump(planned, n);
    }
  }

  lemma LastBump(planned: seq<Bump>, n: nat)
    requires |planned| == n + 1
    ensures multiset(planned) == multiset(planned[..n]) + multiset{planned[n]}
  {
    assert planned == planned[..n] + [planned[n]];
  }

  /** A bump of a file that is not there, or whose line has moved, fails and changes
      nothing. */
  lemma UnwritableBumpFails(files: Files, planned: seq<Bump>, b: Bump, write: Writer, parses: File -> bool)
    requires
      var p := Run(files, planned, write, parses);
      b.file in p.files ==> write(p.files[b.file], b).None?
    ensures
      var p := Run(files, planned, write, parses);
      Run(files, planned + [b], write, parses) == p.(failed := p.failed + [b])
  {
    assert (planned + [b])[..|planned|] == planned;
  }

  /** Whatever the bumps and the writer are, a file that was changed parses in the end. */
  lemma {:induction false} ChangedFilesParse(files: Files, planned: seq<Bump>, write: Writer, parses: File -> bool)
    ensures
      var p := Run(files, planned, write, parses);
      forall f :: f in p.files ==> (f in files && p.files[f] == files[f]) || parses(p.files[f])
  {
    if planned != [] {
      ChangedFilesParse(files, planned[..|planned| - 1], write, parses);
    }
  }

  /** At most one bump per file and binding, as the planner's groups guarantee. */
  ghost predicate OnePerBinding(bumps: seq<Bump>)
  {
    forall i, j :: 0 <= i < j < |bumps| ==> bumps[i].file != bumps[j].file || bumps[i].binding != bumps[j].binding
  }

  lemma {:induction false} BumpIsLast(v: FileView, bumped: seq<Bump>, k: nat)
    requires k < |bumped| && OnePerBinding(bumped) && bumped[k].binding in v.bindings
    ensures WithBumps(v, bumped[k].file, bumped).bindings[bumped[k].binding].value == bumped[k].value
  {
    var n := |bumped| - 1;
    if k < n {
      BumpIsLast(v, bumped[..n], k);
      assert bumped[..n][k] == bumped[k];
    }
  }

  lemma {:induction false} NoBumpKeeps(v: FileView, bumped: seq<Bump>, file: string, name: string)
    requires name in v.bindings && forall i :: 0 <= i < |bumped| ==> bumped[i].file != file || bumped[i].binding != name
    ensures WithBumps(v, file, bumped).bindings[name] == v.bindings[name]
  {
    if bumped != [] {
      NoBumpKeeps(v, bumped[..|bumped| - 1], file, name);
    }
  }

  /** With one bump per binding, each accepted value is the one read afterwards, and
      a binding without an accepted bump keeps its value. */
  lemma AcceptedValuesAreRead(read: Reader, files: Files, planned: seq<Bump>, p: Progress, file: string, name: string)
    requires ReadsBack(read, files, planned, p) && OnePerBinding(p.bumped)
    requires file in files && name in read(files[file]).bindings
    ensures file in p.files && name in read(p.files[file]).bindings
    ensures forall k :: 0 <= k < |p.bumped| && p.bumped[k].file == file && p.bumped[k].binding == name ==>
      read(p.files[file]).bindings[name].value == p.bumped[k].value
    ensures (forall k :: 0 <= k < |p.bumped| ==> p.bumped[k].file != file || p.bumped[k].binding != name) ==>
      read(p.files[file]).bindings[name] == read(files[file]).bindings[name]
  {
    assert FileAsExpected(read, files[file], p.files[file], file, p.bumped);
    forall k | 0 <= k < |p.bumped| && p.bumped[k].file == file && p.bumped[k].binding == name
      ensures read(p.files[file]).bindings[name].value == p.bumped[k].value
    {
      BumpIsLast(read(files[file]), p.bumped, k);
    }
    if forall k :: 0 <= k < |p.bumped| ==> p.bumped[k].file != file || p.bumped[k].binding != name {
      NoBumpKeeps(read(files[file]), p.bumped, file, name);
    }
  }
}
