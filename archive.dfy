/** archive: write one zip entry per source file, named relative to a base
    path, skipping the output archive itself, stopping at the first failure. */
module Archive {
  import opened Outcomes
  import opened Paths
  import opened FileTree

  /** One entry of the zip archive: its name and its bytes. */
  datatype Entry = Entry(name: string, data: seq<byte>)

  // ------------------------------------------------------- specification

  /** What one source contributes: nothing (it is the output itself), an
      entry, or an error together with the entry it left half-written. */
  datatype StepResult = Skip | Add(entry: Entry) | Fail(error: Error, partial: seq<Entry>)

  /** The body of the loop for one source: filepath.Abs and the self-check,
      os.Open, filepath.Rel against the base path, zip Create, io.Copy. A
      directory opens but cannot be read, so its entry is created empty and
      the copy fails. */
  function SourceStep(fs: Node, cwd: string, source: string, basePath: string, outputPath: string): StepResult
  {
    if outputPath == Abs(cwd, source) then Skip
    else match Resolve(fs, cwd, source)
      case Found(n) =>
        if n.Denied? then Fail(OpenFailed(source), [])
        else
          (match Rel(basePath, source)
           case Err(e) => Fail(e, [])
           case Ok(name) =>
             if n.Dir? then Fail(CopyFailed(source), [Entry(name, [])])
             else Add(Entry(name, n.data)))
      case _ => Fail(OpenFailed(source), [])
  }

  /** The steps of all sources, in order. */
  function Steps(fs: Node, cwd: string, sources: seq<string>, basePath: string, outputPath: string): (r: seq<StepResult>)
  {
    seq(|sources|, i requires 0 <= i < |sources| => SourceStep(fs, cwd, sources[i], basePath, outputPath))
  }

  /** The entries written so far and the error that ended the loop, if any. */
  datatype Progress = Progress(entries: seq<Entry>, error: Option<Error>)

  /** One turn of the loop: nothing more once an error has been returned;
      otherwise the step's entry is written, or its partial entry and error. */
  function Apply(p: Progress, step: StepResult): Progress
  {
    if p.error.Some? then p
    else match step
      case Skip => p
      case Add(e) => Progress(p.entries + [e], None)
      case Fail(err, partial) => Progress(p.entries + partial, Some(err))
  }

  /** The loop: the steps in order, up to the first failure. */
  function Run(steps: seq<StepResult>): Progress
  {
    if steps == [] then Progress([], None)
    else Apply(Run(steps[..|steps| - 1]), steps[|steps| - 1])
  }

  /** os.Create succeeds: the parent is a readable directory and the target is
      absent or a regular file (which is truncated). */
  predicate CanCreate(fs: Node, cwd: string, outputPath: string)
  {
    && outputPath != ""
    && var segs := Clean(Abs(cwd, outputPath)).segs;
    && segs != []
    && Lookup(fs, segs[..|segs| - 1]).Found? && Lookup(fs, segs[..|segs| - 1]).node.Dir?
    && (Lookup(fs, segs).NotExist? || (Lookup(fs, segs).Found? && Lookup(fs, segs).node.File?))
  }

  /** What archive leaves behind: no file (and the create error), or a file
      holding the entries written and the error that stopped it, if any. */
  datatype ArchiveOutcome = NotCreated(createError: Error) | Created(entries: seq<Entry>, error: Option<Error>)

  function ArchiveSpec(fs: Node, cwd: string, sources: seq<string>, basePath: string, outputPath: string): ArchiveOutcome
  {
    if !CanCreate(fs, cwd, outputPath) then NotCreated(CreateFailed(outputPath))
    else
      var p := Run(Steps(fs, cwd, sources, basePath, outputPath));
      Created(p.entries, p.error)
  }

  /** The sources the loop does not skip as being the output itself. */
  function Kept(cwd: string, sources: seq<string>, outputPath: string): (k: seq<string>)
    ensures forall i :: 0 <= i < |k| ==> Abs(cwd, k[i]) != outputPath
    ensures forall x :: x in k ==> x in sources
    ensures forall x :: x in sources && Abs(cwd, x) != outputPath ==> x in k
  {
    if sources == [] then []
    else
      var last := sources[|sources| - 1];
      Kept(cwd, sources[..|sources| - 1], outputPath) + (if Abs(cwd, last) == outputPath then [] else [last])
  }

  /** `e` is what reopening the archive shows for `source`: its name relative
      to the base path and the file's bytes. */
  ghost predicate EntryOf(fs: Node, cwd: string, source: string, basePath: string, e: Entry)
  {
    Rel(basePath, source) == Ok(e.name) && Resolve(fs, cwd, source) == Found(File(e.data))
  }

  // ------------------------------------------------------- properties

  lemma RunLast(steps: seq<StepResult>, i: nat)
    requires i < |steps|
    ensures Run(steps[..i + 1]) == Apply(Run(steps[..i]), steps[i])
  {
    assert steps[..i + 1][..i] == steps[..i];
  }

  /** Once the loop has failed, the remaining sources change nothing. */
  lemma RunStops(steps: seq<StepResult>, k: nat)
    requires k <= |steps| && Run(steps[..k]).error.Some?
    ensures Run(steps) == Run(steps[..k])
  {
    RunConcat(steps[..k], steps[k..]);
    assert steps[..k] + steps[k..] == steps;
  }

  /** Running `a + b` is running `a`, then (if that did not fail) `b`:
      entries are written in input order and nothing is written once a
      source has failed. */
  lemma {:induction false} RunConcat(a: seq<StepResult>, b: seq<StepResult>)
    ensures Run(a + b) == if Run(a).error.Some? then Run(a)
      else Progress(Run(a).entries + Run(b).entries, Run(b).error)
    decreases |b|
  {
    if b == [] {
      assert a + b == a;
    } else {
      var b' := b[..|b| - 1];
      assert (a + b)[..|a + b| - 1] == a + b';
      assert (a + b)[|a + b| - 1] == b[|b| - 1];
      RunConcat(a, b');
      var pa := Run(a);
      var pb' := Run(b');
      if pa.error.None? && pb'.error.None? {
        match b[|b| - 1]
        case Skip =>
        case Add(e) => assert pa.entries + pb'.entries + [e] == pa.entries + (pb'.entries + [e]);
        case Fail(err, partial) =>
          assert pa.entries + pb'.entries + partial == pa.entries + (pb'.entries + partial);
      }
    }
  }

  /** The loop succeeds exactly when no step fails. */
  lemma {:induction false} RunSucceeds(steps: seq<StepResult>)
    ensures Run(steps).error.None? <==> forall i :: 0 <= i < |steps| ==> !steps[i].Fail?
  {
    if steps != [] {
      var init := steps[..|steps| - 1];
      RunSucceeds(init);
      assert forall i :: 0 <= i < |init| ==> init[i] == steps[i];
    }
  }

  /** The loop stops at the first failing step: everything before it was
      written, the failure's half-written entry stays, nothing after it is. */
  lemma {:induction false} FirstFailure(steps: seq<StepResult>)
    ensures Run(steps).error.Some? ==>
      exists k :: 0 <= k < |steps| && Run(steps[..k]).error.None? && steps[k].Fail?
        && Run(steps) == Progress(Run(steps[..k]).entries + steps[k].partial, Some(steps[k].error))
  {
    if Run(steps).error.Some? {
      var init := steps[..|steps| - 1];
      if Run(init).error.Some? {
        FirstFailure(init);
        var k :| 0 <= k < |init| && Run(init[..k]).error.None? && init[k].Fail?
          && Run(init) == Progress(Run(init[..k]).entries + init[k].partial, Some(init[k].error));
        assert init[..k] == steps[..k] && init[k] == steps[k];
      } else {
        var k := |steps| - 1;
        assert steps[..k] == init;
      }
    }
  }

  /** The error a loop ends with is the error of one of its failing steps. */
  lemma {:induction false} RunErrorOrigin(steps: seq<StepResult>)
    ensures Run(steps).error.Some? ==>
      exists k :: 0 <= k < |steps| && steps[k].Fail? && Run(steps).error == Some(steps[k].error)
  {
    if Run(steps).error.Some? {
      var init := steps[..|steps| - 1];
      RunLast(steps, |steps| - 1);
      assert steps[..|steps|] == steps;
      if Run(init).error.Some? {
        RunErrorOrigin(init);
        var k :| 0 <= k < |init| && init[k].Fail? && Run(init).error == Some(init[k].error);
        assert init[k] == steps[k];
      }
    }
  }

  /** archive fails only with an open, relative-name or copy error once the
      output is created. */
  lemma ArchiveErrors(fs: Node, cwd: string, sources: seq<string>, basePath: string, outputPath: string)
    ensures var out := ArchiveSpec(fs, cwd, sources, basePath, outputPath);
      out.Created? && out.error.Some? ==>
        out.error.value.OpenFailed? || out.error.value.RelFailed? || out.error.value.CopyFailed?
  {
    var steps := Steps(fs, cwd, sources, basePath, outputPath);
    RunErrorOrigin(steps);
    if Run(steps).error.Some? {
      var k :| 0 <= k < |steps| && steps[k].Fail? && Run(steps).error == Some(steps[k].error);
      StepErrors(fs, cwd, sources[k], basePath, outputPath);
    }
  }

  /** One source is skipped exactly when its absolute path is the output. */
  lemma StepSkip(fs: Node, cwd: string, source: string, basePath: string, outputPath: string)
    ensures SourceStep(fs, cwd, source, basePath, outputPath).Skip? <==> Abs(cwd, source) == outputPath
  {
  }

  /** An entry a source adds carries its relative name and bytes. */
  lemma StepEntry(fs: Node, cwd: string, source: string, basePath: string, outputPath: string)
    ensures SourceStep(fs, cwd, source, basePath, outputPath).Add? ==>
      EntryOf(fs, cwd, source, basePath, SourceStep(fs, cwd, source, basePath, outputPath).entry)
  {
  }

  /** A source fails by an open, a Rel or a copy error. */
  lemma StepErrors(fs: Node, cwd: string, source: string, basePath: string, outputPath: string)
    ensures var step := SourceStep(fs, cwd, source, basePath, outputPath);
      step.Fail? ==> step.error.OpenFailed? || step.error.RelFailed? || step.error.CopyFailed?
  {
  }

  lemma StepsInit(fs: Node, cwd: string, sources: seq<string>, basePath: string, outputPath: string)
    requires sources != []
    ensures Steps(fs, cwd, sources, basePath, outputPath)[..|sources| - 1]
      == Steps(fs, cwd, sources[..|sources| - 1], basePath, outputPath)
  {
  }

  /** A successful loop leaves one entry per kept source, in order, each with
      that source's relative name and bytes. */
  lemma {:induction false} ArchiveEntries(fs: Node, cwd: string, sources: seq<string>, basePath: string, outputPath: string)
    requires Run(Steps(fs, cwd, sources, basePath, outputPath)).error.None?
    ensures var es := Run(Steps(fs, cwd, sources, basePath, outputPath)).entries;
      var kept := Kept(cwd, sources, outputPath);
      && |es| == |kept|
      && forall i :: 0 <= i < |es| ==> EntryOf(fs, cwd, kept[i], basePath, es[i])
  {
    if sources != [] {
      var init := sources[..|sources| - 1];
      var last := sources[|sources| - 1];
      var steps := Steps(fs, cwd, sources, basePath, outputPath);
      StepsInit(fs, cwd, sources, basePath, outputPath);
      var p := Run(Steps(fs, cwd, init, basePath, outputPath));
      assert p.error.None?;
      ArchiveEntries(fs, cwd, init, basePath, outputPath);
      StepEntry(fs, cwd, last, basePath, outputPath);
      var step := steps[|steps| - 1];
      var ki := Kept(cwd, init, outputPath);
      if step.Add? {
        assert Run(steps).entries == p.entries + [step.entry];
        assert Kept(cwd, sources, outputPath) == ki + [last];
        EntriesSnoc(fs, cwd, basePath, p.entries, ki, step.entry, last);
      } else {
        assert step.Skip?;
        assert Run(steps).entries == p.entries;
        assert Kept(cwd, sources, outputPath) == ki;
      }
    }
  }

  /** Entries matching the kept sources pairwise still match after one more of each. */
  lemma EntriesSnoc(fs: Node, cwd: string, basePath: string, es: seq<Entry>, kept: seq<string>, e: Entry, x: string)
    requires |es| == |kept| && forall i :: 0 <= i < |es| ==> EntryOf(fs, cwd, kept[i], basePath, es[i])
    requires EntryOf(fs, cwd, x, basePath, e)
    ensures |es + [e]| == |kept + [x]|
    ensures forall i :: 0 <= i < |es + [e]| ==> EntryOf(fs, cwd, (kept + [x])[i], basePath, (es + [e])[i])
  {
    forall i | 0 <= i < |es + [e]|
      ensures EntryOf(fs, cwd, (kept + [x])[i], basePath, (es + [e])[i])
    {
      if i < |es| {
        assert (kept + [x])[i] == kept[i] && (es + [e])[i] == es[i];
      }
    }
  }

  /** The steps that are not skips. */
  function NoSkips(steps: seq<StepResult>): (r: seq<StepResult>)
    ensures forall i :: 0 <= i < |r| ==> !r[i].Skip?
  {
    if steps == [] then []
    else NoSkips(steps[..|steps| - 1]) + (if steps[|steps| - 1].Skip? then [] else [steps[|steps| - 1]])
  }

  /** Skips write nothing and fail nothing. */
  lemma {:induction false} RunNoSkips(steps: seq<StepResult>)
    ensures Run(NoSkips(steps)) == Run(steps)
  {
    if steps != [] {
      var init := steps[..|steps| - 1];
      var last := steps[|steps| - 1];
      RunNoSkips(init);
      if !last.Skip? {
        var r := NoSkips(init) + [last];
        assert r[..|r| - 1] == NoSkips(init) && r[|r| - 1] == last;
      } else {
        assert NoSkips(steps) == NoSkips(init) + [] == NoSkips(init);
        assert Run(steps) == Run(init);
      }
    }
  }

  /** The steps of the kept sources are the steps that are not skips. */
  lemma {:induction false} StepsKept(fs: Node, cwd: string, sources: seq<string>, basePath: string, outputPath: string)
    ensures Steps(fs, cwd, Kept(cwd, sources, outputPath), basePath, outputPath)
      == NoSkips(Steps(fs, cwd, sources, basePath, outputPath))
  {
    if sources != [] {
      var init := sources[..|sources| - 1];
      var last := sources[|sources| - 1];
      var step := SourceStep(fs, cwd, last, basePath, outputPath);
      var ki := Kept(cwd, init, outputPath);
      StepsKept(fs, cwd, init, basePath, outputPath);
      assert NoSkips(Steps(fs, cwd, sources, basePath, outputPath))
        == NoSkips(Steps(fs, cwd, init, basePath, outputPath)) + (if step.Skip? then [] else [step]) by {
        StepsInit(fs, cwd, sources, basePath, outputPath);
      }
      assert step.Skip? <==> Abs(cwd, last) == outputPath by {
        StepSkip(fs, cwd, last, basePath, outputPath);
      }
      if !step.Skip? {
        StepsSnoc(fs, cwd, ki, last, basePath, outputPath);
      }
    }
  }

  lemma StepsSnoc(fs: Node, cwd: string, xs: seq<string>, x: string, basePath: string, outputPath: string)
    ensures Steps(fs, cwd, xs + [x], basePath, outputPath)
      == Steps(fs, cwd, xs, basePath, outputPath) + [SourceStep(fs, cwd, x, basePath, outputPath)]
  {
  }

  /** The self-check: dropping the sources that spell the output path changes
      nothing, so the archive never contains itself. */
  lemma SkipsOutput(fs: Node, cwd: string, sources: seq<string>, basePath: string, outputPath: string)
    ensures Run(Steps(fs, cwd, Kept(cwd, sources, outputPath), basePath, outputPath))
      == Run(Steps(fs, cwd, sources, basePath, outputPath))
  {
    StepsKept(fs, cwd, sources, basePath, outputPath);
    RunNoSkips(Steps(fs, cwd, sources, basePath, outputPath));
  }

  /** Base-path remapping: a file `at` below a root is named `at` when the
      base path is the root, and `n/at` when the base path is the root's
      parent and `n` the root's own name. */
  lemma BaseRemap(parent: string, root: string, n: string, at: seq<string>)
    requires ValidName(n) && ValidNames(at) && at != []
    requires Clean(root) == Extend(Clean(parent), [n])
    ensures var source := Format(Extend(Clean(root), at));
      && Rel(root, source) == Ok(Key(at))
      && Rel(parent, source) == Ok(n + [Sep] + Key(at))
  {
    var source := Format(Extend(Clean(root), at));
    assert Clean(source) == Extend(Clean(root), at) by {
      CleanWellFormed(root);
      ExtendWellFormed(Clean(root), at);
      CleanFormat(Extend(Clean(root), at));
    }
    assert Rel(root, source) == Ok(Key(at)) by {
      RelDescendant(root, source, at);
    }
    assert Clean(source) == Extend(Clean(parent), [n] + at) by {
      ExtendTwice(Clean(parent), [n], at);
    }
    assert Rel(parent, source) == Ok(n + [Sep] + Key(at)) by {
      NameBelow(parent, source, [n], at);
    }
  }

  // ------------------------------------------------------- implementation

  /** The output file on disk; `entries` are what a zip reader finds in it. */
  class OutputFile {
    const path: string
    var entries: seq<Entry>
    var closed: bool

    /** os.Create: an empty (truncated) file. */
    constructor (path: string)
      ensures this.path == path && entries == [] && !closed
    {
      this.path := path;
      entries := [];
      closed := false;
    }

    method Close()
      modifies this
      ensures closed && entries == old(entries)
    {
      closed := true;
    }
  }

  /** zip.Writer over an output file: entries are created one at a time and
      written to; Close writes the directory that makes them readable. */
  class ZipWriter {
    const file: OutputFile
    var entries: seq<Entry>
    var closed: bool

    constructor (file: OutputFile)
      ensures this.file == file && entries == [] && !closed
    {
      this.file := file;
      entries := [];
      closed := false;
    }

    /** w.Create(name): start a new, empty entry. */
    method Create(name: string)
      requires !closed
      modifies this
      ensures entries == old(entries) + [Entry(name, [])] && !closed
    {
      entries := entries + [Entry(name, [])];
    }

    /** Write bytes to the entry created last. */
    method Write(data: seq<byte>)
      requires !closed && entries != []
      modifies this
      ensures !closed
      ensures entries == old(entries)[..|old(entries)| - 1]
        + [Entry(old(entries)[|old(entries)| - 1].name, old(entries)[|old(entries)| - 1].data + data)]
    {
      var last := entries[|entries| - 1];
      entries := entries[..|entries| - 1] + [Entry(last.name, last.data + data)];
    }

    method Close()
      requires !closed && !file.closed
      modifies this, file
      ensures closed && entries == old(entries)
      ensures file.entries == entries && !file.closed
    {
      file.entries := entries;
      closed := true;
    }
  }

  /** The body of the loop for one source (the closure run per source):
      returns early with nil for the output itself, and otherwise opens,
      relativises, creates the entry and copies into it, returning the first
      error. The source file it opens is closed on every path. */
  method AddSource(w: ZipWriter, fs: Node, cwd: string, source: string, basePath: string, outputPath: string)
    returns (err: Option<Error>)
    requires !w.closed
    modifies w
    ensures !w.closed
    ensures Progress(w.entries, err) == Apply(Progress(old(w.entries), None), SourceStep(fs, cwd, source, basePath, outputPath))
  {
    ghost var step := SourceStep(fs, cwd, source, basePath, outputPath);
    var abs := Abs(cwd, source);
    if outputPath == abs {
      assert step == Skip;
      return None;
    }
    var st := Resolve(fs, cwd, source);
    if !st.Found? || st.node.Denied? {
      assert step == Fail(OpenFailed(source), []);
      return Some(OpenFailed(source));
    }
    var rel := Rel(basePath, source);
    if rel.Err? {
      assert step == Fail(rel.error, []);
      return Some(rel.error);
    }
    ghost var before := w.entries;
    w.Create(rel.value);
    if st.node.Dir? {
      assert step == Fail(CopyFailed(source), [Entry(rel.value, [])]);
      return Some(CopyFailed(source));
    }
    assert step == Add(Entry(rel.value, st.node.data));
    w.Write(st.node.data);
    assert (before + [Entry(rel.value, [])])[..|before|] == before;
    assert [] + st.node.data == st.node.data;
    return None;
  }

  /** The loop of archive over all sources, writing to `w`, stopping at the
      first error. */
  method AddSources(w: ZipWriter, fs: Node, cwd: string, sources: seq<string>, basePath: string, outputPath: string)
    returns (err: Option<Error>)
    requires !w.closed && w.entries == []
    modifies w
    ensures !w.closed
    ensures Run(Steps(fs, cwd, sources, basePath, outputPath)) == Progress(w.entries, err)
  {
    ghost var steps := Steps(fs, cwd, sources, basePath, outputPath);
    err := None;
    var i := 0;
    while i < |sources|
      invariant i <= |sources| && err.None? && !w.closed
      invariant Run(steps[..i]) == Progress(w.entries, None)
    {
      RunLast(steps, i);
      err := AddSource(w, fs, cwd, sources[i], basePath, outputPath);
      if err.Some? {
        RunStops(steps, i + 1);
        return;
      }
      i := i + 1;
    }
    assert steps[..i] == steps;
  }

  /** archive(sources, basePath, outputPath). Returns the output file (null
      when it could not be created) and the error, if any. The writer and the
      file are closed on every path that created them. */
  method WriteArchive(fs: Node, cwd: string, sources: seq<string>, basePath: string, outputPath: string)
    returns (file: OutputFile?, err: Option<Error>)
    ensures file == null <==> !CanCreate(fs, cwd, outputPath)
    ensures file == null ==> err == Some(CreateFailed(outputPath))
    ensures file != null ==> file.closed && file.path == outputPath
    ensures ArchiveSpec(fs, cwd, sources, basePath, outputPath)
      == if file == null then NotCreated(CreateFailed(outputPath)) else Created(file.entries, err)
  {
    if !CanCreate(fs, cwd, outputPath) {
      return null, Some(CreateFailed(outputPath));
    }
    var zipFile := new OutputFile(outputPath);
    var w := new ZipWriter(zipFile);
    err := AddSources(w, fs, cwd, sources, basePath, outputPath);
    w.Close();
    zipFile.Close();
    file := zipFile;
  }
}
