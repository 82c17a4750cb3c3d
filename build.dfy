/** build: the configuration check, the overwrite guard, the expansion of
    every configured source below the source directory, the choice of the
    base path for entry names, and the call to archive. */
module Build {
  import opened Outcomes
  import opened Paths
  import opened FileTree
  import opened Expand
  import opened Archive

  /** The builder's configuration (the fields build reads). */
  datatype Config = Config(
    sources: seq<string>,
    outputName: string,
    overwriteExisting: bool,
    ignore: seq<string>,
    collapseTopLevelFolder: bool)

  /** ConfigSet's validation: the configuration is refused exactly when it
      names no source. */
  function ConfigSet(c: Config): (r: Option<Error>)
    ensures r.Some? <==> |c.sources| == 0
    ensures r.Some? ==> r.value == EmptySources
  {
    if |c.sources| == 0 then Some(EmptySources) else None
  }

  /** The directory the sources are relative to: the working directory
      joined with the path of the project's source. */
  function SourcePath(cwd: string, dir: string): string
  {
    JoinPath(cwd, dir)
  }

  function OutputPath(sourcePath: string, c: Config): string
  {
    JoinPath(sourcePath, c.outputName)
  }

  /** Entry names are relative to the source directory when the top-level
      folder is collapsed, and to the working directory otherwise. */
  function BasePath(c: Config, cwd: string, sourcePath: string): string
  {
    if c.collapseTopLevelFolder then sourcePath else cwd
  }

  // ------------------------------------------------------- expansion of all sources

  /** The expansion of every configured source, in order. */
  function Expansions(fs: Node, cwd: string, sourcePath: string, srcs: seq<string>, ignore: seq<string>)
    : seq<Result<seq<string>, Error>>
  {
    seq(|srcs|, i requires 0 <= i < |srcs| => ExpandSpec(fs, cwd, JoinPath(sourcePath, srcs[i]), ignore))
  }

  /** The build loop's result: the lists concatenated in order, or the first
      error. */
  function Gather(rs: seq<Result<seq<string>, Error>>): Result<seq<string>, Error>
  {
    if rs == [] then Ok([])
    else match Gather(rs[..|rs| - 1])
      case Err(e) => Err(e)
      case Ok(xs) =>
        (match rs[|rs| - 1]
         case Err(e) => Err(e)
         case Ok(ys) => Ok(xs + ys))
  }

  lemma GatherLast(rs: seq<Result<seq<string>, Error>>, i: nat)
    requires i < |rs| && Gather(rs[..i]).Ok?
    ensures rs[i].Err? ==> Gather(rs[..i + 1]) == Err(rs[i].error)
    ensures rs[i].Ok? ==> Gather(rs[..i + 1]) == Ok(Gather(rs[..i]).value + rs[i].value)
  {
    assert rs[..i + 1][..i] == rs[..i];
  }

  /** Once a source has failed to expand, the later sources change nothing. */
  lemma {:induction false} GatherStops(rs: seq<Result<seq<string>, Error>>, k: nat)
    requires k <= |rs| && Gather(rs[..k]).Err?
    ensures Gather(rs) == Gather(rs[..k])
    decreases |rs|
  {
    if k == |rs| {
      assert rs[..k] == rs;
    } else {
      var init := rs[..|rs| - 1];
      assert init[..k] == rs[..k];
      GatherStops(init, k);
    }
  }

  /** Expanding `a + b` is expanding `a`, then `b`, and concatenating. */
  lemma {:induction false} GatherConcat(a: seq<Result<seq<string>, Error>>, b: seq<Result<seq<string>, Error>>)
    ensures Gather(a + b) == match Gather(a)
      case Err(e) => Err(e)
      case Ok(xs) =>
        (match Gather(b)
         case Err(e) => Err(e)
         case Ok(ys) => Ok(xs + ys))
    decreases |b|
  {
    if b == [] {
      assert a + b == a;
      if Gather(a).Ok? {
        assert Gather(a).value + [] == Gather(a).value;
      }
    } else {
      var b' := b[..|b| - 1];
      assert (a + b)[..|a + b| - 1] == a + b';
      assert (a + b)[|a + b| - 1] == b[|b| - 1];
      GatherConcat(a, b');
      if Gather(a).Ok? && Gather(b').Ok? && b[|b| - 1].Ok? {
        var xs, ys, zs := Gather(a).value, Gather(b').value, b[|b| - 1].value;
        assert xs + ys + zs == xs + (ys + zs);
      }
    }
  }

  /** The loop succeeds exactly when every source expands. */
  lemma {:induction false} GatherOk(rs: seq<Result<seq<string>, Error>>)
    ensures Gather(rs).Ok? <==> forall i :: 0 <= i < |rs| ==> rs[i].Ok?
  {
    if rs != [] {
      var init := rs[..|rs| - 1];
      GatherOk(init);
      assert forall i :: 0 <= i < |init| ==> init[i] == rs[i];
    }
  }

  /** A failed loop reports the error of some source's expansion. */
  lemma {:induction false} GatherError(rs: seq<Result<seq<string>, Error>>)
    requires Gather(rs).Err?
    ensures exists i :: 0 <= i < |rs| && rs[i] == Err(Gather(rs).error)
  {
    var init := rs[..|rs| - 1];
    if Gather(init).Err? {
      GatherError(init);
      var i :| 0 <= i < |init| && init[i] == Err(Gather(init).error);
      assert rs[i] == init[i];
    }
  }

  // ------------------------------------------------------- build

  /** What build returns (the archive's output path, or an error) and what it
      leaves in the output file, when it created one. */
  datatype BuildOutcome = BuildOutcome(result: Result<string, Error>, written: Option<seq<Entry>>)

  function BuildSpec(fs: Node, cwd: string, c: Config, dir: string): BuildOutcome
  {
    var sourcePath := SourcePath(cwd, dir);
    var outputPath := OutputPath(sourcePath, c);
    if !c.overwriteExisting && FileExists(fs, cwd, outputPath) then BuildOutcome(Err(OutputExists), None)
    else match Gather(Expansions(fs, cwd, sourcePath, c.sources, c.ignore))
      case Err(e) => BuildOutcome(Err(e), None)
      case Ok(xs) =>
        (match ArchiveSpec(fs, cwd, xs, BasePath(c, cwd, sourcePath), outputPath)
         case NotCreated(e) => BuildOutcome(Err(e), None)
         case Created(es, err) => BuildOutcome(if err.Some? then Err(err.value) else Ok(outputPath), Some(es)))
  }

  /** The loop of build over the configured sources: each is joined onto the
      source directory and expanded, and the lists are appended in order; the
      first error ends the loop. */
  method ExpandAll(fs: Node, cwd: string, sourcePath: string, srcs: seq<string>, ignore: seq<string>)
    returns (r: Result<seq<string>, Error>)
    requires WF(fs)
    ensures r == Gather(Expansions(fs, cwd, sourcePath, srcs, ignore))
  {
    ghost var rs := Expansions(fs, cwd, sourcePath, srcs, ignore);
    var xsources := [];
    for i := 0 to |srcs|
      invariant Gather(rs[..i]) == Ok(xsources)
    {
      GatherLast(rs, i);
      var x := ExpandSource(fs, cwd, JoinPath(sourcePath, srcs[i]), ignore);
      if x.Err? {
        GatherStops(rs, i + 1);
        return Err(x.error);
      }
      xsources := xsources + x.value;
    }
    assert rs[..|srcs|] == rs;
    return Ok(xsources);
  }

  /** build(source) with working directory `cwd` and project source path
      `dir`. Returns the output path or an error, and the output file when
      one was created. */
  method Build(fs: Node, cwd: string, c: Config, dir: string) returns (r: Result<string, Error>, file: OutputFile?)
    requires WF(fs)
    ensures BuildSpec(fs, cwd, c, dir) == BuildOutcome(r, if file == null then None else Some(file.entries))
    ensures file != null ==> file.closed && file.path == OutputPath(SourcePath(cwd, dir), c)
  {
    var sourcePath := JoinPath(cwd, dir);
    var outputPath := JoinPath(sourcePath, c.outputName);
    if !c.overwriteExisting && FileExists(fs, cwd, outputPath) {
      return Err(OutputExists), null;
    }
    var expanded := ExpandAll(fs, cwd, sourcePath, c.sources, c.ignore);
    if expanded.Err? {
      return Err(expanded.error), null;
    }
    var xsources := expanded.value;
    var basePath := cwd;
    if c.collapseTopLevelFolder {
      basePath := sourcePath;
    }
    var err;
    file, err := WriteArchive(fs, cwd, xsources, basePath, outputPath);
    if err.Some? {
      r := Err(err.value);
    } else {
      r := Ok(outputPath);
    }
  }

  // ------------------------------------------------------- properties

  /** No source expansion reports "Output file already exists". */
  lemma GatherNotOutputExists(fs: Node, cwd: string, sourcePath: string, srcs: seq<string>, ignore: seq<string>)
    ensures Gather(Expansions(fs, cwd, sourcePath, srcs, ignore)).Err? ==>
      Gather(Expansions(fs, cwd, sourcePath, srcs, ignore)).error != OutputExists
  {
    var rs := Expansions(fs, cwd, sourcePath, srcs, ignore);
    if Gather(rs).Err? {
      GatherError(rs);
      var i :| 0 <= i < |rs| && rs[i] == Err(Gather(rs).error);
      ExpandErrors(fs, cwd, JoinPath(sourcePath, srcs[i]), ignore);
    }
  }

  /** Nor does archive. */
  lemma ArchiveNotOutputExists(fs: Node, cwd: string, xs: seq<string>, basePath: string, outputPath: string)
    ensures ArchiveSpec(fs, cwd, xs, basePath, outputPath).NotCreated? ==>
      ArchiveSpec(fs, cwd, xs, basePath, outputPath).createError != OutputExists
    ensures ArchiveSpec(fs, cwd, xs, basePath, outputPath).Created? ==>
      ArchiveSpec(fs, cwd, xs, basePath, outputPath).error != Some(OutputExists)
  {
    ArchiveErrors(fs, cwd, xs, basePath, outputPath);
  }

  /** In build the output path is a cleaned spelling, so the self-check of
      archive skips exactly the sources that clean to the output path. */
  lemma OutputSkipped(fs: Node, cwd: string, c: Config, dir: string, basePath: string, x: string)
    requires cwd != ""
    ensures var outputPath := OutputPath(SourcePath(cwd, dir), c);
      SourceStep(fs, cwd, x, basePath, outputPath).Skip? <==> Clean(Abs(cwd, x)) == Clean(outputPath)
  {
    var outputPath := OutputPath(SourcePath(cwd, dir), c);
    JoinIsClean(cwd, dir);
    JoinIsClean(SourcePath(cwd, dir), c.outputName);
    AbsIsClean(cwd, x);
    StepSkip(fs, cwd, x, basePath, outputPath);
  }

  /** The overwrite guard: without OverwriteExisting an existing output aborts
      the build before anything is expanded or written, and that is the only
      way a build fails with "Output file already exists". */
  lemma OverwriteGuard(fs: Node, cwd: string, c: Config, dir: string)
    ensures var outputPath := OutputPath(SourcePath(cwd, dir), c);
      (BuildSpec(fs, cwd, c, dir).result == Err(OutputExists))
        <==> !c.overwriteExisting && FileExists(fs, cwd, outputPath)
    ensures BuildSpec(fs, cwd, c, dir).result == Err(OutputExists) ==> BuildSpec(fs, cwd, c, dir).written.None?
  {
    var sourcePath := SourcePath(cwd, dir);
    var outputPath := OutputPath(sourcePath, c);
    GatherNotOutputExists(fs, cwd, sourcePath, c.sources, c.ignore);
    var g := Gather(Expansions(fs, cwd, sourcePath, c.sources, c.ignore));
    if g.Ok? {
      ArchiveNotOutputExists(fs, cwd, g.value, BasePath(c, cwd, sourcePath), outputPath);
    }
  }

  /** A successful build leaves an archive with one entry per expanded file
      (other than the output itself), in order, named relative to the chosen
      base path and holding the file's bytes. */
  lemma BuildEntries(fs: Node, cwd: string, c: Config, dir: string)
    requires BuildSpec(fs, cwd, c, dir).result.Ok?
    ensures var sourcePath := SourcePath(cwd, dir);
      var outputPath := OutputPath(sourcePath, c);
      var xs := Gather(Expansions(fs, cwd, sourcePath, c.sources, c.ignore));
      && BuildSpec(fs, cwd, c, dir).result == Ok(outputPath)
      && xs.Ok?
      && BuildSpec(fs, cwd, c, dir).written.Some?
      && var es := BuildSpec(fs, cwd, c, dir).written.value;
         var kept := Kept(cwd, xs.value, outputPath);
         && |es| == |kept|
         && forall i :: 0 <= i < |es| ==>
              && kept[i] in xs.value
              && Abs(cwd, kept[i]) != outputPath
              && EntryOf(fs, cwd, kept[i], BasePath(c, cwd, sourcePath), es[i])
  {
    var sourcePath := SourcePath(cwd, dir);
    var outputPath := OutputPath(sourcePath, c);
    var xs := Gather(Expansions(fs, cwd, sourcePath, c.sources, c.ignore)).value;
    ArchiveEntries(fs, cwd, xs, BasePath(c, cwd, sourcePath), outputPath);
  }

  /** The file `at` below source `src` of project directory `dir`, cleaned,
      is below the project directory and below the working directory. The
      directory and the source are relative paths whose cleaned segments `ds`
      and `ss` are names: "." (no segment) and "a/b" are both allowed. */
  lemma ProjectFilePath(cwd: string, dir: string, src: string, ds: seq<string>, ss: seq<string>, at: seq<string>)
    requires cwd != "" && ValidNames(ds) && ValidNames(ss) && ValidNames(at)
    requires Clean(dir) == CleanPath(false, ds) && Clean(src) == CleanPath(false, ss)
    ensures var file := PathAt(JoinPath(SourcePath(cwd, dir), src), at);
      && Clean(file) == Extend(Clean(SourcePath(cwd, dir)), ss + at)
      && Clean(file) == Extend(Clean(cwd), ds + ss + at)
  {
    var sourcePath := SourcePath(cwd, dir);
    var root := JoinPath(sourcePath, src);
    SourceRootClean(cwd, dir, src, ds, ss);
    PathAtClean(root, at);
    ExtendChain(Clean(cwd), Clean(sourcePath), Clean(root), Clean(PathAt(root, at)), ds, ss, at);
  }

  /** The source root `src` of project directory `dir`, cleaned. */
  lemma SourceRootClean(cwd: string, dir: string, src: string, ds: seq<string>, ss: seq<string>)
    requires cwd != "" && ValidNames(ds) && ValidNames(ss)
    requires Clean(dir) == CleanPath(false, ds) && Clean(src) == CleanPath(false, ss)
    ensures SourcePath(cwd, dir) != ""
    ensures Clean(SourcePath(cwd, dir)) == Extend(Clean(cwd), ds)
    ensures Clean(JoinPath(SourcePath(cwd, dir), src)) == Extend(Clean(SourcePath(cwd, dir)), ss)
  {
    JoinRelative(cwd, dir, ds);
    JoinRelative(SourcePath(cwd, dir), src, ss);
  }

  /** Naming with and without CollapseTopLevelFolder: the file `at` below the
      configured source `src` of project directory `dir` is named `ss/at`
      relative to the project directory and `ds/ss/at` relative to the
      working directory, `ds` and `ss` being their cleaned segments. With
      the source "." the first name is just `at`. */
  lemma CollapseNaming(cwd: string, dir: string, src: string, ds: seq<string>, ss: seq<string>, at: seq<string>)
    requires cwd != "" && ValidNames(ds) && ValidNames(ss) && ValidNames(at)
    requires Clean(dir) == CleanPath(false, ds) && Clean(src) == CleanPath(false, ss)
    ensures Rel(SourcePath(cwd, dir), PathAt(JoinPath(SourcePath(cwd, dir), src), at)) == Ok(Key(ss + at))
    ensures Rel(cwd, PathAt(JoinPath(SourcePath(cwd, dir), src), at)) == Ok(Key(ds + ss + at))
  {
    var file := PathAt(JoinPath(SourcePath(cwd, dir), src), at);
    ProjectFilePath(cwd, dir, src, ds, ss, at);
    assert Rel(SourcePath(cwd, dir), file) == Ok(Key(ss + at)) by {
      RelDescendant(SourcePath(cwd, dir), file, ss + at);
    }
    assert Rel(cwd, file) == Ok(Key(ds + ss + at)) by {
      RelDescendant(cwd, file, ds + ss + at);
    }
  }

  /** The documented configuration sources = ["."] with the top-level folder
      collapsed: a file is named by its path below the project directory. */
  lemma DotSourceNaming(cwd: string, dir: string, ds: seq<string>, at: seq<string>)
    requires cwd != "" && ValidNames(ds) && ValidNames(at) && Clean(dir) == CleanPath(false, ds)
    ensures Rel(SourcePath(cwd, dir), PathAt(JoinPath(SourcePath(cwd, dir), "."), at)) == Ok(Key(at))
  {
    assert Clean(".") == CleanPath(false, []) by {
      SplitNoSep(".");
    }
    CollapseNaming(cwd, dir, ".", ds, [], at);
    assert [] + at == at;
  }
}
