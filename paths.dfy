/** Slash-separated path strings as Go's path/filepath package treats them on a
    Unix host: splitting on '/', lexical cleaning (Clean), joining (Join),
    absolutising against a working directory (Abs) and relativising (Rel). */
module Paths {
  import opened Outcomes

  const Sep: char := '/'

  /** The pieces of `s` between separators; "a//b/" splits into "a", "", "b", "". */
  function Split(s: string): (r: seq<string>)
    ensures |r| >= 1
    ensures forall i :: 0 <= i < |r| ==> Sep !in r[i]
  {
    if s == [] then [""]
    else
      var t := Split(s[1..]);
      if s[0] == Sep then [""] + t else [[s[0]] + t[0]] + t[1..]
  }

  /** The segments separated by single separators. */
  function Join(segs: seq<string>): string
  {
    if segs == [] then ""
    else if |segs| == 1 then segs[0]
    else segs[0] + [Sep] + Join(segs[1..])
  }

  predicate IsAbs(s: string)
  {
    |s| > 0 && s[0] == Sep
  }

  /** A cleaned path: whether it starts at the root, and its segments. The
      unrooted path with no segment is ".", the rooted one is "/". */
  datatype CleanPath = CleanPath(rooted: bool, segs: seq<string>)

  /** What Clean produces: no empty or "." segment, no separator inside a
      segment, ".." only as a leading run of a relative path. */
  ghost predicate WellFormed(c: CleanPath)
  {
    && (forall i :: 0 <= i < |c.segs| ==> c.segs[i] != "" && c.segs[i] != "." && Sep !in c.segs[i])
    && (forall i, j :: 0 <= i < j < |c.segs| && c.segs[j] == ".." ==> c.segs[i] == "..")
    && (c.rooted ==> forall i :: 0 <= i < |c.segs| ==> c.segs[i] != "..")
  }

  /** A name a directory entry can have. */
  predicate ValidName(n: string)
  {
    n != "" && n != "." && n != ".." && Sep !in n
  }

  predicate ValidNames(at: seq<string>)
  {
    forall i :: 0 <= i < |at| ==> ValidName(at[i])
  }

  /** One step of Clean's scan: drop an empty or "." segment, let ".." undo the
      previous real segment (or vanish at the root, or stay in a relative path). */
  function Step(acc: seq<string>, x: string, rooted: bool): seq<string>
  {
    if x == "" || x == "." then acc
    else if x == ".." then
      if |acc| > 0 && acc[|acc| - 1] != ".." then acc[..|acc| - 1]
      else if rooted then acc
      else acc + [x]
    else acc + [x]
  }

  function Fold(acc: seq<string>, xs: seq<string>, rooted: bool): seq<string>
    decreases |xs|
  {
    if xs == [] then acc else Fold(Step(acc, xs[0], rooted), xs[1..], rooted)
  }

  /** filepath.Clean, in canonical form. */
  function Clean(s: string): CleanPath
  {
    CleanPath(IsAbs(s), Fold([], Split(s), IsAbs(s)))
  }

  /** A cleaned path is canonical, and rooted exactly when the input is. */
  lemma CleanWellFormed(s: string)
    ensures WellFormed(Clean(s))
    ensures Clean(s).rooted == IsAbs(s)
  {
    FoldWellFormed([], Split(s), IsAbs(s));
  }

  /** The string spelling of a cleaned path. */
  function Format(c: CleanPath): string
  {
    if c.rooted then [Sep] + Join(c.segs)
    else if c.segs == [] then "."
    else Join(c.segs)
  }

  /** filepath.Clean as a string function. */
  function CleanString(s: string): string
  {
    Format(Clean(s))
  }

  function Extend(c: CleanPath, at: seq<string>): CleanPath
  {
    CleanPath(c.rooted, c.segs + at)
  }

  /** The relative spelling of the segments `at`; "." when there are none. */
  function Key(at: seq<string>): string
  {
    Format(CleanPath(false, at))
  }

  /** filepath.Join (and path.Join) of two elements: empty elements are
      dropped, the rest joined by a separator and cleaned. */
  function JoinPath(a: string, b: string): string
  {
    if a != "" then CleanString(a + [Sep] + b)
    else if b != "" then CleanString(b)
    else ""
  }

  /** filepath.Abs, with `cwd` the working directory. */
  function Abs(cwd: string, s: string): string
  {
    if IsAbs(s) then CleanString(s) else JoinPath(cwd, s)
  }

  function CommonPrefix(a: seq<string>, b: seq<string>): (k: nat)
    ensures k <= |a| && k <= |b|
    ensures a[..k] == b[..k]
    ensures k < |a| && k < |b| ==> a[k] != b[k]
  {
    if a == [] || b == [] || a[0] != b[0] then 0
    else
      var k := CommonPrefix(a[1..], b[1..]);
      assert a[..k + 1] == [a[0]] + a[1..][..k];
      assert b[..k + 1] == [b[0]] + b[1..][..k];
      1 + k
  }

  function Dots(n: nat): seq<string>
  {
    if n == 0 then [] else [".."] + Dots(n - 1)
  }

  /** filepath.Rel: `targpath` relative to `basepath`, both cleaned first.
      Fails when exactly one of them is rooted, or when `basepath` has a ".."
      segment the common prefix does not cover. */
  function Rel(basepath: string, targpath: string): Result<string, Error>
  {
    RelFrom(basepath, Clean(basepath), targpath)
  }

  /** filepath.Rel with the base path already cleaned to `b`. */
  function RelFrom(basepath: string, b: CleanPath, targpath: string): Result<string, Error>
  {
    var t := Clean(targpath);
    if b == t then Ok(".")
    else if b.rooted != t.rooted then Err(RelFailed(targpath, basepath))
    else
      // only the base "." is read as empty; a target "." stays one segment
      var ts := if t.segs == [] && !t.rooted then ["."] else t.segs;
      var k := CommonPrefix(b.segs, ts);
      var rb := b.segs[k..];
      var rt := ts[k..];
      if rb != [] && rb[0] == ".." then Err(RelFailed(targpath, basepath))
      else Ok(Join(Dots(|rb|) + rt))
  }

  // ---------------------------------------------------------------- lemmas

  lemma {:induction false} SplitNoSep(a: string)
    requires Sep !in a
    ensures Split(a) == [a]
  {
    if a != [] {
      SplitNoSep(a[1..]);
      assert [a[0]] + a[1..] == a;
    }
  }

  lemma {:induction false} SplitConcat(a: string, b: string)
    ensures Split(a + [Sep] + b) == Split(a) + Split(b)
  {
    if a == [] {
      assert a + [Sep] + b == [Sep] + b;
      assert ([Sep] + b)[1..] == b;
    } else {
      assert (a + [Sep] + b)[1..] == a[1..] + [Sep] + b;
      SplitConcat(a[1..], b);
    }
  }

  lemma {:induction false} SplitJoin(segs: seq<string>)
    requires |segs| >= 1
    requires forall i :: 0 <= i < |segs| ==> Sep !in segs[i]
    ensures Split(Join(segs)) == segs
  {
    if |segs| == 1 {
      SplitNoSep(segs[0]);
    } else {
      SplitConcat(segs[0], Join(segs[1..]));
      SplitNoSep(segs[0]);
      SplitJoin(segs[1..]);
    }
  }

  lemma {:induction false} FoldAppend(acc: seq<string>, a: seq<string>, b: seq<string>, rooted: bool)
    ensures Fold(acc, a + b, rooted) == Fold(Fold(acc, a, rooted), b, rooted)
    decreases |a|
  {
    if a != [] {
      assert (a + b)[0] == a[0] && (a + b)[1..] == a[1..] + b;
      FoldAppend(Step(acc, a[0], rooted), a[1..], b, rooted);
    } else {
      assert a + b == b;
    }
  }

  lemma {:induction false} FoldWellFormed(acc: seq<string>, xs: seq<string>, rooted: bool)
    requires WellFormed(CleanPath(rooted, acc))
    requires forall i :: 0 <= i < |xs| ==> Sep !in xs[i]
    ensures WellFormed(CleanPath(rooted, Fold(acc, xs, rooted)))
    decreases |xs|
  {
    if xs != [] {
      var x := xs[0];
      var next := Step(acc, x, rooted);
      if x == ".." && !(|acc| > 0 && acc[|acc| - 1] != "..") && !rooted {
        assert forall i :: 0 <= i < |acc| ==> acc[i] == "..";
      }
      assert WellFormed(CleanPath(rooted, next));
      FoldWellFormed(next, xs[1..], rooted);
    }
  }

  /** Clean leaves an already clean segment list alone. */
  lemma {:induction false} FoldClean(acc: seq<string>, xs: seq<string>, rooted: bool)
    requires WellFormed(CleanPath(rooted, acc + xs))
    ensures Fold(acc, xs, rooted) == acc + xs
    decreases |xs|
  {
    if xs != [] {
      var all := acc + xs;
      assert all[|acc|] == xs[0];
      if xs[0] == ".." {
        assert forall i :: 0 <= i < |acc| ==> acc[i] == all[i] == "..";
      }
      assert Step(acc, xs[0], rooted) == acc + [xs[0]];
      assert acc + [xs[0]] + xs[1..] == all;
      FoldClean(acc + [xs[0]], xs[1..], rooted);
    } else {
      assert acc + xs == acc;
    }
  }

  /** Round trip: cleaning the spelling of a cleaned path gives it back. */
  lemma CleanFormat(c: CleanPath)
    requires WellFormed(c)
    ensures Clean(Format(c)) == c
  {
    if c.rooted {
      CleanFormatRooted(c.segs);
    } else if c.segs == [] {
      SplitNoSep(".");
    } else {
      CleanFormatRelative(c.segs);
    }
  }

  lemma CleanFormatRooted(segs: seq<string>)
    requires WellFormed(CleanPath(true, segs))
    ensures Clean([Sep] + Join(segs)) == CleanPath(true, segs)
  {
    var s := [Sep] + Join(segs);
    assert s == [] + [Sep] + Join(segs);
    SplitConcat([], Join(segs));
    if segs == [] {
      assert Split(s) == ["", ""];
      assert Fold([], ["", ""], true) == Fold([], [""], true) == [];
    } else {
      SplitJoin(segs);
      assert Split(s) == [""] + segs;
      FoldClean([], segs, true);
    }
  }

  lemma CleanFormatRelative(segs: seq<string>)
    requires WellFormed(CleanPath(false, segs)) && segs != []
    ensures Clean(Join(segs)) == CleanPath(false, segs)
  {
    SplitJoin(segs);
    FoldClean([], segs, false);
    assert segs[0] != "" && Sep !in segs[0];
    assert Join(segs)[0] == segs[0][0];
  }

  lemma FormatInjective(c: CleanPath, d: CleanPath)
    requires WellFormed(c) && WellFormed(d)
    requires Format(c) == Format(d)
    ensures c == d
  {
    CleanFormat(c);
    CleanFormat(d);
  }

  /** Clean is idempotent. */
  lemma CleanIdempotent(s: string)
    ensures Clean(CleanString(s)) == Clean(s)
  {
    CleanWellFormed(s);
    CleanFormat(Clean(s));
  }

  /** A trailing separator does not change a cleaned path, so "ignore/" and
      "ignore" are the same key. */
  lemma CleanTrailingSep(s: string)
    requires s != ""
    ensures Clean(s + [Sep]) == Clean(s)
  {
    assert s + [Sep] == s + [Sep] + "";
    SplitConcat(s, "");
    FoldAppend([], Split(s), [""], IsAbs(s));
  }

  /** Cleaning a path with one more valid name appends that name. */
  lemma CleanChild(s: string, n: string)
    requires s != "" && ValidName(n)
    ensures Clean(s + [Sep] + n) == Extend(Clean(s), [n])
    ensures JoinPath(s, n) == Format(Extend(Clean(s), [n]))
  {
    SplitConcat(s, n);
    SplitNoSep(n);
    FoldAppend([], Split(s), [n], IsAbs(s));
    assert (s + [Sep] + n)[0] == s[0];
  }

  lemma {:induction false} CommonPrefixOfExtension(p: seq<string>, q: seq<string>)
    ensures CommonPrefix(p, p + q) == |p|
  {
    if p != [] {
      assert (p + q)[0] == p[0] && (p + q)[1..] == p[1..] + q;
      CommonPrefixOfExtension(p[1..], q);
    }
  }

  /** Extending by `a` and then by `b` is extending by `a + b`. */
  lemma ExtendTwice(c: CleanPath, a: seq<string>, b: seq<string>)
    ensures Extend(Extend(c, a), b) == Extend(c, a + b)
  {
    assert c.segs + a + b == c.segs + (a + b);
  }

  /** Three extensions in a row are one extension, and the last two are one. */
  lemma ExtendChain(c0: CleanPath, c1: CleanPath, c2: CleanPath, c3: CleanPath, a: seq<string>, b: seq<string>, d: seq<string>)
    requires c1 == Extend(c0, a) && c2 == Extend(c1, b) && c3 == Extend(c2, d)
    ensures c3 == Extend(c1, b + d)
    ensures c3 == Extend(c0, a + b + d)
  {
    assert c1.segs + b + d == c1.segs + (b + d);
    assert c0.segs + a + b + d == c0.segs + (a + b + d);
  }

  /** Appending valid names to a cleaned path keeps it clean. */
  lemma ExtendWellFormed(c: CleanPath, at: seq<string>)
    requires WellFormed(c) && ValidNames(at)
    ensures WellFormed(Extend(c, at))
  {
    var e := Extend(c, at);
    forall i, j | 0 <= i < j < |e.segs| && e.segs[j] == ".." ensures e.segs[i] == ".." {
      assert j < |c.segs|;
    }
  }

  lemma FormatNonEmpty(c: CleanPath)
    requires WellFormed(c)
    ensures Format(c) != ""
  {
    if !c.rooted && c.segs != [] {
      assert c.segs[0] != "";
      assert |Join(c.segs)| >= |c.segs[0]|;
    }
  }

  /** Joining a valid name to a path gives a non-empty path that cleans to
      the cleaned path extended by that name. */
  lemma JoinChild(s: string, n: string)
    requires s != "" && ValidName(n)
    ensures JoinPath(s, n) != ""
    ensures Clean(JoinPath(s, n)) == Extend(Clean(s), [n])
  {
    CleanChild(s, n);
    CleanWellFormed(s);
    ExtendWellFormed(Clean(s), [n]);
    CleanFormat(Extend(Clean(s), [n]));
    FormatNonEmpty(Extend(Clean(s), [n]));
  }

  /** A leading ".." of a relative path is never undone. */
  lemma {:induction false} FoldKeepsDots(acc: seq<string>, xs: seq<string>)
    requires acc != [] && acc[0] == ".."
    ensures ".." in Fold(acc, xs, false)
    decreases |xs|
  {
    if xs != [] {
      var next := Step(acc, xs[0], false);
      assert next != [] && next[0] == "..";
      FoldKeepsDots(next, xs[1..]);
    } else {
      assert acc[0] in acc;
    }
  }

  /** Cleaning relative segments that never climb above their start gives the
      same result below any prefix `c`, rooted or not. */
  lemma {:induction false} FoldShift(c: seq<string>, acc: seq<string>, xs: seq<string>, rooted: bool)
    requires ".." !in acc && ".." !in Fold(acc, xs, false)
    ensures Fold(c + acc, xs, rooted) == c + Fold(acc, xs, false)
    decreases |xs|
  {
    if xs != [] {
      var x := xs[0];
      if x == ".." && acc == [] {
        FoldKeepsDots(Step(acc, x, false), xs[1..]);
        assert false;
      }
      var next := Step(acc, x, false);
      assert Step(c + acc, x, rooted) == c + next by {
        if x == ".." {
          assert acc[|acc| - 1] in acc;
          assert (c + acc)[..|c + acc| - 1] == c + acc[..|acc| - 1];
        } else if x != "" && x != "." {
          assert c + acc + [x] == c + (acc + [x]);
        }
      }
      assert ".." !in next by {
        if x == ".." {
          assert forall y :: y in acc[..|acc| - 1] ==> y in acc;
        }
      }
      FoldShift(c, next, xs[1..], rooted);
    } else {
      assert c + acc == c + acc;
    }
  }

  /** Joining a relative path whose cleaned segments `xs` are valid names
      extends the cleaned base by `xs`: "." adds nothing, "a/b" adds two. */
  lemma JoinRelative(s: string, x: string, xs: seq<string>)
    requires s != "" && ValidNames(xs) && Clean(x) == CleanPath(false, xs)
    ensures JoinPath(s, x) != ""
    ensures Clean(JoinPath(s, x)) == Extend(Clean(s), xs)
  {
    var r := IsAbs(s);
    assert IsAbs(s + [Sep] + x) == r;
    CleanIdempotent(s + [Sep] + x);
    CleanWellFormed(s + [Sep] + x);
    FormatNonEmpty(Clean(s + [Sep] + x));
    SplitConcat(s, x);
    FoldAppend([], Split(s), Split(x), r);
    assert ".." !in xs by {
      forall i | 0 <= i < |xs| ensures xs[i] != ".." {
        assert ValidName(xs[i]);
      }
    }
    FoldShift(Clean(s).segs, [], Split(x), r);
    assert Clean(s).segs + [] == Clean(s).segs;
  }

  /** A join onto a non-empty path is a cleaned spelling. */
  lemma JoinIsClean(a: string, b: string)
    requires a != ""
    ensures JoinPath(a, b) != ""
    ensures JoinPath(a, b) == Format(Clean(JoinPath(a, b)))
  {
    CleanIdempotent(a + [Sep] + b);
    CleanWellFormed(a + [Sep] + b);
    FormatNonEmpty(Clean(a + [Sep] + b));
  }

  /** Abs gives a cleaned spelling, so two sources that clean alike have the
      same absolute path. */
  lemma AbsIsClean(cwd: string, s: string)
    requires cwd != ""
    ensures Abs(cwd, s) == Format(Clean(Abs(cwd, s)))
  {
    if IsAbs(s) {
      CleanIdempotent(s);
    } else {
      JoinIsClean(cwd, s);
    }
  }

  /** A path below `base` is named by the segments below it: "." for `base`
      itself, "a/b" for base/a/b. */
  lemma RelDescendant(base: string, t: string, at: seq<string>)
    requires ValidNames(at)
    requires Clean(t) == Extend(Clean(base), at)
    ensures Rel(base, t) == Ok(Key(at))
  {
    RelFromDescendant(base, Clean(base), t, at);
  }

  lemma RelFromDescendant(base: string, b: CleanPath, t: string, at: seq<string>)
    requires ValidNames(at)
    requires Clean(t) == Extend(b, at)
    ensures RelFrom(base, b, t) == Ok(Key(at))
  {
    if at == [] {
      assert b.segs + at == b.segs;
    } else {
      assert |Clean(t).segs| > |b.segs|;
      CommonPrefixOfExtension(b.segs, at);
      assert Clean(t).segs[|b.segs|..] == at;
      assert Dots(0) + at == at;
    }
  }

  lemma {:induction false} JoinAppend(a: seq<string>, b: seq<string>)
    requires a != [] && b != []
    ensures Join(a + b) == Join(a) + [Sep] + Join(b)
  {
    if |a| == 1 {
      assert (a + b)[1..] == b;
    } else {
      assert (a + b)[1..] == a[1..] + b;
      JoinAppend(a[1..], b);
    }
  }

  /** The file `at` below the directory `pre` below `base` is named
      `pre/at` relative to `base`. */
  lemma NameBelow(base: string, file: string, pre: seq<string>, at: seq<string>)
    requires ValidNames(pre) && ValidNames(at) && pre != [] && at != []
    requires Clean(file) == Extend(Clean(base), pre + at)
    ensures Rel(base, file) == Ok(Join(pre) + [Sep] + Key(at))
  {
    RelDescendant(base, file, pre + at);
    JoinAppend(pre, at);
  }
}
