/** expandSource: the files below a source root, in walk order, with the
    ignore list applied to paths relative to that root. */
module Expand {
  import opened Outcomes
  import opened Paths
  import opened FileTree

  // ------------------------------------------------------- specification

  /** The ignore lookup: every ignore entry, cleaned. */
  function IgnoreKeys(ignore: seq<string>): set<string>
  {
    set x | x in ignore :: CleanString(x)
  }

  /** What a walk of one subtree yields: the root-relative segments of the
      files it emits, in order, or the directory whose listing failed. */
  datatype WalkOutcome = Listed(rels: seq<seq<string>>) | Aborted(at: seq<string>)

  /** filepath.Walk with the expander's walker, from node `n` at root-relative
      segments `at`: an unreadable directory aborts (even an ignored one, since
      its listing is read before the walker sees it); an ignored directory is
      pruned; a directory emits nothing itself; a file is emitted unless its
      relative path is ignored. */
  function WalkNode(n: Node, at: seq<string>, keys: set<string>): WalkOutcome
    decreases n, 1, 0
  {
    match n
    case Denied(isDir) =>
      if isDir then Aborted(at)
      else if Key(at) in keys then Listed([]) else Listed([at])
    case Dir(cs) =>
      if Key(at) in keys then Listed([]) else WalkChildren(n, at, |cs|, keys)
    case File(_) =>
      if Key(at) in keys then Listed([]) else Listed([at])
  }

  /** The walk of the first `k` children of directory `n`, stopping at the
      first failure. */
  function WalkChildren(n: Node, at: seq<string>, k: nat, keys: set<string>): WalkOutcome
    requires n.Dir? && k <= |n.children|
    decreases n, 0, k
  {
    if k == 0 then Listed([])
    else
      match WalkChildren(n, at, k - 1, keys)
      case Aborted(x) => Aborted(x)
      case Listed(a) =>
        var c := n.children[k - 1];
        match WalkNode(c.node, at + [c.name], keys)
        case Aborted(x) => Aborted(x)
        case Listed(b) => Listed(a + b)
  }

  /** The path string the walk passes for the node at `at`: the root as given,
      every node below it joined onto it (and therefore cleaned). */
  function PathAt(source: string, at: seq<string>): string
  {
    PathFrom(source, Clean(source), at)
  }

  /** PathAt, with `root` the source already cleaned. */
  function PathFrom(source: string, root: CleanPath, at: seq<string>): string
  {
    if at == [] then source else Format(Extend(root, at))
  }

  function PathsAt(source: string, root: CleanPath, rels: seq<seq<string>>): (ps: seq<string>)
    ensures |ps| == |rels|
  {
    if rels == [] then [] else [PathFrom(source, root, rels[0])] + PathsAt(source, root, rels[1..])
  }

  /** expandSource(source, ignore) on filesystem `fs` with working directory `cwd`. */
  function ExpandSpec(fs: Node, cwd: string, source: string, ignore: seq<string>): Result<seq<string>, Error>
  {
    match Resolve(fs, cwd, source)
    case Found(n) =>
      (match WalkNode(n, [], IgnoreKeys(ignore))
       case Listed(rels) => Ok(PathsAt(source, Clean(source), rels))
       case Aborted(at) => Err(ReadDirFailed(PathAt(source, at))))
    case _ => Err(LstatFailed(source))
  }

  // ------------------------------------------------------- properties

  /** Expansion fails only by a stat or a listing error. */
  lemma ExpandErrors(fs: Node, cwd: string, source: string, ignore: seq<string>)
    ensures ExpandSpec(fs, cwd, source, ignore).Err? ==>
      ExpandSpec(fs, cwd, source, ignore).error.LstatFailed? || ExpandSpec(fs, cwd, source, ignore).error.ReadDirFailed?
  {
  }


  /** The file or directory at `r`, below the walk start `at`, is reached
      without passing an ignored directory, and is not ignored itself. */
  ghost predicate Visible(r: seq<string>, from: nat, keys: set<string>)
  {
    forall j :: from <= j <= |r| ==> Key(r[..j]) !in keys
  }

  /** `r` is a file below `n` (which sits at `at`) that the walk may emit. */
  ghost predicate Emittable(n: Node, at: seq<string>, r: seq<string>, keys: set<string>)
  {
    && |at| <= |r| && r[..|at|] == at
    && Lookup(n, r[|at|..]).Found? && !IsDirNode(Lookup(n, r[|at|..]).node)
    && Visible(r, |at|, keys)
  }

  /** Matching is exact: a relative path is ignored precisely when some ignore
      entry cleans to it (so "file.txt" matches the root's file.txt only). */
  lemma IgnoredIffCleansTo(ignore: seq<string>, at: seq<string>)
    requires ValidNames(at)
    ensures Key(at) in IgnoreKeys(ignore) <==> exists x :: x in ignore && Clean(x) == CleanPath(false, at)
  {
    var c := CleanPath(false, at);
    assert WellFormed(c);
    if Key(at) in IgnoreKeys(ignore) {
      var x :| x in ignore && CleanString(x) == Key(at);
      CleanWellFormed(x);
      FormatInjective(Clean(x), c);
    }
  }

  /** A trailing separator on any ignore entry changes nothing. */
  lemma IgnoreTrailingSep(pre: seq<string>, s: string, post: seq<string>)
    requires s != ""
    ensures IgnoreKeys(pre + [s + [Sep]] + post) == IgnoreKeys(pre + [s] + post)
  {
    CleanTrailingSep(s);
    var a := pre + [s + [Sep]] + post;
    var b := pre + [s] + post;
    assert forall x :: x in a <==> x in pre || x == s + [Sep] || x in post;
    assert forall x :: x in b <==> x in pre || x == s || x in post;
    forall k | k in IgnoreKeys(a) ensures k in IgnoreKeys(b) {
      var x :| x in a && CleanString(x) == k;
      if x == s + [Sep] { assert s in b; } else { assert x in b; }
    }
    forall k | k in IgnoreKeys(b) ensures k in IgnoreKeys(a) {
      var x :| x in b && CleanString(x) == k;
      if x == s { assert s + [Sep] in a; } else { assert x in a; }
    }
  }


  lemma EmittableInChild(n: Node, at: seq<string>, i: nat, r: seq<string>, keys: set<string>)
    requires WF(n) && n.Dir? && i < |n.children|
    requires Key(at) !in keys
    requires Emittable(n.children[i].node, at + [n.children[i].name], r, keys)
    ensures Emittable(n, at, r, keys)
    ensures |r| > |at| && r[|at|] == n.children[i].name
  {
    var c := n.children[i];
    assert r[..|at| + 1] == at + [c.name];
    assert r[..|at|] == (at + [c.name])[..|at|] == at;
    assert r[|at|..] == [c.name] + r[|at| + 1..];
    LookupChild(n, i, r[|at| + 1..]);
  }

  /** Soundness: the walk emits only non-directories below its start, each
      reached without crossing an ignored directory and not ignored itself. */
  lemma WalkSound(n: Node, at: seq<string>, keys: set<string>)
    requires WF(n)
    ensures WalkNode(n, at, keys).Listed? ==>
      forall r :: r in WalkNode(n, at, keys).rels ==> Emittable(n, at, r, keys)
    decreases n, 1, 0
  {
    if n.Dir? && Key(at) !in keys {
      ChildrenSound(n, at, |n.children|, keys);
    } else if !IsDirNode(n) {
      assert at[..|at|] == at && at[|at|..] == [];
    }
  }

  lemma ChildrenSound(n: Node, at: seq<string>, k: nat, keys: set<string>)
    requires WF(n) && n.Dir? && k <= |n.children| && Key(at) !in keys
    ensures WalkChildren(n, at, k, keys).Listed? ==>
      && (forall r :: r in WalkChildren(n, at, k, keys).rels ==> Emittable(n, at, r, keys))
      && (forall r :: r in WalkChildren(n, at, k, keys).rels ==>
            |r| > |at| && forall j :: k <= j < |n.children| ==> StrLess(r[|at|], n.children[j].name))
    decreases n, 0, k
  {
    if k > 0 && WalkChildren(n, at, k, keys).Listed? {
      ChildrenSound(n, at, k - 1, keys);
      var c := n.children[k - 1];
      WalkSound(c.node, at + [c.name], keys);
      SoundConcat(n, at, k, keys, WalkChildren(n, at, k - 1, keys).rels, WalkNode(c.node, at + [c.name], keys).rels);
    }
  }

  /** The files of the first `k - 1` children followed by those of child
      `k - 1` are all emittable and all sort before the later children. */
  lemma SoundConcat(n: Node, at: seq<string>, k: nat, keys: set<string>, a: seq<seq<string>>, b: seq<seq<string>>)
    requires WF(n) && n.Dir? && 0 < k <= |n.children| && Key(at) !in keys
    requires forall r :: r in a ==> Emittable(n, at, r, keys)
    requires forall r :: r in a ==>
      |r| > |at| && forall j :: k - 1 <= j < |n.children| ==> StrLess(r[|at|], n.children[j].name)
    requires forall r :: r in b ==> Emittable(n.children[k - 1].node, at + [n.children[k - 1].name], r, keys)
    ensures forall r :: r in a + b ==> Emittable(n, at, r, keys)
    ensures forall r :: r in a + b ==>
      |r| > |at| && forall j :: k <= j < |n.children| ==> StrLess(r[|at|], n.children[j].name)
  {
    forall r | r in b
      ensures Emittable(n, at, r, keys)
      ensures |r| > |at| && forall j :: k <= j < |n.children| ==> StrLess(r[|at|], n.children[j].name)
    {
      EmittableInChild(n, at, k - 1, r, keys);
    }
  }

  /** Completeness: every file below the start that is visible is emitted. */
  lemma WalkComplete(n: Node, at: seq<string>, rel: seq<string>, keys: set<string>)
    requires WF(n)
    requires Lookup(n, rel).Found? && !IsDirNode(Lookup(n, rel).node)
    requires Visible(at + rel, |at|, keys)
    ensures WalkNode(n, at, keys).Listed? ==> at + rel in WalkNode(n, at, keys).rels
    decreases n, 1, 0
  {
    assert (at + rel)[..|at|] == at;
    if rel == [] {
      assert at + rel == at;
    } else {
      var i := FindChild(n.children, rel[0]).value;
      ChildComplete(n, at, |n.children|, i, rel, keys);
    }
  }

  lemma ChildComplete(n: Node, at: seq<string>, k: nat, i: nat, rel: seq<string>, keys: set<string>)
    requires WF(n) && n.Dir? && i < k <= |n.children|
    requires rel != [] && rel[0] == n.children[i].name
    requires Lookup(n.children[i].node, rel[1..]).Found? && !IsDirNode(Lookup(n.children[i].node, rel[1..]).node)
    requires Visible(at + rel, |at|, keys)
    ensures WalkChildren(n, at, k, keys).Listed? ==> at + rel in WalkChildren(n, at, k, keys).rels
    decreases n, 0, k
  {
    if WalkChildren(n, at, k, keys).Listed? {
      if i < k - 1 {
        ChildComplete(n, at, k - 1, i, rel, keys);
      } else {
        var c := n.children[i];
        var at' := at + [c.name];
        assert at + rel == at' + rel[1..];
        forall j | |at'| <= j <= |at' + rel[1..]|
          ensures Key((at' + rel[1..])[..j]) !in keys
        {
          assert (at' + rel[1..])[..j] == (at + rel)[..j];
        }
        WalkComplete(c.node, at', rel[1..], keys);
      }
    }
  }

  /** An unreadable directory the walk reports is below the start and reached
      without crossing an ignored directory. */
  lemma WalkAbortSound(n: Node, at: seq<string>, keys: set<string>)
    requires WF(n)
    ensures WalkNode(n, at, keys).Aborted? ==>
      var x := WalkNode(n, at, keys).at;
      && |at| <= |x| && x[..|at|] == at
      && Lookup(n, x[|at|..]) == Found(Denied(true))
      && forall j :: |at| <= j < |x| ==> Key(x[..j]) !in keys
    decreases n, 1, 0
  {
    if n.Dir? && Key(at) !in keys {
      ChildrenAbortSound(n, at, |n.children|, keys);
    } else if n.Denied? {
      assert at[..|at|] == at && at[|at|..] == [];
    }
  }

  lemma ChildrenAbortSound(n: Node, at: seq<string>, k: nat, keys: set<string>)
    requires WF(n) && n.Dir? && k <= |n.children| && Key(at) !in keys
    ensures WalkChildren(n, at, k, keys).Aborted? ==>
      var x := WalkChildren(n, at, k, keys).at;
      && |at| <= |x| && x[..|at|] == at
      && Lookup(n, x[|at|..]) == Found(Denied(true))
      && forall j :: |at| <= j < |x| ==> Key(x[..j]) !in keys
    decreases n, 0, k
  {
    if k > 0 && WalkChildren(n, at, k, keys).Aborted? {
      if WalkChildren(n, at, k - 1, keys).Aborted? {
        ChildrenAbortSound(n, at, k - 1, keys);
      } else {
        var c := n.children[k - 1];
        WalkAbortSound(c.node, at + [c.name], keys);
        AbortInChild(n, at, k - 1, WalkNode(c.node, at + [c.name], keys).at, keys);
      }
    }
  }

  /** An unreadable directory below child `i` is one below its parent. */
  lemma AbortInChild(n: Node, at: seq<string>, i: nat, x: seq<string>, keys: set<string>)
    requires WF(n) && n.Dir? && i < |n.children| && Key(at) !in keys
    requires var at' := at + [n.children[i].name];
      && |at'| <= |x| && x[..|at'|] == at'
      && Lookup(n.children[i].node, x[|at'|..]) == Found(Denied(true))
      && forall j :: |at'| <= j < |x| ==> Key(x[..j]) !in keys
    ensures && |at| <= |x| && x[..|at|] == at
      && Lookup(n, x[|at|..]) == Found(Denied(true))
      && forall j :: |at| <= j < |x| ==> Key(x[..j]) !in keys
  {
    var c := n.children[i];
    assert x[..|at| + 1] == at + [c.name];
    assert x[..|at|] == at;
    assert x[|at|..] == [c.name] + x[|at| + 1..];
    LookupChild(n, i, x[|at| + 1..]);
  }

  /** No unreadable directory the walk can reach goes unnoticed: the walk of a
      subtree holding one that no ignored directory hides has no listing. */
  lemma WalkAbortComplete(n: Node, at: seq<string>, rel: seq<string>, keys: set<string>)
    requires WF(n)
    requires Lookup(n, rel) == Found(Denied(true))
    requires forall j :: |at| <= j < |at + rel| ==> Key((at + rel)[..j]) !in keys
    ensures WalkNode(n, at, keys).Aborted?
    decreases n, 1, 0
  {
    if rel != [] {
      assert (at + rel)[..|at|] == at;
      var i := FindChild(n.children, rel[0]).value;
      ChildAbortComplete(n, at, |n.children|, i, rel, keys);
    }
  }

  lemma ChildAbortComplete(n: Node, at: seq<string>, k: nat, i: nat, rel: seq<string>, keys: set<string>)
    requires WF(n) && n.Dir? && i < k <= |n.children|
    requires rel != [] && rel[0] == n.children[i].name
    requires Lookup(n.children[i].node, rel[1..]) == Found(Denied(true))
    requires forall j :: |at| <= j < |at + rel| ==> Key((at + rel)[..j]) !in keys
    ensures WalkChildren(n, at, k, keys).Aborted?
    decreases n, 0, k
  {
    if i < k - 1 {
      ChildAbortComplete(n, at, k - 1, i, rel, keys);
    } else if WalkChildren(n, at, k - 1, keys).Listed? {
      var c := n.children[i];
      var at' := at + [c.name];
      assert at + rel == at' + rel[1..];
      forall j | |at'| <= j < |at' + rel[1..]|
        ensures Key((at' + rel[1..])[..j]) !in keys
      {
        assert (at' + rel[1..])[..j] == (at + rel)[..j];
      }
      WalkAbortComplete(c.node, at', rel[1..], keys);
    }
  }

  /** Lexical order on segment lists: a proper prefix comes first, otherwise
      the first differing segment decides. Pre-order over sorted listings. */
  predicate SegsLess(x: seq<string>, y: seq<string>)
  {
    if x == [] then y != []
    else y != [] && (StrLess(x[0], y[0]) || (x[0] == y[0] && SegsLess(x[1..], y[1..])))
  }

  ghost predicate StrictlySorted(rs: seq<seq<string>>)
  {
    forall i, j :: 0 <= i < j < |rs| ==> SegsLess(rs[i], rs[j])
  }

  lemma {:induction false} SegsLessAt(x: seq<string>, y: seq<string>, k: nat)
    requires k < |x| && k < |y| && x[..k] == y[..k] && StrLess(x[k], y[k])
    ensures SegsLess(x, y)
  {
    if k > 0 {
      assert x[0] == x[..k][0] == y[..k][0] == y[0];
      assert x[1..][..k - 1] == x[1..k] == x[..k][1..];
      assert y[1..][..k - 1] == y[1..k] == y[..k][1..];
      SegsLessAt(x[1..], y[1..], k - 1);
    }
  }

  lemma {:induction false} SegsLessIrreflexive(x: seq<string>)
    ensures !SegsLess(x, x)
  {
    if x != [] {
      StrLessIrreflexive(x[0]);
      SegsLessIrreflexive(x[1..]);
    }
  }

  /** Walk order is lexical pre-order: the emitted paths strictly increase,
      so no file is emitted twice. */
  lemma WalkSorted(n: Node, at: seq<string>, keys: set<string>)
    requires WF(n)
    ensures WalkNode(n, at, keys).Listed? ==> StrictlySorted(WalkNode(n, at, keys).rels)
    decreases n, 1, 0
  {
    if n.Dir? && Key(at) !in keys {
      ChildrenSorted(n, at, |n.children|, keys);
    }
  }

  lemma ChildrenSorted(n: Node, at: seq<string>, k: nat, keys: set<string>)
    requires WF(n) && n.Dir? && k <= |n.children| && Key(at) !in keys
    ensures WalkChildren(n, at, k, keys).Listed? ==> StrictlySorted(WalkChildren(n, at, k, keys).rels)
    decreases n, 0, k
  {
    if k > 0 && WalkChildren(n, at, k, keys).Listed? {
      var a := WalkChildren(n, at, k - 1, keys).rels;
      var c := n.children[k - 1];
      var b := WalkNode(c.node, at + [c.name], keys).rels;
      ChildrenSorted(n, at, k - 1, keys);
      ChildrenSound(n, at, k - 1, keys);
      WalkSorted(c.node, at + [c.name], keys);
      WalkSound(c.node, at + [c.name], keys);
      SortedStep(n, at, k, keys, a, b);
    }
  }

  /** The sorted files of the first `k - 1` children followed by the sorted
      files of child `k - 1` are sorted. */
  lemma SortedStep(n: Node, at: seq<string>, k: nat, keys: set<string>, a: seq<seq<string>>, b: seq<seq<string>>)
    requires WF(n) && n.Dir? && 0 < k <= |n.children| && Key(at) !in keys
    requires StrictlySorted(a) && StrictlySorted(b)
    requires forall r :: r in a ==> Emittable(n, at, r, keys)
    requires forall r :: r in a ==>
      |r| > |at| && forall j :: k - 1 <= j < |n.children| ==> StrLess(r[|at|], n.children[j].name)
    requires forall r :: r in b ==> Emittable(n.children[k - 1].node, at + [n.children[k - 1].name], r, keys)
    ensures StrictlySorted(a + b)
  {
    var c := n.children[k - 1];
    forall s | s in b ensures |s| > |at| && s[..|at|] == at && s[|at|] == c.name {
      EmittableInChild(n, at, k - 1, s, keys);
    }
    SortedConcat(a, b, at, c.name);
  }

  /** Two sorted listings below `at`, the first branching off before `name`
      and the second inside `name`, concatenate to a sorted listing. */
  lemma SortedConcat(a: seq<seq<string>>, b: seq<seq<string>>, at: seq<string>, name: string)
    requires StrictlySorted(a) && StrictlySorted(b)
    requires forall r :: r in a ==> |r| > |at| && r[..|at|] == at && StrLess(r[|at|], name)
    requires forall s :: s in b ==> |s| > |at| && s[..|at|] == at && s[|at|] == name
    ensures StrictlySorted(a + b)
  {
    var ab := a + b;
    forall i, j | 0 <= i < j < |ab| ensures SegsLess(ab[i], ab[j]) {
      if j < |a| {
        assert ab[i] == a[i] && ab[j] == a[j];
      } else if i >= |a| {
        assert ab[i] == b[i - |a|] && ab[j] == b[j - |a|];
      } else {
        var r, s := a[i], b[j - |a|];
        assert ab[i] == r && ab[j] == s;
        assert r in a && s in b;
        SegsLessAt(r, s, |at|);
      }
    }
  }

  lemma {:induction false} LookupValidNames(n: Node, segs: seq<string>)
    requires WF(n) && Lookup(n, segs).Found?
    ensures ValidNames(segs)
  {
    if segs != [] {
      var i := FindChild(n.children, segs[0]).value;
      LookupValidNames(n.children[i].node, segs[1..]);
      assert forall j :: 1 <= j < |segs| ==> segs[j] == segs[1..][j - 1];
    }
  }

  /** Distinct relative paths give distinct path strings. */
  lemma PathAtInjective(source: string, r1: seq<string>, r2: seq<string>)
    requires ValidNames(r1) && ValidNames(r2)
    requires PathAt(source, r1) == PathAt(source, r2)
    ensures r1 == r2
  {
    PathAtClean(source, r1);
    PathAtClean(source, r2);
    var c := Clean(source).segs;
    assert (c + r1)[|c|..] == r1 && (c + r2)[|c|..] == r2;
  }

  lemma PathsAtMember(source: string, rels: seq<seq<string>>, p: string)
    ensures p in PathsAt(source, Clean(source), rels) <==> exists r :: r in rels && PathAt(source, r) == p
  {
    var ps := PathsAt(source, Clean(source), rels);
    if p in ps {
      var i :| 0 <= i < |ps| && ps[i] == p;
      PathsAtIndex(source, Clean(source), rels, i);
      assert rels[i] in rels;
    }
    if exists r :: r in rels && PathAt(source, r) == p {
      var r :| r in rels && PathAt(source, r) == p;
      var i :| 0 <= i < |rels| && rels[i] == r;
      PathsAtIndex(source, Clean(source), rels, i);
    }
  }

  /** expandSource lists a path below the root exactly when it names a file
      (or other non-directory) reached without crossing an ignored directory
      and not ignored itself; the root counts, with relative path ".". */
  lemma ExpandExact(fs: Node, cwd: string, source: string, ignore: seq<string>, rel: seq<string>)
    requires WF(fs) && ValidNames(rel)
    requires Resolve(fs, cwd, source).Found? && ExpandSpec(fs, cwd, source, ignore).Ok?
    ensures PathAt(source, rel) in ExpandSpec(fs, cwd, source, ignore).value
      <==> Emittable(Resolve(fs, cwd, source).node, [], rel, IgnoreKeys(ignore))
  {
    var n := Resolve(fs, cwd, source).node;
    var keys := IgnoreKeys(ignore);
    LookupWF(fs, Clean(Abs(cwd, source)).segs);
    var rels := WalkNode(n, [], keys).rels;
    PathsAtMember(source, rels, PathAt(source, rel));
    WalkSound(n, [], keys);
    if PathAt(source, rel) in ExpandSpec(fs, cwd, source, ignore).value {
      var r :| r in rels && PathAt(source, r) == PathAt(source, rel);
      assert r[0..] == r;
      LookupValidNames(n, r);
      PathAtInjective(source, r, rel);
    }
    if Emittable(n, [], rel, keys) {
      assert [] + rel == rel && rel[0..] == rel;
      WalkComplete(n, [], rel, keys);
    }
  }

  /** The root is looked up too, under the relative path ".": ignoring "."
      empties the result, and a root that is a single file is listed by the
      path as given unless "." is ignored. */
  lemma RootChecked(fs: Node, cwd: string, source: string, ignore: seq<string>)
    requires Resolve(fs, cwd, source).Found? && Resolve(fs, cwd, source).node != Denied(true)
    ensures "." in IgnoreKeys(ignore) ==> ExpandSpec(fs, cwd, source, ignore) == Ok([])
    ensures !IsDirNode(Resolve(fs, cwd, source).node) && "." !in IgnoreKeys(ignore) ==>
      ExpandSpec(fs, cwd, source, ignore) == Ok([source])
  {
    assert Key([]) == ".";
    var n := Resolve(fs, cwd, source).node;
    if !IsDirNode(n) && "." !in IgnoreKeys(ignore) {
      assert WalkNode(n, [], IgnoreKeys(ignore)) == Listed([[]]);
      assert PathsAt(source, Clean(source), [[]]) == [PathAt(source, [])] + PathsAt(source, Clean(source), []) == [source];
    }
  }

  /** Each file appears once in the result of expandSource. */
  lemma ExpandNoDuplicates(fs: Node, cwd: string, source: string, ignore: seq<string>)
    requires WF(fs)
    ensures ExpandSpec(fs, cwd, source, ignore).Ok? ==>
      var ps := ExpandSpec(fs, cwd, source, ignore).value;
      forall i, j :: 0 <= i < j < |ps| ==> ps[i] != ps[j]
  {
    if ExpandSpec(fs, cwd, source, ignore).Ok? {
      var n := Resolve(fs, cwd, source).node;
      var keys := IgnoreKeys(ignore);
      LookupWF(fs, Clean(Abs(cwd, source)).segs);
      var rels := WalkNode(n, [], keys).rels;
      var ps := PathsAt(source, Clean(source), rels);
      WalkSound(n, [], keys);
      WalkSorted(n, [], keys);
      forall i, j | 0 <= i < j < |ps| ensures ps[i] != ps[j] {
        var r1, r2 := rels[i], rels[j];
        assert r1 in rels && r2 in rels;
        assert r1[0..] == r1 && r2[0..] == r2;
        LookupValidNames(n, r1);
        LookupValidNames(n, r2);
        PathsAtIndex(source, Clean(source), rels, i);
        PathsAtIndex(source, Clean(source), rels, j);
        SegsLessIrreflexive(r1);
        if ps[i] == ps[j] {
          PathAtInjective(source, r1, r2);
        }
      }
    }
  }

  // ------------------------------------------------------- implementation

  /** What the walker and filepath's walk return: nil, SkipDir or an error. */
  datatype Verdict = Continue | SkipDir | Abort(error: Error)

  /** The ignore lookup, filled entry by entry. */
  method BuildLookup(ignore: seq<string>) returns (lookup: set<string>)
    ensures lookup == IgnoreKeys(ignore)
  {
    lookup := {};
    for i := 0 to |ignore|
      invariant lookup == IgnoreKeys(ignore[..i])
    {
      assert ignore[..i + 1] == ignore[..i] + [ignore[i]];
      lookup := lookup + {CleanString(ignore[i])};
    }
    assert ignore[..|ignore|] == ignore;
  }


  /** The path string of the node at `at` cleans to the root's path extended by `at`. */
  lemma PathAtClean(source: string, at: seq<string>)
    requires ValidNames(at)
    ensures Clean(PathAt(source, at)) == Extend(Clean(source), at)
  {
    if at == [] {
      assert Clean(source).segs + at == Clean(source).segs;
    } else {
      CleanWellFormed(source);
      ExtendWellFormed(Clean(source), at);
      CleanFormat(Extend(Clean(source), at));
    }
  }

  /** filepath.Join of the path of the node at `at` and a child's name is the
      child's path, once the node's path is known to clean to `root` extended
      by `at`. */
  lemma JoinBelow(path: string, root: CleanPath, at: seq<string>, name: string)
    requires path != "" && WellFormed(root) && ValidNames(at) && ValidName(name)
    requires Clean(path) == Extend(root, at)
    ensures JoinPath(path, name) == Format(Extend(root, at + [name]))
  {
    JoinChild(path, name);
    JoinIsClean(path, name);
    assert root.segs + at + [name] == root.segs + (at + [name]);
  }

  lemma ValidNamesChild(n: Node, at: seq<string>, i: nat)
    requires WF(n) && n.Dir? && i < |n.children| && ValidNames(at)
    ensures ValidNames(at + [n.children[i].name]) && WF(n.children[i].node)
  {
  }

  /** The state the walker closure captures: the root, the ignore lookup and
      the list of sources it appends to. */
  class Expander {
    const source: string
    /** The root cleaned once; filepath.Rel cleans it again on every call. */
    const root: CleanPath
    const lookup: set<string>
    var sources: seq<string>

    constructor (source: string, lookup: set<string>)
      ensures this.source == source && root == Clean(source) && this.lookup == lookup && sources == []
    {
      this.source := source;
      root := Clean(source);
      this.lookup := lookup;
      sources := [];
    }

    /** Joining any name onto `path`, the path of the node at `at`, gives
        that child's path. */
    ghost predicate ChildPaths(path: string, at: seq<string>)
    {
      forall name {:trigger JoinPath(path, name)} :: ValidName(name) ==>
        JoinPath(path, name) == PathFrom(source, root, at + [name])
    }

    /** The walker closure: for `path`, with `isDir` from its file info and
        `err` the error the walk hands over. */
    method Walker(path: string, isDir: bool, err: Option<Error>) returns (v: Verdict)
      modifies this
      ensures err.Some? ==> v == Abort(err.value) && sources == old(sources)
      ensures err.None? && RelFrom(source, root, path).Err? ==>
        v == Abort(RelFrom(source, root, path).error) && sources == old(sources)
      ensures err.None? && RelFrom(source, root, path).Ok? ==>
        var ignored := RelFrom(source, root, path).value in lookup;
        && (isDir ==> v == (if ignored then SkipDir else Continue) && sources == old(sources))
        && (!isDir ==> v == Continue && sources == old(sources) + (if ignored then [] else [path]))
    {
      if err.Some? {
        return Abort(err.value);
      }
      var rel := RelFrom(source, root, path);
      if rel.Err? {
        return Abort(rel.error);
      }
      var ignore := rel.value in lookup;
      if isDir {
        if ignore {
          return SkipDir;
        }
        return Continue;
      }
      if !ignore {
        sources := sources + [path];
      }
      return Continue;
    }

    /** filepath's walk of the node at `path`: a non-directory goes to the
        walker; a directory is listed and handed to the walker with the listing
        error, and unless that stops it its children are walked. */
    method Walk(path: string, node: Node, ghost at: seq<string>) returns (v: Verdict)
      requires WF(node) && ValidNames(at) && source != "" && WellFormed(root)
      requires path == PathFrom(source, root, at) && Clean(path) == Extend(root, at)
      modifies this
      ensures WalkNode(node, at, lookup).Listed? ==>
        && (v == Continue || (v == SkipDir && IsDirNode(node)))
        && sources == old(sources) + PathsAt(source, root, WalkNode(node, at, lookup).rels)
      ensures WalkNode(node, at, lookup).Aborted? ==>
        v == Abort(ReadDirFailed(PathFrom(source, root, WalkNode(node, at, lookup).at)))
      decreases node, 2
    {
      RelFromDescendant(source, root, path, at);
      if !IsDirNode(node) {
        v := Walker(path, false, None);
        assert PathsAt(source, root, [at]) == [path];
        return;
      }
      var listErr := if node.Denied? then Some(ReadDirFailed(path)) else None;
      var v1 := Walker(path, true, listErr);
      if listErr.Some? || v1 != Continue {
        assert node.Dir? ==> WalkNode(node, at, lookup) == Listed([]);
        return v1;
      }
      assert path != "" by {
        if at != [] {
          ExtendWellFormed(root, at);
          FormatNonEmpty(Extend(root, at));
        }
      }
      forall name | ValidName(name)
        ensures JoinPath(path, name) == PathFrom(source, root, at + [name])
      {
        JoinBelow(path, root, at, name);
      }
      v := WalkEntries(path, node, at);
    }

    /** The loop over a directory's sorted names: each child is walked in
        turn; a SkipDir from a child directory moves on, any other error stops. */
    method WalkEntries(path: string, node: Node, ghost at: seq<string>) returns (v: Verdict)
      requires WF(node) && node.Dir? && ValidNames(at) && source != "" && WellFormed(root)
      requires ChildPaths(path, at)
      modifies this
      ensures WalkChildren(node, at, |node.children|, lookup).Listed? ==>
        v == Continue && sources == old(sources) + PathsAt(source, root, WalkChildren(node, at, |node.children|, lookup).rels)
      ensures WalkChildren(node, at, |node.children|, lookup).Aborted? ==>
        v == Abort(ReadDirFailed(PathFrom(source, root, WalkChildren(node, at, |node.children|, lookup).at)))
      decreases node, 1
    {
      var i := 0;
      while i < |node.children|
        invariant i <= |node.children|
        invariant WalkChildren(node, at, i, lookup).Listed?
        invariant sources == old(sources) + PathsAt(source, root, WalkChildren(node, at, i, lookup).rels)
      {
        var stop;
        stop, v := WalkChild(path, node, at, i, old(sources));
        if stop {
          return;
        }
        i := i + 1;
      }
      return Continue;
    }

    /** One turn of that loop: walk child `i` and decide whether to go on. */
    method WalkChild(path: string, node: Node, ghost at: seq<string>, i: nat, ghost base: seq<string>)
      returns (stop: bool, v: Verdict)
      requires WF(node) && node.Dir? && i < |node.children| && ValidNames(at) && source != "" && WellFormed(root)
      requires ChildPaths(path, at)
      requires WalkChildren(node, at, i, lookup).Listed?
      requires sources == base + PathsAt(source, root, WalkChildren(node, at, i, lookup).rels)
      modifies this
      ensures WalkChildren(node, at, i + 1, lookup).Listed? ==>
        !stop && sources == base + PathsAt(source, root, WalkChildren(node, at, i + 1, lookup).rels)
      ensures WalkChildren(node, at, i + 1, lookup).Aborted? ==> stop
      ensures stop ==> (WalkChildren(node, at, |node.children|, lookup).Aborted? &&
        v == Abort(ReadDirFailed(PathFrom(source, root, WalkChildren(node, at, |node.children|, lookup).at))))
      decreases node, 0
    {
      var c := node.children[i];
      ValidNamesChild(node, at, i);
      var childPath := JoinPath(path, c.name);
      assert Clean(childPath) == Extend(root, at + [c.name]) by {
        ExtendWellFormed(root, at + [c.name]);
        CleanFormat(Extend(root, at + [c.name]));
      }
      ghost var a := WalkChildren(node, at, i, lookup).rels;
      ghost var w := WalkNode(c.node, at + [c.name], lookup);
      v := Walk(childPath, c.node, at + [c.name]);
      ChildStep(node, at, i, lookup);
      stop := v != Continue && (!IsDirNode(c.node) || v != SkipDir);
      if !stop {
        PathsAtAppend(source, root, a, w.rels);
        AppendAssoc(base, PathsAt(source, root, a), PathsAt(source, root, w.rels));
      } else {
        AbortPropagates(node, at, i + 1, |node.children|, lookup);
      }
    }
  }

  lemma AppendAssoc<T>(x: seq<T>, y: seq<T>, z: seq<T>)
    ensures x + y + z == x + (y + z)
  {
  }

  lemma ChildStep(n: Node, at: seq<string>, i: nat, keys: set<string>)
    requires n.Dir? && i < |n.children| && WalkChildren(n, at, i, keys).Listed?
    ensures var w := WalkNode(n.children[i].node, at + [n.children[i].name], keys);
      WalkChildren(n, at, i + 1, keys)
        == if w.Aborted? then w else Listed(WalkChildren(n, at, i, keys).rels + w.rels)
  {
  }

  /** Once a child's walk fails, the walk of the directory fails with it. */
  lemma {:induction false} AbortPropagates(n: Node, at: seq<string>, k: nat, m: nat, keys: set<string>)
    requires n.Dir? && k <= m <= |n.children|
    requires WalkChildren(n, at, k, keys).Aborted?
    ensures WalkChildren(n, at, m, keys) == WalkChildren(n, at, k, keys)
    decreases m
  {
    if k < m {
      AbortPropagates(n, at, k, m - 1, keys);
    }
  }

  lemma {:induction false} PathsAtAppend(source: string, root: CleanPath, a: seq<seq<string>>, b: seq<seq<string>>)
    ensures PathsAt(source, root, a + b) == PathsAt(source, root, a) + PathsAt(source, root, b)
  {
    if a != [] {
      assert (a + b)[0] == a[0] && (a + b)[1..] == a[1..] + b;
      PathsAtAppend(source, root, a[1..], b);
    } else {
      assert a + b == b;
    }
  }

  lemma {:induction false} PathsAtIndex(source: string, root: CleanPath, rels: seq<seq<string>>, i: nat)
    requires i < |rels|
    ensures PathsAt(source, root, rels)[i] == PathFrom(source, root, rels[i])
  {
    if i > 0 {
      PathsAtIndex(source, root, rels[1..], i - 1);
    }
  }

  /** expandSource: build the lookup, stat the root, walk it. */
  method ExpandSource(fs: Node, cwd: string, source: string, ignore: seq<string>)
    returns (r: Result<seq<string>, Error>)
    requires WF(fs)
    ensures r == ExpandSpec(fs, cwd, source, ignore)
  {
    var lookup := BuildLookup(ignore);
    var e := new Expander(source, lookup);
    var st := Resolve(fs, cwd, source);
    var v;
    if !st.Found? {
      v := e.Walker(source, false, Some(LstatFailed(source)));
    } else {
      LookupWF(fs, Clean(Abs(cwd, source)).segs);
      CleanWellFormed(source);
      assert Clean(source) == Extend(Clean(source), []);
      ghost var w := WalkNode(st.node, [], lookup);
      v := e.Walk(source, st.node, []);
      if w.Listed? {
        assert [] + PathsAt(source, e.root, w.rels) == PathsAt(source, e.root, w.rels);
      }
    }
    if v.Abort? {
      return Err(v.error);
    }
    return Ok(e.sources);
  }
}
