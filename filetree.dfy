/** The filesystem the builder reads, as an in-memory tree, with the lookups
    that os.Lstat, os.Stat and os.Open perform on it. */
module FileTree {
  import opened Outcomes
  import opened Paths

  newtype byte = x: int | 0 <= x < 256

  /** A regular file with its bytes, a directory with its listing, or an entry
      the process may not read (a file it cannot open, or a directory whose
      listing it cannot read). */
  datatype Node = File(data: seq<byte>) | Dir(children: seq<Child>) | Denied(isDir: bool)

  datatype Child = Child(name: string, node: Node)

  predicate IsDirNode(n: Node)
  {
    n.Dir? || (n.Denied? && n.isDir)
  }

  /** Byte-wise string order, the order sort.Strings gives directory listings
      (code-point order on characters agrees with the byte order of UTF-8). */
  predicate StrLess(a: string, b: string)
  {
    if a == [] then b != []
    else b != [] && (a[0] < b[0] || (a[0] == b[0] && StrLess(a[1..], b[1..])))
  }

  /** Every directory lists valid names in strictly increasing order. */
  ghost predicate WF(n: Node)
  {
    match n
    case Dir(cs) =>
      && (forall i :: 0 <= i < |cs| ==> ValidName(cs[i].name) && WF(cs[i].node))
      && (forall i, j :: 0 <= i < j < |cs| ==> StrLess(cs[i].name, cs[j].name))
    case _ => true
  }

  /** The outcome of a stat call: the node, "does not exist", or another error
      (a path through a regular file, or through a directory it may not read). */
  datatype Stat = Found(node: Node) | NotExist | Failed

  /** The index of the first child called `name`. */
  function FindChild(cs: seq<Child>, name: string): (r: Option<nat>)
    ensures r.Some? ==> r.value < |cs| && cs[r.value].name == name
    ensures r.Some? ==> forall i :: 0 <= i < r.value ==> cs[i].name != name
    ensures r.None? ==> forall i :: 0 <= i < |cs| ==> cs[i].name != name
  {
    if cs == [] then None
    else if cs[0].name == name then Some(0)
    else match FindChild(cs[1..], name)
      case None => None
      case Some(i) => Some(i + 1)
  }

  /** The node reached from `n` by the names `segs`. */
  function Lookup(n: Node, segs: seq<string>): Stat
  {
    if segs == [] then Found(n)
    else match n
      case Dir(cs) =>
        (match FindChild(cs, segs[0])
         case None => NotExist
         case Some(i) => Lookup(cs[i].node, segs[1..]))
      case _ => Failed
  }

  /** What a system call on path `s` reaches, the working directory being
      `cwd`, resolving the path lexically: it is cleaned first, so "x/.."
      reaches the parent even where `x` is a file or missing. */
  function Resolve(fs: Node, cwd: string, s: string): Stat
  {
    if s == "" then NotExist else Lookup(fs, Clean(Abs(cwd, s)).segs)
  }

  /** fileExists: os.Stat did not report "does not exist"; other errors count
      as existing. */
  predicate FileExists(fs: Node, cwd: string, name: string)
  {
    !Resolve(fs, cwd, name).NotExist?
  }

  // ---------------------------------------------------------------- lemmas

  lemma {:induction false} StrLessIrreflexive(a: string)
    ensures !StrLess(a, a)
  {
    if a != [] {
      StrLessIrreflexive(a[1..]);
    }
  }

  /** In a well-formed directory, a child's name finds that child. */
  lemma FindChildUnique(n: Node, i: nat)
    requires WF(n) && n.Dir? && i < |n.children|
    ensures FindChild(n.children, n.children[i].name) == Some(i)
  {
    var cs := n.children;
    var r := FindChild(cs, cs[i].name);
    if r != Some(i) {
      var j := r.value;
      assert j < i;
      assert StrLess(cs[j].name, cs[i].name);
      StrLessIrreflexive(cs[i].name);
    }
  }

  lemma {:induction false} LookupWF(n: Node, segs: seq<string>)
    requires WF(n) && Lookup(n, segs).Found?
    ensures WF(Lookup(n, segs).node)
  {
    if segs != [] {
      var i := FindChild(n.children, segs[0]).value;
      LookupWF(n.children[i].node, segs[1..]);
    }
  }

  /** Looking up a child's name and then the rest is looking up the rest in it. */
  lemma LookupChild(n: Node, i: nat, rest: seq<string>)
    requires WF(n) && n.Dir? && i < |n.children|
    ensures Lookup(n, [n.children[i].name] + rest) == Lookup(n.children[i].node, rest)
  {
    FindChildUnique(n, i);
    assert ([n.children[i].name] + rest)[1..] == rest;
  }
}
