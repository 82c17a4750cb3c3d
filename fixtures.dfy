/** Small trees shaped like the repository's test data, with the expansion
    the walk gives for them. */
module Fixtures {
  import opened Paths
  import opened FileTree
  import opened Expand

  /** testdata/only-files: four files at the top level. */
  function OnlyFiles(): Node
  {
    Dir([Child("file1.txt", File([1])), Child("file2.txt", File([2])),
         Child("file3.txt", File([3])), Child("file4.txt", File([4]))])
  }

  /** A cut-down testdata/nested-dirs: a file named like an ignored one one
      level down, the ignored top-level file, and an ignored directory. */
  function Nested(): Node
  {
    Dir([Child("dir1", Dir([Child("file.txt", File([5]))])),
         Child("file.txt", File([6])),
         Child("ignore", Dir([Child("file2.txt", File([7]))]))])
  }

  /** testdata/only-dirs, reduced: directories and no files. */
  function OnlyDirs(): Node
  {
    Dir([Child("dir1", Dir([])), Child("dir2", Dir([Child("dir3", Dir([]))]))])
  }

  /** A single valid name cleans to itself. */
  lemma NameCleans(n: string)
    requires ValidName(n)
    ensures CleanString(n) == n
  {
    CleanFormat(CleanPath(false, [n]));
  }

  lemma OnlyFilesKeys()
    ensures IgnoreKeys(["file1.txt"]) == {"file1.txt"}
  {
    NameCleans("file1.txt");
  }

  /** A directory written with a trailing separator and a plain name. */
  lemma DirAndNameKeys(d: string, f: string)
    requires ValidName(d) && ValidName(f)
    ensures IgnoreKeys([d + [Sep], f]) == {d, f}
  {
    NameCleans(d);
    NameCleans(f);
    CleanTrailingSep(d);
    assert CleanString(d + [Sep]) == d;
    var xs := [d + [Sep], f];
    assert forall x :: x in xs <==> x == d + [Sep] || x == f;
  }

  lemma NestedKeys()
    ensures IgnoreKeys(["ignore/", "file.txt"]) == {"ignore", "file.txt"}
  {
    DirAndNameKeys("ignore", "file.txt");
    assert "ignore" + [Sep] == "ignore/";
  }

  /** Ignoring "file1.txt" drops that file and keeps the others, in order. */
  lemma OnlyFilesExpansion()
    ensures WalkNode(OnlyFiles(), [], IgnoreKeys(["file1.txt"]))
      == Listed([["file2.txt"], ["file3.txt"], ["file4.txt"]])
  {
    OnlyFilesKeys();
    OnlyFilesWalk(OnlyFiles(), {"file1.txt"});
  }

  lemma OnlyFilesWalk(n: Node, keys: set<string>)
    requires n == OnlyFiles() && keys == {"file1.txt"}
    ensures WalkNode(n, [], keys) == Listed([["file2.txt"], ["file3.txt"], ["file4.txt"]])
  {
    assert Key([]) == ".";
    assert Key(["file1.txt"]) == "file1.txt";
    assert Key(["file2.txt"]) == "file2.txt";
    assert Key(["file3.txt"]) == "file3.txt";
    assert Key(["file4.txt"]) == "file4.txt";
    assert [] + ["file1.txt"] == ["file1.txt"];
    assert [] + ["file2.txt"] == ["file2.txt"];
    assert [] + ["file3.txt"] == ["file3.txt"];
    assert [] + ["file4.txt"] == ["file4.txt"];
    ChildStep(n, [], 0, keys);
    ChildStep(n, [], 1, keys);
    ChildStep(n, [], 2, keys);
    ChildStep(n, [], 3, keys);
  }

  /** "ignore/" prunes the directory ignore, and "file.txt" drops only the
      top-level file.txt, not dir1/file.txt. */
  lemma NestedExpansion()
    ensures WalkNode(Nested(), [], IgnoreKeys(["ignore/", "file.txt"])) == Listed([["dir1", "file.txt"]])
  {
    NestedKeys();
    NestedWalk(Nested(), {"ignore", "file.txt"});
  }

  lemma NestedWalk(n: Node, keys: set<string>)
    requires n == Nested() && keys == {"ignore", "file.txt"}
    ensures WalkNode(n, [], keys) == Listed([["dir1", "file.txt"]])
  {
    assert Key([]) == ".";
    assert Key(["file.txt"]) == "file.txt";
    assert Key(["ignore"]) == "ignore";
    assert [] + ["dir1"] == ["dir1"];
    assert [] + ["file.txt"] == ["file.txt"];
    assert [] + ["ignore"] == ["ignore"];
    Dir1Walk(n.children[0].node, keys);
    ChildStep(n, [], 0, keys);
    ChildStep(n, [], 1, keys);
    ChildStep(n, [], 2, keys);
  }

  /** dir1 is not ignored, and neither is its file.txt. */
  lemma Dir1Walk(d: Node, keys: set<string>)
    requires d == Dir([Child("file.txt", File([5]))]) && keys == {"ignore", "file.txt"}
    ensures WalkNode(d, ["dir1"], keys) == Listed([["dir1", "file.txt"]])
  {
    assert Key(["dir1"]) == "dir1";
    assert Key(["dir1", "file.txt"]) == "dir1/file.txt";
    assert ["dir1"] + ["file.txt"] == ["dir1", "file.txt"];
    ChildStep(d, ["dir1"], 0, keys);
  }

  /** A tree of directories only expands to the empty list. */
  lemma OnlyDirsExpansion()
    ensures WalkNode(OnlyDirs(), [], IgnoreKeys([])) == Listed([])
  {
    assert IgnoreKeys([]) == {};
    OnlyDirsWalk(OnlyDirs(), {});
  }

  lemma OnlyDirsWalk(n: Node, keys: set<string>)
    requires n == OnlyDirs() && keys == {}
    ensures WalkNode(n, [], keys) == Listed([])
  {
    var d := n.children[1].node;
    ChildStep(d, ["dir2"], 0, keys);
    ChildStep(n, [], 0, keys);
    ChildStep(n, [], 1, keys);
  }
}
