/**
 Whole passes over small trees, with a naming store that knows node 42 as
 "Projects" and parses "42" and "7" as node ids.
 */
module Scenarios {
  import opened Naming
  import opened Walker

  function Store(): NamingStore {
    NamingStore(s => if s == "42" then Some(42) else if s == "7" then Some(7) else None,
                map[42 := Some("Projects")])
  }

  function Config(): Settings {
    Settings(64, Store())
  }

  lemma ProjectsClean()
    ensures forall k :: 0 <= k < |"Projects"| ==> "Projects"[k] !in Removable
  { }

  lemma SevenClean()
    ensures forall k :: 0 <= k < |"7"| ==> "7"[k] !in Removable
  { }

  lemma Resolve42()
    ensures ResolveName(Config(), "42") == "Projects"
  {
    ProjectsClean();
    assert GetNameFromStore(Store(), "42") == "Projects";
    CleanLookupResolvesToIt(Config(), "42", "Projects");
  }

  lemma ResolveProjects()
    ensures ResolveName(Config(), "Projects") == "Projects"
  {
    ProjectsClean();
    assert GetNameFromStore(Store(), "Projects") == "Projects";
    CleanLookupResolvesToIt(Config(), "Projects", "Projects");
  }

  lemma Resolve7()
    ensures ResolveName(Config(), "7") == "7"
  {
    SevenClean();
    assert GetNameFromStore(Store(), "7") == "7";
    CleanLookupResolvesToIt(Config(), "7", "7");
  }

  /** The example store meets what the scenarios below assume of a configuration. */
  lemma ExampleStoreQualifies()
    ensures ResolveName(Config(), "42") == "Projects"
    ensures ResolveName(Config(), "Projects") == "Projects"
    ensures ResolveName(Config(), "7") == "7"
  {
    Resolve42();
    ResolveProjects();
    Resolve7();
  }

  lemma WalkOfDanglingOnly(cfg: Settings, path: Path, n: string)
    ensures Walk(cfg, path, [], [Dangling(n)]) == Pass([Dangling(n)], [InvalidPath(path + [n])], None)
  {
    assert [] + [Dangling(n)] == [Dangling(n)];
    DanglingStep(cfg, path, [Dangling(n)], n);
    WalkSingle(cfg, path, [], Dangling(n));
  }

  lemma MovedFolderStep(cfg: Settings, n: string, t: string, c: string)
    requires ResolveName(cfg, n) == t && t != n && t !in SelfNames
    ensures Step(cfg, [], [Folder(n, [Dangling(c)])], Folder(n, [Dangling(c)]))
         == Outcome(Folder(t, [Dangling(c)]), [DirRenamed([n], [t]), InvalidPath([t, c])], None)
  {
    var root := [Folder(n, [Dangling(c)])];
    assert NameOf(root[0]) == n;
    assert DirNames(root) == {n};
    assert AllNames(root) == {n};
    FreeDirMovesFirstTry(cfg, n, DirNames(root) + SelfNames);
    assert [] + [n] == [n];
    assert [] + [t] == [t];
    assert [t] + [c] == [t, c];
    MovedDirectoryStep(cfg, [], root, n, [Dangling(c)], t, 0);
    WalkOfDanglingOnly(cfg, [t], c);
  }

  /**
   A directory `n` whose name resolves to a free name `t` is renamed to `t`,
   and its contents are then processed under the new path `t`, not under `n`.
   */
  lemma RenamesThenWalksContents(cfg: Settings, n: string, t: string, c: string)
    requires ResolveName(cfg, n) == t && t != n && t !in SelfNames
    ensures RenameRoot(cfg, [Folder(n, [Dangling(c)])])
         == Pass([Folder(t, [Dangling(c)])], [DirRenamed([n], [t]), InvalidPath([t, c])], None)
  {
    var root := [Folder(n, [Dangling(c)])];
    assert [] + root == root;
    MovedFolderStep(cfg, n, t, c);
    WalkSingle(cfg, [], [], root[0]);
    RenameRootIsWalk(cfg, root);
  }

  lemma ProjectsIsANewName()
    ensures "Projects" !in SelfNames && "Projects" != "42"
  {
    assert |"Projects"| == 8;
  }

  /** Directory `42`, which the store names `Projects`, becomes `Projects`; its entry `x` is then met as `Projects/x`. */
  lemma RenamesFromStoreThenWalksContents(cfg: Settings)
    requires ResolveName(cfg, "42") == "Projects"
    ensures RenameRoot(cfg, [Folder("42", [Dangling("x")])])
         == Pass([Folder("Projects", [Dangling("x")])],
                 [DirRenamed(["42"], ["Projects"]), InvalidPath(["Projects", "x"])],
                 None)
  {
    ProjectsIsANewName();
    RenamesThenWalksContents(cfg, "42", "Projects", "x");
  }

  lemma NamesOfPair(a: string, b: string)
    ensures DirNames([Folder(a, []), Folder(b, [])]) == {a, b}
    ensures AllNames([Folder(a, []), Folder(b, [])]) == {a, b}
  {
    var root := [Folder(a, []), Folder(b, [])];
    assert NameOf(root[0]) == a && NameOf(root[1]) == b;
  }

  lemma CollisionKeeps(cfg: Settings, a: string, b: string)
    requires ResolveName(cfg, a) == a
    ensures var root := [Folder(a, []), Folder(b, [])];
            Step(cfg, [], root, root[0]) == Outcome(root[0], [], None)
  {
    var root := [Folder(a, []), Folder(b, [])];
    SettledDirKept(cfg, a, DirNames(root) + SelfNames);
    DirectoryStep(cfg, [], root, a, []);
  }

  lemma SuffixedFree(a: string, b: string)
    requires a + "~1" != b
    ensures a + "~1" !in {a, b} + SelfNames
  {
    var t := a + "~1";
    assert |t| == |a| + 2;
    assert t[|t| - 1] == '1';
  }

  lemma CollisionMoves(cfg: Settings, a: string, b: string)
    requires ResolveName(cfg, b) == a
    requires a != b && a + "~1" != b
    ensures var root := [Folder(a, []), Folder(b, [])];
            Step(cfg, [], root, root[1]) == Outcome(Folder(a + "~1", []), [DirRenamed([b], [a + "~1"])], None)
  {
    var root := [Folder(a, []), Folder(b, [])];
    NamesOfPair(a, b);
    SuffixedFree(a, b);
    var t := a + "~1";
    TakenDirMovesToFirstSuffix(cfg, b, DirNames(root) + SelfNames);
    assert [] + [b] == [b];
    assert [] + [t] == [t];
    MovedDirectoryStep(cfg, [], root, b, [], t, 1);
    assert Walk(cfg, [t], [], []) == Pass([], [], None);
  }

  /**
   Two sibling directories: `a` already carries its resolved name and `b`
   resolves to `a` as well. `a` is left alone; `b` collides and is moved to
   `a~1`.
   */
  lemma CollisionGetsSuffix(cfg: Settings, a: string, b: string)
    requires ResolveName(cfg, a) == a && ResolveName(cfg, b) == a
    requires a != b && a + "~1" != b
    ensures RenameRoot(cfg, [Folder(a, []), Folder(b, [])])
         == Pass([Folder(a, []), Folder(a + "~1", [])], [DirRenamed([b], [a + "~1"])], None)
  {
    var root := [Folder(a, []), Folder(b, [])];
    CollisionKeeps(cfg, a, b);
    CollisionMoves(cfg, a, b);
    assert [] + root == root;
    WalkPastKept(cfg, [], [], root);
    assert [] + [root[0]] == [root[0]] && root[1..] == [root[1]];
    assert [root[0]] + [root[1]] == root;
    WalkSingle(cfg, [], [root[0]], root[1]);
    RenameRootIsWalk(cfg, root);
  }

  /** The collision in the example store: `42` resolves to `Projects`, which exists. */
  lemma CollisionExample()
    ensures RenameRoot(Config(), [Folder("Projects", []), Folder("42", [])])
         == Pass([Folder("Projects", []), Folder("Projects~1", [])], [DirRenamed(["42"], ["Projects~1"])], None)
  {
    Resolve42();
    ResolveProjects();
    CollisionInStore(Config());
  }

  /** The same collision for any store that resolves `42` to `Projects` and leaves `Projects` as it is. */
  lemma CollisionInStore(cfg: Settings)
    requires ResolveName(cfg, "42") == "Projects"
    requires ResolveName(cfg, "Projects") == "Projects"
    ensures RenameRoot(cfg, [Folder("Projects", []), Folder("42", [])])
         == Pass([Folder("Projects", []), Folder("Projects~1", [])], [DirRenamed(["42"], ["Projects~1"])], None)
  {
    assert "Projects" + "~1" == "Projects~1";
    assert "Projects" != "42" && "Projects~1" != "42";
    CollisionGetsSuffix(cfg, "Projects", "42");
  }

  /** The suffixed name of a file is longer than both the file's name and the self names. */
  lemma SuffixedFileFree(b: string, x: string)
    requires |x| > 0
    ensures b + "~1" + x != b + x
    ensures b + "~1" + x !in SelfNames
  {
    assert |b + "~1" + x| == |b + x| + 2;
  }

  lemma SettledFileStep(cfg: Settings, b: string, x: string)
    requires ResolveName(cfg, b) == b && |x| > 0
    ensures Step(cfg, [], [File(b, x)], File(b, x))
         == Outcome(File(b + "~1", x), [FileRenamed([b + x], [b + "~1" + x])], None)
  {
    var root := [File(b, x)];
    var t := b + "~1" + x;
    assert NameOf(root[0]) == b + x;
    assert FileNames(root) == {b + x};
    assert AllNames(root) == {b + x};
    SuffixedFileFree(b, x);
    SettledFileWithExtensionMoves(cfg, b, x, FileNames(root));
    FileStep(cfg, [], root, b, x);
    var o := Step(cfg, [], root, root[0]);
    assert [] + [b + x] == [b + x];
    assert [] + [t] == [t];
    assert o.entry.base + x == (b + "~1") + x;
    assert o.entry.base == (o.entry.base + x)[..|o.entry.base|];
  }

  /**
   A lone file `b` + `x` with a non-empty extension whose base already
   resolves to itself is still moved, to `b~1` + `x`: the unchanged test
   compares the base with the candidate that includes the extension, and
   that candidate is the file's own name, which exists.
   */
  lemma SettledFileMovedAside(cfg: Settings, b: string, x: string)
    requires ResolveName(cfg, b) == b && |x| > 0
    ensures RenameRoot(cfg, [File(b, x)])
         == Pass([File(b + "~1", x)], [FileRenamed([b + x], [b + "~1" + x])], None)
  {
    var root := [File(b, x)];
    assert [] + root == root;
    SettledFileStep(cfg, b, x);
    WalkSingle(cfg, [], [], root[0]);
    RenameRootIsWalk(cfg, root);
  }

  /** File `7.txt`, whose id has no row, is moved to `7~1.txt`. */
  lemma FileWithExtensionIsMovedAside(cfg: Settings)
    requires ResolveName(cfg, "7") == "7"
    ensures RenameRoot(cfg, [File("7", ".txt")])
         == Pass([File("7~1", ".txt")], [FileRenamed(["7.txt"], ["7~1.txt"])], None)
  {
    assert "7" + "~1" == "7~1" && "7" + ".txt" == "7.txt" && "7" + "~1" + ".txt" == "7~1.txt";
    SettledFileMovedAside(cfg, "7", ".txt");
  }

  /**
   A name whose row holds NULL resolves to the empty name; `Path.Combine` of
   the parent and the empty name is the parent, which exists, so the
   directory moves to `~1`.
   */
  lemma NullNameGetsSuffixOnly(cfg: Settings, n: string, dirs: set<string>)
    requires RowFor(cfg.store, n) == Some(None)
    requires n != "" && n != "~1" && "~1" !in dirs
    ensures ProcessDir(cfg, n, dirs + SelfNames) == MoveTo("~1", 1)
  {
    assert GetNameFromStore(cfg.store, n) == "";
    assert ResolveName(cfg, n) == "";
    assert "" + "~1" == "~1";
    TakenDirMovesToFirstSuffix(cfg, n, dirs + SelfNames);
  }
}
