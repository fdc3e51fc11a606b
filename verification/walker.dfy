/**
 The walker `Rename(path)` over an immutable, in-memory directory tree.

 A folder's entries are snapshotted once; each is dispatched in turn as a
 file (`ProcessFiles`), a directory (`ProcessDir`, then a walk of its
 contents under the new path once it has moved) or an invalid path (logged
 and skipped). Sibling renames done earlier in the pass are visible to later
 existence checks, because the state of the folder is threaded through.
 */
module Walker {
  import opened Naming

  /** A path below the root, one component per level. */
  type Path = seq<string>

  /**
   An entry as enumerated by `GetFileSystemEntries`. A file carries the split
   `GetFileNameWithoutExtension` / `GetExtension` made of its name; a
   dangling entry (a broken link) is neither a file nor a directory.
   */
  datatype Entry =
    | File(base: string, ext: string)
    | Folder(name: string, entries: seq<Entry>)
    | Dangling(name: string)

  /** The log lines the renamer writes. */
  datatype Event =
    | DirRenamed(from: Path, to: Path)
    | FileRenamed(from: Path, to: Path)
    | InvalidPath(at: Path)

  /** A move the file system refuses: the target name is already taken by an entry of another kind, or names the parent itself. */
  datatype Fault = MoveRefused(from: Path, to: Path)

  /** The tree after a pass over one folder, the lines it logged, and the fault that aborted it, if any. */
  datatype Pass = Pass(entries: seq<Entry>, log: seq<Event>, fault: Option<Fault>)

  /** One entry after its own processing (and, for a moved directory, the walk of its contents). */
  datatype Outcome = Outcome(entry: Entry, log: seq<Event>, fault: Option<Fault>)

  function NameOf(e: Entry): string {
    match e
    case File(base, ext) => base + ext
    case Folder(name, _) => name
    case Dangling(name) => name
  }

  /** Names that `Path.Combine(parent, n)` resolves to the parent or above it, which always exist as directories. */
  const SelfNames: set<string> := {"", ".", ".."}

  function DirNames(es: seq<Entry>): set<string> {
    set k | 0 <= k < |es| && es[k].Folder? :: es[k].name
  }

  function FileNames(es: seq<Entry>): set<string> {
    set k | 0 <= k < |es| && es[k].File? :: NameOf(es[k])
  }

  function AllNames(es: seq<Entry>): set<string> {
    set k | 0 <= k < |es| :: NameOf(es[k])
  }

  predicate SameKind(a: Entry, b: Entry) {
    (a.File? && b.File?) || (a.Folder? && b.Folder?) || (a.Dangling? && b.Dangling?)
  }

  /** A well-formed folder: sibling names are distinct and none names the parent, all the way down. */
  predicate WellNamed(es: seq<Entry>)
    decreases es
  {
    && (forall i, j :: 0 <= i < j < |es| ==> NameOf(es[i]) != NameOf(es[j]))
    && (forall k :: 0 <= k < |es| ==> NameOf(es[k]) !in SelfNames)
    && (forall k :: 0 <= k < |es| && es[k].Folder? ==> WellNamed(es[k].entries))
  }

  function Size(e: Entry): nat
    decreases e
  {
    match e
    case Folder(_, entries) => 1 + SizeAll(entries)
    case _ => 1
  }

  function SizeAll(es: seq<Entry>): nat
    decreases es
  {
    if |es| == 0 then 0 else Size(es[0]) + SizeAll(es[1..])
  }

  /** The path a log line is about. */
  function Subject(ev: Event): Path {
    match ev
    case DirRenamed(from, _) => from
    case FileRenamed(from, _) => from
    case InvalidPath(at) => at
  }

  /** A log line about something strictly inside `path`, moved (if at all) to somewhere strictly inside `path`. */
  predicate Inside(ev: Event, path: Path) {
    && path < Subject(ev)
    && (ev.DirRenamed? ==> path < ev.to)
    && (ev.FileRenamed? ==> path < ev.to)
  }

  /**
   `ProcessFiles`, `ProcessDir` or the invalid-path branch of `Rename` for the
   entry `e`, whose folder `path` currently holds `siblings` (which include
   `e`).
   */
  function Step(cfg: Settings, path: Path, siblings: seq<Entry>, e: Entry): (o: Outcome)
    ensures SameKind(o.entry, e)
    decreases Size(e), 0
  {
    match e
    case Dangling(n) => Outcome(e, [InvalidPath(path + [n])], None)
    case File(b, x) =>
      (match ProcessFiles(cfg, b, x, FileNames(siblings))
       case Keep(_) => Outcome(e, [], None)
       case MoveTo(t, k) =>
         if t in AllNames(siblings) + SelfNames then
           Outcome(e, [], Some(MoveRefused(path + [b + x], path + [t])))
         else
           Outcome(File(Candidate(ResolveName(cfg, b), k, ""), x), [FileRenamed(path + [b + x], path + [t])], None))
    case Folder(n, ch) =>
      match ProcessDir(cfg, n, DirNames(siblings) + SelfNames)
      case Keep(_) => Outcome(e, [], None)
      case MoveTo(t, _) =>
        if t in AllNames(siblings) then
          Outcome(e, [], Some(MoveRefused(path + [n], path + [t])))
        else
          var sub := Walk(cfg, path + [t], [], ch);
          Outcome(Folder(t, sub.entries), [DirRenamed(path + [n], path + [t])] + sub.log, sub.fault)
  }

  /**
   The `foreach` of `Rename(path)`: `done` are the entries already processed
   (as they now are), `todo` the rest of the snapshot. Each snapshot entry is
   processed once, in order, and keeps its position and kind; a fault stops
   the pass and leaves the entries not yet reached as they were.
   */
  function Walk(cfg: Settings, path: Path, done: seq<Entry>, todo: seq<Entry>): (r: Pass)
    ensures |r.entries| == |done| + |todo|
    decreases SizeAll(todo), 1
  {
    if |todo| == 0 then
      Pass(done, [], None)
    else
      var o := Step(cfg, path, done + todo, todo[0]);
      if o.fault.Some? then
        Pass(done + [o.entry] + todo[1..], o.log, o.fault)
      else
        var rest := Walk(cfg, path, done + [o.entry], todo[1..]);
        Pass(rest.entries, o.log + rest.log, rest.fault)
  }

  /** A pass over a non-empty list continues with the rest unless the first step raises a fault, which ends it. */
  lemma WalkUnfold(cfg: Settings, path: Path, done: seq<Entry>, todo: seq<Entry>)
    requires |todo| > 0
    ensures var o := Step(cfg, path, done + todo, todo[0]);
            var rest := Walk(cfg, path, done + [o.entry], todo[1..]);
            && (o.fault.None? ==> Walk(cfg, path, done, todo) == Pass(rest.entries, o.log + rest.log, rest.fault))
            && (o.fault.Some? ==> Walk(cfg, path, done, todo) == Pass(done + [o.entry] + todo[1..], o.log, o.fault))
  {
  }

  /** `after` is `done` followed by one entry of the same kind for each entry of `todo`. */
  ghost predicate ShapeKept(done: seq<Entry>, todo: seq<Entry>, after: seq<Entry>) {
    && |after| == |done| + |todo|
    && after[..|done|] == done
    && forall k :: 0 <= k < |todo| ==> SameKind(after[|done| + k], todo[k])
  }

  /** Entries left as they were keep their shape. */
  lemma ShapeOfUntouched(done: seq<Entry>, todo: seq<Entry>)
    ensures ShapeKept(done, todo, done + todo)
  {
    forall k | 0 <= k < |todo|
      ensures SameKind((done + todo)[|done| + k], todo[k])
    {
      assert (done + todo)[|done| + k] == todo[k];
    }
  }

  /** Moving one entry of the same kind from `todo` to `done` keeps the shape. */
  lemma ShapeCons(done: seq<Entry>, x: Entry, todo: seq<Entry>, after: seq<Entry>)
    requires |todo| > 0 && SameKind(x, todo[0])
    requires ShapeKept(done + [x], todo[1..], after)
    ensures ShapeKept(done, todo, after)
  {
    assert after[..|done|] == (after[..|done| + 1])[..|done|];
    assert after[|done|] == (after[..|done| + 1])[|done|];
    forall k | 0 <= k < |todo|
      ensures SameKind(after[|done| + k], todo[k])
    {
      if k > 0 {
        assert SameKind(after[|done| + 1 + (k - 1)], todo[1..][k - 1]);
      }
    }
  }

  lemma {:induction false} WalkShape(cfg: Settings, path: Path, done: seq<Entry>, todo: seq<Entry>)
    ensures ShapeKept(done, todo, Walk(cfg, path, done, todo).entries)
    decreases SizeAll(todo)
  {
    if |todo| == 0 {
      ShapeOfUntouched(done, todo);
    } else {
      var o := Step(cfg, path, done + todo, todo[0]);
      WalkUnfold(cfg, path, done, todo);
      if o.fault.None? {
        assert SizeAll(todo) == Size(todo[0]) + SizeAll(todo[1..]);
        WalkShape(cfg, path, done + [o.entry], todo[1..]);
        ShapeCons(done, o.entry, todo, Walk(cfg, path, done + [o.entry], todo[1..]).entries);
      } else {
        ShapeOfUntouched(done + [o.entry], todo[1..]);
        ShapeCons(done, o.entry, todo, done + [o.entry] + todo[1..]);
      }
    }
  }

  /** Every line of `log` is about something strictly inside `path`. */
  ghost predicate AllInside(log: seq<Event>, path: Path) {
    forall ev :: ev in log ==> Inside(ev, path)
  }

  lemma InsideDeeper(log: seq<Event>, path: Path, child: string)
    requires AllInside(log, path + [child])
    ensures AllInside(log, path)
  {
    forall ev | ev in log
      ensures Inside(ev, path)
    {
      var deeper := path + [child];
      assert deeper < Subject(ev);
      assert Subject(ev)[..|path|] == deeper[..|path|];
      if !ev.InvalidPath? {
        assert ev.to[..|path|] == deeper[..|path|];
      }
    }
  }

  /** A move of the child `n` to `t`, followed by lines about what lies inside `t`, is all inside the parent. */
  lemma MoveThenInside(log: seq<Event>, path: Path, n: string, t: string)
    requires AllInside(log, path + [t])
    ensures AllInside([DirRenamed(path + [n], path + [t])] + log, path)
  {
    InsideDeeper(log, path, t);
    var all := [DirRenamed(path + [n], path + [t])] + log;
    forall ev | ev in all
      ensures Inside(ev, path)
    {
      if ev !in log {
        assert ev == DirRenamed(path + [n], path + [t]);
        assert (path + [n])[..|path|] == path;
        assert (path + [t])[..|path|] == path;
      }
    }
  }

  /** A step logs only about the entry it processes and what lies below it. */
  lemma {:induction false} StepLogInside(cfg: Settings, path: Path, siblings: seq<Entry>, e: Entry)
    ensures AllInside(Step(cfg, path, siblings, e).log, path)
    decreases Size(e), 0
  {
    match e
    case Dangling(n) =>
      DanglingStep(cfg, path, siblings, n);
    case File(b, x) =>
      FileStep(cfg, path, siblings, b, x);
    case Folder(n, ch) =>
      var d := ProcessDir(cfg, n, DirNames(siblings) + SelfNames);
      if d.MoveTo? && d.target !in AllNames(siblings) {
        var t := d.target;
        WalkLogInside(cfg, path + [t], [], ch);
        MoveThenInside(Walk(cfg, path + [t], [], ch).log, path, n, t);
        MovedDirectoryStep(cfg, path, siblings, n, ch, t, d.attempt);
      } else {
        assert Step(cfg, path, siblings, e).log == [];
      }
  }

  /** A pass over the folder `path` logs only about what lies strictly inside it. */
  lemma {:induction false} WalkLogInside(cfg: Settings, path: Path, done: seq<Entry>, todo: seq<Entry>)
    ensures AllInside(Walk(cfg, path, done, todo).log, path)
    decreases SizeAll(todo), 1
  {
    if |todo| > 0 {
      var o := Step(cfg, path, done + todo, todo[0]);
      StepLogInside(cfg, path, done + todo, todo[0]);
      if o.fault.None? {
        assert SizeAll(todo) == Size(todo[0]) + SizeAll(todo[1..]);
        WalkLogInside(cfg, path, done + [o.entry], todo[1..]);
      }
    }
  }

  /** Replacing one entry by one with its own name or a name nobody in the folder has keeps the folder well named. */
  lemma ReplaceKeepsWellNamed(done: seq<Entry>, e: Entry, e': Entry, rest: seq<Entry>)
    requires WellNamed(done + [e] + rest)
    requires NameOf(e') == NameOf(e) || NameOf(e') !in AllNames(done + [e] + rest) + SelfNames
    requires e'.Folder? ==> WellNamed(e'.entries)
    ensures WellNamed(done + [e'] + rest)
  {
    var before := done + [e] + rest;
    var after := done + [e'] + rest;
    var p := |done|;
    assert forall k :: 0 <= k < |after| && k != p ==> after[k] == before[k];
    assert NameOf(before[p]) == NameOf(e);
    forall i, j | 0 <= i < j < |after|
      ensures NameOf(after[i]) != NameOf(after[j])
    {
      if i == p {
        assert NameOf(before[j]) in AllNames(before);
      } else if j == p {
        assert NameOf(before[i]) in AllNames(before);
      }
    }
  }

  /** A step either keeps the entry's name or gives it one that no sibling has and that does not name the parent. */
  lemma StepNaming(cfg: Settings, path: Path, siblings: seq<Entry>, e: Entry)
    ensures NameOf(Step(cfg, path, siblings, e).entry) == NameOf(e)
        || NameOf(Step(cfg, path, siblings, e).entry) !in AllNames(siblings) + SelfNames
  {
    match e
    case Dangling(n) =>
      DanglingStep(cfg, path, siblings, n);
    case File(b, x) =>
      FileStep(cfg, path, siblings, b, x);
    case Folder(n, ch) =>
      DirectoryStep(cfg, path, siblings, n, ch);
      var d := ProcessDir(cfg, n, DirNames(siblings) + SelfNames);
      if d.MoveTo? && d.target !in AllNames(siblings) {
        assert d.target !in SelfNames;
      }
  }

  /** A step leaves the contents of a well-named folder well named. */
  lemma {:induction false} StepWellNamed(cfg: Settings, path: Path, siblings: seq<Entry>, e: Entry)
    requires e.Folder? && WellNamed(e.entries)
    ensures WellNamed(Step(cfg, path, siblings, e).entry.entries)
    decreases Size(e), 0
  {
    var d := ProcessDir(cfg, e.name, DirNames(siblings) + SelfNames);
    if d.MoveTo? && d.target !in AllNames(siblings) {
      MovedDirectoryStep(cfg, path, siblings, e.name, e.entries, d.target, d.attempt);
      assert [] + e.entries == e.entries;
      WalkWellNamed(cfg, path + [d.target], [], e.entries);
    } else {
      UnmovedDirectoryStep(cfg, path, siblings, e.name, e.entries);
    }
  }

  /** The contents of a folder inside a well-named folder are well named. */
  lemma WellNamedChild(es: seq<Entry>, k: nat)
    requires WellNamed(es) && k < |es| && es[k].Folder?
    ensures WellNamed(es[k].entries)
  {
  }

  /** Replacing the next entry of a well-named folder by one that keeps its name or takes a fresh one keeps the folder well named. */
  lemma ReplaceNextKeepsWellNamed(done: seq<Entry>, todo: seq<Entry>, e': Entry)
    requires |todo| > 0 && WellNamed(done + todo)
    requires NameOf(e') == NameOf(todo[0]) || NameOf(e') !in AllNames(done + todo) + SelfNames
    requires e'.Folder? ==> WellNamed(e'.entries)
    ensures WellNamed(done + [e'] + todo[1..])
  {
    assert done + todo == done + [todo[0]] + todo[1..];
    ReplaceKeepsWellNamed(done, todo[0], e', todo[1..]);
  }

  /** Processing the next entry of a well-named folder leaves it well named. */
  lemma {:induction false} NextStepWellNamed(cfg: Settings, path: Path, done: seq<Entry>, todo: seq<Entry>)
    requires |todo| > 0 && WellNamed(done + todo)
    ensures WellNamed(done + [Step(cfg, path, done + todo, todo[0]).entry] + todo[1..])
    decreases SizeAll(todo), 1
  {
    var all := done + todo;
    var e := todo[0];
    var o := Step(cfg, path, all, e);
    StepNaming(cfg, path, all, e);
    if e.Folder? {
      assert SizeAll(todo) == Size(e) + SizeAll(todo[1..]);
      assert all[|done|] == e;
      WellNamedChild(all, |done|);
      StepWellNamed(cfg, path, all, e);
    }
    ReplaceNextKeepsWellNamed(done, todo, o.entry);
  }

  /** A pass never gives two entries of a folder the same name, nor a name that denotes the folder itself. */
  lemma {:induction false} WalkWellNamed(cfg: Settings, path: Path, done: seq<Entry>, todo: seq<Entry>)
    requires WellNamed(done + todo)
    ensures WellNamed(Walk(cfg, path, done, todo).entries)
    decreases SizeAll(todo), 2
  {
    if |todo| == 0 {
      assert done + todo == done;
    } else {
      var o := Step(cfg, path, done + todo, todo[0]);
      NextStepWellNamed(cfg, path, done, todo);
      WalkUnfold(cfg, path, done, todo);
      if o.fault.None? {
        assert SizeAll(todo) == Size(todo[0]) + SizeAll(todo[1..]);
        assert done + [o.entry] + todo[1..] == (done + [o.entry]) + todo[1..];
        WalkWellNamed(cfg, path, done + [o.entry], todo[1..]);
      }
    }
  }

  /**
   `ProcessDir` inside the walk. A directory whose candidate is its own name
   is neither moved nor walked into. A directory that moves is logged first,
   then its contents are walked, and everything they log is under the new
   path. A move onto a name some non-directory entry has is refused.
   */
  lemma DirectoryStep(cfg: Settings, path: Path, siblings: seq<Entry>, n: string, ch: seq<Entry>)
    ensures var d := ProcessDir(cfg, n, DirNames(siblings) + SelfNames);
            var o := Step(cfg, path, siblings, Folder(n, ch));
            && (d.Keep? ==> o == Outcome(Folder(n, ch), [], None))
            && (d.MoveTo? && d.target in AllNames(siblings) ==>
                  && d.target !in DirNames(siblings)
                  && o == Outcome(Folder(n, ch), [], Some(MoveRefused(path + [n], path + [d.target]))))
            && (d.MoveTo? && d.target !in AllNames(siblings) ==>
                  && o.entry.Folder? && o.entry.name == d.target
                  && |o.log| > 0 && o.log[0] == DirRenamed(path + [n], path + [d.target])
                  && AllInside(o.log[1..], path + [d.target]))
  {
    var d := ProcessDir(cfg, n, DirNames(siblings) + SelfNames);
    if d.MoveTo? && d.target !in AllNames(siblings) {
      var o := Step(cfg, path, siblings, Folder(n, ch));
      var sub := Walk(cfg, path + [d.target], [], ch);
      WalkLogInside(cfg, path + [d.target], [], ch);
      assert o.log[1..] == sub.log;
    }
  }

  /** A directory that moves carries the result of the walk of its contents. */
  lemma MovedDirectoryStep(cfg: Settings, path: Path, siblings: seq<Entry>, n: string, ch: seq<Entry>, t: string, k: nat)
    requires ProcessDir(cfg, n, DirNames(siblings) + SelfNames) == MoveTo(t, k)
    requires t !in AllNames(siblings)
    ensures var sub := Walk(cfg, path + [t], [], ch);
            Step(cfg, path, siblings, Folder(n, ch))
              == Outcome(Folder(t, sub.entries), [DirRenamed(path + [n], path + [t])] + sub.log, sub.fault)
  {
  }

  /** A directory that does not move keeps its entry as it was. */
  lemma UnmovedDirectoryStep(cfg: Settings, path: Path, siblings: seq<Entry>, n: string, ch: seq<Entry>)
    requires var d := ProcessDir(cfg, n, DirNames(siblings) + SelfNames);
             !(d.MoveTo? && d.target !in AllNames(siblings))
    ensures Step(cfg, path, siblings, Folder(n, ch)).entry == Folder(n, ch)
  {
  }

  /** A single-entry pass with no fault is the outcome of that entry's step. */
  lemma WalkSingle(cfg: Settings, path: Path, done: seq<Entry>, e: Entry)
    ensures var o := Step(cfg, path, done + [e], e);
            o.fault.None? ==> Walk(cfg, path, done, [e]) == Pass(done + [o.entry], o.log, None)
  {
    var o := Step(cfg, path, done + [e], e);
    if o.fault.None? {
      assert Walk(cfg, path, done + [o.entry], []) == Pass(done + [o.entry], [], None);
      assert o.log + [] == o.log;
    }
  }

  /** A whole pass is the walk of the root snapshot from the root path. */
  lemma RenameRootIsWalk(cfg: Settings, root: seq<Entry>)
    ensures RenameRoot(cfg, root) == Walk(cfg, [], [], root)
  { }

  /** An entry that its step leaves untouched, unlogged and without fault does not change the rest of the pass. */
  lemma WalkPastKept(cfg: Settings, path: Path, done: seq<Entry>, todo: seq<Entry>)
    requires |todo| > 0
    requires Step(cfg, path, done + todo, todo[0]) == Outcome(todo[0], [], None)
    ensures Walk(cfg, path, done, todo) == Walk(cfg, path, done + [todo[0]], todo[1..])
  {
    var o := Step(cfg, path, done + todo, todo[0]);
    WalkUnfold(cfg, path, done, todo);
    assert o.fault.None? && o.entry == todo[0] && o.log == [];
    var rest := Walk(cfg, path, done + [todo[0]], todo[1..]);
    assert [] + rest.log == rest.log;
    assert Walk(cfg, path, done, todo) == Pass(rest.entries, rest.log, rest.fault);
  }

  /**
   `ProcessFiles` inside the walk: a kept file is untouched and unlogged; a
   moved file takes the target name and keeps its extension; a move onto a
   name another entry has, or onto the folder itself, is refused.
   */
  lemma FileStep(cfg: Settings, path: Path, siblings: seq<Entry>, b: string, x: string)
    ensures var d := ProcessFiles(cfg, b, x, FileNames(siblings));
            var o := Step(cfg, path, siblings, File(b, x));
            && (d.Keep? ==> o == Outcome(File(b, x), [], None))
            && (d.MoveTo? && d.target in AllNames(siblings) + SelfNames ==>
                  && d.target !in FileNames(siblings)
                  && o == Outcome(File(b, x), [], Some(MoveRefused(path + [b + x], path + [d.target]))))
            && (d.MoveTo? && d.target !in AllNames(siblings) + SelfNames ==>
                  && o.entry.File? && NameOf(o.entry) == d.target && o.entry.ext == x
                  && o.log == [FileRenamed(path + [b + x], path + [d.target])]
                  && o.fault.None?)
  {
    var d := ProcessFiles(cfg, b, x, FileNames(siblings));
    if d.MoveTo? && d.target !in AllNames(siblings) + SelfNames {
      var r := ResolveName(cfg, b);
      assert d.target == Candidate(r, d.attempt, x);
      assert Candidate(r, d.attempt, "") + x == d.target;
      assert Step(cfg, path, siblings, File(b, x)).entry == File(Candidate(r, d.attempt, ""), x);
    }
  }

  /** An entry that is neither a file nor a directory is logged as an invalid path and left as it is. */
  lemma DanglingStep(cfg: Settings, path: Path, siblings: seq<Entry>, n: string)
    ensures Step(cfg, path, siblings, Dangling(n)) == Outcome(Dangling(n), [InvalidPath(path + [n])], None)
  {
  }

  /**
   An invalid entry does not end the pass: it is logged, and the pass goes on
   with the next entry exactly as if the invalid one had not been there.
   */
  lemma InvalidEntryDoesNotStopPass(cfg: Settings, path: Path, done: seq<Entry>, n: string, rest: seq<Entry>)
    ensures var w := Walk(cfg, path, done + [Dangling(n)], rest);
            Walk(cfg, path, done, [Dangling(n)] + rest) == Pass(w.entries, [InvalidPath(path + [n])] + w.log, w.fault)
  {
    var todo := [Dangling(n)] + rest;
    assert todo[0] == Dangling(n) && todo[1..] == rest;
    DanglingStep(cfg, path, done + todo, n);
    WalkUnfold(cfg, path, done, todo);
  }

  /**
   The private `Rename(path)` started on the configured root: a pass over its
   entries. Every root entry keeps its place and kind, every log line is
   about something below the root, and a well-named tree stays well named.
   */
  function RenameRoot(cfg: Settings, root: seq<Entry>): (r: Pass)
    ensures ShapeKept([], root, r.entries)
    ensures AllInside(r.log, [])
    ensures WellNamed(root) ==> WellNamed(r.entries)
  {
    var w := Walk(cfg, [], [], root);
    WalkShape(cfg, [], [], root);
    WalkLogInside(cfg, [], [], root);
    assert [] + root == root;
    if WellNamed(root) then
      WalkWellNamed(cfg, [], [], root);
      w
    else
      w
  }
}
