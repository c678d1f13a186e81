/** Entry names of an archive as file paths. */
module Paths {
  import opened Outcomes

  function Collapse(s: string): string {
    if s == "" then ""
    else if |s| > 1 && s[0] == '/' && s[1] == '/' then Collapse(s[1..])
    else [s[0]] + Collapse(s[1..])
  }

  /** A name as a path: runs of slashes count once, and none stands at the end. */
  function Normalize(name: string): string {
    var path := Collapse(name);
    if |path| > 1 && path[|path| - 1] == '/' then path[..|path| - 1] else path
  }

  /** The position of the last slash, or -1. */
  function LastSlash(s: string): (i: int)
    ensures -1 <= i < |s|
    ensures i >= 0 ==> s[i] == '/'
    ensures forall j | i < j < |s| :: s[j] != '/'
  {
    if s == "" then -1
    else if s[|s| - 1] == '/' then |s| - 1
    else LastSlash(s[..|s| - 1])
  }

  /** The path of the directory a path is in; there is none at the top. */
  function ParentOf(path: string): (parent: Option<string>)
    ensures parent.Some? ==> |parent.value| < |path|
  {
    var prefix := if path != "" && path[0] == '/' then 1 else 0;
    var i := LastSlash(path);
    if i >= prefix then Some(path[..i])
    else if prefix > 0 && |path| > prefix then Some(path[..prefix])
    else None
  }

  // ---------- what these notions mean for any name ----------

  predicate SingleSlashes(s: string) {
    forall i | 0 <= i < |s| - 1 :: !(s[i] == '/' && s[i + 1] == '/')
  }

  lemma {:induction false} SingleSlashesStay(s: string)
    requires SingleSlashes(s)
    ensures Collapse(s) == s
  {
    if s != "" {
      SingleSlashesStay(s[1..]);
    }
  }

  lemma {:induction false} CollapsedOnce(a: string, b: string)
    ensures Collapse(a + "//" + b) == Collapse(a + "/" + b)
  {
    var twice, once := a + "//" + b, a + "/" + b;
    if a == "" {
      assert twice[1..] == once;
    } else {
      assert twice[1..] == a[1..] + "//" + b && once[1..] == a[1..] + "/" + b;
      CollapsedOnce(a[1..], b);
    }
  }

  /** The path of a name: one slash fewer in a run of them changes nothing, and without runs
      only a slash at the end is dropped. */
  lemma PathOfName(name: string)
    ensures SingleSlashes(name) ==>
              Normalize(name) == if |name| > 1 && name[|name| - 1] == '/' then name[..|name| - 1] else name
    ensures forall a, b | name == a + "//" + b :: Normalize(name) == Normalize(a + "/" + b)
  {
    hide Collapse;
    if SingleSlashes(name) {
      SingleSlashesStay(name);
    }
    forall a, b | name == a + "//" + b
      ensures Collapse(name) == Collapse(a + "/" + b)
    {
      CollapsedOnce(a, b);
    }
  }

  lemma LastSlashIs(s: string, i: int)
    requires -1 <= i < |s| && (i >= 0 ==> s[i] == '/') && forall j | i < j < |s| :: s[j] != '/'
    ensures LastSlash(s) == i
  {
  }

  /** The parent of a path is what stands before its last part; at the top that is the root
      directory or nothing. */
  lemma ParentOfPath(dir: string, base: string)
    requires base != "" && '/' !in base
    ensures ParentOf(base) == None
    ensures ParentOf(dir + "/" + base) == Some(if dir == "" then "/" else dir)
    ensures ParentOf("/") == None && ParentOf("") == None
  {
    var path := dir + "/" + base;
    LastSlashIs(path, |dir|);
    LastSlashIs(base, -1);
    assert path[..|dir|] == dir;
    assert dir == "" ==> path[..1] == "/";
  }

  datatype Entry = Entry(name: string) {
    predicate IsDirectory() {
      name != "" && name[|name| - 1] == '/'
    }

    function Path(): string {
      Normalize(name)
    }

    function Parent(): Option<string> {
      ParentOf(Path())
    }
  }
}

/** Rebuilding the directory tree of an archive from its flat list of entries. */
module ZipWalk {
  import opened Outcomes
  import opened Paths

  /** A directory being visited: its entry, or none for the archive itself. */
  type Root = Option<Entry>

  function PathOf(root: Root): Option<string> {
    match root
    case None => None
    case Some(entry) => Some(entry.Path())
  }

  /** What a list of entries can be filtered by. */
  datatype Test =
    | ChildOf(root: Root) | NotChildOf(root: Root)
    | IsDir | IsFile
    | Reached(tops: set<Option<string>>, dirs: set<string>) | Missed(tops: set<Option<string>>, dirs: set<string>)
  {
    predicate Holds(e: Entry) {
      match this
      case ChildOf(root) => e.Parent() == PathOf(root)
      case NotChildOf(root) => e.Parent() != PathOf(root)
      case IsDir => e.IsDirectory()
      case IsFile => !e.IsDirectory()
      case Reached(tops, dirs) => Reaches(e.Path(), tops, dirs)
      case Missed(tops, dirs) => !Reaches(e.Path(), tops, dirs)
    }
  }

  function Filter(t: Test, es: seq<Entry>): (r: seq<Entry>)
    ensures |r| <= |es|
  {
    if es == [] then []
    else (if t.Holds(es[0]) then [es[0]] else []) + Filter(t, es[1..])
  }

  /** The parent of p is one of the tops, or a listed directory of which the same holds. */
  predicate Reaches(p: string, tops: set<Option<string>>, dirs: set<string>)
    decreases |p|
  {
    var parent := ParentOf(p);
    parent in tops || (parent.Some? && parent.value in dirs && Reaches(parent.value, tops, dirs))
  }

  function DirPaths(es: seq<Entry>): set<string> {
    set e | e in es && e.IsDirectory() :: e.Path()
  }

  function RootPaths(roots: seq<Root>): set<Option<string>> {
    set root | root in roots :: PathOf(root)
  }

  lemma {:induction false} FilterIn(t: Test, es: seq<Entry>, e: Entry)
    ensures e in Filter(t, es) <==> e in es && t.Holds(e)
  {
    hide Test.Holds;
    if es != [] {
      FilterIn(t, es[1..], e);
      assert e in es <==> e == es[0] || e in es[1..];
    }
  }

  // ---------- the walk, as a function ----------

  /** One call of the handler: the parent it was told last, and the entry. */
  datatype Call = Call(parent: Root, entry: Entry)

  datatype Walked = Walked(calls: seq<Call>, rest: seq<Entry>)

  function CallsFor(parent: Root, es: seq<Entry>): seq<Call> {
    seq(|es|, i requires 0 <= i < |es| => Call(parent, es[i]))
  }

  function Wrap(dirs: seq<Entry>): seq<Root> {
    seq(|dirs|, i requires 0 <= i < |dirs| => Some(dirs[i]))
  }

  function FilesOf(root: Root, es: seq<Entry>): seq<Entry> {
    Filter(IsFile, Filter(ChildOf(root), es))
  }

  function DirsOf(root: Root, es: seq<Entry>): seq<Entry> {
    Filter(IsDir, Filter(ChildOf(root), es))
  }

  function Others(root: Root, es: seq<Entry>): seq<Entry> {
    Filter(NotChildOf(root), es)
  }

  /** Visits the roots in order; each takes its children off the list, files first,
      then everything below its directories. */
  function Walk(roots: seq<Root>, es: seq<Entry>): (w: Walked)
    ensures |w.rest| <= |es|
    decreases |es|, |roots|
  {
    if roots == [] then Walked([], es)
    else
      ChildrenCount(roots[0], es);
      var deep := Walk(Wrap(DirsOf(roots[0], es)), Others(roots[0], es));
      var next := Walk(roots[1..], deep.rest);
      Walked(CallsFor(roots[0], FilesOf(roots[0], es)) + CallsFor(roots[0], DirsOf(roots[0], es))
             + deep.calls + next.calls, next.rest)
  }

  lemma ChildrenCount(root: Root, es: seq<Entry>)
    ensures |DirsOf(root, es)| + |Others(root, es)| <= |es|
  {
    FilterHalves(ChildOf(root), NotChildOf(root), es);
  }

  lemma FilterHalves(a: Test, b: Test, es: seq<Entry>)
    requires forall e :: a.Holds(e) <==> !b.Holds(e)
    ensures |Filter(a, es)| + |Filter(b, es)| == |es|
    ensures multiset(Filter(a, es)) + multiset(Filter(b, es)) == multiset(es)
  {
    hide Test.Holds, Filter;
    forall e
      ensures multiset(Filter(a, es))[e] + multiset(Filter(b, es))[e] == multiset(es)[e]
    {
      FilterCount(a, es, e);
      FilterCount(b, es, e);
    }
    assert multiset(Filter(a, es)) + multiset(Filter(b, es)) == multiset(es);
    assert |multiset(Filter(a, es)) + multiset(Filter(b, es))| == |Filter(a, es)| + |Filter(b, es)|;
  }

  lemma {:induction false} FilterCount(t: Test, es: seq<Entry>, e: Entry)
    ensures multiset(Filter(t, es))[e] == if t.Holds(e) then multiset(es)[e] else 0
  {
    hide Test.Holds, Filter;
    if es == [] {
      NothingFiltered(t);
    } else {
      FilterCount(t, es[1..], e);
      FilterCons(t, es);
      FrontCount(es[0], es[1..], e);
      FrontCount(es[0], Filter(t, es[1..]), e);
      assert es == [es[0]] + es[1..];
      assert [] + Filter(t, es[1..]) == Filter(t, es[1..]);
    }
  }

  lemma NothingFiltered(t: Test)
    ensures Filter(t, []) == []
  {
  }

  lemma FrontCount(x: Entry, s: seq<Entry>, e: Entry)
    ensures multiset([x] + s)[e] == multiset(s)[e] + if x == e then 1 else 0
  {
  }

  lemma FilterCons(t: Test, es: seq<Entry>)
    requires es != []
    ensures Filter(t, es) == (if t.Holds(es[0]) then [es[0]] else []) + Filter(t, es[1..])
  {
    hide Test.Holds;
  }

  // ---------- the walk over a shared list ----------

  class EntryList {
    var items: seq<Entry>

    constructor (items: seq<Entry>)
      ensures this.items == items
    {
      this.items := items;
    }
  }

  class Handler {
    var parent: Root
    var calls: seq<Call>

    constructor ()
      ensures calls == []
    {
      parent := None;
      calls := [];
    }

    method SetParent(parent: Root)
      modifies this`parent
      ensures this.parent == parent
    {
      this.parent := parent;
    }

    method HandleFile(entry: Entry)
      modifies this`calls
      ensures calls == old(calls) + [Call(parent, entry)]
    {
      calls := calls + [Call(parent, entry)];
    }

    method HandleDir(entry: Entry) returns (root: Root)
      modifies this`calls
      ensures calls == old(calls) + [Call(parent, entry)] && root == Some(entry)
    {
      calls := calls + [Call(parent, entry)];
      root := Some(entry);
    }
  }

  /** No entry is at the top. */
  predicate Nested(es: seq<Entry>) {
    forall e | e in es :: e.Parent().Some?
  }

  /** Roots are visited only after the entries at the top have been taken, except for the archive itself. */
  predicate Safe(roots: seq<Root>, es: seq<Entry>) {
    forall root | root in roots :: root.None? || Nested(es)
  }

  /** The comparison of parents: it dereferences the first one unless both are the same reference. */
  predicate SameParent(parent: Option<string>, root: Option<string>)
    requires parent.Some? || root.None?
  {
    match parent
    case None => true
    case Some(path) => root == Some(path)
  }

  /** What a pass that has kept some entries and taken the given directories and files makes of
      the whole list, when the entries of es are still ahead. */
  ghost predicate Taking(root: Root, all: seq<Entry>, kept: seq<Entry>, dirs: seq<Entry>, files: seq<Entry>, es: seq<Entry>) {
    && Others(root, all) == kept + Others(root, es)
    && DirsOf(root, all) == dirs + DirsOf(root, es)
    && FilesOf(root, all) == files + FilesOf(root, es)
  }

  lemma TakingStarts(root: Root, all: seq<Entry>)
    ensures Taking(root, all, [], [], [], all)
    ensures CallsFor(root, []) == []
  {
    hide Others, DirsOf, FilesOf;
    assert [] + Others(root, all) == Others(root, all);
    assert [] + DirsOf(root, all) == DirsOf(root, all);
    assert [] + FilesOf(root, all) == FilesOf(root, all);
  }

  lemma TakingStep(root: Root, all: seq<Entry>, kept: seq<Entry>, dirs: seq<Entry>, files: seq<Entry>, es: seq<Entry>)
    requires es != [] && Taking(root, all, kept, dirs, files, es)
    ensures es[0].Parent() != PathOf(root) ==> Taking(root, all, kept + [es[0]], dirs, files, es[1..])
    ensures es[0].Parent() == PathOf(root) && es[0].IsDirectory() ==> Taking(root, all, kept, dirs + [es[0]], files, es[1..])
    ensures es[0].Parent() == PathOf(root) && !es[0].IsDirectory() ==> Taking(root, all, kept, dirs, files + [es[0]], es[1..])
  {
    hide Others, DirsOf, FilesOf, Entry.Parent, Entry.IsDirectory, PathOf;
    FilterStep(root, es);
    assert kept + [es[0]] + Others(root, es[1..]) == kept + ([es[0]] + Others(root, es[1..]));
    assert dirs + [es[0]] + DirsOf(root, es[1..]) == dirs + ([es[0]] + DirsOf(root, es[1..]));
    assert files + [es[0]] + FilesOf(root, es[1..]) == files + ([es[0]] + FilesOf(root, es[1..]));
    assert [] + Others(root, es[1..]) == Others(root, es[1..]);
    assert [] + DirsOf(root, es[1..]) == DirsOf(root, es[1..]);
    assert [] + FilesOf(root, es[1..]) == FilesOf(root, es[1..]);
  }

  lemma TakingEnds(root: Root, all: seq<Entry>, kept: seq<Entry>, dirs: seq<Entry>, files: seq<Entry>)
    requires Taking(root, all, kept, dirs, files, [])
    ensures Others(root, all) == kept && DirsOf(root, all) == dirs && FilesOf(root, all) == files
  {
    hide Others, DirsOf, FilesOf;
    NoneTaken(root);
  }

  /** Takes the children of a root off the list: files are handled at once, directories returned. */
  method TakeChildren(root: Root, entryList: EntryList, handler: Handler) returns (tempDirList: seq<Entry>)
    requires root.None? || Nested(entryList.items)
    modifies entryList, handler
    ensures handler.parent == root
    ensures entryList.items == old(Others(root, entryList.items))
    ensures tempDirList == old(DirsOf(root, entryList.items))
    ensures handler.calls == old(handler.calls + CallsFor(root, FilesOf(root, entryList.items)))
  {
    hide Taking, Others, DirsOf, FilesOf, CallsFor, Entry.Parent, Entry.IsDirectory;
    handler.SetParent(root);
    tempDirList := [];
    ghost var all, calls := entryList.items, handler.calls;
    ghost var files: seq<Entry> := [];
    TakingStarts(root, all);
    assert all[0..] == all && all[..0] == [];
    var i := 0;
    while i < |entryList.items|
      invariant 0 <= i <= |entryList.items|
      invariant handler.parent == root
      invariant forall e | e in entryList.items :: e in all
      invariant Taking(root, all, entryList.items[..i], tempDirList, files, entryList.items[i..])
      invariant handler.calls == calls + CallsFor(root, files)
      decreases |entryList.items| - i
    {
      var entry := entryList.items[i];
      ghost var kept, es := entryList.items[..i], entryList.items[i..];
      TakingStep(root, all, kept, tempDirList, files, es);
      if SameParent(entry.Parent(), PathOf(root)) {
        if entry.IsDirectory() {
          tempDirList := tempDirList + [entry];
        } else {
          handler.HandleFile(entry);
          CallsForSnoc(root, files, entry);
          files := files + [entry];
        }
        entryList.items := entryList.items[..i] + entryList.items[i + 1..];
        assert entryList.items[..i] == kept && entryList.items[i..] == es[1..];
      } else {
        assert entryList.items[..i + 1] == kept + [entry] && entryList.items[i + 1..] == es[1..];
        i := i + 1;
      }
    }
    assert entryList.items[i..] == [] && entryList.items[..i] == entryList.items;
    TakingEnds(root, all, entryList.items, tempDirList, files);
  }

  lemma FilterStep(root: Root, es: seq<Entry>)
    requires es != []
    ensures var e := es[0];
            && Others(root, es) == (if e.Parent() == PathOf(root) then [] else [e]) + Others(root, es[1..])
            && DirsOf(root, es) == (if e.Parent() == PathOf(root) && e.IsDirectory() then [e] else []) + DirsOf(root, es[1..])
            && FilesOf(root, es) == (if e.Parent() == PathOf(root) && !e.IsDirectory() then [e] else []) + FilesOf(root, es[1..])
  {
    hide Entry.Parent, Entry.IsDirectory, PathOf, Reaches, Filter;
    FilterCons(ChildOf(root), es);
    FilterCons(NotChildOf(root), es);
    var here := Filter(ChildOf(root), es[1..]);
    if ChildOf(root).Holds(es[0]) {
      assert ([es[0]] + here)[1..] == here;
      FilterCons(IsDir, [es[0]] + here);
      FilterCons(IsFile, [es[0]] + here);
    } else {
      assert [] + here == here;
    }
  }

  lemma NoneTaken(root: Root)
    ensures Others(root, []) == [] && DirsOf(root, []) == [] && FilesOf(root, []) == [] && CallsFor(root, []) == []
  {
  }

  lemma CallsForSnoc(root: Root, es: seq<Entry>, e: Entry)
    ensures CallsFor(root, es + [e]) == CallsFor(root, es) + [Call(root, e)]
  {
  }

  /** Visits the roots over a shared list, which every level below shortens further. */
  method HandleOneLevelDown(roots: seq<Root>, entryList: EntryList, handler: Handler)
    requires Safe(roots, entryList.items)
    modifies entryList, handler
    ensures handler.calls == old(handler.calls + Walk(roots, entryList.items).calls)
    ensures entryList.items == old(Walk(roots, entryList.items).rest)
    ensures forall e | e in entryList.items :: e in old(entryList.items)
    decreases |entryList.items|, |roots|
  {
    hide Walk, Others, DirsOf, FilesOf, CallsFor;
    ghost var es, calls := entryList.items, handler.calls;
    ghost var done: seq<Call> := [];
    var n := 0;
    assert roots[n..] == roots;
    while n < |roots|
      invariant 0 <= n <= |roots|
      invariant |entryList.items| <= |es|
      invariant forall e | e in entryList.items :: e in es
      invariant handler.calls == calls + done
      invariant Walk(roots, es) == Walked(done + Walk(roots[n..], entryList.items).calls,
                                          Walk(roots[n..], entryList.items).rest)
    {
      ghost var before := entryList.items;
      var root := roots[n];
      var tempDirList := TakeChildren(root, entryList, handler);
      var dirList: seq<Root> := [];
      var i := 0;
      ghost var soFar := handler.calls;
      NoneTaken(root);
      while i < |tempDirList|
        invariant 0 <= i <= |tempDirList|
        invariant handler.parent == root && entryList.items == Others(root, before)
        invariant dirList == Wrap(tempDirList[..i])
        invariant handler.calls == soFar + CallsFor(root, tempDirList[..i])
      {
        var dir := handler.HandleDir(tempDirList[i]);
        assert tempDirList[..i + 1] == tempDirList[..i] + [tempDirList[i]];
        CallsForSnoc(root, tempDirList[..i], tempDirList[i]);
        dirList := dirList + [dir];
        i := i + 1;
      }
      assert tempDirList[..i] == tempDirList;
      OthersAreNested(root, before);
      ChildrenCount(root, before);
      HandleOneLevelDown(dirList, entryList, handler);
      WalkUnfold(roots[n..], before);
      assert roots[n..][1..] == roots[n + 1..];
      ghost var here := CallsFor(root, FilesOf(root, before)) + CallsFor(root, DirsOf(root, before))
                        + Walk(Wrap(DirsOf(root, before)), Others(root, before)).calls;
      assert done + (here + Walk(roots[n + 1..], entryList.items).calls)
          == (done + here) + Walk(roots[n + 1..], entryList.items).calls;
      done := done + here;
      n := n + 1;
    }
    WalkNothing(entryList.items);
    assert roots[n..] == [];
  }

  lemma OthersAreNested(root: Root, es: seq<Entry>)
    requires root.None? || Nested(es)
    ensures Nested(Others(root, es))
    ensures forall e | e in Others(root, es) :: e in es
  {
    forall e | e in Others(root, es)
      ensures e in es && (root.None? || Nested(es) ==> e.Parent().Some?)
    {
      FilterIn(NotChildOf(root), es, e);
    }
  }

  lemma WalkNothing(es: seq<Entry>)
    ensures Walk([], es) == Walked([], es)
  {
  }

  lemma WalkUnfold(roots: seq<Root>, es: seq<Entry>)
    requires roots != []
    ensures var root := roots[0];
            var deep := Walk(Wrap(DirsOf(root, es)), Others(root, es));
            var next := Walk(roots[1..], deep.rest);
            Walk(roots, es) == Walked(CallsFor(root, FilesOf(root, es)) + CallsFor(root, DirsOf(root, es))
                                      + deep.calls + next.calls, next.rest)
  {
  }

  /** Visits a whole archive: no precondition is needed for the comparison of parents to be safe. */
  method Visit(entries: seq<Entry>, handler: Handler)
    modifies handler
    ensures handler.calls == old(handler.calls) + Walk([None], entries).calls
  {
    var entryList := new EntryList(entries);
    HandleOneLevelDown([None], entryList, handler);
  }

  // ---------- what the walk does ----------

  /** Filtering twice is filtering once, by both tests. */
  lemma {:induction false} FilterTwice(a: Test, b: Test, both: Test, es: seq<Entry>)
    requires forall e | e in es :: both.Holds(e) <==> a.Holds(e) && b.Holds(e)
    ensures Filter(b, Filter(a, es)) == Filter(both, es)
  {
    if es != [] {
      hide Test.Holds, Filter;
      FilterTwice(a, b, both, es[1..]);
      FilterCons(a, es);
      FilterCons(both, es);
      assert es[0] in es;
      var rest := Filter(a, es[1..]);
      if a.Holds(es[0]) {
        assert ([es[0]] + rest)[1..] == rest;
        FilterCons(b, [es[0]] + rest);
      } else {
        assert [] + rest == rest;
        assert [] + Filter(both, es[1..]) == Filter(both, es[1..]);
      }
    } else {
      assert Filter(a, es) == [];
    }
  }

  /** The directory paths left after one level. */
  function Below(top: Option<string>, dirs: set<string>): set<string> {
    set q | q in dirs && ParentOf(q) != top
  }

  function Level(top: Option<string>, dirs: set<string>): set<Option<string>> {
    set q | q in dirs && ParentOf(q) == top :: Some(q)
  }

  /** What is reached from a directory is its children and what is reached from its
      subdirectories through what lies below. */
  lemma {:induction false} ReachOneLevel(p: string, top: Option<string>, dirs: set<string>)
    ensures Reaches(p, {top}, dirs) <==>
            ParentOf(p) == top || Reaches(p, Level(top, dirs), Below(top, dirs))
    decreases |p|
  {
    hide ParentOf;
    var parent := ParentOf(p);
    if parent.Some? {
      ParentIsShorter(p);
      ReachOneLevel(parent.value, top, dirs);
      assert parent in Level(top, dirs) <==> parent.value in dirs && ParentOf(parent.value) == top;
    } else {
      assert parent !in Level(top, dirs);
    }
  }

  lemma ParentIsShorter(p: string)
    requires ParentOf(p).Some?
    ensures |ParentOf(p).value| < |p|
  {
  }

  /** The directories that are not reached from top. */
  function Unreached(top: Option<string>, dirs: set<string>): set<string> {
    set q | q in dirs && !Reaches(q, {top}, dirs)
  }

  /** Removing what one root reaches does not change what the other roots reach of the rest. */
  lemma {:induction false} ReachOtherRoots(p: string, top: Option<string>, tops: set<Option<string>>, dirs: set<string>)
    requires !Reaches(p, {top}, dirs)
    ensures Reaches(p, tops, Unreached(top, dirs)) <==> Reaches(p, {top} + tops, dirs)
    decreases |p|
  {
    hide ParentOf;
    var parent := ParentOf(p);
    if parent.Some? && parent.value in dirs {
      ParentIsShorter(p);
      ReachOtherRoots(parent.value, top, tops, dirs);
    }
  }

  lemma DirPathsBelow(root: Root, es: seq<Entry>)
    ensures DirPaths(Others(root, es)) == Below(PathOf(root), DirPaths(es))
    ensures RootPaths(Wrap(DirsOf(root, es))) == Level(PathOf(root), DirPaths(es))
  {
    hide Normalize, ParentOf, Filter;
    forall e
      ensures e in Others(root, es) <==> e in es && e.Parent() != PathOf(root)
      ensures e in DirsOf(root, es) <==> e in es && e.Parent() == PathOf(root) && e.IsDirectory()
    {
      FilterIn(NotChildOf(root), es, e);
      FilterIn(ChildOf(root), es, e);
      FilterIn(IsDir, Filter(ChildOf(root), es), e);
    }
    var level := Wrap(DirsOf(root, es));
    forall top
      ensures top in RootPaths(level) <==> top in Level(PathOf(root), DirPaths(es))
    {
      if top in RootPaths(level) {
        var i :| 0 <= i < |level| && PathOf(level[i]) == top;
        assert DirsOf(root, es)[i] in DirsOf(root, es);
      }
      if top in Level(PathOf(root), DirPaths(es)) {
        var e :| e in es && e.IsDirectory() && Some(e.Path()) == top && e.Parent() == PathOf(root);
        var i :| 0 <= i < |level| && DirsOf(root, es)[i] == e;
        assert level[i] in level;
      }
    }
  }

  lemma DirPathsUnreached(top: Option<string>, es: seq<Entry>)
    ensures DirPaths(Filter(Missed({top}, DirPaths(es)), es)) == Unreached(top, DirPaths(es))
  {
    hide Normalize, Reaches, Filter;
    forall e
      ensures e in Filter(Missed({top}, DirPaths(es)), es) <==> e in es && !Reaches(e.Path(), {top}, DirPaths(es))
    {
      FilterIn(Missed({top}, DirPaths(es)), es, e);
    }
  }

  /** The walk leaves on the list, in order, exactly the entries no root reaches. */
  lemma {:induction false} WalkLeavesUnreached(roots: seq<Root>, es: seq<Entry>)
    ensures Walk(roots, es).rest == Filter(Missed(RootPaths(roots), DirPaths(es)), es)
    decreases |es|, |roots|
  {
    hide Walk, Filter, DirPaths, RootPaths, Reaches, Test.Holds, Others, DirsOf;
    if roots == [] {
      WalkNothing(es);
      NobodyReached(es);
    } else {
      var root := roots[0];
      var top, dirs := PathOf(root), DirPaths(es);
      WalkUnfold(roots, es);
      ChildrenCount(root, es);
      var deep := Walk(Wrap(DirsOf(root, es)), Others(root, es)).rest;
      WalkLeavesUnreached(Wrap(DirsOf(root, es)), Others(root, es));
      FirstRootDone(root, es, deep);
      WalkLeavesUnreached(roots[1..], deep);
      OtherRootsDone(roots, es, deep);
    }
  }

  lemma NobodyReached(es: seq<Entry>)
    ensures Filter(Missed(RootPaths([]), DirPaths(es)), es) == es
  {
    hide Reaches;
    forall e: Entry
      ensures Missed(RootPaths([]), DirPaths(es)).Holds(e)
    {
      NoRootReaches(e.Path(), DirPaths(es));
    }
    KeepAll(Missed(RootPaths([]), DirPaths(es)), es);
  }

  lemma {:induction false} NoRootReaches(p: string, dirs: set<string>)
    ensures !Reaches(p, RootPaths([]), dirs)
    decreases |p|
  {
    hide ParentOf;
    if ParentOf(p).Some? {
      ParentIsShorter(p);
      NoRootReaches(ParentOf(p).value, dirs);
    }
  }

  lemma {:induction false} KeepAll(t: Test, es: seq<Entry>)
    requires forall e :: t.Holds(e)
    ensures Filter(t, es) == es
  {
    if es != [] {
      KeepAll(t, es[1..]);
    }
  }

  lemma FirstRootDone(root: Root, es: seq<Entry>, deep: seq<Entry>)
    requires deep == Filter(Missed(RootPaths(Wrap(DirsOf(root, es))), DirPaths(Others(root, es))), Others(root, es))
    ensures deep == Filter(Missed({PathOf(root)}, DirPaths(es)), es)
  {
    hide Filter, DirPaths, RootPaths, Reaches, Normalize;
    var top, dirs := PathOf(root), DirPaths(es);
    DirPathsBelow(root, es);
    var all, one, rest := Missed({top}, dirs), NotChildOf(root), Missed(Level(top, dirs), Below(top, dirs));
    forall e | e in es
      ensures all.Holds(e) <==> one.Holds(e) && rest.Holds(e)
    {
      ReachOneLevel(e.Path(), top, dirs);
    }
    FilterTwice(one, rest, all, es);
  }

  lemma OtherRootsDone(roots: seq<Root>, es: seq<Entry>, deep: seq<Entry>)
    requires roots != [] && deep == Filter(Missed({PathOf(roots[0])}, DirPaths(es)), es)
    ensures Filter(Missed(RootPaths(roots[1..]), DirPaths(deep)), deep) == Filter(Missed(RootPaths(roots), DirPaths(es)), es)
  {
    hide Filter, DirPaths, Reaches, Normalize, PathOf;
    var top, tops, dirs := PathOf(roots[0]), RootPaths(roots[1..]), DirPaths(es);
    assert RootPaths(roots) == {top} + tops by {
      assert forall root :: root in roots <==> root == roots[0] || root in roots[1..];
    }
    DirPathsUnreached(top, es);
    var all, one, rest := Missed({top} + tops, dirs), Missed({top}, dirs), Missed(tops, Unreached(top, dirs));
    forall e | e in es
      ensures all.Holds(e) <==> one.Holds(e) && rest.Holds(e)
    {
      MoreRootsReachMore(e.Path(), top, tops, dirs);
      if one.Holds(e) {
        ReachOtherRoots(e.Path(), top, tops, dirs);
      }
    }
    FilterTwice(one, rest, all, es);
  }

  lemma {:induction false} MoreRootsReachMore(p: string, top: Option<string>, tops: set<Option<string>>, dirs: set<string>)
    ensures Reaches(p, {top}, dirs) ==> Reaches(p, {top} + tops, dirs)
    decreases |p|
  {
    hide ParentOf;
    if ParentOf(p).Some? {
      ParentIsShorter(p);
      MoreRootsReachMore(ParentOf(p).value, top, tops, dirs);
    }
  }

  function EntriesOf(calls: seq<Call>): seq<Entry> {
    seq(|calls|, i requires 0 <= i < |calls| => calls[i].entry)
  }

  lemma EntriesOfConcat(a: seq<Call>, b: seq<Call>)
    ensures EntriesOf(a + b) == EntriesOf(a) + EntriesOf(b)
    ensures multiset(EntriesOf(a + b)) == multiset(EntriesOf(a)) + multiset(EntriesOf(b))
  {
  }

  lemma EntriesOfCalls(parent: Root, es: seq<Entry>)
    ensures EntriesOf(CallsFor(parent, es)) == es
  {
  }

  lemma OneLevelConserves(root: Root, es: seq<Entry>)
    ensures multiset(FilesOf(root, es)) + multiset(DirsOf(root, es)) + multiset(Others(root, es)) == multiset(es)
  {
    hide Filter, Entry.Parent, Entry.IsDirectory;
    FilterHalves(ChildOf(root), NotChildOf(root), es);
    FilterHalves(IsDir, IsFile, Filter(ChildOf(root), es));
  }

  /** Every entry is handled exactly once or stays on the list. */
  lemma {:induction false} WalkConserves(roots: seq<Root>, es: seq<Entry>)
    ensures multiset(EntriesOf(Walk(roots, es).calls)) + multiset(Walk(roots, es).rest) == multiset(es)
    decreases |es|, |roots|
  {
    hide Walk, Others, DirsOf, FilesOf, CallsFor, EntriesOf;
    if roots == [] {
      WalkNothing(es);
      NoEntries();
    } else {
      var root := roots[0];
      WalkUnfold(roots, es);
      ChildrenCount(root, es);
      var files, dirs := CallsFor(root, FilesOf(root, es)), CallsFor(root, DirsOf(root, es));
      var deep := Walk(Wrap(DirsOf(root, es)), Others(root, es));
      var next := Walk(roots[1..], deep.rest);
      WalkConserves(Wrap(DirsOf(root, es)), Others(root, es));
      WalkConserves(roots[1..], deep.rest);
      OneLevelConserves(root, es);
      EntriesOfCalls(root, FilesOf(root, es));
      EntriesOfCalls(root, DirsOf(root, es));
      EntriesOfConcat(files + dirs + deep.calls, next.calls);
      EntriesOfConcat(files + dirs, deep.calls);
      EntriesOfConcat(files, dirs);
    }
  }

  lemma NoEntries()
    ensures EntriesOf([]) == []
  {
  }

  /** Call i was made under the right parent, which is a root or was itself handled, as a directory, before. */
  ghost predicate Announced(calls: seq<Call>, i: nat, roots: seq<Root>)
    requires i < |calls|
  {
    && calls[i].entry.Parent() == PathOf(calls[i].parent)
    && (calls[i].parent in roots
        || exists j | 0 <= j < i :: calls[j].entry.IsDirectory() && calls[i].parent == Some(calls[j].entry))
  }

  ghost predicate AllAnnounced(calls: seq<Call>, roots: seq<Root>) {
    forall i | 0 <= i < |calls| :: Announced(calls, i, roots)
  }

  /** Announced calls stay announced after calls that bring in, as directories, the roots that are missing. */
  lemma AppendAnnounced(a: seq<Call>, roots: seq<Root>, b: seq<Call>, more: seq<Root>)
    requires AllAnnounced(a, roots) && AllAnnounced(b, more)
    requires forall root | root in more && root !in roots ::
               exists j | 0 <= j < |a| :: a[j].entry.IsDirectory() && root == Some(a[j].entry)
    ensures AllAnnounced(a + b, roots)
  {
    hide Entry.Parent, Entry.IsDirectory, PathOf;
    forall i | 0 <= i < |a + b|
      ensures Announced(a + b, i, roots)
    {
      if i < |a| {
        assert Announced(a, i, roots);
        if a[i].parent !in roots {
          var j :| 0 <= j < i && a[j].entry.IsDirectory() && a[i].parent == Some(a[j].entry);
          assert (a + b)[j] == a[j];
        }
      } else {
        var k := i - |a|;
        assert Announced(b, k, more) && (a + b)[i] == b[k];
        if b[k].parent in more && b[k].parent !in roots {
          var j :| 0 <= j < |a| && a[j].entry.IsDirectory() && b[k].parent == Some(a[j].entry);
          assert (a + b)[j] == a[j];
        } else if b[k].parent !in more {
          var j :| 0 <= j < k && b[j].entry.IsDirectory() && b[k].parent == Some(b[j].entry);
          assert (a + b)[|a| + j] == b[j];
        }
      }
    }
  }

  lemma LevelAnnounced(root: Root, es: seq<Entry>, roots: seq<Root>)
    requires root in roots
    ensures AllAnnounced(CallsFor(root, FilesOf(root, es)) + CallsFor(root, DirsOf(root, es)), roots)
    ensures forall e | e in DirsOf(root, es) :: e.IsDirectory()
  {
    hide Entry.Parent, Entry.IsDirectory, PathOf, Filter;
    var calls := CallsFor(root, FilesOf(root, es)) + CallsFor(root, DirsOf(root, es));
    forall i | 0 <= i < |calls|
      ensures Announced(calls, i, roots)
    {
      var e := calls[i].entry;
      assert e in FilesOf(root, es) || e in DirsOf(root, es);
      FilterIn(IsFile, Filter(ChildOf(root), es), e);
      FilterIn(IsDir, Filter(ChildOf(root), es), e);
      FilterIn(ChildOf(root), es, e);
    }
    forall e | e in DirsOf(root, es)
      ensures e.IsDirectory()
    {
      FilterIn(IsDir, Filter(ChildOf(root), es), e);
    }
  }

  /** Every entry is handled under the directory it lies in, after that directory itself. */
  lemma {:induction false} WalkAnnounces(roots: seq<Root>, es: seq<Entry>)
    ensures AllAnnounced(Walk(roots, es).calls, roots)
    decreases |es|, |roots|
  {
    hide Walk, Others, DirsOf, FilesOf, AllAnnounced, Entry.Parent, Entry.IsDirectory;
    if roots == [] {
      WalkNothing(es);
      NoCalls(roots);
    } else {
      var root := roots[0];
      WalkUnfold(roots, es);
      ChildrenCount(root, es);
      var dirs := DirsOf(root, es);
      var here := CallsFor(root, FilesOf(root, es)) + CallsFor(root, dirs);
      var deep := Walk(Wrap(dirs), Others(root, es));
      LevelAnnounced(root, es, roots);
      WalkAnnounces(Wrap(dirs), Others(root, es));
      WalkAnnounces(roots[1..], deep.rest);
      forall top | top in Wrap(dirs)
        ensures exists j | 0 <= j < |here| :: here[j].entry.IsDirectory() && top == Some(here[j].entry)
      {
        var i :| 0 <= i < |dirs| && top == Some(dirs[i]);
        assert here[|FilesOf(root, es)| + i].entry == dirs[i] && dirs[i] in dirs;
      }
      AppendAnnounced(here, roots, deep.calls, Wrap(dirs));
      AppendAnnounced(here + deep.calls, roots, Walk(roots[1..], deep.rest).calls, roots[1..]);
    }
  }

  lemma NoCalls(roots: seq<Root>)
    ensures AllAnnounced([], roots)
  {
  }

  /** All ancestors of the path are listed directories. */
  predicate Reachable(p: string, dirs: set<string>)
    decreases |p|
  {
    ParentOf(p).None? || (ParentOf(p).value in dirs && Reachable(ParentOf(p).value, dirs))
  }

  lemma {:induction false} ReachableIff(p: string, dirs: set<string>)
    ensures Reachable(p, dirs) <==> Reaches(p, {None}, dirs)
    decreases |p|
  {
    hide ParentOf;
    if ParentOf(p).Some? {
      ParentIsShorter(p);
      ReachableIff(ParentOf(p).value, dirs);
    }
  }

  /** Visiting an archive handles each entry whose ancestor directories are all
      entries exactly once, and no other entry. */
  lemma VisitHandles(es: seq<Entry>, e: Entry)
    ensures multiset(EntriesOf(Walk([None], es).calls))[e] ==
            if Reachable(e.Path(), DirPaths(es)) then multiset(es)[e] else 0
  {
    hide Walk, Filter, Reaches, Reachable, Normalize, EntriesOf;
    WalkConserves([None], es);
    WalkLeavesUnreached([None], es);
    assert RootPaths([None]) == {None} by {
      var roots: seq<Root> := [None];
      assert roots[0] in roots && PathOf(roots[0]) == None;
    }
    ReachableIff(e.Path(), DirPaths(es));
    FilterCount(Missed({None}, DirPaths(es)), es, e);
  }

  /** At every call the entry's directory is the parent the handler was told, and was
      handled before; entries at the top are handled under the archive itself. */
  lemma VisitOrder(es: seq<Entry>, i: nat)
    requires i < |Walk([None], es).calls|
    ensures var calls := Walk([None], es).calls;
            match calls[i].parent
            case None => calls[i].entry.Parent().None?
            case Some(dir) =>
              && calls[i].entry.Parent() == Some(dir.Path())
              && exists j | 0 <= j < i :: calls[j].entry == dir && dir.IsDirectory()
  {
    hide Walk, Normalize, ParentOf;
    WalkAnnounces([None], es);
    assert Announced(Walk([None], es).calls, i, [None]);
  }
}
