/** Building the folder objects of an archive from the calls of the tree walk. */
module ZipFolders {
  import opened FolderScan
  import opened Outcomes
  import opened Paths
  import opened ZipWalk

  const IGNORE_EXT: string := ".ignore"

  predicate KeptFile(base: string) {
    Wanted(base) || EndsWith(base, IGNORE_EXT)
  }

  /** The entry goes into a folder's sub-folders, or into its files. */
  predicate Goes(e: Entry, toFolders: bool) {
    if toFolders then e.IsDirectory() else !e.IsDirectory() && KeptFile(BaseName(e.Path()))
  }

  /** The entries that calls put into the sub-folders or files of a directory, in order. */
  function Under(calls: seq<Call>, dir: Root, toFolders: bool): seq<Entry> {
    if calls == [] then []
    else
      var last := calls[|calls| - 1];
      Under(calls[..|calls| - 1], dir, toFolders)
      + if last.parent == dir && Goes(last.entry, toFolders) then [last.entry] else []
  }

  lemma UnderSnoc(calls: seq<Call>, c: Call, dir: Root, toFolders: bool)
    ensures Under(calls + [c], dir, toFolders) ==
            Under(calls, dir, toFolders) + if c.parent == dir && Goes(c.entry, toFolders) then [c.entry] else []
  {
    assert (calls + [c])[..|calls|] == calls;
  }

  lemma UnderDir(calls: seq<Call>, c: Call)
    requires c.entry.IsDirectory()
    ensures forall dir: Root ::
              && Under(calls + [c], dir, true) == Under(calls, dir, true) + (if dir == c.parent then [c.entry] else [])
              && Under(calls + [c], dir, false) == Under(calls, dir, false)
  {
    hide Under;
    forall dir: Root
      ensures Under(calls + [c], dir, true) == Under(calls, dir, true) + (if dir == c.parent then [c.entry] else [])
      ensures Under(calls + [c], dir, false) == Under(calls, dir, false)
    {
      UnderSnoc(calls, c, dir, true);
      UnderSnoc(calls, c, dir, false);
    }
  }

  lemma UnderFile(calls: seq<Call>, c: Call)
    requires !c.entry.IsDirectory()
    ensures forall dir: Root ::
              && Under(calls + [c], dir, true) == Under(calls, dir, true)
              && Under(calls + [c], dir, false) ==
                 Under(calls, dir, false) + (if dir == c.parent && KeptFile(BaseName(c.entry.Path())) then [c.entry] else [])
  {
    hide Under, KeptFile;
    forall dir: Root
      ensures Under(calls + [c], dir, true) == Under(calls, dir, true)
      ensures Under(calls + [c], dir, false) ==
              Under(calls, dir, false) + (if dir == c.parent && KeptFile(BaseName(c.entry.Path())) then [c.entry] else [])
    {
      UnderSnoc(calls, c, dir, true);
      UnderSnoc(calls, c, dir, false);
    }
  }

  lemma {:induction false} NothingUnder(calls: seq<Call>, dir: Root, toFolders: bool)
    requires forall i | 0 <= i < |calls| :: calls[i].parent != dir
    ensures Under(calls, dir, toFolders) == []
    decreases |calls|
  {
    if calls != [] {
      NothingUnder(calls[..|calls| - 1], dir, toFolders);
    }
  }

  class SimulatorFolder {
    var name: string
    var files: seq<Entry>
    var subFolders: seq<SimulatorFolder>

    constructor (name: string)
      ensures this.name == name && files == [] && subFolders == []
    {
      this.name := name;
      files, subFolders := [], [];
    }
  }

  /** The handler of the archive constructor; its wrappers are a map from directory to folder. */
  class FolderHandler {
    var parent: Root
    var folders: map<Root, SimulatorFolder>
    ghost var calls: seq<Call>

    ghost predicate Apart()
      reads this`folders
    {
      forall a, b | a in folders && b in folders && a != b :: folders[a] != folders[b]
    }

    /** A directory's folder has the files and folders of the calls made under it. */
    ghost predicate BuiltAt(dir: Root)
      requires dir in folders
      reads this`folders, this`calls, folders.Values
    {
      var folder, dirs := folders[dir], Under(calls, dir, true);
      && folder.files == Under(calls, dir, false)
      && |folder.subFolders| == |dirs|
      && forall i | 0 <= i < |dirs| :: Some(dirs[i]) in folders && folder.subFolders[i] == folders[Some(dirs[i])]
    }

    ghost predicate NamedAt(dir: Root)
      requires dir in folders
      reads this`folders, folders.Values
    {
      dir.Some? ==> folders[dir].name == BaseName(dir.value.Path())
    }

    ghost predicate Valid()
      reads this`folders, this`calls, folders.Values
    {
      && Apart() && None in folders
      && (forall dir | dir in folders :: BuiltAt(dir) && NamedAt(dir))
      && forall i | 0 <= i < |calls| :: calls[i].parent in folders
    }

    /** A new folder for the entry, added to that of its parent, leaves every folder built. */
    twostate lemma DirAdded(entry: Entry)
      requires old(Valid()) && old(parent) == parent && parent in old(folders) && entry.IsDirectory()
      requires Some(entry) !in old(folders) && calls == old(calls) + [Call(parent, entry)]
      requires folders.Keys == old(folders.Keys) + {Some(entry)}
      requires forall dir | dir in old(folders) :: folders[dir] == old(folders[dir])
      requires forall dir | dir in old(folders) :: folders[dir].name == old(folders[dir].name)
      requires forall dir | dir in old(folders) :: folders[dir].files == old(folders[dir].files)
      requires forall dir | dir in old(folders) ::
                 folders[dir].subFolders == old(folders[dir].subFolders) + if dir == parent then [folders[Some(entry)]] else []
      requires folders[Some(entry)].files == [] && folders[Some(entry)].subFolders == []
      requires folders[Some(entry)].name == BaseName(entry.Path())
      ensures forall dir | dir in folders :: BuiltAt(dir) && NamedAt(dir)
    {
      hide Under, Goes, BaseName, Entry.IsDirectory, Entry.Path;
      NothingUnder(old(calls), Some(entry), true);
      NothingUnder(old(calls), Some(entry), false);
      UnderDir(old(calls), Call(parent, entry));
      forall dir | dir in folders
        ensures BuiltAt(dir) && NamedAt(dir)
      {
        if dir != Some(entry) {
          assert old(BuiltAt(dir) && NamedAt(dir));
        }
      }
    }

    constructor (top: SimulatorFolder)
      requires top.files == [] && top.subFolders == []
      ensures Valid() && folders == map[None := top] && calls == []
    {
      parent, folders, calls := None, map[None := top], [];
    }

    method SetParent(parent: Root)
      modifies this`parent
      ensures this.parent == parent
    {
      this.parent := parent;
    }

    /** A directory becomes a new folder in that of its parent. */
    method HandleDir(entry: Entry)
      requires Valid() && parent in folders && entry.IsDirectory() && Some(entry) !in folders
      modifies this`folders, this`calls, folders.Values
      ensures Valid() && calls == old(calls) + [Call(parent, entry)]
      ensures Some(entry) in folders && fresh(folders[Some(entry)]) && folders == old(folders)[Some(entry) := folders[Some(entry)]]
    {
      hide Under, Goes, BaseName, Entry.IsDirectory, Entry.Path, BuiltAt, NamedAt;
      var folder := new SimulatorFolder(BaseName(entry.Path()));
      folders[parent].subFolders := folders[parent].subFolders + [folder];
      folders := folders[Some(entry) := folder];
      calls := calls + [Call(parent, entry)];
      DirAdded(entry);
    }

    /** A file of a kept kind is added to the folder of its parent. */
    method HandleFile(entry: Entry)
      requires Valid() && parent in folders && !entry.IsDirectory()
      modifies this`calls, folders.Values
      ensures Valid() && calls == old(calls) + [Call(parent, entry)]
    {
      hide Under, Goes, BaseName, Entry.IsDirectory, Entry.Path, KeptFile;
      ghost var c := Call(parent, entry);
      UnderFile(calls, c);
      if KeptFile(BaseName(entry.Path())) {
        folders[parent].files := folders[parent].files + [entry];
      }
      calls := calls + [c];
    }
  }

  // ---------- the whole archive ----------

  /** No directory path is listed twice. */
  ghost predicate SingleDirs(es: seq<Entry>) {
    && (forall a, b | a in es && b in es && a.IsDirectory() && b.IsDirectory() && a.Path() == b.Path() :: a == b)
    && forall e | e in es && e.IsDirectory() :: multiset(es)[e] == 1
  }

  /** The directory was handled, or is the archive itself. */
  ghost predicate Handled(calls: seq<Call>, dir: Root) {
    dir == None || exists i | 0 <= i < |calls| :: calls[i].entry.IsDirectory() && dir == Some(calls[i].entry)
  }

  ghost predicate EachDirOnce(calls: seq<Call>) {
    forall i, j | 0 <= i < j < |calls| && calls[i].entry.IsDirectory() :: calls[i].entry != calls[j].entry
  }

  /** Tells a handler the calls of a walk. */
  method BuildFolders(calls: seq<Call>, top: SimulatorFolder) returns (handler: FolderHandler)
    requires AllAnnounced(calls, [None]) && EachDirOnce(calls) && top.files == [] && top.subFolders == []
    modifies top
    ensures handler.Valid() && handler.calls == calls && None in handler.folders && handler.folders[None] == top
    ensures forall dir :: dir in handler.folders <==> Handled(calls, dir)
  {
    hide Entry.IsDirectory, Entry.Parent, FolderHandler.Apart, FolderHandler.BuiltAt, FolderHandler.NamedAt, Handled, Announced;
    handler := new FolderHandler(top);
    assert calls[..0] == [] && forall dir :: Handled([], dir) <==> dir == None by {
      forall dir
        ensures Handled([], dir) <==> dir == None
      {
        NothingHandled(dir);
      }
    }
    for i := 0 to |calls|
      invariant fresh(handler) && fresh(handler.folders.Values - {top})
      invariant handler.Valid() && handler.calls == calls[..i] && handler.folders[None] == top
      invariant forall dir :: dir in handler.folders <==> Handled(calls[..i], dir)
    {
      ghost var c := calls[i];
      assert calls[..i + 1] == calls[..i] + [c];
      assert Announced(calls, i, [None]);
      ParentHandled(calls, i);
      HandledNext(calls, i);
      handler.SetParent(calls[i].parent);
      if calls[i].entry.IsDirectory() {
        NotYetHandled(calls, i);
        handler.HandleDir(calls[i].entry);
      } else {
        handler.HandleFile(calls[i].entry);
      }
    }
    assert calls[..|calls|] == calls;
  }

  lemma NothingHandled(dir: Root)
    ensures Handled([], dir) <==> dir == None
  {
  }

  lemma ParentHandled(calls: seq<Call>, i: nat)
    requires i < |calls| && Announced(calls, i, [None])
    ensures Handled(calls[..i], calls[i].parent)
  {
    hide Entry.Parent, Entry.IsDirectory;
    if calls[i].parent != None {
      var j :| 0 <= j < i && calls[j].entry.IsDirectory() && calls[i].parent == Some(calls[j].entry);
      assert calls[..i][j] == calls[j];
    }
  }

  lemma HandledNext(calls: seq<Call>, i: nat)
    requires i < |calls|
    ensures forall dir :: Handled(calls[..i + 1], dir) <==>
                          Handled(calls[..i], dir) || (calls[i].entry.IsDirectory() && dir == Some(calls[i].entry))
  {
    hide Entry.IsDirectory;
    assert forall j | 0 <= j < i :: calls[..i][j] == calls[j] && calls[..i + 1][j] == calls[j];
    assert calls[..i + 1][i] == calls[i];
    forall dir | Handled(calls[..i], dir)
      ensures Handled(calls[..i + 1], dir)
    {
      if dir != None {
        var j :| 0 <= j < i && calls[..i][j].entry.IsDirectory() && dir == Some(calls[..i][j].entry);
        assert calls[..i + 1][j].entry.IsDirectory();
      }
    }
  }

  lemma NotYetHandled(calls: seq<Call>, i: nat)
    requires i < |calls| && EachDirOnce(calls) && calls[i].entry.IsDirectory()
    ensures !Handled(calls[..i], Some(calls[i].entry))
  {
    hide Entry.IsDirectory;
    assert forall j | 0 <= j < i :: calls[..i][j] == calls[j];
  }

  /** Visiting an archive builds the folders of all its directories that the walk reaches. */
  method FolderOfZip(entries: seq<Entry>, top: SimulatorFolder) returns (handler: FolderHandler)
    requires SingleDirs(entries) && top.files == [] && top.subFolders == []
    modifies top
    ensures handler.Valid() && handler.calls == Walk([None], entries).calls
    ensures None in handler.folders && handler.folders[None] == top
    ensures forall dir :: dir in handler.folders <==> Visited(dir, entries)
  {
    hide Walk, Visited, SingleDirs, AllAnnounced, EachDirOnce;
    var recorder := new Handler();
    Visit(entries, recorder);
    WalkAnnounces([None], entries);
    DirsHandledOnce(entries);
    assert recorder.calls == Walk([None], entries).calls;
    handler := BuildFolders(recorder.calls, top);
    forall dir
      ensures Handled(recorder.calls, dir) <==> Visited(dir, entries)
    {
      HandledIffVisited(entries, dir);
    }
  }

  lemma EntryCount(calls: seq<Call>, i: nat)
    requires i < |calls|
    ensures multiset(EntriesOf(calls))[calls[i].entry] >= 1
  {
    assert EntriesOf(calls)[i] == calls[i].entry;
    assert calls[i].entry in EntriesOf(calls);
  }

  lemma HandledIffVisited(es: seq<Entry>, dir: Root)
    ensures Handled(Walk([None], es).calls, dir) <==> Visited(dir, es)
  {
    hide Walk, Entry.IsDirectory, Entry.Path, Reachable, EntriesOf;
    var calls := Walk([None], es).calls;
    if dir.Some? {
      VisitHandles(es, dir.value);
      if i :| 0 <= i < |calls| && calls[i].entry.IsDirectory() && dir == Some(calls[i].entry) {
        EntryCount(calls, i);
      }
      if Visited(dir, es) {
        EntryIndex(calls, dir.value);
      }
    }
  }

  lemma EntryIndex(calls: seq<Call>, e: Entry)
    requires multiset(EntriesOf(calls))[e] >= 1
    ensures exists i | 0 <= i < |calls| :: calls[i].entry == e
  {
    assert e in EntriesOf(calls);
    var i :| 0 <= i < |EntriesOf(calls)| && EntriesOf(calls)[i] == e;
    assert calls[i].entry == e;
  }

  lemma DirsHandledOnce(es: seq<Entry>)
    requires SingleDirs(es)
    ensures EachDirOnce(Walk([None], es).calls)
  {
    hide Walk, Entry.IsDirectory, Entry.Path, Reachable, EntriesOf;
    var calls := Walk([None], es).calls;
    forall i, j | 0 <= i < j < |calls| && calls[i].entry.IsDirectory()
      ensures calls[i].entry != calls[j].entry
    {
      VisitHandles(es, calls[i].entry);
      EntryCount(calls, i);
      if calls[i].entry == calls[j].entry {
        EntryTwice(calls, i, j);
      }
    }
  }

  lemma EntryTwice(calls: seq<Call>, i: nat, j: nat)
    requires i < j < |calls| && calls[i].entry == calls[j].entry
    ensures multiset(EntriesOf(calls))[calls[i].entry] >= 2
  {
    var a, b := EntriesOf(calls)[..j], EntriesOf(calls)[j..];
    assert EntriesOf(calls) == a + b;
    assert a[i] == b[0] == calls[i].entry;
    assert calls[i].entry in a && calls[i].entry in b;
  }

  // ---------- what the folders hold ----------

  lemma {:induction false} UnderCount(calls: seq<Call>, dir: Root, toFolders: bool, e: Entry)
    requires forall i | 0 <= i < |calls| && calls[i].entry == e :: calls[i].parent == dir <==> e.Parent() == PathOf(dir)
    ensures multiset(Under(calls, dir, toFolders))[e] ==
            if e.Parent() == PathOf(dir) && Goes(e, toFolders) then multiset(EntriesOf(calls))[e] else 0
    decreases |calls|
  {
    hide Entry.Parent, Goes, PathOf, EntriesOf;
    if calls == [] {
      NoEntries();
    } else {
      var front, last := calls[..|calls| - 1], calls[|calls| - 1];
      UnderCount(front, dir, toFolders, e);
      EntriesSnoc(front, last);
      assert calls == front + [last];
    }
  }

  lemma EntriesSnoc(calls: seq<Call>, c: Call)
    ensures EntriesOf(calls + [c]) == EntriesOf(calls) + [c.entry]
  {
  }

  /** The folder of every directory the walk reaches has as files exactly the archive's files of
      a kept kind directly in it, and as sub-folders exactly its directories directly in it. */
  lemma FolderHolds(es: seq<Entry>, dir: Root, toFolders: bool, e: Entry)
    requires SingleDirs(es) && Visited(dir, es)
    ensures multiset(Under(Walk([None], es).calls, dir, toFolders))[e] ==
            if e.Parent() == PathOf(dir) && Goes(e, toFolders) then multiset(es)[e] else 0
  {
    hide Walk, Goes, Entry.IsDirectory, Entry.Path, Entry.Parent, EntriesOf, Under;
    var calls := Walk([None], es).calls;
    WalkAnnounces([None], es);
    forall i | 0 <= i < |calls| && calls[i].entry == e
      ensures calls[i].parent == dir <==> e.Parent() == PathOf(dir)
    {
      assert Announced(calls, i, [None]);
      SameDir(es, calls, i, dir);
    }
    UnderCount(calls, dir, toFolders, e);
    VisitHandles(es, e);
    if e.Parent() == PathOf(dir) && e in es {
      InVisited(e, dir, es);
    }
  }

  lemma InVisited(e: Entry, dir: Root, es: seq<Entry>)
    requires Visited(dir, es) && e.Parent() == PathOf(dir)
    ensures Reachable(e.Path(), DirPaths(es))
  {
    hide Normalize, ParentOf;
  }

  lemma SameDir(es: seq<Entry>, calls: seq<Call>, i: nat, dir: Root)
    requires calls == Walk([None], es).calls && i < |calls| && Announced(calls, i, [None])
    requires SingleDirs(es) && Visited(dir, es)
    ensures calls[i].parent == dir <==> calls[i].entry.Parent() == PathOf(dir)
  {
    hide Walk, Entry.IsDirectory, Entry.Path, Entry.Parent, Reachable;
    ParentHandled(calls, i);
    HandledEarlier(calls, i, calls[i].parent);
    HandledIffVisited(es, calls[i].parent);
  }

  lemma HandledEarlier(calls: seq<Call>, i: nat, dir: Root)
    requires i < |calls| && Handled(calls[..i], dir)
    ensures Handled(calls, dir)
  {
    hide Entry.IsDirectory;
    if dir != None {
      var j :| 0 <= j < i && calls[..i][j].entry.IsDirectory() && dir == Some(calls[..i][j].entry);
      assert calls[j] == calls[..i][j];
    }
  }

  /** The scan by names finds the files of that folder, but for the ignore files. */
  lemma ScanFindsFolder(es: seq<Entry>, dir: Root, e: Entry)
    requires forall f | f in es :: Regular(f.name)
    requires SingleDirs(es) && Visited(dir, es)
    ensures multiset(ScannedIn(Prefix(dir), es))[e] ==
            if Wanted(BaseName(e.Path())) then multiset(Under(Walk([None], es).calls, dir, false))[e] else 0
  {
    hide Walk, Scanned, Regular, ScannedIn, Under, Prefix, BaseName, Wanted, Entry.Path, Entry.IsDirectory, Entry.Parent;
    FolderHolds(es, dir, false, e);
    ScanCount(Prefix(dir), es, e);
    if e in es {
      VisitedRegular(dir, es);
      ScannedIffLies(e, dir);
    }
  }

  lemma VisitedRegular(dir: Root, es: seq<Entry>)
    requires Visited(dir, es) && forall f | f in es :: Regular(f.name)
    ensures dir.Some? ==> Regular(dir.value.name)
  {
  }
}
