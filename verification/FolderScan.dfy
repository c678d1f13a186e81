/** Collecting the files of one directory of an archive by their names alone. */
module FolderScan {
  import opened Outcomes
  import opened Paths
  import opened ZipWalk

  const INIT_FILE: string := "init.properties"
  const SCRIPT_EXT: string := ".sim"

  predicate EndsWith(s: string, t: string) {
    |s| >= |t| && s[|s| - |t|..] == t
  }

  predicate HasSlash(s: string) {
    '/' in s
  }

  /** The test the scan applies to a name, for a directory prefix. */
  predicate Scanned(path: string, name: string) {
    || name == path + INIT_FILE
    || (path <= name && EndsWith(name, SCRIPT_EXT) && !HasSlash(name[|path|..]))
  }

  function ScannedIn(path: string, es: seq<Entry>): seq<Entry> {
    if es == [] then []
    else (if Scanned(path, es[0].name) then [es[0]] else []) + ScannedIn(path, es[1..])
  }

  lemma {:induction false} ScannedSnoc(path: string, es: seq<Entry>, e: Entry)
    ensures ScannedIn(path, es + [e]) == ScannedIn(path, es) + if Scanned(path, e.name) then [e] else []
  {
    hide Scanned;
    if es == [] {
      assert [] + [e] == [e] && [e][1..] == [];
    } else {
      ScannedSnoc(path, es[1..], e);
      assert (es + [e])[1..] == es[1..] + [e];
    }
  }

  method PrepareFiles(path: string, entries: seq<Entry>) returns (files: seq<Entry>)
    ensures files == ScannedIn(path, entries)
  {
    files := [];
    var i := 0;
    while i < |entries|
      invariant 0 <= i <= |entries|
      invariant ScannedIn(path, entries[..i]) == files
    {
      ScannedSnoc(path, entries[..i], entries[i]);
      assert entries[..i + 1] == entries[..i] + [entries[i]];
      var name := entries[i].name;
      if name == path + INIT_FILE
        || (path <= name && EndsWith(name, SCRIPT_EXT) && !HasSlash(name[|path|..])) {
        files := files + [entries[i]];
      }
      i := i + 1;
    }
    assert entries[..i] == entries;
  }

  // ---------- the same files, as the tree walk attributes them ----------

  function BaseName(path: string): string {
    path[LastSlash(path) + 1..]
  }

  predicate Wanted(base: string) {
    base == INIT_FILE || EndsWith(base, SCRIPT_EXT)
  }

  /** The entry is a wanted file directly in the directory. */
  predicate Lies(e: Entry, dir: Root) {
    !e.IsDirectory() && e.Parent() == PathOf(dir) && Wanted(BaseName(e.Path()))
  }

  /** The handler was given a wanted file while the directory was its parent. */
  predicate GivenUnder(c: Call, dir: Root) {
    PathOf(c.parent) == PathOf(dir) && !c.entry.IsDirectory() && Wanted(BaseName(c.entry.Path()))
  }

  function AttributedTo(dir: Root, calls: seq<Call>): seq<Entry> {
    if calls == [] then []
    else (if GivenUnder(calls[0], dir) then [calls[0].entry] else []) + AttributedTo(dir, calls[1..])
  }

  /** A relative name without empty components; a directory has one slash at its end. */
  predicate Regular(name: string) {
    name != "" && name[0] != '/' && SingleSlashes(name)
  }

  function Prefix(dir: Root): string {
    match dir
    case None => ""
    case Some(entry) => entry.Path() + "/"
  }

  lemma RegularPath(e: Entry)
    requires Regular(e.name)
    ensures e.name == if e.IsDirectory() then e.Path() + "/" else e.Path()
    ensures e.Path() != "" && e.Path()[0] != '/' && e.Path()[|e.Path()| - 1] != '/'
  {
    PathOfName(e.name);
  }

  /** A relative path is its directory's prefix and its base name. */
  lemma PathParts(p: string)
    requires p != "" && p[0] != '/'
    ensures match ParentOf(p)
            case None => p == BaseName(p)
            case Some(q) => p == q + "/" + BaseName(p)
    ensures !HasSlash(BaseName(p))
  {
    hide LastSlash;
    var i := LastSlash(p);
    if i >= 0 {
      assert [p[i]] == "/";
      assert p == p[..i] + [p[i]] + p[i + 1..];
    }
  }

  lemma PartsOfPath(p: string, q: string, base: string)
    requires q != "" && q[0] != '/' && !HasSlash(base) && p == q + "/" + base
    ensures ParentOf(p) == Some(q) && BaseName(p) == base
  {
    LastSlashIs(p, |q|);
    assert p[..|q|] == q && p[|q| + 1..] == base;
  }

  lemma TopPath(p: string)
    requires p != "" && !HasSlash(p)
    ensures ParentOf(p) == None && BaseName(p) == p
  {
    LastSlashIs(p, -1);
  }

  lemma SimSuffix(prefix: string, base: string)
    requires !HasSlash(base) && (prefix == "" || prefix[|prefix| - 1] == '/')
    ensures EndsWith(prefix + base, SCRIPT_EXT) <==> EndsWith(base, SCRIPT_EXT)
  {
    var name, n := prefix + base, |SCRIPT_EXT|;
    if |base| >= n {
      assert name[|name| - n..] == base[|base| - n..];
    } else if |name| >= n && prefix != "" {
      assert name[|name| - n..][n - |base| - 1] == '/';
    }
  }

  lemma FileName(prefix: string, base: string)
    requires !HasSlash(base) && (prefix == "" || prefix[|prefix| - 1] == '/') && Scanned(prefix, prefix + base)
    ensures Wanted(base) && base != ""
  {
    SimSuffix(prefix, base);
    assert (prefix + base)[|prefix|..] == base;
    if prefix + base == prefix + INIT_FILE {
      assert (prefix + INIT_FILE)[|prefix|..] == INIT_FILE;
    }
  }

  lemma ScannedThenLies(e: Entry, dir: Root)
    requires Regular(e.name) && (dir.Some? ==> Regular(dir.value.name))
    requires Scanned(Prefix(dir), e.name)
    ensures Lies(e, dir)
  {
    hide Normalize, LastSlash, ParentOf, BaseName, Wanted, EndsWith;
    var prefix := Prefix(dir);
    var base := e.name[|prefix|..];
    InitHasNoSlash();
    assert e.name == prefix + base;
    assert e.name == prefix + INIT_FILE ==> base == INIT_FILE;
    FileName(prefix, base);
    RegularPath(e);
    assert e.name[|e.name| - 1] == base[|base| - 1] && base[|base| - 1] in base;
    if dir.Some? {
      RegularPath(dir.value);
      PartsOfPath(e.Path(), dir.value.Path(), base);
    } else {
      assert prefix + base == base;
      TopPath(e.Path());
    }
  }

  lemma InitHasNoSlash()
    ensures !HasSlash(INIT_FILE)
  {
  }

  lemma LiesThenScanned(e: Entry, dir: Root)
    requires Regular(e.name) && Lies(e, dir)
    ensures Scanned(Prefix(dir), e.name)
  {
    hide Normalize, LastSlash, ParentOf, BaseName;
    var prefix, base := Prefix(dir), BaseName(e.Path());
    RegularPath(e);
    PathParts(e.Path());
    assert e.name == prefix + base;
    SimSuffix(prefix, base);
    assert e.name[|prefix|..] == base;
  }

  /** For regular names, the name test of the scan is the test of the tree walk. */
  lemma ScannedIffLies(e: Entry, dir: Root)
    requires Regular(e.name) && (dir.Some? ==> Regular(dir.value.name))
    ensures Scanned(Prefix(dir), e.name) <==> Lies(e, dir)
  {
    hide Scanned, Lies;
    if Scanned(Prefix(dir), e.name) {
      ScannedThenLies(e, dir);
    }
    if Lies(e, dir) {
      LiesThenScanned(e, dir);
    }
  }

  /** The prefix of a directory is built from that of its parent and its base name,
      as the recursion over sub-scripts builds it. */
  lemma PrefixOfChild(dir: Entry, parent: Root)
    requires Regular(dir.name) && dir.Parent() == PathOf(parent)
    ensures Prefix(Some(dir)) == Prefix(parent) + BaseName(dir.Path()) + "/"
  {
    hide Normalize, LastSlash, ParentOf, BaseName;
    RegularPath(dir);
    PathParts(dir.Path());
  }

  // ---------- counting ----------

  lemma {:induction false} ScanCount(path: string, es: seq<Entry>, e: Entry)
    ensures multiset(ScannedIn(path, es))[e] == if Scanned(path, e.name) then multiset(es)[e] else 0
  {
    hide Scanned;
    if es != [] {
      ScanCount(path, es[1..], e);
      assert es == [es[0]] + es[1..];
      FrontCount(es[0], es[1..], e);
      FrontCount(es[0], ScannedIn(path, es[1..]), e);
      assert [] + ScannedIn(path, es[1..]) == ScannedIn(path, es[1..]);
    }
  }

  lemma FirstEntry(calls: seq<Call>)
    requires calls != []
    ensures EntriesOf(calls) == [calls[0].entry] + EntriesOf(calls[1..])
  {
  }

  lemma GivenIffLies(c: Call, dir: Root)
    requires c.entry.Parent() == PathOf(c.parent)
    ensures GivenUnder(c, dir) <==> Lies(c.entry, dir)
  {
  }

  lemma {:induction false} AttributedCount(dir: Root, calls: seq<Call>, e: Entry)
    requires forall i | 0 <= i < |calls| :: calls[i].entry.Parent() == PathOf(calls[i].parent)
    ensures multiset(AttributedTo(dir, calls))[e] == if Lies(e, dir) then multiset(EntriesOf(calls))[e] else 0
  {
    hide GivenUnder, Lies, EntriesOf, PathOf, Entry.Parent;
    if calls == [] {
      NoEntries();
    } else {
      AttributedCount(dir, calls[1..], e);
      FirstEntry(calls);
      GivenIffLies(calls[0], dir);
      FrontCount(calls[0].entry, EntriesOf(calls[1..]), e);
      FrontCount(calls[0].entry, AttributedTo(dir, calls[1..]), e);
      assert [] + AttributedTo(dir, calls[1..]) == AttributedTo(dir, calls[1..]);
    }
  }

  /** The archive itself, or a directory of it that the walk reaches. */
  ghost predicate Visited(dir: Root, es: seq<Entry>) {
    dir.Some? ==> dir.value in es && dir.value.IsDirectory() && Reachable(dir.value.Path(), DirPaths(es))
  }

  /** For every directory the walk reaches, the scan of names collects exactly the
      files that the walk hands over under that directory. */
  lemma ScanAgreesWithWalk(es: seq<Entry>, dir: Root)
    requires forall e | e in es :: Regular(e.name)
    requires Visited(dir, es)
    ensures multiset(ScannedIn(Prefix(dir), es)) == multiset(AttributedTo(dir, Walk([None], es).calls))
  {
    hide Walk, Scanned, Lies, Regular, ScannedIn, AttributedTo, EntriesOf, Prefix, Entry.Path;
    var calls := Walk([None], es).calls;
    WalkAnnounces([None], es);
    forall i | 0 <= i < |calls|
      ensures calls[i].entry.Parent() == PathOf(calls[i].parent)
    {
      assert Announced(calls, i, [None]);
    }
    forall e
      ensures multiset(ScannedIn(Prefix(dir), es))[e] == multiset(AttributedTo(dir, calls))[e]
    {
      ScanCount(Prefix(dir), es, e);
      AttributedCount(dir, calls, e);
      VisitHandles(es, e);
      if e in es {
        ScannedIffLies(e, dir);
        if Lies(e, dir) {
          LiesReachable(e, dir, es);
        }
      }
    }
  }

  lemma LiesReachable(e: Entry, dir: Root, es: seq<Entry>)
    requires Lies(e, dir)
    requires dir.Some? ==> dir.value in es && dir.value.IsDirectory() && Reachable(dir.value.Path(), DirPaths(es))
    ensures Reachable(e.Path(), DirPaths(es))
  {
    hide Wanted, BaseName, Normalize, ParentOf;
  }

  // ---------- the folders of all sub-scripts ----------

  /** A script by its sub-scripts, in the order of their map. */
  datatype Script = Script(subScripts: seq<SubScript>)

  /** A sub-script with the name it is registered under and the directory it was made from. */
  datatype SubScript = SubScript(name: string, entry: Entry, script: Script)

  datatype Folder = Folder(files: seq<Entry>, subFolders: seq<(string, Folder)>)

  function FolderOf(script: Script, entries: seq<Entry>, path: string): Folder
    decreases script, 0
  {
    Folder(ScannedIn(path, entries), FoldersOf(script.subScripts, entries, path))
  }

  function FoldersOf(subs: seq<SubScript>, entries: seq<Entry>, path: string): (folders: seq<(string, Folder)>)
    ensures |folders| == |subs|
    decreases subs, 1
  {
    if subs == [] then []
    else
      var last := subs[|subs| - 1];
      FoldersOf(subs[..|subs| - 1], entries, path) + [(last.name, FolderOf(last.script, entries, path + last.name + "/"))]
  }

  method PrepareSimulatorFolder(script: Script, entries: seq<Entry>, path: string) returns (folder: Folder)
    ensures folder == FolderOf(script, entries, path)
    decreases script
  {
    var files := PrepareFiles(path, entries);
    var subFolders: seq<(string, Folder)> := [];
    for i := 0 to |script.subScripts|
      invariant subFolders == FoldersOf(script.subScripts[..i], entries, path)
    {
      var sub := script.subScripts[i];
      assert sub in script.subScripts;
      assert script.subScripts[..i + 1][..i] == script.subScripts[..i];
      var subFolder := PrepareSimulatorFolder(sub.script, entries, path + sub.name + "/");
      subFolders := subFolders + [(sub.name, subFolder)];
    }
    assert script.subScripts[..|script.subScripts|] == script.subScripts;
    folder := Folder(files, subFolders);
  }

  /** Every sub-script comes from a directory of the archive, directly in that of its parent. */
  ghost predicate Mirrors(script: Script, dir: Root, es: seq<Entry>)
    decreases script
  {
    forall sub | sub in script.subScripts ::
      && sub.entry in es && sub.entry.IsDirectory() && sub.entry.Parent() == PathOf(dir)
      && sub.name == BaseName(sub.entry.Path())
      && Mirrors(sub.script, Some(sub.entry), es)
  }

  /** The folder holds what the walk hands over under the script's directory, and its
      sub-folders likewise, at every depth. */
  ghost predicate AgreesWithWalk(folder: Folder, script: Script, dir: Root, calls: seq<Call>)
    decreases script
  {
    && multiset(folder.files) == multiset(AttributedTo(dir, calls))
    && |folder.subFolders| == |script.subScripts|
    && forall i | 0 <= i < |script.subScripts| ::
         var sub := script.subScripts[i];
         folder.subFolders[i].0 == sub.name && AgreesWithWalk(folder.subFolders[i].1, sub.script, Some(sub.entry), calls)
  }

  lemma ChildVisited(child: Entry, dir: Root, es: seq<Entry>)
    requires Visited(dir, es) && child in es && child.IsDirectory() && child.Parent() == PathOf(dir)
    ensures Visited(Some(child), es)
  {
    hide Normalize, ParentOf;
  }

  lemma FoldersAt(subs: seq<SubScript>, entries: seq<Entry>, path: string, i: nat)
    requires i < |subs|
    ensures FoldersOf(subs, entries, path)[i] == (subs[i].name, FolderOf(subs[i].script, entries, path + subs[i].name + "/"))
    decreases |subs|
  {
    hide FolderOf;
    if i < |subs| - 1 {
      FoldersAt(subs[..|subs| - 1], entries, path, i);
    }
  }

  /** The recursion over sub-scripts by name prefixes collects, for every script whose
      sub-scripts come from the archive's directories, the files of the tree walk. */
  lemma {:induction false} FoldersAgreeWithWalk(script: Script, dir: Root, es: seq<Entry>)
    requires forall e | e in es :: Regular(e.name)
    requires Visited(dir, es) && Mirrors(script, dir, es)
    ensures AgreesWithWalk(FolderOf(script, es, Prefix(dir)), script, dir, Walk([None], es).calls)
    decreases script
  {
    hide Walk, Scanned, Regular, ScannedIn, AttributedTo, Prefix, Entry.Path, Entry.Parent, Visited, BaseName;
    ScanAgreesWithWalk(es, dir);
    var calls, folder := Walk([None], es).calls, FolderOf(script, es, Prefix(dir));
    forall i | 0 <= i < |script.subScripts|
      ensures folder.subFolders[i].0 == script.subScripts[i].name
      ensures AgreesWithWalk(folder.subFolders[i].1, script.subScripts[i].script, Some(script.subScripts[i].entry), calls)
    {
      var sub := script.subScripts[i];
      assert sub in script.subScripts;
      FoldersAt(script.subScripts, es, Prefix(dir), i);
      PrefixOfChild(sub.entry, dir);
      ChildVisited(sub.entry, dir, es);
      FoldersAgreeWithWalk(sub.script, Some(sub.entry), es);
    }
  }
}
