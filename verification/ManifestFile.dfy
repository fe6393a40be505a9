/** Manifests as files: which paths they track, how they are generated and loaded. */
module ManifestFile {
  import opened Options
  import opened Paths
  import opened FileSystem
  import opened InstallFiles
  import opened TreeWalk
  import opened ManifestText

  const MANIFEST_MAX_BYTES: nat := 32768

  // ----- which paths are tracked

  predicate StateFile(p: string) {
    || p == "/system/databases/install_manifest.db"
    || p == "/system/databases/install_manifest.new"
    || p == "/system/databases/install_manifest.prev"
    || p == "/system/databases/update_state.db"
    || p == "/system/databases/users.db"
  }

  predicate LegacyBoot(p: string) {
    p == "/kernel.elf" || p == "/limine.conf" || p == "/limine-bios.sys" || Under(p, "/limine")
  }

  /** The directories that the manifest scan does not enter. */
  predicate Untracked(p: string) {
    || Under(p, "/system/databases/pkg") || Under(p, "/home") || Under(p, "/temp")
    || Under(p, "/dev") || Under(p, "/proc")
  }

  /** install_manifest_path_included. */
  predicate ManifestIncluded(p: string) {
    && p != "" && p[0] == '/' && !StateFile(p) && !LegacyBoot(p) && !Untracked(p)
    && (Under(p, "/EFI") || Under(p, "/boot") || Under(p, "/system") || Under(p, "/shell") ||
        Under(p, "/system/drivers") || Under(p, "/efi"))
  }

  /** install_update_shell_path_included. */
  predicate UpdateIncluded(p: string) {
    && p != "" && p[0] == '/' && p != "/shell/apps/install2disk.elf" && ManifestIncluded(p)
    && (Under(p, "/shell") || Under(p, "/system/drivers") || Under(p, "/system"))
  }

  // ----- one entry

  class Writer {
    var files: nat
    var fileBytes: nat
    var manifestBytes: nat

    constructor ()
      ensures files == 0 && fileBytes == 0 && manifestBytes == 0
    {
      files, fileBytes, manifestBytes := 0, 0, 0;
    }
  }

  /** The entry that describes a file as it is. */
  function TrueEntry(t: Tree, actual: string, logical: string): Entry
    requires IsFile(t, actual)
  {
    Entry(logical, |t[actual].content|, FileHash(t[actual].content))
  }

  /** t with text appended to a file. */
  function Appended(t: Tree, file: string, text: string): Tree
    requires IsFile(t, file)
  {
    t[file := Regular(t[file].content + text)]
  }

  /** install_manifest_append_entry. */
  method AppendEntry(fs: FileSystem, manifest: string, actual: string, logical: string, writer: Writer)
    returns (ok: bool)
    requires fs.Valid()
    modifies fs, writer
    ensures fs.Valid() && fs.tree - {Real(manifest)} == old(fs.tree) - {Real(manifest)}
    ensures !ok ==> fs.tree == old(fs.tree)
    ensures ok ==> IsFile(old(fs.tree), Real(actual)) && IsFile(old(fs.tree), Real(manifest))
    ensures ok ==>
      var e := TrueEntry(old(fs.tree), Real(actual), logical);
      && fs.tree == Appended(old(fs.tree), Real(manifest), Line(e))
      && writer.files == old(writer.files) + 1 && writer.fileBytes == old(writer.fileBytes) + e.size
      && writer.manifestBytes == old(writer.manifestBytes) + |Line(e)| <= MANIFEST_MAX_BYTES
    ensures fs.healthy && IsFile(old(fs.tree), Real(actual)) && IsFile(old(fs.tree), Real(manifest)) ==>
      var line := Line(TrueEntry(old(fs.tree), Real(actual), logical));
      (|line| < LINE_MAX && old(writer.manifestBytes) + |line| <= MANIFEST_MAX_BYTES
       && |old(fs.tree)[Real(manifest)].content| + |line| < SIZE_LIMIT) ==> ok
  {
    hide FileHash, FileSystem.Valid, Decimal, Real;
    var size := fs.StatSize(actual);
    if size.None? {
      return false;
    }
    var hash := HashFile(fs, actual);
    if hash.None? {
      return false;
    }
    var line := Line(Entry(logical, size.value, hash.value));
    if |line| >= LINE_MAX || writer.manifestBytes + |line| > MANIFEST_MAX_BYTES {
      return false;
    }
    var wrote := fs.Append(manifest, line);
    if wrote != |line| {
      return false;
    }
    writer.files := writer.files + 1;
    writer.fileBytes := writer.fileBytes + size.value;
    writer.manifestBytes := writer.manifestBytes + |line|;
    ok := true;
  }

  // ----- generating a manifest of the running system

  ghost predicate Distinct(es: seq<Entry>) {
    forall i, j :: 0 <= i < j < |es| ==> es[i].path != es[j].path
  }

  ghost function PathSet(es: seq<Entry>): set<string> {
    set e | e in es :: e.path
  }

  /** es describes each file of s once, as it is in t. */
  ghost predicate Lists(t: Tree, es: seq<Entry>, s: set<string>) {
    && Distinct(es) && PathSet(es) == s
    && forall e :: e in es ==> IsFile(t, e.path) && e == TrueEntry(t, e.path, e.path) && |e.path| < PATH_MAX
  }

  /** es describes some of the files of s, each once. */
  ghost predicate ListsSome(t: Tree, es: seq<Entry>, s: set<string>) {
    PathSet(es) <= s && Lists(t, es, PathSet(es))
  }

  lemma {:induction false} PrintAppend(a: seq<Entry>, b: seq<Entry>)
    ensures Print(a + b) == Print(a) + Print(b)
  {
    hide Line, Print;
    if b == [] {
      assert a + b == a;
      PrintNone();
    } else {
      var n := |b| - 1;
      PrintAppend(a, b[..n]);
      PrintNext(a + b[..n], b[n]);
      PrintNext(b[..n], b[n]);
      assert a + b == a + b[..n] + [b[n]] && b == b[..n] + [b[n]];
    }
  }

  lemma PrintNone()
    ensures Print([]) == ""
  {
  }

  lemma PrintNext(es: seq<Entry>, e: Entry)
    ensures Print(es + [e]) == Print(es) + Line(e)
  {
    hide Line;
    assert (es + [e])[..|es|] == es;
  }

  lemma ListsOne(t: Tree, p: string)
    requires IsFile(t, p) && |p| < PATH_MAX
    ensures Lists(t, [TrueEntry(t, p, p)], {p})
    ensures Print([TrueEntry(t, p, p)]) == Line(TrueEntry(t, p, p))
  {
    hide FileHash, Line;
    var e := TrueEntry(t, p, p);
    assert [e][..0] == [];
    assert Print([e]) == Print([]) + Line(e);
    assert e in [e];
  }

  lemma ListsBoth(t: Tree, a: seq<Entry>, b: seq<Entry>, s: set<string>, u: set<string>)
    requires Lists(t, a, s) && Lists(t, b, u) && s !! u
    ensures Lists(t, a + b, s + u)
  {
    hide TrueEntry;
    forall e | e in a || e in b
      ensures e in a + b
    {
    }
    forall i, j | 0 <= i < |a| && 0 <= j < |b|
      ensures a[i].path != b[j].path
    {
      assert a[i].path in s && b[j].path in u;
    }
    assert forall e :: e in a + b <==> e in a || e in b;
    assert PathSet(a + b) == PathSet(a) + PathSet(b);
  }

  /** The same list in a tree that differs only in a file that is not listed. */
  lemma ListsElsewhere(t0: Tree, t1: Tree, m: string, es: seq<Entry>, s: set<string>)
    requires t0 - {m} == t1 - {m} && m !in s && Lists(t1, es, s)
    ensures Lists(t0, es, s)
  {
    hide FileHash;
    forall e | e in es
      ensures IsFile(t0, e.path) && e == TrueEntry(t0, e.path, e.path)
    {
      assert e.path in s;
      assert e.path in t1 - {m} && (t1 - {m})[e.path] == t1[e.path];
    }
  }

  lemma FilesElsewhere(t0: Tree, t1: Tree, m: string, src: string)
    requires t0 - {m} == t1 - {m} && !UpdateIncluded(m)
    ensures FilesBelow(t0, src, UpdateIncluded) == FilesBelow(t1, src, UpdateIncluded)
    ensures m !in FilesBelow(t0, src, UpdateIncluded)
  {
    hide Below, UpdateIncluded;
    forall p | p != m
      ensures p in t0 <==> p in t1
      ensures p in t0 ==> t0[p] == t1[p]
    {
      assert p in t0 <==> p in t0 - {m};
      assert p in t1 <==> p in t1 - {m};
    }
  }

  /** Replacing one regular file by another leaves every listing as it is. */
  lemma SameChildren(t0: Tree, t1: Tree, m: string, dir: string)
    requires t0 - {m} == t1 - {m} && m in t0 && m in t1
    ensures ChildNames(t0, dir) == ChildNames(t1, dir)
  {
    hide Base, Parent;
    forall p
      ensures p in t0 <==> p in t1
    {
      if p != m {
        assert p in t0 <==> p in t0 - {m};
        assert p in t1 <==> p in t1 - {m};
      }
    }
  }

  lemma UntrackedFiles(t: Tree, src: string)
    requires Untracked(src)
    ensures FilesBelow(t, src, UpdateIncluded) == {}
  {
    forall p | Below(p, src)
      ensures !UpdateIncluded(p)
    {
      if Under(src, "/system/databases/pkg") {
        BelowTrans(p, src, "/system/databases/pkg");
      } else if Under(src, "/home") {
        BelowTrans(p, src, "/home");
      } else if Under(src, "/temp") {
        BelowTrans(p, src, "/temp");
      } else if Under(src, "/dev") {
        BelowTrans(p, src, "/dev");
      } else {
        BelowTrans(p, src, "/proc");
      }
    }
  }

  lemma AppendedTwice(t0: Tree, m: string, a: string, b: string)
    requires IsFile(t0, m)
    ensures Appended(Appended(t0, m, a), m, b) == Appended(t0, m, a + b)
    ensures Appended(t0, m, a) - {m} == t0 - {m}
  {
    assert t0[m].content + a + b == t0[m].content + (a + b);
  }

  /** One more child: what its scan adds to the list. */
  lemma SomeElsewhere(t0: Tree, t1: Tree, m: string, es: seq<Entry>, s: set<string>)
    requires t0 - {m} == t1 - {m} && m !in s && ListsSome(t1, es, s)
    ensures ListsSome(t0, es, s)
  {
    hide Lists, PathSet;
    ListsElsewhere(t0, t1, m, es, PathSet(es));
  }

  lemma SomeOfBoth(t: Tree, a: seq<Entry>, b: seq<Entry>, s: set<string>, u: set<string>)
    requires ListsSome(t, a, s) && ListsSome(t, b, u) && s !! u
    ensures ListsSome(t, a + b, s + u) && PathSet(a + b) == PathSet(a) + PathSet(b)
  {
    ListsBoth(t, a, b, PathSet(a), PathSet(b));
    ListedPaths(t, a + b, PathSet(a) + PathSet(b));
  }

  lemma ListedPaths(t: Tree, es: seq<Entry>, s: set<string>)
    ensures Lists(t, es, s) ==> PathSet(es) == s
  {
    hide Distinct, TrueEntry;
  }

  lemma ListNext(t0: Tree, src: string, names: seq<string>, i: nat, m: string, es: seq<Entry>, more: seq<Entry>)
    requires WellFormed(t0) && DirPath(src) && i < |names| && IsFile(t0, m) && !UpdateIncluded(m)
    requires forall n :: n in names ==> ValidName(n)
    requires forall j, k :: 0 <= j < k < |names| ==> names[j] != names[k]
    requires ListsSome(t0, es, Covered(t0, src, names, i, UpdateIncluded))
    requires
      var t1 := Appended(t0, m, Print(es));
      ListsSome(t1, more, FilesBelow(t1, Join(src, names[i]), UpdateIncluded))
    ensures ListsSome(t0, es + more, Covered(t0, src, names, i + 1, UpdateIncluded))
    ensures
      var t1 := Appended(t0, m, Print(es));
      && (PathSet(es) == Covered(t0, src, names, i, UpdateIncluded)
          && PathSet(more) == FilesBelow(t1, Join(src, names[i]), UpdateIncluded) ==>
          PathSet(es + more) == Covered(t0, src, names, i + 1, UpdateIncluded))
      && Appended(t1, m, Print(more)) == Appended(t0, m, Print(es + more))
      && |Print(es + more)| == |Print(es)| + |Print(more)|
  {
    hide *;
    var t1 := Appended(t0, m, Print(es));
    var child := Join(src, names[i]);
    AppendedTwice(t0, m, Print(es), Print(more));
    PrintAppend(es, more);
    FilesElsewhere(t0, t1, m, child);
    SomeElsewhere(t0, t1, m, more, FilesBelow(t1, child, UpdateIncluded));
    CoverNext(t0, src, names, i, UpdateIncluded);
    SomeOfBoth(t0, es, more, Covered(t0, src, names, i, UpdateIncluded), FilesBelow(t0, child, UpdateIncluded));
  }

  // ----- what a scan can finish

  function LineSizes(t: Tree): string -> nat {
    p => if IsFile(t, p) then |Line(TrueEntry(t, p, p))| else 0
  }

  /** The size of a manifest that lists these files. */
  ghost function Weight(t: Tree, s: set<string>): nat { Sum(LineSizes(t), s) }

  lemma {:induction false} PrintWeight(t: Tree, es: seq<Entry>)
    requires Lists(t, es, PathSet(es))
    ensures |Print(es)| == Weight(t, PathSet(es)) && |es| == |PathSet(es)|
  {
    hide Print, Line, TrueEntry, Lists, PathSet;
    if es == [] {
      PrintNone();
      NoPaths();
    } else {
      var n := |es| - 1;
      var s, p := PathSet(es[..n]), es[n].path;
      FrontListed(t, es);
      PrintWeight(t, es[..n]);
      PrintNext(es[..n], es[n]);
      assert es == es[..n] + [es[n]];
      SumRemove(LineSizes(t), s + {p}, p);
      assert s + {p} - {p} == s;
    }
  }

  lemma NoPaths()
    ensures PathSet([]) == {}
  {
  }

  lemma FrontListed(t: Tree, es: seq<Entry>)
    requires es != [] && Lists(t, es, PathSet(es))
    ensures
      var n := |es| - 1;
      var front := es[..n];
      && Lists(t, front, PathSet(front)) && PathSet(es) == PathSet(front) + {es[n].path}
      && es[n].path !in PathSet(front) && IsFile(t, es[n].path) && es[n] == TrueEntry(t, es[n].path, es[n].path)
  {
    hide TrueEntry;
    var n := |es| - 1;
    var front := es[..n];
    assert es[n] in es && forall e :: e in es <==> e in front || e == es[n];
  }

  /** What is visited below src fits the path buffer and is not too deep. */
  ghost predicate ScanFits(t: Tree, src: string) {
    forall p :: p in t && Below(p, src) && !Untracked(Parent(p)) ==> |p| < PATH_MAX && Level(p) <= DEPTH_MAX
  }

  /** The scan has come to src on its way from the root, with this much of the manifest written. */
  ghost predicate ScanAt(t: Tree, src: string, depth: nat, manifest: string, bytes: nat) {
    && src in t && depth == Level(src) && !Untracked(Parent(src))
    && IsFile(t, manifest) && |t[manifest].content| == bytes <= MANIFEST_MAX_BYTES
  }

  /** What is below src can be scanned and its lines fit the rest of the manifest. */
  ghost predicate CanScan(t: Tree, src: string, bytes: nat) {
    ScanFits(t, src) && bytes + Weight(t, FilesBelow(t, src, UpdateIncluded)) <= MANIFEST_MAX_BYTES
  }

  lemma ScanSelf(t: Tree, src: string)
    requires src in t && !Untracked(Parent(src)) && ScanFits(t, src)
    ensures |src| < PATH_MAX && Level(src) <= DEPTH_MAX
  {
    hide Level, Untracked, Parent;
    assert Below(src, src);
  }

  /** Where the scan goes no further only src itself has to fit. */
  lemma ScanStops(t: Tree, src: string)
    requires WellFormed(t) && DirPath(src) && (Untracked(src) || !IsDir(t, src))
    requires |src| < PATH_MAX && Level(src) <= DEPTH_MAX
    ensures ScanFits(t, src)
  {
    hide Level, WellFormed, Parent, DirPath, Untracked, Below;
    forall p | p in t && Below(p, src) && p != src
      ensures Untracked(Parent(p))
    {
      AncestorIsDir(t, p, src);
      UntrackedParent(p, src);
    }
  }

  lemma UntrackedParent(p: string, src: string)
    requires Untracked(src) && Below(p, src) && p != src && DirPath(src)
    ensures Untracked(Parent(p))
  {
    hide Parent;
    ParentBelow(p, src);
    if Under(src, "/system/databases/pkg") {
      BelowTrans(Parent(p), src, "/system/databases/pkg");
    } else if Under(src, "/home") {
      BelowTrans(Parent(p), src, "/home");
    } else if Under(src, "/temp") {
      BelowTrans(Parent(p), src, "/temp");
    } else if Under(src, "/dev") {
      BelowTrans(Parent(p), src, "/dev");
    } else {
      BelowTrans(Parent(p), src, "/proc");
    }
  }

  /** A directory can be scanned if and only if each of its children can. */
  lemma FitsChild(t: Tree, src: string, name: string)
    requires DirPath(src) && ValidName(name) && ScanFits(t, src)
    ensures ScanFits(t, Join(src, name))
  {
    hide Level, Untracked, Parent, Join, Below, DirPath, ValidName;
    JoinParts(src, name);
    forall p | Below(p, Join(src, name))
      ensures Below(p, src)
    {
      JoinNotRoot(src, name);
      BelowTrans(p, Join(src, name), src);
    }
  }

  lemma JoinNotRoot(src: string, name: string)
    requires DirPath(src) && ValidName(name)
    ensures Join(src, name) != "/"
  {
    JoinParts(src, name);
  }

  lemma FitsAll(t: Tree, src: string, names: seq<string>)
    requires WellFormed(t) && DirPath(src) && |src| < PATH_MAX && Level(src) <= DEPTH_MAX
    requires forall n :: n in ChildNames(t, src) ==> n in names
    requires forall k :: 0 <= k < |names| ==> ScanFits(t, Join(src, names[k]))
    ensures ScanFits(t, src)
  {
    hide Level, Untracked, Parent, Join, Below, DirPath, ValidName, ChildNames, WellFormed;
    forall p | p in t && Below(p, src) && p != src && !Untracked(Parent(p))
      ensures |p| < PATH_MAX && Level(p) <= DEPTH_MAX
    {
      var name := ChildTowards(t, p, src);
      var k :| 0 <= k < |names| && names[k] == name;
      assert ScanFits(t, Join(src, names[k]));
    }
  }

  lemma WeightElsewhere(t0: Tree, t1: Tree, m: string, s: set<string>)
    requires t0 - {m} == t1 - {m} && m !in s
    ensures Weight(t0, s) == Weight(t1, s)
  {
    hide Line;
    forall p | p in s
      ensures LineSizes(t0)(p) == LineSizes(t1)(p)
    {
      assert p in t0 <==> p in t0 - {m};
      assert p in t1 <==> p in t1 - {m};
      assert p in t0 ==> (t0 - {m})[p] == t0[p];
    }
    SumAgree(LineSizes(t0), LineSizes(t1), s);
  }

  lemma FitsElsewhere(t0: Tree, t1: Tree, m: string, src: string)
    requires t0 - {m} == t1 - {m} && m in t0 && m in t1
    ensures ScanFits(t0, src) <==> ScanFits(t1, src)
  {
    hide Level, Untracked, Parent, Below;
    forall p
      ensures p in t0 <==> p in t1
    {
      if p != m {
        assert p in t0 <==> p in t0 - {m};
        assert p in t1 <==> p in t1 - {m};
      }
    }
  }

  /**
   install_manifest_scan_tree_filtered over the running system with the update filter:
   appends one line for each tracked file below src, in the order of the walk.
   */
  method ScanManifest(fs: FileSystem, src: string, writer: Writer, depth: nat, manifest: string)
    returns (ok: bool, ghost es: seq<Entry>)
    requires fs.Valid() && Plain(src) && Plain(manifest) && |src| < PATH_MAX
    requires IsFile(fs.tree, manifest) && !UpdateIncluded(manifest)
    modifies fs, writer
    ensures fs.Valid() && fs.tree - {manifest} == old(fs.tree) - {manifest} && IsFile(fs.tree, manifest)
    ensures ok ==> ListsSome(old(fs.tree), es, FilesBelow(old(fs.tree), src, UpdateIncluded))
    ensures ok && fs.Sighted() ==> PathSet(es) == FilesBelow(old(fs.tree), src, UpdateIncluded)
    ensures ok ==> fs.tree == Appended(old(fs.tree), manifest, Print(es))
    ensures ok ==> writer.files == old(writer.files) + |es|
    ensures ok ==> writer.manifestBytes == old(writer.manifestBytes) + |Print(es)|
    ensures fs.healthy && ScanAt(old(fs.tree), src, depth, manifest, old(writer.manifestBytes)) ==>
      (ok <==> CanScan(old(fs.tree), src, old(writer.manifestBytes)))
    decreases if depth > DEPTH_MAX then 0 else DEPTH_MAX + 1 - depth, 1
  {
    hide Real, Untracked, UpdateIncluded, FilesBelow, ListsSome, Print, Line, FileSystem.Valid, WellFormed, TrueEntry;
    hide Below;
    hide PathSet, ScanAt, CanScan;
    es := [];
    SomeNothing(fs.tree, FilesBelow(fs.tree, src, UpdateIncluded));
    ValidTree(fs);
    ScanOutcome(fs.tree, src, depth, manifest, writer.manifestBytes);
    if depth > DEPTH_MAX {
      return false, es;
    }
    if Untracked(src) {
      UntrackedFiles(fs.tree, src);
      AppendedNothing(fs.tree, manifest);
      return true, es;
    }
    var kind := fs.StatType(src);
    if !IsDir(fs.tree, src) {
      LeafFiles(fs.tree, src, UpdateIncluded);
    }
    if kind == AFile && UpdateIncluded(src) {
      es := [TrueEntry(fs.tree, src, src)];
      SomeOne(fs.tree, src);
      ok := AppendEntry(fs, manifest, src, src, writer);
      return;
    }
    if kind != ADirectory {
      AppendedNothing(fs.tree, manifest);
      return true, es;
    }
    ok, es := ScanDirectory(fs, src, writer, depth, manifest);
  }

  lemma SomeNothing(t: Tree, s: set<string>)
    ensures ListsSome(t, [], s) && PathSet([]) == {} && Print([]) == ""
  {
  }

  lemma SomeOne(t: Tree, p: string)
    requires IsFile(t, p) && |p| < PATH_MAX
    ensures ListsSome(t, [TrueEntry(t, p, p)], {p}) && PathSet([TrueEntry(t, p, p)]) == {p}
    ensures Print([TrueEntry(t, p, p)]) == Line(TrueEntry(t, p, p))
  {
    ListsOne(t, p);
  }

  /** What a scan that goes no further than src comes to. */
  lemma ScanOutcome(t: Tree, src: string, depth: nat, manifest: string, bytes: nat)
    requires WellFormed(t) && DirPath(src) && |src| < PATH_MAX
    ensures ScanAt(t, src, depth, manifest, bytes) && depth > DEPTH_MAX ==> !CanScan(t, src, bytes)
    ensures ScanAt(t, src, depth, manifest, bytes) && depth <= DEPTH_MAX && Untracked(src) ==> CanScan(t, src, bytes)
    ensures ScanAt(t, src, depth, manifest, bytes) && depth <= DEPTH_MAX && !IsDir(t, src) ==>
      if UpdateIncluded(src) then
        IsFile(t, src) && (CanScan(t, src, bytes) <==> bytes + |Line(TrueEntry(t, src, src))| <= MANIFEST_MAX_BYTES)
        && |Line(TrueEntry(t, src, src))| < LINE_MAX && |t[manifest].content| == bytes && IsFile(t, manifest)
      else CanScan(t, src, bytes)
  {
    hide Level, WellFormed, DirPath, Untracked, UpdateIncluded, Line, Parent, FilesBelow, ScanFits;
    if ScanAt(t, src, depth, manifest, bytes) {
      if depth > DEPTH_MAX {
        if ScanFits(t, src) {
          ScanSelf(t, src);
        }
      } else if Untracked(src) {
        ScanStops(t, src);
        UntrackedFiles(t, src);
        NoWeight(t);
        if !IsDir(t, src) {
          LeafFiles(t, src, UpdateIncluded);
        }
      } else if !IsDir(t, src) {
        ScanStops(t, src);
        LeafFiles(t, src, UpdateIncluded);
        NoWeight(t);
        if UpdateIncluded(src) {
          OneWeight(t, src);
          FileLine(t, src);
        }
      }
    }
  }

  lemma NoWeight(t: Tree)
    ensures Weight(t, {}) == 0
  {
  }

  lemma OneWeight(t: Tree, p: string)
    requires IsFile(t, p)
    ensures Weight(t, {p}) == |Line(TrueEntry(t, p, p))|
  {
    hide Line;
    SumRemove(LineSizes(t), {p}, p);
    assert {p} - {p} == {};
  }

  lemma FileLine(t: Tree, p: string)
    requires WellFormed(t) && IsFile(t, p) && |p| < PATH_MAX && UpdateIncluded(p)
    ensures |Line(TrueEntry(t, p, p))| < LINE_MAX
  {
    hide Line, FileHash, ManifestIncluded;
    assert Fits(t[p]);
    LineLength(TrueEntry(t, p, p));
  }

  lemma AppendedNothing(t: Tree, m: string)
    requires IsFile(t, m)
    ensures Appended(t, m, "") == t
  {
    assert t[m].content + "" == t[m].content;
  }

  lemma WithinManifest(t: Tree, src: string, depth: nat, manifest: string, bytes: nat)
    ensures ScanAt(t, src, depth, manifest, bytes) ==> bytes <= MANIFEST_MAX_BYTES
  {
  }

  /** The scan on its way through a directory: its next child can be scanned if the directory can. */
  lemma ScanStep(t0: Tree, src: string, names: seq<string>, i: nat, depth: nat, m: string, b0: nat, text: string)
    requires WellFormed(t0) && DirPath(src) && !Untracked(src) && i < |names| && !UpdateIncluded(m)
    requires Enumerates(names, ChildNames(t0, src)) && ScanAt(t0, src, depth, m, b0)
    requires b0 + |text| == b0 + Weight(t0, Covered(t0, src, names, i, UpdateIncluded)) <= MANIFEST_MAX_BYTES
    ensures
      var t1, child := Appended(t0, m, text), Join(src, names[i]);
      && ScanAt(t1, child, depth + 1, m, b0 + |text|)
      && (|child| >= PATH_MAX ==> !CanScan(t0, src, b0))
      && (CanScan(t1, child, b0 + |text|) ==> ScanFits(t0, child))
      && (!CanScan(t1, child, b0 + |text|) ==> !CanScan(t0, src, b0))
  {
    hide Level, Untracked, Parent, Join, Below, DirPath, ValidName, ChildNames, WellFormed, FilesBelow, ScanFits;
    hide Weight, UpdateIncluded, Covered;
    var t1, child := Appended(t0, m, text), Join(src, names[i]);
    Listing(t0, src, names);
    assert names[i] in ChildNames(t0, src);
    ListedChild(t0, src, names[i]);
    ChildLevel(src, names[i]);
    JoinParts(src, names[i]);
    FitsElsewhere(t0, t1, m, child);
    FilesElsewhere(t0, t1, m, child);
    WeightElsewhere(t0, t1, m, FilesBelow(t0, child, UpdateIncluded));
    CoveredWeight(t0, src, names, i);
    if ScanFits(t0, src) {
      FitsChild(t0, src, names[i]);
      ScanSelf(t0, child);
    }
  }

  /** Each child adds its own weight, and together they make up that of the directory. */
  lemma CoveredWeight(t: Tree, src: string, names: seq<string>, i: nat)
    requires WellFormed(t) && DirPath(src) && i < |names|
    requires forall n :: n in names ==> ValidName(n)
    requires forall j, k :: 0 <= j < k < |names| ==> names[j] != names[k]
    ensures
      var child := FilesBelow(t, Join(src, names[i]), UpdateIncluded);
      var now, next := Covered(t, src, names, i, UpdateIncluded), Covered(t, src, names, i + 1, UpdateIncluded);
      && Weight(t, next) == Weight(t, now) + Weight(t, child)
      && Weight(t, next) <= Weight(t, FilesBelow(t, src, UpdateIncluded))
  {
    hide Join, DirPath, ValidName, WellFormed, FilesBelow, Covered, UpdateIncluded, Line;
    var child := FilesBelow(t, Join(src, names[i]), UpdateIncluded);
    var now, next := Covered(t, src, names, i, UpdateIncluded), Covered(t, src, names, i + 1, UpdateIncluded);
    var all := FilesBelow(t, src, UpdateIncluded);
    CoverNext(t, src, names, i, UpdateIncluded);
    SumUnion(LineSizes(t), now, child);
    CoveredBelow(t, src, names, i + 1);
    assert all == next + (all - next);
    SumUnion(LineSizes(t), next, all - next);
  }

  lemma CoveredBelow(t: Tree, src: string, names: seq<string>, i: nat)
    requires i <= |names|
    ensures Covered(t, src, names, i, UpdateIncluded) <= FilesBelow(t, src, UpdateIncluded)
  {
    hide FilesBelow, UpdateIncluded;
  }

  lemma ChildWritten(t0: Tree, t1: Tree, src: string, names: seq<string>, i: nat, m: string, more: seq<Entry>, b: nat)
    requires WellFormed(t0) && DirPath(src) && i < |names| && t0 - {m} == t1 - {m} && !UpdateIncluded(m)
    requires forall n :: n in names ==> ValidName(n)
    requires forall j, k :: 0 <= j < k < |names| ==> names[j] != names[k]
    requires
      var s := FilesBelow(t1, Join(src, names[i]), UpdateIncluded);
      ListsSome(t1, more, s) && PathSet(more) == s && CanScan(t1, Join(src, names[i]), b)
    ensures
      var now, next := Covered(t0, src, names, i, UpdateIncluded), Covered(t0, src, names, i + 1, UpdateIncluded);
      |Print(more)| == Weight(t0, next) - Weight(t0, now)
    ensures b + |Print(more)| <= MANIFEST_MAX_BYTES
  {
    hide Join, DirPath, ValidName, WellFormed, FilesBelow, Covered, UpdateIncluded, Print, Weight, Lists, PathSet;
    var s := FilesBelow(t1, Join(src, names[i]), UpdateIncluded);
    PrintWeight(t1, more);
    FilesElsewhere(t0, t1, m, Join(src, names[i]));
    WeightElsewhere(t0, t1, m, s);
    CoveredWeight(t0, src, names, i);
  }

  lemma ScanEnd(t: Tree, src: string, names: seq<string>, depth: nat, m: string, b0: nat)
    requires WellFormed(t) && DirPath(src) && |src| < PATH_MAX && IsDir(t, src) && depth <= DEPTH_MAX
    requires Enumerates(names, ChildNames(t, src)) && ScanAt(t, src, depth, m, b0)
    requires b0 + Weight(t, Covered(t, src, names, |names|, UpdateIncluded)) <= MANIFEST_MAX_BYTES
    requires forall k :: 0 <= k < |names| ==> ScanFits(t, Join(src, names[k]))
    ensures CanScan(t, src, b0)
  {
    hide Level, Untracked, Parent, Join, DirPath, ChildNames, WellFormed, FilesBelow, ScanFits, Weight;
    hide UpdateIncluded, Covered;
    CoverAll(t, src, names, UpdateIncluded);
    FitsAll(t, src, names);
  }

  method ScanDirectory(fs: FileSystem, src: string, writer: Writer, depth: nat, manifest: string)
    returns (ok: bool, ghost es: seq<Entry>)
    requires fs.Valid() && Plain(src) && Plain(manifest) && |src| < PATH_MAX
    requires IsFile(fs.tree, manifest) && !UpdateIncluded(manifest)
    requires IsDir(fs.tree, src) && !Untracked(src) && depth <= DEPTH_MAX
    modifies fs, writer
    ensures fs.Valid() && fs.tree - {manifest} == old(fs.tree) - {manifest} && IsFile(fs.tree, manifest)
    ensures ok ==> ListsSome(old(fs.tree), es, FilesBelow(old(fs.tree), src, UpdateIncluded))
    ensures ok && fs.Sighted() ==> PathSet(es) == FilesBelow(old(fs.tree), src, UpdateIncluded)
    ensures ok ==> fs.tree == Appended(old(fs.tree), manifest, Print(es))
    ensures ok ==> writer.files == old(writer.files) + |es|
    ensures ok ==> writer.manifestBytes == old(writer.manifestBytes) + |Print(es)|
    ensures fs.healthy && ScanAt(old(fs.tree), src, depth, manifest, old(writer.manifestBytes)) ==>
      (ok <==> CanScan(old(fs.tree), src, old(writer.manifestBytes)))
    decreases DEPTH_MAX + 1 - depth, 0
  {
    hide Real, UpdateIncluded, FilesBelow, ListsSome, Print, Line, FileSystem.Valid, WellFormed, TrueEntry, Below;
    hide Covered, Join, DirPath, ValidName, ChildNames, PathSet, ScanAt, CanScan, ScanFits, Weight, Untracked;
    hide IsDir, Plain;
    ghost var t0, b0 := fs.tree, writer.manifestBytes;
    PlainIsDirPath(src);
    PlainIsDirPath(manifest);
    ghost var live := fs.healthy && ScanAt(t0, src, depth, manifest, b0);
    ValidTree(fs);
    ghost var names := fs.Children(src);
    Listing(t0, src, names);
    CoverNone(t0, src, names, UpdateIncluded);
    CoverAll(t0, src, names, UpdateIncluded);
    SomeNothing(t0, {});
    AppendedNothing(t0, manifest);
    NoWeight(t0);
    WithinManifest(t0, src, depth, manifest, b0);
    es := [];
    var count := fs.ChildCount(src);
    if count.None? {
      return false, es;
    }
    var i := 0;
    while i < count.value
      invariant i <= count.value && fs.Valid()
      invariant ListsSome(t0, es, Covered(t0, src, names, i, UpdateIncluded))
      invariant fs.Sighted() ==> PathSet(es) == Covered(t0, src, names, i, UpdateIncluded)
      invariant fs.tree == Appended(t0, manifest, Print(es))
      invariant writer.files == old(writer.files) + |es|
      invariant writer.manifestBytes == b0 + |Print(es)|
      invariant live ==> writer.manifestBytes == b0 + Weight(t0, Covered(t0, src, names, i, UpdateIncluded))
      invariant live ==> writer.manifestBytes <= MANIFEST_MAX_BYTES
      invariant live ==> forall k :: 0 <= k < i ==> ScanFits(t0, Join(src, names[k]))
    {
      ghost var t1, b := fs.tree, writer.manifestBytes;
      if live {
        ScanStep(t0, src, names, i, depth, manifest, b0, Print(es));
      }
      AppendedTwice(t0, manifest, Print(es), "");
      SameChildren(t0, t1, manifest, src);
      ghost var more := [];
      SomeNothing(t1, FilesBelow(t1, Join(src, names[i]), UpdateIncluded));
      AppendedNothing(t1, manifest);
      var name := fs.ChildName(src, i);
      if name.Some? {
        var child := Join(src, name.value);
        JoinParts(src, name.value);
        JoinPlain(src, name.value);
        if |child| + 1 > PATH_MAX {
          return false, es;
        }
        ok, more := ScanManifest(fs, child, writer, depth + 1, manifest);
        if !ok {
          return;
        }
        if live {
          ChildWritten(t0, t1, src, names, i, manifest, more, b);
        }
      }
      ListNext(t0, src, names, i, manifest, es, more);
      es := es + more;
      i := i + 1;
    }
    AppendedTwice(t0, manifest, Print(es), "");
    if live {
      ScanEnd(t0, src, names, depth, manifest, b0);
    }
    ok := true;
  }

  /** How both manifests are begun: an old file is removed and an empty one written. */
  method StartManifest(fs: FileSystem, manifest: string) returns (ok: bool)
    requires fs.Valid()
    modifies fs
    ensures fs.Valid() && fs.tree - {Real(manifest)} == old(fs.tree) - {Real(manifest)}
    ensures ok ==> fs.tree == old(fs.tree)[Real(manifest) := Regular("")]
    ensures fs.healthy ==> (ok <==> Creatable(old(fs.tree), Real(manifest)) && !IsDir(old(fs.tree), Real(manifest)))
  {
    hide FileSystem.Valid, Creatable, Real;
    CreatableAgain(fs.tree, Real(manifest));
    var kind := fs.StatType(manifest);
    if kind == AFile {
      ok := fs.Remove(manifest);
      if !ok {
        return;
      }
    }
    var created := fs.Write(manifest, "");
    ok := created != 0;
  }

  /** The manifest can be created, every path fits, and the lines of the tracked files, one at least, fit too. */
  ghost predicate CanGenerate(t: Tree, manifest: string) {
    && Creatable(t, manifest) && !IsDir(t, manifest)
    && FilesBelow(t, "/", UpdateIncluded) != {} && CanScan(t, "/", 0)
  }

  /** The empty manifest makes no difference to what the scan meets. */
  lemma GenerateOutcome(t0: Tree, m: string)
    requires WellFormed(t0)
    ensures CanGenerate(t0, m) ==> Creatable(t0, m) && !IsDir(t0, m)
    ensures !IsDir(t0, m) ==> ScanAt(t0[m := Regular("")], "/", 0, m, 0)
    ensures !UpdateIncluded(m) && Untracked(Parent(m)) && Creatable(t0, m) && !IsDir(t0, m) ==>
      (CanGenerate(t0, m) <==>
        CanScan(t0[m := Regular("")], "/", 0) && FilesBelow(t0[m := Regular("")], "/", UpdateIncluded) != {})
  {
    hide UpdateIncluded, FilesBelow, Weight, Creatable, Level;
    var t1 := t0[m := Regular("")];
    assert Parent("/") == "/" && !Untracked("/") && Level("/") == 0 by {
      RootLevel();
    }
    if !UpdateIncluded(m) && Untracked(Parent(m)) {
      FilesElsewhere(t0, t1, m, "/");
      WeightElsewhere(t0, t1, m, FilesBelow(t0, "/", UpdateIncluded));
      assert ScanFits(t0, "/") <==> ScanFits(t1, "/");
    }
  }

  lemma RootLevel()
    ensures Level("/") == 0 && Parent("/") == "/"
  {
  }

  lemma SomePaths(es: seq<Entry>)
    ensures es == [] <==> PathSet(es) == {}
  {
    if es != [] {
      assert es[0].path in PathSet(es);
    }
  }

  /**
   install_generate_manifest_to for the running system: the new manifest lists every file
   that the update tracks, once, with its true size and hash, and nothing else changes.
   A file is missed only if some call that looks at a path or lists a directory failed.
   */
  method GenerateManifest(fs: FileSystem, manifest: string) returns (ok: bool, ghost es: seq<Entry>)
    requires fs.Valid() && Plain(manifest) && !UpdateIncluded(manifest)
    modifies fs
    ensures fs.Valid() && fs.tree - {manifest} == old(fs.tree) - {manifest}
    ensures ok ==> fs.tree == old(fs.tree)[manifest := Regular(Print(es))]
    ensures ok ==> es != [] && ListsSome(old(fs.tree), es, FilesBelow(old(fs.tree), "/", UpdateIncluded))
    ensures ok && fs.Sighted() ==> PathSet(es) == FilesBelow(old(fs.tree), "/", UpdateIncluded)
    ensures fs.healthy && Untracked(Parent(manifest)) ==> (ok <==> CanGenerate(old(fs.tree), manifest))
  {
    hide Real, DirPath, UpdateIncluded, FilesBelow, ListsSome, PathSet, Print, FileSystem.Valid, Creatable, Untracked;
    hide Parent;
    hide CanGenerate, CanScan, ScanAt;
    ghost var t0 := fs.tree;
    RootIsPlain();
    ValidTree(fs);
    GenerateOutcome(t0, manifest);
    es := [];
    ok := StartManifest(fs, manifest);
    if !ok {
      return;
    }
    ghost var t1 := fs.tree;
    var writer := new Writer();
    ok, es := ScanManifest(fs, "/", writer, 0, manifest);
    if ok && writer.files == 0 {
      ok := false;
    }
    SomePaths(es);
    if ok {
      FilesElsewhere(t0, t1, manifest, "/");
      SomeElsewhere(t0, t1, manifest, es, FilesBelow(t1, "/", UpdateIncluded));
      assert "" + Print(es) == Print(es);
    }
  }

  // ----- loading

  /** install_manifest_load. */
  method LoadManifest(fs: FileSystem, path: string, max: nat, missingOk: bool) returns (r: Option<seq<Entry>>)
    requires fs.Valid() && max > 0
    ensures r.Some? && (Real(path) !in fs.tree || r.value != [] || !missingOk || fs.Sighted()) ==>
      if Real(path) !in fs.tree then missingOk && r.value == []
      else IsFile(fs.tree, Real(path)) && |fs.tree[Real(path)].content| <= MANIFEST_MAX_BYTES
           && r == Parse(fs.tree[Real(path)].content, max)
    ensures Real(path) !in fs.tree && missingOk ==> r == Some([])
    ensures fs.healthy && IsFile(fs.tree, Real(path)) && |fs.tree[Real(path)].content| <= MANIFEST_MAX_BYTES ==>
      r == Parse(fs.tree[Real(path)].content, max)
  {
    hide FileSystem.Valid, Parse, Real;
    var size := fs.StatSize(path);
    if size.None? {
      return if missingOk then Some([]) else None;
    }
    if size.value > MANIFEST_MAX_BYTES {
      return None;
    }
    var buffer := ReadWhole(fs, path, size.value, MANIFEST_MAX_BYTES);
    if buffer.None? {
      return None;
    }
    r := LoadBuffer(buffer.value, max);
  }
}
