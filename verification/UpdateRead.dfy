/** How an update comes to its two lists of entries. */
module UpdateRead {
  import opened Options
  import opened Paths
  import opened FileSystem
  import opened InstallFiles
  import opened TreeWalk
  import opened ManifestText
  import opened ManifestFile
  import opened UpdatePaths
  import opened UpdatePasses
  import opened UpdateFiles
  import opened UpdateConditions

  // ----- reading the two manifests

  /** No tracked file's path contains a separator of the manifest's line format. */
  ghost predicate CleanTracked(t: Tree) {
    forall p :: p in FilesBelow(t, "/", UpdateIncluded) ==> '|' !in p && '\n' !in p
  }

  lemma {:induction false} NoNulls(t: Tree, p: string)
    requires WellFormed(t) && p in t
    ensures '\0' !in p
    decreases |p|
  {
    assert WellPlaced(t, p);
    if p != "/" {
      ShorterParent(p);
      NoNulls(t, Parent(p));
      assert p == Parent(p) + (if |Parent(p)| > 1 then "/" else "") + Base(p);
    }
  }

  lemma ListedAreProper(t: Tree, es: seq<Entry>, s: set<string>)
    requires WellFormed(t) && ListsSome(t, es, s) && s == FilesBelow(t, "/", UpdateIncluded)
    ensures Tracked(es) && forall e :: e in es ==> Proper(e)
    ensures CleanTracked(t) ==> forall e :: e in es ==> Clean(e)
  {
    hide FileHash, ManifestIncluded, Under, Real;
    forall e | e in es
      ensures UpdateIncluded(e.path) && Plain(e.path) && Proper(e) && (CleanTracked(t) ==> Clean(e))
    {
      assert e.path in PathSet(es);
      assert Fits(t[e.path]);
      NodeIsPlain(t, e.path);
      NoNulls(t, e.path);
    }
  }

  /** The old entries are what the target's manifest says, or none. */
  ghost predicate OldEntries(t: Tree, olds: seq<Entry>) {
    if MANIFEST_TARGET in t then
      IsFile(t, MANIFEST_TARGET) && Parse(t[MANIFEST_TARGET].content, MAX_ENTRIES) == Some(olds)
    else olds == []
  }

  /** The new entries describe tracked files of the running system, each once. */
  ghost predicate NewEntries(t: Tree, news: seq<Entry>) {
    ListsSome(t, news, FilesBelow(t, "/", UpdateIncluded))
  }

  /** They describe all of them. */
  ghost predicate AllEntries(t: Tree, news: seq<Entry>) {
    PathSet(news) == FilesBelow(t, "/", UpdateIncluded)
  }

  /** The first part of install_update_shell: generate the new manifest, load both. */
  method ReadManifests(fs: FileSystem) returns (ok: bool, olds: seq<Entry>, news: seq<Entry>)
    requires fs.Valid()
    modifies fs
    ensures fs.Valid() && fs.tree - {DRYRUN_MANIFEST} == old(fs.tree) - {DRYRUN_MANIFEST}
    ensures ok ==> |news| > 0 && DRYRUN_MANIFEST in fs.tree && (olds == [] || OldEntries(old(fs.tree), olds))
    ensures ok && fs.Sighted() ==> OldEntries(old(fs.tree), olds)
    ensures ok && CleanTracked(old(fs.tree)) ==> NewEntries(old(fs.tree), news) && Tracked(news)
    ensures ok && CleanTracked(old(fs.tree)) && fs.Sighted() ==> AllEntries(old(fs.tree), news)
    ensures fs.healthy && CanRead(old(fs.tree)) ==> ok
  {
    hide FileSystem.Valid, ListsSome, Print, Parse, CleanTracked, Tracked, UpdateIncluded, WellFormed, FilesBelow;
    hide PathSet, CanGenerate, Untracked, Parent, Real, DirPath;
    ghost var t0 := fs.tree;
    StatePlain();
    ValidTree(fs);
    olds, news := [], [];
    DryRunNotTracked();
    DryRunParent();
    ghost var es;
    ok, es := GenerateManifest(fs, DRYRUN_MANIFEST);
    if !ok {
      return;
    }
    if fs.healthy && CanRead(t0) {
      ManifestLoads(t0, es);
      OldStays(t0, fs.tree);
    }
    var o := LoadManifest(fs, MANIFEST_TARGET, MAX_ENTRIES, true);
    var n := LoadManifest(fs, DRYRUN_MANIFEST, MAX_ENTRIES, false);
    if o.None? || n.None? || n.value == [] {
      return false, olds, news;
    }
    olds, news := o.value, n.value;
    OldUnchanged(t0, fs.tree, olds);
    if CleanTracked(t0) {
      ListedAreProper(t0, es, FilesBelow(t0, "/", UpdateIncluded));
      if |es| > MAX_ENTRIES {
        TooManyEntries(es, MAX_ENTRIES);
      } else {
        RoundTrip(es, MAX_ENTRIES);
      }
    }
  }

  /** The old manifest, if there is one, can be loaded. */
  predicate OldReadable(t: Tree) {
    MANIFEST_TARGET in t ==>
      && IsFile(t, MANIFEST_TARGET) && |t[MANIFEST_TARGET].content| <= MANIFEST_MAX_BYTES
      && Parse(t[MANIFEST_TARGET].content, MAX_ENTRIES).Some?
  }

  /** The new manifest can be generated, and both can be loaded. */
  ghost predicate CanRead(t: Tree) {
    && CleanTracked(t) && CanGenerate(t, DRYRUN_MANIFEST)
    && |FilesBelow(t, "/", UpdateIncluded)| <= MAX_ENTRIES && OldReadable(t)
  }

  lemma ManifestLoads(t: Tree, es: seq<Entry>)
    requires WellFormed(t) && CanRead(t) && ListsSome(t, es, FilesBelow(t, "/", UpdateIncluded))
    requires PathSet(es) == FilesBelow(t, "/", UpdateIncluded)
    ensures |Print(es)| <= MANIFEST_MAX_BYTES && Parse(Print(es), MAX_ENTRIES) == Some(es)
  {
    hide Lists, Print, Parse, CleanTracked, Tracked, UpdateIncluded, WellFormed, FilesBelow, PathSet, OldReadable;
    PrintWeight(t, es);
    ListedAreProper(t, es, FilesBelow(t, "/", UpdateIncluded));
    RoundTrip(es, MAX_ENTRIES);
  }

  lemma OldStays(t0: Tree, t1: Tree)
    requires t1 - {DRYRUN_MANIFEST} == t0 - {DRYRUN_MANIFEST} && DRYRUN_MANIFEST != MANIFEST_TARGET
    ensures OldReadable(t0) ==> OldReadable(t1)
  {
    hide Parse;
    SameButFor(t0, t1, {DRYRUN_MANIFEST}, MANIFEST_TARGET);
  }

  lemma DryRunParent()
    ensures Untracked(Parent(DRYRUN_MANIFEST))
  {
    hide ValidName, Parent, Base, Untracked, Join;
    PlainName("install2disk_manifest.new");
    DryRunJoin();
    JoinParts("/temp", "install2disk_manifest.new");
    TempIsUntracked();
  }

  lemma TempIsUntracked()
    ensures Untracked("/temp")
  {
  }

  lemma DryRunNotTracked()
    ensures !UpdateIncluded(DRYRUN_MANIFEST) && DRYRUN_MANIFEST != MANIFEST_TARGET
  {
    hide ManifestIncluded;
    NotUnder(DRYRUN_MANIFEST, "/shell", 1);
    NotUnder(DRYRUN_MANIFEST, "/system", 1);
    NotUnder(DRYRUN_MANIFEST, "/system/drivers", 1);
    StateTargets();
    NotOverlapping("/system/databases/install_manifest.db");
  }

  lemma OldUnchanged(t0: Tree, t1: Tree, olds: seq<Entry>)
    requires t1 - {DRYRUN_MANIFEST} == t0 - {DRYRUN_MANIFEST} && DRYRUN_MANIFEST != MANIFEST_TARGET
    ensures OldEntries(t1, olds) <==> OldEntries(t0, olds)
  {
    hide Parse;
    assert MANIFEST_TARGET in t0 <==> MANIFEST_TARGET in t0 - {DRYRUN_MANIFEST};
    assert MANIFEST_TARGET in t1 <==> MANIFEST_TARGET in t1 - {DRYRUN_MANIFEST};
  }
}
