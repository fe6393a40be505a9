/** The obsolete files: what the dry run announces and what is deleted. */
module UpdateObsolete {
  import opened Options
  import opened Paths
  import opened FileSystem
  import opened InstallFiles
  import opened ManifestText
  import opened ManifestFile
  import opened UpdatePaths
  import opened UpdatePasses

  // ----- obsolete files

  predicate Obsolete(o: Entry, news: seq<Entry>) {
    UpdateIncluded(o.path) && Lookup(news, o.path).None?
  }

  /** In the update's scope and not among the new entries, in the spelling of the manifests. */
  lemma ObsoleteIs(o: Entry, news: seq<Entry>)
    ensures Obsolete(o, news) <==> UpdateIncluded(o.path) && forall e :: e in news ==> e.path != o.path
  {
    hide UpdateIncluded, Lookup;
  }

  /** An obsolete old entry whose target the kernel finds to be a file. */
  predicate Deletable(t: Tree, o: Entry, news: seq<Entry>) {
    Obsolete(o, news) && IsFile(t, Place(o.path))
  }

  ghost function ObsoleteTargets(t: Tree, olds: seq<Entry>, news: seq<Entry>): set<string> {
    set o | o in olds && Deletable(t, o, news) :: Place(o.path)
  }

  /** What the dry run counts: every entry, duplicates included. */
  function DryCount(t: Tree, olds: seq<Entry>, news: seq<Entry>): nat {
    if olds == [] then 0
    else
      var n := |olds| - 1;
      DryCount(t, olds[..n], news) + (if Deletable(t, olds[n], news) then 1 else 0)
  }

  /** No obsolete entry has too long a target path. */
  predicate ObsoleteFit(olds: seq<Entry>, news: seq<Entry>) {
    forall j :: 0 <= j < |olds| && Obsolete(olds[j], news) ==> |Target(olds[j].path)| < PATH_MAX
  }

  /** install_update_shell_delete_obsolete, dry run. */
  method CountObsolete(fs: FileSystem, olds: seq<Entry>, news: seq<Entry>, result: UpdateResult) returns (ok: bool)
    requires fs.Valid()
    modifies result`deleted
    ensures ok ==> result.deleted <= old(result.deleted) + DryCount(fs.tree, olds, news)
    ensures ok && fs.Sighted() ==> result.deleted == old(result.deleted) + DryCount(fs.tree, olds, news)
    ensures ok <==> ObsoleteFit(olds, news)
  {
    hide UpdateIncluded, Target, Real, Lookup, FileSystem.Valid;
    var i := 0;
    while i < |olds|
      invariant i <= |olds| && result.deleted <= old(result.deleted) + DryCount(fs.tree, olds[..i], news)
      invariant fs.Sighted() ==> result.deleted == old(result.deleted) + DryCount(fs.tree, olds[..i], news)
      invariant forall j :: 0 <= j < i && Obsolete(olds[j], news) ==> |Target(olds[j].path)| < PATH_MAX
    {
      assert olds[..i + 1][..i] == olds[..i];
      if UpdateIncluded(olds[i].path) {
        var found := FindEntry(news, olds[i].path);
        if found.None? {
          var target := Target(olds[i].path);
          if |target| >= PATH_MAX {
            return false;
          }
          var kind := fs.StatType(target);
          if kind == AFile {
            result.deleted := result.deleted + 1;
          }
        }
      }
      i := i + 1;
    }
    assert olds[..i] == olds;
    ok := true;
  }

  /**
   install_update_shell_delete_obsolete for real. `gone` are the files that were removed,
   which are all the obsolete ones unless a call that looks at a path failed.
   */
  method DeleteObsolete(fs: FileSystem, olds: seq<Entry>, news: seq<Entry>, result: UpdateResult)
    returns (ok: bool, ghost gone: set<string>)
    requires fs.Valid()
    modifies fs, result`deleted
    ensures fs.Valid()
    ensures gone <= ObsoleteTargets(old(fs.tree), olds, news)
    ensures ok ==> fs.tree == old(fs.tree) - gone
    ensures ok ==> result.deleted == old(result.deleted) + |gone|
    ensures ok && fs.Sighted() ==> gone == ObsoleteTargets(old(fs.tree), olds, news)
    ensures fs.healthy ==> (ok <==> ObsoleteFit(olds, news))
  {
    hide UpdateIncluded, Target, Real, Lookup, FileSystem.Valid, ObsoleteTargets;
    ghost var t0 := fs.tree;
    var i := 0;
    gone := {};
    NothingObsolete(t0, news);
    assert olds[..0] == [];
    while i < |olds|
      invariant i <= |olds| && fs.Valid()
      invariant gone <= ObsoleteTargets(t0, olds[..i], news)
      invariant fs.Sighted() ==> gone == ObsoleteTargets(t0, olds[..i], news)
      invariant fs.tree == t0 - gone && result.deleted == old(result.deleted) + |gone|
      invariant forall j :: 0 <= j < i && Obsolete(olds[j], news) ==> |Target(olds[j].path)| < PATH_MAX
    {
      var target := Target(olds[i].path);
      ghost var place := Place(olds[i].path);
      ObsoleteNext(t0, olds, news, i, gone);
      ObsoleteSome(t0, olds, news, i);
      if UpdateIncluded(olds[i].path) {
        var found := FindEntry(news, olds[i].path);
        if found.None? {
          if |target| >= PATH_MAX {
            return false, gone;
          }
          var kind := fs.StatType(target);
          if kind == AFile {
            ok := fs.Remove(target);
            if !ok {
              return;
            }
            gone := gone + {place};
            result.deleted := result.deleted + 1;
          }
        }
      }
      i := i + 1;
    }
    assert olds[..i] == olds;
    ok := true;
  }

  lemma NothingObsolete(t: Tree, news: seq<Entry>)
    ensures ObsoleteTargets(t, [], news) == {}
  {
  }

  /** The next old entry either names one more file that is still there or none. */
  lemma ObsoleteNext(t: Tree, olds: seq<Entry>, news: seq<Entry>, i: nat, gone: set<string>)
    requires i < |olds| && gone <= ObsoleteTargets(t, olds[..i], news)
    ensures
      var s, s' := ObsoleteTargets(t, olds[..i], news), ObsoleteTargets(t, olds[..i + 1], news);
      var target := Place(olds[i].path);
      && gone <= s'
      && (Obsolete(olds[i], news) && IsFile(t - gone, target) ==> target !in gone && gone + {target} <= s')
      && (gone == s ==> s' == if Obsolete(olds[i], news) && IsFile(t - gone, target) then gone + {target} else gone)
  {
    hide Obsolete, Place, ObsoleteTargets;
    assert olds[..i + 1][..i] == olds[..i];
    ObsoleteLast(t, olds[..i + 1], news);
  }

  lemma ObsoleteSome(t: Tree, olds: seq<Entry>, news: seq<Entry>, i: nat)
    requires i <= |olds|
    ensures ObsoleteTargets(t, olds[..i], news) <= ObsoleteTargets(t, olds, news)
  {
    hide Deletable;
    assert forall o :: o in olds[..i] ==> o in olds;
  }

  // ----- what the dry run announces

  /** No deletable file is listed twice, in whatever spellings. */
  ghost predicate NoDuplicateDeletable(t: Tree, olds: seq<Entry>, news: seq<Entry>) {
    forall i, j :: 0 <= i < j < |olds| && Deletable(t, olds[i], news) && Deletable(t, olds[j], news) ==>
      Place(olds[i].path) != Place(olds[j].path)
  }

  /** How many entries list a deletable file that an earlier one lists too. */
  ghost function Repeats(t: Tree, olds: seq<Entry>, news: seq<Entry>): nat {
    if olds == [] then 0
    else
      var n := |olds| - 1;
      var o := olds[n];
      Repeats(t, olds[..n], news) +
      (if Deletable(t, o, news) && Place(o.path) in ObsoleteTargets(t, olds[..n], news) then 1 else 0)
  }

  /** What the dry run announces is the number of files there are to delete and the number of repetitions. */
  lemma {:induction false} DryCountExact(t: Tree, olds: seq<Entry>, news: seq<Entry>)
    ensures DryCount(t, olds, news) == |ObsoleteTargets(t, olds, news)| + Repeats(t, olds, news)
    ensures Repeats(t, olds, news) == 0 <==> NoDuplicateDeletable(t, olds, news)
  {
    hide Deletable, Place, ObsoleteTargets, NoDuplicateDeletable;
    if olds == [] {
      NothingObsolete(t, news);
      NoDuplicates(t, news);
    } else {
      DryCountExact(t, olds[..|olds| - 1], news);
      ObsoleteLast(t, olds, news);
      LastDuplicate(t, olds, news);
    }
  }

  lemma DryCountLast(t: Tree, olds: seq<Entry>, o: Entry, news: seq<Entry>)
    ensures DryCount(t, olds + [o], news) == DryCount(t, olds, news) + if Deletable(t, o, news) then 1 else 0
    ensures DryCount(t, [], news) == 0
  {
    hide Deletable;
    assert (olds + [o])[..|olds|] == olds;
  }

  lemma NoDuplicates(t: Tree, news: seq<Entry>)
    ensures NoDuplicateDeletable(t, [], news)
  {
  }

  lemma ObsoleteLast(t: Tree, olds: seq<Entry>, news: seq<Entry>)
    requires olds != []
    ensures
      var n := |olds| - 1;
      var s, o := ObsoleteTargets(t, olds[..n], news), olds[n];
      var s' := ObsoleteTargets(t, olds, news);
      && s' == (if Deletable(t, o, news) then s + {Place(o.path)} else s)
      && |s'| == |s| + (if Deletable(t, o, news) && Place(o.path) !in s then 1 else 0)
  {
    hide Deletable, Place;
    var n := |olds| - 1;
    var s, o := ObsoleteTargets(t, olds[..n], news), olds[n];
    assert forall x :: x in olds <==> x in olds[..n] || x == o;
    assert ObsoleteTargets(t, olds, news) == if Deletable(t, o, news) then s + {Place(o.path)} else s;
    if Place(o.path) in s {
      assert s + {Place(o.path)} == s;
    } else {
      assert |s + {Place(o.path)}| == |s| + 1;
    }
  }

  lemma LastDuplicate(t: Tree, olds: seq<Entry>, news: seq<Entry>)
    requires olds != []
    ensures
      var n := |olds| - 1;
      var o := olds[n];
      NoDuplicateDeletable(t, olds, news) <==>
        NoDuplicateDeletable(t, olds[..n], news) &&
        (Deletable(t, o, news) ==> Place(o.path) !in ObsoleteTargets(t, olds[..n], news))
  {
    hide Deletable, Place;
    var n := |olds| - 1;
    var o := olds[n];
    if NoDuplicateDeletable(t, olds[..n], news) &&
       (Deletable(t, o, news) ==> Place(o.path) !in ObsoleteTargets(t, olds[..n], news)) {
      forall i, j | 0 <= i < j < |olds| && Deletable(t, olds[i], news) && Deletable(t, olds[j], news)
        ensures Place(olds[i].path) != Place(olds[j].path)
      {
        assert olds[..n][i] == olds[i] && olds[i] in olds[..n];
        if j < n {
          assert olds[..n][j] == olds[j];
        }
      }
    }
    if NoDuplicateDeletable(t, olds, news) {
      forall i, j | 0 <= i < j < n && Deletable(t, olds[..n][i], news) && Deletable(t, olds[..n][j], news)
        ensures Place(olds[..n][i].path) != Place(olds[..n][j].path)
      {
        assert olds[..n][i] == olds[i] && olds[..n][j] == olds[j];
      }
    }
  }

  // ----- what there is to delete when it comes to it

  /** What is a file when the deletions begin: what was one before the update, and the state files. */
  predicate FileThen(t: Tree, q: string) {
    || IsFile(t, q) || q == UPDATE_STATE || q == MANIFEST_NEW
    || (q == MANIFEST_PREV && IsFile(t, MANIFEST_TARGET))
  }

  /** What an update starting from t removes. */
  ghost function Removed(t: Tree, olds: seq<Entry>, news: seq<Entry>): set<string> {
    set o | o in olds && Obsolete(o, news) && FileThen(t, Place(o.path)) :: Place(o.path)
  }

  /** The state files that it removes though they were not there at first. */
  ghost function StateRemoved(t: Tree, olds: seq<Entry>, news: seq<Entry>): set<string> {
    Removed(t, olds, news) - ObsoleteTargets(t, olds, news)
  }

  ghost function ObsoletePlaces(olds: seq<Entry>, news: seq<Entry>): set<string> {
    set o | o in olds && Obsolete(o, news) :: Place(o.path)
  }

  /** No obsolete entry is a new entry in another spelling. */
  ghost predicate NewApart(olds: seq<Entry>, news: seq<Entry>) {
    ObsoletePlaces(olds, news) !! Targets(news)
  }

  /**
   The dry run announces the right number exactly when as many repetitions are listed as
   there are state files removed: without either, and when the two errors happen to agree.
   */
  lemma AnnouncedExactly(t: Tree, olds: seq<Entry>, news: seq<Entry>)
    ensures DryCount(t, olds, news) == |Removed(t, olds, news)| <==>
      Repeats(t, olds, news) == |StateRemoved(t, olds, news)|
    ensures StateRemoved(t, olds, news) <= STATE_FILES
    ensures ObsoletePlaces(olds, news) !! STATE_FILES ==> StateRemoved(t, olds, news) == {}
  {
    hide Obsolete, Place, IsFile, DryCount, Repeats;
    var s, r := ObsoleteTargets(t, olds, news), Removed(t, olds, news);
    DryCountExact(t, olds, news);
    assert s <= r;
    assert r == s + (r - s) && |r| == |s| + |r - s|;
  }

  lemma RemovedAreObsolete(t: Tree, olds: seq<Entry>, news: seq<Entry>)
    ensures ObsoleteTargets(t, olds, news) <= ObsoletePlaces(olds, news)
    ensures Removed(t, olds, news) <= ObsoletePlaces(olds, news)
  {
    hide Obsolete, Place, FileThen;
  }
}
