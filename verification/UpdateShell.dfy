/** A whole run of the shell update. */
module UpdateShell {
  import opened Options
  import opened Paths
  import opened FileSystem
  import opened InstallFiles
  import opened TreeWalk
  import opened ManifestText
  import opened ManifestFile
  import opened UpdatePaths
  import opened UpdatePasses
  import opened UpdateObsolete
  import opened UpdateFiles
  import opened UpdateRefresh
  import opened UpdateConditions
  import opened UpdateRead
  import opened UpdateApply

  // ----- the whole update

  function OldList(t: Tree): seq<Entry> {
    if IsFile(t, MANIFEST_TARGET) && Parse(t[MANIFEST_TARGET].content, MAX_ENTRIES).Some?
    then Parse(t[MANIFEST_TARGET].content, MAX_ENTRIES).value
    else []
  }

  /** Every old entry that the update looks at has a target path that fits. */
  ghost predicate OldFit(t: Tree) {
    forall o :: o in OldList(t) && ManifestIncluded(o.path) && o.path !in FilesBelow(t, "/", UpdateIncluded) ==>
      |Target(o.path)| < PATH_MAX
  }

  /** The target disk has a place for every file that the update writes. */
  ghost predicate TargetReady(t: Tree) {
    && Writable(t, DATABASES, UPDATE_STATE) && Writable(t, DATABASES, MANIFEST_NEW)
    && Writable(t, DATABASES, MANIFEST_TARGET) && (IsFile(t, MANIFEST_TARGET) ==> Writable(t, DATABASES, MANIFEST_PREV))
    && MetadataWritable(t) && forall p :: p in FilesBelow(t, "/", UpdateIncluded) ==> CanCopy(t, p)
  }

  /** No old entry that the update takes for obsolete is a tracked file in another spelling. */
  ghost predicate OldApart(t: Tree) {
    forall o :: o in OldList(t) && UpdateIncluded(o.path) && o.path !in FilesBelow(t, "/", UpdateIncluded) ==>
      forall p :: p in FilesBelow(t, "/", UpdateIncluded) ==> Place(o.path) != Place(p)
  }

  /** The two manifests fit their limits, the target disk has room, and there is metadata. */
  ghost predicate CanUpdate(t: Tree) {
    && CanRead(t) && OldFit(t) && OldApart(t) && TargetReady(t) && SourcesApart(t) && MetadataPresent(t)
    && |Print(Kept(t, OldList(t)))| + Weight(t, FilesBelow(t, "/", UpdateIncluded)) <= MANIFEST_MAX_BYTES
  }

  lemma OldIsListed(t: Tree, olds: seq<Entry>)
    requires OldEntries(t, olds)
    ensures olds == OldList(t)
  {
    hide Parse;
  }

  /** No place on the target disk is the dry-run manifest's. */
  lemma PlaceStays(t0: Tree, t1: Tree, p: string)
    requires t1 - {DRYRUN_MANIFEST} == t0 - {DRYRUN_MANIFEST} && MOUNT <= p
    ensures SameAt(t0, t1, p)
  {
    assert DRYRUN_MANIFEST[6] == 'i' && p[6] == MOUNT[6] == 'd';
    SameButFor(t0, t1, {DRYRUN_MANIFEST}, p);
  }

  lemma PlacesUnderMount()
    ensures MOUNT <= DATABASES && MOUNT <= MANIFEST_TARGET && MOUNT <= ETC && MOUNT <= MOUNT
    ensures forall p :: p in STATE_FILES ==> MOUNT <= p
    ensures MOUNT <= Target(OS_VERSION) && MOUNT <= Target(OS_RELEASE)
  {
  }

  lemma PlacesStay(t0: Tree, t1: Tree)
    requires t1 - {DRYRUN_MANIFEST} == t0 - {DRYRUN_MANIFEST} && DRYRUN_MANIFEST in t1 && TargetReady(t0)
    ensures StateWritable(t1) && MetadataWritable(t1) && Writable(t1, DATABASES, MANIFEST_TARGET)
  {
    hide CanCopy, FilesBelow, UpdateIncluded, Target;
    PlacesUnderMount();
    PlaceStays(t0, t1, MOUNT);
    PlaceStays(t0, t1, ETC);
    PlaceStays(t0, t1, DATABASES);
    PlaceStays(t0, t1, MANIFEST_TARGET);
    PlaceStays(t0, t1, UPDATE_STATE);
    PlaceStays(t0, t1, MANIFEST_PREV);
    PlaceStays(t0, t1, MANIFEST_NEW);
    PlaceStays(t0, t1, Target(OS_VERSION));
    PlaceStays(t0, t1, Target(OS_RELEASE));
  }

  lemma SourcesStay(t0: Tree, t1: Tree)
    requires t1 - {DRYRUN_MANIFEST} == t0 - {DRYRUN_MANIFEST} && SourcesApart(t0)
    ensures SourcesApart(t1)
  {
    assert DRYRUN_MANIFEST[1] == 't';
    SameButFor(t0, t1, {DRYRUN_MANIFEST}, "/system/databases/install_manifest.db");
    SameButFor(t0, t1, {DRYRUN_MANIFEST}, "/system/databases/install_manifest.new");
    SameButFor(t0, t1, {DRYRUN_MANIFEST}, "/system/databases/install_manifest.prev");
    SameButFor(t0, t1, {DRYRUN_MANIFEST}, "/system/databases/update_state.db");
  }

  lemma CopyingFromStart(t0: Tree, t1: Tree, e: Entry)
    requires t1 - {DRYRUN_MANIFEST} == t0 - {DRYRUN_MANIFEST} && UpdateIncluded(e.path) && Plain(e.path)
    requires CanCopy(t0, e.path) && Describes(t0, e)
    ensures Copying(t1, e)
  {
    hide FileHash, UpdateIncluded, ManifestIncluded, Placeable, Target, SameAt, Real, OnTheWay;
    var target := Target(e.path);
    UpdateIsTracked(e.path);
    TrackedPlace(e.path);
    OutsideDryRun(e.path);
    SameButFor(t0, t1, {DRYRUN_MANIFEST}, e.path);
    TargetStays(t0, t1, e.path, |target|);
    assert target[..|target|] == target;
    forall i | 1 <= i < |target| && target[i] == '/'
      ensures SameAt(t0, t1, Real(target[..i]))
    {
      PrefixPlain(target, i);
      TargetStays(t0, t1, e.path, i);
    }
    SameMeans(t0, t1);
  }

  lemma SameMeans(t0: Tree, t1: Tree)
    ensures forall p :: SameAt(t0, t1, p) ==> (p in t0 <==> p in t1) && (p in t0 ==> t0[p] == t1[p])
  {
  }

  lemma TargetStays(t0: Tree, t1: Tree, p: string, i: nat)
    requires t1 - {DRYRUN_MANIFEST} == t0 - {DRYRUN_MANIFEST} && i <= |Target(p)|
    ensures SameAt(t0, t1, Target(p)[..i])
  {
    var q := Target(p)[..i];
    if i >= |MOUNT| {
      assert q[..|MOUNT|] == MOUNT;
      PlaceStays(t0, t1, q);
    } else {
      assert |q| < |DRYRUN_MANIFEST|;
      SameButFor(t0, t1, {DRYRUN_MANIFEST}, q);
    }
  }

  lemma OutsideDryRun(p: string)
    requires UpdateIncluded(p)
    ensures p != DRYRUN_MANIFEST
  {
    assert p[1] == 's' && DRYRUN_MANIFEST[1] == 't';
  }

  /** Once the manifests are loaded, the rest of the update can be done. */
  lemma ReadyToApply(t0: Tree, t1: Tree, olds: seq<Entry>, news: seq<Entry>)
    requires WellFormed(t0) && CanUpdate(t0)
    requires t1 - {DRYRUN_MANIFEST} == t0 - {DRYRUN_MANIFEST} && DRYRUN_MANIFEST in t1
    requires OldEntries(t0, olds) && NewEntries(t0, news) && AllEntries(t0, news)
    ensures CanApply(t1, olds, news) && ObsoleteFit(olds, news)
  {
    hide WellFormed, CanRead, SourcesApart, MetadataPresent, OldEntries, UpdateIncluded, ManifestIncluded, Print;
    hide Kept, Weight;
    hide StateWritable, MetadataWritable, Writable, CanCopy, Copying, Target, Parse, FilesBelow, OldList, Describes;
    hide RefreshFits, Obsolete, Distinct, Real, OldFit, OldApart, TargetReady, SameAt, NewApart;
    OldIsListed(t0, olds);
    PlacesStay(t0, t1);
    SourcesStay(t0, t1);
    RoomFromStart(t0, t1);
    forall e | e in news
      ensures Copying(t1, e)
    {
      Described(t0, news, e);
      ReadyMeans(t0, e.path);
      CopyingFromStart(t0, t1, e);
    }
    forall o | o in olds
      ensures RefreshFits(o) && (Obsolete(o, news) ==> |Target(o.path)| < PATH_MAX)
    {
      OldTargetFits(t0, news, o);
    }
    NewAreApart(t0, olds, news);
    KeptFromStart(t0, t1, olds);
    PrintAppend(Kept(t0, olds), news);
    PrintWeight(t0, news);
  }

  lemma ReadyMeans(t: Tree, p: string)
    requires TargetReady(t) && p in FilesBelow(t, "/", UpdateIncluded)
    ensures CanCopy(t, p)
  {
    hide CanCopy, FilesBelow, UpdateIncluded;
  }

  lemma Described(t: Tree, news: seq<Entry>, e: Entry)
    requires WellFormed(t) && e in news && NewEntries(t, news)
    ensures Describes(t, e) && UpdateIncluded(e.path) && e.path in FilesBelow(t, "/", UpdateIncluded) && Plain(e.path)
  {
    hide UpdateIncluded, Distinct, FileHash, Real;
    assert e.path in PathSet(news);
    NodeIsPlain(t, e.path);
  }

  lemma OldTargetFits(t: Tree, news: seq<Entry>, o: Entry)
    requires OldFit(t) && o in OldList(t) && AllEntries(t, news)
    ensures RefreshFits(o) && (Obsolete(o, news) ==> |Target(o.path)| < PATH_MAX)
  {
    hide OldList, Target, ManifestIncluded;
  }

  lemma NewAreApart(t: Tree, olds: seq<Entry>, news: seq<Entry>)
    requires OldApart(t) && olds == OldList(t) && NewEntries(t, news) && AllEntries(t, news)
    ensures NewApart(olds, news)
  {
    hide OldList, Place, UpdateIncluded, Distinct, TrueEntry, FilesBelow;
    forall o, e | o in olds && Obsolete(o, news) && e in news
      ensures Place(o.path) != Place(e.path)
    {
      assert e.path in PathSet(news);
    }
  }

  lemma KeptFromStart(t0: Tree, t1: Tree, olds: seq<Entry>)
    requires t1 - {DRYRUN_MANIFEST} == t0 - {DRYRUN_MANIFEST}
    ensures Kept(t0, olds) == Kept(t1, olds)
  {
    hide Place, Kept, UpdateIncluded, ManifestIncluded;
    forall o | o in olds && !UpdateIncluded(o.path) && ManifestIncluded(o.path)
      ensures Place(o.path) !in {DRYRUN_MANIFEST}
    {
      RetainedPlace(o.path);
    }
    KeptOutside(t0, t1, {DRYRUN_MANIFEST});
    KeptSame(t0, t1, {DRYRUN_MANIFEST}, olds);
  }

  ghost predicate NewFit(news: seq<Entry>) {
    forall e :: e in news ==> e.path != "" && e.path[0] == '/' && |e.path| < PATH_MAX
  }

  /** The first loop of install_update_shell and the dry run of the deletions. */
  method PlanUpdate(fs: FileSystem, olds: seq<Entry>, news: seq<Entry>, result: UpdateResult)
    returns (ok: bool, ghost planned: seq<Entry>)
    requires fs.Valid() && result.added == result.updated == result.same == result.deleted == 0
    modifies result`added, result`updated, result`same, result`deleted
    ensures ok ==>
      && result.added == NewCount(planned, olds) && result.updated == |planned| - NewCount(planned, olds)
      && result.same == |news| - |planned|
    ensures ok && fs.healthy ==> planned == Plan(fs.tree, news, olds)
    ensures ok ==> result.deleted <= DryCount(fs.tree, olds, news)
    ensures ok && fs.Sighted() ==> result.deleted == DryCount(fs.tree, olds, news)
    ensures NewFit(news) && ObsoleteFit(olds, news) ==> ok
  {
    hide FileSystem.Valid, Plan, DryCount, ObsoleteFit, NewCount;
    ok, planned := PlanPass(fs, news, olds, result);
    if ok {
      ok := CountObsolete(fs, olds, news, result);
    }
  }

  /**
   install_update_shell. `ready` stands for the checks on the disk and its mount; the
   first loop's plan, the files copied, the files deleted and the number of deletions
   announced are reported to the proof.
   */
  method RunUpdate(fs: FileSystem, ready: bool, dryRun: bool)
    returns (ok: bool, result: UpdateResult, olds: seq<Entry>, news: seq<Entry>,
             ghost planned: seq<Entry>, ghost copied: seq<Entry>, ghost gone: set<string>, ghost announced: nat)
    requires fs.Valid()
    modifies fs
    ensures fs.Valid()
    ensures dryRun ==> fs.tree - {DRYRUN_MANIFEST} == old(fs.tree) - {DRYRUN_MANIFEST}
    ensures ok ==> olds == [] || OldEntries(old(fs.tree), olds)
    ensures ok && fs.Sighted() ==> OldEntries(old(fs.tree), olds)
    ensures ok && CleanTracked(old(fs.tree)) ==> NewEntries(old(fs.tree), news)
    ensures ok && CleanTracked(old(fs.tree)) && fs.Sighted() ==> AllEntries(old(fs.tree), news)
    ensures ok ==>
      && result.added == NewCount(planned, olds) && result.updated == |planned| - NewCount(planned, olds)
      && result.same == |news| - |planned|
    ensures ok && CleanTracked(old(fs.tree)) && fs.healthy ==> planned == Plan(old(fs.tree), news, olds)
    ensures ok ==> announced <= DryCount(old(fs.tree), olds, news)
    ensures ok && fs.Sighted() ==> announced == DryCount(old(fs.tree), olds, news)
    ensures ok && dryRun ==> result.deleted == announced
    ensures (forall e :: e in copied ==> e in news) && gone <= ObsoletePlaces(olds, news)
    ensures ok && !dryRun ==> FilesKept(old(fs.tree), fs.tree, Touched(copied, gone))
    ensures ok && !dryRun ==> result.copied.items == |copied| + 2 && result.deleted == |gone|
    ensures ok && !dryRun ==> IsDir(old(fs.tree), DATABASES)
    ensures ok && !dryRun && fs.healthy ==> MetadataPresent(old(fs.tree))
    ensures ok && !dryRun && fs.healthy ==> forall p :: p in LEFTOVERS ==> !IsFile(fs.tree, p)
    ensures ok && !dryRun && CleanTracked(old(fs.tree)) ==>
      Targets(news) !! gone && forall e :: e in news ==> Matches(fs.tree, e)
    ensures ok && !dryRun && CleanTracked(old(fs.tree)) && fs.Sighted() ==>
      && NewApart(olds, news) && gone == Removed(old(fs.tree), olds, news)
      && Updated(old(fs.tree), fs.tree, olds, news, copied, gone)
    ensures ok && !dryRun && CleanTracked(old(fs.tree)) && fs.Sighted() ==>
      (result.deleted == announced <==>
      Repeats(old(fs.tree), olds, news) == |StateRemoved(old(fs.tree), olds, news)|)
    ensures ok && !dryRun && CleanTracked(old(fs.tree)) && fs.Sighted() ==>
      IsFile(old(fs.tree), MANIFEST_TARGET) && MANIFEST_PREV !in gone ==>
      MANIFEST_PREV in fs.tree && fs.tree[MANIFEST_PREV] == old(fs.tree)[MANIFEST_TARGET]
    ensures ok && !dryRun && CleanTracked(old(fs.tree)) && fs.healthy ==>
      copied == planned && result.copied.items == result.added + result.updated + 2
    ensures fs.healthy && ready && CanUpdate(old(fs.tree)) ==> ok
  {
    hide FileSystem.Valid, FilesKept, Tracked, Plan, Touched, Updated, CleanTracked, OldEntries, NewEntries, AllEntries;
    hide DryCount, NoDuplicateDeletable, ObsoleteTargets, Matches, MetadataPresent, CanUpdate, CanApply, CanRead;
    hide ObsoleteFit, WellFormed, IsDir, IsFile, DRYRUN_MANIFEST, NewFit, NewCount, ObsoletePlaces, Removed, Repeats;
    hide StateRemoved, NewApart, LEFTOVERS, MANIFEST_TARGET, MANIFEST_PREV, Targets, DATABASES;
    ghost var t0 := fs.tree;
    ghost var live := fs.healthy && ready && CanUpdate(t0);
    ValidTree(fs);
    UpdateReads(t0);
    result := new UpdateResult();
    olds, news, planned, copied, gone, announced := [], [], [], [], {}, 0;
    ok := ready;
    if !ok {
      return;
    }
    ok, olds, news := ReadManifests(fs);
    ghost var t1 := fs.tree;
    DryRunWritten(t0, t1, olds, news);
    if !ok {
      return;
    }
    if Tracked(news) {
      TrackedIsPlain(news);
      DryRunIsFixed();
      PlanThrough(t0, t1, news, olds, {DRYRUN_MANIFEST});
    }
    if live {
      ReadyToApply(t0, t1, olds, news);
    }
    if CleanTracked(t0) {
      NewPathsFit(t0, news);
    }
    ok, planned := PlanUpdate(fs, olds, news, result);
    announced := result.deleted;
    if !ok || dryRun {
      return;
    }
    ok, copied, gone := Apply(fs, olds, news, result);
    if !ok {
      return;
    }
    AnnouncedExactly(t0, olds, news);
    TouchedFromStart(t0, t1, fs.tree, copied, gone);
    RoomFromStart(t0, t1);
    ManifestFromStart(t0, t1);
    if CleanTracked(t0) && fs.Sighted() {
      UpdatedFromStart(t0, t1, fs.tree, olds, news, copied, gone);
    }
  }

  lemma DryRunIsFixed()
    ensures {DRYRUN_MANIFEST} <= FIXED_FILES
  {
  }

  lemma ManifestFromStart(t0: Tree, t1: Tree)
    requires t1 - {DRYRUN_MANIFEST} == t0 - {DRYRUN_MANIFEST}
    ensures IsFile(t0, MANIFEST_TARGET) <==> IsFile(t1, MANIFEST_TARGET)
    ensures IsFile(t0, MANIFEST_TARGET) ==> t0[MANIFEST_TARGET] == t1[MANIFEST_TARGET]
  {
    DryRunNotTracked();
    SameButFor(t0, t1, {DRYRUN_MANIFEST}, MANIFEST_TARGET);
  }

  lemma UpdateReads(t: Tree)
    ensures CanUpdate(t) ==> CanRead(t) && CleanTracked(t)
  {
    hide CleanTracked;
  }

  lemma NewPathsFit(t: Tree, news: seq<Entry>)
    requires NewEntries(t, news)
    ensures NewFit(news)
  {
    hide ManifestIncluded, Distinct, FileHash;
    forall e | e in news
      ensures e.path != "" && e.path[0] == '/' && |e.path| < PATH_MAX
    {
      assert e.path in PathSet(news);
    }
  }

  lemma RoomFromStart(t0: Tree, t1: Tree)
    requires t1 - {DRYRUN_MANIFEST} == t0 - {DRYRUN_MANIFEST}
    ensures IsDir(t1, DATABASES) ==> IsDir(t0, DATABASES)
    ensures MetadataPresent(t1) <==> MetadataPresent(t0)
  {
    assert DRYRUN_MANIFEST[1] == 't' && OS_VERSION[1] == 'e' && OS_RELEASE[1] == 'e';
    assert DATABASES[6] == 'd' && DRYRUN_MANIFEST[6] == 'i';
    forall p | p != DRYRUN_MANIFEST
      ensures p in t1 <==> p in t0
      ensures p in t1 ==> t1[p] == t0[p]
    {
      assert p in t1 <==> p in t1 - {DRYRUN_MANIFEST};
      assert p in t0 <==> p in t0 - {DRYRUN_MANIFEST};
    }
  }

  /** Writing the dry-run manifest changes nothing that the plan depends on. */
  lemma DryRunWritten(t0: Tree, t1: Tree, olds: seq<Entry>, news: seq<Entry>)
    requires t1 - {DRYRUN_MANIFEST} == t0 - {DRYRUN_MANIFEST}
    ensures FilesKept(t0, t1, {DRYRUN_MANIFEST})
    ensures DryCount(t0, olds, news) == DryCount(t1, olds, news)
    ensures Removed(t0, olds, news) == Removed(t1, olds, news)
  {
    hide FilesKept, UpdateIncluded, Place, Lookup;
    KeptOutside(t0, t1, {DRYRUN_MANIFEST});
    ManifestFromStart(t0, t1);
    forall o | o in olds && Obsolete(o, news)
      ensures IsFile(t0, Place(o.path)) <==> IsFile(t1, Place(o.path))
    {
      UpdatePlace(o.path);
      SameButFor(t0, t1, {DRYRUN_MANIFEST}, Place(o.path));
    }
    DryCountSame(t0, t1, olds, news);
  }

  lemma {:induction false} DryCountSame(t0: Tree, t1: Tree, olds: seq<Entry>, news: seq<Entry>)
    requires forall o :: o in olds ==> (Deletable(t0, o, news) <==> Deletable(t1, o, news))
    ensures DryCount(t0, olds, news) == DryCount(t1, olds, news)
  {
    hide Deletable;
    if olds != [] {
      DryCountSame(t0, t1, olds[..|olds| - 1], news);
    }
  }

  lemma TouchedFromStart(t0: Tree, t1: Tree, t2: Tree, copied: seq<Entry>, gone: set<string>)
    requires t1 - {DRYRUN_MANIFEST} == t0 - {DRYRUN_MANIFEST}
    requires FilesKept(t1, t2, Touched(copied, gone))
    ensures FilesKept(t0, t2, Touched(copied, gone))
  {
    hide FilesKept, Targets;
    KeptOutside(t0, t1, {DRYRUN_MANIFEST});
    KeptMore(t0, t1, {DRYRUN_MANIFEST}, Touched(copied, gone));
    KeptTrans(t0, t1, t2, Touched(copied, gone));
  }

  lemma UpdatedFromStart(t0: Tree, t1: Tree, t2: Tree, olds: seq<Entry>, news: seq<Entry>,
                         copied: seq<Entry>, gone: set<string>)
    requires t1 - {DRYRUN_MANIFEST} == t0 - {DRYRUN_MANIFEST} && Updated(t1, t2, olds, news, copied, gone)
    ensures Updated(t0, t2, olds, news, copied, gone)
  {
    hide FilesKept, Touched, ObsoletePlaces, Matches, Print, Kept, Target;
    TouchedFromStart(t0, t1, t2, copied, gone);
    AfterwardsLetters();
    SameButFor(t0, t1, {DRYRUN_MANIFEST}, OS_VERSION);
    SameButFor(t0, t1, {DRYRUN_MANIFEST}, OS_RELEASE);
  }
}
