/** What the update does after its plan: copies, metadata, deletions, the refreshed manifest and the clean-up. */
module UpdateApply {
  import opened Options
  import opened Paths
  import opened FileSystem
  import opened InstallFiles
  import opened TreeWalk
  import opened ManifestText
  import opened ManifestFile
  import opened UpdatePaths
  import opened UpdatePasses
  import opened UpdateObsolete
  import opened UpdateFiles
  import opened UpdateRefresh
  import opened UpdateConditions

  // ----- what a completed update has done

  /** The regular files written up to the deletions. */
  ghost function Before(copied: seq<Entry>): set<string> {
    Targets(copied) + STATE_FILES + METADATA_FILES
  }

  /** Every regular file that an update writes or removes: `copied` were copied, `gone` deleted. */
  ghost function Touched(copied: seq<Entry>, gone: set<string>): set<string> {
    Targets(copied) + gone + FIXED_FILES
  }

  ghost predicate MetadataSynced(t0: Tree, t1: Tree) {
    && (IsFile(t0, OS_VERSION) ==> Target(OS_VERSION) in t1 && t1[Target(OS_VERSION)] == t0[OS_VERSION])
    && (IsFile(t0, OS_RELEASE) ==> Target(OS_RELEASE) in t1 && t1[Target(OS_RELEASE)] == t0[OS_RELEASE])
  }

  /**
   t1 is t0 after a successful update: every new entry's file is in place, no obsolete
   file is left but for the manifest itself, every other regular file is as it was, the
   metadata is that of the running system, and the manifest lists the retained old entries
   and all new ones.
   */
  ghost predicate Updated(t0: Tree, t1: Tree, olds: seq<Entry>, news: seq<Entry>,
                          copied: seq<Entry>, gone: set<string>) {
    && (forall e :: e in news ==> Matches(t1, e))
    && (forall q :: q in ObsoletePlaces(olds, news) && q != MANIFEST_TARGET ==> !IsFile(t1, q))
    && FilesKept(t0, t1, Touched(copied, gone))
    && MetadataSynced(t0, t1)
    && MANIFEST_TARGET in t1 && t1[MANIFEST_TARGET] == Regular(Print(Kept(t1, olds) + news))
    && |Print(Kept(t1, olds) + news)| <= MANIFEST_MAX_BYTES
  }

  // ----- new entries

  /** A new entry's file survives any step that only writes fixed files. */
  lemma MatchesThrough(t0: Tree, t1: Tree, news: seq<Entry>, s: set<string>)
    requires FilesKept(t0, t1, s) && Tracked(news) && s <= FIXED_FILES
    requires forall e :: e in news ==> Matches(t0, e)
    ensures forall e :: e in news ==> Matches(t1, e)
  {
    hide Matches, FilesKept, Place, AllPlain, Distinct, ManifestIncluded, Real;
    forall e | e in news
      ensures Matches(t1, e)
    {
      EntryPlace(news, e);
      MatchesKept(t0, t1, s, e);
    }
  }

  lemma PlacedThrough(t2: Tree, t3: Tree, news: seq<Entry>)
    requires FilesKept(t2, t3, METADATA_FILES) && Tracked(news) && forall e :: e in news ==> Matches(t2, e)
    ensures InPlace(t3, news)
  {
    hide FilesKept, Matches, Tracked;
    MatchesThrough(t2, t3, news, METADATA_FILES);
  }

  /** Writing other files than targets does not change the plan. */
  lemma {:induction false} PlanThrough(t0: Tree, t1: Tree, news: seq<Entry>, olds: seq<Entry>, s: set<string>)
    requires FilesKept(t0, t1, s) && AllPlain(news) && s <= FIXED_FILES
    ensures Plan(t0, news, olds) == Plan(t1, news, olds)
  {
    hide Matches, FilesKept, Place, UpdateIncluded, ManifestIncluded, Real;
    if news != [] {
      var n := |news| - 1;
      PlanThrough(t0, t1, news[..n], olds, s);
      EntryPlace(news, news[n]);
      MatchesKept(t0, t1, s, news[n]);
    }
  }

  // ----- all writes up to the deletions

  /** The state files are there when the deletions begin. */
  ghost predicate StateThere(t: Tree) {
    IsFile(t, UPDATE_STATE) && IsFile(t, MANIFEST_NEW)
  }

  /** The second loop, the metadata and the state files: all writes up to the deletions. */
  method WriteAll(fs: FileSystem, olds: seq<Entry>, news: seq<Entry>, result: UpdateResult)
    returns (ok: bool, ghost copied: seq<Entry>)
    requires fs.Valid() && result.verifyFailed == 0
    modifies fs, result`verifyFailed, result.copied
    ensures fs.Valid() && FilesKept(old(fs.tree), fs.tree, Before(copied)) && forall e :: e in copied ==> e in news
    ensures ok && fs.Sighted() ==> MetadataCopied(fs.tree)
    ensures ok ==> IsDir(old(fs.tree), DATABASES)
    ensures ok && fs.healthy ==> MetadataPresent(old(fs.tree))
    ensures ok ==> result.copied.items == old(result.copied.items) + |copied| + 2
    ensures Tracked(news) && ok && fs.healthy ==> copied == Plan(old(fs.tree), news, olds)
    ensures Tracked(news) && ok && result.verifyFailed == 0 ==> InPlace(fs.tree, news)
    ensures Tracked(news) && ok ==> StateThere(fs.tree)
    ensures Tracked(news) && ok && fs.Sighted() ==> PreviousKept(old(fs.tree), fs.tree)
    ensures fs.healthy && Tracked(news) && CanWrite(old(fs.tree), news) ==>
      && ok && result.verifyFailed == 0
      && (Writable(old(fs.tree), DATABASES, MANIFEST_TARGET) ==> Writable(fs.tree, DATABASES, MANIFEST_TARGET))
  {
    hide FileSystem.Valid, FilesKept, Targets, MetadataCopied, MetadataPresent, MetadataWritable, StateWritable;
    hide Matches, Tracked, Plan, CanWrite, AllCopying, SourcesApart, Writable, CopiedAll, WellFormed, Before, InPlace;
    hide StateWritten, PreviousKept, StateThere;
    ghost var t0 := fs.tree;
    ghost var live := fs.healthy && Tracked(news) && CanWrite(t0, news);
    ValidTree(fs);
    WritableParts(t0, news);
    copied := [];
    BeforeHolds(copied);
    ok := WriteStateFiles(fs);
    ghost var t1 := fs.tree;
    KeptMore(t0, t1, STATE_FILES, Before(copied));
    if !ok {
      return;
    }
    if Tracked(news) {
      TrackedIsPlain(news);
      PlanThrough(t0, t1, news, olds, STATE_FILES);
    }
    if live {
      ReadyAfterState(t0, t1, news);
    }
    ValidTree(fs);
    ok, copied := CopyPass(fs, news, olds, result);
    ghost var t2 := fs.tree;
    if live {
      ReadyAfterCopies(t1, t2, news, copied);
    }
    BeforeHolds(copied);
    KeptMore(t0, t1, STATE_FILES, Before(copied));
    KeptMore(t1, t2, Targets(copied), Before(copied));
    KeptTrans(t0, t1, t2, Before(copied));
    if !ok {
      return;
    }
    MetadataStays(t0, t2, copied);
    ok := SyncMetadata(fs, result.copied);
    KeptMore(t2, fs.tree, METADATA_FILES, Before(copied));
    KeptTrans(t0, t2, fs.tree, Before(copied));
    if Writable(t2, DATABASES, MANIFEST_TARGET) {
      ManifestAfterMetadata(t2, fs.tree);
    }
    if Tracked(news) && ok {
      StateStays(t0, t1, t2, fs.tree, news, copied);
      if result.verifyFailed == 0 {
        PlacedThrough(t2, fs.tree, news);
      }
    }
  }

  lemma TrackedIsPlain(news: seq<Entry>)
    requires Tracked(news)
    ensures AllPlain(news)
  {
  }

  lemma WritableParts(t: Tree, news: seq<Entry>)
    ensures CanWrite(t, news) ==> StateWritable(t) && MetadataPresent(t)
    ensures Writable(t, DATABASES, UPDATE_STATE) ==> IsDir(t, DATABASES)
  {
    hide StateWritable, MetadataPresent;
  }

  lemma BeforeHolds(copied: seq<Entry>)
    ensures STATE_FILES <= Before(copied) && Targets(copied) <= Before(copied) && METADATA_FILES <= Before(copied)
  {
    hide Targets;
  }

  /** Whatever the manifests say, copies and deletions stay in the directory of the mount point. */
  lemma PlaceInTemp(p: string)
    ensures Place(p) == "" || Under(Place(p), "/temp")
    ensures Place(p) != OS_VERSION && Place(p) != OS_RELEASE
  {
    hide Real, DirPath;
    DirsPlain();
    MountInTemp(p);
    if Place(p) != "" {
      RealBelow(Target(p), "/temp");
    }
    assert OS_VERSION[1] == 'e' && OS_RELEASE[1] == 'e' && |OS_VERSION| > 0 && |OS_RELEASE| > 0;
  }

  lemma MountInTemp(p: string)
    ensures Under(Target(p), "/temp")
  {
    assert Target(p)[..5] == "/temp";
  }

  /** Nothing written before the metadata is synced touches the running system's. */
  lemma MetadataStays(t0: Tree, t2: Tree, copied: seq<Entry>)
    requires FilesKept(t0, t2, Before(copied))
    ensures MetadataPresent(t2) <==> MetadataPresent(t0)
  {
    hide Place, Before;
    SourcesNotWritten(copied);
  }

  lemma SourcesNotWritten(copied: seq<Entry>)
    ensures OS_VERSION !in Before(copied) && OS_RELEASE !in Before(copied)
  {
    hide Place, Target;
    forall e | e in copied
      ensures Place(e.path) != OS_VERSION && Place(e.path) != OS_RELEASE
    {
      PlaceInTemp(e.path);
    }
    MetadataDiffers();
    StateShapes();
    EtcSources();
  }

  lemma EtcSources()
    ensures OS_VERSION[1] == 'e' && OS_RELEASE[1] == 'e'
  {
  }

  /** Neither the copies nor the metadata touch the state files. */
  lemma StateStays(t0: Tree, t1: Tree, t2: Tree, t3: Tree, news: seq<Entry>, copied: seq<Entry>)
    requires Tracked(news) && forall e :: e in copied ==> e in news
    requires StateWritten(t0, t1) && FilesKept(t1, t2, Targets(copied)) && FilesKept(t2, t3, METADATA_FILES)
    ensures StateThere(t3) && (PreviousKept(t0, t1) ==> PreviousKept(t0, t3))
  {
    hide Place, Real, Distinct, UpdateIncluded, ManifestIncluded, Target;
    forall e | e in copied
      ensures Place(e.path) !in FIXED_FILES
    {
      EntryPlace(news, e);
    }
    assert Targets(copied) !! STATE_FILES;
    OthersNotState();
  }

  // ----- deletions

  /** Nothing the update deletes is metadata. */
  lemma GonePlaces(olds: seq<Entry>, news: seq<Entry>)
    ensures ObsoletePlaces(olds, news) !! METADATA_FILES + {DRYRUN_MANIFEST, OS_VERSION, OS_RELEASE}
  {
    hide Place, UpdateIncluded;
    forall o | o in olds && Obsolete(o, news)
      ensures Place(o.path) !in METADATA_FILES + {DRYRUN_MANIFEST, OS_VERSION, OS_RELEASE}
    {
      UpdatePlace(o.path);
      PlaceInTemp(o.path);
    }
  }

  /** What is found when the deletions begin is what was there at first and the state files. */
  lemma FoundThen(t0: Tree, t3: Tree, copied: seq<Entry>, q: string)
    requires FilesKept(t0, t3, Before(copied)) && StateThere(t3) && PreviousKept(t0, t3)
    requires q !in Targets(copied) && q !in METADATA_FILES
    ensures IsFile(t3, q) <==> FileThen(t0, q)
  {
    hide Targets, Target;
  }

  lemma RemovedIs(t0: Tree, t3: Tree, olds: seq<Entry>, news: seq<Entry>, copied: seq<Entry>)
    requires FilesKept(t0, t3, Before(copied)) && StateThere(t3) && PreviousKept(t0, t3)
    requires NewApart(olds, news) && forall e :: e in copied ==> e in news
    ensures ObsoleteTargets(t3, olds, news) == Removed(t0, olds, news)
  {
    hide Place, Obsolete, FileThen, FilesKept, StateThere, PreviousKept, Before, IsFile;
    GonePlaces(olds, news);
    forall o | o in olds && Obsolete(o, news)
      ensures IsFile(t3, Place(o.path)) <==> FileThen(t0, Place(o.path))
    {
      assert Place(o.path) in ObsoletePlaces(olds, news);
      assert Targets(copied) <= Targets(news);
      FoundThen(t0, t3, copied, Place(o.path));
    }
  }

  /** If all new files are still there when the manifest is refreshed, no deletion has undone a copy. */
  lemma NewStillThere(t3: Tree, news: seq<Entry>, gone: set<string>)
    requires InPlace(t3, news)
    requires forall e :: e in news && Place(e.path) != MANIFEST_TARGET ==> IsFile(t3 - gone, Place(e.path))
    ensures Targets(news) !! gone && InPlace(t3 - gone, news)
  {
    hide Matches, Place, Distinct, UpdateIncluded, ManifestIncluded, Real, Target;
    forall e | e in news
      ensures Place(e.path) !in gone
    {
      EntryPlace(news, e);
    }
    KeptInPlace(t3, news, gone);
  }

  lemma KeptInPlace(t3: Tree, news: seq<Entry>, gone: set<string>)
    requires InPlace(t3, news) && Targets(news) !! gone
    ensures InPlace(t3 - gone, news)
  {
    hide Matches, Place, Tracked, FilesKept;
    KeptOutside(t3, t3 - gone, gone);
    forall e | e in news
      ensures Matches(t3 - gone, e)
    {
      assert Place(e.path) in Targets(news);
      MatchesKept(t3, t3 - gone, gone, e);
    }
  }

  /** No obsolete entry can be a new one in another spelling if the copies survive. */
  lemma ApartAfterwards(t3: Tree, olds: seq<Entry>, news: seq<Entry>)
    requires InPlace(t3, news) && Targets(news) !! ObsoleteTargets(t3, olds, news)
    ensures NewApart(olds, news)
  {
    hide Place, Obsolete, Tracked, FileHash, Target;
    forall o, e | o in olds && Obsolete(o, news) && e in news
      ensures Place(o.path) != Place(e.path)
    {
      assert Place(e.path) in Targets(news) && IsFile(t3, Place(e.path));
    }
  }

  // ----- the retained entries

  /** A retained path is no new one in another spelling. */
  lemma RetainedNotNew(p: string, q: string)
    requires !UpdateIncluded(p) && ManifestIncluded(p) && UpdateIncluded(q) && Plain(q)
    ensures Place(p) != Place(q)
  {
    hide Real, DirPath, Place, Target;
    TopPlain();
    UpdateIsTracked(q);
    TrackedPlace(q);
    TargetShape(q);
    if Under(p, "/EFI") || Under(p, "/boot") || Under(p, "/efi") {
      BootPlace(p);
      if Place(p) == Place(q) {
        TargetInjective(Real(p), q);
        NotBoth(q);
      }
    } else {
      InstallerIsPlain();
      PlainPlace(p);
      TargetsDiffer(p, q);
    }
  }

  lemma BootPlace(p: string)
    requires ManifestIncluded(p) && (Under(p, "/EFI") || Under(p, "/boot") || Under(p, "/efi"))
    ensures Place(p) == "" ||
      (Place(p) == Target(Real(p)) && (Under(Real(p), "/EFI") || Under(Real(p), "/boot") || Under(Real(p), "/efi")))
  {
    hide Real, DirPath, Place, Target;
    TopPlain();
    if Under(p, "/EFI") {
      PlaceBelow(p, "/EFI");
    } else if Under(p, "/boot") {
      PlaceBelow(p, "/boot");
    } else {
      PlaceBelow(p, "/efi");
    }
  }

  lemma NotBoth(p: string)
    requires UpdateIncluded(p)
    ensures !Under(p, "/EFI") && !Under(p, "/boot") && !Under(p, "/efi")
  {
  }

  lemma InstallerIsPlain()
    ensures Plain("/shell/apps/install2disk.elf")
  {
    hide Real, DirPath;
    TopPlain();
    InstallerJoins();
    JoinPlain("/shell", "apps");
    JoinPlain("/shell/apps", "install2disk.elf");
  }

  lemma InstallerJoins()
    ensures ValidName("apps") && ValidName("install2disk.elf")
    ensures Join("/shell", "apps") == "/shell/apps"
    ensures Join("/shell/apps", "install2disk.elf") == "/shell/apps/install2disk.elf"
  {
  }

  /** An entry that is retained in the end was there at first, as it is. */
  lemma RetainedBefore(t0: Tree, t3: Tree, copied: seq<Entry>, gone: set<string>, o: Entry)
    requires FilesKept(t0, t3, Before(copied)) && AllPlain(copied) && Retained(t3 - gone, o)
    ensures Retained(t0, o) && SameAt(t0, t3 - gone, Place(o.path))
  {
    hide Place, UpdateIncluded, ManifestIncluded, Real, Target;
    RetainedPlace(o.path);
    forall e | e in copied
      ensures Place(e.path) != Place(o.path)
    {
      RetainedNotNew(o.path, e.path);
    }
    assert Place(o.path) !in Before(copied);
  }

  lemma {:induction false} KeptFewer(t0: Tree, t4: Tree, olds: seq<Entry>)
    requires forall o :: o in olds && Retained(t4, o) ==> Retained(t0, o) && SameAt(t0, t4, Place(o.path))
    ensures |Print(Kept(t4, olds))| <= |Print(Kept(t0, olds))|
  {
    hide Print, Line, Place, FileHash, UpdateIncluded, ManifestIncluded;
    if olds != [] {
      var n := |olds| - 1;
      var o := olds[n];
      KeptFewer(t0, t4, olds[..n]);
      assert Kept(t0, olds[..n]) + [] == Kept(t0, olds[..n]) && Kept(t4, olds[..n]) + [] == Kept(t4, olds[..n]);
      if Retained(t0, o) {
        PrintNext(Kept(t0, olds[..n]), TrueEntry(t0, Place(o.path), o.path));
      }
      if Retained(t4, o) {
        PrintNext(Kept(t4, olds[..n]), TrueEntry(t4, Place(o.path), o.path));
      }
    }
  }

  /** Neither the copies nor the deletions are in the refreshed manifest's way. */
  lemma RefreshStill(t0: Tree, t3: Tree, olds: seq<Entry>, news: seq<Entry>, copied: seq<Entry>, gone: set<string>)
    requires FilesKept(t0, t3, Before(copied)) && AllPlain(copied) && gone <= ObsoleteTargets(t3, olds, news)
    ensures Writable(t3, DATABASES, MANIFEST_TARGET) && CanRefresh(t0, olds, news) ==>
      CanRefresh(t3 - gone, olds, news)
  {
    hide FilesKept, Before, Print, Kept, RefreshFit, AllPlain, Retained, Place;
    var t4 := t3 - gone;
    GoneAreFiles(t3, olds, news, gone);
    forall o | o in olds && Retained(t4, o)
      ensures Retained(t0, o) && SameAt(t0, t4, Place(o.path))
    {
      RetainedBefore(t0, t3, copied, gone, o);
    }
    KeptFewer(t0, t4, olds);
    PrintAppend(Kept(t0, olds), news);
    PrintAppend(Kept(t4, olds), news);
    if Writable(t3, DATABASES, MANIFEST_TARGET) {
      RefreshAfterDelete(t3, gone);
    }
  }

  lemma GoneAreFiles(t: Tree, olds: seq<Entry>, news: seq<Entry>, gone: set<string>)
    requires gone <= ObsoleteTargets(t, olds, news)
    ensures forall p :: p in gone ==> IsFile(t, p)
  {
    hide Place, Obsolete;
  }

  // ----- afterwards

  const AFTERWARDS := LEFTOVERS + {MANIFEST_TARGET}

  lemma AfterwardsIsFixed()
    ensures AFTERWARDS <= FIXED_FILES && MANIFEST_PREV !in AFTERWARDS && AFTERWARDS !! METADATA_FILES
    ensures OS_VERSION !in AFTERWARDS && OS_RELEASE !in AFTERWARDS
  {
    hide Target;
    StatePathsDiffer();
    StateFilesDiffer();
    OthersNotState();
    NotMetadata();
    AfterwardsLetters();
  }

  lemma AfterwardsLetters()
    ensures DRYRUN_MANIFEST !in METADATA_FILES && DRYRUN_MANIFEST[1] == 't'
    ensures OS_VERSION[1] == 'e' && OS_RELEASE[1] == 'e'
    ensures MANIFEST_TARGET[1] == 't' && UPDATE_STATE[1] == 't' && MANIFEST_NEW[1] == 't'
  {
    NotOverlapping(OS_VERSION);
    NotOverlapping(OS_RELEASE);
  }

  /** The manifest is refreshed and the leftovers are removed: everything else is kept, and nothing appears. */
  lemma KeptToEnd(t4: Tree, t5: Tree, t6: Tree)
    requires t4 - {MANIFEST_TARGET} == t5 - {MANIFEST_TARGET} && OnlyRemoved(t5, t6, LEFTOVERS)
    ensures FilesKept(t4, t6, AFTERWARDS)
    ensures forall q :: IsFile(t6, q) && q != MANIFEST_TARGET ==> IsFile(t4, q)
  {
    hide FilesKept;
    KeptOutside(t4, t5, {MANIFEST_TARGET});
    KeptMore(t4, t5, {MANIFEST_TARGET}, AFTERWARDS);
    KeptOutside(t5, t6, LEFTOVERS);
    KeptMore(t5, t6, LEFTOVERS, AFTERWARDS);
    KeptTrans(t4, t5, t6, AFTERWARDS);
    forall q | IsFile(t6, q) && q != MANIFEST_TARGET
      ensures IsFile(t4, q)
    {
      SubsetSame(t5, t6, q);
      FileElsewhere(t5, t4, MANIFEST_TARGET, q);
    }
  }

  lemma SubsetSame(t5: Tree, t6: Tree, q: string)
    requires OnlyRemoved(t5, t6, LEFTOVERS) && IsFile(t6, q)
    ensures IsFile(t5, q)
  {
  }

  lemma ManifestStays(t5: Tree, t6: Tree)
    requires OnlyRemoved(t5, t6, LEFTOVERS) && IsFile(t5, MANIFEST_TARGET)
    ensures MANIFEST_TARGET in t6 && t6[MANIFEST_TARGET] == t5[MANIFEST_TARGET]
  {
    StatePathsDiffer();
    StateTargets();
    NotOverlapping("/system/databases/install_manifest.db");
    assert MANIFEST_TARGET in t5 - LEFTOVERS;
  }

  lemma KeptAtEnd(t0: Tree, t3: Tree, t4: Tree, t6: Tree, copied: seq<Entry>, gone: set<string>)
    requires FilesKept(t0, t3, Before(copied)) && t4 == t3 - gone && FilesKept(t4, t6, AFTERWARDS)
    ensures FilesKept(t0, t6, Touched(copied, gone))
  {
    hide FilesKept, Targets;
    var w := Touched(copied, gone);
    AfterwardsIsFixed();
    KeptMore(t0, t3, Before(copied), w);
    KeptOutside(t3, t4, gone);
    KeptMore(t3, t4, gone, w);
    KeptMore(t4, t6, AFTERWARDS, w);
    KeptTrans(t0, t3, t4, w);
    KeptTrans(t0, t4, t6, w);
  }

  lemma RetainedAtEnd(t4: Tree, t6: Tree, olds: seq<Entry>)
    requires FilesKept(t4, t6, AFTERWARDS)
    ensures Kept(t4, olds) == Kept(t6, olds)
  {
    hide Place, ManifestIncluded, UpdateIncluded, FilesKept;
    AfterwardsIsFixed();
    forall o | o in olds && !UpdateIncluded(o.path) && ManifestIncluded(o.path)
      ensures Place(o.path) !in AFTERWARDS
    {
      RetainedPlace(o.path);
    }
    KeptSame(t4, t6, AFTERWARDS, olds);
  }

  lemma MetadataAtEnd(t0: Tree, t3: Tree, t4: Tree, t6: Tree, olds: seq<Entry>, news: seq<Entry>,
                      copied: seq<Entry>, gone: set<string>)
    requires FilesKept(t0, t3, Before(copied)) && MetadataCopied(t3)
    requires t4 == t3 - gone && gone <= ObsoletePlaces(olds, news) && FilesKept(t4, t6, AFTERWARDS)
    ensures MetadataSynced(t0, t6)
  {
    hide Target, UpdateIncluded, Before, ObsoletePlaces, AFTERWARDS;
    SourcesNotWritten(copied);
    GonePlaces(olds, news);
    AfterwardsIsFixed();
  }

  /** No obsolete file is left but for the manifest itself. */
  lemma ObsoleteAtEnd(t3: Tree, t6: Tree, olds: seq<Entry>, news: seq<Entry>)
    requires forall q :: IsFile(t6, q) && q != MANIFEST_TARGET ==> IsFile(t3 - ObsoleteTargets(t3, olds, news), q)
    ensures forall q :: q in ObsoletePlaces(olds, news) && q != MANIFEST_TARGET ==> !IsFile(t6, q)
  {
    hide Place, Obsolete;
    var s := ObsoleteTargets(t3, olds, news);
    forall q | q in ObsoletePlaces(olds, news) && q != MANIFEST_TARGET
      ensures !IsFile(t6, q)
    {
      var o :| o in olds && Obsolete(o, news) && Place(o.path) == q;
      if IsFile(t3, q) {
        assert Deletable(t3, o, news);
        assert q in s;
      }
    }
  }

  lemma Finished(t0: Tree, t3: Tree, t4: Tree, t5: Tree, t6: Tree, olds: seq<Entry>, news: seq<Entry>,
                 copied: seq<Entry>)
    requires FilesKept(t0, t3, Before(copied)) && MetadataCopied(t3)
    requires t4 == t3 - ObsoleteTargets(t3, olds, news) && InPlace(t4, news)
    requires t5 == t4[MANIFEST_TARGET := Regular(Print(Kept(t4, olds) + news))] && OnlyRemoved(t5, t6, LEFTOVERS)
    requires |Print(Kept(t4, olds) + news)| <= MANIFEST_MAX_BYTES
    ensures Updated(t0, t6, olds, news, copied, ObsoleteTargets(t3, olds, news))
  {
    hide FilesKept, MetadataCopied, Matches, Tracked, ObsoleteTargets, Kept, Before, Touched, MetadataSynced, Print;
    hide Obsolete, ObsoletePlaces, OnlyRemoved, AFTERWARDS, LEFTOVERS, FIXED_FILES;
    var gone := ObsoleteTargets(t3, olds, news);
    KeptToEnd(t4, t5, t6);
    AfterwardsIsFixed();
    MatchesThrough(t4, t6, news, AFTERWARDS);
    ObsoleteAtEnd(t3, t6, olds, news);
    KeptAtEnd(t0, t3, t4, t6, copied, gone);
    RemovedAreObsolete(t3, olds, news);
    MetadataAtEnd(t0, t3, t4, t6, olds, news, copied, gone);
    RetainedAtEnd(t4, t6, olds);
    ManifestStays(t5, t6);
  }

  /** The copy of the old manifest that lies beside the new one in the end. */
  lemma PreviousAtEnd(t0: Tree, t3: Tree, t4: Tree, t6: Tree, gone: set<string>)
    requires PreviousKept(t0, t3) && t4 == t3 - gone && FilesKept(t4, t6, AFTERWARDS)
    ensures IsFile(t0, MANIFEST_TARGET) && MANIFEST_PREV !in gone ==>
      MANIFEST_PREV in t6 && t6[MANIFEST_PREV] == t0[MANIFEST_TARGET]
  {
    AfterwardsIsFixed();
  }

  /** Everything after the dry run's report. `copied` are the files copied, `gone` the files deleted. */
  method Apply(fs: FileSystem, olds: seq<Entry>, news: seq<Entry>, result: UpdateResult)
    returns (ok: bool, ghost copied: seq<Entry>, ghost gone: set<string>)
    requires fs.Valid() && result.verifyFailed == 0
    modifies fs, result`verifyFailed, result`deleted, result.copied
    ensures fs.Valid()
    ensures (forall e :: e in copied ==> e in news) && gone <= ObsoletePlaces(olds, news)
    ensures ok ==> result.deleted == |gone|
    ensures ok ==> FilesKept(old(fs.tree), fs.tree, Touched(copied, gone))
    ensures ok ==> result.copied.items == old(result.copied.items) + |copied| + 2
    ensures ok ==> IsDir(old(fs.tree), DATABASES)
    ensures ok && fs.healthy ==> MetadataPresent(old(fs.tree))
    ensures ok && fs.healthy ==> forall p :: p in LEFTOVERS ==> !IsFile(fs.tree, p)
    ensures Tracked(news) && ok && fs.healthy ==> copied == Plan(old(fs.tree), news, olds)
    ensures Tracked(news) && ok ==> Targets(news) !! gone && forall e :: e in news ==> Matches(fs.tree, e)
    ensures Tracked(news) && ok && fs.Sighted() ==>
      && NewApart(olds, news) && gone == Removed(old(fs.tree), olds, news)
      && Updated(old(fs.tree), fs.tree, olds, news, copied, gone)
    ensures Tracked(news) && ok && fs.Sighted() && IsFile(old(fs.tree), MANIFEST_TARGET) && MANIFEST_PREV !in gone ==>
      MANIFEST_PREV in fs.tree && fs.tree[MANIFEST_PREV] == old(fs.tree)[MANIFEST_TARGET]
    ensures fs.healthy && Tracked(news) && news != [] && CanApply(old(fs.tree), olds, news) ==> ok
  {
    hide FileSystem.Valid, FilesKept, MetadataCopied, Matches, Tracked, Plan, ObsoleteTargets, Kept, Before, Touched;
    hide MetadataSynced, Print, UpdateIncluded, Place, InPlace, Updated, SomeKept, MetadataPresent, CanWrite;
    hide CanRefresh, Writable, ObsoleteFit, ObsoletePlaces, Removed, OnlyRemoved, PreviousKept, StateThere, NewApart;
    hide LEFTOVERS, AFTERWARDS, IsDir, IsFile, Targets;
    ghost var t0 := fs.tree;
    RefreshParts(t0, olds, news);
    gone := {};
    ok, copied := WriteAll(fs, olds, news, result);
    if !ok {
      return;
    }
    ghost var t3 := fs.tree;
    result.deleted := 0;
    ghost var kept;
    ok, gone := DeleteObsolete(fs, olds, news, result);
    RemovedAreObsolete(t3, olds, news);
    if !ok {
      return;
    }
    ghost var t4 := fs.tree;
    if result.verifyFailed != 0 {
      CleanupState(fs);
      return false, copied, gone;
    }
    if Tracked(news) {
      ReadyToRefresh(t0, t3, olds, news, copied, gone);
    }
    ok, kept := RefreshManifest(fs, olds, news);
    if !ok {
      return;
    }
    ghost var t5 := fs.tree;
    CleanupState(fs);
    KeptToEnd(t4, t5, fs.tree);
    KeptAtEnd(t0, t3, t4, fs.tree, copied, gone);
    if Tracked(news) {
      NewStillThere(t3, news, gone);
      InPlaceAtEnd(t4, fs.tree, news);
      if fs.Sighted() {
        ApartAfterwards(t3, olds, news);
        RemovedIs(t0, t3, olds, news, copied);
        Finished(t0, t3, t4, t5, fs.tree, olds, news, copied);
        PreviousAtEnd(t0, t3, t4, fs.tree, gone);
      }
    }
  }

  lemma InPlaceAtEnd(t4: Tree, t6: Tree, news: seq<Entry>)
    requires InPlace(t4, news) && FilesKept(t4, t6, AFTERWARDS)
    ensures forall e :: e in news ==> Matches(t6, e)
  {
    hide Matches, FilesKept, Tracked;
    AfterwardsIsFixed();
    MatchesThrough(t4, t6, news, AFTERWARDS);
  }

  lemma RefreshParts(t: Tree, olds: seq<Entry>, news: seq<Entry>)
    ensures CanRefresh(t, olds, news) ==> Writable(t, DATABASES, MANIFEST_TARGET)
  {
    hide Writable;
  }

  /** When no deletion can undo a copy, the manifest can be refreshed. */
  lemma ReadyToRefresh(t0: Tree, t3: Tree, olds: seq<Entry>, news: seq<Entry>, copied: seq<Entry>, gone: set<string>)
    requires FilesKept(t0, t3, Before(copied)) && Tracked(news) && forall e :: e in copied ==> e in news
    requires gone <= ObsoleteTargets(t3, olds, news) && InPlace(t3, news)
    ensures Writable(t3, DATABASES, MANIFEST_TARGET) && CanRefresh(t0, olds, news) ==> CanRefresh(t3 - gone, olds, news)
    ensures NewApart(olds, news) ==> InPlace(t3 - gone, news)
  {
    hide FilesKept, Before, InPlace, CanRefresh, ObsoleteTargets, ObsoletePlaces, Targets, Writable, Distinct, Real;
    hide UpdateIncluded;
    RefreshStill(t0, t3, olds, news, copied, gone);
    RemovedAreObsolete(t3, olds, news);
    if NewApart(olds, news) {
      KeptInPlace(t3, news, gone);
    }
  }
}
