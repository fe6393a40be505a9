/** When the steps of an update must succeed, and that the earlier ones do not get in the way of the later ones. */
module UpdateConditions {
  import opened Options
  import opened Paths
  import opened FileSystem
  import opened InstallFiles
  import opened TreeWalk
  import opened ManifestText
  import opened ManifestFile
  import opened UpdatePaths
  import opened UpdatePasses
  import opened UpdateObsolete
  import opened UpdateFiles
  import opened UpdateRefresh

  /**
   What the update keeps for itself is no directory in the running system, where files below
   it would be tracked.
   */
  predicate SourcesApart(t: Tree) {
    && !IsDir(t, "/system/databases/install_manifest.db") && !IsDir(t, "/system/databases/install_manifest.new")
    && !IsDir(t, "/system/databases/install_manifest.prev") && !IsDir(t, "/system/databases/update_state.db")
  }

  /** Everything up to the deletions can be written. */
  ghost predicate CanWrite(t: Tree, news: seq<Entry>) {
    && StateWritable(t) && SourcesApart(t) && AllCopying(t, news)
    && MetadataPresent(t) && MetadataWritable(t)
  }

  /** No tracked file lies below something that is not a directory. */
  lemma NotBelow(t: Tree, p: string, q: string)
    requires WellFormed(t) && IsFile(t, p) && !IsDir(t, q) && p != q && DirPath(q)
    ensures !Under(p, q)
  {
    hide WellFormed, Under, DirPath;
    if Under(p, q) {
      AncestorIsDir(t, p, q);
    }
  }

  lemma StateDirPaths()
    ensures DirPath("/system/databases/install_manifest.db") && DirPath("/system/databases/install_manifest.new")
    ensures DirPath("/system/databases/install_manifest.prev") && DirPath("/system/databases/update_state.db")
  {
  }

  /** A tracked file is not below any of the update's own files. */
  lemma TrackedApart(t: Tree, p: string)
    requires WellFormed(t) && SourcesApart(t) && IsFile(t, p) && ManifestIncluded(p)
    ensures !Under(p, "/system/databases/install_manifest.db") && !Under(p, "/system/databases/install_manifest.new")
    ensures !Under(p, "/system/databases/install_manifest.prev") && !Under(p, "/system/databases/update_state.db")
  {
    hide WellFormed, Under, DirPath, ManifestIncluded;
    StateDirPaths();
    StateIsNotTracked();
    NotBelow(t, p, "/system/databases/install_manifest.db");
    NotBelow(t, p, "/system/databases/install_manifest.new");
    NotBelow(t, p, "/system/databases/install_manifest.prev");
    NotBelow(t, p, "/system/databases/update_state.db");
  }

  lemma SameButFor(t0: Tree, t1: Tree, s: set<string>, p: string)
    requires t1 - s == t0 - s && p !in s
    ensures SameAt(t0, t1, p)
  {
    assert p in t1 <==> p in t1 - s;
    assert p in t0 <==> p in t0 - s;
  }

  /** No state file is above the target of a tracked file. */
  lemma NoStateAbove(t: Tree, p: string, i: nat)
    requires WellFormed(t) && SourcesApart(t) && IsFile(t, p) && ManifestIncluded(p)
    requires i < |Target(p)| && Target(p)[i] == '/'
    ensures Target(p)[..i] !in STATE_FILES
  {
    hide WellFormed, Under, Target, ManifestIncluded, SourcesApart;
    TrackedApart(t, p);
    StateTargets();
    Above(Target(p), i);
    if Target(p)[..i] == UPDATE_STATE {
      UnderTargets(p, "/system/databases/update_state.db");
    }
    if Target(p)[..i] == MANIFEST_PREV {
      UnderTargets(p, "/system/databases/install_manifest.prev");
    }
    if Target(p)[..i] == MANIFEST_NEW {
      UnderTargets(p, "/system/databases/install_manifest.new");
    }
  }

  /** The state files are in no copy's way. */
  lemma CopyingAfterState(t0: Tree, t1: Tree, e: Entry)
    requires WellFormed(t0) && SourcesApart(t0) && t1 - STATE_FILES == t0 - STATE_FILES
    requires UpdateIncluded(e.path) && Plain(e.path) && Copying(t0, e)
    ensures Copying(t1, e)
  {
    hide WellFormed, Target, ManifestIncluded, SourcesApart, Placeable, FileHash, UpdateIncluded, Real, OnTheWay;
    var target := Target(e.path);
    UpdateIsTracked(e.path);
    TrackedPlace(e.path);
    OutsideState(e.path);
    SameButFor(t0, t1, STATE_FILES, e.path);
    SameButFor(t0, t1, STATE_FILES, target);
    forall i | 1 <= i < |target| && target[i] == '/'
      ensures SameAt(t0, t1, Real(target[..i]))
    {
      PrefixPlain(target, i);
      NoStateAbove(t0, e.path, i);
      SameButFor(t0, t1, STATE_FILES, target[..i]);
    }
  }

  lemma OutsideState(p: string)
    requires UpdateIncluded(p)
    ensures p !in STATE_FILES
  {
    hide UpdateIncluded, Target;
    StateTargets();
    OutsideMount(p, "/system/databases/install_manifest.new");
    OutsideMount(p, "/system/databases/install_manifest.prev");
    OutsideMount(p, "/system/databases/update_state.db");
  }

  lemma AllCopyingAfterState(t0: Tree, t1: Tree, news: seq<Entry>)
    requires WellFormed(t0) && SourcesApart(t0) && t1 - STATE_FILES == t0 - STATE_FILES
    requires Tracked(news) && AllCopying(t0, news)
    ensures AllCopying(t1, news)
  {
    hide WellFormed, SourcesApart, Copying, UpdateIncluded, Real;
    forall e | e in news
      ensures Copying(t1, e)
    {
      CopyingAfterState(t0, t1, e);
    }
  }

  /** The state files are in the way of nothing else. */
  lemma RoomAfterState(t0: Tree, t1: Tree)
    requires t1 - STATE_FILES == t0 - STATE_FILES
    ensures MetadataWritable(t0) ==> MetadataWritable(t1)
    ensures SourcesApart(t0) ==> SourcesApart(t1)
    ensures Writable(t0, DATABASES, MANIFEST_TARGET) ==> Writable(t1, DATABASES, MANIFEST_TARGET)
  {
    hide Target;
    OthersNotState();
    SameButFor(t0, t1, STATE_FILES, ETC);
    SameButFor(t0, t1, STATE_FILES, MOUNT);
    SameButFor(t0, t1, STATE_FILES, DATABASES);
    SameButFor(t0, t1, STATE_FILES, MANIFEST_TARGET);
    SameButFor(t0, t1, STATE_FILES, Target(OS_VERSION));
    SameButFor(t0, t1, STATE_FILES, Target(OS_RELEASE));
    SameButFor(t0, t1, STATE_FILES, "/system/databases/install_manifest.db");
    SameButFor(t0, t1, STATE_FILES, "/system/databases/install_manifest.new");
    SameButFor(t0, t1, STATE_FILES, "/system/databases/install_manifest.prev");
    SameButFor(t0, t1, STATE_FILES, "/system/databases/update_state.db");
  }

  lemma OthersNotState()
    ensures ETC !in STATE_FILES && MOUNT !in STATE_FILES && DATABASES !in STATE_FILES && MANIFEST_TARGET !in STATE_FILES
    ensures Target(OS_VERSION) !in STATE_FILES && Target(OS_RELEASE) !in STATE_FILES
    ensures "/system/databases/install_manifest.db" !in STATE_FILES
    ensures "/system/databases/install_manifest.new" !in STATE_FILES
    ensures "/system/databases/install_manifest.prev" !in STATE_FILES
    ensures "/system/databases/update_state.db" !in STATE_FILES
  {
    hide Target;
    StatePathsDiffer();
    StateShapes();
    ShortPaths();
  }

  lemma StateShapes()
    ensures forall p :: p in STATE_FILES ==> |p| > 40 && p[1] == 't'
  {
    assert |UPDATE_STATE| > 40 && UPDATE_STATE[1] == 't';
    assert |MANIFEST_PREV| > 40 && MANIFEST_PREV[1] == 't';
    assert |MANIFEST_NEW| > 40 && MANIFEST_NEW[1] == 't';
  }

  lemma ShortPaths()
    ensures |ETC| < 40 && |MOUNT| < 40 && |DATABASES| < 40
    ensures |Target(OS_VERSION)| < 40 && |Target(OS_RELEASE)| < 40
  {
  }

  // ----- after the copies

  /** A directory stays one. */
  lemma DirStays(t1: Tree, t2: Tree, copied: seq<Entry>, q: string)
    requires CopiedAll(t1, t2, copied) && AllCopying(t1, copied) && IsDir(t1, q)
    ensures IsDir(t2, q)
  {
    hide Place, Real, Describes, ParentsPossible, Placeable, OnTheWay;
  }

  /** What no target lies below is left alone. */
  lemma ClearStays(t1: Tree, t2: Tree, copied: seq<Entry>, p: string)
    requires CopiedAll(t1, t2, copied) && AllPlain(copied)
    requires forall e :: e in copied ==> !Under(e.path, p)
    ensures SameAt(t1, t2, Target(p))
  {
    hide Target, Under, Real, UpdateIncluded, OnTheWay, AllPlain;
    forall e | e in copied
      ensures Place(e.path) != Target(p)
    {
      EntryPlace(copied, e);
      UnderSelf(p);
      TargetsDiffer(e.path, p);
    }
    if AboveSome(Target(p), copied) {
      var e :| e in copied && OnTheWay(Target(p), Target(e.path));
      EntryPlace(copied, e);
      AboveOf(Target(p), Target(e.path));
      UnderTargets(e.path, p);
    }
  }

  lemma UnderSelf(p: string)
    ensures Under(p, p)
  {
  }

  lemma NotUnderEtc(p: string, q: string)
    requires UpdateIncluded(p) && (q == "/etc" || q == OS_VERSION || q == OS_RELEASE)
    ensures !Under(p, q)
  {
    assert p[1] == 's' && q[1] == 'e';
  }

  lemma RoomAfterCopies(t1: Tree, t2: Tree, copied: seq<Entry>)
    requires CopiedAll(t1, t2, copied) && AllPlain(copied) && AllCopying(t1, copied) && MetadataWritable(t1)
    ensures MetadataWritable(t2)
  {
    hide Target, Copying, UpdateIncluded, CopiedAll, Under, Real;
    forall e, q | e in copied && (q == "/etc" || q == OS_VERSION || q == OS_RELEASE)
      ensures !Under(e.path, q)
    {
      NotUnderEtc(e.path, q);
    }
    ClearStays(t1, t2, copied, "/etc");
    ClearStays(t1, t2, copied, OS_VERSION);
    ClearStays(t1, t2, copied, OS_RELEASE);
    EtcPath();
    if IsDir(t1, MOUNT) {
      DirStays(t1, t2, copied, MOUNT);
    }
  }

  lemma EtcPath()
    ensures ETC == Target("/etc")
  {
  }

  /** The refreshed manifest will find its place. */
  lemma ManifestAfterCopies(t1: Tree, t2: Tree, copied: seq<Entry>)
    requires WellFormed(t1) && CopiedAll(t1, t2, copied) && AllPlain(copied) && AllCopying(t1, copied)
    requires SourcesApart(t1) && Writable(t1, DATABASES, MANIFEST_TARGET)
    ensures Writable(t2, DATABASES, MANIFEST_TARGET)
  {
    hide Target, UpdateIncluded, CopiedAll, WellFormed, CanCopy, SourcesApart, ManifestIncluded, Under, Real;
    DirStays(t1, t2, copied, DATABASES);
    forall e | e in copied
      ensures !Under(e.path, "/system/databases/install_manifest.db")
    {
      UpdateIsTracked(e.path);
      TrackedApart(t1, e.path);
    }
    ClearStays(t1, t2, copied, "/system/databases/install_manifest.db");
    StateTargets();
  }

  lemma ManifestAfterMetadata(t2: Tree, t3: Tree)
    requires t3 - (METADATA_FILES + {ETC}) == t2 - (METADATA_FILES + {ETC})
    requires Writable(t2, DATABASES, MANIFEST_TARGET)
    ensures Writable(t3, DATABASES, MANIFEST_TARGET)
  {
    hide Target;
    ShortPaths();
    NotMetadata();
    SameButFor(t2, t3, METADATA_FILES + {ETC}, DATABASES);
    SameButFor(t2, t3, METADATA_FILES + {ETC}, MANIFEST_TARGET);
  }

  lemma NotMetadata()
    ensures DATABASES !in METADATA_FILES + {ETC} && MANIFEST_TARGET !in METADATA_FILES + {ETC}
  {
    assert DATABASES[11] == 's' && MANIFEST_TARGET[11] == 's';
    assert ETC[11] == 'e' && Target(OS_VERSION)[11] == 'e' && Target(OS_RELEASE)[11] == 'e';
  }

  lemma ReadyAfterState(t0: Tree, t1: Tree, news: seq<Entry>)
    requires WellFormed(t0) && Tracked(news) && CanWrite(t0, news) && t1 - STATE_FILES == t0 - STATE_FILES
    ensures AllCopying(t1, news) && MetadataWritable(t1) && SourcesApart(t1)
    ensures Writable(t0, DATABASES, MANIFEST_TARGET) ==> Writable(t1, DATABASES, MANIFEST_TARGET)
  {
    hide WellFormed, SourcesApart, MetadataWritable, Writable, Tracked, AllCopying;
    AllCopyingAfterState(t0, t1, news);
    RoomAfterState(t0, t1);
  }

  lemma ReadyAfterCopies(t1: Tree, t2: Tree, news: seq<Entry>, copied: seq<Entry>)
    requires WellFormed(t1) && CopiedAll(t1, t2, copied) && Tracked(news) && AllCopying(t1, news)
    requires forall e :: e in copied ==> e in news
    requires MetadataWritable(t1) && SourcesApart(t1)
    ensures MetadataWritable(t2)
    ensures Writable(t1, DATABASES, MANIFEST_TARGET) ==> Writable(t2, DATABASES, MANIFEST_TARGET)
  {
    hide WellFormed, SourcesApart, MetadataWritable, Writable, Distinct, Copying, CopiedAll, Real, UpdateIncluded;
    RoomAfterCopies(t1, t2, copied);
    if Writable(t1, DATABASES, MANIFEST_TARGET) {
      ManifestAfterCopies(t1, t2, copied);
    }
  }

  // ----- the deletions and the refreshed manifest

  /** Everything after the plan can be done, and no deletion undoes a copy. */
  ghost predicate CanApply(t: Tree, olds: seq<Entry>, news: seq<Entry>) {
    && CanWrite(t, news) && ObsoleteFit(olds, news) && NewApart(olds, news) && CanRefresh(t, olds, news)
  }

  lemma RefreshAfterDelete(t3: Tree, gone: set<string>)
    requires Writable(t3, DATABASES, MANIFEST_TARGET) && forall p :: p in gone ==> IsFile(t3, p)
    ensures Writable(t3 - gone, DATABASES, MANIFEST_TARGET)
  {
  }
}
