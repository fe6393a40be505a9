/** The files that an update writes whatever the manifests say: state files and metadata. */
module UpdateFiles {
  import opened Options
  import opened Paths
  import opened FileSystem
  import opened InstallFiles
  import opened TreeWalk
  import opened ManifestText
  import opened ManifestFile
  import opened UpdatePaths
  import opened UpdatePasses

  // ----- state files

  const STATE_TEXT := "shell-update\n"

  /** A file can be made, or made anew, at path p of directory dir. */
  predicate Writable(t: Tree, dir: string, p: string) {
    IsDir(t, dir) && !IsDir(t, p)
  }

  predicate ManifestsWritable(t: Tree) {
    && (IsFile(t, MANIFEST_TARGET) ==> Writable(t, DATABASES, MANIFEST_PREV))
    && DRYRUN_MANIFEST in t && Writable(t, DATABASES, MANIFEST_NEW)
  }

  /** Where the state files go is there, and so is what they are made from. */
  predicate StateWritable(t: Tree) {
    Writable(t, DATABASES, UPDATE_STATE) && ManifestsWritable(t)
  }

  /**
   install_update_shell_write_state_files. The directory of the databases is not made: on a
   target without it the update always fails here.
   */
  method WriteStateFiles(fs: FileSystem) returns (ok: bool)
    requires fs.Valid()
    modifies fs
    ensures fs.Valid() && FilesKept(old(fs.tree), fs.tree, STATE_FILES)
    ensures ok ==> StateWritten(old(fs.tree), fs.tree)
    ensures ok && fs.Sighted() ==> PreviousKept(old(fs.tree), fs.tree)
    ensures ok ==> Writable(old(fs.tree), DATABASES, UPDATE_STATE)
    ensures StateWritable(old(fs.tree)) ==> fs.tree - STATE_FILES == old(fs.tree) - STATE_FILES
    ensures fs.healthy ==> (ok <==> StateWritable(old(fs.tree)))
  {
    hide Real, DirPath, FileSystem.Valid, FilesKept, StateWritten, NewKept, PreviousKept, Writable, ManifestsWritable;
    hide SameAt;
    hide Creatable, IsDir;
    ghost var t0 := fs.tree;
    DirsPlain();
    ValidTree(fs);
    SystemAbove(t0);
    ok := MakeDir(fs, SYSTEM);
    ghost var t1 := fs.tree;
    SystemMade(t0, t1);
    if !ok {
      return;
    }
    ok := WriteState(fs);
    ghost var t2 := fs.tree;
    StateMade(t0, t1, t2);
    OnlyStateFiles(t1, t2, t2);
    if !ok {
      return;
    }
    ok := CopyManifests(fs);
    KeptManifests(t0, t2, fs.tree);
    OnlyStateFiles(t1, t2, fs.tree);
    if ok {
      StateWrittenFrom(t0, t2, fs.tree);
    }
  }

  predicate SameAt(t0: Tree, t1: Tree, p: string) {
    (p in t0 <==> p in t1) && (p in t0 ==> t0[p] == t1[p])
  }

  /** The state file proper. */
  method WriteState(fs: FileSystem) returns (ok: bool)
    requires fs.Valid()
    modifies fs
    ensures fs.Valid() && fs.tree - {UPDATE_STATE} == old(fs.tree) - {UPDATE_STATE}
    ensures ok ==> UPDATE_STATE in fs.tree && fs.tree[UPDATE_STATE] == Regular(STATE_TEXT)
    ensures ok ==> Writable(old(fs.tree), DATABASES, UPDATE_STATE)
    ensures fs.healthy ==> (ok <==> Writable(old(fs.tree), DATABASES, UPDATE_STATE))
  {
    hide Real, DirPath, FileSystem.Valid, Writable, Creatable, IsDir;
    StateRoom(fs.tree);
    StatePlain();
    var wrote := fs.Write(UPDATE_STATE, STATE_TEXT);
    ok := wrote == |STATE_TEXT|;
  }

  lemma SystemMade(t0: Tree, t1: Tree)
    requires t1 == t0 || (SYSTEM !in t0 && t1 == t0[SYSTEM := Directory])
    ensures FilesKept(t0, t1, STATE_FILES) && (ManifestsWritable(t1) <==> ManifestsWritable(t0))
    ensures Writable(t1, DATABASES, UPDATE_STATE) <==> Writable(t0, DATABASES, UPDATE_STATE)
    ensures SameAt(t0, t1, MANIFEST_TARGET) && SameAt(t0, t1, DRYRUN_MANIFEST) && SameAt(t0, t1, MANIFEST_PREV)
  {
    hide FilesKept, ManifestsWritable, Writable, SameAt;
    StatePathsDiffer();
    KeptMade(t0, t1, SYSTEM, STATE_FILES);
    StillRoom(t0, t1, SYSTEM);
  }

  lemma StateMade(t0: Tree, t1: Tree, t2: Tree)
    requires t2 - {UPDATE_STATE} == t1 - {UPDATE_STATE} && FilesKept(t0, t1, STATE_FILES)
    requires SameAt(t0, t1, MANIFEST_TARGET) && SameAt(t0, t1, DRYRUN_MANIFEST) && SameAt(t0, t1, MANIFEST_PREV)
    ensures FilesKept(t0, t2, STATE_FILES) && (ManifestsWritable(t2) <==> ManifestsWritable(t1))
    ensures SameAt(t0, t2, MANIFEST_TARGET) && SameAt(t0, t2, DRYRUN_MANIFEST) && SameAt(t0, t2, MANIFEST_PREV)
  {
    hide FilesKept, ManifestsWritable;
    KeptWritten(t0, t1, t2, UPDATE_STATE, STATE_FILES);
    StillRoom(t1, t2, UPDATE_STATE);
  }

  /** The old manifest and the new one, put beside the state file. */
  method CopyManifests(fs: FileSystem) returns (ok: bool)
    requires fs.Valid()
    modifies fs
    ensures fs.Valid() && FilesKept(old(fs.tree), fs.tree, {MANIFEST_PREV, MANIFEST_NEW})
    ensures fs.tree - {MANIFEST_PREV, MANIFEST_NEW} == old(fs.tree) - {MANIFEST_PREV, MANIFEST_NEW}
    ensures ok ==> NewKept(old(fs.tree), fs.tree)
    ensures ok && fs.Sighted() ==> PreviousKept(old(fs.tree), fs.tree)
    ensures fs.healthy ==> (ok <==> ManifestsWritable(old(fs.tree)))
  {
    hide Real, DirPath, FileSystem.Valid, FilesKept, ContentOf, Writable, Creatable, NewKept, PreviousKept;
    ghost var t2 := fs.tree;
    StatePlain();
    var tally := new Tally();
    StateFilesDiffer();
    StatePathsDiffer();
    StateRoom(t2);
    KeptOutside(t2, t2, {MANIFEST_PREV, MANIFEST_NEW});
    var kind := fs.StatType(MANIFEST_TARGET);
    if kind == AFile {
      ok := CopyFile(fs, MANIFEST_TARGET, MANIFEST_PREV, tally);
      KeptWritten(t2, t2, fs.tree, MANIFEST_PREV, {MANIFEST_PREV, MANIFEST_NEW});
      MinusTrans(t2, t2, fs.tree, {MANIFEST_PREV, MANIFEST_NEW}, {MANIFEST_PREV});
      if !ok {
        return;
      }
    }
    ghost var t3 := fs.tree;
    StillWritable(t2, t3, MANIFEST_PREV);
    StateRoom(t3);
    ok := CopyFile(fs, DRYRUN_MANIFEST, MANIFEST_NEW, tally);
    KeptWritten(t2, t3, fs.tree, MANIFEST_NEW, {MANIFEST_PREV, MANIFEST_NEW});
    MinusTrans(t2, t3, fs.tree, {MANIFEST_PREV, MANIFEST_NEW}, {MANIFEST_NEW});
    if ok {
      ManifestsWritten(t2, t3, fs.tree, kind == AFile);
    }
  }

  lemma SystemAbove(t: Tree)
    requires WellFormed(t)
    ensures Writable(t, DATABASES, UPDATE_STATE) ==> IsDir(t, SYSTEM) && SYSTEM in t
  {
    hide WellPlaced, ValidName, DirPath, Real;
    if DATABASES in t {
      PlainName("databases");
      DirsPlain();
      PlaceIn(t, SYSTEM, "databases");
      assert SYSTEM + "/" + "databases" == DATABASES;
      assert WellPlaced(t, DATABASES);
    }
  }

  /** A name in a directory other than the root can be created when the directory is there. */
  lemma PlaceIn(t: Tree, dir: string, name: string)
    requires DirPath(dir) && |dir| > 1 && ValidName(name)
    ensures dir + "/" + name != "/"
    ensures WellPlaced(t, dir + "/" + name) <==> IsDir(t, dir)
  {
    JoinParts(dir, name);
    assert Join(dir, name) == dir + "/" + name;
  }

  lemma RoomFor(t: Tree, name: string)
    requires StateName(name)
    ensures
      var p := DATABASES + "/" + name;
      Writable(t, DATABASES, p) <==> Creatable(t, p) && !IsDir(t, p)
  {
    hide WellPlaced, ValidName, DirPath, Real, StateName;
    PlainName(name);
    DirsPlain();
    PlaceIn(t, DATABASES, name);
  }

  lemma StatePaths()
    ensures UPDATE_STATE == DATABASES + "/" + "update_state.db"
    ensures MANIFEST_PREV == DATABASES + "/" + "install_manifest.prev"
    ensures MANIFEST_NEW == DATABASES + "/" + "install_manifest.new"
  {
  }

  lemma ManifestPath()
    ensures MANIFEST_TARGET == DATABASES + "/" + "install_manifest.db"
  {
  }

  /** Where a state file can be made. */
  lemma StateRoom(t: Tree)
    ensures Writable(t, DATABASES, UPDATE_STATE) <==> Creatable(t, UPDATE_STATE) && !IsDir(t, UPDATE_STATE)
    ensures Writable(t, DATABASES, MANIFEST_PREV) <==> Creatable(t, MANIFEST_PREV) && !IsDir(t, MANIFEST_PREV)
    ensures Writable(t, DATABASES, MANIFEST_NEW) <==> Creatable(t, MANIFEST_NEW) && !IsDir(t, MANIFEST_NEW)
  {
    hide Writable, Creatable, IsDir;
    StatePaths();
    RoomFor(t, "update_state.db");
    RoomFor(t, "install_manifest.prev");
    RoomFor(t, "install_manifest.new");
  }

  /** Writing one state file makes no difference to the others. */
  lemma StillWritable(t0: Tree, t1: Tree, q: string)
    requires t1 - {q} == t0 - {q} && q in STATE_FILES + {SYSTEM}
    ensures q != UPDATE_STATE ==> (Writable(t1, DATABASES, UPDATE_STATE) <==> Writable(t0, DATABASES, UPDATE_STATE))
    ensures q != MANIFEST_PREV ==> (Writable(t1, DATABASES, MANIFEST_PREV) <==> Writable(t0, DATABASES, MANIFEST_PREV))
    ensures q != MANIFEST_NEW ==> (Writable(t1, DATABASES, MANIFEST_NEW) <==> Writable(t0, DATABASES, MANIFEST_NEW))
    ensures IsFile(t1, MANIFEST_TARGET) <==> IsFile(t0, MANIFEST_TARGET)
    ensures DRYRUN_MANIFEST in t1 <==> DRYRUN_MANIFEST in t0
  {
    StatePathsDiffer();
    forall p | p != q
      ensures p in t1 <==> p in t0
      ensures p in t1 ==> t1[p] == t0[p]
    {
      assert p in t1 <==> p in t1 - {q};
      assert p in t0 <==> p in t0 - {q};
    }
  }

  /** The new manifest lies beside the state file. */
  ghost predicate NewKept(t0: Tree, t1: Tree) {
    && DRYRUN_MANIFEST in t0 && MANIFEST_NEW in t1
    && t1[MANIFEST_NEW] == Regular(ContentOf(t0, DRYRUN_MANIFEST))
  }

  /** So does the old one, if there is one; if not, an earlier copy of one stays. */
  ghost predicate PreviousKept(t0: Tree, t1: Tree) {
    if IsFile(t0, MANIFEST_TARGET) then MANIFEST_PREV in t1 && t1[MANIFEST_PREV] == t0[MANIFEST_TARGET]
    else IsFile(t0, MANIFEST_PREV) || IsFile(t1, MANIFEST_PREV) ==> SameAt(t0, t1, MANIFEST_PREV)
  }

  /** The state file says what is under way, and the new manifest lies beside it. */
  ghost predicate StateWritten(t0: Tree, t1: Tree) {
    UPDATE_STATE in t1 && t1[UPDATE_STATE] == Regular(STATE_TEXT) && NewKept(t0, t1)
  }

  lemma ManifestsWritten(t2: Tree, t3: Tree, t4: Tree, copied: bool)
    requires copied ==> IsFile(t2, MANIFEST_TARGET)
    requires t3 == if copied then t2[MANIFEST_PREV := Regular(ContentOf(t2, MANIFEST_TARGET))] else t2
    requires DRYRUN_MANIFEST in t3 && t4 == t3[MANIFEST_NEW := Regular(ContentOf(t3, DRYRUN_MANIFEST))]
    ensures NewKept(t2, t4)
    ensures copied || !IsFile(t2, MANIFEST_TARGET) ==> PreviousKept(t2, t4)
  {
    StatePathsDiffer();
    assert DRYRUN_MANIFEST in t3 - {MANIFEST_PREV};
  }

  lemma StateWrittenFrom(t0: Tree, t2: Tree, t4: Tree)
    requires SameAt(t0, t2, MANIFEST_TARGET) && SameAt(t0, t2, DRYRUN_MANIFEST) && SameAt(t0, t2, MANIFEST_PREV)
    requires UPDATE_STATE in t2 && t2[UPDATE_STATE] == Regular(STATE_TEXT)
    requires FilesKept(t2, t4, {MANIFEST_PREV, MANIFEST_NEW}) && NewKept(t2, t4)
    ensures StateWritten(t0, t4)
    ensures PreviousKept(t2, t4) ==> PreviousKept(t0, t4)
  {
    StatePathsDiffer();
  }

  lemma StillRoom(t0: Tree, t1: Tree, q: string)
    requires t1 - {q} == t0 - {q} && (q == UPDATE_STATE || q == SYSTEM)
    ensures ManifestsWritable(t1) <==> ManifestsWritable(t0)
    ensures q != UPDATE_STATE ==> (Writable(t1, DATABASES, UPDATE_STATE) <==> Writable(t0, DATABASES, UPDATE_STATE))
    ensures SameAt(t0, t1, MANIFEST_TARGET) && SameAt(t0, t1, DRYRUN_MANIFEST) && SameAt(t0, t1, MANIFEST_PREV)
  {
    hide Writable;
    StatePathsDiffer();
    StillWritable(t0, t1, q);
    forall p | p != q
      ensures SameAt(t0, t1, p)
    {
      assert p in t1 <==> p in t1 - {q};
      assert p in t0 <==> p in t0 - {q};
    }
  }

  lemma OnlyStateFiles(t1: Tree, t2: Tree, t4: Tree)
    requires t2 - {UPDATE_STATE} == t1 - {UPDATE_STATE}
    requires t4 - {MANIFEST_PREV, MANIFEST_NEW} == t2 - {MANIFEST_PREV, MANIFEST_NEW}
    ensures t4 - STATE_FILES == t1 - STATE_FILES
  {
    MinusTrans(t1, t1, t2, STATE_FILES, {UPDATE_STATE});
    MinusTrans(t1, t2, t4, STATE_FILES, {MANIFEST_PREV, MANIFEST_NEW});
  }

  lemma KeptManifests(t0: Tree, t2: Tree, t4: Tree)
    requires FilesKept(t0, t2, STATE_FILES) && FilesKept(t2, t4, {MANIFEST_PREV, MANIFEST_NEW})
    ensures FilesKept(t0, t4, STATE_FILES)
  {
    hide FilesKept;
    KeptMore(t2, t4, {MANIFEST_PREV, MANIFEST_NEW}, STATE_FILES);
    KeptTrans(t0, t2, t4, STATE_FILES);
  }

  lemma KeptMade(t0: Tree, t1: Tree, p: string, s: set<string>)
    requires t1 == t0 || (p !in t0 && t1 == t0[p := Directory])
    ensures FilesKept(t0, t1, s)
  {
  }

  lemma KeptWritten(t0: Tree, t1: Tree, t2: Tree, p: string, s: set<string>)
    requires FilesKept(t0, t1, s) && t1 - {p} == t2 - {p} && p in s
    ensures FilesKept(t0, t2, s)
  {
    hide FilesKept;
    KeptOutside(t1, t2, {p});
    KeptMore(t1, t2, {p}, s);
    KeptTrans(t0, t1, t2, s);
  }

  lemma StatePathsDiffer()
    ensures UPDATE_STATE != MANIFEST_PREV && UPDATE_STATE != MANIFEST_NEW && MANIFEST_PREV != MANIFEST_NEW
    ensures DRYRUN_MANIFEST !in STATE_FILES && MANIFEST_TARGET !in STATE_FILES
    ensures DRYRUN_MANIFEST != SYSTEM && MANIFEST_TARGET != SYSTEM && SYSTEM !in STATE_FILES
  {
    assert |SYSTEM| < |DATABASES| < |UPDATE_STATE| && |DATABASES| < |MANIFEST_TARGET|;
    StateTargets();
    NotOverlapping("/system/databases/install_manifest.db");
    TargetsDiffer("/system/databases/install_manifest.db", "/system/databases/install_manifest.prev");
    assert |UPDATE_STATE| != |MANIFEST_PREV| && |UPDATE_STATE| != |MANIFEST_NEW| && |MANIFEST_PREV| != |MANIFEST_NEW|;
    assert |MANIFEST_TARGET| != |UPDATE_STATE| && |MANIFEST_TARGET| != |MANIFEST_NEW|;
    assert DRYRUN_MANIFEST[6] == 'i' && MOUNT[6] == 'd';
    assert forall p :: (MOUNT + p)[6] == MOUNT[6];
  }

  lemma StateFilesDiffer()
    ensures MANIFEST_TARGET != MANIFEST_PREV && DRYRUN_MANIFEST != MANIFEST_NEW
  {
    StateTargets();
    NotOverlapping("/system/databases/install_manifest.new");
    TargetsDiffer("/system/databases/install_manifest.db", "/system/databases/install_manifest.prev");
  }

  // ----- metadata

  /** The running system has something to say about its version. */
  predicate MetadataPresent(t: Tree) {
    && IsFile(t, OS_VERSION) && ContentOf(t, OS_VERSION) != ""
    && IsFile(t, OS_RELEASE) && ContentOf(t, OS_RELEASE) != ""
  }

  /** The target has, or can get, a place for it. */
  predicate MetadataWritable(t: Tree) {
    && (IsDir(t, ETC) || (ETC !in t && IsDir(t, MOUNT)))
    && !IsDir(t, Target(OS_VERSION)) && !IsDir(t, Target(OS_RELEASE))
  }

  /**
   install_sync_os_metadata. As an empty file cannot be overwritten with, it always fails
   on a healthy machine where one of the two sources is empty.
   */
  method SyncMetadata(fs: FileSystem, tally: Tally) returns (ok: bool)
    requires fs.Valid()
    modifies fs, tally
    ensures fs.Valid() && FilesKept(old(fs.tree), fs.tree, METADATA_FILES)
    ensures fs.tree - (METADATA_FILES + {ETC}) == old(fs.tree) - (METADATA_FILES + {ETC})
    ensures ok && fs.Sighted() ==> MetadataCopied(fs.tree)
    ensures ok ==> tally.items == old(tally.items) + 2
    ensures fs.healthy ==> (ok <==> MetadataPresent(old(fs.tree)) && MetadataWritable(old(fs.tree)))
  {
    hide Real, DirPath, FileSystem.Valid, FilesKept, Target, ContentOf, Creatable, MetadataCopied;
    ghost var t0 := fs.tree;
    DirsPlain();
    MetadataPlain();
    MetadataDiffers();
    MetadataRoom(t0);
    KeptOutside(t0, t0, METADATA_FILES);
    ok := MakeDir(fs, ETC);
    KeptMade(t0, fs.tree, ETC, METADATA_FILES);
    MetadataOnly(t0, t0, fs.tree, ETC);
    if !ok {
      return;
    }
    ghost var t1 := fs.tree;
    MetadataRoom(t1);
    MetadataStill(t0, t1, ETC);
    ok := OverwriteWhole(fs, OS_VERSION, Target(OS_VERSION), tally);
    KeptWritten(t0, t1, fs.tree, Target(OS_VERSION), METADATA_FILES);
    MetadataOnly(t0, t1, fs.tree, Target(OS_VERSION));
    if !ok {
      return;
    }
    ghost var t2 := fs.tree;
    MetadataRoom(t2);
    MetadataStill(t1, t2, Target(OS_VERSION));
    ok := OverwriteWhole(fs, OS_RELEASE, Target(OS_RELEASE), tally);
    KeptWritten(t0, t2, fs.tree, Target(OS_RELEASE), METADATA_FILES);
    MetadataOnly(t0, t2, fs.tree, Target(OS_RELEASE));
    if ok && fs.Sighted() {
      MetadataFrom(t1, t2, fs.tree);
    }
  }

  lemma MetadataOnly(t0: Tree, t1: Tree, t2: Tree, q: string)
    requires t1 - (METADATA_FILES + {ETC}) == t0 - (METADATA_FILES + {ETC})
    requires t2 - {q} == t1 - {q} && q in METADATA_FILES + {ETC}
    ensures t2 - (METADATA_FILES + {ETC}) == t0 - (METADATA_FILES + {ETC})
  {
    hide Target;
    MinusTrans(t0, t1, t2, METADATA_FILES + {ETC}, {q});
  }

  lemma MetadataFrom(t1: Tree, t2: Tree, t3: Tree)
    requires OS_VERSION in t1 && t2 == t1[Target(OS_VERSION) := Regular(ContentOf(t1, OS_VERSION))]
    requires OS_RELEASE in t2 && t3 == t2[Target(OS_RELEASE) := Regular(ContentOf(t2, OS_RELEASE))]
    ensures MetadataCopied(t3)
  {
    hide Target, ContentOf;
    MetadataDiffers();
    SameContent(t1, t2, OS_VERSION, Target(OS_VERSION));
    SameContent(t2, t3, OS_VERSION, Target(OS_RELEASE));
    SameContent(t2, t3, OS_RELEASE, Target(OS_RELEASE));
  }

  /** Making a place for the metadata, or writing one file of it, makes no difference to the rest. */
  lemma MetadataStill(t0: Tree, t1: Tree, q: string)
    requires t1 - {q} == t0 - {q} && q in METADATA_FILES + {ETC}
    ensures MetadataPresent(t1) <==> MetadataPresent(t0)
    ensures IsFile(t1, OS_RELEASE) <==> IsFile(t0, OS_RELEASE)
    ensures IsFile(t1, OS_RELEASE) ==> ContentOf(t1, OS_RELEASE) == ContentOf(t0, OS_RELEASE)
    ensures IsFile(t1, OS_VERSION) <==> IsFile(t0, OS_VERSION)
    ensures IsFile(t1, OS_VERSION) ==> ContentOf(t1, OS_VERSION) == ContentOf(t0, OS_VERSION)
    ensures forall p :: p in METADATA_FILES + {ETC} && p != q ==> (IsDir(t1, p) <==> IsDir(t0, p))
  {
    hide Target;
    MetadataDiffers();
    forall p | p != q
      ensures p in t1 <==> p in t0
      ensures p in t1 ==> t1[p] == t0[p]
    {
      assert p in t1 <==> p in t1 - {q};
      assert p in t0 <==> p in t0 - {q};
    }
  }

  lemma MetadataRoom(t: Tree)
    ensures Creatable(t, ETC) <==> IsDir(t, MOUNT)
    ensures Creatable(t, Target(OS_VERSION)) <==> IsDir(t, ETC)
    ensures Creatable(t, Target(OS_RELEASE)) <==> IsDir(t, ETC)
  {
    hide WellPlaced, ValidName;
    PlainName("etc");
    PlainName("os-version");
    PlainName("os-release");
    PlaceIn(t, MOUNT, "etc");
    PlaceIn(t, ETC, "os-version");
    PlaceIn(t, ETC, "os-release");
    assert MOUNT + "/" + "etc" == ETC;
    assert ETC + "/" + "os-version" == Target(OS_VERSION);
    assert ETC + "/" + "os-release" == Target(OS_RELEASE);
  }

  lemma SameContent(t0: Tree, t1: Tree, p: string, q: string)
    requires p in t0 && p != q && t1 - {q} == t0 - {q}
    ensures p in t1 && ContentOf(t1, p) == ContentOf(t0, p)
  {
    assert p in t0 - {q};
    assert (t0 - {q})[p] == t0[p];
  }

  /** The two metadata files on the target are copies of the running system's. */
  ghost predicate MetadataCopied(t: Tree) {
    && OS_VERSION in t && Target(OS_VERSION) in t && t[Target(OS_VERSION)] == Regular(ContentOf(t, OS_VERSION))
    && OS_RELEASE in t && Target(OS_RELEASE) in t && t[Target(OS_RELEASE)] == Regular(ContentOf(t, OS_RELEASE))
  }

  lemma MetadataDiffers()
    ensures OS_VERSION != Target(OS_VERSION) && OS_RELEASE != Target(OS_RELEASE)
    ensures OS_VERSION != Target(OS_RELEASE) && OS_RELEASE != Target(OS_VERSION)
    ensures Target(OS_VERSION) != Target(OS_RELEASE)
    ensures ETC !in METADATA_FILES && ETC != OS_VERSION && ETC != OS_RELEASE
  {
    assert |ETC| == 14 && |Target(OS_VERSION)| == 25 && |Target(OS_RELEASE)| == 25 && ETC[1] == 't';
    TargetsDiffer(OS_VERSION, OS_RELEASE);
    assert Target(OS_VERSION)[1] == 't' && Target(OS_RELEASE)[1] == 't';
    assert OS_VERSION[1] == 'e' && OS_RELEASE[1] == 'e';
  }

  // ----- cleaning up

  const LEFTOVERS := {UPDATE_STATE, MANIFEST_NEW, DRYRUN_MANIFEST}

  /** Removes a file; a failing call leaves it there. */
  method RemoveIfFile(fs: FileSystem, p: string)
    requires fs.Valid()
    modifies fs
    ensures fs.Valid() && (fs.tree == old(fs.tree) || fs.tree == old(fs.tree) - {Real(p)})
    ensures fs.healthy ==> !IsFile(fs.tree, Real(p))
  {
    hide FileSystem.Valid, Real;
    var kind := fs.StatType(p);
    if kind == AFile {
      var _ := fs.Remove(p);
    }
  }

  ghost predicate OnlyRemoved(t0: Tree, t1: Tree, s: set<string>) {
    t1 - s == t0 - s && forall p :: p in t1 ==> p in t0 && t1[p] == t0[p]
  }

  lemma RemovedOne(t0: Tree, t1: Tree, t2: Tree, p: string)
    requires OnlyRemoved(t0, t1, LEFTOVERS) && p in LEFTOVERS
    requires t2 == t1 || t2 == t1 - {p}
    ensures OnlyRemoved(t0, t2, LEFTOVERS)
  {
    hide UPDATE_STATE, MANIFEST_NEW, DRYRUN_MANIFEST;
    MinusTrans(t0, t1, t2, LEFTOVERS, {p});
  }

  /** install_update_shell_cleanup_state. */
  method CleanupState(fs: FileSystem)
    requires fs.Valid()
    modifies fs
    ensures fs.Valid() && OnlyRemoved(old(fs.tree), fs.tree, LEFTOVERS)
    ensures fs.healthy ==> forall p :: p in LEFTOVERS ==> !IsFile(fs.tree, p)
  {
    hide FileSystem.Valid, OnlyRemoved, Real, DirPath;
    ghost var t0 := fs.tree;
    StatePlain();
    NothingRemoved(t0);
    RemoveIfFile(fs, UPDATE_STATE);
    ghost var t1 := fs.tree;
    RemovedOne(t0, t0, t1, UPDATE_STATE);
    RemoveIfFile(fs, MANIFEST_NEW);
    ghost var t2 := fs.tree;
    RemovedOne(t0, t1, t2, MANIFEST_NEW);
    RemoveIfFile(fs, DRYRUN_MANIFEST);
    RemovedOne(t0, t2, fs.tree, DRYRUN_MANIFEST);
    assert !IsFile(t1, UPDATE_STATE) ==> !IsFile(t2, UPDATE_STATE);
    assert !IsFile(t2, UPDATE_STATE) ==> !IsFile(fs.tree, UPDATE_STATE);
    assert !IsFile(t2, MANIFEST_NEW) ==> !IsFile(fs.tree, MANIFEST_NEW);
  }

  lemma NothingRemoved(t: Tree)
    ensures OnlyRemoved(t, t, LEFTOVERS)
  {
  }
}
