/** A disk that meets all conditions of an update, so that what is proved of a successful one is not empty. */
module UpdateExample {
  import opened Options
  import opened Paths
  import opened FileSystem
  import opened InstallFiles
  import opened TreeWalk
  import opened ManifestText
  import opened ManifestFile
  import opened UpdatePaths
  import opened UpdatePasses
  import opened UpdateObsolete
  import opened UpdateFiles
  import opened UpdateRefresh
  import opened UpdateConditions
  import opened UpdateRead
  import opened UpdateApply
  import opened UpdateShell

  const FILE := "/shell/a"

  /** A running system with one shell file, and a mounted disk with an empty database directory. */
  function Disk(): Tree {
    map[
      "/" := Directory, "/temp" := Directory, "/etc" := Directory, "/shell" := Directory,
      FILE := Regular(""), OS_VERSION := Regular("1"), OS_RELEASE := Regular("1"),
      MOUNT := Directory, SYSTEM := Directory, DATABASES := Directory
    ]
  }

  lemma Nodes()
    ensures IsDir(Disk(), "/") && IsDir(Disk(), "/temp") && IsDir(Disk(), "/etc") && IsDir(Disk(), "/shell")
    ensures IsDir(Disk(), MOUNT) && IsDir(Disk(), SYSTEM) && IsDir(Disk(), DATABASES)
    ensures FILE in Disk() && Disk()[FILE] == Regular("")
    ensures OS_VERSION in Disk() && Disk()[OS_VERSION] == Regular("1")
    ensures OS_RELEASE in Disk() && Disk()[OS_RELEASE] == Regular("1")
  {
    assert |"/"| == 1 && |"/temp"| == 5 && |"/etc"| == 4 && |"/shell"| == 6 && |FILE| == 8;
    assert |OS_VERSION| == 15 && |OS_RELEASE| == 15 && |MOUNT| == 10 && |SYSTEM| == 17 && |DATABASES| == 27;
  }

  lemma NoOtherNodes(p: string)
    requires p in Disk()
    ensures
      || p == "/" || p == "/temp" || p == "/etc" || p == "/shell" || p == FILE
      || p == OS_VERSION || p == OS_RELEASE || p == MOUNT || p == SYSTEM || p == DATABASES
    ensures |p| <= 27
  {
  }

  lemma Names()
    ensures ValidName("temp") && ValidName("etc") && ValidName("shell") && ValidName("a") && ValidName("disk")
    ensures ValidName("system")
  {
  }

  lemma RootPlaces()
    ensures "/" + "temp" == "/temp" && "/" + "etc" == "/etc" && "/" + "shell" == "/shell"
  {
  }

  lemma DeeperPlaces()
    ensures "/shell" + "/" + "a" == FILE && "/etc" + "/" + "os-version" == OS_VERSION
    ensures "/etc" + "/" + "os-release" == OS_RELEASE && "/temp" + "/" + "disk" == MOUNT
    ensures MOUNT + "/" + "system" == SYSTEM && SYSTEM + "/" + "databases" == DATABASES
    ensures DirPath("/temp") && DirPath("/etc") && DirPath("/shell") && DirPath(MOUNT)
  {
  }

  lemma PlaceInRoot(t: Tree, name: string)
    requires ValidName(name) && IsDir(t, "/")
    ensures WellPlaced(t, "/" + name)
  {
    JoinParts("/", name);
    assert Join("/", name) == "/" + name;
  }

  lemma DiskIsWellFormed()
    ensures WellFormed(Disk())
  {
    hide Real, Disk, WellPlaced, ValidName, DirPath, SYSTEM, DATABASES, MOUNT, OS_VERSION, OS_RELEASE, FILE;
    var t := Disk();
    Nodes();
    Names();
    PlainName("databases");
    PlainName("os-version");
    PlainName("os-release");
    RootPlaces();
    DeeperPlaces();
    DirsPlain();
    PlaceInRoot(t, "temp");
    PlaceInRoot(t, "etc");
    PlaceInRoot(t, "shell");
    PlaceIn(t, "/shell", "a");
    PlaceIn(t, "/etc", "os-version");
    PlaceIn(t, "/etc", "os-release");
    PlaceIn(t, "/temp", "disk");
    PlaceIn(t, MOUNT, "system");
    PlaceIn(t, SYSTEM, "databases");
    forall p | p in t
      ensures WellPlaced(t, p) && Fits(t[p])
    {
      NoOtherNodes(p);
      RootIsPlaced(t);
    }
  }

  lemma RootIsPlaced(t: Tree)
    ensures WellPlaced(t, "/")
  {
  }

  // ----- its manifest

  lemma ShellPath(p: string)
    requires "/shell/" <= p && |p| < 12
    ensures UpdateIncluded(p)
  {
    hide Under;
    assert p[1] == 's' && p[2] == 'h' && p[6] == '/';
    InShell(p);
    NotUnder(p, "/limine", 1);
    NotUnder(p, "/system/databases/pkg", 2);
    NotUnder(p, "/home", 1);
    NotUnder(p, "/temp", 1);
    NotUnder(p, "/dev", 1);
    NotUnder(p, "/proc", 1);
  }

  lemma InShell(p: string)
    requires "/shell/" <= p
    ensures Under(p, "/shell")
  {
    assert p[..6] == "/shell";
  }

  lemma FileIsTracked()
    ensures UpdateIncluded(FILE) && '|' !in FILE && '\n' !in FILE
    ensures !UpdateIncluded(OS_VERSION) && !UpdateIncluded(OS_RELEASE)
  {
    hide ManifestIncluded;
    ShellPath(FILE);
    MetadataIsNotTracked(OS_VERSION);
    MetadataIsNotTracked(OS_RELEASE);
  }

  lemma DiskFiles()
    ensures FilesBelow(Disk(), "/", UpdateIncluded) == {FILE}
  {
    hide Disk, UpdateIncluded, SYSTEM, DATABASES, MOUNT, OS_VERSION, OS_RELEASE, FILE;
    FileIsTracked();
    Nodes();
    forall p | p in Disk() && Disk()[p].Regular? && UpdateIncluded(p)
      ensures p == FILE
    {
      NoOtherNodes(p);
    }
  }

  lemma {:induction false} FewSlashes(p: string)
    ensures Slashes(p) <= |p|
    decreases |p|
  {
    if p != "" {
      FewSlashes(p[..|p| - 1]);
    }
  }

  lemma DiskFits()
    ensures ScanFits(Disk(), "/")
  {
    hide Disk, Untracked, Parent, Slashes;
    forall p | p in Disk()
      ensures |p| < PATH_MAX && Level(p) <= DEPTH_MAX
    {
      NoOtherNodes(p);
      FewSlashes(p);
    }
  }

  lemma NotOnDisk(p: string)
    requires |p| > 27
    ensures p !in Disk()
  {
    hide Disk;
    if p in Disk() {
      NoOtherNodes(p);
    }
  }

  lemma DiskGenerates()
    ensures CanGenerate(Disk(), DRYRUN_MANIFEST) && Weight(Disk(), {FILE}) < LINE_MAX
  {
    hide Disk, WellFormed, ScanFits, Line, FilesBelow, UpdateIncluded, WellPlaced, ValidName, Weight;
    var t := Disk();
    DiskIsWellFormed();
    DiskFiles();
    DiskFits();
    Nodes();
    DryRunPlace(t);
    FileIsTracked();
    FileIsShort();
    OneWeight(t, FILE);
    FileLine(t, FILE);
    assert |DRYRUN_MANIFEST| == 31;
    NotOnDisk(DRYRUN_MANIFEST);
  }

  lemma FileIsShort()
    ensures |FILE| == 8
  {
  }

  lemma DryRunIsFile()
    ensures ValidName("install2disk_manifest.new") && "/temp" + "/" + "install2disk_manifest.new" == DRYRUN_MANIFEST
  {
  }

  lemma DryRunPlace(t: Tree)
    requires IsDir(t, "/temp")
    ensures Creatable(t, DRYRUN_MANIFEST)
  {
    hide WellPlaced, ValidName, DirPath, OtherName;
    DryRunIsFile();
    DeeperPlaces();
    PlaceIn(t, "/temp", "install2disk_manifest.new");
  }

  lemma DiskReads()
    ensures CanRead(Disk()) && OldList(Disk()) == []
  {
    hide Disk, CanGenerate, FilesBelow, UpdateIncluded, Parse;
    DiskGenerates();
    DiskFiles();
    FileIsTracked();
    assert |MANIFEST_TARGET| > 27;
    NotOnDisk(MANIFEST_TARGET);
  }

  // ----- its places

  lemma FileTarget()
    ensures Target(FILE) == MOUNT + "/shell" + "/" + "a" && |Target(FILE)| == 18
    ensures Target(FILE)[..5] == "/temp" && Target(FILE)[..10] == MOUNT && Target(FILE)[..16] == MOUNT + "/" + "shell"
    ensures forall i :: 1 <= i < 18 && Target(FILE)[i] == '/' ==> i == 5 || i == 10 || i == 16
    ensures DirPath(MOUNT + "/shell") && MOUNT + "/" + "shell" == MOUNT + "/shell"
    ensures Target(FILE)[5] == Target(FILE)[10] == Target(FILE)[16] == '/'
  {
  }

  lemma NameIsPlaceable(dir: string, name: string)
    requires DirPath(dir) && |dir| > 1 && ValidName(name)
    ensures Placeable(dir + "/" + name)
  {
    hide ValidName, DirPath;
    JoinParts(dir, name);
    assert Join(dir, name) == dir + "/" + name;
  }

  lemma ShellNotOnTarget()
    ensures MOUNT + "/" + "shell" !in Disk() && Target(FILE) !in Disk()
  {
    assert (MOUNT + "/" + "shell")[12] == 'h' && SYSTEM[12] == 'y' && DATABASES[12] == 'y';
    assert |MOUNT + "/" + "shell"| == 16 && |Target(FILE)| == 18;
  }

  lemma FileIsPlain()
    ensures Plain(FILE)
  {
    hide Disk, WellFormed, Real;
    DiskIsWellFormed();
    Nodes();
    NodeIsPlain(Disk(), FILE);
  }

  lemma FileCanBeCopied()
    ensures CanCopy(Disk(), FILE)
  {
    hide Disk, Placeable, Target, DirPath, ValidName, MOUNT, FILE, Real, UpdateIncluded, ManifestIncluded, OnTheWay;
    Nodes();
    Names();
    FileIsPlain();
    FileIsTracked();
    UpdateIsTracked(FILE);
    TrackedPlace(FILE);
    if OnTheWay(Target(FILE), Target(FILE)) {
      AboveOf(Target(FILE), Target(FILE));
    }
    FileTarget();
    PrefixPlain(Target(FILE), 5);
    PrefixPlain(Target(FILE), 10);
    PrefixPlain(Target(FILE), 16);
    DeeperPlaces();
    ShellNotOnTarget();
    NameIsPlaceable(MOUNT, "shell");
    NameIsPlaceable(MOUNT + "/shell", "a");
    FileStarts();
  }

  lemma FileStarts()
    ensures FILE != "" && FILE[0] == '/' && |MOUNT + "/shell"| > 1 && |MOUNT| > 1
  {
  }

  lemma DiskIsReady()
    ensures TargetReady(Disk())
  {
    hide Disk, UpdateIncluded, CanCopy, FilesBelow, Target, FILE, MOUNT, DATABASES;
    Nodes();
    DiskFiles();
    FileCanBeCopied();
    StatePathLengths();
    NotOnDisk(UPDATE_STATE);
    NotOnDisk(MANIFEST_NEW);
    NotOnDisk(MANIFEST_TARGET);
    EtcNotOnTarget();
  }

  lemma StatePathLengths()
    ensures |UPDATE_STATE| > 27 && |MANIFEST_NEW| > 27 && |MANIFEST_TARGET| > 27
  {
  }

  lemma EtcNotOnTarget()
    ensures ETC !in Disk() && Target(OS_VERSION) !in Disk() && Target(OS_RELEASE) !in Disk()
  {
    assert |ETC| == 14 && |Target(OS_VERSION)| == 25 && |Target(OS_RELEASE)| == 25;
  }

  lemma DiskIsApart()
    ensures SourcesApart(Disk()) && MetadataPresent(Disk())
  {
    hide Disk;
    Nodes();
    NotOnDisk("/system/databases/install_manifest.db");
    NotOnDisk("/system/databases/install_manifest.new");
    NotOnDisk("/system/databases/install_manifest.prev");
    NotOnDisk("/system/databases/update_state.db");
  }

  /** On this disk a healthy machine's update succeeds. */
  lemma DiskCanUpdate()
    ensures WellFormed(Disk()) && CanUpdate(Disk())
  {
    hide Disk, WellFormed, CanRead, TargetReady, SourcesApart, MetadataPresent, FilesBelow, UpdateIncluded, Weight;
    hide OldList;
    DiskIsWellFormed();
    DiskReads();
    DiskIsReady();
    DiskIsApart();
    DiskFiles();
    DiskGenerates();
    KeptNone(Disk());
  }

  // ----- manifests that list one file in two spellings

  /** A doubled slash makes no difference to the kernel. */
  lemma {:induction false} Doubled(dir: string, name: string)
    requires Plain(dir) && |dir| > 1 && ValidName(name)
    ensures Real(dir + "//" + name) == dir + "/" + name && Plain(dir + "/" + name)
  {
    hide Real, LastSlash, ValidName, DirPath;
    NameIsPart(name);
    DirStartsWell(dir);
    DoubledCut(dir, name);
    RealStep(dir + "//" + name);
    RealStep(dir + "/");
    JoinPlain(dir, name);
  }

  lemma {:induction false} DoubledCut(dir: string, name: string)
    requires '/' !in name && |dir| > 1
    ensures
      var p, q := dir + "//" + name, dir + "/";
      && LastSlash(p) == |dir| + 1 && p[..|dir| + 1] == q && p[|dir| + 2..] == name
      && LastSlash(q) == |dir| && q[..|dir|] == dir && q[|dir| + 1..] == ""
  {
    hide LastSlash;
    var p, q := dir + "//" + name, dir + "/";
    assert p[|dir| + 1] == '/' && forall i :: |dir| + 1 < i < |p| ==> p[i] == name[i - |dir| - 2];
    LastSlashIs(p, |dir| + 1);
    LastSlashIs(q, |dir|);
  }

  lemma NameIsPart(name: string)
    requires ValidName(name)
    ensures '/' !in name && name != "" && name != "." && name != ".."
  {
  }

  const OLD := "/shell/b"
  const RESPELLED := "/shell//b"

  /** The disk with an old shell file on the target. */
  function OldDisk(): Tree {
    Disk()[MOUNT + "/shell" := Directory][Target(OLD) := Regular("")]
  }

  lemma OldDiskIsWellFormed()
    ensures WellFormed(OldDisk()) && IsFile(OldDisk(), Target(OLD))
  {
    hide Disk, WellFormed, WellPlaced, ValidName, DirPath, Real;
    DiskIsWellFormed();
    Nodes();
    Names();
    DirsPlain();
    OldTarget();
    ShellNotOnTarget();
    var t := Disk();
    PlaceIn(t, MOUNT, "shell");
    PutKeepsShape(t, MOUNT + "/shell", Directory);
    var u := t[MOUNT + "/shell" := Directory];
    PlaceIn(u, MOUNT + "/shell", "b");
    NotOnDiskAt(Target(OLD));
    PutKeepsShape(u, Target(OLD), Regular(""));
  }

  lemma OldTarget()
    ensures MOUNT + "/shell" + "/" + "b" == Target(OLD) && MOUNT + "/" + "shell" == MOUNT + "/shell"
    ensures DirPath(MOUNT + "/shell") && |Target(OLD)| == 18 && |MOUNT + "/shell"| == 16 && ValidName("b")
  {
  }

  lemma NotOnDiskAt(p: string)
    requires |p| == 18
    ensures p !in Disk()
  {
    hide Disk;
    if p in Disk() {
      NoOtherNodes(p);
      Lengths();
    }
  }

  lemma Lengths()
    ensures |FILE| == 8 && |OS_VERSION| == 15 && |OS_RELEASE| == 15 && |MOUNT| == 10 && |SYSTEM| == 17
  {
  }

  /** An entry for a path, as a manifest may list it. */
  function Listed(p: string): Entry { Entry(p, 0, Zeros()) }

  lemma OldPlaces()
    ensures Place(OLD) == Target(OLD) && Place(RESPELLED) == Target(OLD) && OLD != RESPELLED
    ensures UpdateIncluded(OLD) && UpdateIncluded(RESPELLED)
    ensures forall p :: p == OLD || p == RESPELLED ==> Proper(Listed(p)) && Clean(Listed(p))
  {
    hide Real, UpdateIncluded, Target, DirPath;
    ShellPath(OLD);
    ShellPath(RESPELLED);
    TopPlain();
    Names();
    OldSpelled();
    OldTarget();
    Doubled("/shell", "b");
    PlaceIs(OLD);
    PlaceIs(RESPELLED);
    MountedIsTarget(OLD);
  }

  lemma OldSpelled()
    ensures "/shell" + "/" + "b" == OLD && "/shell" + "//" + "b" == RESPELLED && |OLD| == 8 && |RESPELLED| == 9
    ensures OLD[0] == RESPELLED[0] == '/'
    ensures '|' !in OLD && '\n' !in OLD && '\0' !in OLD
    ensures '|' !in RESPELLED && '\n' !in RESPELLED && '\0' !in RESPELLED
  {
  }

  /** Two obsolete entries for the same file: two deletions are announced, and there is one file to delete. */
  lemma CountedTwice(t: Tree, o1: Entry, o2: Entry, news: seq<Entry>)
    requires Deletable(t, o1, news) && Deletable(t, o2, news) && Place(o1.path) == Place(o2.path)
    ensures DryCount(t, [o1, o2], news) == 2 && ObsoleteTargets(t, [o1, o2], news) == {Place(o1.path)}
    ensures Repeats(t, [o1, o2], news) == 1
  {
    hide Deletable, Place, ObsoleteTargets, DryCount, Repeats;
    assert [o1, o2][..1] == [o1] == [] + [o1] && [o1, o2] == [o1] + [o2];
    DryCountLast(t, [], o1, news);
    DryCountLast(t, [o1], o2, news);
    NothingObsolete(t, news);
    ObsoleteLast(t, [o1], news);
    ObsoleteLast(t, [o1, o2], news);
    DryCountExact(t, [o1, o2], news);
  }

  /** A manifest that lists the old file twice, in one spelling or in two: it loads, and counts the file twice. */
  lemma ListedTwice(news: seq<Entry>, p: string)
    requires (p == OLD || p == RESPELLED) && Lookup(news, OLD).None? && Lookup(news, RESPELLED).None?
    ensures
      var olds := [Listed(OLD), Listed(p)];
      && Parse(Print(olds), MAX_ENTRIES) == Some(olds) && DryCount(OldDisk(), olds, news) == 2
      && ObsoleteTargets(OldDisk(), olds, news) == {Target(OLD)} && Repeats(OldDisk(), olds, news) == 1
  {
    hide OldDisk, Parse, Print, UpdateIncluded, Target, Place, Proper, Clean, Lookup, WellFormed;
    var olds := [Listed(OLD), Listed(p)];
    OldDiskIsWellFormed();
    OldPlaces();
    RoundTrip(olds, MAX_ENTRIES);
    CountedTwice(OldDisk(), Listed(OLD), Listed(p), news);
  }

  /** An old entry that spells the new file another way counts as obsolete, and its deletion would undo the copy. */
  lemma NewRespelled()
    ensures
      var o, e := Listed("/shell//a"), Listed(FILE);
      Obsolete(o, [e]) && Place(o.path) == Place(e.path) && !NewApart([o], [e])
  {
    hide Real, UpdateIncluded, Target, DirPath, Place;
    var o, e := Listed("/shell//a"), Listed(FILE);
    ShellPath("/shell//a");
    TopPlain();
    Names();
    FileSpelled();
    FileIsPlain();
    Doubled("/shell", "a");
    PlaceIs("/shell//a");
    PlaceIs(FILE);
    assert o in [o] && e in [e];
    assert Place(o.path) in ObsoletePlaces([o], [e]) && Place(e.path) in Targets([e]);
  }

  lemma FileSpelled()
    ensures "/shell" + "/" + "a" == FILE && "/shell" + "//" + "a" == "/shell//a" && "/shell//a" != FILE
    ensures FILE[0] == "/shell//a"[0] == '/'
  {
  }

  const USERS := "/system/databases/users.db"

  /** The disk with the user database on the target. */
  function UsersDisk(): Tree { Disk()[Target(USERS) := Regular("root")] }

  /**
   The user database is not tracked, and yet an old entry that spells it another way makes
   the update delete it.
   */
  lemma UsersDeleted(news: seq<Entry>)
    requires Lookup(news, "/system//databases/users.db").None?
    ensures !ManifestIncluded(USERS) && WellFormed(UsersDisk())
    ensures ObsoleteTargets(UsersDisk(), [Listed("/system//databases/users.db")], news) == {Target(USERS)}
  {
    hide Real, UpdateIncluded, ManifestIncluded, Target, DirPath, Place, Disk, WellFormed, WellPlaced, Lookup;
    var o := Listed("/system//databases/users.db");
    UsersNotTracked();
    UsersPlace();
    UsersWellFormed();
    assert Deletable(UsersDisk(), o, news);
    assert o in [o];
  }

  lemma UsersWellFormed()
    ensures WellFormed(UsersDisk())
  {
    hide Real, Target, DirPath, Disk, WellFormed, WellPlaced, ValidName;
    DiskIsWellFormed();
    Nodes();
    DirsPlain();
    UsersSpelled();
    PlaceIn(Disk(), DATABASES, "users.db");
    NotOnDisk(Target(USERS));
    PutKeepsShape(Disk(), Target(USERS), Regular("root"));
  }

  lemma UsersSpelled()
    ensures DATABASES + "/" + "users.db" == Target(USERS) && |Target(USERS)| > 27 && ValidName("users.db")
    ensures |DATABASES| > 1
  {
  }

  lemma UsersNotTracked()
    ensures !ManifestIncluded(USERS)
  {
  }

  lemma SystemPath(p: string)
    requires p == "/system//databases/users.db" || p == "/system//databases/update_state.db"
    ensures UpdateIncluded(p)
  {
    hide Under, StateFile;
    SystemLetters(p);
    InSystem(p);
    NotState(p);
    NotUnder(p, "/limine", 1);
    NotUnder(p, "/system/databases/pkg", 8);
    NotUnder(p, "/home", 1);
    NotUnder(p, "/temp", 1);
    NotUnder(p, "/dev", 1);
    NotUnder(p, "/proc", 1);
  }

  lemma SystemLetters(p: string)
    requires p == "/system//databases/users.db" || p == "/system//databases/update_state.db"
    ensures |p| > 20 && p[0] == '/' && p[1] == 's' && p[2] == 'y' && p[8] == '/'
  {
  }

  lemma NotState(p: string)
    requires |p| > 20 && p[2] == 'y' && p[8] == '/'
    ensures !StateFile(p) && p != "/kernel.elf" && p != "/limine.conf" && p != "/limine-bios.sys"
    ensures p != "/shell/apps/install2disk.elf"
  {
    assert "/system/databases/install_manifest.db"[8] == 'd' && "/system/databases/install_manifest.new"[8] == 'd';
    assert "/system/databases/install_manifest.prev"[8] == 'd' && "/system/databases/update_state.db"[8] == 'd';
    assert "/system/databases/users.db"[8] == 'd' && "/shell/apps/install2disk.elf"[2] == 'h';
  }

  lemma InSystem(p: string)
    requires p == "/system//databases/users.db" || p == "/system//databases/update_state.db"
    ensures Under(p, "/system")
  {
    assert p[..7] == "/system";
  }

  lemma UsersPlace()
    ensures UpdateIncluded("/system//databases/users.db") && Place("/system//databases/users.db") == Target(USERS)
  {
    hide Real, UpdateIncluded, ManifestIncluded, Target, DirPath;
    SystemPath("/system//databases/users.db");
    SystemDatabases();
    UsersJoin();
    JoinPlain("/system/databases", "users.db");
    DeeperDoubled("users.db");
    PlaceIs("/system//databases/users.db");
    MountedIsTarget(USERS);
  }

  lemma UsersJoin()
    ensures Join("/system/databases", "users.db") == USERS && |USERS| > 1 && ValidName("users.db")
    ensures "/system//databases" + "/" + "users.db" == "/system//databases/users.db"
    ensures "/system//databases/users.db"[0] == '/'
  {
  }

  lemma SystemDatabases()
    ensures Plain("/system/databases") && Real("/system//databases") == "/system/databases"
  {
    hide Real, DirPath, ValidName;
    TopPlain();
    PlainName("databases");
    SystemJoin();
    Doubled("/system", "databases");
  }

  lemma SystemJoin()
    ensures "/system" + "/" + "databases" == "/system/databases"
    ensures "/system" + "//" + "databases" == "/system//databases"
    ensures "/system//databases"[0] == '/' && |"/system//databases"| > 1
  {
  }

  /** A name below a directory in another spelling. */
  lemma {:induction false} DeeperDoubled(name: string)
    requires ValidName(name)
    ensures Real("/system//databases" + "/" + name) == Join("/system/databases", name)
  {
    hide Real, LastSlash, DirPath;
    var dir := "/system//databases";
    var p := dir + "/" + name;
    SystemDatabases();
    SystemJoin();
    NameIsPart(name);
    assert p[|dir|] == '/' && forall i :: |dir| < i < |p| ==> p[i] == name[i - |dir| - 1];
    LastSlashIs(p, |dir|);
    assert p[..|dir|] == dir && p[|dir| + 1..] == name;
    RealStep(p);
  }

  /** An old entry for the state file in another spelling: no deletion is announced, and one is made. */
  lemma StateDeleted(news: seq<Entry>)
    requires Lookup(news, "/system//databases/update_state.db").None?
    ensures
      var olds := [Listed("/system//databases/update_state.db")];
      && DryCount(Disk(), olds, news) == 0 && Repeats(Disk(), olds, news) == 0
      && Removed(Disk(), olds, news) == {UPDATE_STATE} == StateRemoved(Disk(), olds, news)
  {
    hide Real, UpdateIncluded, ManifestIncluded, Target, DirPath, Place, Disk, Lookup, UPDATE_STATE;
    var o := Listed("/system//databases/update_state.db");
    StatePlace();
    StatePathLengths();
    NotOnDisk(UPDATE_STATE);
    assert !Deletable(Disk(), o, news) && [o][..0] == [] && o in [o] && Obsolete(o, news);
    assert ObsoleteTargets(Disk(), [o], news) == {};
  }

  lemma StatePlace()
    ensures UpdateIncluded("/system//databases/update_state.db")
    ensures Place("/system//databases/update_state.db") == UPDATE_STATE
  {
    hide Real, UpdateIncluded, ManifestIncluded, Target, DirPath;
    SystemPath("/system//databases/update_state.db");
    StateJoin();
    PlainName("update_state.db");
    SystemDatabases();
    JoinPlain("/system/databases", "update_state.db");
    DeeperDoubled("update_state.db");
    PlaceIs("/system//databases/update_state.db");
    MountedIsTarget("/system/databases/update_state.db");
    StateTargets();
  }

  lemma StateJoin()
    ensures Join("/system/databases", "update_state.db") == "/system/databases/update_state.db"
    ensures "/system//databases" + "/" + "update_state.db" == "/system//databases/update_state.db"
    ensures "/system//databases/update_state.db"[0] == '/' && |"/system/databases/update_state.db"| > 1
  {
  }
}
