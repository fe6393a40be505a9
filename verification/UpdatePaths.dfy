/** The paths that an update deals with: its own files, and where on the mounted disk a path of a manifest lies. */
module UpdatePaths {
  import opened Paths
  import opened ManifestFile

  const SYSTEM := MOUNT + "/system"
  const DATABASES := MOUNT + "/system/databases"
  const ETC := MOUNT + "/etc"
  const MANIFEST_TARGET := MOUNT + "/system/databases/install_manifest.db"
  const MANIFEST_NEW := MOUNT + "/system/databases/install_manifest.new"
  const MANIFEST_PREV := MOUNT + "/system/databases/install_manifest.prev"
  const UPDATE_STATE := MOUNT + "/system/databases/update_state.db"
  const DRYRUN_MANIFEST := "/temp/install2disk_manifest.new"
  const OS_VERSION := "/etc/os-version"
  const OS_RELEASE := "/etc/os-release"

  /** install_root_join with the mount point. */
  function Target(p: string): string { MOUNT + p }

  /** The node that the kernel takes the target of p for. */
  function Place(p: string): string { Real(Target(p)) }

  /** The files that an update writes whatever the manifests say. */
  const STATE_FILES := {UPDATE_STATE, MANIFEST_PREV, MANIFEST_NEW}
  const METADATA_FILES := {Target(OS_VERSION), Target(OS_RELEASE)}
  const FIXED_FILES := STATE_FILES + METADATA_FILES + {MANIFEST_TARGET, DRYRUN_MANIFEST}

  // ----- the fixed paths are plain

  predicate DirName(n: string) {
    n == "databases" || n == "etc" || n == "system" || n == "temp"
  }

  predicate StateName(n: string) {
    || n == "update_state.db" || n == "install_manifest.prev" || n == "install_manifest.new"
    || n == "install_manifest.db"
  }

  predicate OtherName(n: string) {
    n == "os-version" || n == "os-release" || n == "install2disk_manifest.new"
  }

  lemma DirNameIsValid(n: string)
    requires DirName(n)
    ensures ValidName(n)
  {
  }

  lemma StateNameIsValid(n: string)
    requires StateName(n)
    ensures ValidName(n)
  {
  }

  lemma OtherNameIsValid(n: string)
    requires OtherName(n)
    ensures ValidName(n)
  {
  }

  lemma PlainName(n: string)
    requires DirName(n) || StateName(n) || OtherName(n)
    ensures ValidName(n)
  {
    hide ValidName, DirName, StateName, OtherName;
    if DirName(n) {
      DirNameIsValid(n);
    } else if StateName(n) {
      StateNameIsValid(n);
    } else {
      OtherNameIsValid(n);
    }
  }

  lemma DirJoins()
    ensures Join(MOUNT, "system") == SYSTEM && Join(SYSTEM, "databases") == DATABASES && Join(MOUNT, "etc") == ETC
    ensures Join("/", "etc") == "/etc" && Join("/", "temp") == "/temp"
  {
  }

  lemma MetadataJoins()
    ensures Join("/etc", "os-version") == OS_VERSION && Join("/etc", "os-release") == OS_RELEASE
    ensures Join(ETC, "os-version") == Target(OS_VERSION) && Join(ETC, "os-release") == Target(OS_RELEASE)
  {
  }

  lemma DryRunJoin()
    ensures Join("/temp", "install2disk_manifest.new") == DRYRUN_MANIFEST
  {
  }

  lemma ManifestJoin()
    ensures Join(DATABASES, "install_manifest.db") == MANIFEST_TARGET
  {
  }

  lemma StateJoins()
    ensures Join(DATABASES, "update_state.db") == UPDATE_STATE
    ensures Join(DATABASES, "install_manifest.prev") == MANIFEST_PREV
    ensures Join(DATABASES, "install_manifest.new") == MANIFEST_NEW
  {
  }

  lemma ChildIsPlain(dir: string, name: string)
    requires Plain(dir) && (DirName(name) || StateName(name) || OtherName(name))
    ensures Plain(Join(dir, name))
  {
    hide Real, ValidName, Join, DirPath, DirName, StateName, OtherName;
    PlainName(name);
    JoinPlain(dir, name);
  }

  lemma DirsPlain()
    ensures Plain(SYSTEM) && Plain(DATABASES) && Plain(ETC) && Plain(MOUNT) && Plain("/etc") && Plain("/temp")
  {
    hide Real, DirPath, Join;
    RootIsPlain();
    MountIsPlain();
    DirJoins();
    ChildIsPlain("/", "etc");
    ChildIsPlain("/", "temp");
    ChildIsPlain(MOUNT, "etc");
    ChildIsPlain(MOUNT, "system");
    ChildIsPlain(SYSTEM, "databases");
  }

  lemma MetadataPlain()
    ensures Plain(OS_VERSION) && Plain(OS_RELEASE) && Plain(Target(OS_VERSION)) && Plain(Target(OS_RELEASE))
  {
    hide Real, DirPath, Join;
    DirsPlain();
    MetadataJoins();
    ChildIsPlain("/etc", "os-version");
    ChildIsPlain("/etc", "os-release");
    ChildIsPlain(ETC, "os-version");
    ChildIsPlain(ETC, "os-release");
  }

  lemma StatePlain()
    ensures Plain(UPDATE_STATE) && Plain(MANIFEST_PREV) && Plain(MANIFEST_NEW)
    ensures Plain(MANIFEST_TARGET) && Plain(DRYRUN_MANIFEST)
  {
    hide Real, DirPath, Join;
    DirsPlain();
    DryRunJoin();
    ManifestJoin();
    StateJoins();
    ChildIsPlain("/temp", "install2disk_manifest.new");
    ChildIsPlain(DATABASES, "update_state.db");
    ChildIsPlain(DATABASES, "install_manifest.prev");
    ChildIsPlain(DATABASES, "install_manifest.new");
    ChildIsPlain(DATABASES, "install_manifest.db");
  }

  // ----- places

  lemma PlaceIs(p: string)
    requires p != "" && p[0] == '/'
    ensures Place(p) == Mounted(Real(p))
    ensures Real(p) == "" || Real(p) != Place(p)
  {
    hide Real;
    RealMounted(p);
  }

  lemma PlainPlace(p: string)
    requires Plain(p) && p != "/"
    ensures Place(p) == Target(p) && Plain(Target(p)) && Target(p) != p
  {
    hide Real;
    PlaceIs(p);
    TargetIsDirPath(p);
  }

  lemma TargetIsDirPath(p: string)
    requires DirPath(p) && p != "/"
    ensures DirPath(Target(p))
  {
  }

  lemma TargetInjective(p: string, q: string)
    requires Target(p) == Target(q)
    ensures p == q
  {
    assert p == Target(p)[|MOUNT|..] && q == Target(q)[|MOUNT|..];
  }

  lemma TargetsDiffer(p: string, q: string)
    requires p != q
    ensures Target(p) != Target(q)
  {
    if Target(p) == Target(q) {
      TargetInjective(p, q);
    }
  }

  lemma UnderTargets(p: string, q: string)
    requires Under(Target(p), Target(q))
    ensures Under(p, q)
  {
    assert p == Target(p)[|MOUNT|..] && q == Target(q)[|MOUNT|..];
    assert Target(p)[..|Target(q)|] == Target(q);
    assert p[..|q|] == Target(p)[..|Target(q)|][|MOUNT|..];
    if |p| > |q| {
      assert Target(p)[|Target(q)|] == p[|q|];
    }
  }

  // ----- which paths are which

  lemma NotUnder(p: string, dir: string, i: nat)
    requires i < |p| && i < |dir| && p[i] != dir[i]
    ensures !Under(p, dir)
  {
  }

  lemma StateTargets()
    ensures MANIFEST_TARGET == Target("/system/databases/install_manifest.db")
    ensures MANIFEST_NEW == Target("/system/databases/install_manifest.new")
    ensures MANIFEST_PREV == Target("/system/databases/install_manifest.prev")
    ensures UPDATE_STATE == Target("/system/databases/update_state.db")
  {
  }

  lemma StateIsNotTracked()
    ensures !ManifestIncluded("/system/databases/install_manifest.db")
    ensures !ManifestIncluded("/system/databases/install_manifest.new")
    ensures !ManifestIncluded("/system/databases/install_manifest.prev")
    ensures !ManifestIncluded("/system/databases/update_state.db")
  {
  }

  lemma MetadataIsNotTracked(p: string)
    requires p == OS_VERSION || p == OS_RELEASE
    ensures !ManifestIncluded(p)
  {
    hide StateFile, LegacyBoot, Untracked, Under;
    NotUnder(p, "/EFI", 1);
    NotUnder(p, "/boot", 1);
    NotUnder(p, "/system", 1);
    NotUnder(p, "/shell", 1);
    NotUnder(p, "/system/drivers", 1);
    NotUnder(p, "/efi", 2);
  }

  lemma NotOverlapping(p: string)
    ensures Target(p) != p && Target(p) != DRYRUN_MANIFEST
  {
    assert |Target(p)| == |MOUNT| + |p|;
    assert Target(p)[6] == 'd' && DRYRUN_MANIFEST[6] == 'i';
  }

  /** Tracked files lie outside the target and are none of the files the update writes. */
  lemma TrackedPath(p: string)
    requires ManifestIncluded(p)
    ensures Target(p) != p && Target(p) !in FIXED_FILES
  {
    hide Target, ManifestIncluded, StateFile;
    NotOverlapping(p);
    StateIsNotTracked();
    MetadataIsNotTracked(OS_VERSION);
    MetadataIsNotTracked(OS_RELEASE);
    TargetsDiffer(p, "/system/databases/install_manifest.db");
    TargetsDiffer(p, "/system/databases/install_manifest.new");
    TargetsDiffer(p, "/system/databases/install_manifest.prev");
    TargetsDiffer(p, "/system/databases/update_state.db");
    TargetsDiffer(p, OS_VERSION);
    TargetsDiffer(p, OS_RELEASE);
    StateTargets();
  }

  lemma IncludedIsAbsolute(p: string)
    requires ManifestIncluded(p)
    ensures p != "" && p[0] == '/' && p != "/"
  {
  }

  /** A tracked path spelled plainly lies where its target path says, and on no fixed file. */
  lemma TrackedPlace(p: string)
    requires ManifestIncluded(p) && Plain(p)
    ensures Place(p) == Target(p) && Plain(Target(p)) && Target(p) != p && Target(p) !in FIXED_FILES
  {
    hide ManifestIncluded, Real, Target;
    IncludedIsAbsolute(p);
    PlainPlace(p);
    TrackedPath(p);
  }

  lemma OutsideMount(p: string, q: string)
    requires UpdateIncluded(p)
    ensures p != Target(q)
  {
    assert p[1] == 's' && Target(q)[1] == 't';
  }

  /** What of the system's directory is left out: package data, the update's own files and the users. */
  predicate SystemKeeps(p: string) {
    || Under(p, "/system/databases/pkg")
    || p in {"/system/databases/install_manifest.db", "/system/databases/install_manifest.new",
             "/system/databases/install_manifest.prev", "/system/databases/update_state.db",
             "/system/databases/users.db"}
  }

  /** The tracked paths: the boot files, the shell and the system but for what it keeps. */
  lemma TrackedAre(p: string)
    ensures ManifestIncluded(p) <==>
      Under(p, "/EFI") || Under(p, "/boot") || Under(p, "/efi") || Under(p, "/shell")
      || (Under(p, "/system") && !SystemKeeps(p))
  {
    hide Under;
    if TopTracked(p) || Under(p, "/system") {
      SomeLetters(p);
    }
    DriversInSystem(p);
  }

  lemma DriversInSystem(p: string)
    ensures Under(p, "/system/drivers") ==> Under(p, "/system")
    ensures Under(p, "/system/databases/pkg") ==> Under(p, "/system")
  {
    assert "/system/drivers"[..7] == "/system" && "/system/databases/pkg"[..7] == "/system";
    assert Under(p, "/system/drivers") ==> p[..7] == "/system/drivers"[..7] && p[7] == "/system/drivers"[7] == '/';
    assert Under(p, "/system/databases/pkg") ==> p[..7] == "/system/databases/pkg"[..7] && p[7] == '/';
  }

  lemma Begins(p: string, dir: string)
    requires Under(p, dir) && |dir| > 2
    ensures |p| > 2 && p[0] == dir[0] && p[1] == dir[1] && p[2] == dir[2]
  {
  }

  predicate TopTracked(p: string) {
    Under(p, "/EFI") || Under(p, "/boot") || Under(p, "/efi") || Under(p, "/shell")
  }

  lemma TopLetters(p: string)
    requires TopTracked(p) || Under(p, "/system")
    ensures |p| > 2 && p[0] == '/' && (p[1] == 'E' || p[1] == 'b' || p[1] == 'e' || p[1] == 's')
    ensures TopTracked(p) ==> p[1] != 's' || p[2] == 'h'
    ensures Under(p, "/system") ==> p[1] == 's' && p[2] == 'y'
  {
    hide Under;
    if Under(p, "/EFI") {
      Begins(p, "/EFI");
    }
    if Under(p, "/boot") {
      Begins(p, "/boot");
    }
    if Under(p, "/efi") {
      Begins(p, "/efi");
    }
    if Under(p, "/shell") {
      Begins(p, "/shell");
    }
    if Under(p, "/system") {
      Begins(p, "/system");
    }
  }

  /** The tracked directories are none of those left out, and the system's is none of the others. */
  lemma SomeLetters(p: string)
    requires TopTracked(p) || Under(p, "/system")
    ensures p != "" && p[0] == '/' && !LegacyBoot(p) && !OtherTop(p)
    ensures TopTracked(p) ==> !StateFile(p) && !Under(p, "/system/databases/pkg")
    ensures TopTracked(p) ==> !Under(p, "/system")
  {
    hide Under, TopTracked, StateFile, LegacyBoot, OtherTop;
    TopLetters(p);
    NotOtherTop(p);
    SystemLetters(p);
  }

  predicate OtherTop(p: string) {
    Under(p, "/home") || Under(p, "/temp") || Under(p, "/dev") || Under(p, "/proc") || Under(p, "/limine")
  }

  lemma NotOtherTop(p: string)
    requires |p| > 2 && (p[1] == 'E' || p[1] == 'b' || p[1] == 'e' || p[1] == 's')
    ensures !OtherTop(p) && !LegacyBoot(p)
  {
    hide Under;
    NotUnder(p, "/home", 1);
    NotUnder(p, "/temp", 1);
    NotUnder(p, "/dev", 1);
    NotUnder(p, "/proc", 1);
    NotUnder(p, "/limine", 1);
  }

  lemma SystemLetters(p: string)
    ensures StateFile(p) || Under(p, "/system/databases/pkg") ==> |p| > 2 && p[1] == 's' && p[2] == 'y'
  {
    hide Under;
    if Under(p, "/system/databases/pkg") {
      Begins(p, "/system/databases/pkg");
    }
  }

  /** The update's scope: the shell and the system but for what it keeps, without the installer itself. */
  lemma ScopeIs(p: string)
    ensures UpdateIncluded(p) <==>
      && p != "/shell/apps/install2disk.elf"
      && (Under(p, "/shell") || (Under(p, "/system") && !SystemKeeps(p)))
  {
    hide Under, ManifestIncluded, SystemKeeps;
    TrackedAre(p);
    if TopTracked(p) || Under(p, "/system") {
      SomeLetters(p);
    }
    DriversInSystem(p);
  }

  lemma UpdateIsTracked(p: string)
    requires UpdateIncluded(p)
    ensures ManifestIncluded(p)
  {
  }

  /** The first letters of what a path in an update's scope is respelled to. */
  lemma PlaceBelow(p: string, dir: string)
    requires Under(p, dir) && Plain(dir) && |dir| > 1 && p != "" && p[0] == '/'
    ensures Place(p) == "" || (Place(p) == Target(Real(p)) && Under(Real(p), dir))
  {
    hide Real, Target;
    PlaceIs(p);
    if Real(p) != "" {
      RealBelow(p, dir);
      MountedIsTarget(Real(p));
    }
  }

  lemma MountedIsTarget(p: string)
    requires |p| > 1
    ensures Mounted(p) == Target(p)
  {
  }

  lemma TopNames()
    ensures ValidName("shell") && ValidName("system") && ValidName("EFI") && ValidName("boot") && ValidName("efi")
  {
  }

  lemma TopJoins()
    ensures Join("/", "shell") == "/shell" && Join("/", "system") == "/system" && Join("/", "EFI") == "/EFI"
    ensures Join("/", "boot") == "/boot" && Join("/", "efi") == "/efi"
  {
  }

  lemma TopPlain()
    ensures Plain("/shell") && Plain("/system") && Plain("/EFI") && Plain("/boot") && Plain("/efi")
  {
    hide Real, DirPath, Join, ValidName;
    RootIsPlain();
    TopNames();
    TopJoins();
    JoinPlain("/", "shell");
    JoinPlain("/", "system");
    JoinPlain("/", "EFI");
    JoinPlain("/", "boot");
    JoinPlain("/", "efi");
  }

  /** What an update may remove lies in the system's or the shell's directory of the disk. */
  lemma UpdatePlace(p: string)
    requires UpdateIncluded(p)
    ensures Place(p) == "" || (Place(p) == Target(Real(p)) && (Under(Real(p), "/shell") || Under(Real(p), "/system")))
    ensures Place(p) !in METADATA_FILES + {DRYRUN_MANIFEST}
  {
    hide Real, Target, ManifestIncluded, Place, DirPath;
    TopPlain();
    if Under(p, "/shell") {
      PlaceBelow(p, "/shell");
    } else {
      DriversBelowSystem(p);
      PlaceBelow(p, "/system");
    }
    if Place(p) != "" {
      SystemIsNotEtc(Real(p));
    }
    NotOverlapping(Real(p));
    FixedAreNamed();
  }

  lemma DriversBelowSystem(p: string)
    requires UpdateIncluded(p) && !Under(p, "/shell")
    ensures Under(p, "/system")
  {
  }

  lemma SystemIsNotEtc(p: string)
    requires Under(p, "/shell") || Under(p, "/system")
    ensures Target(p) != Target(OS_VERSION) && Target(p) != Target(OS_RELEASE)
  {
    hide Target;
    assert p[1] == 's' && OS_VERSION[1] == 'e' && OS_RELEASE[1] == 'e';
    TargetsDiffer(p, OS_VERSION);
    TargetsDiffer(p, OS_RELEASE);
  }

  lemma FixedAreNamed()
    ensures "" !in FIXED_FILES
  {
  }

  /** What the refreshed manifest retains lies on none of the files that an update writes by name. */
  lemma RetainedPlace(p: string)
    requires !UpdateIncluded(p) && ManifestIncluded(p)
    ensures Place(p) !in FIXED_FILES
  {
    hide Real, Target, Place, DirPath;
    TopPlain();
    FixedAreNamed();
    if Under(p, "/EFI") {
      PlaceBelow(p, "/EFI");
    } else if Under(p, "/boot") {
      PlaceBelow(p, "/boot");
    } else if Under(p, "/efi") {
      PlaceBelow(p, "/efi");
    } else {
      PlaceBelow(p, "/shell");
    }
    if Place(p) != "" {
      BootIsNotFixed(Real(p));
    }
  }

  lemma BootIsNotFixed(p: string)
    requires Under(p, "/EFI") || Under(p, "/boot") || Under(p, "/efi") || Under(p, "/shell")
    ensures Target(p) !in FIXED_FILES
  {
    hide Target;
    StateTargets();
    NotOverlapping(p);
    assert p[1] != 's' || p[2] == 'h';
    assert p[1] != 'e' || p[2] == 'f';
    SecondLetters();
    TargetsDiffer(p, OS_VERSION);
    TargetsDiffer(p, OS_RELEASE);
    TargetsDiffer(p, "/system/databases/install_manifest.db");
    TargetsDiffer(p, "/system/databases/install_manifest.new");
    TargetsDiffer(p, "/system/databases/install_manifest.prev");
    TargetsDiffer(p, "/system/databases/update_state.db");
  }

  lemma SecondLetters()
    ensures OS_VERSION[2] == 't' && OS_RELEASE[2] == 't' && OS_VERSION[1] == 'e' && OS_RELEASE[1] == 'e'
    ensures var a := "/system/databases/install_manifest.db"; a[1] == 's' && a[2] == 'y'
    ensures var b := "/system/databases/install_manifest.new"; b[1] == 's' && b[2] == 'y'
    ensures var c := "/system/databases/install_manifest.prev"; c[1] == 's' && c[2] == 'y'
    ensures var d := "/system/databases/update_state.db"; d[1] == 's' && d[2] == 'y'
  {
  }
}
