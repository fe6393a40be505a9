/**
 The installer's recursive walk of the root file system: a scan that only counts, and a
 copy whose destination, the mount point, lies inside the tree being walked.
 */
module TreeCopy {
  import opened Paths
  import opened FileSystem
  import opened InstallFiles
  import opened TreeWalk

  // ----- what the walk is meant to reach

  predicate Skipped(p: string) {
    Under(p, MOUNT) || Under(p, "/proc") || Under(p, "/dev")
  }

  predicate Copyable(p: string) { !Skipped(p) }

  /** The regular files at or below src, except those on the target and in /proc and /dev. */
  ghost function Eligible(t: Tree, src: string): set<string> {
    FilesBelow(t, src, Copyable)
  }

  lemma EligibleIs(t: Tree, src: string)
    ensures Eligible(t, src) == FilesBelow(t, src, Copyable)
  {
  }

  /** Where a path of the source is copied to. */
  function Mirror(p: string): string {
    if p == "/" then MOUNT else MOUNT + p
  }

  function SizeOf(t: Tree, p: string): nat {
    if IsFile(t, p) then |t[p].content| else 0
  }

  function SizesOf(t: Tree): string -> nat { p => SizeOf(t, p) }

  ghost function Bytes(t: Tree, s: set<string>): nat { Sum(SizesOf(t), s) }

  lemma BytesUnion(t: Tree, a: set<string>, b: set<string>)
    requires a !! b
    ensures Bytes(t, a + b) == Bytes(t, a) + Bytes(t, b) && |a + b| == |a| + |b|
  {
    SumUnion(SizesOf(t), a, b);
  }

  lemma BytesAgree(t: Tree, u: Tree, s: set<string>)
    requires forall p :: p in s ==> SizeOf(t, p) == SizeOf(u, p)
    ensures Bytes(t, s) == Bytes(u, s)
  {
    SumAgree(SizesOf(t), SizesOf(u), s);
  }

  /** Nothing below a skipped directory is eligible. */
  lemma EligibleSkipped(t: Tree, src: string)
    requires Skipped(src)
    ensures Eligible(t, src) == {}
  {
    forall p | p in t && Below(p, src)
      ensures Skipped(p)
    {
      if Under(src, MOUNT) {
        BelowTrans(p, src, MOUNT);
      } else if Under(src, "/proc") {
        BelowTrans(p, src, "/proc");
      } else {
        BelowTrans(p, src, "/dev");
      }
    }
  }

  // ----- trees the walk can finish

  /** Every path that the walk visits and its mirror fit the buffers, and none is too deep. */
  ghost predicate Walkable(t: Tree) {
    forall p :: p in t && !Skipped(p) ==> |Mirror(p)| < PATH_MAX && Level(p) <= DEPTH_MAX
  }

  lemma MountLevel()
    ensures Level(MOUNT) == 2
  {
    NoSlashes("temp");
    NoSlashes("disk");
    OneSlash();
    SlashesOf("/", "temp");
    SlashesOf("/temp", "/");
    SlashesOf("/temp/", "disk");
    assert "/" + "temp" == "/temp" && "/temp" + "/" == "/temp/" && "/temp/" + "disk" == MOUNT;
  }

  /** The mount point is the only place where the walk meets the part it skips there. */
  lemma OnlyMountMet(src: string, name: string)
    requires DirPath(src) && ValidName(name) && !Under(src, MOUNT) && Under(Join(src, name), MOUNT)
    ensures Join(src, name) == MOUNT
  {
    JoinParts(src, name);
  }

  // ----- the scan

  lemma ChildPath(src: string, name: string)
    requires DirPath(src) && ValidName(name) && !Under(src, "/proc") && !Under(src, "/dev")
    ensures DirPath(Join(src, name)) && Mirror(Join(src, name)) == Join(Mirror(src), name)
    ensures src == "/" && (name == "proc" || name == "dev") ==> Skipped(Join(src, name))
    ensures !(src == "/" && (name == "proc" || name == "dev")) ==>
      !Under(Join(src, name), "/proc") && !Under(Join(src, name), "/dev")
  {
    hide Under;
    JoinParts(src, name);
    if src == "/" {
      RootChild(name, "proc");
      RootChild(name, "dev");
      assert "/" + "proc" == "/proc" && "/" + "dev" == "/dev";
    } else {
      DeeperChild(src, name, "/proc");
      DeeperChild(src, name, "/dev");
    }
  }

  lemma RootChild(name: string, dir: string)
    requires ValidName(name) && '/' !in dir
    ensures Under(Join("/", name), "/" + dir) <==> name == dir
  {
    var p := Join("/", name);
    assert p == "/" + name && p[1..] == name && ("/" + dir)[1..] == dir;
    if |dir| < |name| {
      assert p[|dir| + 1] == name[|dir|] != '/';
    }
    if "/" + dir <= p {
      assert name[..|dir|] == dir;
    }
  }

  lemma DeeperChild(src: string, name: string, dir: string)
    requires src != "/" && DirPath(src) && ValidName(name) && !Under(src, dir)
    requires |dir| > 1 && '/' !in dir[1..] && dir[0] == '/'
    ensures !Under(Join(src, name), dir)
  {
    var p := Join(src, name);
    if |dir| <= |src| {
      assert p[..|dir|] == src[..|dir|];
    } else {
      assert p[|src|] == '/' && dir[|src|] == dir[1..][|src| - 1] != '/';
    }
  }

  /** The walk comes to src at no greater depth than its level, and to the skipped part only at its top. */
  ghost predicate Met(t: Tree, src: string, depth: nat) {
    src in t && depth <= Level(src) && (Under(src, MOUNT) ==> src == MOUNT)
  }

  lemma MetShallow(t: Tree, src: string, depth: nat)
    requires !Under(src, "/proc") && !Under(src, "/dev")
    ensures Walkable(t) && Met(t, src, depth) ==> depth <= DEPTH_MAX && src in t
  {
    hide Level, Mirror;
    MountLevel();
  }

  lemma {:induction false} MetChild(t: Tree, src: string, name: string, depth: nat)
    requires WellFormed(t) && Walkable(t) && Met(t, src, depth) && DirPath(src) && !Skipped(src)
    requires name in ChildNames(t, src) && ValidName(name) && !(src == "/" && (name == "proc" || name == "dev"))
    ensures Met(t, Join(src, name), depth + 1)
    ensures |Join(src, name)| + 1 <= PATH_MAX && |Mirror(Join(src, name))| + 1 <= PATH_MAX
  {
    hide Level, WellFormed, Join, DirPath, ValidName, ChildNames, Under;
    ListedChild(t, src, name);
    ChildLevel(src, name);
    ChildPath(src, name);
    if Under(Join(src, name), MOUNT) {
      OnlyMountMet(src, name);
    }
    MirrorLonger(Join(src, name));
  }

  lemma MirrorLonger(p: string)
    ensures |p| <= |Mirror(p)|
  {
  }

  /**
   install_scan_tree: the plan grows by the files seen, all of them eligible, and by their
   bytes. A file is missed only if some call about it or a directory above it fails.
   */
  method ScanTree(fs: FileSystem, src: string, depth: nat, plan: Tally) returns (ok: bool, ghost seen: set<string>)
    requires fs.Valid() && Plain(src) && !Under(src, "/proc") && !Under(src, "/dev")
    modifies plan
    ensures seen <= Eligible(fs.tree, src)
    ensures ok ==> plan.items == old(plan.items) + |seen|
    ensures ok ==> plan.bytes == old(plan.bytes) + Bytes(fs.tree, seen)
    ensures ok && fs.Sighted() ==> seen == Eligible(fs.tree, src)
    ensures fs.Sighted() && Walkable(fs.tree) && Met(fs.tree, src, depth) ==> ok
    decreases if depth > DEPTH_MAX then 0 else DEPTH_MAX + 1 - depth, 1
  {
    hide Real, Under, Join, DirPath, ValidName, FilesBelow, Bytes, WellFormed, FileSystem.Valid, Walkable, Met, Level;
    ValidTree(fs);
    MetShallow(fs.tree, src, depth);
    NoBytes(fs.tree);
    seen := {};
    if depth > DEPTH_MAX {
      return false, seen;
    }
    if Under(src, MOUNT) {
      EligibleSkipped(fs.tree, src);
      return true, seen;
    }
    var kind := fs.StatType(src);
    if kind == AFile {
      LeafBytes(fs.tree, src);
      var size := fs.StatSize(src);
      if size.Some? {
        plan.items, plan.bytes := plan.items + 1, plan.bytes + size.value;
        seen := {src};
      }
      return true, seen;
    }
    if kind != ADirectory {
      if !IsDir(fs.tree, src) {
        LeafBytes(fs.tree, src);
      }
      return true, seen;
    }
    ok, seen := ScanChildren(fs, src, depth, plan);
  }

  method ScanChildren(fs: FileSystem, src: string, depth: nat, plan: Tally) returns (ok: bool, ghost seen: set<string>)
    requires fs.Valid() && Plain(src) && !Skipped(src) && IsDir(fs.tree, src) && depth <= DEPTH_MAX
    modifies plan
    ensures seen <= Eligible(fs.tree, src)
    ensures ok ==> plan.items == old(plan.items) + |seen|
    ensures ok ==> plan.bytes == old(plan.bytes) + Bytes(fs.tree, seen)
    ensures ok && fs.Sighted() ==> seen == Eligible(fs.tree, src)
    ensures fs.Sighted() && Walkable(fs.tree) && Met(fs.tree, src, depth) ==> ok
    decreases DEPTH_MAX + 1 - depth, 0
  {
    hide Real, Under, Join, DirPath, ValidName, FilesBelow, Bytes, Covered, WellFormed, FileSystem.Valid, ChildNames;
    hide Walkable, Met, Level, Mirror;
    ValidTree(fs);
    ghost var t, names := fs.tree, fs.Children(src);
    Listing(t, src, names);
    CoverAll(t, src, names, Copyable);
    CoverNone(t, src, names, Copyable);
    NoBytes(t);
    seen := {};
    var count := fs.ChildCount(src);
    if count.None? {
      return false, seen;
    }
    var i := 0;
    while i < count.value
      invariant i <= count.value && seen <= Covered(t, src, names, i, Copyable)
      invariant fs.Sighted() ==> seen == Covered(t, src, names, i, Copyable)
      invariant plan.items == old(plan.items) + |seen| && plan.bytes == old(plan.bytes) + Bytes(t, seen)
    {
      CoverWithin(t, src, names, i, Copyable);
      ghost var more: set<string> := {};
      var name := fs.ChildName(src, i);
      if name.Some? {
        ok, more := ScanChild(fs, src, name.value, depth, plan);
        if !ok {
          return;
        }
      }
      SeenNext(t, src, names, i, seen, more);
      seen := seen + more;
      i := i + 1;
    }
    ok := true;
  }

  /** What the loop does with one name that it got. */
  method ScanChild(fs: FileSystem, src: string, name: string, depth: nat, plan: Tally)
    returns (ok: bool, ghost seen: set<string>)
    requires fs.Valid() && Plain(src) && !Skipped(src) && ValidName(name) && depth <= DEPTH_MAX
    modifies plan
    ensures seen <= Eligible(fs.tree, Join(src, name))
    ensures ok ==> plan.items == old(plan.items) + |seen|
    ensures ok ==> plan.bytes == old(plan.bytes) + Bytes(fs.tree, seen)
    ensures ok && fs.Sighted() ==> seen == Eligible(fs.tree, Join(src, name))
    ensures fs.Sighted() && Walkable(fs.tree) && Met(fs.tree, src, depth) && name in ChildNames(fs.tree, src) ==> ok
    decreases DEPTH_MAX - depth, 2
  {
    hide Real, Under, Join, DirPath, ValidName, FilesBelow, Bytes, WellFormed, FileSystem.Valid, ChildNames, Walkable;
    hide Met;
    hide Level, Mirror;
    ValidTree(fs);
    NoBytes(fs.tree);
    seen := {};
    var child := Join(src, name);
    ChildPath(src, name);
    JoinPlain(src, name);
    if src == "/" && (name == "proc" || name == "dev") {
      EligibleSkipped(fs.tree, child);
      return true, seen;
    }
    if Walkable(fs.tree) && Met(fs.tree, src, depth) && name in ChildNames(fs.tree, src) {
      MetChild(fs.tree, src, name, depth);
    }
    if |child| + 1 > PATH_MAX {
      return false, seen;
    }
    ok, seen := ScanTree(fs, child, depth + 1, plan);
  }

  /** What the first i children lead to is part of the whole. */
  lemma CoverWithin(t: Tree, src: string, names: seq<string>, i: nat, keep: string -> bool)
    requires i <= |names|
    ensures Covered(t, src, names, i, keep) <= FilesBelow(t, src, keep)
  {
  }

  /** The next child adds files not seen before. */
  lemma SeenNext(t: Tree, src: string, names: seq<string>, i: nat, seen: set<string>, more: set<string>)
    requires WellFormed(t) && DirPath(src) && i < |names|
    requires forall n :: n in names ==> ValidName(n)
    requires forall j, k :: 0 <= j < k < |names| ==> names[j] != names[k]
    requires seen <= Covered(t, src, names, i, Copyable) && more <= Eligible(t, Join(src, names[i]))
    ensures seen !! more && seen + more <= Covered(t, src, names, i + 1, Copyable)
    ensures |seen + more| == |seen| + |more| && Bytes(t, seen + more) == Bytes(t, seen) + Bytes(t, more)
    ensures seen == Covered(t, src, names, i, Copyable) && more == Eligible(t, Join(src, names[i])) ==>
      seen + more == Covered(t, src, names, i + 1, Copyable)
  {
    hide *;
    EligibleIs(t, Join(src, names[i]));
    CoverNext(t, src, names, i, Copyable);
    BytesUnion(t, seen, more);
  }

  lemma NoBytes(t: Tree)
    ensures Bytes(t, {}) == 0
  {
  }

  lemma LeafBytes(t: Tree, src: string)
    requires WellFormed(t) && DirPath(src) && !IsDir(t, src) && !Skipped(src)
    ensures Eligible(t, src) == if IsFile(t, src) then {src} else {}
    ensures Bytes(t, Eligible(t, src)) == SizeOf(t, src)
  {
    LeafFiles(t, src, Copyable);
    if IsFile(t, src) {
      SumRemove(SizesOf(t), {src}, src);
      assert {src} - {src} == {};
    }
  }

  // ----- the copy

  /** A path strictly inside the mount point: the only place the copy writes to. */
  predicate Inside(p: string) {
    Under(p, MOUNT) && p != MOUNT
  }

  ghost predicate Agree(t0: Tree, t1: Tree, p: string) {
    (p in t0 <==> p in t1) && (p in t0 ==> t1[p] == t0[p])
  }

  ghost predicate SameOutside(t0: Tree, t1: Tree) {
    forall p :: !Inside(p) ==> Agree(t0, t1, p)
  }

  ghost predicate IsMirror(q: string, s: set<string>) {
    exists p :: p in s && q == Mirror(p)
  }

  /**
   t1 is t0 with the files of s copied to their mirrors: apart from those, no node has
   changed and only directories have been added.
   */
  ghost predicate Copied(t0: Tree, t1: Tree, s: set<string>) {
    && (forall p :: p in s ==> p in t0 && Mirror(p) in t1 && t1[Mirror(p)] == t0[p])
    && (forall q :: q in t0 && !IsMirror(q, s) ==> q in t1 && t1[q] == t0[q])
    && (forall q :: q in t1 && q !in t0 && !IsMirror(q, s) ==> t1[q] == Directory)
  }

  lemma MirrorInjective(p: string, q: string)
    requires Mirror(p) == Mirror(q) && p != "" && q != ""
    ensures p == q
  {
    assert p == "/" || p == Mirror(p)[|MOUNT|..];
    assert q == "/" || q == Mirror(q)[|MOUNT|..];
  }

  lemma MirrorInside(p: string)
    requires DirPath(p)
    ensures Under(Mirror(p), MOUNT) && (p != "/" ==> Inside(Mirror(p)))
  {
  }

  lemma CopiedThenDir(t: Tree, q: string)
    requires q !in t
    ensures Copied(t, t[q := Directory], {})
  {
  }

  lemma CopiedFile(t: Tree, p: string)
    requires p in t
    ensures Copied(t, t[Mirror(p) := t[p]], {p})
  {
    assert IsMirror(Mirror(p), {p});
  }

  /** Two copies in a row of disjoint sets of files that neither of them overwrites. */
  lemma CopiedTwice(t0: Tree, t1: Tree, t2: Tree, a: set<string>, b: set<string>)
    requires Copied(t0, t1, a) && Copied(t1, t2, b) && a !! b && "" !in a + b
    requires forall p :: p in b ==> p in t0 && t1[p] == t0[p]
    ensures Copied(t0, t2, a + b)
  {
    forall q | !IsMirror(q, a + b)
      ensures !IsMirror(q, a) && !IsMirror(q, b)
    {
      assert forall p :: p in a || p in b ==> p in a + b;
    }
    forall p | p in a
      ensures !IsMirror(Mirror(p), b)
    {
      if IsMirror(Mirror(p), b) {
        var r :| r in b && Mirror(p) == Mirror(r);
        MirrorInjective(p, r);
      }
    }
  }

  /** What the mount point holds so far mirrors nodes of the source, each of its own kind. */
  ghost predicate Echo(t: Tree) {
    forall q :: q in t && Inside(q) ==>
      var p := q[|MOUNT|..];
      p in t && !Skipped(p) && (t[q].Directory? <==> t[p].Directory?)
  }

  lemma SourceOf(p: string)
    requires p != "/" && p != ""
    ensures Mirror(p)[|MOUNT|..] == p && Mirror(p) == MOUNT + p
  {
  }

  /** A node and its mirror are never one the source of the other. */
  lemma MirrorUnskipped(p: string)
    requires !Skipped(p) && DirPath(p)
    ensures Mirror(p) != p && !Inside(p)
  {
    MirrorInside(p);
  }

  lemma EchoAdd(t: Tree, p: string, n: Node)
    requires Echo(t) && p in t && !Skipped(p) && DirPath(p) && p != "/" && (n.Directory? <==> t[p].Directory?)
    ensures Echo(t[Mirror(p) := n])
  {
    var t' := t[Mirror(p) := n];
    SourceOf(p);
    MirrorUnskipped(p);
    hide DirPath, Mirror;
    forall q | q in t' && Inside(q)
      ensures
        var r := q[|MOUNT|..];
        r in t' && !Skipped(r) && (t'[q].Directory? <==> t'[r].Directory?)
    {
      var r := q[|MOUNT|..];
      if q != Mirror(p) {
        assert q in t && r in t && !Skipped(r);
      }
      if r == Mirror(p) {
        MirrorSkipped(p);
      }
    }
  }

  lemma EchoKind(t: Tree, p: string)
    requires Echo(t) && p in t && !Skipped(p) && DirPath(p) && p != "/"
    ensures Mirror(p) in t ==> (t[Mirror(p)].Directory? <==> t[p].Directory?)
  {
    SourceOf(p);
    MirrorInside(p);
  }

  lemma MirrorSkipped(p: string)
    requires DirPath(p)
    ensures Skipped(Mirror(p))
  {
    MirrorInside(p);
  }

  /** Where a node is mirrored: in the mirror of its parent, under its own name. */
  lemma MirrorPlace(t: Tree, p: string)
    requires WellFormed(t) && p in t && p != "/"
    ensures ValidName(Base(p)) && DirPath(Parent(p)) && p == Join(Parent(p), Base(p))
    ensures Mirror(p) == Join(Mirror(Parent(p)), Base(p))
    ensures Parent(Mirror(p)) == Mirror(Parent(p)) && Base(Mirror(p)) == Base(p)
    ensures IsDir(t, Mirror(Parent(p))) ==> Creatable(t, Mirror(p))
  {
    assert WellPlaced(t, p);
    var d, n := Parent(p), Base(p);
    MirrorJoin(d, n);
    MirrorIsDirPath(d);
    hide ValidName, DirPath, Join, Parent, Base, Mirror, WellFormed;
    JoinParts(Mirror(d), n);
  }

  lemma MirrorJoin(d: string, n: string)
    requires DirPath(d) && ValidName(n)
    ensures Mirror(Join(d, n)) == Join(Mirror(d), n)
  {
    JoinParts(d, n);
    if d == "/" {
      assert MOUNT + ("/" + n) == MOUNT + "/" + n;
    } else {
      assert MOUNT + (d + "/" + n) == MOUNT + d + "/" + n;
    }
  }

  lemma MirrorIsDirPath(d: string)
    requires DirPath(d)
    ensures DirPath(Mirror(d))
  {
    if d != "/" {
      assert Mirror(d)[|Mirror(d)| - 1] == d[|d| - 1];
    }
  }

  /** The conditions under which a healthy machine copies src. */
  ghost predicate Ready(t: Tree, src: string, depth: nat) {
    && Walkable(t) && Met(t, src, depth) && Echo(t)
    && (src == "/" || Skipped(src) || IsDir(t, Mirror(Parent(src))))
  }

  /** Agreement on everything that the walk may read. */
  ghost predicate SameSource(t0: Tree, t1: Tree) {
    forall p :: !Skipped(p) ==> Agree(t0, t1, p)
  }

  /** The walk sees the same eligible files however far the copy has got. */
  lemma EligibleAgree(t0: Tree, t1: Tree, src: string)
    requires SameSource(t0, t1)
    ensures Eligible(t0, src) == Eligible(t1, src)
    ensures forall p :: p in Eligible(t0, src) ==> p in t0 && p in t1 && t1[p] == t0[p]
    ensures Bytes(t0, Eligible(t0, src)) == Bytes(t1, Eligible(t1, src))
  {
    forall p
      ensures p in Eligible(t0, src) <==> p in Eligible(t1, src)
    {
      if !Skipped(p) {
        assert Agree(t0, t1, p);
      }
    }
    forall p | p in Eligible(t0, src)
      ensures p in t1 && t1[p] == t0[p]
    {
      assert Agree(t0, t1, p);
    }
    BytesAgree(t0, t1, Eligible(t0, src));
  }

  lemma OutsideIsSource(t0: Tree, t1: Tree)
    requires SameOutside(t0, t1)
    ensures SameSource(t0, t1)
  {
  }

  /** A directory outside the mount point lists the same children throughout. */
  lemma ChildrenAgree(t0: Tree, t1: Tree, dir: string)
    requires WellFormed(t0) && WellFormed(t1) && SameOutside(t0, t1) && !Under(dir, MOUNT)
    ensures ChildNames(t0, dir) == ChildNames(t1, dir)
  {
    ChildrenCarry(t0, t1, dir);
    ChildrenCarry(t1, t0, dir);
  }

  lemma ChildrenCarry(t0: Tree, t1: Tree, dir: string)
    requires SameOutside(t0, t1) && !Under(dir, MOUNT)
    ensures ChildNames(t0, dir) <= ChildNames(t1, dir)
  {
    forall p | p in t0 && Parent(p) == dir
      ensures p in t1
    {
      if Inside(p) {
        ParentBelow(p, MOUNT);
      }
      assert Agree(t0, t1, p);
    }
  }

  lemma CoveredPaths(t: Tree, src: string, names: seq<string>, i: nat)
    requires WellFormed(t) && i <= |names|
    ensures "" !in Covered(t, src, names, i, Copyable)
  {
    assert "" in t ==> WellPlaced(t, "");
  }

  lemma SameOutsideTrans(t0: Tree, t1: Tree, t2: Tree)
    requires SameOutside(t0, t1) && SameOutside(t1, t2)
    ensures SameOutside(t0, t2)
  {
    forall p | !Inside(p)
      ensures Agree(t0, t2, p)
    {
      assert Agree(t0, t1, p) && Agree(t1, t2, p);
    }
  }

  lemma WriteInside(t0: Tree, t1: Tree, q: string)
    requires Inside(q) && t1 - {q} == t0 - {q}
    ensures SameOutside(t0, t1)
  {
    forall p | !Inside(p)
      ensures Agree(t0, t1, p)
    {
      assert p in t1 - {q} <==> p in t0 - {q};
    }
  }

  /** One more child: what the recursive call adds to the files copied so far. */
  lemma CopyNext(t0: Tree, t1: Tree, t2: Tree, src: string, names: seq<string>, i: nat,
                 done: set<string>, more: set<string>)
    requires WellFormed(t0) && WellFormed(t1) && DirPath(src) && i < |names|
    requires forall n :: n in names ==> ValidName(n)
    requires forall j, k :: 0 <= j < k < |names| ==> names[j] != names[k]
    requires SameOutside(t0, t1) && SameOutside(t1, t2)
    requires done <= Covered(t0, src, names, i, Copyable) && more <= Eligible(t1, Join(src, names[i]))
    requires Copied(t0, t1, done) && Copied(t1, t2, more)
    ensures SameOutside(t0, t2) && Copied(t0, t2, done + more)
    ensures done + more <= Covered(t0, src, names, i + 1, Copyable)
    ensures |done + more| == |done| + |more| && Bytes(t0, done + more) == Bytes(t0, done) + Bytes(t1, more)
    ensures done == Covered(t0, src, names, i, Copyable) && more == Eligible(t1, Join(src, names[i])) ==>
      done + more == Covered(t0, src, names, i + 1, Copyable)
  {
    hide *;
    var child := Join(src, names[i]);
    EligibleIs(t0, child);
    OutsideIsSource(t0, t1);
    EligibleAgree(t0, t1, child);
    SeenNext(t0, src, names, i, done, more);
    CoveredPaths(t0, src, names, i + 1);
    SameOutsideTrans(t0, t1, t2);
    assert forall p :: p in more ==> p in t0 && p in t1 && t1[p] == t0[p];
    DoneAgree(t0, t1, child, more);
    CopiedTwice(t0, t1, t2, done, more);
  }

  // ----- directories

  /** Every directory at or below src, empty or not, has its mirror. */
  ghost predicate DirsMirrored(t0: Tree, t1: Tree, src: string) {
    forall p :: IsDir(t0, p) && Below(p, src) && !Skipped(p) ==> IsDir(t1, Mirror(p))
  }

  /** The same below the first i children. */
  ghost predicate DirsCovered(t0: Tree, t1: Tree, src: string, names: seq<string>, i: nat)
    requires i <= |names|
  {
    forall k :: 0 <= k < i ==> DirsMirrored(t0, t1, Join(src, names[k]))
  }

  lemma NoDirsSkipped(t0: Tree, t1: Tree, src: string)
    requires Skipped(src)
    ensures DirsMirrored(t0, t1, src)
  {
    forall p | Below(p, src)
      ensures Skipped(p)
    {
      if Under(src, MOUNT) {
        BelowTrans(p, src, MOUNT);
      } else if Under(src, "/proc") {
        BelowTrans(p, src, "/proc");
      } else {
        BelowTrans(p, src, "/dev");
      }
    }
  }

  lemma NoDirsInLeaf(t0: Tree, t1: Tree, src: string)
    requires WellFormed(t0) && DirPath(src) && !IsDir(t0, src)
    ensures DirsMirrored(t0, t1, src)
  {
    hide WellFormed, Below, Skipped, Mirror, DirPath;
    forall p | IsDir(t0, p) && Below(p, src)
      ensures false
    {
      AncestorIsDir(t0, p, src);
    }
  }

  /** Copying further files leaves the mirrors that are there. */
  lemma DirsStay(t0: Tree, t1: Tree, t2: Tree, src: string, more: set<string>)
    requires WellFormed(t0) && SameOutside(t0, t1) && Copied(t1, t2, more) && DirsMirrored(t0, t1, src)
    requires forall p :: p in more ==> IsFile(t1, p) && p != ""
    ensures DirsMirrored(t0, t2, src)
  {
    hide Copied, Below, Mirror, Skipped;
    OutsideIsSource(t0, t1);
    forall p | IsDir(t0, p) && Below(p, src) && !Skipped(p)
      ensures IsDir(t2, Mirror(p))
    {
      assert WellPlaced(t0, p) && Agree(t0, t1, p);
      DirKept(t1, t2, p, more);
    }
  }

  lemma DirsThrough(t0: Tree, t1: Tree, t2: Tree, src: string)
    requires SameSource(t0, t1) && DirsMirrored(t1, t2, src)
    ensures DirsMirrored(t0, t2, src)
  {
    hide Below, Mirror, Skipped;
    assert forall p :: !Skipped(p) ==> Agree(t0, t1, p);
  }

  lemma DirsNext(t0: Tree, t1: Tree, t2: Tree, src: string, names: seq<string>, i: nat, more: set<string>)
    requires WellFormed(t0) && SameOutside(t0, t1) && Copied(t1, t2, more) && i < |names|
    requires forall p :: p in more ==> IsFile(t1, p) && p != ""
    requires DirsCovered(t0, t1, src, names, i) && DirsMirrored(t1, t2, Join(src, names[i]))
    ensures DirsCovered(t0, t2, src, names, i + 1)
  {
    hide Copied, DirsMirrored, WellFormed, SameOutside, Join;
    OutsideIsSource(t0, t1);
    forall k | 0 <= k < i
      ensures DirsMirrored(t0, t2, Join(src, names[k]))
    {
      DirsStay(t0, t1, t2, Join(src, names[k]), more);
    }
    DirsThrough(t0, t1, t2, Join(src, names[i]));
  }

  lemma DirsAll(t0: Tree, t1: Tree, src: string, names: seq<string>)
    requires WellFormed(t0) && DirPath(src) && IsDir(t1, Mirror(src))
    requires forall n :: n in ChildNames(t0, src) ==> n in names
    requires DirsCovered(t0, t1, src, names, |names|)
    ensures DirsMirrored(t0, t1, src)
  {
    hide WellFormed, Below, Skipped, Mirror, DirPath, Join, ChildNames;
    forall p | IsDir(t0, p) && Below(p, src) && !Skipped(p)
      ensures IsDir(t1, Mirror(p))
    {
      if p != src {
        var n := ChildTowards(t0, p, src);
        var k :| 0 <= k < |names| && names[k] == n;
      }
    }
  }

  /**
   install_copy_tree. Whatever happens, nothing outside the mount point changes; on
   success `done` are the files that have been copied, each to its mirrored path and
   counted once. They are all the eligible files of the tree the walk started from, and
   every directory has been made as well, unless some call that looks at a path or lists a
   directory failed.
   */
  method CopyTree(fs: FileSystem, src: string, dst: string, depth: nat, tally: Tally)
    returns (ok: bool, ghost done: set<string>)
    requires fs.Valid() && Plain(src) && !Under(src, "/proc") && !Under(src, "/dev")
    requires dst == Mirror(src) && IsDir(fs.tree, MOUNT)
    modifies fs, tally
    ensures fs.Valid() && SameOutside(old(fs.tree), fs.tree)
    ensures done <= Eligible(old(fs.tree), src)
    ensures ok ==> Copied(old(fs.tree), fs.tree, done)
    ensures ok ==> tally.items == old(tally.items) + |done|
    ensures ok ==> tally.bytes == old(tally.bytes) + Bytes(old(fs.tree), done)
    ensures ok && fs.Sighted() ==> done == Eligible(old(fs.tree), src)
    ensures ok && fs.Sighted() ==> DirsMirrored(old(fs.tree), fs.tree, src)
    ensures ok && src in old(fs.tree) && Echo(old(fs.tree)) ==> Echo(fs.tree)
    ensures fs.healthy && Ready(old(fs.tree), src, depth) ==> ok
    decreases if depth > DEPTH_MAX then 0 else DEPTH_MAX + 1 - depth, 1
  {
    hide Real, Under, Join, DirPath, ValidName, FilesBelow, Bytes, Covered, WellFormed, Copied, Inside, SameOutside;
    hide Mirror;
    hide FileSystem.Valid, Walkable, Met, Level, Echo, DirsMirrored;
    ghost var t0 := fs.tree;
    done := {};
    MetShallow(t0, src, depth);
    SameAsItself(t0);
    NoBytes(t0);
    ValidTree(fs);
    RootIsDir(t0);
    if depth > DEPTH_MAX {
      return false, done;
    }
    if Under(src, MOUNT) {
      EligibleSkipped(t0, src);
      NoDirsSkipped(t0, t0, src);
      return true, done;
    }
    var kind := fs.StatType(src);
    if kind == AFile {
      LeafBytes(t0, src);
      ok := CopyLeaf(fs, src, dst, tally);
      NoDirsInLeaf(t0, fs.tree, src);
      return ok, {src};
    }
    if kind != ADirectory {
      if !IsDir(t0, src) {
        LeafBytes(t0, src);
        NoDirsInLeaf(t0, t0, src);
      }
      return true, done;
    }
    ok := MakeTarget(fs, src, dst);
    if !ok {
      return;
    }
    ok, done := CopyChildren(fs, t0, src, dst, depth, tally);
  }

  lemma SameAsItself(t: Tree)
    ensures SameOutside(t, t) && Copied(t, t, {})
  {
  }

  method CopyLeaf(fs: FileSystem, src: string, dst: string, tally: Tally) returns (ok: bool)
    requires fs.Valid() && Plain(src) && !Skipped(src) && dst == Mirror(src) && IsFile(fs.tree, src)
    modifies fs, tally
    ensures fs.Valid() && SameOutside(old(fs.tree), fs.tree)
    ensures ok ==> Copied(old(fs.tree), fs.tree, {src})
    ensures ok ==> tally.items == old(tally.items) + 1
    ensures ok ==> tally.bytes == old(tally.bytes) + SizeOf(old(fs.tree), src)
    ensures ok && Echo(old(fs.tree)) ==> Echo(fs.tree)
    ensures fs.healthy && Echo(old(fs.tree)) && IsDir(old(fs.tree), Mirror(Parent(src))) ==> ok
  {
    hide Real, Under, FilesBelow, Bytes, WellFormed, Copied, SameOutside, Mirror, FileSystem.Valid, Inside, Echo;
    hide Creatable;
    hide Parent;
    ghost var t0 := fs.tree;
    ValidTree(fs);
    RootIsDir(t0);
    MirrorPlain(src);
    MirrorInside(src);
    OutsideMirror(src);
    MirrorPlace(t0, src);
    if Echo(t0) {
      EchoKind(t0, src);
      EchoAdd(t0, src, t0[src]);
    }
    ok := CopyFile(fs, src, dst, tally);
    WriteInside(t0, fs.tree, dst);
    CopiedFile(t0, src);
  }

  lemma MirrorPlain(p: string)
    requires Plain(p)
    ensures Plain(Mirror(p))
  {
    hide Real;
    MountIsPlain();
    RealMounted(p);
    if p != "/" {
      MountedIsDirPath(p);
    }
  }

  lemma MountedIsDirPath(p: string)
    requires DirPath(p) && p != "/"
    ensures DirPath(MOUNT + p)
  {
  }

  lemma RootIsDir(t: Tree)
    requires WellFormed(t)
    ensures IsDir(t, "/")
  {
  }

  lemma OutsideMirror(p: string)
    requires !Skipped(p) && DirPath(p)
    ensures Mirror(p) != p
  {
    MirrorInside(p);
  }

  /** A source directory whose parent's mirror is there already. */
  ghost predicate CanMirror(t: Tree, src: string) {
    !Skipped(src) && IsDir(t, src) && Echo(t) && (src == "/" || IsDir(t, Mirror(Parent(src))))
  }

  lemma TargetFits(t: Tree, src: string)
    requires WellFormed(t) && DirPath(src) && !Skipped(src) && IsDir(t, src) && Echo(t)
    ensures src != "/" ==> (Mirror(src) in t ==> IsDir(t, Mirror(src)))
    ensures src != "/" && IsDir(t, Mirror(Parent(src))) ==> Creatable(t, Mirror(src))
    ensures src != "/" ==> Echo(t[Mirror(src) := Directory])
  {
    hide Under, Echo, Creatable, Parent, Mirror, Skipped, DirPath, WellFormed;
    if src != "/" {
      MirrorPlace(t, src);
      EchoKind(t, src);
      EchoAdd(t, src, Directory);
    }
  }

  /** The directory that a source directory is copied to. */
  method MakeTarget(fs: FileSystem, src: string, dst: string) returns (ok: bool)
    requires fs.Valid() && Plain(src) && dst == Mirror(src) && IsDir(fs.tree, MOUNT)
    modifies fs
    ensures fs.Valid() && SameOutside(old(fs.tree), fs.tree) && Copied(old(fs.tree), fs.tree, {})
    ensures IsDir(fs.tree, MOUNT)
    ensures ok ==> IsDir(fs.tree, dst)
    ensures !Skipped(src) && IsDir(old(fs.tree), src) && Echo(old(fs.tree)) ==> Echo(fs.tree)
    ensures fs.healthy && CanMirror(old(fs.tree), src) ==> ok
  {
    hide Real, FileSystem.Valid, Copied, Under, Echo, Creatable, Parent, Skipped, Mirror, DirPath, WellFormed;
    ValidTree(fs);
    if !Skipped(src) && IsDir(fs.tree, src) && Echo(fs.tree) {
      TargetFits(fs.tree, src);
    }
    RootIsMirrored();
    MirrorPlain(src);
    MirrorInside(src);
    ok := MakeDir(fs, dst);
    if fs.tree == old(fs.tree) {
      SameAsItself(fs.tree);
    } else {
      CopiedThenDir(old(fs.tree), dst);
    }
  }

  method CopyChildren(fs: FileSystem, ghost t0: Tree, src: string, dst: string, depth: nat, tally: Tally)
    returns (ok: bool, ghost done: set<string>)
    requires fs.Valid() && WellFormed(t0) && Plain(src) && !Skipped(src) && depth <= DEPTH_MAX
    requires dst == Mirror(src) && IsDir(fs.tree, MOUNT) && IsDir(t0, src) && IsDir(fs.tree, dst)
    requires SameOutside(t0, fs.tree) && Copied(t0, fs.tree, {})
    modifies fs, tally
    ensures fs.Valid() && SameOutside(t0, fs.tree)
    ensures done <= Eligible(t0, src)
    ensures ok ==> Copied(t0, fs.tree, done)
    ensures ok ==> tally.items == old(tally.items) + |done|
    ensures ok ==> tally.bytes == old(tally.bytes) + Bytes(t0, done)
    ensures ok && fs.Sighted() ==> done == Eligible(t0, src)
    ensures ok && fs.Sighted() ==> DirsMirrored(t0, fs.tree, src)
    ensures ok && Echo(old(fs.tree)) ==> Echo(fs.tree)
    ensures fs.healthy && Walkable(t0) && Met(t0, src, depth) && Echo(old(fs.tree)) ==> ok
    decreases DEPTH_MAX + 1 - depth, 0
  {
    hide Real, Under, Join, DirPath, ValidName, FilesBelow, Bytes, Covered, WellFormed, Copied, Inside, SameOutside;
    hide Mirror;
    hide FileSystem.Valid, Walkable, Met, Level, Echo, Ready, Parent, ChildNames, DirsMirrored, DirsCovered;
    ghost var live := Walkable(t0) && Met(t0, src, depth) && Echo(fs.tree);
    ghost var names := fs.Children(src);
    ValidTree(fs);
    ChildrenAgree(t0, fs.tree, src);
    SourceStays(t0, fs.tree, src);
    Listing(t0, src, names);
    CoverNone(t0, src, names, Copyable);
    CoverAll(t0, src, names, Copyable);
    NoBytes(t0);
    MountStays(t0, fs.tree);
    NoDirsCovered(t0, fs.tree, src, names);
    done := {};
    var count := fs.ChildCount(src);
    if count.None? {
      return false, done;
    }
    var i := 0;
    while i < count.value
      invariant i <= count.value && fs.Valid() && IsDir(fs.tree, MOUNT)
      invariant done <= Covered(t0, src, names, i, Copyable)
      invariant fs.Sighted() ==> done == Covered(t0, src, names, i, Copyable)
      invariant SameOutside(t0, fs.tree) && Copied(t0, fs.tree, done)
      invariant tally.items == old(tally.items) + |done| && tally.bytes == old(tally.bytes) + Bytes(t0, done)
      invariant fs.Sighted() ==> DirsCovered(t0, fs.tree, src, names, i)
      invariant Echo(old(fs.tree)) ==> Echo(fs.tree)
      invariant IsDir(fs.tree, dst)
    {
      ValidTree(fs);
      ChildrenAgree(t0, fs.tree, src);
      CoverWithin(t0, src, names, i, Copyable);
      ghost var t1 := fs.tree;
      ghost var more: set<string> := {};
      SameAsItself(t1);
      NoBytes(t1);
      SourceStays(t0, t1, src);
      LiveStays(t0, t1, src, depth);
      var name := fs.ChildName(src, i);
      if name.Some? {
        ok, more := CopyChild(fs, src, dst, name.value, depth, tally);
        SameOutsideTrans(t0, t1, fs.tree);
        if !ok {
          return;
        }
      }
      CopyNext(t0, t1, fs.tree, src, names, i, done, more);
      EligibleAreFiles(t1, Join(src, names[i]));
      if fs.Sighted() {
        DirsNext(t0, t1, fs.tree, src, names, i, more);
      }
      MountStays(t0, fs.tree);
      done := done + more;
      i := i + 1;
    }
    if fs.Sighted() {
      DirsAll(t0, fs.tree, src, names);
    }
    ok := true;
  }

  lemma NoDirsCovered(t0: Tree, t1: Tree, src: string, names: seq<string>)
    ensures DirsCovered(t0, t1, src, names, 0)
  {
  }

  /** What the loop does with one name that it got. */
  method CopyChild(fs: FileSystem, src: string, dst: string, name: string, depth: nat, tally: Tally)
    returns (ok: bool, ghost done: set<string>)
    requires fs.Valid() && Plain(src) && !Skipped(src) && depth <= DEPTH_MAX
    requires dst == Mirror(src) && IsDir(fs.tree, MOUNT) && IsDir(fs.tree, src) && name in ChildNames(fs.tree, src)
    modifies fs, tally
    ensures fs.Valid() && SameOutside(old(fs.tree), fs.tree)
    ensures done <= Eligible(old(fs.tree), Join(src, name))
    ensures ok ==> Copied(old(fs.tree), fs.tree, done)
    ensures ok ==> tally.items == old(tally.items) + |done|
    ensures ok ==> tally.bytes == old(tally.bytes) + Bytes(old(fs.tree), done)
    ensures ok && fs.Sighted() ==> done == Eligible(old(fs.tree), Join(src, name))
    ensures ok && fs.Sighted() ==> DirsMirrored(old(fs.tree), fs.tree, Join(src, name))
    ensures ok && Echo(old(fs.tree)) ==> Echo(fs.tree)
    ensures ok && IsDir(old(fs.tree), dst) ==> IsDir(fs.tree, dst)
    ensures fs.healthy && Walkable(old(fs.tree)) && Met(old(fs.tree), src, depth) ==>
      Echo(old(fs.tree)) && IsDir(old(fs.tree), dst) ==> ok
    decreases DEPTH_MAX - depth, 2
  {
    hide Real, Under, Join, DirPath, ValidName, FilesBelow, Bytes, WellFormed, Copied, Inside, SameOutside, Mirror;
    hide FileSystem.Valid, Walkable, Met, Level, Echo, Ready, Parent, ChildNames, DirsMirrored;
    ghost var t := fs.tree;
    ValidTree(fs);
    NamesAreValid(t, src);
    SameAsItself(t);
    NoBytes(t);
    done := {};
    var child, target := Join(src, name), Join(dst, name);
    ChildPath(src, name);
    JoinPlain(src, name);
    ListedChild(t, src, name);
    if src == "/" && (name == "proc" || name == "dev") {
      EligibleSkipped(t, child);
      NoDirsSkipped(t, t, child);
      return true, done;
    }
    if Walkable(t) && Met(t, src, depth) {
      MetChild(t, src, name, depth);
      if Echo(t) && IsDir(t, dst) {
        ReadyChild(t, t, src, name, depth);
      }
    }
    if |child| + 1 > PATH_MAX || |target| + 1 > PATH_MAX {
      return false, done;
    }
    ok, done := CopyTree(fs, child, target, depth + 1, tally);
    if ok && IsDir(t, dst) {
      EligibleAreFiles(t, child);
      DirKept(t, fs.tree, src, done);
    }
  }

  lemma LiveStays(t0: Tree, t1: Tree, src: string, depth: nat)
    requires SameOutside(t0, t1) && !Under(src, MOUNT)
    ensures Walkable(t0) ==> Walkable(t1)
    ensures Met(t0, src, depth) ==> Met(t1, src, depth)
  {
    hide Skipped, Mirror, Level;
    OutsideIsSource(t0, t1);
    WalkableAgree(t0, t1);
    assert Agree(t0, t1, src);
  }

  lemma SourceStays(t0: Tree, t1: Tree, src: string)
    requires SameOutside(t0, t1) && !Under(src, MOUNT)
    ensures IsDir(t0, src) <==> IsDir(t1, src)
  {
    assert Agree(t0, t1, src);
  }

  lemma ReadyChild(t0: Tree, t1: Tree, src: string, name: string, depth: nat)
    requires SameOutside(t0, t1) && DirPath(src) && ValidName(name) && Walkable(t0)
    requires Met(t0, Join(src, name), depth + 1) && Join(src, name) in t1
    requires Echo(t1) && IsDir(t1, Mirror(src))
    ensures Ready(t1, Join(src, name), depth + 1)
  {
    hide Under, Join, DirPath, ValidName, Mirror, Level, Echo, Parent;
    JoinParts(src, name);
    forall p | p in t1 && !Skipped(p)
      ensures |Mirror(p)| < PATH_MAX && Level(p) <= DEPTH_MAX
    {
      assert Agree(t0, t1, p);
    }
  }

  /** Copying files leaves a directory's mirror a directory. */
  lemma DirKept(t0: Tree, t1: Tree, src: string, s: set<string>)
    requires Copied(t0, t1, s) && IsDir(t0, src) && IsDir(t0, Mirror(src)) && DirPath(src)
    requires forall p :: p in s ==> IsFile(t0, p) && p != ""
    ensures IsDir(t1, Mirror(src))
  {
    hide Mirror;
    if IsMirror(Mirror(src), s) {
      var p :| p in s && Mirror(src) == Mirror(p);
      MirrorInjective(src, p);
    }
  }

  lemma EligibleAreFiles(t: Tree, src: string)
    requires WellFormed(t)
    ensures forall p :: p in Eligible(t, src) ==> IsFile(t, p) && p != ""
  {
    forall p | p in Eligible(t, src)
      ensures p != ""
    {
      assert WellPlaced(t, p);
    }
  }

  lemma MountStays(t0: Tree, t1: Tree)
    requires SameOutside(t0, t1)
    ensures IsDir(t0, MOUNT) <==> IsDir(t1, MOUNT)
  {
    assert Agree(t0, t1, MOUNT);
  }

  /** The new file system is mounted and empty. */
  ghost predicate Formatted(t: Tree) {
    IsDir(t, MOUNT) && forall q :: q in t ==> !Inside(q)
  }

  lemma FormattedEchoes(t: Tree)
    requires Formatted(t)
    ensures Echo(t)
  {
  }

  lemma RootMet(t: Tree)
    requires WellFormed(t)
    ensures Met(t, "/", 0)
  {
    RootIsDir(t);
  }

  lemma WalkableAgree(t0: Tree, t1: Tree)
    requires SameSource(t0, t1)
    ensures Walkable(t0) ==> Walkable(t1)
  {
    hide Skipped, Mirror, Level;
    assert forall p :: !Skipped(p) ==> Agree(t0, t1, p);
  }

  /**
   The installer's use of the two walks: plan from the running system, prepare the target
   (formatting and mounting it may change anything at or below the mount point, giving
   the tree `prepared`), then copy. The copy does exactly what was planned, and on a healthy
   machine with a fresh target it fails only for a tree that is too deep or has too long paths.
   */
  method InstallRoot(fs: FileSystem, prepared: Tree)
    returns (ok: bool, plan: Tally, tally: Tally, ghost seen: set<string>, ghost done: set<string>)
    requires fs.Valid() && WellFormed(prepared) && SameSource(fs.tree, prepared)
    modifies fs
    ensures SameSource(old(fs.tree), fs.tree)
    ensures seen + done <= Eligible(old(fs.tree), "/")
    ensures ok ==> plan.items == |seen| && plan.bytes == Bytes(old(fs.tree), seen)
    ensures ok ==> tally.items == |done| && tally.bytes == Bytes(old(fs.tree), done)
    ensures ok ==> forall p :: p in done ==>
      p in old(fs.tree) && Mirror(p) in fs.tree && fs.tree[Mirror(p)] == old(fs.tree)[p]
    ensures ok ==> forall q :: IsFile(fs.tree, q) && !IsMirror(q, done) ==> q in prepared && prepared[q] == fs.tree[q]
    ensures ok && fs.Sighted() ==> seen == done == Eligible(old(fs.tree), "/")
    ensures ok && fs.Sighted() ==> forall p :: IsDir(old(fs.tree), p) && !Skipped(p) ==> IsDir(fs.tree, Mirror(p))
    ensures ok && Formatted(prepared) ==> Echo(fs.tree)
    ensures fs.healthy && Walkable(old(fs.tree)) && Formatted(prepared) ==> ok
  {
    hide Real, Under, FilesBelow, Bytes, WellFormed, Mirror, FileSystem.Valid, Inside, Walkable, Met, Echo, Skipped;
    ghost var t0 := fs.tree;
    ValidTree(fs);
    RootMet(t0);
    RootIsPlain();
    MountIsPlain();
    RootIsMirrored();
    plan := new Tally();
    tally := new Tally();
    done := {};
    ok, seen := ScanTree(fs, "/", 0, plan);
    if !ok {
      return;
    }
    Remount(fs, prepared);
    if Formatted(prepared) {
      FormattedEchoes(prepared);
    }
    ok := MakeDir(fs, MOUNT);
    ghost var t1 := fs.tree;
    MountIsSkipped();
    assert SameSource(t0, t1);
    if !ok {
      return;
    }
    EligibleAgree(t0, t1, "/");
    WalkableAgree(t0, t1);
    ValidTree(fs);
    RootMet(t1);
    ok, done := CopyTree(fs, "/", MOUNT, 0, tally);
    DoneAgree(t0, t1, "/", done);
    OutsideIsSource(t1, fs.tree);
    if ok && fs.Sighted() {
      DirsThrough(t0, t1, fs.tree, "/");
    }
    SameSourceTrans(t0, t1, fs.tree);
  }

  lemma DoneAgree(t0: Tree, t1: Tree, src: string, done: set<string>)
    requires SameSource(t0, t1) && done <= Eligible(t1, src)
    ensures done <= Eligible(t0, src) && Bytes(t0, done) == Bytes(t1, done)
  {
    hide Bytes;
    EligibleAgree(t0, t1, src);
    BytesAgree(t0, t1, done);
  }

  /** Formatting and mounting replace the tree. */
  method Remount(fs: FileSystem, prepared: Tree)
    requires fs.Valid() && WellFormed(prepared)
    modifies fs
    ensures fs.Valid() && fs.tree == prepared
  {
    fs.tree := prepared;
  }

  lemma MountIsSkipped()
    ensures Skipped(MOUNT)
  {
  }

  lemma RootIsMirrored()
    ensures Mirror("/") == MOUNT && !Under("/", "/proc") && !Under("/", "/dev")
  {
  }

  lemma SameSourceTrans(t0: Tree, t1: Tree, t2: Tree)
    requires SameSource(t0, t1) && SameSource(t1, t2)
    ensures SameSource(t0, t2)
  {
    forall p | !Skipped(p)
      ensures Agree(t0, t2, p)
    {
      assert Agree(t0, t1, p) && Agree(t1, t2, p);
    }
  }
}
