/** Absolute paths as character strings, the way the installer's helpers take them apart. */
module Paths {
  const PATH_MAX: nat := 192
  const NAME_MAX: nat := 96

  /** Where the target disk is mounted. */
  const MOUNT := "/temp/disk"

  /** install_path_is_under. */
  predicate Under(path: string, prefix: string) {
    prefix <= path && (|path| == |prefix| || path[|prefix|] == '/')
  }

  /** The subtree relation that Under describes for every directory but the root. */
  predicate Below(path: string, dir: string) {
    dir == "/" || Under(path, dir)
  }

  /** install_path_join, without its length check. */
  function Join(base: string, name: string): string {
    base + (if |base| > 1 then "/" else "") + name
  }

  function LastSlash(p: string): (k: int)
    ensures -1 <= k < |p|
    ensures k >= 0 ==> p[k] == '/'
    ensures forall i :: k < i < |p| ==> p[i] != '/'
  {
    if p == "" then -1
    else if p[|p| - 1] == '/' then |p| - 1
    else LastSlash(p[..|p| - 1])
  }

  function Parent(p: string): string {
    var k := LastSlash(p);
    if k <= 0 then "/" else p[..k]
  }

  function Base(p: string): string {
    p[LastSlash(p) + 1..]
  }

  predicate ValidName(name: string) {
    && 0 < |name| < NAME_MAX
    && '/' !in name && '\0' !in name
    && name != "." && name != ".."
  }

  /** A directory path: the root, or an absolute path that does not end in a slash. */
  predicate DirPath(p: string) {
    p == "/" || (|p| > 1 && p[0] == '/' && p[|p| - 1] != '/')
  }

  lemma LastSlashIs(p: string, k: nat)
    requires k < |p| && p[k] == '/' && forall i :: k < i < |p| ==> p[i] != '/'
    ensures LastSlash(p) == k
  {
  }

  lemma JoinParts(base: string, name: string)
    requires DirPath(base) && ValidName(name)
    ensures Parent(Join(base, name)) == base && Base(Join(base, name)) == name
    ensures DirPath(Join(base, name)) && Join(base, name) != "/"
    ensures Below(Join(base, name), base) && |Join(base, name)| > |base|
  {
    var p := Join(base, name);
    var k := if |base| > 1 then |base| else 0;
    assert forall i :: k < i < |p| ==> p[i] == name[i - k - 1];
    LastSlashIs(p, k);
  }

  lemma BelowTrans(a: string, b: string, c: string)
    requires Below(a, b) && Below(b, c) && (c != "/" ==> b != "/")
    ensures Below(a, c)
  {
  }

  /** Two directories above the same path are themselves one above the other. */
  lemma BelowLinear(p: string, a: string, b: string)
    requires Under(p, a) && Under(p, b) && |a| <= |b|
    ensures Under(b, a)
  {
    assert a == p[..|a|] && b == p[..|b|];
  }

  /** A path strictly below a directory has its parent below that directory too. */
  lemma ParentBelow(p: string, dir: string)
    requires Under(p, dir) && p != dir && |dir| > 0
    ensures Below(Parent(p), dir)
  {
    var k := LastSlash(p);
    assert p[|dir|] == '/';
    assert k >= |dir|;
    assert p[..k][..|dir|] == dir;
  }

  // ----- what the kernel makes of a path

  /**
   The kernel's spelling of an absolute path: repeated slashes are folded, "." is skipped.
   The empty string, which names nothing, stands for a path that is refused: one that is
   not absolute or has a "..".
   */
  function Real(p: string): (r: string)
    ensures |r| <= |p| && (r != "" ==> DirPath(r))
    decreases |p|
  {
    if p == "" || p[0] != '/' then ""
    else
      var k := LastSlash(p);
      Descend(if k == 0 then "/" else Real(p[..k]), p[k + 1..])
  }

  /** One component further down. */
  function Descend(dir: string, name: string): (r: string)
    requires dir != "" ==> DirPath(dir)
    requires '/' !in name
    ensures r != "" ==> DirPath(r)
    ensures |r| <= |dir| + 1 + |name| && (dir == "/" && r != "" ==> |r| <= 1 + |name|)
  {
    if dir == "" || name == ".." then ""
    else if name == "" || name == "." then dir
    else Join(dir, name)
  }

  /** How a longer path is respelled: an empty name and "." are skipped, and ".." is refused. */
  lemma {:induction false} RealLonger(p: string, name: string)
    requires p != "" && p[0] == '/' && '/' !in name
    ensures Real(p + "/" + name) ==
      if Real(p) == "" || name == ".." then ""
      else if name == "" || name == "." then Real(p)
      else Join(Real(p), name)
    ensures Real("/") == "/"
  {
    var q, k := p + "/" + name, |p|;
    assert forall i :: k < i < |q| ==> q[i] == name[i - k - 1];
    LastSlashIs(q, k);
    assert q[..k] == p && q[k + 1..] == name;
  }

  /** A path spelled as the kernel spells it. */
  predicate Plain(p: string) { DirPath(p) && Real(p) == p }

  lemma PlainIsDirPath(p: string)
    requires Plain(p)
    ensures DirPath(p) && p[0] == '/' && Real(p) == p
  {
  }

  lemma RootIsPlain()
    ensures Plain("/")
  {
  }

  lemma JoinPlain(dir: string, name: string)
    requires Plain(dir) && ValidName(name)
    ensures Plain(Join(dir, name)) && DirPath(Join(dir, name)) && DirPath(dir)
  {
    hide LastSlash;
    PartPlain(dir, name);
  }

  /** The kernel's spelling is one that it leaves as it is. */
  lemma {:induction false} RealIsPlain(p: string)
    requires Real(p) != ""
    ensures Plain(Real(p))
    decreases |p|
  {
    var k := LastSlash(p);
    if k > 0 {
      RealIsPlain(p[..k]);
    }
    RootIsPlain();
    var dir, name := if k == 0 then "/" else Real(p[..k]), p[k + 1..];
    if name != "" && name != "." {
      PartPlain(dir, name);
    }
  }

  /** The same for a name that may be longer than the file system takes. */
  lemma PartPlain(dir: string, name: string)
    requires Plain(dir) && '/' !in name && name != "" && name != "." && name != ".."
    ensures Plain(Join(dir, name))
  {
    hide LastSlash;
    var p, k := Join(dir, name), if dir == "/" then 0 else |dir|;
    assert forall i :: k < i < |p| ==> p[i] == name[i - k - 1];
    LastSlashIs(p, k);
    assert p[k + 1..] == name && p[..k] == if k == 0 then "" else dir;
  }

  /** The directories above a plain path are plain. */
  lemma {:induction false} PrefixPlain(p: string, i: nat)
    requires Plain(p) && 1 <= i < |p| && p[i] == '/'
    ensures Plain(p[..i])
    decreases |p|
  {
    hide LastSlash, Real;
    var k := LastSlash(p);
    assert k >= i;
    PlainParent(p);
    if i < k {
      PrefixPlain(p[..k], i);
      assert p[..k][..i] == p[..i];
    }
  }

  lemma PlainParent(p: string)
    requires Plain(p) && LastSlash(p) > 0
    ensures Plain(p[..LastSlash(p)])
  {
    hide LastSlash, Real;
    var k := LastSlash(p);
    var dir, name := Real(p[..k]), p[k + 1..];
    PlainIsDirPath(p);
    RealStep(p);
    assert p == p[..k] + "/" + name;
    assert p[..|dir|] == dir;
  }

  /** Where a plain path lies on the mounted disk. */
  function Mounted(p: string): string {
    if p == "" then "" else if p == "/" then MOUNT else MOUNT + p
  }

  lemma MountIsPlain()
    ensures Plain(MOUNT)
  {
    RootIsPlain();
    assert Join("/", "temp") == "/temp" && Join("/temp", "disk") == MOUNT;
    JoinPlain("/", "temp");
    JoinPlain("/temp", "disk");
  }

  lemma {:induction false} RealStep(p: string)
    requires p != "" && p[0] == '/'
    ensures
      var k := LastSlash(p);
      k >= 0 && Real(p) == Descend(if k == 0 then "/" else Real(p[..k]), p[k + 1..])
  {
    hide Descend, LastSlash, DirPath;
    assert LastSlash(p) >= 0;
  }

  /** Joining with the mount point and respelling commute. */
  lemma {:induction false} RealMounted(p: string)
    requires p != "" && p[0] == '/'
    ensures Real(MOUNT + p) == Mounted(Real(p))
    decreases |p|
  {
    hide MOUNT, Descend, LastSlash, Mounted, Real, DirPath;
    MountIsPlain();
    MountShape();
    MountedCut(p);
    RealStep(p);
    RealStep(MOUNT + p);
    var k := LastSlash(p);
    if k > 0 {
      RealMounted(p[..k]);
      DescendMounted(Real(p[..k]), p[k + 1..]);
    } else {
      RootIsDirPath();
      DescendMounted("/", p[k + 1..]);
    }
  }

  lemma RootIsDirPath()
    ensures DirPath("/")
  {
  }

  lemma MountedCut(p: string)
    requires p != "" && p[0] == '/'
    ensures
      var k, q, m := LastSlash(p), MOUNT + p, LastSlash(MOUNT + p);
      && m == |MOUNT| + k && k >= 0 && q[..m] == MOUNT + p[..k] && q[m + 1..] == p[k + 1..]
      && (k == 0 ==> q[..m] == MOUNT) && (k > 0 ==> p[..k][0] == '/')
  {
    hide MOUNT, LastSlash;
    var k, q := LastSlash(p), MOUNT + p;
    assert q[|MOUNT| + k] == '/' && forall i :: |MOUNT| + k < i < |q| ==> q[i] == p[i - |MOUNT|];
    LastSlashIs(q, |MOUNT| + k);
  }

  lemma MountShape()
    ensures |MOUNT| > 1 && MOUNT[0] == '/' && Mounted("/") == MOUNT
  {
  }

  lemma DescendMounted(dir: string, name: string)
    requires (dir != "" ==> DirPath(dir)) && '/' !in name
    ensures (Mounted(dir) != "" ==> DirPath(Mounted(dir)))
    ensures Descend(Mounted(dir), name) == Mounted(Descend(dir, name))
  {
    hide MOUNT;
    MountEnds();
    if Descend(dir, name) != "" && Descend(dir, name) != dir {
      JoinMounted(dir, name);
    }
  }

  lemma JoinMounted(dir: string, name: string)
    requires DirPath(dir) && name != ""
    ensures Join(Mounted(dir), name) == Mounted(Join(dir, name))
  {
    hide MOUNT;
    MountEnds();
  }

  lemma MountEnds()
    ensures |MOUNT| > 1 && MOUNT[0] == '/' && MOUNT[|MOUNT| - 1] != '/'
  {
  }

  lemma DirStartsWell(dir: string)
    requires DirPath(dir)
    ensures dir[0] == '/'
  {
  }

  /** Respelling keeps a path below a directory. */
  lemma {:induction false} RealBelow(p: string, dir: string)
    requires Under(p, dir) && Plain(dir) && |dir| > 1 && Real(p) != ""
    ensures Under(Real(p), dir)
    decreases |p|
  {
    hide Real, LastSlash, DirPath;
    if p != dir {
      var k := LastSlash(p);
      assert p[|dir|] == '/' && k >= |dir|;
      assert p[..k][..|dir|] == dir;
      DirStartsWell(dir);
      RealStep(p);
      RealBelow(p[..k], dir);
      assert Real(p[..k])[..|dir|] == dir;
    }
  }
}

/**
 The kernel's file system as the installer sees it: one tree of paths, changed by system
 calls any of which may fail. Every call looks its path up by the kernel's spelling of it.
 A failing call leaves the tree unchanged.
 */
module FileSystem {
  import opened Options
  import opened Paths

  datatype Node = Directory | Regular(content: string)

  type Tree = map<string, Node>

  /** What fs_stat_type tells of a path. */
  datatype Kind = Absent | AFile | ADirectory

  function KindOf(t: Tree, p: string): Kind {
    if p !in t then Absent else if t[p].Regular? then AFile else ADirectory
  }

  predicate IsFile(t: Tree, p: string) { p in t && t[p].Regular? }

  predicate IsDir(t: Tree, p: string) { p in t && t[p].Directory? }

  predicate WellPlaced(t: Tree, p: string) {
    p == "/" || (ValidName(Base(p)) && DirPath(Parent(p)) && p == Join(Parent(p), Base(p)) && IsDir(t, Parent(p)))
  }

  /** File sizes are unsigned 64-bit numbers, of which the largest stands for failure. */
  const SIZE_LIMIT: nat := 0xFFFF_FFFF_FFFF_FFFF

  predicate Fits(n: Node) { n.Regular? ==> |n.content| < SIZE_LIMIT }

  ghost predicate WellFormed(t: Tree) {
    IsDir(t, "/") && forall p :: p in t ==> WellPlaced(t, p) && Fits(t[p])
  }

  function ChildNames(t: Tree, dir: string): set<string> {
    set p | p in t && p != "/" && Parent(p) == dir :: Base(p)
  }

  ghost predicate Enumerates(names: seq<string>, s: set<string>) {
    && (forall i, j :: 0 <= i < j < |names| ==> names[i] != names[j])
    && (forall n :: n in names <==> n in s)
  }

  /** What a file or directory may be created as: a valid name in an existing directory. */
  predicate Creatable(t: Tree, p: string) {
    p != "/" && WellPlaced(t, p)
  }

  /** The paths of the tree are spelled the kernel's way. */
  lemma {:induction false} NodeIsPlain(t: Tree, p: string)
    requires WellFormed(t) && p in t
    ensures Plain(p)
    decreases |p|
  {
    hide Real, ValidName;
    assert WellPlaced(t, p);
    RootIsPlain();
    if p != "/" {
      ShorterParent(p);
      NodeIsPlain(t, Parent(p));
      JoinPlain(Parent(p), Base(p));
    }
  }

  lemma ShorterParent(p: string)
    requires p == Join(Parent(p), Base(p)) && ValidName(Base(p))
    ensures |Parent(p)| < |p|
  {
  }

  lemma PutKeepsShape(t: Tree, p: string, n: Node)
    requires WellFormed(t) && Creatable(t, p) && Fits(n) && (n.Regular? ==> !IsDir(t, p))
    ensures WellFormed(t[p := n])
  {
    hide Base, Parent, Join, ValidName, DirPath;
    var t' := t[p := n];
    forall q | q in t'
      ensures WellPlaced(t', q) && Fits(t'[q])
    {
      assert q == p || q in t;
    }
  }

  lemma RemoveKeepsShape(t: Tree, p: string)
    requires WellFormed(t) && IsFile(t, p)
    ensures WellFormed(t - {p})
  {
    hide Base, Parent, Join, ValidName, DirPath;
    var t' := t - {p};
    forall q | q in t'
      ensures WellPlaced(t', q) && Fits(t'[q])
    {
      assert q in t;
    }
  }

  class FileSystem {
    var tree: Tree
    // the order in which the kernel lists a directory with a given set of names
    const order: set<string> -> seq<string>
    // whether no call of this run fails that could succeed, and memory never runs out
    const healthy: bool
    // whether no call that only looks at a path or lists a directory fails
    const sees: bool

    ghost predicate Valid()
      reads this
    {
      WellFormed(tree) && forall s: set<string> :: Enumerates(order(s), s)
    }

    predicate Sighted() { healthy || sees }

    /** fs_stat_type. A call that fails answers as for a missing path. */
    method StatType(path: string) returns (kind: Kind)
      ensures kind == Absent || kind == KindOf(tree, Real(path))
      ensures Sighted() ==> kind == KindOf(tree, Real(path))
    {
      var ok: bool := *;
      kind := if Sighted() || ok then KindOf(tree, Real(path)) else Absent;
    }

    /** fs_stat_size. */
    method StatSize(path: string) returns (size: Option<nat>)
      ensures size == None || size == Size(Real(path))
      ensures Sighted() ==> size == Size(Real(path))
    {
      var ok: bool := *;
      size := if Sighted() || ok then Size(Real(path)) else None;
    }

    /** fs_child_count. */
    method ChildCount(dir: string) returns (count: Option<nat>)
      ensures count == None || count == Some(|Children(Real(dir))|)
      ensures Sighted() && IsDir(tree, Real(dir)) ==> count.Some?
    {
      var ok: bool := *;
      count := if IsDir(tree, Real(dir)) && (Sighted() || ok) then Some(|Children(Real(dir))|) else None;
    }

    /** fs_get_child_name. */
    method ChildName(dir: string, i: nat) returns (name: Option<string>)
      ensures name.Some? ==> i < |Children(Real(dir))| && name.value == Children(Real(dir))[i]
      ensures Sighted() && i < |Children(Real(dir))| ==> name.Some?
    {
      var ok: bool := *;
      name := if i < |Children(Real(dir))| && (Sighted() || ok) then Some(Children(Real(dir))[i]) else None;
    }

    /** The size that fs_stat_size gives when it does not fail. */
    function Size(path: string): Option<nat>
      reads this
    {
      if path !in tree then None
      else Some(match tree[path] case Directory => 0 case Regular(content) => |content|)
    }

    function Children(dir: string): seq<string>
      reads this
    {
      order(ChildNames(tree, dir))
    }

    method Mkdir(path: string) returns (ok: bool)
      requires Valid()
      modifies this
      ensures Valid()
      ensures ok ==> Real(path) !in old(tree) && Creatable(old(tree), Real(path))
      ensures ok ==> tree == old(tree)[Real(path) := Directory]
      ensures !ok ==> tree == old(tree)
      ensures healthy ==> (ok <==> Real(path) !in old(tree) && Creatable(old(tree), Real(path)))
    {
      ok := *;
      ok := (healthy || ok) && Real(path) !in tree && Creatable(tree, Real(path));
      if ok {
        PutKeepsShape(tree, Real(path), Directory);
        tree := tree[Real(path) := Directory];
      }
    }

    /** fs_write: the number of bytes written, 1 for an empty file, 0 on failure. */
    method Write(path: string, data: string) returns (wrote: nat)
      requires Valid()
      modifies this
      ensures Valid()
      ensures wrote != 0 ==>
        && wrote == (if data == "" then 1 else |data|)
        && Creatable(old(tree), Real(path)) && !IsDir(old(tree), Real(path))
        && tree == old(tree)[Real(path) := Regular(data)]
      ensures wrote == 0 ==> tree == old(tree)
      ensures healthy && Creatable(old(tree), Real(path)) && !IsDir(old(tree), Real(path)) && |data| < SIZE_LIMIT ==>
        wrote != 0
    {
      var ok: bool := *;
      if (healthy || ok) && Creatable(tree, Real(path)) && !IsDir(tree, Real(path)) && |data| < SIZE_LIMIT {
        PutKeepsShape(tree, Real(path), Regular(data));
        tree := tree[Real(path) := Regular(data)];
        wrote := if data == "" then 1 else |data|;
      } else {
        wrote := 0;
      }
    }

    method Append(path: string, data: string) returns (wrote: nat)
      requires Valid()
      modifies this
      ensures Valid()
      ensures wrote != 0 ==>
        && wrote == (if data == "" then 1 else |data|)
        && IsFile(old(tree), Real(path))
        && tree == old(tree)[Real(path) := Regular(old(tree)[Real(path)].content + data)]
      ensures wrote == 0 ==> tree == old(tree)
      ensures healthy && IsFile(old(tree), Real(path)) ==>
        |old(tree)[Real(path)].content| + |data| < SIZE_LIMIT ==> wrote != 0
    {
      var ok: bool := *;
      if (healthy || ok) && IsFile(tree, Real(path)) && |tree[Real(path)].content| + |data| < SIZE_LIMIT {
        PutKeepsShape(tree, Real(path), Regular(tree[Real(path)].content + data));
        tree := tree[Real(path) := Regular(tree[Real(path)].content + data)];
        wrote := if data == "" then 1 else |data|;
      } else {
        wrote := 0;
      }
    }

    /** fs_remove on a regular file; the installer removes nothing else. */
    method Remove(path: string) returns (ok: bool)
      requires Valid() && IsFile(tree, Real(path))
      modifies this
      ensures Valid()
      ensures ok ==> tree == old(tree) - {Real(path)}
      ensures !ok ==> tree == old(tree)
      ensures healthy ==> ok
    {
      ok := *;
      ok := healthy || ok;
      if ok {
        RemoveKeepsShape(tree, Real(path));
        tree := tree - {Real(path)};
      }
    }

    /** fd_open for reading; fails for anything but a regular file. */
    method Open(path: string) returns (ok: bool)
      ensures ok ==> IsFile(tree, Real(path))
      ensures healthy && IsFile(tree, Real(path)) ==> ok
    {
      ok := *;
      ok := (healthy || ok) && IsFile(tree, Real(path));
    }

    /**
     fd_read at an offset: an error, or some of the bytes that are there, and none only at
     the end of the file.
     */
    method Read(path: string, offset: nat, want: nat) returns (got: Option<string>)
      requires IsFile(tree, Real(path)) && offset <= |tree[Real(path)].content| && want > 0
      ensures got.Some? ==>
        && |got.value| <= want && offset + |got.value| <= |tree[Real(path)].content|
        && got.value == tree[Real(path)].content[offset..offset + |got.value|]
        && (got.value == "" ==> offset == |tree[Real(path)].content|)
      ensures healthy ==> got.Some?
    {
      var content := tree[Real(path)].content;
      var ok: bool := *;
      if !healthy && !ok {
        return None;
      }
      if offset == |content| {
        return Some("");
      }
      var n: nat :| 1 <= n <= want && offset + n <= |content|;
      return Some(content[offset..offset + n]);
    }
  }
}
