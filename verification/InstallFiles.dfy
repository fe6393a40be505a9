/** The installer's helpers on single files and directories. */
module InstallFiles {
  import opened Bytes
  import opened Options
  import opened Paths
  import opened FileSystem
  import Sha256
  import Sha256Stream

  const COPY_CHUNK_SIZE: nat := 8192
  const WHOLE_FILE_LIMIT: nat := 128 * 1024

  /** Running totals that the callers pass down by reference. */
  class Tally {
    var items: nat
    var bytes: nat

    constructor ()
      ensures items == 0 && bytes == 0
    {
      items, bytes := 0, 0;
    }
  }

  // ----- content hashes

  function HexDigit(v: nat): (c: char)
    requires v < 16
    ensures '0' <= c <= '9' || 'a' <= c <= 'f'
  {
    if v < 10 then '0' + v as char else 'a' + (v - 10) as char
  }

  function Hex(d: seq<byte>): (h: string)
    ensures |h| == 2 * |d|
    ensures forall c :: c in h ==> '0' <= c <= '9' || 'a' <= c <= 'f'
  {
    if d == [] then ""
    else Hex(d[..|d| - 1]) + [HexDigit(d[|d| - 1] as int / 16), HexDigit(d[|d| - 1] as int % 16)]
  }

  lemma HexDigitIs(v: nat)
    requires v < 16
    ensures HexDigit(v) == "0123456789abcdef"[v]
  {
  }

  /** Two digits for each byte, the high one first. */
  lemma {:induction false} HexAt(d: seq<byte>, i: nat)
    requires i < |d|
    ensures Hex(d)[2 * i] == "0123456789abcdef"[d[i] as int / 16]
    ensures Hex(d)[2 * i + 1] == "0123456789abcdef"[d[i] as int % 16]
  {
    var n := |d| - 1;
    HexDigitIs(d[i] as int / 16);
    HexDigitIs(d[i] as int % 16);
    if i < n {
      HexAt(d[..n], i);
    }
  }

  /** The hexadecimal SHA-256 digest of a file's content. */
  function FileHash(content: string): (h: string)
    ensures |h| == 64
    ensures forall c :: c in h ==> '0' <= c <= '9' || 'a' <= c <= 'f'
  {
    Hex(Sha256.Digest(Octets(content)))
  }

  method HexEncode(hash: array<byte>) returns (hex: string)
    ensures hex == Hex(hash[..])
  {
    hex := "";
    var i := 0;
    while i < hash.Length
      invariant i <= hash.Length && hex == Hex(hash[..i])
    {
      hex := hex + [HexDigit(hash[i] as int / 16), HexDigit(hash[i] as int % 16)];
      assert hash[..i + 1][..i] == hash[..i];
      i := i + 1;
    }
    assert hash[..i] == hash[..];
  }

  /** One read's worth of bytes into the context. */
  method HashChunk(context: Sha256Stream.Context, buffer: array<byte>, chunk: string)
    requires context.Valid() && |chunk| <= buffer.Length && buffer != context.data
    modifies context, context.data, context.state, buffer
    ensures context.Valid() && context.message == old(context.message) + Octets(chunk)
  {
    hide Sha256Stream.Context.Valid;
    forall i | 0 <= i < |chunk| {
      buffer[i] := Octets(chunk)[i];
    }
    assert buffer[..|chunk|] == Octets(chunk);
    context.Update(buffer, |chunk|);
  }

  /** The read loop: the whole file, in however many reads the kernel chooses to serve. */
  method HashReads(fs: FileSystem, path: string, context: Sha256Stream.Context) returns (ok: bool)
    requires IsFile(fs.tree, Real(path))
    requires context.Valid() && context.message == []
    modifies context, context.data, context.state
    ensures ok ==> context.Valid() && context.message == Octets(fs.tree[Real(path)].content)
    ensures fs.healthy ==> ok
  {
    hide Octets, Sha256Stream.Context.Valid, Real;
    ghost var content := fs.tree[Real(path)].content;
    var buffer := new byte[COPY_CHUNK_SIZE];
    var offset := 0;
    NoOctets(content[..offset]);
    while true
      invariant offset <= |content| && context.Valid()
      invariant context.message == Octets(content[..offset])
      decreases |content| - offset
    {
      var got := fs.Read(path, offset, COPY_CHUNK_SIZE);
      if got.None? {
        return false;
      }
      var chunk := got.value;
      if chunk == "" {
        break;
      }
      HashChunk(context, buffer, chunk);
      OctetsAppend(content[..offset], chunk);
      assert content[..offset + |chunk|] == content[..offset] + chunk;
      offset := offset + |chunk|;
    }
    assert content[..offset] == content;
    ok := true;
  }

  /**
   Hashes a file; fails if the kernel fails one of the reads. Whatever the chunks are, the
   result is the digest of the whole content.
   */
  method HashFile(fs: FileSystem, path: string) returns (hex: Option<string>)
    requires fs.Valid()
    ensures hex.Some? ==> IsFile(fs.tree, Real(path)) && hex.value == FileHash(fs.tree[Real(path)].content)
    ensures fs.healthy && IsFile(fs.tree, Real(path)) ==> hex.Some?
  {
    hide Sha256.Digest, Octets, Hex, Sha256Stream.Context.Valid, Real, FileSystem.Valid;
    var readable := fs.Open(path);
    if !readable {
      return None;
    }
    var context := new Sha256Stream.Context();
    var complete := HashReads(fs, path, context);
    if !complete {
      return None;
    }
    var hash := new byte[32];
    context.Final(hash);
    var text := HexEncode(hash);
    hex := Some(text);
  }

  lemma NoOctets(s: string)
    requires s == ""
    ensures Octets(s) == []
  {
  }

  // ----- directories and copies

  /** What a read of path delivers: nothing for a directory. */
  function ContentOf(t: Tree, path: string): string
    requires path in t
  {
    match t[path] case Directory => "" case Regular(content) => content
  }

  /** install_mkdir. */
  method MakeDir(fs: FileSystem, path: string) returns (ok: bool)
    requires fs.Valid()
    modifies fs
    ensures fs.Valid()
    ensures ok ==> IsDir(fs.tree, Real(path))
    ensures fs.healthy ==> (ok <==> CanMakeDir(old(fs.tree), Real(path)))
    ensures
      if ok && Real(path) !in old(fs.tree) then fs.tree == old(fs.tree)[Real(path) := Directory]
      else fs.tree == old(fs.tree)
  {
    hide FileSystem.Valid;
    var kind := fs.StatType(path);
    if kind == ADirectory {
      return true;
    }
    ok := fs.Mkdir(path);
  }

  /** There is a directory, or it can be made. */
  predicate CanMakeDir(t: Tree, p: string) {
    IsDir(t, p) || (p !in t && Creatable(t, p))
  }

  /** One of the directories that a path goes through, as the kernel spells it. */
  ghost predicate OnTheWay(p: string, path: string) {
    exists i :: 1 <= i < |path| && path[i] == '/' && p == Real(path[..i])
  }

  /** t1 is t0 with some directories above path added. */
  ghost predicate AddedParents(t0: Tree, t1: Tree, path: string) {
    && (forall p :: p in t0 ==> p in t1 && t1[p] == t0[p])
    && (forall p :: p in t1 && p !in t0 ==> t1[p] == Directory && OnTheWay(p, path))
  }

  /** What a plain path goes through is properly above it. */
  lemma AboveOf(p: string, path: string)
    requires OnTheWay(p, path) && Plain(path)
    ensures Under(path, p) && p != path
  {
    hide Real;
    var i :| 1 <= i < |path| && path[i] == '/' && p == Real(path[..i]);
    PrefixPlain(path, i);
  }

  /** A path that some directory could hold: its last part is a name, the rest a directory path. */
  predicate Placeable(p: string) {
    ValidName(Base(p)) && DirPath(Parent(p)) && p == Join(Parent(p), Base(p))
  }

  /** Every directory that path goes through exists or can be made. */
  predicate ParentsPossible(t: Tree, path: string) {
    forall i :: 1 <= i < |path| && path[i] == '/' ==>
      IsDir(t, Real(path[..i])) || (Real(path[..i]) !in t && Placeable(Real(path[..i])))
  }

  /** The parent of one directory that path goes through is one made before it. */
  lemma ParentMade(t: Tree, path: string, i: nat)
    requires 1 <= i <= |path| && path[0] == '/' && IsDir(t, "/")
    requires Real(path[..i]) !in t && Placeable(Real(path[..i]))
    requires forall j :: 1 <= j < i && path[j] == '/' ==> IsDir(t, Real(path[..j]))
    ensures Creatable(t, Real(path[..i]))
  {
    hide ValidName, Join, LastSlash, Base, Parent, Real, Descend;
    var q := path[..i];
    RealStep(q);
    var k := LastSlash(q);
    var dir, name := if k == 0 then "/" else Real(q[..k]), q[k + 1..];
    if k > 0 {
      assert q[..k] == path[..k] && path[k] == q[k] == '/';
    }
    assert IsDir(t, dir);
    DescendParent(dir, name);
    EmptyHasNoPlace();
  }

  lemma EmptyHasNoPlace()
    ensures !ValidName(Base(""))
  {
    EmptyBase();
  }

  lemma EmptyBase()
    ensures Base("") == ""
  {
  }

  /** Descending stays in place, leads nowhere, or leads to a child. */
  lemma DescendParent(dir: string, name: string)
    requires (dir != "" ==> DirPath(dir)) && '/' !in name
    ensures
      var p := Descend(dir, name);
      p == dir || p == "" || (p != "/" && Parent(p) == dir)
  {
    var p := Descend(dir, name);
    if p != dir && p != "" {
      var k := if dir == "/" then 0 else |dir|;
      assert forall i :: k < i < |p| ==> p[i] == name[i - k - 1];
      LastSlashIs(p, k);
    }
  }

  lemma RootIsPresent(fs: FileSystem)
    requires fs.Valid()
    ensures IsDir(fs.tree, "/")
  {
  }

  /** install_mkdir_parents_for_file. */
  method MakeParents(fs: FileSystem, path: string) returns (ok: bool)
    requires fs.Valid()
    modifies fs
    ensures fs.Valid() && AddedParents(old(fs.tree), fs.tree, path)
    ensures ok ==> forall i :: 1 <= i < |path| && path[i] == '/' ==> IsDir(fs.tree, Real(path[..i]))
    ensures fs.healthy ==>
      (ok <==> path != "" && path[0] == '/' && |path| < PATH_MAX && ParentsPossible(old(fs.tree), path))
  {
    hide FileSystem.Valid, Placeable, Creatable, Real, AddedParents;
    AddedNothing(fs.tree, path);
    RootIsPresent(fs);
    if |path| == 0 || path[0] != '/' || |path| >= PATH_MAX {
      return false;
    }
    ghost var t0 := fs.tree;
    var i := 1;
    while i < |path|
      invariant 1 <= i <= |path|
      invariant fs.Valid() && AddedParents(t0, fs.tree, path)
      invariant forall j :: 1 <= j < i && path[j] == '/' ==> IsDir(fs.tree, Real(path[..j]))
      invariant fs.healthy ==> forall j :: 1 <= j < i && path[j] == '/' ==>
        IsDir(t0, Real(path[..j])) || (Real(path[..j]) !in t0 && Placeable(Real(path[..j])))
    {
      if path[i] == '/' {
        ghost var t := fs.tree;
        RootIsPresent(fs);
        DirCanBeMade(t0, t, path, i);
        ok := MakeDir(fs, path[..i]);
        AddedOne(t0, t, fs.tree, path, i);
        if !ok {
          return;
        }
        DirWasPossible(fs, t0, path, i);
      }
      i := i + 1;
    }
    ok := true;
  }

  lemma AddedNothing(t: Tree, path: string)
    ensures AddedParents(t, t, path)
  {
  }

  lemma AddedOne(t0: Tree, t: Tree, t1: Tree, path: string, i: nat)
    requires AddedParents(t0, t, path) && 1 <= i < |path| && path[i] == '/'
    requires t1 == t || (t1 == t[Real(path[..i]) := Directory] && Real(path[..i]) !in t)
    ensures AddedParents(t0, t1, path)
    ensures forall p :: IsDir(t, p) ==> IsDir(t1, p)
  {
    hide Real;
  }

  /** If the next directory was possible at first, it can be made now. */
  lemma DirCanBeMade(t0: Tree, t: Tree, path: string, i: nat)
    requires AddedParents(t0, t, path) && 1 <= i < |path| && path[i] == '/' && path[0] == '/' && IsDir(t, "/")
    requires forall j :: 1 <= j < i && path[j] == '/' ==> IsDir(t, Real(path[..j]))
    ensures ParentsPossible(t0, path) ==> CanMakeDir(t, Real(path[..i]))
  {
    hide Real, Placeable, Creatable;
    if ParentsPossible(t0, path) && Real(path[..i]) !in t {
      ParentMade(t, path, i);
    }
  }

  /** Once there, the directory was there at first or possible. */
  lemma DirWasPossible(fs: FileSystem, t0: Tree, path: string, i: nat)
    requires fs.Valid() && AddedParents(t0, fs.tree, path) && IsDir(t0, "/")
    requires 1 <= i < |path| && IsDir(fs.tree, Real(path[..i]))
    ensures
      var p := Real(path[..i]);
      IsDir(t0, p) || (p !in t0 && Placeable(p))
  {
    hide Real, Base, Parent, Join, ValidName, DirPath, OnTheWay;
    assert WellPlaced(fs.tree, Real(path[..i]));
  }

  /** Reads exactly the size bytes of a file, chunk by chunk; fails if a read does. */
  method ReadWhole(fs: FileSystem, path: string, size: nat, chunk: nat) returns (data: Option<string>)
    requires chunk > 0 && Real(path) in fs.tree && size == |ContentOf(fs.tree, Real(path))|
    ensures data.Some? ==> IsFile(fs.tree, Real(path)) && data.value == ContentOf(fs.tree, Real(path))
    ensures fs.healthy && IsFile(fs.tree, Real(path)) ==> data.Some?
  {
    hide FileSystem.Valid, Real;
    var readable := fs.Open(path);
    if !readable {
      return None;
    }
    var buffer := "";
    while |buffer| < size
      invariant |buffer| <= size && buffer == ContentOf(fs.tree, Real(path))[..|buffer|]
    {
      var got := fs.Read(path, |buffer|, if size - |buffer| > chunk then chunk else size - |buffer|);
      if got.None? || got.value == "" {
        return None;
      }
      buffer := buffer + got.value;
    }
    data := Some(buffer);
  }

  lemma FileIsCreatable(fs: FileSystem, p: string)
    requires fs.Valid() && IsFile(fs.tree, p)
    ensures Creatable(fs.tree, p) && |fs.tree[p].content| < SIZE_LIMIT
  {
    assert WellPlaced(fs.tree, p) && Fits(fs.tree[p]);
  }

  lemma FilesAreCreatable(fs: FileSystem, p: string, q: string)
    requires fs.Valid()
    ensures IsFile(fs.tree, p) ==> |ContentOf(fs.tree, p)| < SIZE_LIMIT
    ensures IsFile(fs.tree, q) ==> Creatable(fs.tree, q)
  {
    hide FileSystem.Valid, Creatable;
    if IsFile(fs.tree, p) {
      FileIsCreatable(fs, p);
    }
    if IsFile(fs.tree, q) {
      FileIsCreatable(fs, q);
    }
  }

  /** Removing a file leaves its place as good as it was. */
  lemma CreatableAgain(t: Tree, p: string)
    ensures Creatable(t - {p}, p) <==> Creatable(t, p)
  {
    hide ValidName, DirPath;
    if p == Join(Parent(p), Base(p)) && Base(p) != "" {
      assert |Parent(p)| < |p|;
    }
    if ValidName(Base(p)) {
      NameNonempty(Base(p));
    }
  }

  lemma NameNonempty(n: string)
    requires ValidName(n)
    ensures n != ""
  {
  }

  lemma NothingUnnamed(fs: FileSystem)
    requires fs.Valid()
    ensures "" !in fs.tree
  {
    hide ValidName, Base, Parent, Join;
    EmptyHasNoPlace();
    assert "" in fs.tree ==> WellPlaced(fs.tree, "");
  }

  /** The append loop of a streamed copy. */
  method StreamInto(fs: FileSystem, src: string, dst: string, tally: Tally) returns (ok: bool)
    requires fs.Valid() && Real(src) != Real(dst) && IsFile(fs.tree, Real(src))
    requires fs.tree[Real(dst) := Regular("")] == fs.tree
    modifies fs, tally
    ensures fs.Valid() && fs.tree - {Real(dst)} == old(fs.tree) - {Real(dst)}
    ensures ok ==> fs.tree == old(fs.tree)[Real(dst) := old(fs.tree)[Real(src)]]
    ensures ok ==>
      tally.items == old(tally.items) && tally.bytes == old(tally.bytes) + |old(fs.tree)[Real(src)].content|
    ensures fs.healthy ==> ok
  {
    hide FileSystem.Valid, Real;
    ghost var content := fs.tree[Real(src)].content;
    FileIsCreatable(fs, Real(src));
    var offset := 0;
    while true
      invariant fs.Valid() && offset <= |content|
      invariant fs.tree == old(fs.tree)[Real(dst) := Regular(content[..offset])]
      invariant tally.items == old(tally.items) && tally.bytes == old(tally.bytes) + offset
      decreases |content| - offset
    {
      var got := fs.Read(src, offset, COPY_CHUNK_SIZE);
      if got.None? {
        return false;
      }
      if got.value == "" {
        break;
      }
      var wrote := fs.Append(dst, got.value);
      if wrote != |got.value| {
        return false;
      }
      offset := offset + wrote;
      assert content[..offset] == content[..offset - wrote] + got.value;
      tally.bytes := tally.bytes + wrote;
    }
    assert content[..offset] == content;
    ok := true;
  }

  /**
   install_update_copy_file_unverified, which is also install_copy_file up to its final
   size check.
   */
  method CopyUnverified(fs: FileSystem, src: string, dst: string, tally: Tally) returns (ok: bool)
    requires fs.Valid() && (Real(src) == "" || Real(src) != Real(dst))
    modifies fs, tally
    ensures fs.Valid() && fs.tree - {Real(dst)} == old(fs.tree) - {Real(dst)}
    ensures ok ==> Real(src) in old(fs.tree) && !IsDir(old(fs.tree), Real(dst))
    ensures fs.healthy ==> (ok <==> CopyPossible(old(fs.tree), Real(src), Real(dst)))
    ensures ok ==> fs.tree == old(fs.tree)[Real(dst) := Regular(ContentOf(old(fs.tree), Real(src)))]
    ensures ok ==> tally.items == old(tally.items) + 1
    ensures ok ==> tally.bytes == old(tally.bytes) + |ContentOf(old(fs.tree), Real(src))|
  {
    hide FileSystem.Valid, Creatable, Real;
    NothingUnnamed(fs);
    var size := fs.StatSize(src);
    if size.None? {
      return false;
    }
    var kind := fs.StatType(dst);
    if kind == ADirectory {
      return false;
    }
    if kind == AFile {
      ok := fs.Remove(dst);
      if !ok {
        return;
      }
    }
    ghost var cleared := fs.tree;
    CreatableAgain(old(fs.tree), Real(dst));
    ok := CopyInto(fs, src, dst, size.value, tally);
    assert ok ==> cleared[Real(dst) := Regular(ContentOf(cleared, Real(src)))] ==
                  old(fs.tree)[Real(dst) := Regular(ContentOf(old(fs.tree), Real(src)))];
  }

  /** There is something to copy, and a file can be made, or made anew, as its copy. */
  predicate CopyPossible(t: Tree, src: string, dst: string) {
    src in t && !IsDir(t, dst) && Creatable(t, dst)
  }

  /** The copy proper, once an old target is out of the way. */
  method CopyInto(fs: FileSystem, src: string, dst: string, size: nat, tally: Tally) returns (ok: bool)
    requires fs.Valid() && Real(src) != Real(dst) && Real(src) in fs.tree && size == |ContentOf(fs.tree, Real(src))|
    modifies fs, tally
    ensures fs.Valid() && fs.tree - {Real(dst)} == old(fs.tree) - {Real(dst)}
    ensures ok ==> fs.tree == old(fs.tree)[Real(dst) := Regular(ContentOf(old(fs.tree), Real(src)))]
    ensures ok ==> tally.items == old(tally.items) + 1 && tally.bytes == old(tally.bytes) + size
    ensures ok ==> !IsDir(old(fs.tree), Real(dst))
    ensures fs.healthy ==> (ok <==> Creatable(old(fs.tree), Real(dst)) && !IsDir(old(fs.tree), Real(dst)))
  {
    hide FileSystem.Valid, Creatable, Real;
    if size == 0 {
      var wrote := fs.Write(dst, "");
      if wrote == 0 {
        return false;
      }
      tally.items := tally.items + 1;
      return true;
    }
    var memory: bool := *;
    if size <= WHOLE_FILE_LIMIT && memory {
      var whole := ReadWhole(fs, src, size, COPY_CHUNK_SIZE);
      if whole.None? {
        return false;
      }
      var wrote := fs.Write(dst, whole.value);
      if wrote != size {
        return false;
      }
      tally.items, tally.bytes := tally.items + 1, tally.bytes + size;
      return true;
    }
    ok := fs.Open(src);
    if !ok {
      return;
    }
    var created := fs.Write(dst, "");
    if created == 0 {
      return false;
    }
    ok := StreamInto(fs, src, dst, tally);
    tally.items := tally.items + 1;
  }

  /** install_copy_file. */
  method CopyFile(fs: FileSystem, src: string, dst: string, tally: Tally) returns (ok: bool)
    requires fs.Valid() && Real(src) != Real(dst)
    modifies fs, tally
    ensures fs.Valid() && fs.tree - {Real(dst)} == old(fs.tree) - {Real(dst)}
    ensures ok ==> Real(src) in old(fs.tree) && !IsDir(old(fs.tree), Real(dst))
    ensures fs.healthy ==> (ok <==> CopyPossible(old(fs.tree), Real(src), Real(dst)))
    ensures ok ==> fs.tree == old(fs.tree)[Real(dst) := Regular(ContentOf(old(fs.tree), Real(src)))]
    ensures ok ==> tally.items == old(tally.items) + 1
    ensures ok ==> tally.bytes == old(tally.bytes) + |ContentOf(old(fs.tree), Real(src))|
  {
    hide FileSystem.Valid, Creatable, Real;
    var size := fs.StatSize(src);
    if size.None? {
      return false;
    }
    ok := CopyUnverified(fs, src, dst, tally);
    if ok {
      var copied := fs.StatSize(dst);
      ok := copied == size;
    }
  }

  /** A source that can be copied but not overwritten with: the empty file. */
  lemma EmptySource()
    ensures
      var t := map["/" := Directory, "/a" := Regular("")];
      WellFormed(t) && CopyPossible(t, "/a", "/b") && ContentOf(t, "/a") == ""
  {
    var t := map["/" := Directory, "/a" := Regular("")];
    JoinParts("/", "a");
    JoinParts("/", "b");
    assert Join("/", "a") == "/a" && Join("/", "b") == "/b";
  }

  /**
   install_overwrite_file_whole. A write of no bytes is expected to return 0, which a
   successful one never does: over an empty source the call succeeds only when the write
   failed and the target looked empty already, so never on a healthy machine.
   */
  method OverwriteWhole(fs: FileSystem, src: string, dst: string, tally: Tally) returns (ok: bool)
    requires fs.Valid() && Real(src) != Real(dst)
    modifies fs, tally
    ensures fs.Valid() && fs.tree - {Real(dst)} == old(fs.tree) - {Real(dst)}
    ensures ok ==> Real(src) in old(fs.tree)
    ensures ok && ContentOf(old(fs.tree), Real(src)) == "" ==> fs.tree == old(fs.tree)
    ensures ok && (fs.Sighted() || ContentOf(old(fs.tree), Real(src)) != "") ==> !IsDir(old(fs.tree), Real(dst))
    ensures ok && (fs.Sighted() || ContentOf(old(fs.tree), Real(src)) != "") ==>
      fs.tree == old(fs.tree)[Real(dst) := Regular(ContentOf(old(fs.tree), Real(src)))]
    ensures fs.healthy ==>
      (ok <==>
      && CopyPossible(old(fs.tree), Real(src), Real(dst))
      && IsFile(old(fs.tree), Real(src)) && ContentOf(old(fs.tree), Real(src)) != "")
    ensures ok ==> tally.items == old(tally.items) + 1
    ensures ok ==> tally.bytes == old(tally.bytes) + |ContentOf(old(fs.tree), Real(src))|
  {
    hide FileSystem.Valid, Creatable, Real;
    var size := fs.StatSize(src);
    if size.None? {
      return false;
    }
    var kind := fs.StatType(dst);
    if kind == ADirectory {
      return false;
    }
    FilesAreCreatable(fs, Real(src), Real(dst));
    if size.value == 0 {
      var wrote := fs.Write(dst, "");
      var now := fs.StatSize(dst);
      if wrote != 0 || now != Some(0) {
        return false;
      }
      tally.items := tally.items + 1;
      return true;
    }
    var memory: bool := *;
    if !fs.healthy && !memory {
      return false;
    }
    var data := ReadWhole(fs, src, size.value, size.value);
    if data.None? {
      return false;
    }
    var wrote := fs.Write(dst, data.value);
    if wrote != size.value {
      return false;
    }
    var now := fs.StatSize(dst);
    if now != size {
      return false;
    }
    tally.items, tally.bytes := tally.items + 1, tally.bytes + size.value;
    ok := true;
  }
}
