/** The installer's check of an installed disk against its manifest. */
module VerifyManifest {
  import opened Options
  import opened Paths
  import opened FileSystem
  import opened InstallFiles
  import opened TreeWalk
  import opened ManifestText
  import opened ManifestFile
  import opened UpdatePaths
  import opened UpdatePasses
  import opened UpdateObsolete
  import UpdateFiles
  import UpdateRefresh
  import UpdateRead
  import UpdateApply
  import UpdateShell

  const MANIFEST_SOURCE := "/system/databases/install_manifest.db"

  /** install_root_join, without its length check. */
  function RootJoin(root: string, p: string): string {
    if root == "/" then p else root + p
  }

  /** Below the root directory, too, a file is where prefixing the root's name leads to. */
  lemma {:induction false} RootJoinLeads(root: string, p: string)
    requires p != "" && p[0] == '/'
    ensures Real(RootJoin(root, p)) == Real(root + p)
    decreases |p|
  {
    if root == "/" {
      hide LastSlash;
      var k := LastSlash(p);
      LastSlashIs("/" + p, k + 1);
      assert ("/" + p)[k + 2..] == p[k + 1..] && ("/" + p)[..k + 1] == "/" + p[..k];
      if k > 0 {
        RootJoinLeads(root, p[..k]);
      } else {
        assert Real("/") == "/";
      }
    }
  }

  // ----- the verdict on one line

  datatype Verdict = Malformed | TooLong | Missing | WrongSize | WrongHash | Good(bytes: nat)

  /** What is to be said of a manifest line about the files as they are. */
  function Judge(t: Tree, root: string, line: string): Verdict {
    match Fields(line)
    case None => Malformed
    case Some(e) =>
      var p := RootJoin(root, e.path);
      if |p| >= PATH_MAX then TooLong
      else if !IsFile(t, Real(p)) then Missing
      else if |t[Real(p)].content| != e.size then WrongSize
      else if FileHash(t[Real(p)].content) != e.hash then WrongHash
      else Good(e.size)
  }

  datatype Counts = Counts(entries: nat, files: nat, bytes: nat, missing: nat, mismatches: nat, corrupt: nat)

  const NONE := Counts(0, 0, 0, 0, 0, 0)

  function Record(c: Counts, v: Verdict): Counts {
    match v
    case Malformed => c.(corrupt := c.corrupt + 1)
    case TooLong => c.(entries := c.entries + 1, corrupt := c.corrupt + 1)
    case Missing => c.(entries := c.entries + 1, missing := c.missing + 1)
    case WrongSize => c.(entries := c.entries + 1, mismatches := c.mismatches + 1)
    case WrongHash => c.(entries := c.entries + 1, mismatches := c.mismatches + 1)
    case Good(n) => c.(entries := c.entries + 1, files := c.files + 1, bytes := c.bytes + n)
  }

  /** The counts after all lines, blank ones skipped. */
  function RecordLines(t: Tree, root: string, lines: seq<string>, c: Counts): Counts {
    if lines == [] then c
    else
      var r, line := RecordLines(t, root, lines[..|lines| - 1], c), StripReturn(lines[|lines| - 1]);
      if line == "" then r else Record(r, Judge(t, root, line))
  }

  // ----- what the verdicts mean

  /** The entry's file is there, below the root, with its size and its hash. */
  predicate Sound(t: Tree, root: string, e: Entry) {
    var p := RootJoin(root, e.path);
    && |p| < PATH_MAX && IsFile(t, Real(p))
    && |t[Real(p)].content| == e.size && FileHash(t[Real(p)].content) == e.hash
  }

  predicate GoodLine(t: Tree, root: string, line: string) {
    ParseLine(line).Some? && Sound(t, root, ParseLine(line).value)
  }

  /** Every line that is not blank is an entry whose file is as the entry says. */
  predicate AllGood(t: Tree, root: string, lines: seq<string>) {
    forall l :: l in lines && StripReturn(l) != "" ==> GoodLine(t, root, StripReturn(l))
  }

  /** No entry whose path fits can be read from the line. */
  ghost predicate Unreadable(root: string, line: string) {
    forall e :: Reads(line, e) ==> |RootJoin(root, e.path)| >= PATH_MAX
  }

  ghost predicate Absent(t: Tree, root: string, line: string) {
    exists e :: Reads(line, e) && |RootJoin(root, e.path)| < PATH_MAX && !IsFile(t, Real(RootJoin(root, e.path)))
  }

  ghost predicate Differs(t: Tree, root: string, line: string) {
    exists e :: Reads(line, e) && |RootJoin(root, e.path)| < PATH_MAX && IsFile(t, Real(RootJoin(root, e.path)))
      && var s := t[Real(RootJoin(root, e.path))].content;
      |s| != e.size || FileHash(s) != e.hash
  }

  ghost predicate Readable(line: string) {
    exists e :: Reads(line, e)
  }

  lemma VerdictMeans(t: Tree, root: string, line: string)
    ensures
      var v := Judge(t, root, line);
      && (v.Good? <==> GoodLine(t, root, line)) && (v.Malformed? <==> !Readable(line))
      && (v.Malformed? || v.TooLong? <==> Unreadable(root, line))
      && (v.Missing? <==> Absent(t, root, line)) && (v.WrongSize? || v.WrongHash? <==> Differs(t, root, line))
      && (v.Good? ==> v.bytes == ParseLine(line).value.size)
  {
    hide Fields, Reads, FileHash, Real;
    forall e
      ensures Fields(line) == Some(e) <==> Reads(line, e)
    {
      FieldsAre(line, e);
    }
  }

  function One(b: bool): nat { if b then 1 else 0 }

  /** What one line does to the counts. */
  ghost function Counted(t: Tree, root: string, line: string, c: Counts): Counts {
    Counts(c.entries + One(Readable(line)), c.files + One(GoodLine(t, root, line)),
           c.bytes + (if GoodLine(t, root, line) then ParseLine(line).value.size else 0),
           c.missing + One(Absent(t, root, line)), c.mismatches + One(Differs(t, root, line)),
           c.corrupt + One(Unreadable(root, line)))
  }

  lemma RecordCounts(t: Tree, root: string, line: string, c: Counts)
    ensures Record(c, Judge(t, root, line)) == Counted(t, root, line, c)
    ensures Judge(t, root, line).Good? <==> GoodLine(t, root, line)
  {
    hide Judge, GoodLine, Readable, Absent, Differs, Unreadable;
    VerdictMeans(t, root, line);
  }

  /** The places of the nonblank lines with a property. */
  ghost function Places(lines: seq<string>, p: string -> bool): set<nat> {
    set i: nat | i < |lines| && Has(lines[i], p) :: i
  }

  ghost predicate Has(line: string, p: string -> bool) {
    StripReturn(line) != "" && p(StripReturn(line))
  }

  lemma PlacesNext(lines: seq<string>, p: string -> bool)
    requires lines != []
    ensures
      var n := |lines| - 1;
      |Places(lines, p)| == |Places(lines[..n], p)| + One(Has(lines[n], p))
  {
    hide Has;
    var n := |lines| - 1;
    var a, b := Places(lines, p), Places(lines[..n], p);
    assert a == if Has(lines[n], p) then b + {n} else b;
  }

  /** How many of the lines are of each bad kind. */
  ghost predicate Tallied(t: Tree, root: string, lines: seq<string>, c0: Counts, c1: Counts) {
    && c1.missing == c0.missing + |Places(lines, l => Absent(t, root, l))|
    && c1.mismatches == c0.mismatches + |Places(lines, l => Differs(t, root, l))|
    && c1.corrupt == c0.corrupt + |Places(lines, l => Unreadable(root, l))|
    && c1.entries == c0.entries + |Places(lines, l => Readable(l))|
    && c1.files == c0.files + |Places(lines, l => GoodLine(t, root, l))|
  }

  lemma {:induction false} RecordsAre(t: Tree, root: string, lines: seq<string>, c: Counts)
    ensures Tallied(t, root, lines, c, RecordLines(t, root, lines, c))
  {
    hide Judge, GoodLine, Readable, Absent, Differs, Unreadable, StripReturn, Record, Places;
    if lines == [] {
      NoPlaces(l => Absent(t, root, l));
      NoPlaces(l => Differs(t, root, l));
      NoPlaces(l => Unreadable(root, l));
      NoPlaces(l => Readable(l));
      NoPlaces(l => GoodLine(t, root, l));
    } else {
      var n := |lines| - 1;
      var line := StripReturn(lines[n]);
      RecordsAre(t, root, lines[..n], c);
      RecordCounts(t, root, line, RecordLines(t, root, lines[..n], c));
      PlacesNext(lines, l => Absent(t, root, l));
      PlacesNext(lines, l => Differs(t, root, l));
      PlacesNext(lines, l => Unreadable(root, l));
      PlacesNext(lines, l => Readable(l));
      PlacesNext(lines, l => GoodLine(t, root, l));
    }
  }

  lemma NoPlaces(p: string -> bool)
    ensures Places([], p) == {}
  {
  }

  // ----- the check

  class VerifyResult {
    const root: string
    var manifestEntries: nat
    var filesChecked: nat
    var bytesChecked: nat
    var missing: nat
    var mismatches: nat
    var corrupt: nat

    constructor (root: string)
      ensures this.root == root && Value() == NONE
    {
      this.root := root;
      manifestEntries, filesChecked, bytesChecked := 0, 0, 0;
      missing, mismatches, corrupt := 0, 0, 0;
    }

    ghost function Value(): Counts
      reads this
    {
      Counts(manifestEntries, filesChecked, bytesChecked, missing, mismatches, corrupt)
    }
  }

  /** The part of install_verify_manifest_entry that takes the line apart. */
  method ReadFields(line: string) returns (entry: Option<Entry>)
    ensures entry == Fields(line)
  {
    hide ParseSize, HashValid, Find;
    var a := Find(line, '|');
    if a == |line| {
      return None;
    }
    var path, rest := line[..a], line[a + 1..];
    var b := Find(rest, '|');
    if b == |rest| {
      return None;
    }
    var hash := rest[b + 1..];
    if path == "" || path[0] != '/' || !HashValid(hash) {
      return None;
    }
    var size := ParseSize(rest[..b]);
    if size.None? {
      return None;
    }
    entry := Some(Entry(path, size.value, hash));
  }

  /**
   install_verify_manifest_entry on a nonblank line. Unless a read fails, the verdict is the
   one the files deserve.
   */
  method VerifyEntry(fs: FileSystem, result: VerifyResult, line: string) returns (ok: bool)
    requires fs.Valid() && line != ""
    modifies result
    ensures fs.healthy ==> result.Value() == Counted(fs.tree, result.root, line, old(result.Value()))
    ensures fs.healthy ==> (ok <==> GoodLine(fs.tree, result.root, line))
    ensures ok ==> GoodLine(fs.tree, result.root, line)
  {
    hide FileSystem.Valid, Fields, FileHash, RootJoin, Real, Counted, GoodLine;
    RecordCounts(fs.tree, result.root, line, result.Value());
    ok := false;
    var entry := ReadFields(line);
    if entry.None? {
      result.corrupt := result.corrupt + 1;
      return;
    }
    var Entry(path, size, hash) := entry.value;
    result.manifestEntries := result.manifestEntries + 1;
    var p := RootJoin(result.root, path);
    if |p| >= PATH_MAX {
      result.corrupt := result.corrupt + 1;
      return;
    }
    var kind := fs.StatType(p);
    if kind != AFile {
      result.missing := result.missing + 1;
      return;
    }
    var actualSize := fs.StatSize(p);
    if actualSize != Some(size) {
      result.mismatches := result.mismatches + 1;
      return;
    }
    var actual := HashFile(fs, p);
    if actual.None? {
      result.corrupt := result.corrupt + 1;
      return false;
    }
    if actual.value != hash {
      result.mismatches := result.mismatches + 1;
      return;
    }
    result.filesChecked := result.filesChecked + 1;
    result.bytesChecked := result.bytesChecked + size;
    ok := true;
  }

  lemma RecordNext(t: Tree, root: string, lines: seq<string>, line: string, c: Counts)
    ensures
      var text, r := StripReturn(line), RecordLines(t, root, lines, c);
      RecordLines(t, root, lines + [line], c) == if text == "" then r else Counted(t, root, text, r)
    ensures
      var text := StripReturn(line);
      AllGood(t, root, lines + [line]) <==> AllGood(t, root, lines) && (text == "" || GoodLine(t, root, text))
  {
    hide Judge, StripReturn, Record, GoodLine, Counted;
    assert (lines + [line])[..|lines|] == lines;
    RecordCounts(t, root, StripReturn(line), RecordLines(t, root, lines, c));
  }

  /** The loop of install_verify_manifest over its null-terminated buffer. */
  method VerifyBuffer(fs: FileSystem, result: VerifyResult, content: string) returns (ok: bool)
    requires fs.Valid()
    modifies result
    ensures fs.healthy ==>
      result.Value() == RecordLines(fs.tree, result.root, SplitLines(content), old(result.Value()))
    ensures fs.healthy ==> (ok <==> AllGood(fs.tree, result.root, SplitLines(content)))
    ensures ok ==> AllGood(fs.tree, result.root, SplitLines(content))
  {
    hide FileSystem.Valid, GoodLine, StripReturn, LinesFrom, RecordLines, AllGood, IsBreak, OneLine, Counted;
    hide SplitLines;
    ghost var t, root, c := fs.tree, result.root, result.Value();
    var size := |content|;
    var buffer := new char[size + 1](i => if 0 <= i < |content| then content[i] else '\0');
    var i, lineStart := 0, 0;
    ghost var lines: seq<string> := [];
    ok := true;
    LoadStart(content, 0);
    NoLines(t, root, c);
    while i <= size
      invariant lineStart <= i <= size + 1 && (i == size + 1 ==> lineStart == i)
      invariant forall j :: i <= j <= size ==> buffer[j] == if j < size then content[j] else '\0'
      invariant i <= size ==> buffer[lineStart..i] == content[lineStart..i] && OneLine(content[lineStart..i])
      invariant SplitLines(content) == lines + LinesFrom(content, lineStart)
      invariant fs.healthy ==> result.Value() == RecordLines(t, root, lines, c)
      invariant fs.healthy ==> (ok <==> AllGood(t, root, lines))
      invariant ok ==> AllGood(t, root, lines)
    {
      if buffer[i] == '\n' || buffer[i] == '\0' {
        ghost var line, rest := content[lineStart..i], LinesFrom(content, i + 1);
        BreakHere(content, i, buffer[i]);
        var text := CutLine(buffer, lineStart, i, line);
        NextLine(content, lineStart, i);
        RecordNext(t, root, lines, line, c);
        assert lines + ([line] + rest) == lines + [line] + rest;
        if text != "" {
          var good := VerifyEntry(fs, result, text);
          ok := ok && good;
        }
        lines := lines + [line];
        lineStart := i + 1;
        EmptyLine();
      } else {
        LongerLine(content, lineStart, i);
      }
      i := i + 1;
    }
    LoadEnd(content);
    assert lines + [] == lines;
  }

  lemma NoLines(t: Tree, root: string, c: Counts)
    ensures RecordLines(t, root, [], c) == c && AllGood(t, root, [])
  {
  }

  /** install_verify_manifest. */
  method Verify(fs: FileSystem, result: VerifyResult) returns (ok: bool)
    requires fs.Valid()
    modifies result
    ensures
      var p := RootJoin(result.root, MANIFEST_SOURCE);
      fs.healthy && |p| < PATH_MAX && IsFile(fs.tree, Real(p)) && |fs.tree[Real(p)].content| <= MANIFEST_MAX_BYTES ==>
        var lines := SplitLines(fs.tree[Real(p)].content);
        && result.Value() == RecordLines(fs.tree, result.root, lines, old(result.Value()))
        && Tallied(fs.tree, result.root, lines, old(result.Value()), result.Value())
        && (ok <==> AllGood(fs.tree, result.root, lines))
    ensures
      var p, c := RootJoin(result.root, MANIFEST_SOURCE), old(result.Value());
      && (fs.healthy && |p| >= PATH_MAX ==> !ok && result.Value() == c.(corrupt := c.corrupt + 1))
      && (fs.healthy && |p| < PATH_MAX && Real(p) !in fs.tree ==> !ok && result.Value() == c.(missing := c.missing + 1))
      && (fs.healthy && |p| < PATH_MAX && IsFile(fs.tree, Real(p)) ==>
        |fs.tree[Real(p)].content| > MANIFEST_MAX_BYTES ==> !ok && result.Value() == c.(corrupt := c.corrupt + 1))
    ensures
      var p := RootJoin(result.root, MANIFEST_SOURCE);
      ok ==>
        && |p| < PATH_MAX && IsFile(fs.tree, Real(p))
        && AllGood(fs.tree, result.root, SplitLines(fs.tree[Real(p)].content))
  {
    hide Real, FileSystem.Valid, RecordLines, AllGood, SplitLines, Tallied;
    ghost var c := result.Value();
    ok := false;
    var p := RootJoin(result.root, MANIFEST_SOURCE);
    if |p| >= PATH_MAX {
      result.corrupt := result.corrupt + 1;
      return;
    }
    var size := fs.StatSize(p);
    if size.None? {
      result.missing := result.missing + 1;
      return;
    }
    if size.value > MANIFEST_MAX_BYTES {
      result.corrupt := result.corrupt + 1;
      return;
    }
    var buffer := ReadWhole(fs, p, size.value, MANIFEST_MAX_BYTES);
    if buffer.None? {
      result.corrupt := result.corrupt + 1;
      return false;
    }
    ok := VerifyBuffer(fs, result, buffer.value);
    RecordsAre(fs.tree, result.root, SplitLines(buffer.value), c);
  }

  // ----- an updated disk is accepted

  lemma MatchingLineIsGood(t: Tree, e: Entry)
    requires Matches(t, e) && Proper(e) && Clean(e)
    ensures Judge(t, MOUNT, Body(e)) == Good(e.size) && GoodLine(t, MOUNT, Body(e))
    ensures StripReturn(Body(e)) == Body(e) != ""
  {
    hide FileHash, Fields, HashValid, Target, Body, RootJoin, Clean, Real;
    LineRoundTrip(e);
    BodyIsOneLine(e);
    JoinMount(e.path);
  }

  lemma JoinMount(p: string)
    ensures Target(p) == RootJoin(MOUNT, p)
  {
  }

  function Sizes(es: seq<Entry>): nat {
    if es == [] then 0 else Sizes(es[..|es| - 1]) + es[|es| - 1].size
  }

  lemma {:induction false} MatchingLinesAreGood(t: Tree, es: seq<Entry>)
    requires forall e :: e in es ==> Matches(t, e) && Proper(e) && Clean(e)
    ensures AllGood(t, MOUNT, Bodies(es))
    ensures RecordLines(t, MOUNT, Bodies(es), NONE) == Counts(|es|, |es|, Sizes(es), 0, 0, 0)
  {
    hide Judge, Matches, Proper, Clean, Body, StripReturn, GoodLine;
    if es != [] {
      var n := |es| - 1;
      MatchingLinesAreGood(t, es[..n]);
      MatchingLineIsGood(t, es[n]);
      assert Bodies(es)[..n] == Bodies(es[..n]);
    }
  }

  /** The old entries that a manifest keeps have clean paths, having been parsed. */
  lemma {:induction false} KeptAreGood(t: Tree, olds: seq<Entry>)
    requires WellFormed(t) && forall o :: o in olds ==> Clean(o)
    ensures forall e :: e in UpdateRefresh.Kept(t, olds) ==> Matches(t, e) && Proper(e) && Clean(e)
  {
    hide TrueEntry, Place, UpdateRefresh.Retained, Matches, Proper, Clean, WellFormed;
    if olds != [] {
      var n := |olds| - 1;
      KeptAreGood(t, olds[..n]);
      if UpdateRefresh.Retained(t, olds[n]) {
        RetainedIsGood(t, olds[n]);
      }
    }
  }

  lemma RetainedIsGood(t: Tree, o: Entry)
    requires WellFormed(t) && Clean(o) && UpdateRefresh.Retained(t, o)
    ensures
      var e := TrueEntry(t, Place(o.path), o.path);
      Matches(t, e) && Proper(e) && Clean(e)
  {
    hide FileHash, Place, UpdateIncluded, ManifestIncluded;
    assert Fits(t[Place(o.path)]);
    TargetShape(o.path);
    IncludedIsAbsolute(o.path);
  }

  /**
   After a successful update the verifier accepts the disk: every line of the refreshed
   manifest is good, so nothing is missing, mismatched or corrupt.
   */
  lemma UpdatedIsAccepted(t0: Tree, t1: Tree, olds: seq<Entry>, news: seq<Entry>,
                          copied: seq<Entry>, gone: set<string>)
    requires WellFormed(t0) && WellFormed(t1) && UpdateRead.CleanTracked(t0)
    requires UpdateRead.OldEntries(t0, olds) && UpdateRead.NewEntries(t0, news)
    requires UpdateApply.Updated(t0, t1, olds, news, copied, gone)
    ensures
      var p := RootJoin(MOUNT, MANIFEST_SOURCE);
      && |p| < PATH_MAX && Real(p) == p && IsFile(t1, p) && |t1[p].content| <= MANIFEST_MAX_BYTES
      && var lines, es := SplitLines(t1[p].content), UpdateRefresh.Kept(t1, olds) + news;
      && AllGood(t1, MOUNT, lines)
      && RecordLines(t1, MOUNT, lines, NONE) == Counts(|es|, |es|, Sizes(es), 0, 0, 0)
  {
    hide Matches, Proper, Clean, AllGood, RecordLines, Print, SplitLines, UpdateRefresh.Kept, FilesKept, Parse;
    hide UpdateRead.CleanTracked, UpdateApply.Touched, UpdateApply.MetadataSynced, ObsoletePlaces, Lists, FilesBelow;
    hide WellFormed;
    var es := UpdateRefresh.Kept(t1, olds) + news;
    StateTargets();
    StatePlain();
    OldAreClean(t0, olds);
    KeptAreGood(t1, olds);
    UpdateRead.ListedAreProper(t0, news, FilesBelow(t0, "/", UpdateIncluded));
    assert forall e :: e in es ==> e in UpdateRefresh.Kept(t1, olds) || e in news;
    SplitPrint(es);
    MatchingLinesAreGood(t1, es);
    RecordNext(t1, MOUNT, Bodies(es), "", NONE);
    NoText();
  }

  lemma NoText()
    ensures StripReturn("") == ""
  {
  }

  lemma OldAreClean(t: Tree, olds: seq<Entry>)
    requires UpdateRead.OldEntries(t, olds)
    ensures forall o :: o in olds ==> Clean(o)
  {
    hide Clean, SplitLines, ParseLines;
    if MANIFEST_TARGET in t {
      ParsedAreClean(SplitLines(t[MANIFEST_TARGET].content), MAX_ENTRIES);
    }
  }

  /** The update command, then the verify command's manifest check on the disk it left. */
  method UpdateThenVerify(fs: FileSystem, ready: bool) returns (updated: bool, accepted: bool, result: VerifyResult)
    requires fs.Valid()
    modifies fs
    ensures fs.Valid()
    ensures updated && fs.healthy && UpdateRead.CleanTracked(old(fs.tree)) ==>
      accepted && result.missing == result.mismatches == result.corrupt == 0
    ensures fs.healthy && ready && UpdateShell.CanUpdate(old(fs.tree)) ==> updated && accepted
    ensures accepted ==>
      var p := RootJoin(MOUNT, MANIFEST_SOURCE);
      IsFile(fs.tree, Real(p)) && AllGood(fs.tree, MOUNT, SplitLines(fs.tree[Real(p)].content))
  {
    hide AllGood, RecordLines, SplitLines, UpdateRead.CleanTracked, UpdateRead.OldEntries, UpdateRead.NewEntries;
    hide UpdateApply.Updated, UpdateRefresh.Kept, Sizes, FilesKept, FileSystem.Valid, WellFormed;
    hide UpdateRead.AllEntries, UpdateFiles.MetadataPresent, UpdateApply.Touched, Matches, Plan, DryCount;
    hide UpdateShell.CanUpdate, UpdateRead.CanRead, Real, ObsoletePlaces, Targets, NewApart, Removed, StateRemoved;
    hide UpdateFiles.LEFTOVERS, Repeats, NewCount;
    ghost var t0 := fs.tree;
    UpdateShell.UpdateReads(t0);
    ValidTree(fs);
    var counts, olds, news;
    ghost var planned, copied, gone, announced;
    updated, counts, olds, news, planned, copied, gone, announced := UpdateShell.RunUpdate(fs, ready, false);
    ValidTree(fs);
    result := new VerifyResult(MOUNT);
    if updated && fs.Sighted() && UpdateRead.CleanTracked(t0) {
      UpdatedIsAccepted(t0, fs.tree, olds, news, copied, gone);
    }
    accepted := Verify(fs, result);
  }
}
