/** How an update rewrites the manifest of the target disk. */
module UpdateRefresh {
  import opened Options
  import opened Paths
  import opened FileSystem
  import opened InstallFiles
  import opened TreeWalk
  import opened ManifestText
  import opened ManifestFile
  import opened UpdatePaths
  import opened UpdatePasses
  import opened UpdateFiles

  // ----- the refreshed manifest

  /** An old entry outside the update's scope that is tracked and still there. */
  predicate Retained(t: Tree, o: Entry) {
    !UpdateIncluded(o.path) && ManifestIncluded(o.path) && |Target(o.path)| < PATH_MAX && IsFile(t, Place(o.path))
  }

  function Kept(t: Tree, olds: seq<Entry>): seq<Entry> {
    if olds == [] then []
    else
      var n := |olds| - 1;
      Kept(t, olds[..n]) +
      (if Retained(t, olds[n]) then [TrueEntry(t, Place(olds[n].path), olds[n].path)] else [])
  }

  /** The retained entries: those listed, tracked but out of the update's scope, and there, as their files are now. */
  lemma {:induction false} KeptAre(t: Tree, olds: seq<Entry>, e: Entry)
    ensures e in Kept(t, olds) <==>
      && ManifestIncluded(e.path) && !UpdateIncluded(e.path) && |Target(e.path)| < PATH_MAX
      && IsFile(t, Place(e.path))
      && e.size == |t[Place(e.path)].content| && e.hash == FileHash(t[Place(e.path)].content)
      && exists o :: o in olds && o.path == e.path
  {
    hide Place, FileHash, UpdateIncluded, ManifestIncluded;
    if olds != [] {
      var n := |olds| - 1;
      KeptAre(t, olds[..n], e);
      assert olds[n] in olds && forall o :: o in olds <==> o in olds[..n] || o == olds[n];
    }
  }

  lemma {:induction false} KeptSame(t0: Tree, t1: Tree, s: set<string>, olds: seq<Entry>)
    requires FilesKept(t0, t1, s)
    requires forall o :: o in olds && !UpdateIncluded(o.path) && ManifestIncluded(o.path) ==> Place(o.path) !in s
    ensures Kept(t0, olds) == Kept(t1, olds)
  {
    hide Place, FileHash, UpdateIncluded, ManifestIncluded;
    if olds != [] {
      KeptSame(t0, t1, s, olds[..|olds| - 1]);
    }
  }

  lemma AppendedFurther(t0: Tree, m: string, es: seq<Entry>, e: Entry)
    requires IsFile(t0, m)
    ensures
      var t := t0[m := Regular(Print(es))];
      Appended(t, m, Line(e)) == t0[m := Regular(Print(es + [e]))] && |Print(es + [e])| == |Print(es)| + |Line(e)|
  {
    hide Line, Print;
    PrintNext(es, e);
  }

  /** A tracked file reads the same while the manifest is being written. */
  lemma TrueEntryElsewhere(t0: Tree, m: string, text: string, p: string)
    requires Place(p) != m && IsFile(t0, Place(p))
    ensures IsFile(t0[m := Regular(text)], Place(p))
    ensures TrueEntry(t0[m := Regular(text)], Place(p), p) == TrueEntry(t0, Place(p), p)
  {
    hide FileHash, Place;
  }

  /** Every new entry is tracked and its file is in place. */
  ghost predicate InPlace(t: Tree, news: seq<Entry>) {
    Tracked(news) && forall e :: e in news ==> Matches(t, e)
  }

  lemma InPlaceElsewhere(t0: Tree, m: string, text: string, news: seq<Entry>)
    requires InPlace(t0, news) && m == MANIFEST_TARGET
    ensures InPlace(t0[m := Regular(text)], news)
  {
    hide Matches, Place, AllPlain, Distinct, ManifestIncluded;
    forall e | e in news
      ensures Matches(t0[m := Regular(text)], e)
    {
      EntryPlace(news, e);
      MatchesWithout(t0, m, text, e);
    }
  }

  /** Some of the entries that a manifest keeps. */
  ghost predicate SomeKept(t: Tree, kept: seq<Entry>, olds: seq<Entry>) {
    forall e :: e in kept ==> e in Kept(t, olds)
  }

  /**
   install_update_shell_refresh_manifest: the manifest of the target becomes the retained
   old entries, as their files are now, followed by all new entries. `kept` are the old
   entries that made it, which are all of them unless a call that looks at a path failed.
   */
  method RefreshManifest(fs: FileSystem, olds: seq<Entry>, news: seq<Entry>) returns (ok: bool, ghost kept: seq<Entry>)
    requires fs.Valid()
    modifies fs
    ensures fs.Valid() && fs.tree - {MANIFEST_TARGET} == old(fs.tree) - {MANIFEST_TARGET}
    ensures ok ==> SomeKept(old(fs.tree), kept, olds) && kept + news != []
    ensures ok ==> forall e :: e in news && Place(e.path) != MANIFEST_TARGET ==> IsFile(old(fs.tree), Place(e.path))
    ensures ok && fs.Sighted() ==> kept == Kept(old(fs.tree), olds)
    ensures ok && InPlace(old(fs.tree), news) ==>
      fs.tree == old(fs.tree)[MANIFEST_TARGET := Regular(Print(kept + news))]
    ensures ok && InPlace(old(fs.tree), news) ==> |Print(kept + news)| <= MANIFEST_MAX_BYTES
    ensures fs.healthy && InPlace(old(fs.tree), news) && news != [] && CanRefresh(old(fs.tree), olds, news) ==> ok
  {
    hide Real, DirPath, FileSystem.Valid, Print, Line, InPlace, Target, UpdateIncluded, ManifestIncluded, Kept;
    hide TrueEntry, Creatable;
    hide Writable, RefreshFit, WellFormed;
    ghost var t0 := fs.tree;
    StatePlain();
    ManifestRoom(t0);
    kept := [];
    ok := StartManifest(fs, MANIFEST_TARGET);
    if !ok {
      return;
    }
    var writer := new Writer();
    ghost var t := t0[MANIFEST_TARGET := Regular("")];
    assert fs.tree == t;
    ValidTree(fs);
    PrintAppend(Kept(t0, olds), news);
    KeptElsewhere(t0, t, MANIFEST_TARGET, olds);
    ok, kept := RefreshOld(fs, t, olds, writer);
    if !ok {
      return;
    }
    if InPlace(t0, news) {
      InPlaceElsewhere(t0, MANIFEST_TARGET, "", news);
    }
    ok := RefreshNew(fs, t, kept, news, writer);
    if writer.files == 0 {
      ok := false;
    }
  }

  /** No retained old entry has too long a target path. */
  predicate RefreshFit(olds: seq<Entry>) {
    forall j :: 0 <= j < |olds| ==> RefreshFits(olds[j])
  }

  predicate RefreshFits(o: Entry) {
    !UpdateIncluded(o.path) && ManifestIncluded(o.path) ==> |Target(o.path)| < PATH_MAX
  }

  /** The manifest's place and its size allow for the refreshed one. */
  ghost predicate CanRefresh(t: Tree, olds: seq<Entry>, news: seq<Entry>) {
    && Writable(t, DATABASES, MANIFEST_TARGET) && RefreshFit(olds)
    && |Print(Kept(t, olds) + news)| <= MANIFEST_MAX_BYTES
  }

  lemma ManifestRoom(t: Tree)
    ensures Writable(t, DATABASES, MANIFEST_TARGET) ==> Creatable(t, MANIFEST_TARGET) && !IsDir(t, MANIFEST_TARGET)
  {
    hide Writable, Creatable, IsDir;
    ManifestPath();
    RoomFor(t, "install_manifest.db");
  }

  lemma MatchesWithout(t0: Tree, m: string, text: string, e: Entry)
    requires Matches(t0, e) && Place(e.path) != m
    ensures Matches(t0[m := Regular(text)], e)
  {
    hide FileHash, Place;
  }

  lemma KeptElsewhere(t0: Tree, t1: Tree, m: string, olds: seq<Entry>)
    requires t1 - {m} == t0 - {m} && m == MANIFEST_TARGET
    ensures Kept(t1, olds) == Kept(t0, olds)
  {
    hide Place, UpdateIncluded, ManifestIncluded;
    KeptOutside(t0, t1, {m});
    forall o | o in olds && !UpdateIncluded(o.path) && ManifestIncluded(o.path)
      ensures Place(o.path) !in {m}
    {
      RetainedPlace(o.path);
    }
    KeptSame(t0, t1, {m}, olds);
  }

  method RefreshOld(fs: FileSystem, ghost t: Tree, olds: seq<Entry>, writer: Writer)
    returns (ok: bool, ghost kept: seq<Entry>)
    requires fs.Valid() && IsFile(t, MANIFEST_TARGET) && t[MANIFEST_TARGET].content == "" && fs.tree == t
    requires writer.files == 0 && writer.manifestBytes == 0
    modifies fs, writer
    ensures fs.Valid() && fs.tree - {MANIFEST_TARGET} == t - {MANIFEST_TARGET}
    ensures ok ==> fs.tree == t[MANIFEST_TARGET := Regular(Print(kept))]
    ensures ok ==> SomeKept(t, kept, olds)
    ensures ok && fs.Sighted() ==> kept == Kept(t, olds)
    ensures ok ==> writer.files == |kept|
    ensures ok ==> writer.manifestBytes == |Print(kept)| <= MANIFEST_MAX_BYTES
    ensures fs.healthy && RefreshFit(olds) && |Print(Kept(t, olds))| <= MANIFEST_MAX_BYTES ==> ok
  {
    hide Real, DirPath, FileSystem.Valid, Print, Line, Target, UpdateIncluded, ManifestIncluded, TrueEntry, Kept;
    hide SomeKept;
    hide WellFormed;
    var i := 0;
    StatePlain();
    ValidTree(fs);
    kept := [];
    assert olds[..0] == [];
    KeptNone(t);
    while i < |olds|
      invariant i <= |olds| && fs.Valid()
      invariant SomeKept(t, kept, olds[..i])
      invariant fs.Sighted() ==> kept == Kept(t, olds[..i])
      invariant fs.tree == t[MANIFEST_TARGET := Regular(Print(kept))]
      invariant writer.files == |kept|
      invariant writer.manifestBytes == |Print(kept)| <= MANIFEST_MAX_BYTES
    {
      KeptNextOld(t, olds, i, kept);
      RetainedLine(t, olds, i);
      assert kept + [] == kept && Kept(t, olds[..i]) + [] == Kept(t, olds[..i]);
      var path := olds[i].path;
      if !UpdateIncluded(path) && ManifestIncluded(path) {
        var target := Target(path);
        if |target| >= PATH_MAX {
          return false, kept;
        }
        RetainedPlace(path);
        var kind := fs.StatType(target);
        if kind == AFile {
          TrueEntryElsewhere(t, MANIFEST_TARGET, Print(kept), path);
          AppendedFurther(t, MANIFEST_TARGET, kept, TrueEntry(t, Place(path), path));
          ok := AppendEntry(fs, MANIFEST_TARGET, target, path, writer);
          if !ok {
            return;
          }
          kept := kept + [TrueEntry(t, Place(path), path)];
        }
      }
      i := i + 1;
    }
    assert olds[..i] == olds;
    ok := true;
  }

  lemma KeptNone(t: Tree)
    ensures Kept(t, []) == [] && Print([]) == "" && SomeKept(t, [], [])
  {
  }

  lemma KeptNextOld(t: Tree, olds: seq<Entry>, i: nat, kept: seq<Entry>)
    requires i < |olds| && SomeKept(t, kept, olds[..i])
    ensures SomeKept(t, kept, olds[..i + 1])
    ensures Kept(t, olds[..i + 1]) == Kept(t, olds[..i]) +
      (if Retained(t, olds[i]) then [TrueEntry(t, Place(olds[i].path), olds[i].path)] else [])
    ensures Retained(t, olds[i]) ==>
      SomeKept(t, kept + [TrueEntry(t, Place(olds[i].path), olds[i].path)], olds[..i + 1])
  {
    hide Retained, TrueEntry, Place;
    assert olds[..i + 1][..i] == olds[..i];
  }

  /** The line of a retained entry fits its buffer, and leaves the manifest no longer than the whole. */
  lemma RetainedLine(t: Tree, olds: seq<Entry>, i: nat)
    requires WellFormed(t) && i < |olds|
    ensures Retained(t, olds[i]) ==>
      var line := Line(TrueEntry(t, Place(olds[i].path), olds[i].path));
      |line| < LINE_MAX && |Print(Kept(t, olds[..i]))| + |line| <= |Print(Kept(t, olds))|
  {
    hide WellFormed, Line, Print, Place, UpdateIncluded, ManifestIncluded, FileHash;
    if Retained(t, olds[i]) {
      var e := TrueEntry(t, Place(olds[i].path), olds[i].path);
      KeptNextOld(t, olds, i, []);
      PrintNext(Kept(t, olds[..i]), e);
      KeptGrows(t, olds, i + 1);
      FileFits(t, Place(olds[i].path));
      IncludedIsAbsolute(olds[i].path);
      TargetShape(olds[i].path);
      LineLength(e);
    }
  }

  lemma FileFits(t: Tree, p: string)
    requires WellFormed(t) && IsFile(t, p)
    ensures |t[p].content| <= U64_MAX
  {
    assert Fits(t[p]);
  }

  lemma {:induction false} KeptGrows(t: Tree, olds: seq<Entry>, i: nat)
    requires i <= |olds|
    ensures |Print(Kept(t, olds[..i]))| <= |Print(Kept(t, olds))|
    decreases |olds| - i
  {
    hide Print, Line, Place, UpdateIncluded, ManifestIncluded, TrueEntry, Kept;
    if i < |olds| {
      KeptNextOld(t, olds, i, []);
      KeptGrows(t, olds, i + 1);
      var kept := Kept(t, olds[..i]);
      assert kept + [] == kept;
      if Retained(t, olds[i]) {
        PrintNext(kept, TrueEntry(t, Place(olds[i].path), olds[i].path));
      }
    } else {
      assert olds[..i] == olds;
    }
  }

  method RefreshNew(fs: FileSystem, ghost t: Tree, ghost kept: seq<Entry>, news: seq<Entry>, writer: Writer)
    returns (ok: bool)
    requires fs.Valid() && IsFile(t, MANIFEST_TARGET) && fs.tree == t[MANIFEST_TARGET := Regular(Print(kept))]
    requires writer.files == |kept| && writer.manifestBytes == |Print(kept)| <= MANIFEST_MAX_BYTES
    modifies fs, writer
    ensures fs.Valid() && fs.tree - {MANIFEST_TARGET} == t - {MANIFEST_TARGET}
    ensures ok && InPlace(t, news) ==> fs.tree == t[MANIFEST_TARGET := Regular(Print(kept + news))]
    ensures ok ==> writer.files == |kept| + |news|
    ensures ok ==> forall e :: e in news && Place(e.path) != MANIFEST_TARGET ==> IsFile(t, Place(e.path))
    ensures ok && InPlace(t, news) ==> |Print(kept + news)| <= MANIFEST_MAX_BYTES
    ensures fs.healthy && WellFormed(t) && InPlace(t, news) && |Print(kept + news)| <= MANIFEST_MAX_BYTES ==> ok
  {
    hide Real, DirPath, FileSystem.Valid, Print, Line, Target, UpdateIncluded, ManifestIncluded, TrueEntry, Matches;
    hide WellFormed;
    var i := 0;
    StatePlain();
    assert kept + news[..0] == kept;
    while i < |news|
      invariant i <= |news| && fs.Valid() && fs.tree - {MANIFEST_TARGET} == t - {MANIFEST_TARGET}
      invariant InPlace(t, news) ==> fs.tree == t[MANIFEST_TARGET := Regular(Print(kept + news[..i]))]
      invariant writer.files == |kept| + i
      invariant forall j :: 0 <= j < i && Place(news[j].path) != MANIFEST_TARGET ==> IsFile(t, Place(news[j].path))
      invariant InPlace(t, news) ==> writer.manifestBytes == |Print(kept + news[..i])| <= MANIFEST_MAX_BYTES
    {
      var e := news[i];
      assert e in news;
      if InPlace(t, news) {
        EntryPlace(news, e);
        MatchesIsTrue(t, e);
        NewLine(t, kept, news, i);
        TrueEntryElsewhere(t, MANIFEST_TARGET, Print(kept + news[..i]), e.path);
        AppendedFurther(t, MANIFEST_TARGET, kept + news[..i], e);
        assert kept + news[..i] + [e] == kept + news[..i + 1];
      }
      var target := Target(e.path);
      if |target| >= PATH_MAX {
        return false;
      }
      ghost var before := fs.tree;
      ok := AppendEntry(fs, MANIFEST_TARGET, target, e.path, writer);
      if !ok {
        return;
      }
      FileElsewhere(before, t, MANIFEST_TARGET, Place(e.path));
      i := i + 1;
    }
    assert news[..i] == news;
    ok := true;
  }

  lemma FileElsewhere(t0: Tree, t1: Tree, m: string, p: string)
    requires t0 - {m} == t1 - {m}
    ensures p != m && IsFile(t0, p) ==> IsFile(t1, p)
  {
    assert p != m && p in t0 ==> p in t0 - {m};
  }

  lemma NewLine(t: Tree, kept: seq<Entry>, news: seq<Entry>, i: nat)
    requires i < |news| && Matches(t, news[i])
    ensures |Target(news[i].path)| < PATH_MAX
    ensures WellFormed(t) ==> |Line(news[i])| < LINE_MAX
    ensures |Print(kept + news[..i])| + |Line(news[i])| <= |Print(kept + news)|
  {
    hide WellFormed, Line, Print, FileHash, Place;
    var e := news[i];
    if WellFormed(t) {
      FileFits(t, Place(e.path));
      TargetShape(e.path);
      LineLength(e);
    }
    PrintNext(kept + news[..i], e);
    PrintAppend(kept + news[..i] + [e], news[i + 1..]);
    assert kept + news == kept + news[..i] + [e] + news[i + 1..];
  }

  /** An entry that its target matches is the true entry of the target. */
  lemma MatchesIsTrue(t: Tree, e: Entry)
    requires Matches(t, e)
    ensures IsFile(t, Place(e.path)) && TrueEntry(t, Place(e.path), e.path) == e
  {
    hide FileHash, Place;
  }
}
