/** An update leaves nothing to do for the next one. */
module UpdateAgain {
  import opened Options
  import opened Paths
  import opened FileSystem
  import opened InstallFiles
  import opened TreeWalk
  import opened ManifestText
  import opened ManifestFile
  import opened UpdatePaths
  import opened UpdatePasses
  import opened UpdateObsolete
  import opened UpdateRefresh
  import opened UpdateRead
  import opened UpdateApply
  import UpdateShell
  import VerifyManifest

  // ----- the refreshed manifest against the same files

  lemma {:induction false} KeptPaths(t: Tree, olds: seq<Entry>)
    ensures forall e :: e in Kept(t, olds) ==> !UpdateIncluded(e.path)
  {
    hide UpdateIncluded, ManifestIncluded, Place, FileHash;
    if olds != [] {
      KeptPaths(t, olds[..|olds| - 1]);
    }
  }

  lemma OneWithPath(news: seq<Entry>, a: Entry, b: Entry)
    requires Distinct(news) && a in news && b in news && a.path == b.path
    ensures a == b
  {
  }

  lemma {:induction false} NothingPlanned(t: Tree, again: seq<Entry>, olds: seq<Entry>)
    requires forall e :: e in again ==> Matches(t, e) && Lookup(olds, e.path) == Some(e)
    ensures Plan(t, again, olds) == []
  {
    hide Matches, Lookup;
    if again != [] {
      var n := |again| - 1;
      NothingPlanned(t, again[..n], olds);
      NeedsNothing(t, again[n], Some(again[n]));
    }
  }

  /** The refreshed manifest leads to each new entry. */
  lemma Found(t: Tree, olds: seq<Entry>, news: seq<Entry>, e: Entry)
    requires Tracked(news) && e in news
    ensures Lookup(Kept(t, olds) + news, e.path) == Some(e)
  {
    hide UpdateIncluded, Kept, Distinct, Lookup;
    var all := Kept(t, olds) + news;
    KeptPaths(t, olds);
    assert e in all;
    var r := Lookup(all, e.path).value;
    assert r in Kept(t, olds) || r in news;
    OneWithPath(news, r, e);
  }

  /** After an update, a plan for the same files is empty, in whatever order they are listed. */
  lemma NothingToDo(t0: Tree, t1: Tree, olds: seq<Entry>, news: seq<Entry>, copied: seq<Entry>, gone: set<string>,
                    again: seq<Entry>)
    requires Updated(t0, t1, olds, news, copied, gone) && Tracked(news) && forall e :: e in again ==> e in news
    ensures Plan(t1, again, Kept(t1, olds) + news) == []
  {
    hide Matches, Lookup, Kept, Tracked, Touched, ObsoletePlaces, MetadataSynced, Print, FilesKept;
    forall e | e in again
      ensures Lookup(Kept(t1, olds) + news, e.path) == Some(e)
    {
      Found(t1, olds, news, e);
    }
    NothingPlanned(t1, again, Kept(t1, olds) + news);
  }

  // ----- the running system is as it was

  lemma RunningUntouched(news: seq<Entry>, olds: seq<Entry>, copied: seq<Entry>, gone: set<string>, p: string)
    requires AllPlain(news) && (forall e :: e in copied ==> e in news) && gone <= ObsoletePlaces(olds, news)
    requires UpdateIncluded(p)
    ensures p !in Touched(copied, gone)
  {
    hide UpdateIncluded, Place, Real, Target, ManifestIncluded, Lookup, Plain;
    forall e | e in copied
      ensures Place(e.path) != p
    {
      EntryPlace(news, e);
      OutsideMount(p, e.path);
    }
    forall o | o in olds && Obsolete(o, news)
      ensures Place(o.path) != p
    {
      UpdatePlace(o.path);
      OutsideMount(p, Real(o.path));
      UpdateIsTracked(p);
      IncludedIsAbsolute(p);
    }
    UpdateShell.OutsideDryRun(p);
    StateTargets();
    OutsideMount(p, "/system/databases/install_manifest.db");
    OutsideMount(p, "/system/databases/install_manifest.new");
    OutsideMount(p, "/system/databases/install_manifest.prev");
    OutsideMount(p, "/system/databases/update_state.db");
    OutsideMount(p, OS_VERSION);
    OutsideMount(p, OS_RELEASE);
  }

  /** An update changes no file that it tracks. */
  lemma RunningStays(t0: Tree, t1: Tree, news: seq<Entry>, olds: seq<Entry>, copied: seq<Entry>, gone: set<string>)
    requires FilesKept(t0, t1, Touched(copied, gone)) && AllPlain(news)
    requires (forall e :: e in copied ==> e in news) && gone <= ObsoletePlaces(olds, news)
    ensures FilesBelow(t1, "/", UpdateIncluded) == FilesBelow(t0, "/", UpdateIncluded)
    ensures forall p :: p in FilesBelow(t0, "/", UpdateIncluded) ==> t1[p] == t0[p]
  {
    hide UpdateIncluded, Touched, ObsoletePlaces, AllPlain, Under;
    forall p | UpdateIncluded(p)
      ensures p !in Touched(copied, gone)
    {
      RunningUntouched(news, olds, copied, gone, p);
    }
  }

  /** So the next update lists the same entries, perhaps in another order. */
  lemma ListedAgain(t0: Tree, t1: Tree, news: seq<Entry>, again: seq<Entry>)
    requires FilesBelow(t1, "/", UpdateIncluded) == FilesBelow(t0, "/", UpdateIncluded)
    requires forall p :: p in FilesBelow(t0, "/", UpdateIncluded) ==> t1[p] == t0[p]
    requires NewEntries(t0, news) && AllEntries(t0, news) && NewEntries(t1, again) && AllEntries(t1, again)
    ensures forall e :: e in again <==> e in news
  {
    hide UpdateIncluded, FileHash, FilesBelow, Distinct;
    forall e | e in again
      ensures e in news
    {
      assert e.path in PathSet(again);
      var f :| f in news && f.path == e.path;
    }
    forall e | e in news
      ensures e in again
    {
      assert e.path in PathSet(news);
      var f :| f in again && f.path == e.path;
    }
  }

  /** What the next update reads as the old manifest is what this one wrote, if it has not too many lines. */
  lemma OldAgain(t0: Tree, t1: Tree, olds: seq<Entry>, news: seq<Entry>, copied: seq<Entry>, gone: set<string>,
                 before: seq<Entry>)
    requires WellFormed(t0) && WellFormed(t1) && CleanTracked(t0) && OldEntries(t0, olds) && NewEntries(t0, news)
    requires Updated(t0, t1, olds, news, copied, gone) && OldEntries(t1, before)
    ensures before == Kept(t1, olds) + news && |before| <= MAX_ENTRIES
  {
    hide Matches, Proper, Clean, Print, Kept, FilesKept, Parse, CleanTracked, Touched, MetadataSynced, ObsoletePlaces;
    hide Lists, FilesBelow, WellFormed, ListsSome, Tracked;
    var es := Kept(t1, olds) + news;
    VerifyManifest.OldAreClean(t0, olds);
    VerifyManifest.KeptAreGood(t1, olds);
    ListedAreProper(t0, news, FilesBelow(t0, "/", UpdateIncluded));
    assert forall e :: e in es ==> e in Kept(t1, olds) || e in news;
    if |es| > MAX_ENTRIES {
      TooManyEntries(es, MAX_ENTRIES);
      assert false;
    }
    RoundTrip(es, MAX_ENTRIES);
  }

  /** None of the entries is obsolete then. */
  lemma NothingObsolete(t1: Tree, olds: seq<Entry>, news: seq<Entry>, again: seq<Entry>)
    requires forall e :: e in news ==> e in again
    ensures forall o :: o in Kept(t1, olds) + news ==> !Obsolete(o, again)
  {
    hide UpdateIncluded, Kept, Lookup;
    KeptPaths(t1, olds);
  }

  lemma {:induction false} NoneCounted(t: Tree, before: seq<Entry>, again: seq<Entry>)
    requires forall o :: o in before ==> !Obsolete(o, again)
    ensures DryCount(t, before, again) == 0 && Removed(t, before, again) == {} && ObsoletePlaces(before, again) == {}
  {
    hide Obsolete, FileThen, Place;
    if before != [] {
      NoneCounted(t, before[..|before| - 1], again);
    }
  }

  // ----- two updates in a row

  /** What an update has not done: it found every entry as it was and nothing obsolete. */
  predicate Idle(result: UpdateResult, again: seq<Entry>)
    reads result, result.copied
  {
    && result.added == 0 && result.updated == 0 && result.same == |again| && result.deleted == 0
    && result.copied.items == 2
  }

  /** All that the second update depends on, from what the first one left. */
  lemma SecondIsIdle(t0: Tree, t1: Tree, olds: seq<Entry>, news: seq<Entry>, copied: seq<Entry>, gone: set<string>,
                     before: seq<Entry>, again: seq<Entry>)
    requires WellFormed(t0) && WellFormed(t1) && CleanTracked(t0)
    requires OldEntries(t0, olds) && NewEntries(t0, news) && AllEntries(t0, news)
    requires Updated(t0, t1, olds, news, copied, gone)
    requires (forall e :: e in copied ==> e in news) && gone <= ObsoletePlaces(olds, news)
    ensures CleanTracked(t1)
    ensures OldEntries(t1, before) ==> |before| <= MAX_ENTRIES && before == Kept(t1, olds) + news
    ensures OldEntries(t1, before) && NewEntries(t1, again) && AllEntries(t1, again) ==>
      Plan(t1, again, before) == [] && DryCount(t1, before, again) == 0 && Removed(t1, before, again) == {}
  {
    hide NewEntries, AllEntries, FilesBelow, UpdateIncluded, OldEntries, Kept, WellFormed, Matches;
    hide ObsoletePlaces, Removed, DryCount, Touched, FilesKept, MetadataSynced, Print, Parse, Plan;
    NewTracked(t0, news);
    RunningStays(t0, t1, news, olds, copied, gone);
    if OldEntries(t1, before) {
      OldAgain(t0, t1, olds, news, copied, gone, before);
      if NewEntries(t1, again) && AllEntries(t1, again) {
        ListedAgain(t0, t1, news, again);
        NothingToDo(t0, t1, olds, news, copied, gone, again);
        NothingObsolete(t1, olds, news, again);
        NoneCounted(t1, before, again);
      }
    }
  }

  lemma NewTracked(t: Tree, news: seq<Entry>)
    requires WellFormed(t) && NewEntries(t, news)
    ensures Tracked(news)
  {
    hide ListsSome, FilesBelow, WellFormed, UpdateIncluded;
    ListedAreProper(t, news, FilesBelow(t, "/", UpdateIncluded));
  }

  /**
   The update command twice. On a healthy machine the second run finds every file as the
   first left it: nothing is added, updated or deleted, and only the metadata is copied.
   */
  method UpdateTwice(fs: FileSystem, ready: bool)
    returns (first: bool, second: bool, result: UpdateResult, again: seq<Entry>, ghost between: Tree)
    requires fs.Valid()
    modifies fs
    ensures fs.Valid()
    ensures first && second && fs.healthy && CleanTracked(old(fs.tree)) ==>
      Idle(result, again) && FilesKept(between, fs.tree, FIXED_FILES)
    ensures fs.healthy && ready && UpdateShell.CanUpdate(old(fs.tree)) ==> first
    ensures first && fs.healthy && ready && UpdateShell.CanUpdate(between) ==> second
  {
    hide FileSystem.Valid, FilesKept, Tracked, Plan, Touched, Updated, CleanTracked, OldEntries, NewEntries, AllEntries;
    hide DryCount, Matches, NewCount, ObsoletePlaces, Removed, Repeats, UpdateShell.CanUpdate, WellFormed, Kept;
    hide StateRemoved, NewApart, MANIFEST_TARGET, MANIFEST_PREV, DATABASES, FIXED_FILES;
    ghost var t0 := fs.tree;
    ValidTree(fs);
    UpdateShell.UpdateReads(t0);
    var olds, news;
    ghost var planned, copied, gone, announced;
    first, result, olds, news, planned, copied, gone, announced := UpdateShell.RunUpdate(fs, ready, false);
    between := fs.tree;
    ValidTree(fs);
    second, again := false, [];
    if !first {
      return;
    }
    var before;
    ghost var planned2, copied2, gone2, announced2;
    second, result, before, again, planned2, copied2, gone2, announced2 := UpdateShell.RunUpdate(fs, ready, false);
    if fs.healthy && CleanTracked(t0) {
      SecondIsIdle(t0, between, olds, news, copied, gone, before, again);
    }
    OnlyFixed();
  }

  lemma OnlyFixed()
    ensures Touched([], {}) == FIXED_FILES
  {
    hide FIXED_FILES;
  }
}
