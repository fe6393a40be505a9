/**
 The shell update: plan against the old manifest, copy what changed, delete what became
 obsolete and refresh the manifest of the target disk.
 */
module UpdatePasses {
  import opened Options
  import opened Paths
  import opened FileSystem
  import opened InstallFiles
  import opened TreeWalk
  import opened ManifestText
  import opened ManifestFile
  import opened UpdatePaths

  const MAX_ENTRIES: nat := 192
  ghost function Targets(es: seq<Entry>): set<string> {
    set e | e in es :: Place(e.path)
  }

  // ----- regular files kept

  /** Outside s the two trees have the same regular files with the same contents. */
  ghost predicate FilesKept(t0: Tree, t1: Tree, s: set<string>) {
    forall q :: q !in s && (IsFile(t0, q) || IsFile(t1, q)) ==> q in t0 && q in t1 && t0[q] == t1[q]
  }

  lemma KeptTrans(t0: Tree, t1: Tree, t2: Tree, s: set<string>)
    requires FilesKept(t0, t1, s) && FilesKept(t1, t2, s)
    ensures FilesKept(t0, t2, s)
  {
  }

  lemma KeptMore(t0: Tree, t1: Tree, a: set<string>, b: set<string>)
    requires FilesKept(t0, t1, a) && a <= b
    ensures FilesKept(t0, t1, b)
  {
  }

  lemma KeptOutside(t0: Tree, t1: Tree, s: set<string>)
    requires t0 - s == t1 - s
    ensures FilesKept(t0, t1, s)
  {
    forall q | q !in s
      ensures q in t0 <==> q in t1
      ensures q in t0 ==> t0[q] == t1[q]
    {
      assert q in t0 <==> q in t0 - s;
      assert q in t1 <==> q in t1 - s;
    }
  }

  lemma MinusTrans(t0: Tree, t1: Tree, t2: Tree, s: set<string>, u: set<string>)
    requires t0 - s == t1 - s && t1 - u == t2 - u && u <= s
    ensures t0 - s == t2 - s
  {
    assert t1 - s == t1 - u - (s - u);
    assert t2 - s == t2 - u - (s - u);
  }

  lemma KeptParents(t0: Tree, t1: Tree, path: string)
    requires AddedParents(t0, t1, path)
    ensures FilesKept(t0, t1, {})
  {
  }

  // ----- single entries

  /** install_manifest_find: the first entry with a path. */
  function Lookup(es: seq<Entry>, path: string): (r: Option<Entry>)
    ensures r.Some? ==> r.value in es && r.value.path == path
    ensures r.None? ==> forall e :: e in es ==> e.path != path
  {
    if es == [] then None
    else if es[0].path == path then Some(es[0])
    else Lookup(es[1..], path)
  }

  method FindEntry(es: seq<Entry>, path: string) returns (r: Option<Entry>)
    ensures r == Lookup(es, path)
  {
    var i := 0;
    while i < |es|
      invariant i <= |es| && Lookup(es, path) == Lookup(es[i..], path)
    {
      if es[i].path == path {
        return Some(es[i]);
      }
      i := i + 1;
    }
    r := None;
  }

  predicate EntrySame(a: Entry, b: Entry) { a.size == b.size && a.hash == b.hash }

  /** The target holds exactly the file that the entry describes. */
  predicate Matches(t: Tree, e: Entry) {
    && e.path != "" && e.path[0] == '/' && |Target(e.path)| < PATH_MAX
    && IsFile(t, Place(e.path))
    && |t[Place(e.path)].content| == e.size
    && FileHash(t[Place(e.path)].content) == e.hash
  }

  /** When the plan calls for a copy. */
  predicate NeedsCopy(t: Tree, e: Entry, previous: Option<Entry>) {
    previous.None? || !EntrySame(e, previous.value) || !Matches(t, e)
  }

  /** Only an entry that is listed with its size and its hash, and whose target has them, is left alone. */
  lemma NeedsNothing(t: Tree, e: Entry, previous: Option<Entry>)
    ensures !NeedsCopy(t, e, previous) <==>
      previous.Some? && previous.value.size == e.size && previous.value.hash == e.hash && Matches(t, e)
  {
    hide Matches;
  }

  lemma MatchesKept(t0: Tree, t1: Tree, s: set<string>, e: Entry)
    requires FilesKept(t0, t1, s) && Place(e.path) !in s
    ensures Matches(t0, e) <==> Matches(t1, e)
  {
    hide FileHash, Place;
  }

  /** install_update_shell_target_matches. A read that fails counts as a mismatch. */
  method TargetMatches(fs: FileSystem, e: Entry) returns (b: bool)
    requires fs.Valid()
    ensures b ==> Matches(fs.tree, e)
    ensures fs.healthy ==> (b <==> Matches(fs.tree, e))
  {
    hide Real, FileHash, FileSystem.Valid;
    if e.path == "" || e.path[0] != '/' || |Target(e.path)| >= PATH_MAX {
      return false;
    }
    var kind := fs.StatType(Target(e.path));
    if kind != AFile {
      return false;
    }
    var size := fs.StatSize(Target(e.path));
    if size != Some(e.size) {
      return false;
    }
    var hash := HashFile(fs, Target(e.path));
    if hash.None? {
      return false;
    }
    b := hash.value == e.hash;
  }

  /** install_update_shell_plan_copy. */
  method PlanCopy(fs: FileSystem, e: Entry, previous: Option<Entry>) returns (copy: bool)
    requires fs.Valid()
    ensures !copy ==> !NeedsCopy(fs.tree, e, previous)
    ensures fs.healthy ==> (copy <==> NeedsCopy(fs.tree, e, previous))
    ensures
      var same := previous.Some? && previous.value.size == e.size && previous.value.hash == e.hash;
      && (!copy ==> same && Matches(fs.tree, e))
      && (fs.healthy && same && Matches(fs.tree, e) ==> !copy)
  {
    hide Matches, FileSystem.Valid;
    NeedsNothing(fs.tree, e, previous);
    if previous.None? || !EntrySame(e, previous.value) {
      return true;
    }
    var b := TargetMatches(fs, e);
    copy := !b;
  }

  class UpdateResult {
    var added: nat
    var updated: nat
    var same: nat
    var deleted: nat
    var verifyFailed: nat
    const copied: Tally

    constructor ()
      ensures added == updated == same == deleted == verifyFailed == 0
      ensures fresh(copied) && copied.items == 0 && copied.bytes == 0
    {
      added, updated, same, deleted, verifyFailed := 0, 0, 0, 0, 0;
      copied := new Tally();
    }
  }

  /**
   The source is there, and nothing but missing directories stands between it and its
   target, which is none of these directories itself.
   */
  ghost predicate CanCopy(t: Tree, p: string) {
    && Real(p) in t && p != "" && p[0] == '/' && |Target(p)| < PATH_MAX
    && Placeable(Place(p)) && ParentsPossible(t, Target(p))
    && !IsDir(t, Place(p)) && !OnTheWay(Place(p), Target(p))
  }

  lemma CreatableNow(fs: FileSystem, p: string)
    requires fs.Valid() && p != "" && p[0] == '/' && Placeable(Real(p)) && !IsDir(fs.tree, Real(p))
    requires forall i :: 1 <= i < |p| && p[i] == '/' ==> IsDir(fs.tree, Real(p[..i]))
    ensures Creatable(fs.tree, Real(p))
  {
    hide Placeable, Creatable, Real, FileSystem.Valid;
    if Real(p) in fs.tree {
      FileIsCreatable(fs, Real(p));
    } else {
      assert p[..|p|] == p;
      RootIsPresent(fs);
      ParentMade(fs.tree, p, |p|);
    }
  }

  lemma TargetShape(p: string)
    ensures Target(p) != "" && Target(p)[0] == '/' && |p| < |Target(p)|
  {
  }

  /** The entry says what its source file is. */
  predicate Describes(t: Tree, e: Entry) {
    IsFile(t, Real(e.path)) && e == TrueEntry(t, Real(e.path), e.path)
  }

  /** The entry can be copied, and the copy will match it. */
  ghost predicate Copying(t: Tree, e: Entry) {
    CanCopy(t, e.path) && Describes(t, e)
  }

  /** t1 is t0 but for a file at target and new directories on the way to it. */
  ghost predicate CopiedTo(t0: Tree, t1: Tree, target: string) {
    && (forall p :: p in t0 && p != Real(target) ==> p in t1 && t1[p] == t0[p])
    && (forall p :: p in t1 && p !in t0 && p != Real(target) ==> t1[p] == Directory && OnTheWay(p, target))
  }

  lemma CopiedInto(t0: Tree, t1: Tree, t2: Tree, target: string)
    requires AddedParents(t0, t1, target) && t2 - {Real(target)} == t1 - {Real(target)}
    ensures CopiedTo(t0, t2, target)
  {
    hide Real;
    forall p | p != Real(target)
      ensures p in t2 <==> p in t1
      ensures p in t2 ==> t2[p] == t1[p]
    {
      assert p in t2 <==> p in t2 - {Real(target)};
      assert p in t1 <==> p in t1 - {Real(target)};
    }
  }

  lemma CopiedNothing(t: Tree, target: string)
    ensures CopiedTo(t, t, target)
  {
  }

  lemma CopyMatches(t: Tree, t': Tree, e: Entry)
    requires Copying(t, e) && FilesKept(t, t', {Place(e.path)}) && Real(e.path) != Place(e.path)
    requires Real(e.path) in t' && Place(e.path) in t'
    requires t'[Place(e.path)] == Regular(ContentOf(t', Real(e.path)))
    ensures Matches(t', e)
  {
    hide FileHash, Target, Real, Place, Placeable, ParentsPossible;
  }

  /** No file lies below another. */
  lemma NotNested(t: Tree, p: string, q: string)
    requires WellFormed(t) && IsFile(t, p) && q in t && Under(q, p)
    ensures p == q
  {
    hide WellPlaced, Under, Real;
    if p != q {
      NodeIsPlain(t, p);
      AncestorIsDir(t, q, p);
    }
  }

  /** Copying one entry leaves another one as ready to be copied as it was. */
  lemma CopyingStays(t0: Tree, t1: Tree, e0: Entry, e: Entry)
    requires WellFormed(t0) && Copying(t0, e0) && Copying(t0, e) && CopiedTo(t0, t1, Target(e0.path))
    requires UpdateIncluded(e0.path) && UpdateIncluded(e.path) && Plain(e0.path) && Plain(e.path) && e.path != e0.path
    ensures Copying(t1, e)
  {
    hide Target, FileHash, Placeable, WellFormed, Under, Real, UpdateIncluded, OnTheWay, ManifestIncluded;
    var target, target0 := Target(e.path), Target(e0.path);
    UpdateIsTracked(e.path);
    UpdateIsTracked(e0.path);
    TrackedPlace(e.path);
    TrackedPlace(e0.path);
    TargetsDiffer(e.path, e0.path);
    OutsideMount(e.path, e0.path);
    if IsDir(t1, target) {
      AboveOf(target, target0);
      UnderTargets(e0.path, e.path);
      NotNested(t0, e.path, e0.path);
    }
    forall i | 1 <= i < |target| && target[i] == '/'
      ensures
        var p := Real(target[..i]);
        IsDir(t1, p) || (p !in t1 && Placeable(p))
    {
      PrefixPlain(target, i);
      if target[..i] == target0 {
        Above(target, i);
        UnderTargets(e.path, e0.path);
        NotNested(t0, e0.path, e.path);
      }
    }
  }

  lemma Above(p: string, i: nat)
    requires i < |p| && p[i] == '/'
    ensures Under(p, p[..i])
  {
  }

  /** install_update_shell_copy_entry. */
  method CopyEntry(fs: FileSystem, e: Entry, result: UpdateResult) returns (ok: bool)
    requires fs.Valid()
    modifies fs, result`verifyFailed, result.copied
    ensures fs.Valid() && FilesKept(old(fs.tree), fs.tree, {Place(e.path)})
    ensures result.verifyFailed >= old(result.verifyFailed)
    ensures ok && result.verifyFailed == old(result.verifyFailed) ==> Matches(fs.tree, e)
    ensures ok ==> Real(e.path) in fs.tree && Place(e.path) in fs.tree
    ensures ok ==> fs.tree[Place(e.path)] == Regular(ContentOf(fs.tree, Real(e.path)))
    ensures ok ==> result.copied.items == old(result.copied.items) + 1
    ensures CopiedTo(old(fs.tree), fs.tree, Target(e.path))
    ensures fs.healthy && CanCopy(old(fs.tree), e.path) ==> ok
    ensures fs.healthy && Copying(old(fs.tree), e) ==> result.verifyFailed == old(result.verifyFailed)
  {
    hide Matches, FileSystem.Valid, Target, FileHash, FilesKept, Placeable, ParentsPossible, Describes, CopiedTo, Real;
    ghost var t0, place := fs.tree, Place(e.path);
    var target := Target(e.path);
    TargetShape(e.path);
    KeptOutside(t0, t0, {place});
    CopiedNothing(t0, target);
    if e.path == "" || e.path[0] != '/' || |e.path| >= PATH_MAX || |target| >= PATH_MAX {
      return false;
    }
    PlaceIs(e.path);
    ok := MakeParents(fs, target);
    ghost var t1 := fs.tree;
    KeptParents(t0, t1, target);
    KeptMore(t0, t1, {}, {place});
    CopiedInto(t0, t1, t1, target);
    if !ok {
      return;
    }
    if CanCopy(t0, e.path) {
      StillClear(fs, t0, e.path);
      CreatableNow(fs, target);
    }
    ok := CopyUnverified(fs, e.path, target, result.copied);
    KeptOutside(t1, fs.tree, {place});
    KeptTrans(t0, t1, fs.tree, {place});
    CopiedInto(t0, t1, fs.tree, target);
    if !ok {
      return;
    }
    if Copying(t0, e) {
      CopyMatches(t0, fs.tree, e);
    }
    var b := TargetMatches(fs, e);
    if !b {
      result.verifyFailed := result.verifyFailed + 1;
    }
  }

  // ----- the planning pass

  /** The entries that the plan copies, in order. */
  function Plan(t: Tree, news: seq<Entry>, olds: seq<Entry>): seq<Entry> {
    if news == [] then []
    else
      var n := |news| - 1;
      Plan(t, news[..n], olds) +
      (if NeedsCopy(t, news[n], Lookup(olds, news[n].path)) then [news[n]] else [])
  }

  /** How many of the entries the old manifest does not list. */
  function NewCount(es: seq<Entry>, olds: seq<Entry>): (n: nat)
    ensures n <= |es|
  {
    if es == [] then 0
    else NewCount(es[..|es| - 1], olds) + if Lookup(olds, es[|es| - 1].path).None? then 1 else 0
  }

  lemma NewCountNone(olds: seq<Entry>)
    ensures NewCount([], olds) == 0
  {
  }

  lemma NewCountNext(es: seq<Entry>, e: Entry, olds: seq<Entry>)
    ensures NewCount(es + [e], olds) == NewCount(es, olds) + if Lookup(olds, e.path).None? then 1 else 0
  {
    hide Lookup;
    assert (es + [e])[..|es|] == es;
  }

  /** No old entry has the path. */
  predicate Unlisted(olds: seq<Entry>, path: string) {
    forall o :: o in olds ==> o.path != path
  }

  lemma {:induction false} NewCountIs(es: seq<Entry>, olds: seq<Entry>)
    ensures NewCount(es, olds) == |set i | 0 <= i < |es| && Unlisted(olds, es[i].path)|
  {
    hide Lookup;
    if es != [] {
      var n := |es| - 1;
      NewCountIs(es[..n], olds);
      var some := set i | 0 <= i < n && Unlisted(olds, es[..n][i].path);
      var all := set i | 0 <= i < |es| && Unlisted(olds, es[i].path);
      UnlistedIs(olds, es[n].path);
      assert all == if Unlisted(olds, es[n].path) then some + {n} else some;
    }
  }

  lemma UnlistedIs(olds: seq<Entry>, path: string)
    ensures Lookup(olds, path).None? <==> Unlisted(olds, path)
  {
    hide Lookup;
  }

  /** The plan copies what the old manifest does not list as it is, and what the target does not hold. */
  lemma {:induction false} PlannedAre(t: Tree, news: seq<Entry>, olds: seq<Entry>, e: Entry)
    ensures e in Plan(t, news, olds) <==>
      e in news && (Unlisted(olds, e.path) || Lookup(olds, e.path).value.size != e.size
                    || Lookup(olds, e.path).value.hash != e.hash || !Matches(t, e))
  {
    hide Matches, Lookup, NeedsCopy;
    UnlistedIs(olds, e.path);
    NeedsNothing(t, e, Lookup(olds, e.path));
    if news != [] {
      PlannedAre(t, news[..|news| - 1], olds, e);
    }
  }

  /** The first loop of install_update_shell: counts, and changes nothing. */
  method PlanPass(fs: FileSystem, news: seq<Entry>, olds: seq<Entry>, result: UpdateResult)
    returns (ok: bool, ghost planned: seq<Entry>)
    requires fs.Valid()
    modifies result`added, result`updated, result`same
    ensures ok ==> result.added == old(result.added) + NewCount(planned, olds)
    ensures ok ==> result.updated == old(result.updated) + |planned| - NewCount(planned, olds)
    ensures ok ==> result.same == old(result.same) + |news| - |planned|
    ensures ok && fs.healthy ==> planned == Plan(fs.tree, news, olds)
    ensures (forall e :: e in news ==> e.path != "" && e.path[0] == '/' && |e.path| < PATH_MAX) ==> ok
  {
    hide NeedsCopy, FileSystem.Valid, NewCount, Lookup, Matches, Plan;
    planned := [];
    PlanNone(fs.tree, olds);
    assert news[..0] == [];
    NewCountNone(olds);
    var i := 0;
    while i < |news|
      invariant i <= |news|
      invariant result.added == old(result.added) + NewCount(planned, olds)
      invariant result.updated == old(result.updated) + |planned| - NewCount(planned, olds)
      invariant result.same == old(result.same) + i - |planned|
      invariant fs.healthy ==> planned == Plan(fs.tree, news[..i], olds)
    {
      PlanNext(fs.tree, news, olds, i);
      var previous := FindEntry(olds, news[i].path);
      var copy := PlanCopy(fs, news[i], previous);
      if !copy {
        result.same := result.same + 1;
      } else {
        if previous.None? {
          result.added := result.added + 1;
        } else {
          result.updated := result.updated + 1;
        }
        if news[i].path == "" || news[i].path[0] != '/' || |news[i].path| >= PATH_MAX {
          return false, planned;
        }
        NewCountNext(planned, news[i], olds);
        planned := planned + [news[i]];
      }
      i := i + 1;
    }
    assert news[..i] == news;
    ok := true;
  }

  // ----- the copying pass

  /** What the entries of a generated manifest satisfy. */
  ghost predicate Tracked(es: seq<Entry>) { Distinct(es) && AllPlain(es) }

  ghost predicate AllPlain(es: seq<Entry>) {
    forall e :: e in es ==> UpdateIncluded(e.path) && Plain(e.path)
  }

  /** The place of a tracked entry, and that no two of them share one. */
  lemma EntryPlace(news: seq<Entry>, e: Entry)
    requires AllPlain(news) && e in news
    ensures Place(e.path) == Target(e.path) && Plain(Target(e.path)) && Target(e.path) !in FIXED_FILES
    ensures ManifestIncluded(e.path) && e.path != Target(e.path) && Real(e.path) == e.path
  {
    hide Real, Target, ManifestIncluded, Distinct;
    UpdateIsTracked(e.path);
    TrackedPlace(e.path);
  }

  lemma PlacesDiffer(news: seq<Entry>, i: nat, j: nat)
    requires Tracked(news) && i < j < |news|
    ensures Place(news[i].path) != Place(news[j].path)
  {
    hide Real, Target, ManifestIncluded;
    EntryPlace(news, news[i]);
    EntryPlace(news, news[j]);
    TargetsDiffer(news[i].path, news[j].path);
  }

  /** Copying the earlier entries does not change what the plan says of the next one. */
  lemma PlanStable(t0: Tree, t: Tree, news: seq<Entry>, i: nat, copied: seq<Entry>, previous: Option<Entry>)
    requires i < |news| && Tracked(news) && FilesKept(t0, t, Targets(copied))
    requires forall e :: e in copied ==> e in news[..i]
    ensures NeedsCopy(t0, news[i], previous) <==> NeedsCopy(t, news[i], previous)
  {
    hide Matches, FilesKept, Place, Tracked;
    forall j | 0 <= j < i
      ensures Place(news[j].path) != Place(news[i].path)
    {
      PlacesDiffer(news, j, i);
    }
    assert Place(news[i].path) !in Targets(copied);
    MatchesKept(t0, t, Targets(copied), news[i]);
  }

  /** Copying one entry leaves the entries already verified as they are. */
  lemma MatchesStay(t: Tree, t': Tree, news: seq<Entry>, i: nat)
    requires i < |news| && Tracked(news) && FilesKept(t, t', {Place(news[i].path)})
    requires forall j :: 0 <= j < i ==> Matches(t, news[j])
    ensures forall j :: 0 <= j < i ==> Matches(t', news[j])
  {
    hide Matches, FilesKept, Place, Tracked;
    forall j | 0 <= j < i
      ensures Matches(t', news[j])
    {
      PlacesDiffer(news, j, i);
      MatchesKept(t, t', {Place(news[i].path)}, news[j]);
    }
  }

  lemma KeptNext(t0: Tree, t: Tree, t': Tree, copied: seq<Entry>, e: Entry)
    requires FilesKept(t0, t, Targets(copied)) && FilesKept(t, t', {Place(e.path)})
    ensures FilesKept(t0, t', Targets(copied + [e]))
  {
    hide FilesKept, Place;
    var all := copied + [e];
    var s := Targets(all);
    assert e in all && forall x :: x in copied ==> x in all;
    KeptMore(t0, t, Targets(copied), s);
    KeptMore(t, t', {Place(e.path)}, s);
    KeptTrans(t0, t, t', s);
  }

  ghost predicate AboveSome(p: string, es: seq<Entry>) {
    exists e :: e in es && OnTheWay(p, Target(e.path))
  }

  /** t1 is t0 but for files at the entries' targets and new directories on the way to them. */
  ghost predicate CopiedAll(t0: Tree, t1: Tree, es: seq<Entry>) {
    && (forall p :: p in t0 && p !in Targets(es) ==> p in t1 && t1[p] == t0[p])
    && (forall p :: p in t1 && p !in t0 && p !in Targets(es) ==> t1[p] == Directory && AboveSome(p, es))
  }

  lemma CopiedNone(t: Tree)
    ensures CopiedAll(t, t, []) && FilesKept(t, t, Targets([]))
  {
  }

  lemma CopiedNext(t0: Tree, t: Tree, t': Tree, es: seq<Entry>, e: Entry)
    requires CopiedAll(t0, t, es) && CopiedTo(t, t', Target(e.path))
    ensures CopiedAll(t0, t', es + [e])
  {
    hide Target, Real, OnTheWay;
    var all := es + [e];
    assert e in all && forall x :: x in es ==> x in all;
    assert forall p :: p !in Targets(all) ==> p !in Targets(es) && p != Place(e.path);
    forall p | AboveSome(p, es) || OnTheWay(p, Target(e.path))
      ensures AboveSome(p, all)
    {
    }
  }

  /** All entries can be copied, and the copies will match. */
  ghost predicate AllCopying(t: Tree, news: seq<Entry>) {
    forall e :: e in news ==> Copying(t, e)
  }

  /** The rest can be copied still. */
  lemma RestCopying(t: Tree, t': Tree, news: seq<Entry>, i: nat)
    requires WellFormed(t) && i < |news| && Tracked(news) && CopiedTo(t, t', Target(news[i].path))
    requires forall j :: i <= j < |news| ==> Copying(t, news[j])
    ensures forall j :: i < j < |news| ==> Copying(t', news[j])
  {
    hide Copying, CopiedTo, Target, WellFormed, UpdateIncluded, Real;
    forall j | i < j < |news|
      ensures Copying(t', news[j])
    {
      CopyingStays(t, t', news[i], news[j]);
    }
  }

  /** The body of the second loop of install_update_shell. */
  method CopyIfNeeded(fs: FileSystem, e: Entry, olds: seq<Entry>, result: UpdateResult)
    returns (ok: bool, copied: bool)
    requires fs.Valid()
    modifies fs, result`verifyFailed, result.copied
    ensures fs.Valid() && FilesKept(old(fs.tree), fs.tree, {Place(e.path)})
    ensures CopiedTo(old(fs.tree), fs.tree, Target(e.path))
    ensures !copied ==> fs.tree == old(fs.tree)
    ensures result.verifyFailed >= old(result.verifyFailed)
    ensures ok ==> result.copied.items == old(result.copied.items) + (if copied then 1 else 0)
    ensures fs.healthy ==> (copied <==> NeedsCopy(old(fs.tree), e, Lookup(olds, e.path)))
    ensures ok && result.verifyFailed == old(result.verifyFailed) ==> Matches(fs.tree, e)
    ensures fs.healthy && Copying(old(fs.tree), e) ==> ok && result.verifyFailed == old(result.verifyFailed)
  {
    hide NeedsCopy, Matches, FileSystem.Valid, FilesKept, Target, Copying, CopiedTo, CanCopy, Real;
    ghost var t := fs.tree;
    CopyingCan(t, e);
    var previous := FindEntry(olds, e.path);
    copied := PlanCopy(fs, e, previous);
    if copied {
      ok := CopyEntry(fs, e, result);
    } else {
      NotCopied(t, e, previous);
      KeptOutside(t, t, {Place(e.path)});
      CopiedNothing(t, Target(e.path));
      ok := true;
    }
  }

  /**
   The second loop of install_update_shell: copies what the plan says, leaves the targets
   of the other entries alone, and if no check failed every new entry's target is as the
   entry describes it. `copied` ends with the entry whose copy failed, if one did.
   */
  method CopyPass(fs: FileSystem, news: seq<Entry>, olds: seq<Entry>, result: UpdateResult)
    returns (ok: bool, ghost copied: seq<Entry>)
    requires fs.Valid()
    modifies fs, result`verifyFailed, result.copied
    ensures fs.Valid() && FilesKept(old(fs.tree), fs.tree, Targets(copied))
    ensures forall e :: e in copied ==> e in news
    ensures result.verifyFailed >= old(result.verifyFailed)
    ensures ok ==> result.copied.items == old(result.copied.items) + |copied|
    ensures Tracked(news) && ok && fs.healthy ==> copied == Plan(old(fs.tree), news, olds)
    ensures Tracked(news) && ok && result.verifyFailed == old(result.verifyFailed) ==>
      forall e :: e in news ==> Matches(fs.tree, e)
    ensures ok ==> CopiedAll(old(fs.tree), fs.tree, copied)
    ensures fs.healthy && Tracked(news) && AllCopying(old(fs.tree), news) ==>
      ok && result.verifyFailed == old(result.verifyFailed)
  {
    hide NeedsCopy, Matches, FileSystem.Valid, FilesKept, Target, Tracked, Targets, Copying, CopiedTo, CopiedAll;
    hide CanCopy, Real, Place, Plan, UpdateIncluded, Lookup, WellFormed;
    ghost var t0, tracked := fs.tree, Tracked(news);
    ghost var live := fs.healthy && tracked && AllCopying(t0, news);
    copied := [];
    var i := 0;
    CopiedNone(t0);
    PlanNone(t0, olds);
    assert news[..0] == [];
    while i < |news|
      invariant i <= |news| && fs.Valid() && FilesKept(t0, fs.tree, Targets(copied))
      invariant CopiedAll(t0, fs.tree, copied) && forall e :: e in copied ==> e in news[..i]
      invariant result.verifyFailed >= old(result.verifyFailed)
      invariant result.copied.items == old(result.copied.items) + |copied|
      invariant tracked && fs.healthy ==> copied == Plan(t0, news[..i], olds)
      invariant tracked && result.verifyFailed == old(result.verifyFailed) ==>
        forall j :: 0 <= j < i ==> Matches(fs.tree, news[j])
      invariant live ==> result.verifyFailed == old(result.verifyFailed)
      invariant live ==> forall j :: i <= j < |news| ==> Copying(fs.tree, news[j])
    {
      ghost var t := fs.tree;
      ValidTree(fs);
      if tracked {
        PlanStable(t0, t, news, i, copied, Lookup(olds, news[i].path));
      }
      var more;
      ok, more := CopyIfNeeded(fs, news[i], olds, result);
      KeptNext(t0, t, fs.tree, copied, news[i]);
      CopiedNext(t0, t, fs.tree, copied, news[i]);
      PlanNext(t0, news, olds, i);
      FromLonger(copied, news, i);
      copied := if more then copied + [news[i]] else copied;
      if !ok {
        return;
      }
      if tracked && result.verifyFailed == old(result.verifyFailed) {
        MatchesStay(t, fs.tree, news, i);
      }
      if live {
        RestCopying(t, fs.tree, news, i);
      }
      i := i + 1;
    }
    assert news[..i] == news;
    ok := true;
  }

  lemma PlanNone(t: Tree, olds: seq<Entry>)
    ensures Plan(t, [], olds) == []
  {
  }

  lemma FromLonger(copied: seq<Entry>, news: seq<Entry>, i: nat)
    requires i < |news| && forall e :: e in copied ==> e in news[..i]
    ensures forall e :: e in copied + [news[i]] ==> e in news[..i + 1]
    ensures forall e :: e in copied ==> e in news[..i + 1]
    ensures forall e :: e in copied + [news[i]] ==> e in news
  {
    assert news[..i + 1] == news[..i] + [news[i]];
  }

  /** Making the directories has left the target's place clear. */
  lemma StillClear(fs: FileSystem, t0: Tree, p: string)
    requires fs.Valid() && CanCopy(t0, p) && AddedParents(t0, fs.tree, Target(p))
    ensures !IsDir(fs.tree, Place(p))
  {
    hide Real, OnTheWay, Placeable, ParentsPossible;
  }

  lemma PlanNext(t: Tree, news: seq<Entry>, olds: seq<Entry>, i: nat)
    requires i < |news|
    ensures Plan(t, news[..i + 1], olds) ==
      if NeedsCopy(t, news[i], Lookup(olds, news[i].path)) then Plan(t, news[..i], olds) + [news[i]]
      else Plan(t, news[..i], olds)
  {
    hide NeedsCopy;
    assert news[..i + 1][..i] == news[..i];
  }

  lemma CopyingCan(t: Tree, e: Entry)
    ensures Copying(t, e) ==> CanCopy(t, e.path)
  {
  }

  lemma NotCopied(t: Tree, e: Entry, previous: Option<Entry>)
    requires !NeedsCopy(t, e, previous)
    ensures Matches(t, e)
  {
  }
}
