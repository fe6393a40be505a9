/** The file explorer's case-insensitive name order and its in-place insertion sort of entries. */
module EntrySort {
  const DIRECTORY: nat := 2

  datatype Entry = Entry(name: string, path: string, kind: nat, size: nat)

  // ----- names

  /** fx_upper_char. */
  function Upper(c: char): char { if 'a' <= c <= 'z' then c - 32 as char else c }

  /** Characters compare as C's signed bytes. */
  function Weight(c: char): int {
    var u := Upper(c) as int % 256;
    if u < 128 then u else u - 256
  }

  function Compare(a: string, b: string): (r: int)
    ensures -1 <= r <= 1
  {
    if a == "" && b == "" then 0
    else if a == "" then -1
    else if b == "" then 1
    else if Weight(a[0]) < Weight(b[0]) then -1
    else if Weight(a[0]) > Weight(b[0]) then 1
    else Compare(a[1..], b[1..])
  }

  /** fx_name_compare. */
  method CompareNames(a: string, b: string) returns (r: int)
    ensures r == Compare(a, b)
  {
    var i := 0;
    while i < |a| && i < |b|
      invariant i <= |a| && i <= |b|
      invariant Compare(a, b) == Compare(a[i..], b[i..])
    {
      var ac := Weight(a[i]);
      var bc := Weight(b[i]);
      if ac < bc {
        return -1;
      }
      if ac > bc {
        return 1;
      }
      assert a[i..][1..] == a[i + 1..] && b[i..][1..] == b[i + 1..];
      i := i + 1;
    }
    if i == |a| && i == |b| {
      return 0;
    }
    return if i == |a| then -1 else 1;
  }

  lemma {:induction false} CompareFlips(a: string, b: string)
    ensures Compare(a, b) == -Compare(b, a)
  {
    if a != "" && b != "" && Weight(a[0]) == Weight(b[0]) {
      CompareFlips(a[1..], b[1..]);
    }
  }

  lemma {:induction false} CompareTransitive(a: string, b: string, c: string)
    requires Compare(a, b) <= 0 && Compare(b, c) <= 0
    ensures Compare(a, c) <= 0
    ensures Compare(a, c) == 0 ==> Compare(a, b) == 0 && Compare(b, c) == 0
  {
    if a != "" && b != "" && c != "" && Weight(a[0]) == Weight(b[0]) == Weight(c[0]) {
      CompareTransitive(a[1..], b[1..], c[1..]);
    }
  }

  /** Names tie exactly when they have the same length and the same letters up to case. */
  lemma {:induction false} CompareTies(a: string, b: string)
    ensures Compare(a, b) == 0 <==> |a| == |b| && forall i :: 0 <= i < |a| ==> Weight(a[i]) == Weight(b[i])
  {
    if a != "" && b != "" {
      CompareTies(a[1..], b[1..]);
      if Compare(a, b) == 0 {
        forall i | 0 <= i < |a|
          ensures Weight(a[i]) == Weight(b[i])
        {
          if i > 0 {
            assert a[i] == a[1..][i - 1] && b[i] == b[1..][i - 1];
          }
        }
      }
    }
  }

  /** Small ASCII letters become capitals, everything else stays. */
  lemma UpperIs(c: char, k: nat)
    requires k < 26
    ensures c == "abcdefghijklmnopqrstuvwxyz"[k] ==> Upper(c) == "ABCDEFGHIJKLMNOPQRSTUVWXYZ"[k]
    ensures c < 'a' || c > 'z' ==> Upper(c) == c
  {
    assert "abcdefghijklmnopqrstuvwxyz"[k] == 'a' + k as char && "ABCDEFGHIJKLMNOPQRSTUVWXYZ"[k] == 'A' + k as char;
  }

  function Code(c: char): int { Upper(c) as int % 256 }

  /** Which of two characters comes first: bytes from 128 on are before ASCII, otherwise the smaller capital. */
  predicate Before(c: char, d: char) {
    if Code(c) >= 128 then Code(d) < 128 || Code(c) < Code(d) else Code(d) < 128 && Code(c) < Code(d)
  }

  /** The names agree up to k, where a ends or has the character that comes first. */
  predicate FirstAt(a: string, b: string, k: nat) {
    && k <= |a| && k < |b| && (forall i :: 0 <= i < k ==> Code(a[i]) == Code(b[i]))
    && (k == |a| || Before(a[k], b[k]))
  }

  /** A name comes first by the first place at which the two differ. */
  lemma {:induction false} CompareIs(a: string, b: string)
    ensures Compare(a, b) == -1 <==> exists k :: FirstAt(a, b, k)
  {
    hide Upper;
    if a == "" || b == "" || Code(a[0]) != Code(b[0]) {
      assert b != "" && (a == "" || Before(a[0], b[0])) ==> FirstAt(a, b, 0);
    } else {
      CompareIs(a[1..], b[1..]);
      if k: nat :| FirstAt(a[1..], b[1..], k) {
        assert forall i :: 0 < i < k + 1 ==> a[i] == a[1..][i - 1] && b[i] == b[1..][i - 1];
        assert FirstAt(a, b, k + 1);
      }
      if k: nat :| FirstAt(a, b, k) {
        assert FirstAt(a[1..], b[1..], k - 1);
      }
    }
  }

  // ----- the order the sort uses

  /** A new entry is moved in front of `prev`. */
  predicate Moves(prev: Entry, key: Entry) {
    (prev.kind != DIRECTORY && key.kind == DIRECTORY)
    || (prev.kind == key.kind && Compare(prev.name, key.name) > 0)
  }

  function Insert(s: seq<Entry>, key: Entry): seq<Entry>
    decreases |s|
  {
    if s != [] && Moves(s[|s| - 1], key) then Insert(s[..|s| - 1], key) + [s[|s| - 1]] else s + [key]
  }

  function Inserted(s: seq<Entry>): seq<Entry>
    decreases |s|
  {
    if s == [] then [] else Insert(Inserted(s[..|s| - 1]), s[|s| - 1])
  }

  predicate DirectoriesFirst(s: seq<Entry>) {
    forall i, j :: 0 <= i < j < |s| && s[j].kind == DIRECTORY ==> s[i].kind == DIRECTORY
  }

  predicate NamesOrdered(s: seq<Entry>) {
    forall i, j :: 0 <= i < j < |s| && s[i].kind == s[j].kind ==> Compare(s[i].name, s[j].name) <= 0
  }

  predicate Ties(a: Entry, b: Entry) { a.kind == b.kind && Compare(a.name, b.name) == 0 }

  /** The entries that tie with e, in order. */
  function Tied(s: seq<Entry>, e: Entry): seq<Entry>
    decreases |s|
  {
    if s == [] then []
    else Tied(s[..|s| - 1], e) + if Ties(s[|s| - 1], e) then [s[|s| - 1]] else []
  }

  lemma TiedSnoc(s: seq<Entry>, x: Entry, e: Entry)
    ensures Tied(s + [x], e) == Tied(s, e) + if Ties(x, e) then [x] else []
  {
    assert (s + [x])[..|s|] == s;
  }

  lemma {:induction false} InsertKeeps(s: seq<Entry>, key: Entry)
    ensures multiset(Insert(s, key)) == multiset(s) + multiset{key}
    decreases |s|
  {
    if s != [] && Moves(s[|s| - 1], key) {
      InsertKeeps(s[..|s| - 1], key);
      assert s == s[..|s| - 1] + [s[|s| - 1]];
    }
  }

  lemma {:induction false} InsertStable(s: seq<Entry>, key: Entry, e: Entry)
    ensures Tied(Insert(s, key), e) == Tied(s + [key], e)
    decreases |s|
  {
    hide Insert, Tied, Ties, Moves;
    InsertCases(s, key);
    if s != [] && Moves(s[|s| - 1], key) {
      var front, last := s[..|s| - 1], s[|s| - 1];
      InsertStable(front, key, e);
      assert s == front + [last];
      NoTieAcross(last, key, e);
      TiedSnoc(Insert(front, key), last, e);
      TiedSnoc(front, key, e);
      TiedSnoc(front, last, e);
      TiedSnoc(s, key, e);
    }
  }

  lemma InsertCases(s: seq<Entry>, key: Entry)
    ensures Insert(s, key) == if s != [] && Moves(s[|s| - 1], key) then Insert(s[..|s| - 1], key) + [s[|s| - 1]]
                              else s + [key]
  {
    hide Moves;
  }

  lemma NoTieAcross(last: Entry, key: Entry, e: Entry)
    requires Moves(last, key)
    ensures !(Ties(last, e) && Ties(key, e))
  {
    if Ties(last, e) && Ties(key, e) {
      CompareFlips(key.name, e.name);
      CompareTransitive(last.name, e.name, key.name);
    }
  }

  lemma {:induction false} InsertDirectoriesFirst(s: seq<Entry>, key: Entry)
    requires DirectoriesFirst(s)
    ensures DirectoriesFirst(Insert(s, key))
    decreases |s|
  {
    if s != [] && Moves(s[|s| - 1], key) {
      var front, last := s[..|s| - 1], s[|s| - 1];
      InsertDirectoriesFirst(front, key);
      if last.kind == DIRECTORY {
        InsertAll(front, key);
        forall i | 0 <= i <= |front|
          ensures Insert(front, key)[i].kind == DIRECTORY
        {
          assert Insert(front, key)[i] in front || Insert(front, key)[i] == key;
        }
      }
    } else if key.kind == DIRECTORY && s != [] {
      assert s[|s| - 1].kind == DIRECTORY;
    }
  }

  lemma {:induction false} InsertAll(s: seq<Entry>, key: Entry)
    ensures |Insert(s, key)| == |s| + 1
    ensures forall x :: x in Insert(s, key) <==> x in s || x == key
    decreases |s|
  {
    if s != [] && Moves(s[|s| - 1], key) {
      InsertAll(s[..|s| - 1], key);
      assert s == s[..|s| - 1] + [s[|s| - 1]];
    }
  }

  // ----- when the names come out in order

  /** The kinds of the entries that are not directories, in order. */
  function OtherKinds(s: seq<Entry>): seq<nat>
    decreases |s|
  {
    if s == [] then []
    else OtherKinds(s[..|s| - 1]) + if s[|s| - 1].kind == DIRECTORY then [] else [s[|s| - 1].kind]
  }

  /** A kind may follow these kinds: it is new, or it is the one just before. */
  predicate MayFollow(kinds: seq<nat>, kind: nat) {
    kind in kinds ==> kinds[|kinds| - 1] == kind
  }

  predicate Blocks(kinds: seq<nat>)
    decreases |kinds|
  {
    kinds == [] || (Blocks(kinds[..|kinds| - 1]) && MayFollow(kinds[..|kinds| - 1], kinds[|kinds| - 1]))
  }

  /** Directories aside, the entries of each kind come as one block. */
  predicate Grouped(s: seq<Entry>) { Blocks(OtherKinds(s)) }

  lemma BlocksSnoc(kinds: seq<nat>, k: nat)
    ensures Blocks(kinds + [k]) <==> Blocks(kinds) && MayFollow(kinds, k)
  {
    assert (kinds + [k])[..|kinds|] == kinds;
  }

  lemma OtherKindsSnoc(s: seq<Entry>, x: Entry)
    ensures OtherKinds(s + [x]) == if x.kind == DIRECTORY then OtherKinds(s) else OtherKinds(s) + [x.kind]
  {
    assert (s + [x])[..|s|] == s;
  }

  lemma {:induction false} InsertOtherKinds(s: seq<Entry>, key: Entry)
    ensures OtherKinds(Insert(s, key)) == OtherKinds(s + [key])
    decreases |s|
  {
    if s != [] && Moves(s[|s| - 1], key) {
      var front, last := s[..|s| - 1], s[|s| - 1];
      InsertOtherKinds(front, key);
      assert s == front + [last];
      OtherKindsSnoc(Insert(front, key), last);
      OtherKindsSnoc(front, key);
      OtherKindsSnoc(front, last);
      OtherKindsSnoc(s, key);
    }
  }

  /** The sort never moves one kind of non-directory past another. */
  lemma {:induction false} InsertedOtherKinds(s: seq<Entry>)
    ensures OtherKinds(Inserted(s)) == OtherKinds(s)
    decreases |s|
  {
    if s != [] {
      var front, last := s[..|s| - 1], s[|s| - 1];
      InsertedOtherKinds(front);
      InsertOtherKinds(Inserted(front), last);
      OtherKindsSnoc(Inserted(front), last);
    }
  }

  lemma {:induction false} KindPresent(s: seq<Entry>, i: nat)
    requires i < |s| && s[i].kind != DIRECTORY
    ensures s[i].kind in OtherKinds(s)
    decreases |s|
  {
    if i < |s| - 1 {
      KindPresent(s[..|s| - 1], i);
    }
  }

  lemma {:induction false} LastKind(s: seq<Entry>)
    requires DirectoriesFirst(s) && OtherKinds(s) != []
    ensures s != [] && s[|s| - 1].kind == OtherKinds(s)[|OtherKinds(s)| - 1] && s[|s| - 1].kind != DIRECTORY
  {
    if s[|s| - 1].kind == DIRECTORY {
      NoOthers(s);
    }
  }

  lemma {:induction false} NoOthers(s: seq<Entry>)
    requires forall i :: 0 <= i < |s| ==> s[i].kind == DIRECTORY
    ensures OtherKinds(s) == []
    decreases |s|
  {
    if s != [] {
      NoOthers(s[..|s| - 1]);
    }
  }

  /** When the new entry stays last, every entry of its kind is already in front of it. */
  lemma {:induction false} BehindLast(s: seq<Entry>, key: Entry, i: nat)
    requires NamesOrdered(s) && DirectoriesFirst(s) && Grouped(s + [key])
    requires i < |s| && s[i].kind == key.kind && !Moves(s[|s| - 1], key)
    ensures Compare(s[i].name, key.name) <= 0
  {
    var last := s[|s| - 1];
    if key.kind != DIRECTORY {
      KindPresent(s, i);
      OtherKindsSnoc(s, key);
      BlocksSnoc(OtherKinds(s), key.kind);
      LastKind(s);
    }
    if i < |s| - 1 {
      CompareTransitive(s[i].name, last.name, key.name);
    }
  }

  lemma {:induction false} InsertOrdered(s: seq<Entry>, key: Entry)
    requires NamesOrdered(s) && DirectoriesFirst(s) && Grouped(s + [key])
    ensures NamesOrdered(Insert(s, key))
    decreases |s|
  {
    hide Insert, Compare, OtherKinds, Blocks, DirectoriesFirst;
    InsertCases(s, key);
    if s != [] && Moves(s[|s| - 1], key) {
      var front, last := s[..|s| - 1], s[|s| - 1];
      GroupedFront(s, key);
      FrontFirst(s);
      InsertOrdered(front, key);
      InsertAll(front, key);
      CompareFlips(last.name, key.name);
      forall i | 0 <= i <= |front| && Insert(front, key)[i].kind == last.kind
        ensures Compare(Insert(front, key)[i].name, last.name) <= 0
      {
        var x := Insert(front, key)[i];
        assert x in front || x == key;
        if x in front {
          var j :| 0 <= j < |front| && front[j] == x;
          assert s[j] == x;
        }
      }
    } else {
      forall i | 0 <= i < |s| && s[i].kind == key.kind
        ensures Compare(s[i].name, key.name) <= 0
      {
        BehindLast(s, key, i);
      }
    }
  }

  lemma FrontFirst(s: seq<Entry>)
    requires s != [] && DirectoriesFirst(s)
    ensures DirectoriesFirst(s[..|s| - 1])
  {
  }

  lemma {:induction false} GroupedFront(s: seq<Entry>, key: Entry)
    requires Grouped(s + [key]) && s != [] && Moves(s[|s| - 1], key)
    ensures Grouped(s[..|s| - 1] + [key])
  {
    hide Compare;
    var front, last := s[..|s| - 1], s[|s| - 1];
    assert s == front + [last];
    OtherKindsSnoc(s, key);
    OtherKindsSnoc(front, last);
    OtherKindsSnoc(front, key);
    if key.kind == DIRECTORY {
      BlocksSnoc(OtherKinds(front), last.kind);
    } else {
      BlocksSnoc(OtherKinds(s), key.kind);
    }
  }

  lemma {:induction false} InsertedOrdered(s: seq<Entry>)
    requires Grouped(s)
    ensures NamesOrdered(Inserted(s)) && DirectoriesFirst(Inserted(s))
    decreases |s|
  {
    if s != [] {
      var front, last := s[..|s| - 1], s[|s| - 1];
      assert s == front + [last];
      OtherKindsSnoc(front, last);
      if last.kind != DIRECTORY {
        BlocksSnoc(OtherKinds(front), last.kind);
      }
      InsertedOrdered(front);
      InsertedOtherKinds(front);
      OtherKindsSnoc(Inserted(front), last);
      InsertOrdered(Inserted(front), last);
      InsertDirectoriesFirst(Inserted(front), last);
    }
  }

  /** Two listings with the same kinds and any names. */
  predicate SameKinds(s: seq<Entry>, t: seq<Entry>) {
    |s| == |t| && forall i :: 0 <= i < |s| ==> s[i].kind == t[i].kind
  }

  lemma {:induction false} SameOtherKinds(s: seq<Entry>, t: seq<Entry>)
    requires SameKinds(s, t)
    ensures OtherKinds(s) == OtherKinds(t)
    decreases |s|
  {
    if s != [] {
      SameOtherKinds(s[..|s| - 1], t[..|t| - 1]);
    }
  }

  function Renamed(s: seq<Entry>, name: string): (r: seq<Entry>)
    ensures SameKinds(s, r) && forall x :: x in r ==> x.name == name
  {
    seq(|s|, i requires 0 <= i < |s| => s[i].(name := name))
  }

  lemma {:induction false} InsertedSame(s: seq<Entry>)
    ensures |Inserted(s)| == |s|
    ensures forall x :: x in Inserted(s) <==> x in s
    ensures DirectoriesFirst(Inserted(s))
    decreases |s|
  {
    hide Insert, DirectoriesFirst;
    if s == [] {
      NoneFirst();
    } else {
      var front, last := s[..|s| - 1], s[|s| - 1];
      InsertedSame(front);
      InsertAll(Inserted(front), last);
      InsertDirectoriesFirst(Inserted(front), last);
      assert s == front + [last];
    }
  }

  lemma NoneFirst()
    ensures DirectoriesFirst([])
  {
  }

  lemma {:induction false} DisorderStays(s: seq<Entry>, key: Entry)
    requires !NamesOrdered(s)
    ensures !NamesOrdered(Insert(s, key))
    decreases |s|
  {
    hide Moves, Compare;
    var i, j :| 0 <= i < j < |s| && s[i].kind == s[j].kind && Compare(s[i].name, s[j].name) > 0;
    var r := Insert(s, key);
    if s != [] && Moves(s[|s| - 1], key) {
      var front, last := s[..|s| - 1], s[|s| - 1];
      InsertAll(front, key);
      if j < |front| {
        assert front[i] == s[i] && front[j] == s[j];
        DisorderStays(front, key);
        var p, q :| 0 <= p < q < |r| - 1
          && Insert(front, key)[p].kind == Insert(front, key)[q].kind
          && Compare(Insert(front, key)[p].name, Insert(front, key)[q].name) > 0;
        assert r[p] == Insert(front, key)[p] && r[q] == Insert(front, key)[q];
      } else {
        assert s[i] in front;
        var p :| 0 <= p < |r| - 1 && Insert(front, key)[p] == s[i];
        assert r[p] == s[i] && r[|r| - 1] == last;
      }
    } else {
      assert r[i] == s[i] && r[j] == s[j];
    }
  }

  /** Kinds that come in pieces can be named so that one of them comes out in the wrong order. */
  lemma {:induction false} UngroupedFails(s: seq<Entry>) returns (t: seq<Entry>)
    requires !Grouped(s)
    ensures SameKinds(s, t) && !NamesOrdered(Inserted(t))
    decreases |s|
  {
    var front, last := s[..|s| - 1], s[|s| - 1];
    assert s == front + [last];
    OtherKindsSnoc(front, last);
    if !Grouped(front) {
      var u := UngroupedFails(front);
      t := u + [last];
      assert t[..|u|] == u;
      DisorderStays(Inserted(u), last);
    } else {
      BlocksSnoc(OtherKinds(front), last.kind);
      var u := Renamed(front, "b");
      SameOtherKinds(front, u);
      var key := last.(name := "a");
      t := u + [key];
      assert t[..|u|] == u;
      SplitFails(u, key);
    }
  }

  lemma {:induction false} SplitFails(u: seq<Entry>, key: Entry)
    requires key.kind != DIRECTORY && key.name == "a"
    requires forall x :: x in u ==> x.name == "b"
    requires !MayFollow(OtherKinds(u), key.kind)
    ensures !NamesOrdered(Insert(Inserted(u), key))
  {
    hide Insert, Inserted, OtherKinds, DirectoriesFirst, Compare;
    var s := Inserted(u);
    InsertedSame(u);
    InsertedOtherKinds(u);
    LastKind(s);
    StaysLast(s, key);
    var i := KindIndex(s, key.kind);
    assert s[i] in u;
    LettersDiffer();
    assert (s + [key])[i] == s[i] && (s + [key])[|s|] == key;
  }

  lemma StaysLast(s: seq<Entry>, key: Entry)
    requires s != [] && !Moves(s[|s| - 1], key)
    ensures Insert(s, key) == s + [key]
  {
  }

  lemma LettersDiffer()
    ensures Compare("b", "a") > 0
  {
  }

  lemma {:induction false} KindIndex(s: seq<Entry>, kind: nat) returns (i: nat)
    requires kind in OtherKinds(s)
    ensures i < |s| && s[i].kind == kind
    decreases |s|
  {
    if s[|s| - 1].kind == kind {
      i := |s| - 1;
    } else {
      i := KindIndex(s[..|s| - 1], kind);
    }
  }

  /** Exactly the grouped listings, mixed files and directories among them, sort by name whatever the names are. */
  lemma {:induction false} OrderedForAllNames(s: seq<Entry>)
    ensures Grouped(s) <==> forall t :: SameKinds(s, t) ==> NamesOrdered(Inserted(t))
  {
    if Grouped(s) {
      forall t | SameKinds(s, t)
        ensures NamesOrdered(Inserted(t))
      {
        SameOtherKinds(s, t);
        InsertedOrdered(t);
      }
    } else {
      var t := UngroupedFails(s);
      assert SameKinds(s, t);
    }
  }

  /** Files and directories only, as a readable listing has, are grouped. */
  lemma {:induction false} FilesAreGrouped(s: seq<Entry>, kind: nat)
    requires forall x :: x in s ==> x.kind == DIRECTORY || x.kind == kind
    ensures Grouped(s) && forall k :: k in OtherKinds(s) ==> k == kind
    decreases |s|
  {
    hide Blocks, OtherKinds;
    if s == [] {
      NoOthers(s);
      NoBlocks();
    } else {
      var front, last := s[..|s| - 1], s[|s| - 1];
      assert s == front + [last];
      assert forall x :: x in front ==> x in s;
      FilesAreGrouped(front, kind);
      OtherKindsSnoc(front, last);
      var kinds := OtherKinds(front);
      if last.kind != DIRECTORY {
        assert last in s;
        assert kinds != [] ==> kinds[|kinds| - 1] in kinds;
        BlocksSnoc(kinds, last.kind);
        assert OtherKinds(s) == kinds + [last.kind];
      }
    }
  }

  lemma NoBlocks()
    ensures Blocks([])
  {
  }

  /** A permutation that keeps ties in order and puts directories first, whatever the kinds. */
  lemma {:induction false} InsertedIsStable(s: seq<Entry>, e: Entry)
    ensures multiset(Inserted(s)) == multiset(s) && Tied(Inserted(s), e) == Tied(s, e)
    ensures DirectoriesFirst(Inserted(s))
    decreases |s|
  {
    InsertedSame(s);
    if s != [] {
      var front, last := s[..|s| - 1], s[|s| - 1];
      assert s == front + [last];
      InsertedIsStable(front, e);
      InsertKeeps(Inserted(front), last);
      InsertStable(Inserted(front), last, e);
      TiedSnoc(Inserted(front), last, e);
    }
  }

  // ----- in place

  /** The test in the inner loop of fx_sort_entries. */
  method MustMove(prev: Entry, key: Entry) returns (move: bool)
    ensures move == Moves(prev, key)
  {
    move := false;
    if prev.kind != DIRECTORY && key.kind == DIRECTORY {
      move := true;
    } else if prev.kind == key.kind {
      var c := CompareNames(prev.name, key.name);
      move := c > 0;
    }
  }

  /** The inner loop of fx_sort_entries: entry i is put into its place among the first i. */
  method Place(entries: array<Entry>, i: nat)
    requires i < entries.Length
    modifies entries
    ensures entries[..i + 1] == Insert(old(entries[..i]), old(entries[i]))
    ensures entries[i + 1..] == old(entries[i + 1..])
  {
    hide Insert, Moves;
    ghost var sorted := entries[..i];
    ghost var rest := entries[i + 1..];
    var key := entries[i];
    var j := i;
    assert entries[..] == Hollow(sorted, key, i, rest);
    assert sorted[..i] == sorted && Insert(sorted, key) + [] == Insert(sorted, key);
    while j > 0
      invariant 0 <= j <= i
      invariant entries[..] == Hollow(sorted, entries[j], j, rest)
      invariant Insert(sorted, key) == Insert(sorted[..j], key) + sorted[j..]
    {
      InsertStep(sorted, j, key);
      HollowStep(sorted, entries[j], j, rest);
      var move := MustMove(entries[j - 1], key);
      if !move {
        break;
      }
      ghost var before := entries[..];
      entries[j] := entries[j - 1];
      assert entries[..] == before[j := sorted[j - 1]];
      j := j - 1;
    }
    if j == 0 {
      NothingBefore(key);
    }
    ghost var before := entries[..];
    HollowEnd(sorted, before[j], key, j, rest);
    entries[j] := key;
    assert entries[..] == before[j := key];
  }

  /** The sorted entries with one more place, holding x, opened up at j. */
  function Hollow(sorted: seq<Entry>, x: Entry, j: nat, rest: seq<Entry>): seq<Entry>
    requires j <= |sorted|
  {
    sorted[..j] + [x] + sorted[j..] + rest
  }

  lemma HollowStep(sorted: seq<Entry>, x: Entry, j: nat, rest: seq<Entry>)
    requires 0 < j <= |sorted|
    ensures Hollow(sorted, x, j, rest)[j - 1] == sorted[j - 1]
    ensures Hollow(sorted, x, j, rest)[j := sorted[j - 1]] == Hollow(sorted, sorted[j - 1], j - 1, rest)
  {
  }

  lemma HollowEnd(sorted: seq<Entry>, x: Entry, key: Entry, j: nat, rest: seq<Entry>)
    requires j <= |sorted|
    ensures Hollow(sorted, x, j, rest)[j := key] == Hollow(sorted, key, j, rest)
    ensures Hollow(sorted, key, j, rest)[..|sorted| + 1] == sorted[..j] + [key] + sorted[j..]
    ensures Hollow(sorted, key, j, rest)[|sorted| + 1..] == rest
  {
  }

  lemma NothingBefore(key: Entry)
    ensures Insert([], key) == [key]
  {
  }

  lemma InsertStep(s: seq<Entry>, j: nat, key: Entry)
    requires 0 < j <= |s|
    ensures Moves(s[j - 1], key) ==>
      Insert(s[..j], key) + s[j..] == Insert(s[..j - 1], key) + s[j - 1..]
    ensures !Moves(s[j - 1], key) ==> Insert(s[..j], key) == s[..j] + [key]
  {
    assert s[..j][..j - 1] == s[..j - 1];
    assert s[j - 1..] == [s[j - 1]] + s[j..];
    hide Moves;
  }

  /** fx_sort_entries on the first `count` entries. */
  method Sort(entries: array<Entry>, count: nat)
    requires count <= entries.Length
    modifies entries
    ensures entries[..count] == Inserted(old(entries[..count]))
    ensures entries[count..] == old(entries[count..])
  {
    hide Insert;
    ghost var before := entries[..];
    FirstInserted(before);
    var i := 1;
    while i < count
      invariant 1 <= i
      invariant i <= count || count == 0
      invariant count > 0 ==> entries[..i] == Inserted(before[..i]) && entries[i..] == before[i..]
      invariant count == 0 ==> entries[..] == before
    {
      InsertedSnoc(before, i);
      Place(entries, i);
      i := i + 1;
    }
  }

  lemma FirstInserted(s: seq<Entry>)
    ensures Inserted([]) == [] && (s != [] ==> Inserted(s[..1]) == s[..1])
  {
    if s != [] {
      assert s[..1][..0] == [] && Insert([], s[0]) == [s[0]];
    }
  }

  lemma InsertedSnoc(s: seq<Entry>, i: nat)
    requires i < |s|
    ensures Inserted(s[..i + 1]) == Insert(Inserted(s[..i]), s[i])
  {
    assert s[..i + 1][..i] == s[..i];
  }
}
