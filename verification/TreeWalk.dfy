/**
 Facts about any recursive walk of the tree: which regular files lie below a directory,
 and how its children divide them.
 */
module TreeWalk {
  import opened Paths
  import opened FileSystem

  /** How deep a walk goes. */
  const DEPTH_MAX: nat := 32

  lemma {:induction false} AncestorIsDir(t: Tree, p: string, a: string)
    requires WellFormed(t) && p in t && Below(p, a) && p != a && DirPath(a)
    ensures IsDir(t, a)
    decreases |p|
  {
    assert WellPlaced(t, p);
    if a != "/" {
      ParentBelow(p, a);
      if Parent(p) != a {
        ShorterParent(p);
        AncestorIsDir(t, Parent(p), a);
      }
    }
  }

  /** The child of dir through which a path below dir is reached. */
  lemma {:induction false} ChildTowards(t: Tree, p: string, dir: string) returns (name: string)
    requires WellFormed(t) && p in t && Below(p, dir) && p != dir && DirPath(dir)
    ensures name in ChildNames(t, dir) && ValidName(name) && Below(p, Join(dir, name))
    decreases |p|
  {
    assert WellPlaced(t, p);
    if Parent(p) == dir {
      name := Base(p);
    } else {
      if dir != "/" {
        ParentBelow(p, dir);
      }
      ShorterParent(p);
      name := ChildTowards(t, Parent(p), dir);
      JoinParts(dir, name);
      JoinParts(Parent(p), Base(p));
      BelowTrans(p, Parent(p), Join(dir, name));
    }
  }

  lemma ChildrenDisjoint(p: string, dir: string, a: string, b: string)
    requires DirPath(dir) && ValidName(a) && ValidName(b)
    requires Below(p, Join(dir, a)) && Below(p, Join(dir, b))
    ensures a == b
  {
    JoinParts(dir, a);
    JoinParts(dir, b);
    if |a| <= |b| {
      BelowLinear(p, Join(dir, a), Join(dir, b));
      SameName(dir, a, b);
    } else {
      BelowLinear(p, Join(dir, b), Join(dir, a));
      SameName(dir, b, a);
    }
  }

  lemma SameName(dir: string, a: string, b: string)
    requires DirPath(dir) && ValidName(a) && ValidName(b) && Under(Join(dir, b), Join(dir, a))
    ensures a == b
  {
    var x, y := Join(dir, a), Join(dir, b);
    var k := |x| - |a|;
    assert a == x[k..] && b == y[k..];
  }

  /** The regular files at or below src that a walk is interested in. */
  ghost function FilesBelow(t: Tree, src: string, keep: string -> bool): set<string> {
    set p | p in t && t[p].Regular? && Below(p, src) && keep(p)
  }

  /** The part of FilesBelow that the first i children lead to. */
  ghost function Covered(t: Tree, src: string, names: seq<string>, i: nat, keep: string -> bool): set<string>
    requires i <= |names|
  {
    set p | p in FilesBelow(t, src, keep) && exists k :: 0 <= k < i && Below(p, Join(src, names[k]))
  }

  lemma CoverNext(t: Tree, src: string, names: seq<string>, i: nat, keep: string -> bool)
    requires WellFormed(t) && DirPath(src) && i < |names|
    requires forall n :: n in names ==> ValidName(n)
    requires forall j, k :: 0 <= j < k < |names| ==> names[j] != names[k]
    ensures Covered(t, src, names, i, keep) !! FilesBelow(t, Join(src, names[i]), keep)
    ensures Covered(t, src, names, i + 1, keep) ==
      Covered(t, src, names, i, keep) + FilesBelow(t, Join(src, names[i]), keep)
  {
    hide WellFormed, Join, Below, ValidName, DirPath;
    var child := Join(src, names[i]);
    forall p | p in FilesBelow(t, child, keep)
      ensures p !in Covered(t, src, names, i, keep) && p in FilesBelow(t, src, keep)
    {
      JoinParts(src, names[i]);
      BelowTrans(p, child, src);
      forall k | 0 <= k < i
        ensures !Below(p, Join(src, names[k]))
      {
        if Below(p, Join(src, names[k])) {
          ChildrenDisjoint(p, src, names[k], names[i]);
        }
      }
    }
    forall p | p in Covered(t, src, names, i + 1, keep) && p !in Covered(t, src, names, i, keep)
      ensures p in FilesBelow(t, child, keep)
    {
      var k :| 0 <= k < i + 1 && Below(p, Join(src, names[k]));
    }
  }

  lemma CoverAll(t: Tree, src: string, names: seq<string>, keep: string -> bool)
    requires WellFormed(t) && DirPath(src) && IsDir(t, src)
    requires forall n :: n in ChildNames(t, src) ==> n in names
    ensures Covered(t, src, names, |names|, keep) == FilesBelow(t, src, keep)
  {
    forall p | p in FilesBelow(t, src, keep)
      ensures p in Covered(t, src, names, |names|, keep)
    {
      var n := ChildTowards(t, p, src);
      var k :| 0 <= k < |names| && names[k] == n;
    }
  }

  lemma CoverNone(t: Tree, src: string, names: seq<string>, keep: string -> bool)
    ensures Covered(t, src, names, 0, keep) == {}
  {
  }

  /** Below something that is not a directory there is at most the thing itself. */
  lemma LeafFiles(t: Tree, src: string, keep: string -> bool)
    requires WellFormed(t) && DirPath(src) && !IsDir(t, src)
    ensures FilesBelow(t, src, keep) == if IsFile(t, src) && keep(src) then {src} else {}
  {
    forall p | p in FilesBelow(t, src, keep)
      ensures p == src
    {
      if p != src {
        AncestorIsDir(t, p, src);
      }
    }
  }

  lemma NamesAreValid(t: Tree, dir: string)
    requires WellFormed(t)
    ensures forall n :: n in ChildNames(t, dir) ==> ValidName(n)
  {
    forall p | p in t && p != "/"
      ensures ValidName(Base(p))
    {
      assert WellPlaced(t, p);
    }
  }

  /** What a directory listing adds to the facts of the tree. */
  lemma Listing(t: Tree, src: string, names: seq<string>)
    requires WellFormed(t) && Enumerates(names, ChildNames(t, src))
    ensures forall n :: n in names ==> ValidName(n)
    ensures forall j, k :: 0 <= j < k < |names| ==> names[j] != names[k]
  {
    NamesAreValid(t, src);
  }

  lemma ValidTree(fs: FileSystem)
    requires fs.Valid()
    ensures WellFormed(fs.tree) && forall dir :: Enumerates(fs.Children(dir), ChildNames(fs.tree, dir))
  {
  }

  // ----- how deep a path lies

  function Slashes(p: string): nat {
    if p == "" then 0 else Slashes(p[..|p| - 1]) + if p[|p| - 1] == '/' then 1 else 0
  }

  /** How many steps a path lies below the root. */
  function Level(p: string): nat { if p == "/" then 0 else Slashes(p) }

  lemma {:induction false} SlashesOf(a: string, b: string)
    ensures Slashes(a + b) == Slashes(a) + Slashes(b)
    decreases |b|
  {
    if b == "" {
      assert a + b == a;
    } else {
      SlashesOf(a, b[..|b| - 1]);
      assert (a + b)[..|a + b| - 1] == a + b[..|b| - 1];
    }
  }

  lemma {:induction false} NoSlashes(name: string)
    requires '/' !in name
    ensures Slashes(name) == 0
    decreases |name|
  {
    if name != "" {
      NoSlashes(name[..|name| - 1]);
    }
  }

  lemma {:induction false} ChildLevel(src: string, name: string)
    requires DirPath(src) && ValidName(name)
    ensures Level(Join(src, name)) == Level(src) + 1
  {
    NoSlashes(name);
    JoinParts(src, name);
    OneSlash();
    if src == "/" {
      SlashesOf("/", name);
      assert Join(src, name) == "/" + name;
    } else {
      SlashesOf(src + "/", name);
      SlashesOf(src, "/");
      assert Join(src, name) == src + "/" + name;
    }
  }

  lemma OneSlash()
    ensures Slashes("/") == 1
  {
    assert "/"[..0] == "";
  }

  lemma ListedChild(t: Tree, src: string, name: string)
    requires WellFormed(t) && name in ChildNames(t, src)
    ensures Join(src, name) in t
  {
    var p :| p in t && p != "/" && Parent(p) == src && Base(p) == name;
    assert WellPlaced(t, p);
  }

  // ----- sums over files

  ghost function Sum(f: string -> nat, s: set<string>): nat {
    if s == {} then 0 else var p :| p in s; f(p) + Sum(f, s - {p})
  }

  lemma {:induction false} SumRemove(f: string -> nat, s: set<string>, p: string)
    requires p in s
    ensures Sum(f, s) == f(p) + Sum(f, s - {p})
    decreases |s|
  {
    var q :| q in s && Sum(f, s) == f(q) + Sum(f, s - {q});
    if q != p {
      SumRemove(f, s - {q}, p);
      SumRemove(f, s - {p}, q);
      assert s - {q} - {p} == s - {p} - {q};
    }
  }

  lemma {:induction false} SumUnion(f: string -> nat, a: set<string>, b: set<string>)
    requires a !! b
    ensures Sum(f, a + b) == Sum(f, a) + Sum(f, b) && |a + b| == |a| + |b|
    decreases |a|
  {
    if a == {} {
      assert a + b == b;
    } else {
      var p :| p in a;
      SumRemove(f, a, p);
      SumRemove(f, a + b, p);
      SumUnion(f, a - {p}, b);
      assert a + b - {p} == (a - {p}) + b;
    }
  }

  lemma {:induction false} SumAgree(f: string -> nat, g: string -> nat, s: set<string>)
    requires forall p :: p in s ==> f(p) == g(p)
    ensures Sum(f, s) == Sum(g, s)
    decreases |s|
  {
    if s != {} {
      var p :| p in s;
      SumRemove(f, s, p);
      SumRemove(g, s, p);
      SumAgree(f, g, s - {p});
    }
  }
}
