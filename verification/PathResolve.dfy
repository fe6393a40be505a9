/**
 The shell's path normaliser. Specified on a stack of components and implemented, like the
 shell, by pushing and popping components in place in one bounded character buffer.
 */
module PathResolve {
  import opened Options

  // ----- components

  /** The number of leading characters before the first slash. */
  function RunLength(s: string): (n: nat)
    ensures n <= |s| && '/' !in s[..n] && (n < |s| ==> s[n] == '/')
  {
    if s == "" || s[0] == '/' then 0 else 1 + RunLength(s[1..])
  }

  predicate Named(parts: seq<string>) {
    forall k :: 0 <= k < |parts| ==> parts[k] != "" && '/' !in parts[k]
  }

  /** The non-empty parts between slashes. */
  function Parts(s: string): (parts: seq<string>)
    ensures Named(parts)
    decreases |s|
  {
    if s == "" then []
    else if s[0] == '/' then Parts(s[1..])
    else [s[..RunLength(s)]] + Parts(s[RunLength(s)..])
  }

  /** What may lie on the stack: a non-empty name that is neither "." nor "..". */
  predicate Ordinary(stack: seq<string>) {
    Named(stack) && forall k :: 0 <= k < |stack| ==> stack[k] != "." && stack[k] != ".."
  }

  function Apply(stack: seq<string>, part: string): seq<string> {
    if part == "." then stack
    else if part == ".." then if stack == [] then [] else stack[..|stack| - 1]
    else stack + [part]
  }

  /** The stack after all parts, were there no limit on the length. */
  function Normal(stack: seq<string>, parts: seq<string>): seq<string>
    decreases |parts|
  {
    if parts == [] then stack else Normal(Apply(stack, parts[0]), parts[1..])
  }

  // ----- text

  function Slashed(stack: seq<string>): string
    decreases |stack|
  {
    if stack == [] then "" else Slashed(stack[..|stack| - 1]) + "/" + stack[|stack| - 1]
  }

  function Render(stack: seq<string>): string {
    if stack == [] then "/" else Slashed(stack)
  }

  /** The stack after all parts, unless some path on the way needs `size` characters or more. */
  function Bounded(stack: seq<string>, parts: seq<string>, size: nat): Option<seq<string>>
    decreases |parts|
  {
    if parts == [] then Some(stack)
    else
      var next := Apply(stack, parts[0]);
      if |next| > |stack| && |Render(next)| >= size then None else Bounded(next, parts[1..], size)
  }

  /** ush_resolve_path on values. */
  function Resolved(cwd: string, arg: string, size: nat): Option<seq<string>> {
    if arg == "" then Bounded([], Parts(cwd), size)
    else if arg[0] != '/' then
      match Bounded([], Parts(cwd), size)
      case None => None
      case Some(stack) => Bounded(stack, Parts(arg), size)
    else Bounded([], Parts(arg), size)
  }

  // ----- laws

  lemma {:induction false} NormalOrdinary(stack: seq<string>, parts: seq<string>)
    requires Ordinary(stack) && Named(parts)
    ensures Ordinary(Normal(stack, parts))
    decreases |parts|
  {
    if parts != [] {
      NormalOrdinary(Apply(stack, parts[0]), parts[1..]);
    }
  }

  lemma {:induction false} SlashedGrows(stack: seq<string>, c: string)
    ensures Slashed(stack + [c]) == Slashed(stack) + "/" + c
  {
    assert (stack + [c])[..|stack|] == stack;
  }

  lemma {:induction false} SlashedLonger(stack: seq<string>, k: nat)
    requires k <= |stack|
    ensures |Slashed(stack[..k])| <= |Slashed(stack)|
    decreases |stack|
  {
    if k < |stack| {
      SlashedLonger(stack[..|stack| - 1], k);
      assert stack[..|stack| - 1][..k] == stack[..k];
    } else {
      assert stack[..k] == stack;
    }
  }

  lemma {:induction false} RenderLonger(stack: seq<string>, k: nat)
    requires k <= |stack|
    ensures |Render(stack[..k])| <= |Render(stack)|
  {
    SlashedLonger(stack, k);
    if stack != [] {
      assert |Slashed(stack)| >= 1;
    }
  }

  predicate Overflows(stack: seq<string>, parts: seq<string>, size: nat, k: nat)
    requires k <= |parts|
  {
    |Render(Normal(stack, parts[..k]))| >= size
  }

  /** Resolution fails exactly when the path after some of the parts does not fit. */
  lemma {:induction false} FailsExactly(stack: seq<string>, parts: seq<string>, size: nat)
    requires |Render(stack)| < size
    ensures Bounded(stack, parts, size).None? <==> exists k :: 0 <= k <= |parts| && Overflows(stack, parts, size, k)
    ensures Bounded(stack, parts, size).Some? ==> Bounded(stack, parts, size).value == Normal(stack, parts)
    ensures Bounded(stack, parts, size).Some? ==> |Render(Normal(stack, parts))| < size
    decreases |parts|
  {
    if parts == [] {
      assert forall k :: 0 <= k <= |parts| ==> parts[..k] == [];
    } else {
      var next := Apply(stack, parts[0]);
      if |next| < |stack| {
        RenderLonger(stack, |next|);
      }
      forall k | 0 < k <= |parts|
        ensures Overflows(stack, parts, size, k) <==> Overflows(next, parts[1..], size, k - 1)
      {
        PrefixStep(stack, parts, k);
      }
      assert Overflows(stack, parts, size, 0) <==> |Render(stack)| >= size;
      if |Render(next)| < size {
        FailsExactly(next, parts[1..], size);
        hide *;
        if k :| 0 <= k <= |parts[1..]| && Overflows(next, parts[1..], size, k) {
          assert Overflows(stack, parts, size, k + 1);
        }
      } else {
        assert parts[..1] == [parts[0]];
        assert Overflows(stack, parts, size, 1);
      }
    }
  }

  lemma {:induction false} PrefixStep(stack: seq<string>, parts: seq<string>, k: nat)
    requires 0 < k <= |parts|
    ensures Normal(stack, parts[..k]) == Normal(Apply(stack, parts[0]), parts[1..][..k - 1])
  {
    assert parts[..k][1..] == parts[1..][..k - 1];
  }

  lemma {:induction false} PartsOfJoined(a: string, b: string)
    ensures Parts(a + "/" + b) == Parts(a) + Parts(b)
    decreases |a|
  {
    var s := a + "/" + b;
    if a == "" {
      assert s[1..] == b;
    } else if a[0] == '/' {
      assert s[1..] == a[1..] + "/" + b;
      PartsOfJoined(a[1..], b);
    } else {
      var n := RunLength(a);
      RunOfPrefix(a, "/" + b);
      assert a + ("/" + b) == s;
      assert s[n..] == a[n..] + "/" + b;
      assert s[..n] == a[..n];
      PartsOfJoined(a[n..], b);
    }
  }

  lemma {:induction false} RunOfPrefix(a: string, rest: string)
    requires rest != "" && rest[0] == '/'
    ensures RunLength(a + rest) == RunLength(a)
  {
    if a != "" && a[0] != '/' {
      assert (a + rest)[1..] == a[1..] + rest;
      RunOfPrefix(a[1..], rest);
    }
  }

  lemma {:induction false} PartsOfOne(c: string)
    requires c != "" && '/' !in c
    ensures Parts(c) == [c]
  {
    var n := RunLength(c);
    assert n == |c|;
    assert c[..n] == c && c[n..] == "";
  }

  /** Taking the rendered path apart gives the stack back. */
  lemma {:induction false} PartsOfRendered(stack: seq<string>)
    requires Named(stack)
    ensures Parts(Render(stack)) == stack
    decreases |stack|
  {
    PartsOfSlashed(stack);
    if stack == [] {
      assert Render(stack)[1..] == "";
    }
  }

  lemma {:induction false} PartsOfSlashed(stack: seq<string>)
    requires Named(stack)
    ensures Parts(Slashed(stack)) == stack
    decreases |stack|
  {
    if stack != [] {
      var n := |stack| - 1;
      PartsOfSlashed(stack[..n]);
      PartsOfJoined(Slashed(stack[..n]), stack[n]);
      PartsOfOne(stack[n]);
    }
  }

  lemma {:induction false} NormalOfOrdinary(stack: seq<string>, parts: seq<string>)
    requires Ordinary(parts)
    ensures Normal(stack, parts) == stack + parts
    decreases |parts|
  {
    if parts == [] {
      assert stack + parts == stack;
    } else {
      NormalOfOrdinary(stack + [parts[0]], parts[1..]);
      assert stack + [parts[0]] + parts[1..] == stack + parts;
    }
  }

  /** Resolving a resolved path again, from any directory, changes nothing. */
  lemma {:induction false} Idempotent(cwd: string, stack: seq<string>, size: nat)
    requires Ordinary(stack) && |Render(stack)| < size
    ensures Resolved(cwd, Render(stack), size) == Some(stack)
  {
    PartsOfRendered(stack);
    RenderStarts(stack);
    FailsExactly([], stack, size);
    forall k | 0 <= k <= |stack|
      ensures !Overflows([], stack, size, k)
    {
      hide Render;
      NormalOfOrdinary([], stack[..k]);
      assert [] + stack[..k] == stack[..k];
      RenderLonger(stack, k);
    }
    NormalOfOrdinary([], stack);
    assert [] + stack == stack;
  }

  lemma {:induction false} RenderStarts(stack: seq<string>)
    ensures Render(stack) != "" && Render(stack)[0] == '/'
    decreases |stack|
  {
    if |stack| == 1 {
      assert Slashed(stack[..0]) == "";
    }
    if |stack| > 1 {
      RenderStarts(stack[..|stack| - 1]);
    }
  }

  /** Whatever resolves consists of ordinary components and fits. */
  lemma {:induction false} ResolvedIsOrdinary(cwd: string, arg: string, size: nat)
    requires size >= 2 && Resolved(cwd, arg, size).Some?
    ensures Ordinary(Resolved(cwd, arg, size).value)
    ensures |Render(Resolved(cwd, arg, size).value)| < size
  {
    FailsExactly([], Parts(cwd), size);
    FailsExactly([], Parts(arg), size);
    NormalOrdinary([], Parts(cwd));
    NormalOrdinary([], Parts(arg));
    if arg != "" && arg[0] != '/' {
      FailsExactly(Normal([], Parts(cwd)), Parts(arg), size);
      NormalOrdinary(Normal([], Parts(cwd)), Parts(arg));
    }
  }

  lemma {:induction false} BoundedConcat(stack: seq<string>, a: seq<string>, b: seq<string>, size: nat)
    ensures Bounded(stack, a + b, size) ==
      match Bounded(stack, a, size)
      case None => None
      case Some(next) => Bounded(next, b, size)
    decreases |a|
  {
    if a == [] {
      assert a + b == b;
    } else {
      assert (a + b)[1..] == a[1..] + b;
      BoundedConcat(Apply(stack, a[0]), a[1..], b, size);
    }
  }

  /** A relative path means the same as the directory and it joined by a slash. */
  lemma {:induction false} RelativeIsJoined(cwd: string, arg: string, size: nat)
    requires cwd != "" && cwd[0] == '/' && (arg == "" || arg[0] != '/')
    ensures Resolved(cwd, arg, size) == Resolved("/", cwd + "/" + arg, size)
  {
    PartsOfJoined(cwd, arg);
    BoundedConcat([], Parts(cwd), Parts(arg), size);
    if arg == "" {
      assert Parts(cwd) + Parts(arg) == Parts(cwd);
    }
  }

  /** A text's parts come after those of the text in front of it. */
  lemma {:induction false} ResolvedJoined(cwd: string, a: string, b: string, size: nat)
    requires a != ""
    ensures Resolved(cwd, a + "/" + b, size) ==
      match Resolved(cwd, a, size)
      case None => None
      case Some(stack) => Bounded(stack, Parts(b), size)
  {
    hide Parts;
    PartsOfJoined(a, b);
    BoundedConcat([], Parts(a), Parts(b), size);
    match Bounded([], Parts(cwd), size)
    case None =>
    case Some(stack) => BoundedConcat(stack, Parts(a), Parts(b), size);
  }

  lemma {:induction false} PartsAfter(c: string, b: string)
    requires c != "" && '/' !in c
    ensures Parts(c + "/" + b) == [c] + Parts(b)
  {
    hide Parts;
    PartsOfJoined(c, b);
    PartsOfOne(c);
  }

  /** A component and ".." after it cancel, if there was room for the component. */
  lemma {:induction false} UpCancels(cwd: string, a: string, c: string, b: string, size: nat)
    requires a != "" && Ordinary([c])
    ensures Resolved(cwd, a + "/" + (c + "/" + (".." + "/" + b)), size) ==
      match Resolved(cwd, a, size)
      case None => None
      case Some(stack) => if |Render(stack + [c])| >= size then None else Resolved(cwd, a + "/" + b, size)
  {
    hide Resolved, Parts, Render;
    assert [c][0] == c;
    ResolvedJoined(cwd, a, b, size);
    ResolvedJoined(cwd, a, c + "/" + (".." + "/" + b), size);
    PartsAfter(c, ".." + "/" + b);
    PartsAfter("..", b);
    match Resolved(cwd, a, size)
    case None =>
    case Some(stack) =>
      var parts := [c] + ([".."] + Parts(b));
      assert parts[1..] == [".."] + Parts(b) && parts[1..][1..] == Parts(b);
      assert (stack + [c])[..|stack|] == stack;
  }

  /** "." changes nothing. */
  lemma {:induction false} DotIsSkipped(cwd: string, a: string, b: string, size: nat)
    requires a != ""
    ensures Resolved(cwd, a + "/" + ("." + "/" + b), size) == Resolved(cwd, a + "/" + b, size)
  {
    hide Resolved, Parts, Render;
    ResolvedJoined(cwd, a, b, size);
    ResolvedJoined(cwd, a, "." + "/" + b, size);
    PartsAfter(".", b);
    assert (["."] + Parts(b))[1..] == Parts(b);
  }

  /** There is nothing above the root. */
  lemma {:induction false} RootStays(cwd: string, b: string, size: nat)
    ensures Resolved(cwd, "/" + (".." + "/" + b), size) == Resolved(cwd, "/" + b, size)
  {
    hide Render;
    PartsAfter("..", b);
    assert ("/" + (".." + "/" + b))[1..] == ".." + "/" + b && ("/" + b)[1..] == b;
    assert ([".."] + Parts(b))[1..] == Parts(b);
  }

  lemma {:induction false} RenderShape(stack: seq<string>)
    requires Ordinary(stack)
    ensures stack == [] ==> Render(stack) == "/"
    ensures stack != [] ==>
      var last := stack[|stack| - 1];
      && Render(stack) == Slashed(stack) == Slashed(stack[..|stack| - 1]) + "/" + last
      && last != "" && '/' !in last && |Slashed(stack)| > 1
  {
  }

  lemma PushOrdinary(stack: seq<string>, c: string)
    requires Ordinary(stack) && Ordinary([c])
    ensures Ordinary(stack + [c])
  {
    assert [c][0] == c;
  }

  lemma {:induction false} PushRendered(stack: seq<string>, c: string)
    requires Ordinary(stack)
    ensures Render(stack + [c]) == (if |Render(stack)| == 1 then "/" else Render(stack) + "/") + c
  {
    SlashedGrows(stack, c);
    RenderShape(stack);
  }

  lemma PartsSlash(src: string, i: nat)
    requires i < |src| && src[i] == '/'
    ensures Parts(src[i..]) == Parts(src[i + 1..])
  {
    assert src[i..][1..] == src[i + 1..];
  }

  lemma {:induction false} PartsRun(src: string, start: nat, end: nat)
    requires start < end <= |src| && '/' !in src[start..end] && (end < |src| ==> src[end] == '/')
    ensures Parts(src[start..]) == [src[start..end]] + Parts(src[end..])
    ensures Named([src[start..end]])
  {
    var rest := src[start..];
    assert rest[..end - start] == src[start..end] && rest[end - start..] == src[end..];
    RunIs(rest, end - start);
    assert src[start..end][0] == rest[0];
  }

  lemma {:induction false} RunIs(s: string, n: nat)
    requires n <= |s| && '/' !in s[..n] && (n < |s| ==> s[n] == '/')
    ensures RunLength(s) == n
  {
    if n > 0 {
      assert s[..n][0] == s[0] && s[..n][1..] == s[1..][..n - 1];
      RunIs(s[1..], n - 1);
    }
  }

  lemma BoundedOne(stack: seq<string>, part: string, size: nat)
    ensures Bounded(stack, [part], size).Some? ==> Bounded(stack, [part], size) == Some(Apply(stack, part))
  {
    assert [part][1..] == [];
  }

  lemma BoundedNone(stack: seq<string>, size: nat)
    ensures Bounded(stack, Parts(""), size) == Some(stack)
  {
  }

  // ----- the buffer

  class PathBuffer {
    var path: array<char>
    var len: nat
    ghost var stack: seq<string>

    /** The text is the rendered stack and a NUL follows it. */
    ghost predicate Valid()
      reads this, path
    {
      && 1 <= len < path.Length
      && path[len] == '\0'
      && path[..len] == Render(stack)
      && Ordinary(stack)
    }

    /** The buffer holding the root; the source asks for at least two characters. */
    constructor (size: nat)
      requires size >= 2
      ensures Valid() && fresh(path) && path.Length == size && stack == []
    {
      path := new char[size];
      len := 1;
      stack := [];
      new;
      path[0] := '/';
      path[1] := '\0';
      assert path[..1] == "/";
    }

    /** The character loop of ush_path_push_component and the NUL after it. */
    method Place(at: nat, component: string)
      requires at + |component| < path.Length
      modifies path, this`len
      ensures len == at + |component| && path[len] == '\0'
      ensures path[..len] == old(path[..at]) + component
    {
      for i := 0 to |component|
        invariant path[..at] == old(path[..at]) && path[at..at + i] == component[..i]
        modifies path
      {
        path[at + i] := component[i];
      }
      len := at + |component|;
      assert path[..len] == path[..at] + path[at..at + |component|];
      path[len] := '\0';
    }

    /** ush_path_push_component. */
    method Push(component: string) returns (ok: bool)
      requires Valid() && Ordinary([component])
      modifies this`len, this`stack, path
      ensures Valid()
      ensures ok == (|Render(old(stack) + [component])| < path.Length)
      ensures stack == if ok then old(stack) + [component] else old(stack)
    {
      RenderShape(stack);
      PushOrdinary(stack, component);
      PushRendered(stack, component);
      hide Ordinary, Render, Slashed;
      if len == 1 {
        if len + |component| >= path.Length {
          return false;
        }
        Place(1, component);
      } else {
        if len + 1 + |component| >= path.Length {
          return false;
        }
        ghost var before := path[..len];
        path[len] := '/';
        assert path[..len + 1] == before + "/";
        Place(len + 1, component);
      }
      stack := stack + [component];
      return true;
    }

    /** ush_path_pop_component. */
    method Pop()
      requires Valid()
      modifies this`len, this`stack, path
      ensures Valid() && stack == Apply(old(stack), "..")
    {
      RenderShape(stack);
      if len <= 1 {
        path[0] := '/';
        path[1] := '\0';
        len := 1;
        return;
      }
      ghost var rest := stack[..|stack| - 1];
      ghost var base := |Slashed(rest)|;
      assert path[..len][base] == '/';
      assert forall k :: base < k < len ==> path[..len][k] == stack[|stack| - 1][k - base - 1];
      while len > 1 && path[len - 1] != '/'
        invariant base < len <= old(len)
        modifies this`len
      {
        len := len - 1;
      }
      if len > 1 {
        len := len - 1;
      }
      RenderShape(rest);
      assert path[..len] == old(path[..len])[..len] == Render(rest);
      path[len] := '\0';
      stack := rest;
    }

    /** One part of ush_path_parse_into. */
    method Enter(part: string) returns (ok: bool)
      requires Valid() && Named([part])
      modifies this`len, this`stack, path
      ensures Valid()
      ensures ok == Bounded(old(stack), [part], path.Length).Some?
      ensures ok ==> stack == Apply(old(stack), part)
    {
      hide Render;
      ghost var next := Apply(stack, part);
      assert Bounded(next, [], path.Length) == Some(next);
      if part == "." {
        return true;
      }
      if part == ".." {
        Pop();
        return true;
      }
      ok := Push(part);
    }

    /** ush_path_parse_into. */
    method ParseInto(src: string) returns (ok: bool)
      requires Valid()
      modifies this`len, this`stack, path
      ensures Valid()
      ensures ok == Bounded(old(stack), Parts(src), path.Length).Some?
      ensures ok ==> Some(stack) == Bounded(old(stack), Parts(src), path.Length)
    {
      hide Bounded, Parts, Valid, Apply;
      var i := 0;
      ghost var target := Bounded(stack, Parts(src), path.Length);
      assert src[0..] == src;
      if src != "" && src[0] == '/' {
        PartsSlash(src, 0);
        i := 1;
      }
      while i < |src|
        invariant i <= |src| && Valid()
        invariant target == Bounded(stack, Parts(src[i..]), path.Length)
      {
        while i < |src| && src[i] == '/'
          invariant i <= |src|
          invariant target == Bounded(stack, Parts(src[i..]), path.Length)
          modifies {}
        {
          PartsSlash(src, i);
          i := i + 1;
        }
        if i == |src| {
          break;
        }
        var start := i;
        while i < |src| && src[i] != '/'
          invariant start <= i <= |src|
          invariant '/' !in src[start..i]
          modifies {}
        {
          i := i + 1;
        }
        PartsRun(src, start, i);
        BoundedConcat(stack, [src[start..i]], Parts(src[i..]), path.Length);
        BoundedOne(stack, src[start..i], path.Length);
        ok := Enter(src[start..i]);
        if !ok {
          return;
        }
      }
      BoundedNone(stack, path.Length);
      assert src[i..] == "";
      return true;
    }
  }

  /** ush_resolve_path; a missing argument counts as an empty one. */
  method ResolvePath(cwd: string, arg: string, size: nat) returns (ok: bool, path: string)
    ensures ok == (size >= 2 && Resolved(cwd, arg, size).Some?)
    ensures ok ==> path == Render(Resolved(cwd, arg, size).value)
  {
    if size < 2 {
      return false, "";
    }
    var out := new PathBuffer(size);
    if arg == "" {
      ok := out.ParseInto(cwd);
      return ok, out.path[..out.len];
    }
    if arg[0] != '/' {
      ok := out.ParseInto(cwd);
      if !ok {
        return false, "";
      }
    }
    ok := out.ParseInto(arg);
    return ok, out.path[..out.len];
  }
}
