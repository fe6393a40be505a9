/**
 The downloader's DNS codec: host names into labels, names skipped with compression pointers,
 and the first address of a response (RFC 1035, sections 3.1 and 4.1).
 */
module DnsMessage {
  import opened Bytes
  import opened Options

  const MAX_STEPS: nat := 31
  const QUERY_MAX: nat := 512

  // ----- names on the wire

  datatype Tail = End | Pointer(target: nat)

  datatype Name = Name(labels: seq<seq<byte>>, tail: Tail)

  predicate LegalLabels(labels: seq<seq<byte>>) {
    forall k :: 0 <= k < |labels| ==> 1 <= |labels[k]| <= 63
  }

  predicate LegalName(name: Name) {
    LegalLabels(name.labels) && (name.tail.Pointer? ==> name.tail.target < 0x4000)
  }

  function LabelBytes(labels: seq<seq<byte>>): seq<byte>
    requires LegalLabels(labels)
  {
    if labels == [] then [] else [|labels[0]| as byte] + labels[0] + LabelBytes(labels[1..])
  }

  function TailBytes(tail: Tail): seq<byte>
    requires tail.Pointer? ==> tail.target < 0x4000
  {
    match tail
    case End => [0]
    case Pointer(target) => [(0xC0 + target / 256) as byte, (target % 256) as byte]
  }

  function Wire(name: Name): seq<byte>
    requires LegalName(name)
  {
    LabelBytes(name.labels) + TailBytes(name.tail)
  }

  // ----- reading a name

  function Target(msg: seq<byte>, pos: nat): nat
    requires pos + 1 < |msg| && msg[pos] >= 0xC0
  {
    (msg[pos] as nat - 0xC0) * 256 + msg[pos + 1] as nat
  }

  /** The name at pos comes to its end after at most n labels and pointers, all inside msg. */
  predicate Resolves(msg: seq<byte>, pos: nat, n: nat)
    decreases n
  {
    && pos < |msg|
    && (msg[pos] == 0
        || (n > 0 && (if msg[pos] >= 0xC0 then
                        pos + 1 < |msg| && Target(msg, pos) < |msg| && Resolves(msg, Target(msg, pos), n - 1)
                      else
                        msg[pos] < 0x40 && pos + 1 + msg[pos] as nat <= |msg|
                        && Resolves(msg, pos + 1 + msg[pos] as nat, n - 1))))
  }

  /** The offset after the name's own bytes: past the first zero or the first pointer. */
  function EndOf(msg: seq<byte>, pos: nat): Option<nat>
    decreases |msg| - pos
  {
    if pos >= |msg| then None
    else if msg[pos] == 0 then Some(pos + 1)
    else if msg[pos] >= 0xC0 then if pos + 2 <= |msg| then Some(pos + 2) else None
    else EndOf(msg, pos + 1 + msg[pos] as nat)
  }

  lemma {:induction false} ResolvedEnds(msg: seq<byte>, pos: nat, n: nat)
    requires Resolves(msg, pos, n)
    ensures EndOf(msg, pos).Some? && pos < EndOf(msg, pos).value <= |msg|
    decreases n
  {
    if msg[pos] != 0 && msg[pos] < 0xC0 {
      ResolvedEnds(msg, pos + 1 + msg[pos] as nat, n - 1);
    }
  }

  /** ush_httpget_dns_skip_name. On any bytes it stops, reads only inside msg and ends inside it. */
  method SkipName(msg: seq<byte>, start: nat) returns (ok: bool, end: nat)
    ensures ok == Resolves(msg, start, MAX_STEPS)
    ensures ok ==> EndOf(msg, start) == Some(end) && start < end <= |msg|
  {
    end := start;
    if start >= |msg| {
      return false, end;
    }
    var pos: nat, depth: nat, jumped := start, 0, false;
    while depth < 32
      invariant depth <= 32
      invariant Resolves(msg, start, MAX_STEPS) <==> depth < 32 && Resolves(msg, pos, MAX_STEPS - depth)
      invariant !jumped ==> end == pos && EndOf(msg, start) == EndOf(msg, pos)
      invariant jumped ==> EndOf(msg, start) == Some(end)
    {
      if pos >= |msg| {
        return false, end;
      }
      var len := msg[pos];
      if len == 0 {
        if !jumped {
          end := pos + 1;
        }
        ResolvedEnds(msg, start, MAX_STEPS);
        return true, end;
      }
      if len >= 0xC0 {
        if pos + 1 >= |msg| {
          return false, end;
        }
        var target := (len as nat - 0xC0) * 256 + msg[pos + 1] as nat;
        if target >= |msg| {
          return false, end;
        }
        if !jumped {
          end := pos + 2;
          jumped := true;
        }
        pos := target;
        depth := depth + 1;
        continue;
      }
      if len >= 0x40 {
        return false, end;
      }
      if pos + 1 + len as nat > |msg| {
        return false, end;
      }
      pos := pos + 1 + len as nat;
      if !jumped {
        end := pos;
      }
      depth := depth + 1;
    }
    return false, end;
  }

  /** A name serialised anywhere in a message ends where its bytes end. */
  lemma {:induction false} WireEnds(msg: seq<byte>, pos: nat, name: Name, rest: seq<byte>)
    requires LegalName(name) && pos <= |msg| && msg[pos..] == Wire(name) + rest
    ensures EndOf(msg, pos) == Some(pos + |Wire(name)|) && pos + |Wire(name)| <= |msg|
    decreases |name.labels|
  {
    assert msg[pos] == (Wire(name) + rest)[0];
    if name.labels != [] {
      var next := Name(name.labels[1..], name.tail);
      LabelStep(msg, pos, name, rest);
      WireEnds(msg, pos + 1 + |name.labels[0]|, next, rest);
    }
  }

  lemma {:induction false} LabelStep(msg: seq<byte>, pos: nat, name: Name, rest: seq<byte>)
    requires LegalName(name) && name.labels != [] && pos <= |msg| && msg[pos..] == Wire(name) + rest
    ensures
      var next := Name(name.labels[1..], name.tail);
      && LegalName(next)
      && pos + 1 + |name.labels[0]| <= |msg|
      && msg[pos] as nat == |name.labels[0]|
      && |Wire(name)| == 1 + |name.labels[0]| + |Wire(next)|
      && msg[pos + 1 + |name.labels[0]|..] == Wire(next) + rest
  {
    var next := Name(name.labels[1..], name.tail);
    var k := 1 + |name.labels[0]|;
    assert Wire(name) + rest == [|name.labels[0]| as byte] + name.labels[0] + (Wire(next) + rest);
    assert msg[pos + k..] == msg[pos..][k..];
    assert msg[pos] == msg[pos..][0];
  }

  /** Which serialised names resolve: the labels, one pointer and what it points to share the steps. */
  lemma {:induction false} WireResolves(msg: seq<byte>, pos: nat, name: Name, rest: seq<byte>, n: nat)
    requires LegalName(name) && pos <= |msg| && msg[pos..] == Wire(name) + rest
    ensures Resolves(msg, pos, n) <==>
      match name.tail
      case End => |name.labels| <= n
      case Pointer(target) => |name.labels| < n && Resolves(msg, target, n - |name.labels| - 1)
    decreases |name.labels|
  {
    assert msg[pos] == (Wire(name) + rest)[0];
    if name.labels == [] {
      if name.tail.Pointer? {
        assert msg[pos + 1] == msg[pos..][1];
        assert Target(msg, pos) == name.tail.target;
      }
    } else {
      LabelStep(msg, pos, name, rest);
      if n > 0 {
        WireResolves(msg, pos + 1 + |name.labels[0]|, Name(name.labels[1..], name.tail), rest, n - 1);
      }
    }
  }

  // ----- host names

  /** The characters before the first dot. */
  function DotAt(s: string): (n: nat)
    ensures n <= |s| && '.' !in s[..n] && (n < |s| ==> s[n] == '.')
  {
    if s == "" || s[0] == '.' then 0 else 1 + DotAt(s[1..])
  }

  /** The dotted labels; one dot at the very end adds none. */
  function Labels(host: string): seq<seq<byte>>
    decreases |host|
  {
    if host == "" then []
    else
      var n := DotAt(host);
      [Octets(host[..n])] + if n == |host| then [] else Labels(host[n + 1..])
  }

  predicate Encodable(host: string, capacity: nat) {
    && host != "" && LegalLabels(Labels(host))
    && |Wire(Name(Labels(host), End))| <= capacity
  }

  lemma LegalConcat(a: seq<seq<byte>>, b: seq<seq<byte>>)
    ensures LegalLabels(a + b) <==> LegalLabels(a) && LegalLabels(b)
  {
    if LegalLabels(a + b) {
      assert forall k :: 0 <= k < |a| ==> (a + b)[k] == a[k];
      assert forall k :: 0 <= k < |b| ==> (a + b)[|a| + k] == b[k];
    }
  }

  lemma LabelBytesCons(l: seq<byte>, later: seq<seq<byte>>)
    requires 1 <= |l| <= 63 && LegalLabels(later)
    ensures LegalLabels([l] + later) && LabelBytes([l] + later) == [|l| as byte] + l + LabelBytes(later)
  {
    LegalConcat([l], later);
    assert ([l] + later)[1..] == later;
  }

  lemma {:induction false} LabelBytesConcat(a: seq<seq<byte>>, b: seq<seq<byte>>)
    requires LegalLabels(a) && LegalLabels(b)
    ensures LegalLabels(a + b) && LabelBytes(a + b) == LabelBytes(a) + LabelBytes(b)
    decreases |a|
  {
    LegalConcat(a, b);
    if a == [] {
      assert a + b == b;
    } else {
      var l, later := a[0], a[1..];
      assert a == [l] + later;
      LegalConcat([l], later);
      assert a + b == [l] + (later + b);
      LabelBytesConcat(later, b);
      hide LegalLabels, LabelBytes;
      LabelBytesCons(l, later);
      LabelBytesCons(l, later + b);
    }
  }

  lemma {:induction false} DotIs(s: string, n: nat)
    requires n <= |s| && '.' !in s[..n] && (n < |s| ==> s[n] == '.')
    ensures DotAt(s) == n
  {
    if n > 0 {
      assert s[..n][0] == s[0] && s[..n][1..] == s[1..][..n - 1];
      DotIs(s[1..], n - 1);
    }
  }

  lemma LabelsCut(host: string)
    requires host != ""
    ensures
      var n := DotAt(host);
      && (n == |host| ==> Labels(host) == [Octets(host[..n])] + Labels(""))
      && (n < |host| ==> Labels(host) == [Octets(host[..n])] + Labels(host[n + 1..]))
  {
    hide Octets, DotAt;
  }

  lemma {:induction false} LabelsStep(host: string, p: nat, dot: nat)
    requires p < |host| && p <= dot <= |host| && '.' !in host[p..dot] && (dot < |host| ==> host[dot] == '.')
    ensures Labels(host[p..]) == [Octets(host[p..dot])] + Labels(host[Next(host, dot)..])
  {
    hide Octets, DotAt, Labels;
    assert host[p..][..dot - p] == host[p..dot];
    DotIs(host[p..], dot - p);
    LabelsCut(host[p..]);
    if dot < |host| {
      assert host[p..][dot - p + 1..] == host[dot + 1..];
    } else {
      assert host[dot..] == "";
    }
  }

  /** What is left to encode fits only if the next label does. */
  lemma {:induction false} NextLabel(done: seq<seq<byte>>, next: seq<byte>, later: seq<seq<byte>>)
    requires LegalLabels(done)
    ensures LegalLabels(done + ([next] + later)) ==> 1 <= |next| <= 63 && LegalLabels(later)
    ensures LegalLabels(done + ([next] + later)) ==>
      |LabelBytes(done + ([next] + later))| >= |LabelBytes(done)| + 1 + |next|
    ensures 1 <= |next| <= 63 ==>
      LegalLabels(done + [next]) && LabelBytes(done + [next]) == LabelBytes(done) + [|next| as byte] + next
    ensures done + ([next] + later) == done + [next] + later
  {
    var all := done + ([next] + later);
    if LegalLabels(all) {
      assert all[|done|] == next;
      forall k | 0 <= k < |later|
        ensures 1 <= |later[k]| <= 63
      {
        assert all[|done| + 1 + k] == later[k];
      }
      LabelBytesConcat(done, [next] + later);
      assert ([next] + later)[1..] == later;
    }
    if 1 <= |next| <= 63 {
      LabelBytesConcat(done, [next]);
      assert [next][1..] == [];
    }
  }

  /** The label loop of ush_httpget_dns_encode_qname. */
  method PutLabel(out: array<byte>, at: nat, host: string, p: nat, dot: nat)
    requires p <= dot <= |host| && dot - p <= 63 && at + 1 + (dot - p) <= out.Length
    modifies out
    ensures out[..at + 1 + (dot - p)] == old(out[..at]) + [(dot - p) as byte] + Octets(host[p..dot])
  {
    out[at] := (dot - p) as byte;
    for i := 0 to dot - p
      invariant out[..at + 1 + i] == old(out[..at]) + [(dot - p) as byte] + Octets(host[p..p + i])
    {
      out[at + 1 + i] := Octet(host[p + i]);
    }
  }

  /** The scan for the next dot. */
  method FindDot(host: string, p: nat) returns (dot: nat)
    requires p < |host|
    ensures p <= dot <= |host| && (dot < |host| ==> host[dot] == '.')
    ensures Labels(host[p..]) == [Octets(host[p..dot])] + Labels(host[Next(host, dot)..])
  {
    hide Labels, DotAt, Octets;
    dot := p;
    while dot < |host| && host[dot] != '.'
      invariant p <= dot <= |host| && '.' !in host[p..dot]
    {
      dot := dot + 1;
    }
    LabelsStep(host, p, dot);
  }

  lemma NoLabels()
    ensures LegalLabels([]) && LabelBytes([]) == [] && Labels("") == []
  {
  }

  function Next(host: string, dot: nat): nat { if dot < |host| then dot + 1 else dot }

  /** With the labels before p encoded, `written` is what the buffer holds. */
  ghost predicate Progress(host: string, p: nat, done: seq<seq<byte>>, before: seq<byte>, written: seq<byte>) {
    && p <= |host| && LegalLabels(done)
    && Labels(host) == done + Labels(host[p..])
    && written == before + LabelBytes(done)
  }

  lemma ProgressStart(host: string, before: seq<byte>)
    ensures Progress(host, 0, [], before, before)
  {
    assert host[0..] == host && [] + Labels(host) == Labels(host);
    assert before + [] == before;
  }

  lemma {:induction false} ProgressStep(host: string, p: nat, dot: nat, done: seq<seq<byte>>, before: seq<byte>,
                                        written: seq<byte>)
    requires Progress(host, p, done, before, written) && p < dot <= |host| && dot - p <= 63
    requires Labels(host[p..]) == [Octets(host[p..dot])] + Labels(host[Next(host, dot)..])
    ensures Progress(host, Next(host, dot), done + [Octets(host[p..dot])], before,
                     written + [(dot - p) as byte] + Octets(host[p..dot]))
  {
    hide Labels, LabelBytes, LegalLabels, Octets;
    var next := Octets(host[p..dot]);
    NextLabel(done, next, Labels(host[Next(host, dot)..]));
    Regroup(before, LabelBytes(done), [|next| as byte], next);
  }

  lemma Regroup(a: seq<byte>, b: seq<byte>, c: seq<byte>, d: seq<byte>)
    ensures a + (b + c + d) == a + b + c + d
  {
  }

  lemma {:induction false} ProgressStuck(host: string, p: nat, dot: nat, done: seq<seq<byte>>, before: seq<byte>,
                                         written: seq<byte>, capacity: nat)
    requires Progress(host, p, done, before, written) && p <= dot <= |host|
    requires Labels(host[p..]) == [Octets(host[p..dot])] + Labels(host[Next(host, dot)..])
    requires dot == p || dot - p > 63 || |written| - |before| + 1 + (dot - p) + 1 > capacity
    ensures !Encodable(host, capacity)
  {
    hide Labels, LabelBytes, LegalLabels, Octets;
    NextLabel(done, Octets(host[p..dot]), Labels(host[Next(host, dot)..]));
  }

  lemma {:induction false} ProgressEnd(host: string, done: seq<seq<byte>>, before: seq<byte>, written: seq<byte>,
                                       capacity: nat)
    requires Progress(host, |host|, done, before, written) && host != ""
    requires |written| - |before| + 1 <= capacity
    ensures Encodable(host, capacity) && written + [0] == before + Wire(Name(Labels(host), End))
  {
    assert Labels(host[|host|..]) == [];
    assert done + [] == done;
    hide Labels, LabelBytes, LegalLabels;
  }

  lemma EncodableNeeds(host: string, capacity: nat)
    ensures Encodable(host, capacity) ==> host != "" && capacity >= 2
  {
    if Encodable(host, capacity) {
      assert LabelBytes(Labels(host)) != [];
    }
  }

  /** ush_httpget_dns_encode_qname, into the bytes of `out` from `base` on. */
  method EncodeQname(host: string, out: array<byte>, base: nat) returns (ok: bool, len: nat)
    requires base <= out.Length
    modifies out
    ensures ok == Encodable(host, out.Length - base)
    ensures ok ==> base + len <= out.Length && out[..base + len] == old(out[..base]) + Wire(Name(Labels(host), End))
  {
    hide Progress, Encodable, Wire, Labels, LabelBytes, LegalLabels, Octets;
    len := 0;
    var capacity := out.Length - base;
    if capacity < 2 || host == "" {
      EncodableNeeds(host, capacity);
      return false, 0;
    }
    ghost var before := out[..base];
    ghost var done: seq<seq<byte>> := [];
    var at: nat, p: nat := 0, 0;
    ProgressStart(host, before);
    while p < |host|
      invariant p <= |host| && at + 1 <= capacity
      invariant Progress(host, p, done, before, out[..base + at])
    {
      var dot := FindDot(host, p);
      var size := dot - p;
      if size == 0 || size > 63 || at + 1 + size + 1 > capacity {
        ProgressStuck(host, p, dot, done, before, out[..base + at], capacity);
        return false, 0;
      }
      ProgressStep(host, p, dot, done, before, out[..base + at]);
      PutLabel(out, base + at, host, p, dot);
      at := at + 1 + size;
      done := done + [Octets(host[p..dot])];
      p := Next(host, dot);
    }
    ProgressEnd(host, done, before, out[..base + at], capacity);
    ghost var written := out[..base + at];
    out[base + at] := 0;
    at := at + 1;
    assert out[..base + at] == written + [0];
    return true, at;
  }

  /** An encoded host is skipped in exactly its own length, provided it has at most 31 labels. */
  lemma {:induction false} EncodedIsSkipped(host: string, before: seq<byte>, rest: seq<byte>)
    requires LegalLabels(Labels(host))
    ensures
      var wire := Wire(Name(Labels(host), End));
      var msg := before + wire + rest;
      && (Resolves(msg, |before|, MAX_STEPS) <==> |Labels(host)| <= MAX_STEPS)
      && EndOf(msg, |before|) == Some(|before| + |wire|)
  {
    hide Labels, LegalLabels, LabelBytes, Wire, Resolves, EndOf;
    var name := Name(Labels(host), End);
    var msg := before + Wire(name) + rest;
    assert msg[|before|..] == Wire(name) + rest;
    WireResolves(msg, |before|, name, rest, MAX_STEPS);
    WireEnds(msg, |before|, name, rest);
  }

  /** The host "a.a. … .a" of n labels. */
  function DeepHost(n: nat): (h: string)
    requires n > 0
    ensures |h| == 2 * n - 1
  {
    if n == 1 then "a" else "a." + DeepHost(n - 1)
  }

  lemma {:induction false} DeepLabels(n: nat)
    requires n > 0
    ensures |Labels(DeepHost(n))| == n && LegalLabels(Labels(DeepHost(n)))
    ensures |LabelBytes(Labels(DeepHost(n)))| == 2 * n
  {
    hide LabelBytes, LegalLabels, Octets;
    var first := Octets("a");
    OneOctet();
    if n == 1 {
      LabelBytesCons(first, []);
      assert [first] + [] == [first] && "a"[..1] == "a" && DotAt("a") == 1;
      NoLabels();
    } else {
      var later := DeepHost(n - 1);
      DeepLabels(n - 1);
      LabelBytesCons(first, Labels(later));
      DotSecond(later);
    }
  }

  lemma OneOctet()
    ensures |Octets("a")| == 1
  {
  }

  lemma DotSecond(later: string)
    ensures Labels("a." + later) == [Octets("a")] + Labels(later)
  {
    hide Octets;
    var host := "a." + later;
    assert host[1..][0] == '.' && DotAt(host[1..]) == 0;
    assert DotAt(host) == 1 && host[..1] == "a" && host[2..] == later;
  }

  /** A host of 63 characters that is encoded and yet cannot be skipped, whatever message it stands in. */
  lemma DeepHostNotSkipped(before: seq<byte>, rest: seq<byte>)
    ensures |DeepHost(32)| == 63 && Encodable(DeepHost(32), QUERY_MAX - 12)
    ensures !Resolves(before + Wire(Name(Labels(DeepHost(32)), End)) + rest, |before|, MAX_STEPS)
  {
    hide Labels, LegalLabels, LabelBytes, Resolves, DeepHost;
    DeepLabels(32);
    EncodedIsSkipped(DeepHost(32), before, rest);
  }

  /** The labels and the tail that the bytes of a resolving name spell. */
  function NameAt(msg: seq<byte>, pos: nat, n: nat): Name
    requires Resolves(msg, pos, n)
    decreases n
  {
    if msg[pos] == 0 then Name([], End)
    else if msg[pos] >= 0xC0 then Name([], Pointer(Target(msg, pos)))
    else
      var next := pos + 1 + msg[pos] as nat;
      var later := NameAt(msg, next, n - 1);
      Name([msg[pos + 1..next]] + later.labels, later.tail)
  }

  lemma NameAtLabel(msg: seq<byte>, pos: nat, n: nat)
    requires Resolves(msg, pos, n) && msg[pos] != 0 && msg[pos] < 0xC0
    ensures
      var next := pos + 1 + msg[pos] as nat;
      && n > 0 && next <= |msg| && msg[pos] < 0x40 && Resolves(msg, next, n - 1)
      && NameAt(msg, pos, n)
         == Name([msg[pos + 1..next]] + NameAt(msg, next, n - 1).labels, NameAt(msg, next, n - 1).tail)
  {
  }

  lemma NameAtEnd(msg: seq<byte>, pos: nat, n: nat)
    requires Resolves(msg, pos, n) && (msg[pos] == 0 || msg[pos] >= 0xC0)
    ensures Spells(msg, pos, NameAt(msg, pos, n))
  {
  }

  /** The bytes from pos on are those of the name and then the rest. */
  predicate Spells(msg: seq<byte>, pos: nat, name: Name) {
    LegalName(name) && pos + |Wire(name)| <= |msg| && msg[pos..] == Wire(name) + msg[pos + |Wire(name)|..]
  }

  lemma SpellsLabel(msg: seq<byte>, pos: nat, later: Name)
    requires pos < |msg| && 1 <= msg[pos] <= 63 && pos + 1 + msg[pos] as nat <= |msg|
    requires Spells(msg, pos + 1 + msg[pos] as nat, later)
    ensures Spells(msg, pos, Name([msg[pos + 1..pos + 1 + msg[pos] as nat]] + later.labels, later.tail))
  {
    var next := pos + 1 + msg[pos] as nat;
    var first := msg[pos + 1..next];
    Prepended(first, later);
    hide Wire, LegalName;
    assert [msg[pos]] + first == msg[pos..next];
    Joined(msg, pos, msg[pos..next], Wire(later));
  }

  /** Whatever is skipped is a serialised name. */
  lemma {:induction false} SkippedIsName(msg: seq<byte>, pos: nat, n: nat)
    requires Resolves(msg, pos, n)
    ensures Spells(msg, pos, NameAt(msg, pos, n))
    decreases n
  {
    assert pos < |msg|;
    hide Resolves, NameAt, Spells;
    if msg[pos] == 0 || msg[pos] >= 0xC0 {
      NameAtEnd(msg, pos, n);
    } else {
      NameAtLabel(msg, pos, n);
      SkippedIsName(msg, pos + 1 + msg[pos] as nat, n - 1);
      SpellsLabel(msg, pos, NameAt(msg, pos + 1 + msg[pos] as nat, n - 1));
    }
  }

  /** Two consecutive pieces of the message taken as one. */
  lemma Joined(msg: seq<byte>, at: nat, a: seq<byte>, b: seq<byte>)
    requires at + |a| + |b| <= |msg|
    requires msg[at..] == a + msg[at + |a|..] && msg[at + |a|..] == b + msg[at + |a| + |b|..]
    ensures msg[at..] == a + b + msg[at + |a| + |b|..]
  {
  }

  lemma Prepended(first: seq<byte>, later: Name)
    requires LegalName(later) && 1 <= |first| <= 63
    ensures
      var name := Name([first] + later.labels, later.tail);
      && LegalName(name)
      && Wire(name) == [|first| as byte] + first + Wire(later)
  {
    assert ([first] + later.labels)[1..] == later.labels;
  }

  /** The labels joined by dots again. */
  function Dotted(labels: seq<seq<byte>>): seq<byte> {
    if labels == [] then []
    else if |labels| == 1 then labels[0]
    else labels[0] + [Octet('.')] + Dotted(labels[1..])
  }

  lemma DottedCons(l: seq<byte>, later: seq<seq<byte>>)
    requires later != []
    ensures Dotted([l] + later) == l + [Octet('.')] + Dotted(later)
  {
    assert ([l] + later)[1..] == later;
  }

  /** The labels are the host's own characters in order; only a dot at the very end is dropped. */
  lemma {:induction false} LabelsSpellHost(host: string)
    requires host != ""
    ensures Labels(host) != []
    ensures Octets(host) == Dotted(Labels(host)) + if host[|host| - 1] == '.' then Octets(".") else []
    decreases |host|
  {
    hide Octets, DotAt, Labels;
    LabelsCut(host);
    var n := DotAt(host);
    if n == |host| {
      assert host[..n] == host && host[..n][n - 1] == host[|host| - 1];
      assert Labels("") == [] by { NoLabels(); }
      assert Labels(host) == [Octets(host)];
    } else {
      var rest := host[n + 1..];
      assert host == host[..n] + "." + rest;
      OctetsAppend(host[..n] + ".", rest);
      OctetsAppend(host[..n], ".");
      DotOctet();
      if rest == "" {
        NoLabels();
        assert Labels(host) == [Octets(host[..n])];
        assert Octets(host[..n]) + Octets(".") + Octets("") == Octets(host[..n]) + Octets(".");
      } else {
        LabelsSpellHost(rest);
        DottedCons(Octets(host[..n]), Labels(rest));
      }
    }
  }

  lemma DotOctet()
    ensures Octets(".") == [Octet('.')] && Octets("") == []
  {
  }
}
