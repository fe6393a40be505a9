/**
 The archiver's in-memory file: one growable buffer with a size, a capacity and a cursor.
 `State` is the plain byte sequence it stands for, together with the book-keeping of growth.
 */
module MemoryFile {
  import opened Bytes
  import opened Options

  const U64: nat := 0x1_0000_0000_0000_0000

  const FIRST_CAPACITY: nat := 4096

  datatype Origin = FromStart | FromCursor | FromEnd | Unknown

  /**
   `copied` counts the bytes moved by all growths so far, `largest` is the largest length any
   growth was asked for and `initial` the capacity at opening.
   */
  datatype State = State(bytes: seq<byte>, pos: nat, capacity: nat, writable: bool, error: bool,
                         copied: nat, largest: nat, initial: nat)

  // ----- growth

  /** The doubling loop from a non-zero capacity; the 64-bit product must not wrap. */
  function Doubling(capacity: nat, needed: nat): Option<nat>
    requires capacity > 0
    decreases needed - capacity
  {
    if capacity >= needed then Some(capacity)
    else if 2 * capacity >= U64 then None
    else Doubling(2 * capacity, needed)
  }

  function StartCapacity(capacity: nat): nat { if capacity != 0 then capacity else FIRST_CAPACITY }

  function Grown(s: State, needed: nat, memory: bool): Option<State> {
    if needed <= s.capacity then Some(s)
    else
      var next := Doubling(StartCapacity(s.capacity), needed);
      if next.None? || !memory then None
      else Some(s.(capacity := next.value, copied := s.copied + |s.bytes|,
                   largest := if s.largest < needed then needed else s.largest))
  }

  lemma {:induction false} DoublingFits(capacity: nat, needed: nat)
    requires 0 < capacity < U64
    ensures Doubling(capacity, needed).Some? ==>
      var c := Doubling(capacity, needed).value;
      capacity <= c < U64 && needed <= c && (c == capacity || 2 * capacity <= c < 2 * needed)
    ensures Doubling(capacity, needed).None? ==> 2 * needed > U64
    decreases needed - capacity
  {
    if capacity < needed && 2 * capacity < U64 {
      DoublingFits(2 * capacity, needed);
    }
  }

  // ----- the operations on values

  /** The byte at k of the file extended by infinitely many zeros. */
  function At(s: State, k: nat): byte { if k < |s.bytes| then s.bytes[k] else 0 }

  function Available(s: State, count: nat): nat {
    if s.pos >= |s.bytes| then 0 else if count < |s.bytes| - s.pos then count else |s.bytes| - s.pos
  }

  function AfterRead(s: State, count: nat): State { s.(pos := s.pos + Available(s, count)) }

  function Overwritten(bytes: seq<byte>, pos: nat, src: seq<byte>): seq<byte>
    requires pos <= |bytes|
  {
    bytes[..pos] + src + if pos + |src| < |bytes| then bytes[pos + |src|..] else []
  }

  function AfterWrite(s: State, src: seq<byte>, memory: bool): State
    requires s.pos <= |s.bytes|
  {
    if !s.writable then s
    else if s.pos + |src| >= U64 then s.(error := true)
    else match Grown(s, s.pos + |src|, memory)
      case None => s.(error := true)
      case Some(g) => g.(bytes := Overwritten(s.bytes, s.pos, src), pos := s.pos + |src|)
  }

  function Base(s: State, origin: Origin): Option<nat> {
    match origin
    case FromStart => Some(0)
    case FromCursor => Some(s.pos)
    case FromEnd => Some(|s.bytes|)
    case Unknown => None
  }

  function Zeros(n: nat): seq<byte> { seq(n, _ => 0) }

  /** The cursor moved to `next`, past the end only for a writable file. */
  function MovedTo(s: State, next: nat, memory: bool): State {
    if next <= |s.bytes| then s.(pos := next)
    else if !s.writable then s
    else match Grown(s, next, memory)
      case None => s.(error := true)
      case Some(g) => g.(bytes := s.bytes + Zeros(next - |s.bytes|), pos := next)
  }

  predicate CanMoveTo(s: State, next: nat, memory: bool) {
    next <= |s.bytes| || (s.writable && Grown(s, next, memory).Some?)
  }

  function AfterSeek(s: State, offset: nat, origin: Origin, memory: bool): State {
    var base := Base(s, origin);
    if base.None? || base.value + offset >= U64 then s else MovedTo(s, base.value + offset, memory)
  }

  predicate SeekOk(s: State, offset: nat, origin: Origin, memory: bool) {
    var base := Base(s, origin);
    base.Some? && base.value + offset < U64 && CanMoveTo(s, base.value + offset, memory)
  }

  // ----- every run

  datatype Operation =
    | Read(count: nat)
    | Write(src: seq<byte>, memory: bool)
    | Seek(offset: nat, origin: Origin, memory: bool)

  /** What every reachable state satisfies. */
  predicate Sound(s: State) {
    && s.pos <= |s.bytes| <= s.capacity < U64
    && s.copied <= s.capacity
    && (s.capacity == s.initial || s.capacity == FIRST_CAPACITY || s.capacity < 2 * s.largest)
  }

  function Step(s: State, op: Operation): State
    requires s.pos <= |s.bytes|
  {
    match op
    case Read(count) => AfterRead(s, count)
    case Write(src, memory) => AfterWrite(s, src, memory)
    case Seek(offset, origin, memory) => AfterSeek(s, offset, origin, memory)
  }

  lemma {:induction false} GrowthIsSound(s: State, needed: nat, memory: bool)
    requires Sound(s) && needed < U64
    ensures Grown(s, needed, memory).Some? ==>
      var g := Grown(s, needed, memory).value;
      && Sound(g) && needed <= g.capacity
      && g == s.(capacity := g.capacity, copied := g.copied, largest := g.largest)
      && (needed <= s.capacity ==> g == s)
    ensures Grown(s, needed, memory).None? ==> s.capacity < needed && (!memory || 2 * needed > U64)
  {
    DoublingFits(StartCapacity(s.capacity), needed);
  }

  lemma SoundShape(s: State)
    requires Sound(s)
    ensures s.pos <= |s.bytes| <= s.capacity < U64
  {
  }

  lemma {:induction false} MoveIsSound(s: State, next: nat, memory: bool)
    requires Sound(s) && next < U64
    ensures Sound(MovedTo(s, next, memory))
  {
    hide Grown;
    GrowthIsSound(s, next, memory);
  }

  lemma {:induction false} WriteIsSound(s: State, src: seq<byte>, memory: bool)
    requires Sound(s)
    ensures Sound(AfterWrite(s, src, memory))
  {
    hide Grown;
    if s.pos + |src| < U64 {
      GrowthIsSound(s, s.pos + |src|, memory);
    }
  }

  /** Every operation keeps the cursor, the length and the cost of growing in bounds. */
  lemma {:induction false} StepIsSound(s: State, op: Operation)
    requires Sound(s)
    ensures Sound(Step(s, op))
  {
    match op
    case Read(count) =>
    case Write(src, memory) =>
      WriteIsSound(s, src, memory);
    case Seek(offset, origin, memory) =>
      hide Sound, MovedTo;
      var base := Base(s, origin);
      if base.Some? && base.value + offset < U64 {
        MoveIsSound(s, base.value + offset, memory);
      }
  }

  function Run(s: State, ops: seq<Operation>): State
    requires Sound(s)
    ensures Sound(Run(s, ops))
    decreases |ops|
  {
    if ops == [] then s
    else
      StepIsSound(s, ops[0]);
      Run(Step(s, ops[0]), ops[1..])
  }

  /** The byte the operation stores at k, when it is a write that succeeds. */
  function Stored(s: State, op: Operation, k: nat): Option<byte>
    requires s.pos <= |s.bytes|
  {
    if op.Write? && Succeeds(s, op) && s.pos <= k < s.pos + |op.src| then Some(op.src[k - s.pos]) else None
  }

  predicate Succeeds(s: State, op: Operation) {
    match op
    case Read(_) => true
    case Write(src, memory) =>
      s.writable && s.pos + |src| < U64 && Grown(s, s.pos + |src|, memory).Some?
    case Seek(offset, origin, memory) => SeekOk(s, offset, origin, memory)
  }

  /** Failing changes nothing but the error flag; reading and seeking never change a byte. */
  lemma {:induction false} StepBytes(s: State, op: Operation, k: nat)
    requires Sound(s)
    ensures !Succeeds(s, op) ==> Step(s, op) == s.(error := Step(s, op).error)
    ensures !s.writable ==> Step(s, op).bytes == s.bytes && Step(s, op).error == s.error
    ensures At(Step(s, op), k) == match Stored(s, op, k) case Some(b) => b case None => At(s, k)
    ensures |s.bytes| <= |Step(s, op).bytes|
  {
    hide Doubling, Overwritten;
    var t := Step(s, op);
    if op.Write? && Succeeds(s, op) {
      assert t.bytes == Overwritten(s.bytes, s.pos, op.src);
      OverwrittenAt(s.bytes, s.pos, op.src, k);
    }
  }

  /** What a successful write stored is what is read back from where it started. */
  lemma {:induction false} WriteThenRead(s: State, src: seq<byte>, memory: bool, memory': bool)
    requires Sound(s) && Succeeds(s, Write(src, memory))
    ensures
      var t := AfterSeek(AfterWrite(s, src, memory), s.pos, FromStart, memory');
      && Available(t, |src|) == |src|
      && t.pos + |src| <= |t.bytes|
      && t.bytes[t.pos..t.pos + |src|] == src
  {
    hide Grown;
    GrowthIsSound(s, s.pos + |src|, memory);
  }

  /** The bytes that a read delivers. */
  function Delivered(s: State, count: nat): seq<byte> {
    if s.pos <= |s.bytes| then s.bytes[s.pos..s.pos + Available(s, count)] else []
  }

  /** A read delivers all it is asked for or all that is left. */
  lemma DeliveredIsAll(s: State, count: nat)
    requires Sound(s)
    ensures Delivered(s, count) <= s.bytes[s.pos..] && AfterRead(s, count).pos == s.pos + |Delivered(s, count)|
    ensures |Delivered(s, count)| == count || (|Delivered(s, count)| < count && AfterRead(s, count).pos == |s.bytes|)
    ensures AfterRead(s, count) == s.(pos := AfterRead(s, count).pos)
  {
    assert Delivered(s, count) == s.bytes[s.pos..][..Available(s, count)];
  }

  /** Two reads in a row deliver consecutive bytes: what one read of both lengths delivers. */
  lemma ReadsJoin(s: State, a: nat, b: nat)
    requires Sound(s)
    ensures Delivered(s, a) + Delivered(AfterRead(s, a), b) == Delivered(s, a + b)
    ensures AfterRead(AfterRead(s, a), b) == AfterRead(s, a + b)
  {
  }

  /** Two successful writes in a row store what one write of both texts does. */
  lemma {:induction false} WritesJoin(s: State, a: seq<byte>, b: seq<byte>, memory: bool, memory': bool)
    requires Sound(s) && Succeeds(s, Write(a, memory)) && Succeeds(AfterWrite(s, a, memory), Write(b, memory'))
    ensures
      var t := AfterWrite(AfterWrite(s, a, memory), b, memory');
      t.pos == s.pos + |a| + |b| && t.bytes == Overwritten(s.bytes, s.pos, a + b)
  {
    hide Grown;
    GrowthIsSound(s, s.pos + |a|, memory);
    WriteIsSound(s, a, memory);
    var s1 := AfterWrite(s, a, memory);
    GrowthIsSound(s1, s1.pos + |b|, memory');
    hide Overwritten;
    OverwrittenTwice(s.bytes, s.pos, a, b);
  }

  lemma OverwrittenTwice(bytes: seq<byte>, pos: nat, a: seq<byte>, b: seq<byte>)
    requires pos <= |bytes|
    ensures
      var r := Overwritten(bytes, pos, a);
      pos + |a| <= |r| && Overwritten(r, pos + |a|, b) == Overwritten(bytes, pos, a + b)
  {
    var r := Overwritten(bytes, pos, a);
    OverwrittenLength(bytes, pos, a);
    OverwrittenLength(r, pos + |a|, b);
    OverwrittenLength(bytes, pos, a + b);
    var x, y := Overwritten(r, pos + |a|, b), Overwritten(bytes, pos, a + b);
    forall k | 0 <= k < |x|
      ensures x[k] == y[k]
    {
      hide Overwritten;
      OverwrittenAt(bytes, pos, a, k);
      OverwrittenAt(r, pos + |a|, b, k);
      OverwrittenAt(bytes, pos, a + b, k);
    }
  }

  lemma OverwrittenLength(bytes: seq<byte>, pos: nat, src: seq<byte>)
    requires pos <= |bytes|
    ensures |Overwritten(bytes, pos, src)| == if pos + |src| < |bytes| then |bytes| else pos + |src|
  {
  }

  /**
   A seek lands the offset away from the start, the cursor or the end. Up to the end nothing
   else changes; beyond it the file has become exactly that long, with zeros.
   */
  lemma {:induction false} SeekLands(s: State, offset: nat, origin: Origin, memory: bool)
    requires Sound(s) && SeekOk(s, offset, origin, memory)
    ensures
      var t := AfterSeek(s, offset, origin, memory);
      && !origin.Unknown? && (origin.FromStart? ==> t.pos == offset)
      && (origin.FromCursor? ==> t.pos == s.pos + offset) && (origin.FromEnd? ==> t.pos == |s.bytes| + offset)
      && (t.pos <= |s.bytes| ==> t == s.(pos := t.pos))
      && (t.pos > |s.bytes| ==> s.writable && |t.bytes| == t.pos && s.bytes <= t.bytes)
      && forall k :: |s.bytes| <= k < |t.bytes| ==> t.bytes[k] == 0
  {
    hide Grown;
    GrowthIsSound(s, Base(s, origin).value + offset, memory);
  }

  /** A seek is refused for an unknown origin, a place past 64 bits, or one past the end that cannot be made. */
  lemma {:induction false} SeekRefused(s: State, offset: nat, origin: Origin, memory: bool)
    requires Sound(s)
    ensures
      var from := if origin.FromCursor? then s.pos else if origin.FromEnd? then |s.bytes| else 0;
      SeekOk(s, offset, origin, memory) <==>
      && !origin.Unknown? && from + offset < U64
      && (from + offset <= |s.bytes|
          || (s.writable && (from + offset <= s.capacity
                             || (memory && Doubling(StartCapacity(s.capacity), from + offset).Some?))))
  {
    hide Doubling;
  }

  /** A failed write to a writable file is remembered until the end, so that closing stores nothing. */
  lemma {:induction false} FailureSticks(s: State, op: Operation, ops: seq<Operation>)
    requires Sound(s) && Sound(Step(s, op)) && op.Write? && s.writable && !Succeeds(s, op)
    ensures Run(Step(s, op), ops).error
  {
    hide Grown;
    ErrorSticks(Step(s, op), ops);
  }

  lemma {:induction false} ErrorSticks(s: State, ops: seq<Operation>)
    requires Sound(s) && s.error
    ensures Run(s, ops).error
    decreases |ops|
  {
    hide Step;
    if ops != [] {
      StepIsSound(s, ops[0]);
      ErrorStays(s, ops[0]);
      ErrorSticks(Step(s, ops[0]), ops[1..]);
    }
  }

  lemma ErrorStays(s: State, op: Operation)
    requires Sound(s) && s.error
    ensures Step(s, op).error
  {
    hide Doubling;
  }

  lemma OverwrittenAt(bytes: seq<byte>, pos: nat, src: seq<byte>, k: nat)
    requires pos <= |bytes|
    ensures
      var r := Overwritten(bytes, pos, src);
      && |r| == (if pos + |src| < |bytes| then |bytes| else pos + |src|)
      && (k < |r| ==> r[k] == if pos <= k < pos + |src| then src[k - pos] else bytes[k])
  {
  }

  /** The byte the last write covering k stored there, if any did. */
  function LastStored(s: State, ops: seq<Operation>, k: nat): Option<byte>
    requires Sound(s)
    decreases |ops|
  {
    if ops == [] then None
    else
      StepIsSound(s, ops[0]);
      var later := LastStored(Step(s, ops[0]), ops[1..], k);
      if later.Some? then later else Stored(s, ops[0], k)
  }

  /** After any run every byte is the last one written there, or else what it was. */
  lemma {:induction false} RunBytes(s: State, ops: seq<Operation>, k: nat)
    requires Sound(s)
    ensures At(Run(s, ops), k) == match LastStored(s, ops, k) case Some(b) => b case None => At(s, k)
    ensures |s.bytes| <= |Run(s, ops).bytes|
    ensures !s.writable ==> Run(s, ops).bytes == s.bytes
    decreases |ops|
  {
    hide Step, At, Stored;
    if ops != [] {
      StepIsSound(s, ops[0]);
      StepBytes(s, ops[0], k);
      StaysWritable(s, ops[0]);
      RunBytes(Step(s, ops[0]), ops[1..], k);
    }
  }

  lemma StaysWritable(s: State, op: Operation)
    requires Sound(s)
    ensures Step(s, op).writable == s.writable && Step(s, op).initial == s.initial
  {
    hide Doubling;
  }

  /** Over any run, growth has moved at most as many bytes as the buffer now holds. */
  lemma {:induction false} RunCost(initial: seq<byte>, writable: bool, ops: seq<Operation>)
    requires |initial| < U64
    ensures
      var t := Run(Fresh(initial, writable), ops);
      && t.copied <= t.capacity
      && (t.capacity == |initial| || t.capacity == FIRST_CAPACITY || t.capacity < 2 * t.largest)
      && t.pos <= |t.bytes| <= t.capacity
  {
    RunInitial(Fresh(initial, writable), ops);
  }

  function Fresh(initial: seq<byte>, writable: bool): State {
    State(initial, 0, |initial|, writable, false, 0, 0, |initial|)
  }

  lemma {:induction false} RunInitial(s: State, ops: seq<Operation>)
    requires Sound(s)
    ensures Run(s, ops).initial == s.initial
    decreases |ops|
  {
    hide Step;
    if ops != [] {
      StepIsSound(s, ops[0]);
      StaysWritable(s, ops[0]);
      RunInitial(Step(s, ops[0]), ops[1..]);
    }
  }

  // ----- the buffer

  class File {
    var data: array<byte>
    var size: nat
    var pos: nat
    var writable: bool
    var error: bool
    ghost var copied: nat
    ghost var largest: nat
    ghost var initial: nat

    ghost predicate Valid()
      reads this, data
    {
      size <= data.Length && Sound(Model())
    }

    ghost function Model(): State
      requires size <= data.Length
      reads this, data
    {
      State(data[..size], pos, data.Length, writable, error, copied, largest, initial)
    }

    /** cleonos_mz_open64 for a path whose bytes could be read, or for a new file. */
    constructor (content: seq<byte>, writable: bool)
      requires |content| < U64
      ensures Valid() && fresh(data) && Model() == Fresh(content, writable)
    {
      data := new byte[|content|](i requires 0 <= i < |content| => content[i]);
      size := |content|;
      pos := 0;
      this.writable := writable;
      error := false;
      copied := 0;
      largest := 0;
      initial := |content|;
      new;
      assert data[..size] == content;
    }

    /** cleonos_mz_grow; `memory` tells whether the allocation succeeds. */
    method Grow(needed: nat, memory: bool) returns (ok: bool)
      requires Valid() && needed < U64
      modifies this
      ensures Valid() && (data == old(data) || fresh(data))
      ensures ok == Grown(old(Model()), needed, memory).Some?
      ensures Model() == if ok then Grown(old(Model()), needed, memory).value else old(Model())
      ensures ok ==> needed <= data.Length && pos == old(pos) && size == old(size)
    {
      hide Sound;
      SoundShape(Model());
      GrowthIsSound(Model(), needed, memory);
      if needed <= data.Length {
        return true;
      }
      var next := if data.Length != 0 then data.Length else FIRST_CAPACITY;
      while next < needed
        invariant 0 < next < U64
        invariant Doubling(next, needed) == Doubling(StartCapacity(data.Length), needed)
      {
        var doubled := next * 2 % U64;
        if doubled <= next {
          return false;
        }
        next := doubled;
      }
      if !memory {
        return false;
      }
      Relocate(next);
      largest := if largest < needed then needed else largest;
      return true;
    }

    /** The allocation and copy at the end of cleonos_mz_grow. */
    method Relocate(capacity: nat)
      requires size <= data.Length <= capacity
      modifies this`data, this`copied
      ensures fresh(data) && size <= data.Length
      ensures Model() == old(Model()).(capacity := capacity, copied := old(copied) + size)
    {
      var buffer := new byte[capacity];
      forall i | 0 <= i < size {
        buffer[i] := data[i];
      }
      assert buffer[..size] == data[..size];
      data := buffer;
      copied := copied + size;
    }

    /** The copy and the cursor update at the end of cleonos_mz_write. */
    method Store(src: seq<byte>)
      requires pos <= size <= data.Length && pos + |src| <= data.Length
      modifies this`pos, this`size, data
      ensures size <= data.Length
      ensures Model() == old(Model()).(bytes := Overwritten(old(Model().bytes), old(pos), src), pos := old(pos) + |src|)
    {
      ghost var before := data[..size];
      forall i | 0 <= i < |src| {
        data[pos + i] := src[i];
      }
      var end := pos + |src|;
      pos := end;
      if pos > size {
        size := pos;
      }
      assert data[..size] == Overwritten(before, old(pos), src);
    }

    /** The zero fill at the end of cleonos_mz_seek64. */
    method Extend(next: nat)
      requires size < next <= data.Length
      modifies this`size, data
      ensures size <= data.Length
      ensures Model() == old(Model()).(bytes := old(Model().bytes) + Zeros(next - old(size)))
    {
      ghost var before := data[..size];
      forall i | size <= i < next {
        data[i] := 0;
      }
      assert data[..next] == before + Zeros(next - size);
      size := next;
    }

    /** cleonos_mz_read into a caller's buffer. */
    method Read(buffer: array<byte>, count: nat) returns (n: nat)
      requires Valid() && count <= buffer.Length && buffer != data
      modifies this`pos, buffer
      ensures Valid() && n == Available(old(Model()), count) && Model() == AfterRead(old(Model()), count)
      ensures buffer[..n] == Delivered(old(Model()), count) && buffer[n..] == old(buffer[n..])
    {
      if count == 0 || pos >= size {
        return 0;
      }
      var available := size - pos;
      n := if count < available then count else available;
      forall i | 0 <= i < n {
        buffer[i] := data[pos + i];
      }
      pos := pos + n;
    }

    /** cleonos_mz_write. */
    method Write(src: seq<byte>, memory: bool) returns (n: nat)
      requires Valid() && |src| < U64
      modifies this, data
      ensures Valid() && (data == old(data) || fresh(data))
      ensures Model() == AfterWrite(old(Model()), src, memory)
      ensures n == if Succeeds(old(Model()), Operation.Write(src, memory)) then |src| else 0
    {
      hide Grown, Overwritten, Sound;
      SoundShape(Model());
      WriteIsSound(Model(), src, memory);
      if pos + |src| < U64 {
        GrowthIsSound(Model(), pos + |src|, memory);
      }
      if !writable {
        return 0;
      }
      var end := (pos + |src|) % U64;
      if end < pos {
        error := true;
        return 0;
      }
      var ok := Grow(end, memory);
      if !ok {
        error := true;
        return 0;
      }
      Store(src);
      return |src|;
    }

    /** The part of cleonos_mz_seek64 after the target offset is known. */
    method MoveTo(next: nat, memory: bool) returns (ok: bool)
      requires Valid() && next < U64
      modifies this, data
      ensures Valid() && (data == old(data) || fresh(data))
      ensures Model() == MovedTo(old(Model()), next, memory)
      ensures ok == CanMoveTo(old(Model()), next, memory)
    {
      hide Grown, Zeros, Sound;
      SoundShape(Model());
      GrowthIsSound(Model(), next, memory);
      MoveIsSound(Model(), next, memory);
      if next > size && !writable {
        return false;
      }
      if next > data.Length {
        var grown := Grow(next, memory);
        if !grown {
          error := true;
          return false;
        }
      }
      if next > size {
        Extend(next);
      }
      pos := next;
      return true;
    }

    /** cleonos_mz_seek64; the answer is the C result 0 or -1. */
    method Seek(offset: nat, origin: Origin, memory: bool) returns (r: int)
      requires Valid() && offset < U64
      modifies this, data
      ensures Valid() && (data == old(data) || fresh(data))
      ensures Model() == AfterSeek(old(Model()), offset, origin, memory)
      ensures r == if SeekOk(old(Model()), offset, origin, memory) then 0 else -1
    {
      hide MovedTo, CanMoveTo, Sound;
      SoundShape(Model());
      var start: nat;
      match origin {
        case FromStart => start := 0;
        case FromCursor => start := pos;
        case FromEnd => start := size;
        case Unknown => return -1;
      }
      var next := (start + offset) % U64;
      if next < start {
        return -1;
      }
      var ok := MoveTo(next, memory);
      return if ok then 0 else -1;
    }

    /**
     cleonos_mz_close: what is written to the file's path, if anything, and the C result 0
     or -1. `stored` says whether the kernel stores it; for a success it reports the number
     of bytes, but 1 for an empty file. So closing an empty writable file answers -1
     exactly when the file was stored.
     */
    method Close(stored: bool) returns (r: int, flushed: Option<seq<byte>>)
      requires Valid()
      ensures flushed == if writable && !error then Some(Model().bytes) else None
      ensures r == 0 || r == -1
      ensures r == 0 <==> !writable || error || (stored <==> Model().bytes != [])
    {
      var ok := true;
      flushed := None;
      if writable && !error {
        flushed := Some(data[..size]);
        var wrote := if !stored then 0 else if size == 0 then 1 else size;
        ok := wrote == size;
      }
      r := if ok then 0 else -1;
    }
  }
}
