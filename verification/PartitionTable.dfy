/**
 The partition editor: four 16-byte entries edited in place in a 512-byte sector, specified on
 the decoded table.
 */
module PartitionTable {
  import opened Bytes
  import opened LittleEndian
  import opened Options

  const SECTOR: nat := 512
  const TABLE: nat := 446
  const SIGNATURE_AT: nat := 510

  // ----- entries and tables

  datatype Entry = Entry(boot: byte, first: seq<byte>, kind: byte, last: seq<byte>, start: nat, size: nat)

  datatype Table = Table(code: seq<byte>, entries: seq<Entry>, signature: seq<byte>)

  function Offset(i: nat): nat { TABLE + 16 * i }

  function Slice(s: seq<byte>, i: nat): (b: seq<byte>)
    requires |s| == SECTOR && i < 4
    ensures |b| == 16
  {
    s[Offset(i)..Offset(i) + 16]
  }

  function EntryOf(b: seq<byte>): Entry
    requires |b| == 16
  {
    Entry(b[0], b[1..4], b[4], b[5..8], Word(b[8..12]), Word(b[12..16]))
  }

  function Decode(s: seq<byte>): (t: Table)
    requires |s| == SECTOR
    ensures |t.entries| == 4 && |t.signature| == 2 && |t.code| == TABLE
  {
    Table(s[..TABLE], seq(4, i requires 0 <= i < 4 => EntryOf(Slice(s, i))), s[SIGNATURE_AT..])
  }

  /** Where the fields of a sector are: the format of a master boot record. */
  lemma {:induction false} DecodedBytes(s: seq<byte>, i: nat)
    requires |s| == 512 && i < 4
    ensures
      var e, at := Decode(s).entries[i], 446 + 16 * i;
      && e.boot == s[at] && e.kind == s[at + 4] && e.first == s[at + 1..at + 4] && e.last == s[at + 5..at + 8]
      && e.start == s[at + 8] as nat + 256 * (s[at + 9] as nat) + 0x1_0000 * (s[at + 10] as nat)
                    + 0x100_0000 * (s[at + 11] as nat)
      && e.size == s[at + 12] as nat + 256 * (s[at + 13] as nat) + 0x1_0000 * (s[at + 14] as nat)
                   + 0x100_0000 * (s[at + 15] as nat)
    ensures Decode(s).signature == SIGNATURE <==> s[510] == 0x55 && s[511] == 0xAA
  {
    var b := Slice(s, i);
    var at := 446 + 16 * i;
    assert forall k :: 0 <= k < 16 ==> b[k] == s[at + k];
    assert b[1..4] == s[at + 1..at + 4] && b[5..8] == s[at + 5..at + 8];
    assert Decode(s).signature == [s[510], s[511]];
  }

  const EMPTY := Entry(0, [0, 0, 0], 0, [0, 0, 0], 0, 0)

  const BOOTED := 0x80 as byte

  const SIGNATURE: seq<byte> := [0x55, 0xAA]

  function NewEntry(start: nat, sectors: nat, kind: byte, boot: bool): Entry {
    Entry(if boot then BOOTED else 0, [0xFF, 0xFF, 0xFF], kind, [0xFF, 0xFF, 0xFF], start, sectors)
  }

  // ----- what the commands mean

  /** The sector with number k belongs to the entry. */
  predicate Holds(e: Entry, k: nat) { e.start <= k < e.start + e.size }

  predicate Overlaps(e: Entry, start: nat, sectors: nat) {
    e.size != 0 && start < e.start + e.size && e.start < start + sectors
  }

  lemma {:induction false} OverlapIsShared(e: Entry, start: nat, sectors: nat)
    requires sectors > 0
    ensures Overlaps(e, start, sectors) <==> exists k: nat :: Holds(e, k) && start <= k < start + sectors
  {
    if Overlaps(e, start, sectors) {
      var k := if e.start < start then start else e.start;
      assert Holds(e, k) && start <= k < start + sectors;
    }
  }

  datatype Command =
    | InitMbr
    | Create(index: nat, start: nat, sectors: nat, kind: nat, boot: nat)
    | Delete(index: nat)
    | SetBoot(index: nat, value: nat)

  predicate Accepts(t: Table, disk: nat, c: Command)
    requires |t.entries| == 4
  {
    match c
    case InitMbr => true
    case Delete(index) => 1 <= index <= 4
    case SetBoot(index, value) => 1 <= index <= 4 && value <= 1
    case Create(index, start, sectors, kind, boot) =>
      && 1 <= index <= 4 && boot <= 1 && kind < 256
      && 0 < start < U32 && 0 < sectors < U32 && start + sectors <= disk
      && forall i :: 0 <= i < 4 && i != index - 1 ==> !Overlaps(t.entries[i], start, sectors)
  }

  /** Every boot flag cleared but the one of the kept entry. */
  function ClearedBut(entries: seq<Entry>, keep: nat): (r: seq<Entry>)
    ensures |r| == |entries|
  {
    seq(|entries|, i requires 0 <= i < |entries| => if i == keep then entries[i] else entries[i].(boot := 0))
  }

  function Edited(t: Table, disk: nat, c: Command): Table
    requires |t.entries| == 4 && Accepts(t, disk, c)
  {
    match c
    case InitMbr => Table(seq(TABLE, _ => 0), seq(4, _ => EMPTY), SIGNATURE)
    case Delete(index) => Table(t.code, t.entries[index - 1 := EMPTY], SIGNATURE)
    case SetBoot(index, value) =>
      var entries := if value == 1 then ClearedBut(t.entries, index - 1) else t.entries;
      var flag := if value == 1 then BOOTED else 0;
      Table(t.code, entries[index - 1 := entries[index - 1].(boot := flag)], SIGNATURE)
    case Create(index, start, sectors, kind, boot) =>
      var entries := if boot == 1 then ClearedBut(t.entries, 4) else t.entries;
      Table(t.code, entries[index - 1 := NewEntry(start, sectors, kind as byte, boot == 1)], SIGNATURE)
  }

  // ----- every run

  ghost predicate Disjoint(d: Entry, e: Entry) {
    forall k: nat :: !(Holds(d, k) && Holds(e, k))
  }

  /** No sector is shared, and everything lies on the disk after the first sector. */
  ghost predicate Spaced(entries: seq<Entry>, disk: nat) {
    && (forall i, j :: 0 <= i < j < |entries| ==> Disjoint(entries[i], entries[j]))
    && (forall i :: 0 <= i < |entries| && entries[i].size != 0 ==> OnDisk(entries[i], disk))
  }

  /** At most one entry is flagged for booting. */
  predicate OneBoot(entries: seq<Entry>) {
    && (forall i :: 0 <= i < |entries| ==> entries[i].boot == 0 || entries[i].boot == BOOTED)
    && (forall i, j :: 0 <= i < j < |entries| ==> entries[i].boot == 0 || entries[j].boot == 0)
  }

  ghost predicate Sane(t: Table, disk: nat) {
    |t.entries| == 4 && t.signature == SIGNATURE && Spaced(t.entries, disk) && OneBoot(t.entries)
  }

  predicate OnDisk(e: Entry, disk: nat) { 1 <= e.start && e.start + e.size <= disk }

  function Step(t: Table, disk: nat, c: Command, device: bool): (r: Table)
    requires |t.entries| == 4
    ensures |r.entries| == 4
  {
    if device && Accepts(t, disk, c) then Edited(t, disk, c) else t
  }

  function Run(t: Table, disk: nat, cs: seq<(Command, bool)>): (r: Table)
    requires |t.entries| == 4
    ensures |r.entries| == 4
    decreases |cs|
  {
    if cs == [] then t else Run(Step(t, disk, cs[0].0, cs[0].1), disk, cs[1..])
  }

  lemma {:induction false} FlagsKeepSpaced(before: seq<Entry>, after: seq<Entry>, disk: nat)
    requires Spaced(before, disk) && |after| == |before|
    requires forall i :: 0 <= i < |after| ==> after[i].start == before[i].start && after[i].size == before[i].size
    ensures Spaced(after, disk)
  {
    forall i, j | 0 <= i < j < |after|
      ensures Disjoint(after[i], after[j])
    {
      assert Disjoint(before[i], before[j]);
      forall k: nat
        ensures !(Holds(after[i], k) && Holds(after[j], k))
      {
        assert !(Holds(before[i], k) && Holds(before[j], k));
      }
    }
  }

  /** Replacing one entry by one that meets no other keeps them apart. */
  lemma {:induction false} ReplaceKeepsSpaced(entries: seq<Entry>, index: nat, e: Entry, disk: nat)
    requires Spaced(entries, disk) && index < |entries|
    requires e.size == 0 || OnDisk(e, disk)
    requires forall i :: 0 <= i < |entries| && i != index ==> !Overlaps(entries[i], e.start, e.size)
    ensures Spaced(entries[index := e], disk)
  {
    hide OnDisk;
    forall i | 0 <= i < |entries| && i != index
      ensures Disjoint(entries[i], e) && Disjoint(e, entries[i])
    {
      assert !Overlaps(entries[i], e.start, e.size);
    }
  }

  lemma {:induction false} CreateKeepsSane(t: Table, disk: nat, c: Command)
    requires Sane(t, disk) && c.Create? && Accepts(t, disk, c)
    ensures Sane(Edited(t, disk, c), disk)
  {
    var entries := if c.boot == 1 then ClearedBut(t.entries, 4) else t.entries;
    var e := NewEntry(c.start, c.sectors, c.kind as byte, c.boot == 1);
    assert OneBoot(entries[c.index - 1 := e]);
    hide OneBoot;
    assert Spaced(entries, disk) by {
      FlagsKeepSpaced(t.entries, entries, disk);
    }
    hide Spaced;
    ReplaceKeepsSpaced(entries, c.index - 1, e, disk);
  }

  lemma {:induction false} SetBootKeepsSane(t: Table, disk: nat, c: Command)
    requires Sane(t, disk) && c.SetBoot? && Accepts(t, disk, c)
    ensures Sane(Edited(t, disk, c), disk)
  {
    hide Spaced;
    FlagsKeepSpaced(t.entries, Edited(t, disk, c).entries, disk);
  }

  lemma {:induction false} DeleteKeepsSane(t: Table, disk: nat, c: Command)
    requires Sane(t, disk) && c.Delete? && Accepts(t, disk, c)
    ensures Sane(Edited(t, disk, c), disk)
  {
    hide Spaced;
    EmptyMeetsNone(t.entries);
    ReplaceKeepsSpaced(t.entries, c.index - 1, EMPTY, disk);
  }

  lemma EmptyMeetsNone(entries: seq<Entry>)
    ensures forall i :: 0 <= i < |entries| ==> !Overlaps(entries[i], EMPTY.start, EMPTY.size)
  {
  }

  lemma {:induction false} StepKeepsSane(t: Table, disk: nat, c: Command, device: bool)
    requires Sane(t, disk)
    ensures Sane(Step(t, disk, c, device), disk)
    ensures c.InitMbr? || Step(t, disk, c, device).code == t.code
  {
    hide Accepts;
    if device && Accepts(t, disk, c) {
      match c
      case InitMbr => InitIsSane(t, disk);
      case Create(_, _, _, _, _) => CreateKeepsSane(t, disk, c);
      case Delete(_) => DeleteKeepsSane(t, disk, c);
      case SetBoot(_, _) => SetBootKeepsSane(t, disk, c);
    }
  }

  /** From an initialised sector, no sequence of commands and device failures breaks the table. */
  lemma {:induction false} RunKeepsSane(t: Table, disk: nat, cs: seq<(Command, bool)>)
    requires Sane(t, disk)
    ensures Sane(Run(t, disk, cs), disk)
    ensures (forall c :: c in cs ==> !c.0.InitMbr?) ==> Run(t, disk, cs).code == t.code
    decreases |cs|
  {
    hide Spaced, OneBoot;
    if cs != [] {
      StepKeepsSane(t, disk, cs[0].0, cs[0].1);
      RunKeepsSane(Step(t, disk, cs[0].0, cs[0].1), disk, cs[1..]);
    }
  }

  lemma {:induction false} InitIsSane(t: Table, disk: nat)
    requires |t.entries| == 4
    ensures Sane(Step(t, disk, InitMbr, true), disk)
  {
  }

  // ----- editing the bytes

  /** The sector with the bytes of one entry replaced. */
  function PutEntry(s: seq<byte>, i: nat, b: seq<byte>): (r: seq<byte>)
    requires |s| == SECTOR && i < 4 && |b| == 16
    ensures |r| == SECTOR
  {
    s[..Offset(i)] + b + s[Offset(i) + 16..]
  }

  lemma {:induction false} PutSlices(s: seq<byte>, i: nat, b: seq<byte>, j: nat)
    requires |s| == SECTOR && i < 4 && j < 4 && |b| == 16
    ensures Slice(PutEntry(s, i, b), j) == if j == i then b else Slice(s, j)
  {
  }

  lemma {:induction false} PutDecode(s: seq<byte>, i: nat, b: seq<byte>)
    requires |s| == SECTOR && i < 4 && |b| == 16
    ensures Decode(PutEntry(s, i, b)) == Decode(s).(entries := Decode(s).entries[i := EntryOf(b)])
  {
    var r := PutEntry(s, i, b);
    assert r[..TABLE] == s[..TABLE] && r[SIGNATURE_AT..] == s[SIGNATURE_AT..];
    hide PutEntry, Slice, EntryOf;
    forall j | 0 <= j < 4
      ensures Decode(r).entries[j] == Decode(s).entries[i := EntryOf(b)][j]
    {
      PutSlices(s, i, b, j);
    }
    assert Decode(r).entries == Decode(s).entries[i := EntryOf(b)];
  }

  lemma {:induction false} FlagDecode(s: seq<byte>, i: nat, flag: byte)
    requires |s| == SECTOR && i < 4
    ensures Decode(s[Offset(i) := flag]) ==
      Decode(s).(entries := Decode(s).entries[i := Decode(s).entries[i].(boot := flag)])
  {
    var b := Slice(s, i)[0 := flag];
    assert s[Offset(i) := flag] == PutEntry(s, i, b);
    assert b[1..4] == Slice(s, i)[1..4] && b[5..8] == Slice(s, i)[5..8];
    assert b[8..12] == Slice(s, i)[8..12] && b[12..16] == Slice(s, i)[12..16];
    hide Slice, PutEntry;
    PutDecode(s, i, b);
  }

  lemma {:induction false} SignDecode(s: seq<byte>)
    requires |s| == SECTOR
    ensures Decode(s[SIGNATURE_AT := 0x55][SIGNATURE_AT + 1 := 0xAA]) == Decode(s).(signature := SIGNATURE)
  {
    var r := s[SIGNATURE_AT := 0x55][SIGNATURE_AT + 1 := 0xAA];
    assert r[..TABLE] == s[..TABLE] && r[SIGNATURE_AT..] == SIGNATURE;
    forall j | 0 <= j < 4
      ensures Slice(r, j) == Slice(s, j)
    {
    }
    hide Slice, EntryOf;
    assert Decode(r).entries == Decode(s).entries;
  }

  /** partctl_write_u32_le. */
  method WriteU32(sector: array<byte>, at: nat, value: nat)
    requires at + 4 <= sector.Length
    modifies sector
    ensures sector[..] == old(sector[..at]) + WordBytes(value) + old(sector[at + 4..])
  {
    sector[at] := (value % 256) as byte;
    sector[at + 1] := (value / 0x100 % 256) as byte;
    sector[at + 2] := (value / 0x1_0000 % 256) as byte;
    sector[at + 3] := (value / 0x100_0000 % 256) as byte;
  }

  /** partctl_read_u32_le. */
  method ReadU32(sector: array<byte>, at: nat) returns (value: nat)
    requires at + 4 <= sector.Length
    ensures value == Word(sector[at..at + 4])
  {
    value := sector[at] as nat + sector[at + 1] as nat * 0x100 + sector[at + 2] as nat * 0x1_0000
             + sector[at + 3] as nat * 0x100_0000;
  }

  /** partctl_check_overlap. */
  method CheckOverlap(sector: array<byte>, skip: nat, start: nat, sectors: nat) returns (free: bool)
    requires sector.Length == SECTOR
    ensures free <==> forall i :: 0 <= i < 4 && i != skip ==> !Overlaps(Decode(sector[..]).entries[i], start, sectors)
  {
    var end := start + sectors;
    for i := 0 to 4
      invariant forall j :: 0 <= j < i && j != skip ==> !Overlaps(Decode(sector[..]).entries[j], start, sectors)
    {
      if i == skip {
        continue;
      }
      var off := TABLE + i * 16;
      var entryStart := ReadU32(sector, off + 8);
      var entrySize := ReadU32(sector, off + 12);
      assert Slice(sector[..], i)[8..12] == sector[off + 8..off + 12];
      assert Slice(sector[..], i)[12..16] == sector[off + 12..off + 16];
      assert Decode(sector[..]).entries[i].start == entryStart && Decode(sector[..]).entries[i].size == entrySize;
      if entrySize == 0 {
        continue;
      }
      var entryEnd := entryStart + entrySize;
      if !(end <= entryStart || start >= entryEnd) {
        return false;
      }
    }
    return true;
  }

  /** The loop over the boot flags in set-boot (keeping one) and in create (keeping none). */
  method ClearBoots(sector: array<byte>, keep: nat)
    requires sector.Length == SECTOR
    modifies sector
    ensures Decode(sector[..]) ==
      var t := Decode(old(sector[..]));
      t.(entries := ClearedBut(t.entries, keep))
  {
    ghost var t := Decode(sector[..]);
    for i := 0 to 4
      invariant Decode(sector[..]) == t.(entries := ClearedBut(t.entries[..i], keep) + t.entries[i..])
    {
      hide Decode;
      if i != keep {
        FlagDecode(sector[..], i, 0);
        ghost var before := sector[..];
        sector[TABLE + i * 16] := 0;
        assert sector[..] == before[Offset(i) := 0];
      }
      ClearedStep(t.entries, keep, i);
    }
    assert t.entries[..4] == t.entries;
  }

  lemma {:induction false} ClearedStep(entries: seq<Entry>, keep: nat, i: nat)
    requires i < |entries|
    ensures
      var now := ClearedBut(entries[..i], keep) + entries[i..];
      && now[i] == entries[i]
      && ClearedBut(entries[..i + 1], keep) + entries[i + 1..]
         == if i == keep then now else now[i := now[i].(boot := 0)]
  {
  }

  /** partctl_mbr_ensure_signature. */
  method EnsureSignature(sector: array<byte>)
    requires sector.Length == SECTOR
    modifies sector
    ensures Decode(sector[..]) == Decode(old(sector[..])).(signature := SIGNATURE)
  {
    ghost var before := sector[..];
    SignDecode(before);
    sector[SIGNATURE_AT] := 0x55;
    sector[SIGNATURE_AT + 1] := 0xAA;
    assert sector[..] == before[SIGNATURE_AT := 0x55][SIGNATURE_AT + 1 := 0xAA];
  }

  /** ush_zero over part of the sector. */
  method Zero(sector: array<byte>, at: nat, count: nat)
    requires at + count <= sector.Length
    modifies sector
    ensures sector[..] == old(sector[..at]) + seq(count, _ => 0) + old(sector[at + count..])
  {
    for i := 0 to count
      invariant sector[..] == old(sector[..at]) + seq(i, _ => 0) + old(sector[at + i..])
    {
      sector[at + i] := 0;
    }
  }

  function EntryBytes(start: nat, sectors: nat, kind: byte, boot: bool): (b: seq<byte>)
    ensures |b| == 16
  {
    [if boot then BOOTED else 0, 0xFF, 0xFF, 0xFF, kind, 0xFF, 0xFF, 0xFF] + WordBytes(start) + WordBytes(sectors)
  }

  /** A written entry reads back as the one asked for. */
  lemma {:induction false} EntryRoundTrip(start: nat, sectors: nat, kind: byte, boot: bool)
    requires start < U32 && sectors < U32
    ensures EntryOf(EntryBytes(start, sectors, kind, boot)) == NewEntry(start, sectors, kind, boot)
  {
    hide Word, WordBytes;
    WordRoundTrip(start);
    WordRoundTrip(sectors);
    var b := EntryBytes(start, sectors, kind, boot);
    assert b[8..12] == WordBytes(start) && b[12..16] == WordBytes(sectors);
  }

  lemma ZeroEntry()
    ensures EntryOf(seq(16, _ => 0)) == EMPTY
  {
    var b := seq(16, _ => 0 as byte);
    assert b[1..4] == [0, 0, 0] && b[5..8] == [0, 0, 0];
  }

  lemma {:induction false} ZeroDecode(s: seq<byte>, i: nat)
    requires |s| == SECTOR && i < 4
    ensures Decode(s[..Offset(i)] + seq(16, _ => 0) + s[Offset(i) + 16..])
      == Decode(s).(entries := Decode(s).entries[i := EMPTY])
  {
    PutDecode(s, i, seq(16, _ => 0));
    ZeroEntry();
  }

  /** The part of create that writes the entry. */
  method FillEntry(sector: array<byte>, i: nat, start: nat, sectors: nat, kind: byte, boot: bool)
    requires sector.Length == SECTOR && i < 4 && start < U32 && sectors < U32
    modifies sector
    ensures Decode(sector[..]) ==
      var t := Decode(old(sector[..]));
      t.(entries := t.entries[i := NewEntry(start, sectors, kind, boot)])
  {
    hide Decode, WordBytes, NewEntry, PutEntry;
    ghost var before := sector[..];
    ghost var b := EntryBytes(start, sectors, kind, boot);
    var off := TABLE + i * 16;
    FillHeader(sector, off, kind, boot);
    FillExtent(sector, off, start, sectors);
    EntryParts(start, sectors, kind, boot);
    Reassemble(sector[..], before, i, b);
    PutDecode(before, i, b);
    EntryRoundTrip(start, sectors, kind, boot);
  }

  lemma EntryParts(start: nat, sectors: nat, kind: byte, boot: bool)
    ensures
      var b := EntryBytes(start, sectors, kind, boot);
      && b[..8] == [if boot then BOOTED else 0, 0xFF, 0xFF, 0xFF, kind, 0xFF, 0xFF, 0xFF]
      && b[8..] == WordBytes(start) + WordBytes(sectors)
  {
    hide WordBytes;
  }

  lemma Reassemble(s: seq<byte>, before: seq<byte>, i: nat, b: seq<byte>)
    requires |s| == |before| == SECTOR && i < 4 && |b| == 16
    requires s[..Offset(i)] == before[..Offset(i)] && s[Offset(i) + 16..] == before[Offset(i) + 16..]
    requires s[Offset(i)..Offset(i) + 8] == b[..8] && s[Offset(i) + 8..Offset(i) + 16] == b[8..]
    ensures s == PutEntry(before, i, b)
  {
    assert s == s[..Offset(i)] + s[Offset(i)..Offset(i) + 8] + s[Offset(i) + 8..Offset(i) + 16] + s[Offset(i) + 16..];
  }

  method FillHeader(sector: array<byte>, off: nat, kind: byte, boot: bool)
    requires off + 16 <= sector.Length
    modifies sector
    ensures sector[..off] == old(sector[..off]) && sector[off + 16..] == old(sector[off + 16..])
    ensures sector[off..off + 8] == [if boot then BOOTED else 0, 0xFF, 0xFF, 0xFF, kind, 0xFF, 0xFF, 0xFF]
  {
    Zero(sector, off, 16);
    ghost var zeroed := sector[..];
    assert zeroed[..off] == old(sector[..off]) && zeroed[off + 16..] == old(sector[off + 16..]);
    sector[off] := if boot then BOOTED else 0;
    sector[off + 1], sector[off + 2], sector[off + 3] := 0xFF, 0xFF, 0xFF;
    sector[off + 4] := kind;
    sector[off + 5], sector[off + 6], sector[off + 7] := 0xFF, 0xFF, 0xFF;
    assert sector[..off] == zeroed[..off] && sector[off + 16..] == zeroed[off + 16..];
  }

  method FillExtent(sector: array<byte>, off: nat, start: nat, sectors: nat)
    requires off + 16 <= sector.Length
    modifies sector
    ensures sector[..off] == old(sector[..off]) && sector[off..off + 8] == old(sector[off..off + 8])
    ensures sector[off + 16..] == old(sector[off + 16..])
    ensures sector[off + 8..off + 16] == WordBytes(start) + WordBytes(sectors)
  {
    hide WordBytes;
    WriteU32(sector, off + 8, start);
    WriteU32(sector, off + 12, sectors);
  }

  // ----- the commands

  class Disk {
    var sector0: seq<byte>
    var sectors: nat

    ghost predicate Valid()
      reads this
    {
      |sector0| == SECTOR
    }

    constructor (sector0: seq<byte>, sectors: nat)
      requires |sector0| == SECTOR
      ensures Valid() && this.sector0 == sector0 && this.sectors == sectors
    {
      this.sector0 := sector0;
      this.sectors := sectors;
    }

    /** partctl_read_sector0; `device` tells whether the disk answers. */
    method ReadSector0(device: bool) returns (ok: bool, sector: array<byte>)
      requires Valid()
      ensures fresh(sector) && sector.Length == SECTOR && ok == device && (ok ==> sector[..] == sector0)
    {
      var copy := sector0;
      sector := new byte[|copy|](i requires 0 <= i < |copy| => copy[i]);
      assert sector[..] == sector0;
      return device, sector;
    }

    /** partctl_write_sector0. */
    method WriteSector0(sector: array<byte>, device: bool) returns (ok: bool)
      requires Valid() && sector.Length == SECTOR
      modifies this`sector0
      ensures Valid() && ok == device && sector0 == if device then sector[..] else old(sector0)
    {
      if device {
        sector0 := sector[..];
      }
      return device;
    }

    /** partctl_cmd_init_mbr. */
    method InitMbr(device: bool) returns (ok: bool)
      requires Valid()
      modifies this`sector0
      ensures Valid() && ok == device
      ensures Decode(sector0) == Step(Decode(old(sector0)), sectors, Command.InitMbr, device)
    {
      var sector := new byte[SECTOR];
      Zero(sector, 0, SECTOR);
      EmptyDecode(sector[..]);
      EnsureSignature(sector);
      ok := WriteSector0(sector, device);
    }

    /** partctl_cmd_delete. */
    method Delete(index: nat, device: bool) returns (ok: bool)
      requires Valid()
      modifies this`sector0
      ensures Valid() && ok == (device && Accepts(Decode(old(sector0)), sectors, Command.Delete(index)))
      ensures Decode(sector0) == Step(Decode(old(sector0)), sectors, Command.Delete(index), device)
    {
      hide Decode;
      if index < 1 || index > 4 {
        return false;
      }
      var read, sector := ReadSector0(device);
      if !read {
        return false;
      }
      ZeroDecode(sector0, index - 1);
      Zero(sector, TABLE + (index - 1) * 16, 16);
      EnsureSignature(sector);
      ok := WriteSector0(sector, device);
    }

    /** partctl_cmd_set_boot. */
    method SetBoot(index: nat, value: nat, device: bool) returns (ok: bool)
      requires Valid()
      modifies this`sector0
      ensures Valid() && ok == (device && Accepts(Decode(old(sector0)), sectors, Command.SetBoot(index, value)))
      ensures Decode(sector0) == Step(Decode(old(sector0)), sectors, Command.SetBoot(index, value), device)
    {
      hide Decode;
      if index < 1 || index > 4 || (value != 0 && value != 1) {
        return false;
      }
      var read, sector := ReadSector0(device);
      if !read {
        return false;
      }
      if value != 0 {
        ClearBoots(sector, index - 1);
      }
      var flag := if value != 0 then BOOTED else 0;
      ghost var before := sector[..];
      FlagDecode(before, index - 1, flag);
      sector[TABLE + (index - 1) * 16] := flag;
      assert sector[..] == before[Offset(index - 1) := flag];
      EnsureSignature(sector);
      ok := WriteSector0(sector, device);
    }

    /** partctl_cmd_create. */
    method Create(index: nat, start: nat, count: nat, kind: nat, boot: nat, device: bool) returns (ok: bool)
      requires Valid()
      modifies this`sector0
      ensures Valid()
      ensures ok == (device && Accepts(Decode(old(sector0)), sectors, Command.Create(index, start, count, kind, boot)))
      ensures Decode(sector0)
        == Step(Decode(old(sector0)), sectors, Command.Create(index, start, count, kind, boot), device)
    {
      hide Decode, Overlaps;
      if index < 1 || index > 4 || (boot != 0 && boot != 1) || start == 0 || count == 0 {
        return false;
      }
      if kind > 0xFF || start > 0xFFFF_FFFF || count > 0xFFFF_FFFF {
        return false;
      }
      if start >= sectors || count > sectors || start + count > sectors {
        return false;
      }
      var read, sector := ReadSector0(device);
      if !read {
        return false;
      }
      var free := CheckOverlap(sector, index - 1, start, count);
      if !free {
        return false;
      }
      if boot != 0 {
        ClearBoots(sector, 4);
      }
      FillEntry(sector, index - 1, start, count, kind as byte, boot != 0);
      EnsureSignature(sector);
      ok := WriteSector0(sector, device);
    }
  }

  lemma EmptyDecode(s: seq<byte>)
    requires |s| == SECTOR && forall k :: 0 <= k < SECTOR ==> s[k] == 0
    ensures Decode(s).code == seq(TABLE, _ => 0) && Decode(s).entries == seq(4, _ => EMPTY)
  {
    forall i | 0 <= i < 4
      ensures Decode(s).entries[i] == EMPTY
    {
      assert Slice(s, i) == seq(16, _ => 0);
      assert EntryOf(Slice(s, i)).first == [0, 0, 0] && EntryOf(Slice(s, i)).last == [0, 0, 0];
    }
  }

  /** A freshly initialised sector stays sane, whatever commands follow and however the disk fails. */
  lemma {:induction false} FromInit(t: Table, disk: nat, cs: seq<(Command, bool)>)
    requires |t.entries| == 4
    ensures
      var r := Run(Step(t, disk, InitMbr, true), disk, cs);
      Sane(r, disk) && r.code == seq(TABLE, _ => 0)
  {
    InitIsSane(t, disk);
    hide Sane;
    ZeroCode(Step(t, disk, InitMbr, true), disk, cs);
    RunKeepsSane(Step(t, disk, InitMbr, true), disk, cs);
  }

  lemma {:induction false} ZeroCode(t: Table, disk: nat, cs: seq<(Command, bool)>)
    requires Sane(t, disk) && t.code == seq(TABLE, _ => 0)
    ensures Run(t, disk, cs).code == seq(TABLE, _ => 0)
    decreases |cs|
  {
    if cs != [] {
      StepKeepsSane(t, disk, cs[0].0, cs[0].1);
      ZeroCode(Step(t, disk, cs[0].0, cs[0].1), disk, cs[1..]);
    }
  }

  lemma {:induction false} EntryLossless(b: seq<byte>, c: seq<byte>)
    requires |b| == |c| == 16 && EntryOf(b) == EntryOf(c)
    ensures b == c
  {
    WordLossless(b[8..12], c[8..12]);
    WordLossless(b[12..16], c[12..16]);
    hide EntryOf;
    assert b == [b[0]] + b[1..4] + [b[4]] + b[5..8] + b[8..12] + b[12..16] by {
      Sixteen(b);
    }
    Sixteen(c);
  }

  lemma Sixteen(b: seq<byte>)
    requires |b| == 16
    ensures b == [b[0]] + b[1..4] + [b[4]] + b[5..8] + b[8..12] + b[12..16]
  {
  }

  /** The table says everything about the sector. */
  lemma {:induction false} DecodeLossless(s: seq<byte>, t: seq<byte>)
    requires |s| == |t| == SECTOR && Decode(s) == Decode(t)
    ensures s == t
  {
    hide EntryOf;
    forall i | 0 <= i < 4
      ensures Slice(s, i) == Slice(t, i)
    {
      assert Decode(s).entries[i] == Decode(t).entries[i];
      EntryLossless(Slice(s, i), Slice(t, i));
    }
    Pieces(s);
    Pieces(t);
  }

  lemma Pieces(s: seq<byte>)
    requires |s| == SECTOR
    ensures s == s[..TABLE] + Slice(s, 0) + Slice(s, 1) + Slice(s, 2) + Slice(s, 3) + s[SIGNATURE_AT..]
  {
  }
}
