/** The BMP viewer: the header, and the one pass over the stored rows that fills the character grid. */
module BmpRows {
  import opened Arithmetic
  import opened Bytes
  import opened Grid
  import opened LittleEndian
  import opened Options

  const HEADER: nat := 54
  const MAX_SIDE: nat := 4096
  const MAX_ROW_BYTES: nat := 16384
  const MAX_COLS: nat := 160
  const MAX_ROWS: nat := 120

  datatype Info = Info(width: nat, height: nat, bytesPerPixel: nat, stride: nat, offset: nat, topDown: bool)

  /** Every row fits the row buffer, and is padded to a multiple of four by the fewest bytes. */
  predicate ValidInfo(info: Info) {
    && 1 <= info.width <= MAX_SIDE && 1 <= info.height <= MAX_SIDE
    && (info.bytesPerPixel == 3 || info.bytesPerPixel == 4)
    && info.width * info.bytesPerPixel <= info.stride < info.width * info.bytesPerPixel + 4
    && info.stride % 4 == 0 && info.stride <= MAX_ROW_BYTES
    && info.offset >= HEADER
  }

  function Le16(b: seq<byte>, at: nat): nat
    requires at + 2 <= |b|
  {
    b[at] as nat + 256 * (b[at + 1] as nat)
  }

  function Le32(b: seq<byte>, at: nat): nat
    requires at + 4 <= |b|
  {
    Word(b[at..at + 4])
  }

  function Signed(n: nat): int { if n < U32 / 2 then n else n - U32 }

  function Stride(bytes: nat): nat { (bytes + 3) / 4 * 4 }

  /** The header checks of ush_bmpview_parse_header. */
  function ParseHeader(h: seq<byte>): (r: Option<Info>)
    requires |h| == HEADER
    ensures r.Some? ==> ValidInfo(r.value)
    ensures r.Some? ==> r.value.topDown == (Signed(Le32(h, 22)) < 0)
  {
    var width, height := Signed(Le32(h, 18)), Signed(Le32(h, 22));
    var bits := Le16(h, 28);
    if h[0] as char != 'B' || h[1] as char != 'M' || Le32(h, 14) < 40 || Le16(h, 26) != 1 then None
    else if width <= 0 || height == 0 || (bits != 24 && bits != 32) || Le32(h, 30) != 0 then None
    else
      var tall := if height < 0 then -height else height;
      var stride := Stride(width * (bits / 8));
      if width > MAX_SIDE || tall > MAX_SIDE || stride > MAX_ROW_BYTES || Le32(h, 10) < HEADER then None
      else Some(Info(width, tall, bits / 8, stride, Le32(h, 10), height < 0))
  }

  // ----- the picture

  const RAMP := " .:-=+*#%@"

  /** ush_bmpview_luma_char; the index never leaves the ramp. */
  function LumaChar(r: byte, g: byte, b: byte): char {
    var luma := (77 * (r as nat) + 150 * (g as nat) + 29 * (b as nat)) / 256;
    RAMP[luma * 9 / 255]
  }

  /** The weighted brightness, in 256ths, rounded down and then carried to the ten shades, from dark to light. */
  lemma LumaIs(r: byte, g: byte, b: byte) returns (luma: nat, k: nat)
    ensures luma * 256 <= 77 * (r as int) + 150 * (g as int) + 29 * (b as int) < (luma + 1) * 256
    ensures k < 10 && k * 255 <= luma * 9 < (k + 1) * 255 && LumaChar(r, g, b) == " .:-=+*#%@"[k]
  {
    luma := (77 * (r as nat) + 150 * (g as nat) + 29 * (b as nat)) / 256;
    k := luma * 9 / 255;
  }

  /** The first bytes of a bitmap file, with its fields where the format has them. */
  function Header(front: seq<byte>, offset: nat, infoSize: nat, width: nat, height: int, bits: nat,
                  rest: seq<byte>): (h: seq<byte>)
    requires |front| == 8 && |rest| == 20 && bits < 256 && 0 - U32 <= height
    ensures |h| == 54
  {
    [0x42, 0x4D] + front + WordBytes(offset) + WordBytes(infoSize) + WordBytes(width)
    + WordBytes(if height < 0 then U32 + height else height) + [1, 0, bits as byte, 0] + WordBytes(0) + rest
  }

  lemma FieldRead(h: seq<byte>, at: nat, a: seq<byte>, n: nat, b: seq<byte>)
    requires |a| == at && n < U32 && h == a + WordBytes(n) + b
    ensures at + 4 <= |h| && Le32(h, at) == n
  {
    hide Word, WordBytes;
    WordRoundTrip(n);
    assert h[at..at + 4] == WordBytes(n);
  }

  /** A header with sizes that the viewer can show is read as what it says. */
  lemma {:induction false} HeaderRead(front: seq<byte>, offset: nat, infoSize: nat, width: nat, height: int, bits: nat,
                                      rest: seq<byte>)
    requires |front| == 8 && |rest| == 20 && HEADER <= offset < U32 && 40 <= infoSize < U32
    requires 1 <= width <= MAX_SIDE && height != 0 && 0 - MAX_SIDE <= height <= MAX_SIDE && (bits == 24 || bits == 32)
    ensures
      var info := Info(width, if height < 0 then 0 - height else height, bits / 8, Stride(width * (bits / 8)), offset,
                       height < 0);
      ParseHeader(Header(front, offset, infoSize, width, height, bits, rest)) ==
      if info.stride <= MAX_ROW_BYTES then Some(info) else None
  {
    hide Stride;
    HeaderFields(front, offset, infoSize, width, height, bits, rest);
  }

  lemma {:induction false} HeaderFields(front: seq<byte>, offset: nat, infoSize: nat, width: nat, height: int,
                                        bits: nat, rest: seq<byte>)
    requires |front| == 8 && |rest| == 20 && offset < U32 && infoSize < U32 && bits < 256
    requires width < U32 && 0 - MAX_SIDE <= height <= MAX_SIDE
    ensures
      var h := Header(front, offset, infoSize, width, height, bits, rest);
      && h[0] == 0x42 && h[1] == 0x4D && Le32(h, 10) == offset && Le32(h, 14) == infoSize && Le32(h, 18) == width
      && Signed(Le32(h, 22)) == height && Le16(h, 26) == 1 && Le16(h, 28) == bits && Le32(h, 30) == 0
  {
    hide Le32, WordBytes;
    var h := Header(front, offset, infoSize, width, height, bits, rest);
    var tall := if height < 0 then U32 + height else height;
    var p0 := [0x42, 0x4D] + front;
    var p1 := p0 + WordBytes(offset);
    var p2 := p1 + WordBytes(infoSize);
    var p3 := p2 + WordBytes(width);
    var p4 := p3 + WordBytes(tall);
    var p5 := p4 + [1, 0, bits as byte, 0];
    FieldRead(p1, 10, p0, offset, []);
    Longer(h, p1, 10);
    FieldRead(p2, 14, p1, infoSize, []);
    Longer(h, p2, 14);
    FieldRead(p3, 18, p2, width, []);
    Longer(h, p3, 18);
    FieldRead(p4, 22, p3, tall, []);
    Longer(h, p4, 22);
    FieldRead(p5 + WordBytes(0), 30, p5, 0, []);
    Longer(h, p5 + WordBytes(0), 30);
    assert h[..30] == p5;
    assert p5[26] == h[26] && p5[27] == h[27] && p5[28] == h[28] && p5[29] == h[29];
  }

  lemma Longer(h: seq<byte>, p: seq<byte>, at: nat)
    requires p <= h && at + 4 <= |p|
    ensures Le32(h, at) == Le32(p, at)
  {
    assert h[at..at + 4] == p[at..at + 4];
  }

  /** The stored row that is shown as row y; bottom-up files store the last row first. */
  function FileRow(info: Info, y: nat): nat
    requires y < info.height
  {
    if info.topDown then y else info.height - 1 - y
  }

  function PixelAt(info: Info, x: nat, row: nat): nat { info.offset + row * info.stride + x * info.bytesPerPixel }

  lemma {:induction false} PixelInRow(info: Info, x: nat)
    requires ValidInfo(info) && x < info.width
    ensures x * info.bytesPerPixel + 3 <= info.stride
  {
    MulMono(x + 1, info.width, info.bytesPerPixel);
    assert info.bytesPerPixel * (x + 1) == x * info.bytesPerPixel + info.bytesPerPixel;
  }

  /** The file holds all its rows. */
  predicate Complete(content: seq<byte>, info: Info) { info.offset + info.height * info.stride <= |content| }

  /** A byte of the file, zero past its end. */
  function ByteAt(content: seq<byte>, at: nat): byte { if at < |content| then content[at] else 0 }

  /** The character of pixel x of a stored row; the bytes are blue, green, red. */
  function PixelChar(content: seq<byte>, info: Info, x: nat, row: nat): char
    requires x < info.width && row < info.height
  {
    var at := PixelAt(info, x, row);
    LumaChar(ByteAt(content, at + 2), ByteAt(content, at + 1), ByteAt(content, at))
  }

  /** The character of the pixel shown at (x, y), taken straight from the file. */
  function Shown(content: seq<byte>, info: Info, x: nat, y: nat): char
    requires ValidInfo(info) && x < info.width && y < info.height
  {
    PixelChar(content, info, x, FileRow(info, y))
  }

  /** The buffer starts with the bytes of the stored row. */
  predicate Loaded(buffer: seq<byte>, content: seq<byte>, info: Info, row: nat)
    requires ValidInfo(info) && row < info.height
  {
    var at := info.offset + row * info.stride;
    at + info.stride <= |content| && info.stride <= |buffer| && buffer[..info.stride] == content[at..at + info.stride]
  }

  function Min(a: nat, b: nat): nat { if a < b then a else b }

  /** The grid's size: at most 160 by 120 cells, never empty, never finer than the picture. */
  function GridSize(info: Info, cols: nat): (r: (nat, nat))
    requires ValidInfo(info)
    ensures 1 <= r.0 <= MAX_COLS && r.0 <= info.width && 1 <= r.1 <= MAX_ROWS && r.1 <= info.height
  {
    hide Scaled;
    var w := Min(Min(cols, MAX_COLS), info.width);
    var outW := if w == 0 then 1 else w;
    var h := Scaled(info.height, outW, info.width * 2);
    (outW, Min(Min(if h == 0 then 1 else h, MAX_ROWS), info.height))
  }

  // ----- the file

  class Input {
    const content: seq<byte>
    // whether no read fails before the end of the file
    const reliable: bool
    var pos: nat

    constructor (content: seq<byte>, reliable: bool)
      ensures this.content == content && this.reliable == reliable && pos == 0
    {
      this.content := content;
      this.reliable := reliable;
      pos := 0;
    }

    /** One read call: any part of what was asked for, or nothing at the end or on a fault. */
    method Read(out: array<byte>, at: nat, want: nat) returns (got: nat)
      requires at + want <= out.Length
      modifies this`pos, out
      ensures got <= want && pos == old(pos) + got
      ensures reliable && want > 0 && old(pos) < |content| ==> got > 0
      ensures got > 0 ==> pos <= |content|
      ensures got > 0 ==> out[..at + got] == old(out[..at]) + content[old(pos)..pos]
    {
      var fault: bool := *;
      if want > 0 && pos < |content| && (reliable || !fault) {
        got :| 1 <= got <= want && pos + got <= |content|;
      } else {
        got := 0;
      }
      if got == 0 {
        return;
      }
      forall i | 0 <= i < got {
        out[at + i] := content[pos + i];
      }
      pos := pos + got;
    }

    /** ush_bmpview_read_exact. */
    method ReadExact(out: array<byte>, size: nat) returns (ok: bool)
      requires size <= out.Length
      modifies this`pos, out
      ensures ok ==> size > 0 && pos == old(pos) + size <= |content| && out[..size] == content[old(pos)..pos]
      ensures reliable && size > 0 && old(pos) + size <= |content| ==> ok
    {
      if size == 0 {
        return false;
      }
      var done := 0;
      while done < size
        invariant done <= size && pos == old(pos) + done
        invariant done > 0 ==> pos <= |content| && out[..done] == content[old(pos)..pos]
      {
        ghost var start, mid, before := pos - done, pos, out[..done];
        var got := Read(out, done, size - done);
        if got == 0 {
          return false;
        }
        assert before == content[start..mid] && out[..done + got] == before + content[mid..pos];
        assert content[start..mid] + content[mid..pos] == content[start..pos];
        done := done + got;
      }
      return true;
    }

    /** ush_bmpview_skip_bytes, through a 256-byte scratch buffer. */
    method SkipBytes(size: nat) returns (ok: bool)
      modifies this`pos
      ensures ok ==> pos == old(pos) + size
      ensures reliable && old(pos) + size <= |content| ==> ok
    {
      var scratch := new byte[256];
      var left := size;
      while left > 0
        invariant pos == old(pos) + (size - left)
      {
        var want := Min(left, 256);
        var got := Read(scratch, 0, want);
        if got == 0 {
          return false;
        }
        left := left - got;
      }
      return true;
    }
  }

  // ----- the row loop

  /** What cell (ox, oy) should show: the pixel its own coordinates scale to. */
  function Sample(content: seq<byte>, info: Info, outW: nat, outH: nat, ox: nat, oy: nat): char
    requires ValidInfo(info) && ox < outW && oy < outH
  {
    ScaledInside(ox, info.width, outW);
    ScaledInside(oy, info.height, outH);
    Shown(content, info, Scaled(ox, info.width, outW), Scaled(oy, info.height, outH))
  }

  /** Every cell whose picture row is stored among the first `rows` rows of the file is done. */
  ghost predicate RowsDone(grid: array2<char>, content: seq<byte>, info: Info, outW: nat, outH: nat, rows: nat)
    requires ValidInfo(info)
    requires grid.Length0 >= outH && grid.Length1 >= outW
    reads grid
  {
    forall ox: nat, oy: nat :: ox < outW && oy < outH && StoredIn(info, outH, oy, rows) ==>
      grid[oy, ox] == Sample(content, info, outW, outH, ox, oy)
  }

  /** Picture row oy of the grid is the one stored at fileRow. */
  predicate IsRowOf(info: Info, outH: nat, oy: nat, fileRow: nat)
    requires ValidInfo(info) && oy < outH
  {
    ScaledInside(oy, info.height, outH);
    FileRow(info, Scaled(oy, info.height, outH)) == fileRow
  }

  predicate StoredIn(info: Info, outH: nat, oy: nat, rows: nat)
    requires ValidInfo(info) && oy < outH
  {
    ScaledInside(oy, info.height, outH);
    FileRow(info, Scaled(oy, info.height, outH)) < rows
  }

  /** The cells of one grid row from the row buffer. */
  method FillGridRow(grid: array2<char>, row: array<byte>, content: seq<byte>, info: Info, outW: nat, outH: nat,
                     oy: nat, fileRow: nat)
    requires ValidInfo(info) && oy < outH && fileRow < info.height
    requires grid.Length0 >= outH && grid.Length1 >= outW
    requires Loaded(row[..], content, info, fileRow) && IsRowOf(info, outH, oy, fileRow)
    modifies grid
    ensures forall ox: nat :: ox < outW ==> grid[oy, ox] == Sample(content, info, outW, outH, ox, oy)
    ensures forall u, v :: 0 <= v < grid.Length0 && 0 <= u < grid.Length1 && (v != oy || u >= outW) ==>
      grid[v, u] == old(grid[v, u])
  {
    hide Sample, Scaled, PixelChar, ValidInfo, IsRowOf, Loaded;
    for ox := 0 to outW
      invariant forall u: nat :: u < ox ==> grid[oy, u] == Sample(content, info, outW, outH, u, oy)
      invariant forall u, v :: 0 <= v < grid.Length0 && 0 <= u < grid.Length1 && (v != oy || u >= outW) ==>
        grid[v, u] == old(grid[v, u])
    {
      var srcX := Scaled(ox, info.width, outW);
      Sides(info);
      ScaledInside(ox, info.width, outW);
      var c := PixelFromRow(row, content, info, srcX, fileRow);
      SampleFromRow(content, info, outW, outH, ox, oy, fileRow);
      assert c == Sample(content, info, outW, outH, ox, oy);
      grid[oy, ox] := c;
    }
  }

  lemma Sides(info: Info)
    requires ValidInfo(info)
    ensures info.width > 0 && info.height > 0
  {
  }

  lemma SampleFromRow(content: seq<byte>, info: Info, outW: nat, outH: nat, ox: nat, oy: nat, fileRow: nat)
    requires ValidInfo(info) && ox < outW && oy < outH && fileRow < info.height
    requires IsRowOf(info, outH, oy, fileRow)
    ensures Scaled(ox, info.width, outW) < info.width
    ensures Sample(content, info, outW, outH, ox, oy)
      == PixelChar(content, info, Scaled(ox, info.width, outW), fileRow)
  {
    hide PixelChar, Scaled;
    ScaledInside(ox, info.width, outW);
    ScaledInside(oy, info.height, outH);
  }

  /** The bytes of one pixel in the row buffer; the test against the row length never fails. */
  method PixelFromRow(row: array<byte>, content: seq<byte>, info: Info, x: nat, fileRow: nat) returns (c: char)
    requires ValidInfo(info) && x < info.width && fileRow < info.height
    requires Loaded(row[..], content, info, fileRow)
    ensures c == PixelChar(content, info, x, fileRow)
  {
    hide LumaChar;
    PixelInRow(info, x);
    var off := x * info.bytesPerPixel;
    ghost var at := info.offset + fileRow * info.stride;
    ghost var part := content[at..at + info.stride];
    assert part[off] == row[off] && part[off + 1] == row[off + 1] && part[off + 2] == row[off + 2];
    c := if off + 2 >= info.stride then ' ' else LumaChar(row[off + 2], row[off + 1], row[off]);
  }

  /** Each line of the grid ends in a NUL. */
  ghost predicate Terminated(grid: array2<char>, outW: nat, outH: nat)
    requires grid.Length0 >= outH && grid.Length1 > outW
    reads grid
  {
    forall oy :: 0 <= oy < outH ==> grid[oy, outW] == '\0'
  }

  lemma StoredNext(info: Info, outH: nat, oy: nat, fileRow: nat, display: nat)
    requires ValidInfo(info) && oy < outH && fileRow < info.height
    requires display == if info.topDown then fileRow else info.height - 1 - fileRow
    ensures IsRowOf(info, outH, oy, fileRow) <==> Scaled(oy, info.height, outH) == display
    ensures StoredIn(info, outH, oy, fileRow + 1) <==>
      StoredIn(info, outH, oy, fileRow) || IsRowOf(info, outH, oy, fileRow)
  {
    hide Scaled;
    ScaledInside(oy, info.height, outH);
  }

  /** The body of the loop over the stored rows, once the row is in the buffer. */
  method UseRow(grid: array2<char>, row: array<byte>, sampleRows: array<nat>, content: seq<byte>, info: Info,
                outW: nat, outH: nat, fileRow: nat)
    requires ValidInfo(info) && fileRow < info.height
    requires grid.Length0 >= outH && grid.Length1 > outW && sampleRows.Length >= outH
    requires Loaded(row[..], content, info, fileRow)
    requires forall oy: nat :: oy < outH ==> sampleRows[oy] == Scaled(oy, info.height, outH)
    requires RowsDone(grid, content, info, outW, outH, fileRow) && Terminated(grid, outW, outH)
    modifies grid
    ensures RowsDone(grid, content, info, outW, outH, fileRow + 1) && Terminated(grid, outW, outH)
  {
    hide Sample, Scaled, ValidInfo, IsRowOf, Loaded, StoredIn;
    var display := if info.topDown then fileRow else info.height - 1 - fileRow;
    for oy := 0 to outH
      invariant Terminated(grid, outW, outH)
      invariant forall u: nat, v: nat :: u < outW && v < oy && StoredIn(info, outH, v, fileRow + 1) ==>
        grid[v, u] == Sample(content, info, outW, outH, u, v)
      invariant forall u: nat, v: nat :: u < outW && oy <= v < outH && StoredIn(info, outH, v, fileRow) ==>
        grid[v, u] == Sample(content, info, outW, outH, u, v)
    {
      StoredNext(info, outH, oy, fileRow, display);
      if sampleRows[oy] != display {
        continue;
      }
      FillGridRow(grid, row, content, info, outW, outH, oy, fileRow);
    }
  }

  lemma AllStored(info: Info, outH: nat)
    requires ValidInfo(info)
    ensures forall oy: nat :: oy < outH ==> StoredIn(info, outH, oy, info.height)
  {
    forall oy: nat | oy < outH
      ensures StoredIn(info, outH, oy, info.height)
    {
      ScaledInside(oy, info.height, outH);
    }
  }

  /** The first loop over the grid: sampled rows, blanks and line ends. */
  method Prepare(grid: array2<char>, sampleRows: array<nat>, info: Info, outW: nat, outH: nat)
    requires grid.Length0 >= outH && grid.Length1 > outW && sampleRows.Length >= outH
    modifies grid, sampleRows
    ensures Terminated(grid, outW, outH)
    ensures forall oy: nat :: oy < outH ==> sampleRows[oy] == Scaled(oy, info.height, outH)
  {
    hide Scaled;
    for oy := 0 to outH
      invariant forall v :: 0 <= v < oy ==> grid[v, outW] == '\0'
      invariant forall v: nat :: v < oy ==> sampleRows[v] == Scaled(v, info.height, outH)
    {
      sampleRows[oy] := Scaled(oy, info.height, outH);
      for ox := 0 to outW
        invariant forall v :: 0 <= v < oy ==> grid[v, outW] == '\0'
        invariant forall v: nat :: v <= oy ==> sampleRows[v] == Scaled(v, info.height, outH)
      {
        grid[oy, ox] := ' ';
      }
      grid[oy, outW] := '\0';
    }
  }

  /** A complete file holds each of its rows. */
  lemma {:induction false} StoredRows(content: seq<byte>, info: Info, row: nat)
    requires ValidInfo(info) && row < info.height
    ensures 0 < info.stride <= MAX_ROW_BYTES
    ensures info.offset + (row + 1) * info.stride == info.offset + row * info.stride + info.stride
    ensures Complete(content, info) ==> info.offset + row * info.stride + info.stride <= |content|
  {
    MulMono(row + 1, info.height, info.stride);
    assert info.stride * (row + 1) == row * info.stride + info.stride;
  }

  lemma WholeFile(content: seq<byte>, info: Info)
    requires ValidInfo(info)
    ensures info.height > 0
    ensures Complete(content, info) <==> info.offset + info.height * info.stride <= |content|
  {
  }

  /** The loops of ush_cmd_bmpview from the first pixel row on. */
  method RenderRows(input: Input, info: Info, outW: nat, outH: nat) returns (ok: bool, grid: array2<char>)
    requires ValidInfo(info) && input.pos == info.offset
    requires 1 <= outW <= MAX_COLS && 1 <= outH <= MAX_ROWS
    modifies input`pos
    ensures grid.Length0 >= outH && grid.Length1 > outW
    ensures ok ==> Complete(input.content, info) && Terminated(grid, outW, outH)
    ensures input.reliable && Complete(input.content, info) ==> ok
    ensures ok ==> forall ox: nat, oy: nat :: ox < outW && oy < outH ==>
      grid[oy, ox] == Sample(input.content, info, outW, outH, ox, oy)
  {
    hide Sample, Scaled, Complete, ValidInfo;
    grid := new char[MAX_ROWS, MAX_COLS + 1];
    var row := new byte[MAX_ROW_BYTES];
    var sampleRows := new nat[MAX_ROWS];
    Prepare(grid, sampleRows, info, outW, outH);
    var fileRow := 0;
    while fileRow < info.height
      invariant fileRow <= info.height && input.pos == info.offset + fileRow * info.stride
      invariant fileRow > 0 ==> input.pos <= |input.content|
      invariant Terminated(grid, outW, outH)
      invariant forall oy: nat :: oy < outH ==> sampleRows[oy] == Scaled(oy, info.height, outH)
      invariant RowsDone(grid, input.content, info, outW, outH, fileRow)
    {
      StoredRows(input.content, info, fileRow);
      var read := input.ReadExact(row, info.stride);
      if !read {
        return false, grid;
      }
      assert row[..][..info.stride] == row[..info.stride];
      UseRow(grid, row, sampleRows, input.content, info, outW, outH, fileRow);
      fileRow := fileRow + 1;
    }
    AllStored(info, outH);
    WholeFile(input.content, info);
    return true, grid;
  }

  /** A file with a header that is accepted and all the rows it announces. */
  predicate Viewable(content: seq<byte>) {
    && |content| >= HEADER && ParseHeader(content[..HEADER]).Some?
    && Complete(content, ParseHeader(content[..HEADER]).value)
  }

  /**
   ush_cmd_bmpview on an opened file: every cell shows the pixel its coordinates scale to;
   if no read fails, it succeeds for exactly the files that can be viewed.
   */
  method View(input: Input, cols: nat) returns (ok: bool, grid: array2<char>, outW: nat, outH: nat)
    requires input.pos == 0
    modifies input`pos
    ensures ok ==> Viewable(input.content)
    ensures input.reliable ==> (ok <==> Viewable(input.content))
    ensures ok ==>
      var info := ParseHeader(input.content[..HEADER]).value;
      && (outW, outH) == GridSize(info, cols)
      && grid.Length0 >= outH && grid.Length1 > outW && Terminated(grid, outW, outH)
      && forall ox: nat, oy: nat :: ox < outW && oy < outH ==>
        grid[oy, ox] == Sample(input.content, info, outW, outH, ox, oy)
  {
    hide ParseHeader, GridSize, Sample;
    outW, outH := 0, 0;
    grid := new char[0, 0];
    var header := new byte[HEADER];
    var read := input.ReadExact(header, HEADER);
    if !read {
      return false, grid, 0, 0;
    }
    assert header[..] == input.content[..HEADER];
    var parsed := ParseHeader(header[..]);
    if parsed.None? {
      return false, grid, 0, 0;
    }
    var info := parsed.value;
    if info.offset > HEADER {
      var skipped := input.SkipBytes(info.offset - HEADER);
      if !skipped {
        return false, grid, 0, 0;
      }
    }
    var size := GridSize(info, cols);
    outW, outH := size.0, size.1;
    ok, grid := RenderRows(input, info, outW, outH);
  }
}
