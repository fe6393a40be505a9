/**
 The text form of the install manifest: one line `path|size|hash` per file. Printing is
 the installer's format string; parsing is its line parser, with the C library's
 strtoull, and its splitting of a buffer into lines.
 */
module ManifestText {
  import opened Options
  import opened Paths
  import opened FileSystem

  const U64_MAX: nat := 0xFFFF_FFFF_FFFF_FFFF
  const HASH_LENGTH: nat := 64
  const LINE_MAX: nat := PATH_MAX + HASH_LENGTH + 64

  datatype Entry = Entry(path: string, size: nat, hash: string)

  // ----- printing

  function Digit(d: nat): (c: char)
    requires d < 10
    ensures IsDigit(c) && DigitValue(c) == d
  {
    '0' + d as char
  }

  predicate IsDigit(c: char) { '0' <= c <= '9' }

  function DigitValue(c: char): nat
    requires IsDigit(c)
  {
    (c - '0') as nat
  }

  function Decimal(n: nat): (s: string)
    ensures s != "" && forall c :: c in s ==> IsDigit(c)
  {
    if n < 10 then [Digit(n)] else Decimal(n / 10) + [Digit(n % 10)]
  }

  /** A line without its newline. */
  function Body(e: Entry): string {
    e.path + "|" + Decimal(e.size) + "|" + e.hash
  }

  function Line(e: Entry): string {
    Body(e) + "\n"
  }

  function Print(es: seq<Entry>): string {
    if es == [] then "" else Print(es[..|es| - 1]) + Line(es[|es| - 1])
  }

  function Ten(k: nat): nat { if k == 0 then 1 else 10 * Ten(k - 1) }

  lemma {:induction false} DecimalLength(n: nat, k: nat)
    requires n < Ten(k) && k > 0
    ensures |Decimal(n)| <= k
  {
    if n >= 10 {
      DecimalLength(n / 10, k - 1);
    }
  }

  lemma SizeDigits(n: nat)
    requires n <= U64_MAX
    ensures |Decimal(n)| <= 20
  {
    assert Ten(5) == 10_0000;
    assert Ten(10) == 10_0000 * Ten(5);
    assert Ten(15) == 10_0000 * Ten(10);
    assert Ten(20) == 10_0000 * Ten(15);
    DecimalLength(n, 20);
  }

  /** Every line that the installer prints fits its line buffer. */
  lemma LineLength(e: Entry)
    requires Proper(e)
    ensures |Line(e)| < LINE_MAX
  {
    hide Decimal;
    SizeDigits(e.size);
  }

  // ----- parsing

  predicate IsSpace(c: char) { c == ' ' || '\t' <= c <= '\r' }

  /** strtoull accumulates with saturation at the largest unsigned 64-bit value. */
  function Accumulate(s: string): nat
    requires forall c :: c in s ==> IsDigit(c)
  {
    if s == "" then 0
    else
      var v, d := Accumulate(s[..|s| - 1]), DigitValue(s[|s| - 1]);
      if v > (U64_MAX - d) / 10 then U64_MAX else v * 10 + d
  }

  predicate AllDigits(s: string) { forall c :: c in s ==> IsDigit(c) }

  function SkipSpaces(s: string): string {
    if s != "" && IsSpace(s[0]) then SkipSpaces(s[1..]) else s
  }

  /** strtoull in base 10 over a whole field: None unless it stops at the field's end. */
  function ParseSize(s: string): Option<nat> {
    var t := SkipSpaces(s);
    var signed := t != "" && (t[0] == '+' || t[0] == '-');
    var digits := if signed then t[1..] else t;
    if digits == "" || !AllDigits(digits) then None
    else
      var v := Accumulate(digits);
      Some(if signed && t[0] == '-' then (U64_MAX + 1 - v) % (U64_MAX + 1) else v)
  }

  predicate HashValid(h: string) {
    |h| == HASH_LENGTH && forall c :: c in h ==> '0' <= c <= '9' || 'a' <= c <= 'f' || 'A' <= c <= 'F'
  }

  /** strchr: the first index of c, or the length. */
  function Find(s: string, c: char): (k: nat)
    ensures k <= |s| && (k < |s| ==> s[k] == c)
    ensures forall i :: 0 <= i < k ==> s[i] != c
  {
    if s == "" || s[0] == c then 0 else 1 + Find(s[1..], c)
  }

  /** The three fields of a line, whatever the length of the path. */
  function Fields(line: string): Option<Entry> {
    var a := Find(line, '|');
    if a == |line| then None
    else
      var path, rest := line[..a], line[a + 1..];
      var b := Find(rest, '|');
      if b == |rest| then None
      else
        var size, hash := ParseSize(rest[..b]), rest[b + 1..];
        if path == "" || path[0] != '/' || !HashValid(hash) || size.None? then None
        else Some(Entry(path, size.value, hash))
  }

  /** install_manifest_parse_line. */
  function ParseLine(line: string): Option<Entry> {
    var e := Fields(line);
    if e.Some? && |e.value.path| >= PATH_MAX then None else e
  }

  predicate IsBreak(c: char) { c == '\n' || c == '\0' }

  predicate OneLine(s: string) { forall i :: 0 <= i < |s| ==> !IsBreak(s[i]) }

  /** The buffer cut at every newline and null character. */
  function SplitLines(s: string): (lines: seq<string>)
    ensures lines != []
    ensures forall l :: l in lines ==> OneLine(l)
  {
    var k := FindBreak(s);
    if k == |s| then [s] else [s[..k]] + SplitLines(s[k + 1..])
  }

  function FindBreak(s: string): (k: nat)
    ensures k <= |s| && (k < |s| ==> IsBreak(s[k]))
    ensures forall i :: 0 <= i < k ==> !IsBreak(s[i])
  {
    if s == "" || IsBreak(s[0]) then 0 else 1 + FindBreak(s[1..])
  }

  function StripReturn(line: string): string {
    if line != "" && line[|line| - 1] == '\r' then line[..|line| - 1] else line
  }

  /** One carriage return at the end of a line is not part of it. */
  lemma ReturnIsStripped(text: string)
    ensures StripReturn(text + "\r") == text
    ensures text == "" || text[|text| - 1] != '\r' ==> StripReturn(text) == text
  {
  }

  /** All lines but the blank ones parsed in order; fails as a whole. */
  function ParseLines(lines: seq<string>, max: nat): (r: Option<seq<Entry>>)
    ensures r.Some? ==> |r.value| <= max
  {
    if lines == [] then Some([])
    else
      var r, line := ParseLines(lines[..|lines| - 1], max), StripReturn(lines[|lines| - 1]);
      if r.None? || line == "" then r
      else if |r.value| >= max then None
      else
        var e := ParseLine(line);
        if e.None? then None else Some(r.value + [e.value])
  }

  function Parse(content: string, max: nat): Option<seq<Entry>> {
    ParseLines(SplitLines(content), max)
  }

  // ----- what the parser accepts

  /** The number that digits stand for, of any size. */
  function Value(s: string): nat
    requires AllDigits(s)
  {
    if s == "" then 0 else 10 * Value(s[..|s| - 1]) + DigitValue(s[|s| - 1])
  }

  /** A 64-bit reader gives the number, or the largest one that fits. */
  function Capped(s: string): nat
    requires AllDigits(s)
  {
    if Value(s) <= U64_MAX then Value(s) else U64_MAX
  }

  lemma {:induction false} AccumulateIs(s: string)
    requires AllDigits(s)
    ensures Accumulate(s) == Capped(s)
  {
    if s != "" {
      AccumulateIs(s[..|s| - 1]);
    }
  }

  predicate Blank(s: string) { forall c :: c in s ==> c in " \t\n\U{B}\U{C}\r" }

  const TWO_64: nat := 0x1_0000_0000_0000_0000

  predicate Digits(s: string) { s != "" && AllDigits(s) }

  /** Digits with an optional sign; a negative number is taken modulo 2^64. */
  predicate Signed(t: string, n: nat) {
    || (Digits(t) && n == Capped(t))
    || (t != "" && t[0] == '+' && Digits(t[1..]) && n == Capped(t[1..]))
    || (t != "" && t[0] == '-' && Digits(t[1..]) && n == (TWO_64 - Capped(t[1..])) % TWO_64)
  }

  lemma {:induction false} SkipIs(s: string, k: nat)
    requires k < |s| && Blank(s[..k]) && !IsSpace(s[k])
    ensures SkipSpaces(s) == s[k..]
  {
    if k > 0 {
      assert s[..k][0] == s[0] && s[0] in s[..k];
      assert s[1..][..k - 1] == s[..k][1..];
      SkipIs(s[1..], k - 1);
      assert s[1..][k - 1..] == s[k..];
    }
  }

  lemma {:induction false} SkipCount(s: string) returns (k: nat)
    ensures k <= |s| && Blank(s[..k]) && SkipSpaces(s) == s[k..]
  {
    k := 0;
    if s != "" && IsSpace(s[0]) {
      var j := SkipCount(s[1..]);
      k := j + 1;
      assert s[..k] == [s[0]] + s[1..][..j];
    }
  }

  /** A size field is any blanks, then a number with or without a sign, and nothing else. */
  lemma ParseSizeIs(s: string, n: nat)
    ensures ParseSize(s) == Some(n) <==> exists k :: 0 <= k <= |s| && Blank(s[..k]) && Signed(s[k..], n)
  {
    hide Value, SkipSpaces, Blank;
    if k :| 0 <= k <= |s| && Blank(s[..k]) && Signed(s[k..], n) {
      assert s[k..][0] == s[k];
      assert Digits(s[k..]) ==> s[k] in s[k..];
      SkipIs(s, k);
      SignedParses(s, n);
    } else if ParseSize(s) == Some(n) {
      var k := SkipCount(s);
      SignedParses(s, n);
    }
  }

  lemma SignedParses(s: string, n: nat)
    ensures ParseSize(s) == Some(n) <==> Signed(SkipSpaces(s), n)
  {
    hide Value, SkipSpaces, Accumulate;
    var t := SkipSpaces(s);
    if Digits(t) {
      assert t[0] in t;
      AccumulateIs(t);
    }
    if t != "" && Digits(t[1..]) {
      AccumulateIs(t[1..]);
    }
  }

  /** The line is the entry's path, a size field and the entry's hash, with bars between them. */
  ghost predicate Consists(line: string, e: Entry, size: string) {
    && line == e.path + "|" + size + "|" + e.hash && '|' !in e.path && '|' !in size
    && ParseSize(size) == Some(e.size) && e.path != "" && e.path[0] == '/'
    && |e.hash| == 64 && forall c :: c in e.hash ==> c in "0123456789abcdefABCDEF"
  }

  ghost predicate Reads(line: string, e: Entry) {
    exists size :: Consists(line, e, size)
  }

  lemma HashLetters(h: string)
    ensures HashValid(h) <==> |h| == 64 && forall c :: c in h ==> c in "0123456789abcdefABCDEF"
  {
    forall c: char
      ensures c in "0123456789abcdefABCDEF" <==> '0' <= c <= '9' || 'a' <= c <= 'f' || 'A' <= c <= 'F'
    {
      HexLetter(c);
    }
  }

  lemma HexLetter(c: char)
    ensures c in "0123456789abcdefABCDEF" <==> '0' <= c <= '9' || 'a' <= c <= 'f' || 'A' <= c <= 'F'
  {
    var s := "0123456789abcdefABCDEF";
    if '0' <= c <= '9' {
      assert s[(c - '0') as int] == c;
    } else if 'a' <= c <= 'f' {
      assert s[10 + (c - 'a') as int] == c;
    } else if 'A' <= c <= 'F' {
      assert s[16 + (c - 'A') as int] == c;
    }
  }

  lemma ConsistsFields(line: string, e: Entry, size: string)
    requires Consists(line, e, size)
    ensures Fields(line) == Some(e)
  {
    hide ParseSize, HashValid;
    HashLetters(e.hash);
    var rest := size + "|" + e.hash;
    assert line == e.path + "|" + rest;
    FindIs(e.path, rest, '|');
    FindIs(size, e.hash, '|');
    assert line[..|e.path|] == e.path && line[|e.path| + 1..] == rest;
    assert rest[..|size|] == size && rest[|size| + 1..] == e.hash;
  }

  lemma FieldsConsist(line: string, e: Entry) returns (size: string)
    requires Fields(line) == Some(e)
    ensures Consists(line, e, size)
  {
    hide ParseSize, HashValid;
    var a := Find(line, '|');
    var rest := line[a + 1..];
    var b := Find(rest, '|');
    size := rest[..b];
    HashLetters(e.hash);
    AtBar(line, a);
    AtBar(rest, b);
    assert e.path + "|" + (size + "|" + e.hash) == e.path + "|" + size + "|" + e.hash;
  }

  lemma AtBar(s: string, k: nat)
    requires k < |s| && s[k] == '|'
    ensures s == s[..k] + "|" + s[k + 1..]
  {
  }

  lemma FieldsAre(line: string, e: Entry)
    ensures Fields(line) == Some(e) <==> Reads(line, e)
  {
    hide Fields, Consists;
    if size :| Consists(line, e, size) {
      ConsistsFields(line, e, size);
    }
    if Fields(line) == Some(e) {
      var size := FieldsConsist(line, e);
    }
  }

  /** Which lines the parser accepts, and as what. */
  lemma ParseLineIs(line: string, e: Entry)
    ensures ParseLine(line) == Some(e) <==> Reads(line, e) && |e.path| < PATH_MAX
  {
    hide Reads, Fields;
    FieldsAre(line, e);
  }

  // ----- printing then parsing

  /** An entry that the manifest's line format can carry. */
  predicate Clean(e: Entry) {
    '|' !in e.path && '\n' !in e.path && '\0' !in e.path
  }

  /** What every entry built by the installer satisfies. */
  predicate Proper(e: Entry) {
    e.path != "" && e.path[0] == '/' && |e.path| < PATH_MAX && e.size <= U64_MAX && HashValid(e.hash)
  }

  lemma {:induction false} DecimalValue(n: nat)
    requires n <= U64_MAX
    ensures Accumulate(Decimal(n)) == n
  {
    if n >= 10 {
      DecimalValue(n / 10);
      assert Decimal(n)[..|Decimal(n)| - 1] == Decimal(n / 10);
    }
  }

  lemma NoSpaces(s: string)
    requires s != "" && !IsSpace(s[0])
    ensures SkipSpaces(s) == s
  {
  }

  lemma SizeRoundTrip(n: nat)
    requires n <= U64_MAX
    ensures ParseSize(Decimal(n)) == Some(n)
  {
    hide Decimal, Accumulate, SkipSpaces;
    DecimalValue(n);
    var s := Decimal(n);
    assert s[0] in s;
    NoSpaces(s);
  }

  lemma FindIs(s: string, t: string, c: char)
    requires c !in s
    ensures Find(s + [c] + t, c) == |s|
  {
    var u := s + [c] + t;
    assert u[|s|] == c;
    assert forall i :: 0 <= i < |s| ==> u[i] == s[i];
  }

  /** Where the separators of a printed line are. */
  lemma LineFields(e: Entry)
    requires Proper(e) && Clean(e)
    ensures
      var line, size := Body(e), Decimal(e.size);
      var rest := size + "|" + e.hash;
      && Find(line, '|') == |e.path| < |line|
      && line[..|e.path|] == e.path && line[|e.path| + 1..] == rest
      && Find(rest, '|') == |size| < |rest|
      && rest[..|size|] == size && rest[|size| + 1..] == e.hash
      && ParseSize(size) == Some(e.size)
  {
    hide Decimal, ParseSize, HashValid;
    var size := Decimal(e.size);
    var rest := size + "|" + e.hash;
    assert Body(e) == e.path + "|" + rest;
    FindIs(e.path, rest, '|');
    assert '|' !in size;
    FindIs(size, e.hash, '|');
    SizeRoundTrip(e.size);
  }

  lemma LineRoundTrip(e: Entry)
    requires Proper(e) && Clean(e)
    ensures ParseLine(Body(e)) == Some(e)
  {
    hide Decimal, ParseSize, HashValid, Find, Body;
    LineFields(e);
  }

  lemma FindBreakIs(a: string, c: char, b: string)
    requires IsBreak(c) && OneLine(a)
    ensures FindBreak(a + [c] + b) == |a|
  {
    hide FindBreak;
    var s := a + [c] + b;
    assert s[|a|] == c;
    assert forall i :: 0 <= i < |a| ==> s[i] == a[i];
  }

  lemma SplitFirst(a: string, c: char, b: string)
    requires IsBreak(c) && OneLine(a)
    ensures SplitLines(a + [c] + b) == [a] + SplitLines(b)
  {
    hide FindBreak, IsBreak, OneLine;
    var s := a + [c] + b;
    FindBreakIs(a, c, b);
    assert s[..|a|] == a && s[|a| + 1..] == b;
  }

  lemma {:induction false} PrintFirst(es: seq<Entry>)
    requires es != []
    ensures Print(es) == Line(es[0]) + Print(es[1..])
  {
    hide Line;
    if |es| == 1 {
      assert es[..0] == [] == es[1..];
    } else {
      var n := |es| - 1;
      PrintFirst(es[..n]);
      assert es[..n][1..] == es[1..][..n - 1] && es[1..][n - 1] == es[n];
      assert Print(es) == Line(es[0]) + Print(es[..n][1..]) + Line(es[n]);
      assert Print(es[1..]) == Print(es[1..][..n - 1]) + Line(es[n]);
    }
  }

  function Bodies(es: seq<Entry>): (bs: seq<string>)
    ensures |bs| == |es|
  {
    seq(|es|, i requires 0 <= i < |es| => Body(es[i]))
  }

  lemma BodyIsOneLine(e: Entry)
    requires Proper(e) && Clean(e)
    ensures OneLine(Body(e))
    ensures StripReturn(Body(e)) == Body(e) != ""
  {
    var size := Decimal(e.size);
    forall i | 0 <= i < |size|
      ensures !IsBreak(size[i])
    {
      assert size[i] in size;
    }
    forall i | 0 <= i < |e.hash|
      ensures !IsBreak(e.hash[i])
    {
      assert e.hash[i] in e.hash;
    }
    assert Body(e)[|Body(e)| - 1] == e.hash[HASH_LENGTH - 1];
    assert e.hash[HASH_LENGTH - 1] in e.hash;
  }

  lemma NothingPrinted(es: seq<Entry>)
    requires es == []
    ensures Print(es) == ""
  {
  }

  lemma NothingSplit()
    ensures SplitLines("") == [""]
  {
  }

  lemma {:induction false} SplitPrint(es: seq<Entry>)
    requires forall e :: e in es ==> Proper(e) && Clean(e)
    ensures SplitLines(Print(es)) == Bodies(es) + [""]
  {
    hide Proper, Clean, Body, Print, SplitLines;
    if es == [] {
      assert Print(es) == "" by { NothingPrinted(es); }
      NothingSplit();
    } else {
      PrintFirst(es);
      BodyIsOneLine(es[0]);
      SplitFirst(Body(es[0]), '\n', Print(es[1..]));
      assert Print(es) == Body(es[0]) + ['\n'] + Print(es[1..]);
      SplitPrint(es[1..]);
      assert Bodies(es) == [Body(es[0])] + Bodies(es[1..]);
    }
  }

  lemma {:induction false} ParseBodies(es: seq<Entry>, max: nat)
    requires |es| <= max && forall e :: e in es ==> Proper(e) && Clean(e)
    ensures ParseLines(Bodies(es), max) == Some(es)
  {
    hide Body, ParseLine, StripReturn, Proper, Clean;
    if es != [] {
      var n := |es| - 1;
      ParseBodies(es[..n], max);
      assert Bodies(es)[..n] == Bodies(es[..n]);
      BodyIsOneLine(es[n]);
      LineRoundTrip(es[n]);
      assert es == es[..n] + [es[n]];
    }
  }

  lemma ParsedIsClean(line: string)
    requires OneLine(line)
    ensures var e := ParseLine(line); e.Some? ==> Clean(e.value)
  {
    var k := Find(line, '|');
    assert OneLine(line[..k]);
  }

  lemma {:induction false} ParsedAreClean(lines: seq<string>, max: nat)
    requires forall l :: l in lines ==> OneLine(l)
    ensures var r := ParseLines(lines, max); r.Some? ==> forall e :: e in r.value ==> Clean(e)
  {
    if lines != [] {
      var n := |lines| - 1;
      ParsedAreClean(lines[..n], max);
      assert OneLine(lines[n]);
      ParsedIsClean(StripReturn(lines[n]));
    }
  }

  lemma {:induction false} TooManyBodies(es: seq<Entry>, max: nat)
    requires |es| > max && forall e :: e in es ==> Proper(e) && Clean(e)
    ensures ParseLines(Bodies(es), max) == None
  {
    hide Body, ParseLine, StripReturn, Proper, Clean;
    var n := |es| - 1;
    assert Bodies(es)[..n] == Bodies(es[..n]);
    if n == max {
      ParseBodies(es[..n], max);
      BodyIsOneLine(es[n]);
    } else {
      TooManyBodies(es[..n], max);
    }
  }

  /** A manifest with more entries than the table holds is rejected as a whole. */
  lemma TooManyEntries(es: seq<Entry>, max: nat)
    requires |es| > max && forall e :: e in es ==> Proper(e) && Clean(e)
    ensures Parse(Print(es), max) == None
  {
    hide Body, ParseLine, ParseLines, SplitLines, Print, Proper, Clean;
    SplitPrint(es);
    TooManyBodies(es, max);
    BlankLast(Bodies(es), max);
  }

  lemma BlankLast(lines: seq<string>, max: nat)
    ensures ParseLines(lines + [""], max) == ParseLines(lines, max)
  {
    assert (lines + [""])[..|lines|] == lines;
  }

  /**
   Loading what was printed gives the same entries back, in order, exactly when every
   path is free of '|', newline and null.
   */
  lemma RoundTrip(es: seq<Entry>, max: nat)
    requires |es| <= max && forall e :: e in es ==> Proper(e)
    ensures Parse(Print(es), max) == Some(es) <==> forall e :: e in es ==> Clean(e)
  {
    hide Body, ParseLine, ParseLines, SplitLines, Print, Proper, Clean;
    ParsedAreClean(SplitLines(Print(es)), max);
    if forall e :: e in es ==> Clean(e) {
      SplitPrint(es);
      ParseBodies(es, max);
      BlankLast(Bodies(es), max);
    }
  }

  /** A bar in a path makes the printed line unreadable. */
  lemma BarIsLost()
    ensures
      var e := Entry("/shell/a|b", 0, Zeros());
      Proper(e) && Parse(Print([e]), 1) != Some([e])
  {
    hide Parse, Print;
    var e := Entry("/shell/a|b", 0, Zeros());
    assert e.path[8] == '|';
    RoundTrip([e], 1);
    assert e in [e];
  }

  /** A hash in the form that the manifest wants. */
  function Zeros(): (h: string)
    ensures HashValid(h)
  {
    seq(HASH_LENGTH, i => '0')
  }

  // ----- the loading loop

  lemma {:induction false} ParseFails(a: seq<string>, b: seq<string>, max: nat)
    requires ParseLines(a, max).None?
    ensures ParseLines(a + b, max).None?
  {
    if b == [] {
      assert a + b == a;
    } else {
      ParseFails(a, b[..|b| - 1], max);
      assert (a + b)[..|a + b| - 1] == a + b[..|b| - 1];
    }
  }

  /** The C string that starts at an index of a buffer. */
  method ReadCString(buffer: array<char>, start: nat, ghost end: nat) returns (s: string)
    requires start <= end < buffer.Length && buffer[end] == '\0'
    requires forall j :: start <= j < end ==> buffer[j] != '\0'
    ensures s == buffer[start..end]
  {
    s := "";
    while buffer[start + |s|] != '\0'
      invariant start + |s| <= end && s == buffer[start..start + |s|]
      decreases end - start - |s|
    {
      s := s + [buffer[start + |s|]];
    }
  }

  /** The lines from an index on, none past the final null. */
  function LinesFrom(content: string, start: nat): seq<string>
    requires start <= |content| + 1
  {
    if start <= |content| then SplitLines(content[start..]) else []
  }

  /** The line that ends at a break is the next line of the split. */
  lemma NextLine(content: string, start: nat, i: nat)
    requires start <= i <= |content| && (i < |content| ==> IsBreak(content[i]))
    requires OneLine(content[start..i])
    ensures LinesFrom(content, start) == [content[start..i]] + LinesFrom(content, i + 1)
  {
    hide IsBreak, OneLine, SplitLines;
    var line := content[start..i];
    if i < |content| {
      SplitFirst(line, content[i], content[i + 1..]);
      CutAt(content, start, i);
    } else {
      assert content[start..] == line;
      LastLine(line);
    }
  }

  lemma CutAt(content: string, start: nat, i: nat)
    requires start <= i < |content|
    ensures content[start..] == content[start..i] + [content[i]] + content[i + 1..]
  {
  }

  lemma LastLine(line: string)
    requires OneLine(line)
    ensures SplitLines(line) == [line]
  {
  }

  /** One more line for the parser. */
  lemma ParseNext(lines: seq<string>, line: string, rest: seq<string>, entries: seq<Entry>, max: nat)
    requires ParseLines(lines, max) == Some(entries)
    ensures
      var text := StripReturn(line);
      var e := if |entries| >= max then None else ParseLine(text);
      if text == "" then ParseLines(lines + [line], max) == Some(entries)
      else if e.None? then ParseLines(lines + ([line] + rest), max) == None
      else ParseLines(lines + [line], max) == Some(entries + [e.value])
  {
    hide StripReturn, ParseLine;
    assert (lines + [line])[..|lines|] == lines;
    assert lines + ([line] + rest) == lines + [line] + rest;
    if ParseLines(lines + [line], max).None? {
      ParseFails(lines + [line], rest, max);
    }
  }

  lemma LoadStart(content: string, max: nat)
    ensures SplitLines(content) == [] + LinesFrom(content, 0) && ParseLines([], max) == Some([]) && OneLine("")
  {
    assert content[0..] == content;
  }

  lemma LoadEnd(content: string)
    ensures LinesFrom(content, |content| + 1) == []
  {
  }

  lemma EmptyLine()
    ensures OneLine("")
  {
  }

  lemma BreakHere(content: string, i: nat, c: char)
    requires i <= |content| && c == (if i < |content| then content[i] else '\0') && (c == '\n' || c == '\0')
    ensures i < |content| ==> IsBreak(content[i])
  {
  }

  lemma LongerLine(content: string, start: nat, i: nat)
    requires start <= i < |content| && content[i] != '\n' && content[i] != '\0' && OneLine(content[start..i])
    ensures OneLine(content[start..i + 1]) && content[start..i + 1] == content[start..i] + [content[i]]
  {
    assert content[start..i + 1] == content[start..i] + [content[i]];
  }

  /** The loop of install_manifest_load over its null-terminated buffer. */
  method LoadBuffer(content: string, max: nat) returns (r: Option<seq<Entry>>)
    ensures r == Parse(content, max)
  {
    hide ParseLine, StripReturn, LinesFrom, ParseLines, IsBreak, OneLine;
    var size := |content|;
    var buffer := new char[size + 1](i => if 0 <= i < |content| then content[i] else '\0');
    var entries: seq<Entry> := [];
    var i, lineStart := 0, 0;
    ghost var lines: seq<string> := [];
    LoadStart(content, max);
    while i <= size
      invariant lineStart <= i <= size + 1 && (i == size + 1 ==> lineStart == i)
      invariant forall j :: i <= j <= size ==> buffer[j] == if j < size then content[j] else '\0'
      invariant i <= size ==> buffer[lineStart..i] == content[lineStart..i] && OneLine(content[lineStart..i])
      invariant SplitLines(content) == lines + LinesFrom(content, lineStart)
      invariant ParseLines(lines, max) == Some(entries)
    {
      if buffer[i] == '\n' || buffer[i] == '\0' {
        ghost var line, rest := content[lineStart..i], LinesFrom(content, i + 1);
        BreakHere(content, i, buffer[i]);
        var text := CutLine(buffer, lineStart, i, line);
        NextLine(content, lineStart, i);
        ParseNext(lines, line, rest, entries, max);
        assert lines + ([line] + rest) == lines + [line] + rest;
        if text != "" {
          var e := if |entries| >= max then None else ParseLine(text);
          if e.None? {
            return None;
          }
          entries := entries + [e.value];
        }
        lines := lines + [line];
        lineStart := i + 1;
        EmptyLine();
      } else {
        LongerLine(content, lineStart, i);
      }
      i := i + 1;
    }
    LoadEnd(content);
    assert lines + [] == lines;
    r := Some(entries);
  }

  /** Ends the line at i, drops a carriage return before it and reads it. */
  method CutLine(buffer: array<char>, start: nat, i: nat, ghost line: string) returns (text: string)
    requires start <= i < buffer.Length && buffer[start..i] == line && OneLine(line)
    modifies buffer
    ensures text == StripReturn(line)
    ensures forall j :: i < j < buffer.Length ==> buffer[j] == old(buffer[j])
  {
    buffer[i] := '\0';
    ghost var end := i;
    if i > start && buffer[i - 1] == '\r' {
      buffer[i - 1] := '\0';
      end := i - 1;
    }
    assert forall j :: start <= j < end ==> buffer[j] == line[j - start];
    text := ReadCString(buffer, start, end);
  }
}
