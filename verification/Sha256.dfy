/**
 The SHA-256 hash function as FIPS 180-4 defines it: the constants and functions of
 sections 4.1.2 and 4.2.2, the padding of section 5.1.1 and the computation of section
 6.2.2. Nothing here is an algorithm of the installer; Sha256Stream proves the
 installer's buffered context against these definitions.
 */
module Sha256 {
  import opened Bytes

  newtype word = x: int | 0 <= x < 0x1_0000_0000

  const BLOCK: nat := 64
  const TWO_TO_THE_64: nat := 0x1_0000_0000_0000_0000
  const TWO_TO_THE_61: nat := 0x2000_0000_0000_0000

  datatype State = State(a: word, b: word, c: word, d: word, e: word, f: word, g: word, h: word)

  const INITIAL := State(
    0x6A09E667, 0xBB67AE85, 0x3C6EF372, 0xA54FF53A, 0x510E527F, 0x9B05688C, 0x1F83D9AB, 0x5BE0CD19)

  type Constants = s: seq<word> | |s| == 64 witness seq(64, _ => 0)

  type Eight = s: seq<word> | |s| == 8 witness seq(8, _ => 0)

  const K0: Eight := [0x428A2F98, 0x71374491, 0xB5C0FBCF, 0xE9B5DBA5,
                      0x3956C25B, 0x59F111F1, 0x923F82A4, 0xAB1C5ED5]
  const K1: Eight := [0xD807AA98, 0x12835B01, 0x243185BE, 0x550C7DC3,
                      0x72BE5D74, 0x80DEB1FE, 0x9BDC06A7, 0xC19BF174]
  const K2: Eight := [0xE49B69C1, 0xEFBE4786, 0x0FC19DC6, 0x240CA1CC,
                      0x2DE92C6F, 0x4A7484AA, 0x5CB0A9DC, 0x76F988DA]
  const K3: Eight := [0x983E5152, 0xA831C66D, 0xB00327C8, 0xBF597FC7,
                      0xC6E00BF3, 0xD5A79147, 0x06CA6351, 0x14292967]
  const K4: Eight := [0x27B70A85, 0x2E1B2138, 0x4D2C6DFC, 0x53380D13,
                      0x650A7354, 0x766A0ABB, 0x81C2C92E, 0x92722C85]
  const K5: Eight := [0xA2BFE8A1, 0xA81A664B, 0xC24B8B70, 0xC76C51A3,
                      0xD192E819, 0xD6990624, 0xF40E3585, 0x106AA070]
  const K6: Eight := [0x19A4C116, 0x1E376C08, 0x2748774C, 0x34B0BCB5,
                      0x391C0CB3, 0x4ED8AA4A, 0x5B9CCA4F, 0x682E6FF3]
  const K7: Eight := [0x748F82EE, 0x78A5636F, 0x84C87814, 0x8CC70208,
                      0x90BEFFFA, 0xA4506CEB, 0xBEF9A3F7, 0xC67178F2]

  /** The constants of section 4.2.2. */
  const K: Constants := K0 + K1 + K2 + K3 + K4 + K5 + K6 + K7

  /** Addition modulo 2^32. */
  function Add(x: word, y: word): word {
    ((x as int + y as int) % 0x1_0000_0000) as word
  }

  // The functions of section 4.1.2, on 32-bit vectors; Sha256Functions says what they do to each bit.

  /** ROTR of section 3.2. */
  function Rotr(x: bv32, n: bv32): bv32
    requires 0 < n < 32
  {
    (x >> n) | (x << (32 - n))
  }

  function ChVector(x: bv32, y: bv32, z: bv32): bv32 { (x & y) ^ (!x & z) }

  function MajVector(x: bv32, y: bv32, z: bv32): bv32 { (x & y) ^ (x & z) ^ (y & z) }

  function BigSigma0Vector(x: bv32): bv32 { Rotr(x, 2) ^ Rotr(x, 13) ^ Rotr(x, 22) }

  function BigSigma1Vector(x: bv32): bv32 { Rotr(x, 6) ^ Rotr(x, 11) ^ Rotr(x, 25) }

  function SmallSigma0Vector(x: bv32): bv32 { Rotr(x, 7) ^ Rotr(x, 18) ^ (x >> 3) }

  function SmallSigma1Vector(x: bv32): bv32 { Rotr(x, 17) ^ Rotr(x, 19) ^ (x >> 10) }

  function Ch(x: word, y: word, z: word): word { ChVector(x as bv32, y as bv32, z as bv32) as word }

  function Maj(x: word, y: word, z: word): word { MajVector(x as bv32, y as bv32, z as bv32) as word }

  function BigSigma0(x: word): word { BigSigma0Vector(x as bv32) as word }

  function BigSigma1(x: word): word { BigSigma1Vector(x as bv32) as word }

  function SmallSigma0(x: word): word { SmallSigma0Vector(x as bv32) as word }

  function SmallSigma1(x: word): word { SmallSigma1Vector(x as bv32) as word }

  function BigEndianWord(s: seq<byte>): word
    requires |s| == 4
  {
    (s[0] as int * 0x100_0000 + s[1] as int * 0x1_0000 + s[2] as int * 0x100 + s[3] as int) as word
  }

  /** The message schedule W of section 6.2.2, step 1. */
  function W(block: seq<byte>, t: nat): word
    requires |block| == BLOCK && t < 64
  {
    if t < 16 then BigEndianWord(block[4 * t..4 * t + 4])
    else
      Add(Add(Add(SmallSigma1(W(block, t - 2)), W(block, t - 7)), SmallSigma0(W(block, t - 15))), W(block, t - 16))
  }

  /** One iteration of section 6.2.2, step 3. */
  function Round(v: State, k: word, w: word): State {
    var t1 := Add(Add(Add(Add(v.h, BigSigma1(v.e)), Ch(v.e, v.f, v.g)), k), w);
    var t2 := Add(BigSigma0(v.a), Maj(v.a, v.b, v.c));
    State(Add(t1, t2), v.a, v.b, v.c, Add(v.d, t1), v.e, v.f, v.g)
  }

  function Rounds(v: State, block: seq<byte>, t: nat): State
    requires |block| == BLOCK && t <= 64
  {
    if t == 0 then v else Round(Rounds(v, block, t - 1), K[t - 1], W(block, t - 1))
  }

  function Compress(v: State, block: seq<byte>): State
    requires |block| == BLOCK
  {
    var r := Rounds(v, block, 64);
    State(Add(v.a, r.a), Add(v.b, r.b), Add(v.c, r.c), Add(v.d, r.d),
          Add(v.e, r.e), Add(v.f, r.f), Add(v.g, r.g), Add(v.h, r.h))
  }

  /** The chaining value after all blocks of a whole number of blocks. */
  function HashBlocks(message: seq<byte>): State
    requires |message| % BLOCK == 0
  {
    if message == [] then INITIAL
    else
      var n := |message| - BLOCK;
      Compress(HashBlocks(message[..n]), message[n..])
  }

  function Zeros(n: nat): (z: seq<byte>)
    ensures |z| == n && forall i :: 0 <= i < n ==> z[i] == 0
  {
    seq(n, _ => 0)
  }

  /** The low `width` base-256 digits of n, most significant first. */
  function BigEndian(n: nat, width: nat): (s: seq<byte>)
    ensures |s| == width
  {
    if width == 0 then [] else BigEndian(n / 256, width - 1) + [(n % 256) as byte]
  }

  /** How many zero bytes bring a message of n bytes and the 0x80 byte to 56 modulo 64. */
  function ZeroBytes(n: nat): nat { if n % 64 < 56 then 55 - n % 64 else 119 - n % 64 }

  /** The padding appended to a message of n bytes; its bit length is stored modulo 2^64. */
  function Padding(n: nat): seq<byte> {
    [0x80] + Zeros(ZeroBytes(n)) + BigEndian(8 * n % TWO_TO_THE_64, 8)
  }

  function WordBytes(w: word): (s: seq<byte>)
    ensures |s| == 4
  {
    var n := w as int;
    [(n / 0x100_0000) as byte, (n / 0x1_0000 % 256) as byte, (n / 0x100 % 256) as byte, (n % 256) as byte]
  }

  function StateBytes(v: State): (s: seq<byte>)
    ensures |s| == 32
  {
    WordBytes(v.a) + WordBytes(v.b) + WordBytes(v.c) + WordBytes(v.d) +
    WordBytes(v.e) + WordBytes(v.f) + WordBytes(v.g) + WordBytes(v.h)
  }

  lemma PaddedLength(n: nat)
    ensures (n + |Padding(n)|) % BLOCK == 0
    ensures |Padding(n)| == if n % 64 < 56 then 64 - n % 64 else 128 - n % 64
  {
  }

  function Digest(message: seq<byte>): (d: seq<byte>)
    ensures |d| == 32
  {
    PaddedLength(|message|);
    StateBytes(HashBlocks(message + Padding(|message|)))
  }

  // ----- the definitions above meet the standard's words

  /** k of section 5.1.1: the least number of zero bits after the single one bit. */
  ghost predicate IsZeroBitCount(bits: nat, k: nat) {
    Congruent(bits, k) && forall j: nat :: j < k ==> !Congruent(bits, j)
  }

  ghost predicate Congruent(bits: nat, zeros: nat) { (bits + 1 + zeros) % 512 == 448 }

  ghost function Value(s: seq<byte>): nat {
    if s == [] then 0 else Value(s[..|s| - 1]) * 256 + s[|s| - 1] as nat
  }

  lemma TopDigits(n: nat, p: nat)
    requires n < 256 * p
    ensures n / 256 < p
  {
  }

  lemma {:induction false} BigEndianValue(n: nat, width: nat)
    requires n < Power256(width)
    ensures Value(BigEndian(n, width)) == n
  {
    if width > 0 {
      TopDigits(n, Power256(width - 1));
      BigEndianValue(n / 256, width - 1);
      assert BigEndian(n, width)[..width - 1] == BigEndian(n / 256, width - 1);
    }
  }

  ghost function Power256(n: nat): (p: nat)
    ensures p >= 1
  {
    if n == 0 then 1 else 256 * Power256(n - 1)
  }

  lemma ZeroBytesAreLeast(n: nat)
    ensures IsZeroBitCount(8 * n, 7 + 8 * ZeroBytes(n))
  {
    var q, r := n / 64, n % 64;
    forall j: nat | j <= 7 + 8 * ZeroBytes(n)
      ensures Congruent(8 * n, j) <==> 8 * r + 1 + j == 448 || 8 * r + 1 + j == 960
    {
      var x := 8 * r + 1 + j;
      Remainder(if x < 512 then q else q + 1, if x < 512 then x else x - 512, 8 * n + 1 + j);
    }
  }

  lemma Remainder(q: nat, r: nat, x: nat)
    requires x == 512 * q + r && r < 512
    ensures x % 512 == r
  {
  }

  lemma PaddingParts(n: nat)
    ensures
      var p, zeros := Padding(n), ZeroBytes(n);
      && |p| == 1 + zeros + 8
      && p[0] == 0x80
      && (forall i :: 1 <= i < 1 + zeros ==> p[i] == 0)
      && p[1 + zeros..] == BigEndian(8 * n % TWO_TO_THE_64, 8)
  {
  }

  lemma LengthValue(bits: nat)
    requires bits < TWO_TO_THE_64
    ensures Value(BigEndian(bits, 8)) == bits
  {
    EightDigits();
    BigEndianValue(bits, 8);
  }

  lemma SmallRemainder(x: nat, m: nat)
    requires x < m
    ensures x % m == x
  {
  }

  lemma EightDigits()
    ensures Power256(8) == TWO_TO_THE_64
  {
    assert Power256(2) == 0x1_0000;
    assert Power256(4) == 0x1_0000_0000;
    assert Power256(6) == 0x1_0000_0000_0000;
  }

  /**
   Section 5.1.1 for whole bytes: a one bit, the least count of zero bits that brings
   the length to 448 modulo 512, and the 64-bit length in bits.
   */
  lemma PaddingIsStandard(n: nat, p: seq<byte>, zeros: nat)
    requires n < TWO_TO_THE_61
    requires p == Padding(n) && zeros == ZeroBytes(n)
    ensures IsZeroBitCount(8 * n, 7 + 8 * zeros)
    ensures |p| == 1 + zeros + 8 && (n + |p|) % BLOCK == 0
    ensures p[0] == 0x80 && forall i :: 1 <= i < 1 + zeros ==> p[i] == 0
    ensures Value(p[1 + zeros..]) == 8 * n
  {
    PaddedLength(n);
    ZeroBytesAreLeast(n);
    var bits := 8 * n % TWO_TO_THE_64;
    SmallRemainder(8 * n, TWO_TO_THE_64);
    PaddingParts(n);
    LengthValue(bits);
  }

  lemma HashOneMoreBlock(message: seq<byte>, block: seq<byte>)
    requires |message| % BLOCK == 0 && |block| == BLOCK
    ensures HashBlocks(message + block) == Compress(HashBlocks(message), block)
  {
    assert (message + block)[..|message|] == message;
    assert (message + block)[|message|..] == block;
  }
}
