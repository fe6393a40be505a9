/**
 What the functions of section 4.1.2 of FIPS 180-4 do to each bit, and what number four octets
 denote. Bit i of x, the lowest being bit 0, is (x >> i) & 1.
 */
module Sha256Functions {
  import opened Bytes
  import opened Sha256

  /** A sum that does not fit 32 bits loses 2^32, once. */
  lemma AddIs(x: word, y: word)
    ensures
      var sum := x as int + y as int;
      Add(x, y) as int == if sum < 0x1_0000_0000 then sum else sum - 0x1_0000_0000
  {
  }

  /** On words the functions are those on vectors. */
  lemma OnWords(x: word, y: word, z: word)
    ensures Ch(x, y, z) as bv32 == ChVector(x as bv32, y as bv32, z as bv32)
    ensures Maj(x, y, z) as bv32 == MajVector(x as bv32, y as bv32, z as bv32)
    ensures BigSigma0(x) as bv32 == BigSigma0Vector(x as bv32)
    ensures BigSigma1(x) as bv32 == BigSigma1Vector(x as bv32)
    ensures SmallSigma0(x) as bv32 == SmallSigma0Vector(x as bv32)
    ensures SmallSigma1(x) as bv32 == SmallSigma1Vector(x as bv32)
  {
    hide ChVector, MajVector, BigSigma0Vector, BigSigma1Vector, SmallSigma0Vector, SmallSigma1Vector;
    WordAndBack(ChVector(x as bv32, y as bv32, z as bv32));
    WordAndBack(MajVector(x as bv32, y as bv32, z as bv32));
    WordAndBack(BigSigma0Vector(x as bv32));
    WordAndBack(BigSigma1Vector(x as bv32));
    WordAndBack(SmallSigma0Vector(x as bv32));
    WordAndBack(SmallSigma1Vector(x as bv32));
  }

  lemma WordAndBack(b: bv32)
    ensures (b as word) as bv32 == b
  {
  }

  /** Ch chooses: it has the bits of y where x has ones, and those of z where x has none. */
  lemma ChBits(x: bv32, y: bv32, z: bv32)
    ensures ChVector(x, y, z) & x == y & x && ChVector(x, y, z) & !x == z & !x
  {
  }

  /** Maj goes with the majority: where x and y agree it has their bit, elsewhere that of z. */
  lemma MajBits(x: bv32, y: bv32, z: bv32)
    ensures MajVector(x, y, z) & !(x ^ y) == x & !(x ^ y) && MajVector(x, y, z) & (x ^ y) == z & (x ^ y)
  {
  }

  // Each sigma function adds up three bits of its argument: for a rotation by n the one n places
  // further up, counted around the end of the word, and for a shift by n the one n places further
  // up if there is one.

  lemma BigSigma0Places(x: bv32, i: bv32)
    requires i < 32
    ensures ((((x >> 2) | (x << 30)) ^ ((x >> 13) | (x << 19)) ^ ((x >> 22) | (x << 10))) >> i) & 1 ==
      ((x >> ((i + 2) & 31)) ^ (x >> ((i + 13) & 31)) ^ (x >> ((i + 22) & 31))) & 1
  {
  }

  lemma BigSigma0Bits(x: bv32, i: bv32)
    requires i < 32
    ensures (BigSigma0Vector(x) >> i) & 1 ==
      ((x >> ((i + 2) & 31)) ^ (x >> ((i + 13) & 31)) ^ (x >> ((i + 22) & 31))) & 1
  {
    BigSigma0Places(x, i);
  }

  lemma BigSigma1Places(x: bv32, i: bv32)
    requires i < 32
    ensures ((((x >> 6) | (x << 26)) ^ ((x >> 11) | (x << 21)) ^ ((x >> 25) | (x << 7))) >> i) & 1 ==
      ((x >> ((i + 6) & 31)) ^ (x >> ((i + 11) & 31)) ^ (x >> ((i + 25) & 31))) & 1
  {
  }

  lemma BigSigma1Bits(x: bv32, i: bv32)
    requires i < 32
    ensures (BigSigma1Vector(x) >> i) & 1 ==
      ((x >> ((i + 6) & 31)) ^ (x >> ((i + 11) & 31)) ^ (x >> ((i + 25) & 31))) & 1
  {
    BigSigma1Places(x, i);
  }

  lemma SmallSigma0Places(x: bv32, i: bv32)
    requires i < 32
    ensures ((((x >> 7) | (x << 25)) ^ ((x >> 18) | (x << 14)) ^ (x >> 3)) >> i) & 1 ==
      ((x >> ((i + 7) & 31)) ^ (x >> ((i + 18) & 31)) ^ (if i + 3 < 32 then x >> (i + 3) else 0)) & 1
  {
  }

  lemma SmallSigma0Bits(x: bv32, i: bv32)
    requires i < 32
    ensures (SmallSigma0Vector(x) >> i) & 1 ==
      ((x >> ((i + 7) & 31)) ^ (x >> ((i + 18) & 31)) ^ (if i + 3 < 32 then x >> (i + 3) else 0)) & 1
  {
    SmallSigma0Places(x, i);
  }

  lemma SmallSigma1Places(x: bv32, i: bv32)
    requires i < 32
    ensures ((((x >> 17) | (x << 15)) ^ ((x >> 19) | (x << 13)) ^ (x >> 10)) >> i) & 1 ==
      ((x >> ((i + 17) & 31)) ^ (x >> ((i + 19) & 31)) ^ (if i + 10 < 32 then x >> (i + 10) else 0)) & 1
  {
  }

  lemma SmallSigma1Bits(x: bv32, i: bv32)
    requires i < 32
    ensures (SmallSigma1Vector(x) >> i) & 1 ==
      ((x >> ((i + 17) & 31)) ^ (x >> ((i + 19) & 31)) ^ (if i + 10 < 32 then x >> (i + 10) else 0)) & 1
  {
    SmallSigma1Places(x, i);
  }

  // ----- octets

  /** The octets of a word, most significant first, are those it was read from. */
  lemma {:induction false} WordOctets(s: seq<byte>)
    requires |s| == 4
    ensures BigEndian(BigEndianWord(s) as nat, 4) == s
  {
    var n := BigEndianWord(s) as nat;
    LastOctet(n, 3, s[0] as nat * 0x1_0000 + s[1] as nat * 0x100 + s[2] as nat, s[3]);
    LastOctet(n / 256, 2, s[0] as nat * 0x100 + s[1] as nat, s[2]);
    LastOctet(n / 256 / 256, 1, s[0] as nat, s[1]);
    LastOctet(n / 256 / 256 / 256, 0, 0, s[0]);
    assert [s[0]] + [s[1]] + [s[2]] + [s[3]] == s;
  }

  lemma {:induction false} LastOctet(n: nat, width: nat, front: nat, last: byte)
    requires n == front * 256 + last as nat
    ensures n / 256 == front && BigEndian(n, width + 1) == BigEndian(front, width) + [last]
    ensures BigEndian(front, 0) == []
  {
  }
}
