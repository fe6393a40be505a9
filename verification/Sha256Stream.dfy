/**
 The installer's incremental SHA-256 context: a 64-byte buffer that is filled one byte
 at a time and compressed whenever it is full. `message` is the ghost record of what has
 been absorbed; the context is proved to compute Sha256.Digest of it.
 */
module Sha256Stream {
  import opened Arithmetic
  import opened Bytes
  import opened Sha256

  lemma AddCommutes(a: word, b: word)
    ensures Add(a, b) == Add(b, a)
  {
  }

  lemma AddAssociates(a: word, b: word, c: word)
    ensures Add(Add(a, b), c) == Add(a, Add(b, c))
  {
    hide Add;
    AddWraps(a, b);
    AddWraps(b, c);
    AddWraps(Add(a, b), c);
    AddWraps(a, Add(b, c));
  }

  lemma AddWraps(a: word, b: word)
    ensures Add(a, b) as int == a as int + b as int - if a as int + b as int >= 0x1_0000_0000 then 0x1_0000_0000 else 0
  {
  }

  /** The installer adds the four terms of the schedule in the opposite order. */
  lemma ReverseSum(a: word, b: word, c: word, d: word)
    ensures Add(Add(Add(a, b), c), d) == Add(Add(Add(d, c), b), a)
  {
    hide Add;
    AddCommutes(Add(Add(a, b), c), d);
    AddCommutes(Add(a, b), c);
    AddCommutes(a, b);
    AddAssociates(d, c, Add(b, a));
    AddAssociates(Add(d, c), b, a);
  }

  lemma ScheduleStep(block: seq<byte>, t: nat)
    requires |block| == BLOCK && 16 <= t < 64
    ensures W(block, t) == Add(Add(Add(W(block, t - 16), SmallSigma0(W(block, t - 15))), W(block, t - 7)),
                               SmallSigma1(W(block, t - 2)))
  {
    hide Add, BigEndianWord, SmallSigma0, SmallSigma1;
    ReverseSum(W(block, t - 16), SmallSigma0(W(block, t - 15)), W(block, t - 7), SmallSigma1(W(block, t - 2)));
  }

  lemma RoundStep(v: State, block: seq<byte>, t: nat)
    requires |block| == BLOCK && t < 64
    ensures Rounds(v, block, t + 1) == Round(Rounds(v, block, t), K[t], W(block, t))
  {
    hide W, Round;
  }

  lemma BigEndianBytes(n: nat)
    requires n < TWO_TO_THE_64
    ensures BigEndian(n, 8) == [
        (n / 0x100_0000_0000_0000) as byte, (n / 0x1_0000_0000_0000 % 256) as byte,
        (n / 0x100_0000_0000 % 256) as byte, (n / 0x1_0000_0000 % 256) as byte,
        (n / 0x100_0000 % 256) as byte, (n / 0x1_0000 % 256) as byte,
        (n / 0x100 % 256) as byte, (n % 256) as byte]
  {
    hide BigEndian;
    BigEndianStep(n, 1, 7);
    BigEndianStep(n, 0x100, 6);
    BigEndianStep(n, 0x1_0000, 5);
    BigEndianStep(n, 0x100_0000, 4);
    BigEndianStep(n, 0x1_0000_0000, 3);
    BigEndianStep(n, 0x100_0000_0000, 2);
    BigEndianStep(n, 0x1_0000_0000_0000, 1);
    BigEndianStep(n, 0x100_0000_0000_0000, 0);
    NoBytes(n / TWO_TO_THE_64);
  }

  /** The digits of n / k are those of n / (256 k) and one more. */
  lemma BigEndianStep(n: nat, k: nat, width: nat)
    requires k > 0
    ensures BigEndian(n / k, width + 1) == BigEndian(n / (k * 256), width) + [(n / k % 256) as byte]
  {
    hide BigEndian;
    DivideTwice(n, k);
    BigEndianUnfolded(n / k, width);
  }

  lemma BigEndianUnfolded(m: nat, width: nat)
    ensures BigEndian(m, width + 1) == BigEndian(m / 256, width) + [(m % 256) as byte]
  {
  }

  lemma {:induction false} DivideTwice(n: nat, k: nat)
    requires k > 0
    ensures n / k / 256 == n / (k * 256)
  {
    var m := n / k;
    Compose(k, m / 256, m % 256, n % k);
    Quotient(n, k * 256, m / 256, k * (m % 256) + n % k);
  }

  lemma Compose(k: nat, q: nat, t: nat, s: nat)
    requires t < 256 && s < k
    ensures k * (256 * q + t) + s == q * (k * 256) + (k * t + s)
    ensures k * t + s < k * 256
  {
    assert k * (256 * q + t) == k * (256 * q) + k * t;
    assert k * (256 * q) == q * (k * 256);
    MulMono(t, 255, k);
  }

  lemma NoBytes(n: nat)
    ensures BigEndian(n, 0) == []
  {
  }

  /** The message schedule of one block, in the array m of the transform. */
  method Schedule(data: array<byte>) returns (m: array<word>)
    requires data.Length == BLOCK
    ensures fresh(m) && m.Length == 64
    ensures forall t :: 0 <= t < 64 ==> m[t] == W(data[..], t)
  {
    hide Add, BigEndianWord, SmallSigma0, SmallSigma1;
    m := new word[64];
    var i := 0;
    while i < 16
      invariant i <= 16
      invariant forall t :: 0 <= t < i ==> m[t] == W(data[..], t)
    {
      m[i] := BigEndianWord(data[4 * i..4 * i + 4]);
      assert data[4 * i..4 * i + 4] == data[..][4 * i..4 * i + 4];
      i := i + 1;
    }
    ExtendSchedule(data[..], m);
  }

  method ExtendSchedule(ghost block: seq<byte>, m: array<word>)
    requires |block| == BLOCK && m.Length == 64
    requires forall t :: 0 <= t < 16 ==> m[t] == W(block, t)
    modifies m
    ensures forall t :: 0 <= t < 64 ==> m[t] == W(block, t)
  {
    hide Add, SmallSigma0, SmallSigma1, W;
    var i := 16;
    while i < 64
      invariant 16 <= i <= 64
      invariant forall t :: 0 <= t < i ==> m[t] == W(block, t)
    {
      var s0 := SmallSigma0(m[i - 15]);
      var s1 := SmallSigma1(m[i - 2]);
      ScheduleStep(block, i);
      m[i] := Add(Add(Add(m[i - 16], s0), m[i - 7]), s1);
      i := i + 1;
    }
  }

  /** Writes a word in big-endian order. */
  method StoreWord(value: word, out: array<byte>, at: nat)
    requires at + 4 <= out.Length
    modifies out
    ensures out[at..at + 4] == WordBytes(value)
    ensures forall j :: 0 <= j < at || at + 4 <= j < out.Length ==> out[j] == old(out[j])
  {
    hide WordBytes;
    var w := WordBytes(value);
    out[at], out[at + 1], out[at + 2], out[at + 3] := w[0], w[1], w[2], w[3];
  }

  class Context {
    const data: array<byte>
    const state: array<word>
    var datalen: nat
    var bitlen: nat // an unsigned 64-bit counter
    ghost var message: seq<byte>

    ghost predicate Shape() {
      data.Length == BLOCK && state.Length == 8
    }

    ghost predicate Valid()
      reads this, data, state
    {
      && Shape()
      && datalen < BLOCK
      && datalen <= |message|
      && (|message| - datalen) % BLOCK == 0
      && bitlen == 8 * (|message| - datalen) % TWO_TO_THE_64
      && data[..datalen] == message[|message| - datalen..]
      && Chain() == HashBlocks(message[..|message| - datalen])
    }

    ghost function Chain(): State
      requires Shape()
      reads state
    {
      State(state[0], state[1], state[2], state[3], state[4], state[5], state[6], state[7])
    }

    constructor ()
      ensures Valid() && message == []
      ensures fresh(data) && fresh(state)
    {
      data := new byte[64];
      state := new word[8];
      new;
      Init();
    }

    method Init()
      requires Shape()
      modifies this, state
      ensures Valid() && message == []
    {
      hide Compress, HashBlocks;
      datalen := 0;
      bitlen := 0;
      message := [];
      InitState();
      assert message[..|message| - datalen] == [];
      assert data[..datalen] == [];
      NoBlocks();
      assert Chain() == HashBlocks(message[..|message| - datalen]);
    }

    method InitState()
      requires Shape()
      modifies state
      ensures Chain() == INITIAL
    {
      state[0] := 0x6A09E667;
      state[1] := 0xBB67AE85;
      state[2] := 0x3C6EF372;
      state[3] := 0xA54FF53A;
      state[4] := 0x510E527F;
      state[5] := 0x9B05688C;
      state[6] := 0x1F83D9AB;
      state[7] := 0x5BE0CD19;
    }

    /** The 64 rounds over the buffered block, then the addition into the chaining value. */
    method Transform()
      requires Shape()
      modifies state
      ensures Chain() == Compress(old(Chain()), old(data[..]))
    {
      hide Add, BigSigma0, BigSigma1, Ch, Maj, W, Rounds, K;
      ghost var block, v := data[..], Chain();
      var m := Schedule(data);
      assert data[..] == block;
      var a, b, c, d := state[0], state[1], state[2], state[3];
      var e, f, g, h := state[4], state[5], state[6], state[7];
      var i := 0;
      assert State(a, b, c, d, e, f, g, h) == Rounds(v, block, 0) by { NoRounds(v, block); }
      while i < 64
        invariant i <= 64
        invariant State(a, b, c, d, e, f, g, h) == Rounds(v, block, i)
        invariant Chain() == v && forall t :: 0 <= t < 64 ==> m[t] == W(block, t)
      {
        RoundStep(v, block, i);
        var temp1 := Add(Add(Add(Add(h, BigSigma1(e)), Ch(e, f, g)), K[i]), m[i]);
        var temp2 := Add(BigSigma0(a), Maj(a, b, c));
        h := g;
        g := f;
        f := e;
        e := Add(d, temp1);
        d := c;
        c := b;
        b := a;
        a := Add(temp1, temp2);
        i := i + 1;
      }
      state[0], state[1] := Add(state[0], a), Add(state[1], b);
      state[2], state[3] := Add(state[2], c), Add(state[3], d);
      state[4], state[5] := Add(state[4], e), Add(state[5], f);
      state[6], state[7] := Add(state[6], g), Add(state[7], h);
    }

    /**
     The 0x80 byte and the zeros up to the length field, through a block of their own when
     the buffered tail leaves no room for the length.
     */
    method PadTail(ghost blocks: seq<byte>) returns (ghost done: seq<byte>)
      requires Shape() && datalen < BLOCK && |blocks| % BLOCK == 0 && Chain() == HashBlocks(blocks)
      modifies data, state
      ensures |done| % BLOCK == 0 && Chain() == HashBlocks(done)
      ensures done + data[..56] == blocks + (old(data[..datalen]) + [0x80] + Zeros(ZeroBytes(datalen)))
    {
      hide Compress, HashBlocks, ZeroBytes;
      ghost var tail := data[..datalen];
      var i := datalen;
      data[i] := 0x80;
      i := i + 1;
      SmallZeroBytes(datalen);
      if datalen < 56 {
        ZeroFill(i, 56);
        done := blocks;
        assert data[..56] == tail + [0x80] + Zeros(55 - datalen);
      } else {
        ZeroFill(i, 64);
        ghost var first := data[..];
        assert first == tail + [0x80] + Zeros(63 - datalen);
        Transform();
        HashOneMoreBlock(blocks, first);
        done := blocks + first;
        OneMoreBlock(|blocks|);
        ZeroFill(0, 56);
        assert Zeros(119 - datalen) == Zeros(63 - datalen) + data[..56];
      }
    }

    /** Pads, compresses the last one or two blocks and writes out the digest. */
    method Final(hash: array<byte>)
      requires Valid() && hash.Length == 32 && hash != data
      modifies this, data, state, hash
      ensures hash[..] == Digest(old(message))
    {
      hide Compress, HashBlocks, BigEndian, WordBytes, Padding;
      ghost var n := |message| - datalen;
      ghost var done := PadTail(message[..n]);
      var bits := (bitlen + datalen * 8) % TWO_TO_THE_64;
      WrapAdd(8 * n, 8 * datalen);
      ghost var front := data[..56];
      StoreLength(bits);
      assert data[..] == front + BigEndian(bits, 8);
      LastBlock(message, n, done, front, BigEndian(bits, 8));
      label L:
      Transform();
      HashOneMoreBlock(done, old@L(data[..]));
      StoreState(hash);
    }

    /** data[i..limit] becomes zero. */
    method ZeroFill(from: nat, limit: nat)
      requires Shape() && from <= limit <= 64
      modifies data
      ensures data[..from] == old(data[..from]) && data[limit..] == old(data[limit..])
      ensures data[from..limit] == Zeros(limit - from)
    {
      var i := from;
      while i < limit
        invariant from <= i <= limit
        invariant forall j :: 0 <= j < from || limit <= j < 64 ==> data[j] == old(data[j])
        invariant forall j :: from <= j < i ==> data[j] == 0
      {
        data[i] := 0;
        i := i + 1;
      }
    }

    method StoreLength(bits: nat)
      requires Shape() && bits < TWO_TO_THE_64
      modifies data
      ensures data[..56] == old(data[..56]) && data[56..] == BigEndian(bits, 8)
    {
      hide BigEndian;
      data[56] := (bits / 0x100_0000_0000_0000) as byte;
      data[57] := (bits / 0x1_0000_0000_0000 % 256) as byte;
      data[58] := (bits / 0x100_0000_0000 % 256) as byte;
      data[59] := (bits / 0x1_0000_0000 % 256) as byte;
      data[60] := (bits / 0x100_0000 % 256) as byte;
      data[61] := (bits / 0x1_0000 % 256) as byte;
      data[62] := (bits / 0x100 % 256) as byte;
      data[63] := (bits % 256) as byte;
      BigEndianBytes(bits);
    }

    method StoreState(hash: array<byte>)
      requires Shape() && hash.Length == 32
      modifies hash
      ensures hash[..] == StateBytes(Chain())
    {
      hide WordBytes;
      var i := 0;
      while i < 8
        invariant i <= 8
        invariant forall j :: 0 <= j < i ==> hash[4 * j..4 * j + 4] == WordBytes(state[j])
      {
        StoreWord(state[i], hash, 4 * i);
        i := i + 1;
      }
      EightWords(hash[..], Chain());
    }

    /** Absorbs input[..len]. */
    method Update(input: array<byte>, len: nat)
      requires Valid() && len <= input.Length && input != data
      modifies this, data, state
      ensures Valid() && message == old(message) + input[..len]
    {
      hide Compress, HashBlocks;
      var i := 0;
      while i < len
        invariant i <= len
        invariant Valid() && message == old(message) + input[..i]
        invariant input[..] == old(input[..])
      {
        Absorb(input[i]);
        i := i + 1;
      }
    }

    /** One iteration of the update loop. */
    method Absorb(x: byte)
      requires Valid()
      modifies this, data, state
      ensures Valid() && message == old(message) + [x]
    {
      hide Compress, HashBlocks;
      ghost var n := |message| - datalen;
      ghost var blocks := message[..n];
      data[datalen] := x;
      datalen := datalen + 1;
      message := message + [x];
      assert message[..n] == blocks;
      assert data[..datalen] == message[n..];
      if datalen == BLOCK {
        Transform();
        bitlen := (bitlen + 512) % TWO_TO_THE_64;
        datalen := 0;
        HashOneMoreBlock(blocks, data[..]);
        assert message == blocks + data[..];
        assert message[..|message|] == message;
        WrapAdd(8 * n, 512);
        OneMoreBlock(n);
      }
    }
  }

  lemma ZeroBytesOfTail(n: nat, r: nat)
    requires n % BLOCK == 0
    ensures ZeroBytes(r) == ZeroBytes(n + r)
  {
    SameRemainder(n / 64, r);
  }

  lemma SameRemainder(q: nat, r: nat)
    ensures (64 * q + r) % 64 == r % 64
  {
  }

  /** The padded message is what PadTail leaves, followed by the length. */
  lemma LastBlock(message: seq<byte>, n: nat, done: seq<byte>, front: seq<byte>, length: seq<byte>)
    requires n <= |message| && n % BLOCK == 0
    requires length == BigEndian(8 * |message| % TWO_TO_THE_64, 8)
    requires done + front == message[..n] + (message[n..] + [0x80] + Zeros(ZeroBytes(|message| - n)))
    ensures done + (front + length) == message + Padding(|message|)
  {
    hide BigEndian, ZeroBytes;
    ZeroBytesOfTail(n, |message| - n);
    Regroup(message[..n], message[n..], [0x80], Zeros(ZeroBytes(|message|)), length, done, front);
    assert message[..n] + message[n..] == message;
  }

  lemma Regroup<T>(a: seq<T>, b: seq<T>, c: seq<T>, d: seq<T>, e: seq<T>, x: seq<T>, y: seq<T>)
    requires x + y == a + (b + c + d)
    ensures x + (y + e) == a + b + (c + d + e)
  {
    assert x + (y + e) == x + y + e;
    assert a + (b + c + d) + e == a + b + (c + d + e);
  }

  lemma NoBlocks()
    ensures HashBlocks([]) == INITIAL
  {
  }

  lemma EightWords(hash: seq<byte>, v: State)
    requires |hash| == 32
    requires hash[0..4] == WordBytes(v.a) && hash[4..8] == WordBytes(v.b)
    requires hash[8..12] == WordBytes(v.c) && hash[12..16] == WordBytes(v.d)
    requires hash[16..20] == WordBytes(v.e) && hash[20..24] == WordBytes(v.f)
    requires hash[24..28] == WordBytes(v.g) && hash[28..32] == WordBytes(v.h)
    ensures hash == StateBytes(v)
  {
    hide WordBytes;
    assert hash == hash[0..4] + hash[4..8] + hash[8..12] + hash[12..16] +
                   hash[16..20] + hash[20..24] + hash[24..28] + hash[28..32];
  }

  lemma SmallZeroBytes(r: nat)
    requires r < BLOCK
    ensures ZeroBytes(r) == if r < 56 then 55 - r else 119 - r
  {
  }

  lemma OneMoreBlock(n: nat)
    requires n % BLOCK == 0
    ensures (n + BLOCK) % BLOCK == 0
  {
  }

  lemma NoRounds(v: State, block: seq<byte>)
    requires |block| == BLOCK
    ensures Rounds(v, block, 0) == v
  {
  }

  lemma WrapAdd(x: nat, y: nat)
    ensures (x % TWO_TO_THE_64 + y) % TWO_TO_THE_64 == (x + y) % TWO_TO_THE_64
  {
  }
}
