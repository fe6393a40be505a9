/** An optional value, used for results that may be absent. */
module Options {
  datatype Option<+T> = None | Some(value: T)
}

/** Octets, and C characters as octets. */
module Bytes {
  newtype byte = x: int | 0 <= x < 256

  function Octet(c: char): (b: byte)
    ensures c as int < 256 ==> b as int == c as int
  {
    (c as int % 256) as byte
  }

  function Octets(s: string): (r: seq<byte>)
    ensures |r| == |s|
  {
    seq(|s|, i requires 0 <= i < |s| => Octet(s[i]))
  }

  lemma OctetsAppend(a: string, b: string)
    ensures Octets(a + b) == Octets(a) + Octets(b)
  {
    hide Octet;
  }
}

/** Products and quotients that the solver does not find by itself. */
module Arithmetic {
  lemma {:induction false} MulMono(k: int, l: int, a: nat)
    requires k <= l
    ensures a * k <= a * l
  {
    assert a * l - a * k == a * (l - k);
  }

  lemma Scale(k: nat, d: int)
    ensures d >= 1 ==> k * d >= k
    ensures d <= -1 ==> k * d <= 0 - k
  {
  }

  lemma {:induction false} Quotient(n: nat, k: nat, q: int, r: nat)
    requires r < k && n == q * k + r
    ensures n / k == q
  {
    var d := n / k - q;
    assert k * d == r - n % k;
    Scale(k, d);
  }
}

/** Row-major positions in a grid of a given width. */
module Grid {
  import opened Arithmetic

  function Index(x: nat, y: nat, width: nat): nat { y * width + x }

  lemma {:induction false} IndexInside(x: nat, y: nat, width: nat, height: nat)
    requires x < width && y < height
    ensures Index(x, y, width) < width * height
  {
    MulMono(y + 1, height, width);
    assert width * (y + 1) == y * width + width;
  }

  lemma {:induction false} IndexInjective(x: nat, y: nat, u: nat, v: nat, width: nat)
    requires x < width && u < width && Index(x, y, width) == Index(u, v, width)
    ensures x == u && y == v
  {
    assert width * (y - v) == y * width - v * width;
    if y < v {
      MulMono(y - v, -1, width);
    }
    if v < y {
      MulMono(1, y - v, width);
    }
  }

  /** The coordinate x of a side of length `to` carried to a side of length `from`. */
  function Scaled(x: nat, from: nat, to: nat): nat
    requires to > 0
  {
    x * from / to
  }

  /** The quotient rounded down; a side carried to its own length stays. */
  lemma ScaledIs(x: nat, from: nat, to: nat)
    requires to > 0
    ensures Scaled(x, from, to) * to <= x * from < (Scaled(x, from, to) + 1) * to
    ensures from == to ==> Scaled(x, from, to) == x
  {
    var q := x * from / to;
    assert (q + 1) * to == q * to + to;
    if from == to {
      Quotient(x * from, to, x, 0);
    }
  }

  /** A scaled coordinate is inside the source. */
  lemma {:induction false} ScaledInside(x: nat, from: nat, to: nat)
    requires x < to && from > 0
    ensures Scaled(x, from, to) < from
  {
    var q := Scaled(x, from, to);
    assert to * q <= x * from;
    MulMono(x + 1, to, from);
    assert from * (x + 1) == x * from + from;
    if q >= from {
      MulMono(from, q, to);
    }
  }
}

/** Unsigned 32-bit numbers stored lowest byte first. */
module LittleEndian {
  import opened Bytes

  const U32: nat := 0x1_0000_0000

  function Word(b: seq<byte>): (n: nat)
    requires |b| == 4
    ensures n < U32
  {
    b[0] as nat + 0x100 * (b[1] as nat) + 0x1_0000 * (b[2] as nat) + 0x100_0000 * (b[3] as nat)
  }

  function WordBytes(n: nat): (b: seq<byte>)
    ensures |b| == 4
  {
    [(n % 256) as byte, (n / 0x100 % 256) as byte, (n / 0x1_0000 % 256) as byte, (n / 0x100_0000 % 256) as byte]
  }

  lemma {:induction false} WordRoundTrip(n: nat)
    requires n < U32
    ensures Word(WordBytes(n)) == n
  {
    var a, b, c := n / 0x100, n / 0x1_0000, n / 0x100_0000;
    assert b == a / 256 && c == b / 256;
  }

  lemma {:induction false} WordLossless(b: seq<byte>, c: seq<byte>)
    requires |b| == |c| == 4 && Word(b) == Word(c)
    ensures b == c
  {
    Digits(b[0] as nat, b[1] as nat + 0x100 * (b[2] as nat) + 0x1_0000 * (b[3] as nat),
           c[0] as nat, c[1] as nat + 0x100 * (c[2] as nat) + 0x1_0000 * (c[3] as nat));
    Digits(b[1] as nat, b[2] as nat + 0x100 * (b[3] as nat), c[1] as nat, c[2] as nat + 0x100 * (c[3] as nat));
    Digits(b[2] as nat, b[3] as nat, c[2] as nat, c[3] as nat);
  }

  lemma Digits(a: nat, m: nat, b: nat, n: nat)
    requires a < 256 && b < 256 && a + 256 * m == b + 256 * n
    ensures a == b && m == n
  {
  }
}
