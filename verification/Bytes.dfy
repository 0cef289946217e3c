/** Little-endian fixed-width integers over bytes. */
module Bytes {

  type Byte = b: int | 0 <= b < 0x100

  /** A 32-bit word: the bit pattern of an `f32` component, or a `u32` field. */
  type Word = w: int | 0 <= w < 0x1_0000_0000

  /** One stored row. */
  type Vector = seq<Word>

  const U32_LIMIT := 0x1_0000_0000
  const U64_LIMIT := 0x1_0000_0000_0000_0000

  function Pow256(n: nat): nat {
    if n == 0 then 1 else 256 * Pow256(n - 1)
  }

  /** The `width` low-order bytes of `n`, least significant first (`to_le_bytes`). */
  function Le(n: nat, width: nat): (b: seq<Byte>)
    ensures |b| == width
  {
    if width == 0 then [] else [n % 256] + Le(n / 256, width - 1)
  }

  /** The number a little-endian byte string denotes (`from_le_bytes`). */
  function FromLe(b: seq<Byte>): nat {
    if b == [] then 0 else b[0] + 256 * FromLe(b[1..])
  }

  lemma WidthLimits()
    ensures Pow256(1) == 0x100 && Pow256(4) == U32_LIMIT && Pow256(8) == U64_LIMIT
  {
    assert Pow256(2) == 0x1_0000;
    assert Pow256(3) == 0x100_0000;
    assert Pow256(4) == 0x1_0000_0000;
    assert Pow256(5) == 0x100_0000_0000;
    assert Pow256(6) == 0x1_0000_0000_0000;
    assert Pow256(7) == 0x100_0000_0000_0000;
  }

  /** Decoding an encoding gives the low-order part of the number back. */
  lemma {:induction false} FromLeLe(n: nat, width: nat)
    requires n < Pow256(width)
    ensures FromLe(Le(n, width)) == n
  {
    if width != 0 {
      FromLeLe(n / 256, width - 1);
      assert Le(n, width)[1..] == Le(n / 256, width - 1);
    }
  }

  /** Encoding a decoding gives the bytes back, so no two byte strings of one width collide. */
  lemma {:induction false} LeFromLe(b: seq<Byte>)
    ensures FromLe(b) < Pow256(|b|)
    ensures Le(FromLe(b), |b|) == b
  {
    if b != [] {
      var t := FromLe(b[1..]);
      var n := b[0] + 256 * t;
      LeFromLe(b[1..]);
      SplitLow(b[0], t);
      assert FromLe(b) == n;
      assert Le(n, |b|) == [n % 256] + Le(n / 256, |b| - 1);
      assert b == [b[0]] + b[1..];
    }
  }

  lemma SplitLow(low: Byte, high: nat)
    ensures (low + 256 * high) % 256 == low && (low + 256 * high) / 256 == high
  {
  }

  lemma Le4(n: nat)
    requires n < U32_LIMIT
    ensures FromLe(Le(n, 4)) == n
  {
    WidthLimits();
    FromLeLe(n, 4);
  }

  lemma Le8(n: nat)
    requires n < U64_LIMIT
    ensures FromLe(Le(n, 8)) == n
  {
    WidthLimits();
    FromLeLe(n, 8);
  }

  /** The `u32` in a four-byte field. */
  function FromLe4(b: seq<Byte>): (n: Word)
    requires |b| == 4
  {
    WidthLimits();
    LeFromLe(b);
    FromLe(b)
  }

  function FromLe8(b: seq<Byte>): (n: nat)
    requires |b| == 8
    ensures n < U64_LIMIT
  {
    WidthLimits();
    LeFromLe(b);
    FromLe(b)
  }

  /** Four base-256 digits, the lowest first. */
  ghost function Digits(a: int, b: int, c: int, d: int): int {
    a + 0x100 * b + 0x1_0000 * c + 0x100_0000 * d
  }

  /** The least significant byte comes first. */
  lemma FourBytes(b: seq<Byte>)
    requires |b| == 4
    ensures FromLe(b) == Digits(b[0], b[1], b[2], b[3])
    ensures Le(FromLe(b), 4) == b
  {
    var c := b[1..];
    var d := c[1..];
    var e := d[1..];
    assert e[1..] == [];
    assert FromLe(e) == Digits(b[3], 0, 0, 0);
    assert FromLe(d) == Digits(b[2], b[3], 0, 0);
    assert FromLe(c) == Digits(b[1], b[2], b[3], 0);
    LeFromLe(b);
  }

  lemma EightBytes(b: seq<Byte>)
    requires |b| == 8
    ensures FromLe(b) == Digits(b[0], b[1], b[2], b[3]) + 0x1_0000_0000 * Digits(b[4], b[5], b[6], b[7])
    ensures Le(FromLe(b), 8) == b
  {
    hide FromLe;
    var c, d, e, f := b[1..], b[2..], b[3..], b[4..];
    FourBytes(f);
    FromLeCons(b);
    FromLeCons(c);
    FromLeCons(d);
    FromLeCons(e);
    assert c[1..] == d && d[1..] == e && e[1..] == f;
    LeFromLe(b);
  }

  lemma FromLeCons(b: seq<Byte>)
    requires b != []
    ensures FromLe(b) == Digits(b[0], FromLe(b[1..]), 0, 0)
  {
  }
}
