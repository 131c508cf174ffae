/**
 Integers as bytes: base-128 varints (src/util.c, src/pogocache.c) and fixed-width
 little-endian fields.
 */
module Varint {
  import opened Common

  /** The outcome of reading a varint: the bytes used and the value, or why there is none. */
  datatype Read = Value(n: nat, x: nat) | Short | TooLong

  function Pow128(i: nat): (r: nat)
    ensures r > 0
  {
    if i == 0 then 1 else 128 * Pow128(i - 1)
  }

  function Write(x: nat): (r: Bytes)
    ensures r != []
  {
    if x < 128 then [x] else [x % 128 + 128] + Write(x / 128)
  }

  /** Reading the group at position `i` and those after it; shifted bits past the 64th are lost. */
  function ReadFrom(bs: Bytes, i: nat, acc: nat): Read
    decreases |bs|
  {
    if i >= 10 then TooLong
    else if bs == [] then Short
    else
      var x := acc + bs[0] % 128 * Pow128(i) % UINT64_LIMIT;
      if bs[0] < 128 then Value(i + 1, x) else ReadFrom(bs[1..], i + 1, x)
  }

  function ReadVar(bs: Bytes): Read {
    ReadFrom(bs, 0, 0)
  }

  /** varint_write_u64 */
  method WriteInto(x: nat, dst: array<Byte>) returns (n: nat)
    requires dst.Length >= |Write(x)|
    modifies dst
    ensures n == |Write(x)| && dst[..n] == Write(x)
  {
    n := 0;
    var y := x;
    while y >= 128
      invariant n <= dst.Length && Write(x) == dst[..n] + Write(y)
      invariant n + |Write(y)| == |Write(x)|
    {
      dst[n] := y % 128 + 128;
      n := n + 1;
      y := y / 128;
    }
    dst[n] := y;
    n := n + 1;
  }

  /** varint_read_u64: `n` is the number of bytes read, 0 if they end too early, -1 if too long. */
  method ReadAt(bs: Bytes) returns (n: int, x: nat)
    ensures n > 0 <==> ReadVar(bs).Value?
    ensures n > 0 ==> ReadVar(bs) == Value(n, x)
    ensures n == 0 <==> ReadVar(bs) == Short
    ensures n == -1 <==> ReadVar(bs) == TooLong
  {
    if |bs| > 0 && bs[0] < 128 {
      ReadByte(bs);
      return 1, bs[0];
    }
    x := 0;
    var i, w := 0, 1;
    while i < |bs| && i < 10
      invariant 0 <= i <= |bs| && i <= 10 && w == Pow128(i)
      invariant ReadVar(bs) == ReadFrom(bs[i..], i, x)
    {
      var b := bs[i];
      x := x + b % 128 * w % UINT64_LIMIT;
      if b < 128 {
        return i + 1, x;
      }
      assert bs[i..][1..] == bs[i + 1..];
      i := i + 1;
      w := 128 * w;
    }
    n := if i == 10 then -1 else 0;
  }

  lemma ReadByte(bs: Bytes)
    requires |bs| > 0 && bs[0] < 128
    ensures ReadVar(bs) == Value(1, bs[0])
  {
    assert Pow128(0) == 1;
    assert bs[0] % 128 * Pow128(0) % UINT64_LIMIT == bs[0];
  }

  /** Ten groups of seven bits are more than a 64-bit value has. */
  lemma {:induction false} Pow128Ten(i: nat)
    requires i >= 10
    ensures Pow128(i) > UINT64_LIMIT
  {
    if i > 10 {
      Pow128Ten(i - 1);
    } else {
      assert Pow128(5) == 0x8_0000_0000;
      assert Pow128(10) == 0x8_0000_0000 * 0x8_0000_0000;
    }
  }

  /** Splitting off the low group of a shifted value. */
  lemma Groups(x: nat, w: nat)
    ensures x % 128 * w + x / 128 * (128 * w) == x * w
    ensures x % 128 * w <= x * w
  {
    var q, r := x / 128, x % 128;
    assert x == 128 * q + r;
    calc {
      x * w;
      (128 * q + r) * w;
      128 * q * w + r * w;
      q * (128 * w) + r * w;
    }
    assert q * (128 * w) >= 0;
  }

  lemma {:induction false} ReadWritten(x: nat, i: nat, acc: nat, rest: Bytes)
    requires x * Pow128(i) < UINT64_LIMIT && (x > 0 || i < 10)
    ensures ReadFrom(Write(x) + rest, i, acc) == Value(i + |Write(x)|, acc + x * Pow128(i))
    decreases x
  {
    hide Pow128, ReadFrom, Write;
    FewGroups(x, i);
    if x >= 128 {
      GroupsNext(x, i);
      ReadWritten(x / 128, i + 1, acc + x % 128 * Pow128(i), rest);
      ReadGroup(x, i, acc, rest);
    } else {
      ReadLast(x, i, acc, rest);
    }
  }

  lemma FewGroups(x: nat, i: nat)
    requires x * Pow128(i) < UINT64_LIMIT && (x > 0 || i < 10)
    ensures i < 10
  {
    hide Pow128;
    if i >= 10 {
      Pow128Ten(i);
      Scale(1, x, Pow128(i));
      assert false;
    }
  }

  /** What is left of a value after its low group, one group further on. */
  lemma GroupsNext(x: nat, i: nat)
    ensures x / 128 * Pow128(i + 1) <= x * Pow128(i) && x % 128 * Pow128(i) <= x * Pow128(i)
    ensures x % 128 * Pow128(i) + x / 128 * Pow128(i + 1) == x * Pow128(i)
  {
    hide Pow128;
    Groups(x, Pow128(i));
    Pow128Next(i);
  }

  lemma ReadLast(x: nat, i: nat, acc: nat, rest: Bytes)
    requires x < 128 && i < 10 && x * Pow128(i) < UINT64_LIMIT
    ensures ReadFrom(Write(x) + rest, i, acc) == Value(i + |Write(x)|, acc + x * Pow128(i))
  {
    hide Pow128;
    Small(x * Pow128(i));
    assert (Write(x) + rest)[0] == x;
  }

  /** Reading the first group of a value that has more. */
  lemma ReadGroup(x: nat, i: nat, acc: nat, rest: Bytes)
    requires x >= 128 && i < 10 && x % 128 * Pow128(i) < UINT64_LIMIT
    ensures ReadFrom(Write(x) + rest, i, acc) == ReadFrom(Write(x / 128) + rest, i + 1, acc + x % 128 * Pow128(i))
    ensures |Write(x)| == 1 + |Write(x / 128)|
  {
    hide Pow128;
    var bs, w := Write(x) + rest, Pow128(i);
    assert bs[1..] == Write(x / 128) + rest;
    assert bs[0] % 128 == x % 128 && bs[0] >= 128;
    assert x % 128 * w % UINT64_LIMIT == x % 128 * w by { Small(x % 128 * w); }
  }

  lemma Small(x: nat)
    requires x < UINT64_LIMIT
    ensures x % UINT64_LIMIT == x
  {
  }

  lemma Scale(a: nat, b: nat, w: nat)
    requires a <= b
    ensures a * w <= b * w
  {
  }

  lemma Pow128Next(i: nat)
    ensures Pow128(i + 1) == 128 * Pow128(i)
  {
  }

  /** A written 64-bit value is read back, whatever follows it. */
  lemma RoundTrip(x: nat, rest: Bytes)
    requires x < UINT64_LIMIT
    ensures ReadVar(Write(x) + rest) == Value(|Write(x)|, x)
  {
    assert Pow128(0) == 1;
    ReadWritten(x, 0, 0, rest);
  }

  /** No 64-bit value needs more than ten bytes. */
  lemma WriteLength(x: nat)
    requires x < UINT64_LIMIT
    ensures |Write(x)| <= 10
  {
    RoundTrip(x, []);
    ReadLength(Write(x) + [], 0, 0);
  }

  lemma {:induction false} ReadLength(bs: Bytes, i: nat, acc: nat)
    ensures var r := ReadFrom(bs, i, acc); r.Value? ==> i < r.n <= 10 && r.n - i <= |bs|
    decreases |bs|
  {
    if i < 10 && bs != [] {
      ReadLength(bs[1..], i + 1, acc + bs[0] % 128 * Pow128(i) % UINT64_LIMIT);
    }
  }

  lemma {:induction false} ReadCut(x: nat, k: nat, i: nat, acc: nat)
    requires k < |Write(x)| && i + |Write(x)| <= 10
    ensures ReadFrom(Write(x)[..k], i, acc) == Short
    decreases x
  {
    if k > 0 {
      var bs := Write(x)[..k];
      assert bs[1..] == Write(x / 128)[..k - 1];
      ReadCut(x / 128, k - 1, i + 1, acc + bs[0] % 128 * Pow128(i) % UINT64_LIMIT);
    }
  }

  /** A value that is cut short is not mistaken for another. */
  lemma CutShort(x: nat, k: nat)
    requires x < UINT64_LIMIT && k < |Write(x)|
    ensures ReadVar(Write(x)[..k]) == Short
  {
    WriteLength(x);
    ReadCut(x, k, 0, 0);
  }

  // ----- fixed-width fields -----

  /** The low `k` bytes of a value, least significant first. */
  function Fixed(x: nat, k: nat): (r: Bytes)
    ensures |r| == k
    decreases k
  {
    if k == 0 then [] else [x % 256] + Fixed(x / 256, k - 1)
  }

  function FromFixed(bs: Bytes): (r: nat)
    decreases |bs|
  {
    if bs == [] then 0 else bs[0] + 256 * FromFixed(bs[1..])
  }

  function Pow256(k: nat): (r: nat)
    ensures r > 0
  {
    if k == 0 then 1 else 256 * Pow256(k - 1)
  }

  lemma {:induction false} FixedRoundTrip(x: nat, k: nat)
    requires x < Pow256(k)
    ensures FromFixed(Fixed(x, k)) == x
    decreases k
  {
    if k > 0 {
      FixedRoundTrip(x / 256, k - 1);
      assert Fixed(x, k)[1..] == Fixed(x / 256, k - 1);
    }
  }

  lemma Widths()
    ensures Pow256(4) == UINT32_LIMIT && Pow256(8) == UINT64_LIMIT
  {
    assert Pow256(2) == 0x1_0000;
    assert Pow256(4) == 0x1_0000_0000;
    assert Pow256(6) == 0x1_0000_0000_0000;
  }

  /** A signed 64-bit value as the unsigned one with the same bits, and back. */
  function Unsigned(x: int): nat
    requires IsInt64(x)
  {
    if x < 0 then x + UINT64_LIMIT else x
  }

  function Signed(x: nat): int {
    if x > INT64_MAX then x - UINT64_LIMIT else x
  }
}
