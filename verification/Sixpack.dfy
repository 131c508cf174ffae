/**
 Sixpack key compression (src/pogocache.c): keys over 63 allowed characters are stored with
 six bits per character.  Shifts and ors of disjoint bits are written as arithmetic.
 */
module Sixpack {
  import opened Common

  /** tosix: the code of a character, 0 if it is not allowed. */
  function ToSix(b: Byte): (r: nat)
    ensures r < 64
  {
    if 45 <= b <= 46 then b - 44
    else if 48 <= b <= 58 then b - 45
    else if 65 <= b <= 80 then b - 51
    else if 82 <= b <= 89 then b - 52
    else if b == 95 then 38
    else if 97 <= b <= 121 then b - 58
    else 0
  }

  /** fromsix */
  function FromSix(c: nat): Byte
    requires c < 64
  {
    if c == 0 then 0
    else if c <= 2 then c + 44
    else if c <= 13 then c + 45
    else if c <= 29 then c + 51
    else if c <= 37 then c + 52
    else if c == 38 then 95
    else c + 58
  }

  /** Each of the 63 codes belongs to a character, and no other character has one. */
  lemma CodesOnto(c: nat, b: Byte)
    requires 1 <= c <= 63
    ensures ToSix(FromSix(c)) == c
    ensures ToSix(b) == c <==> b == FromSix(c)
  {
  }

  lemma CodesInvert(b: Byte)
    ensures ToSix(b) > 0 ==> FromSix(ToSix(b)) == b
  {
  }

  lemma CodesOrder(a: Byte, b: Byte)
    requires ToSix(a) > 0 && ToSix(b) > 0
    ensures a < b <==> ToSix(a) < ToSix(b)
  {
  }

  /** Codes of six bits, none of them zero. */
  type Codes = seq<nat>

  ghost predicate Coded(cs: Codes) {
    forall i :: 0 <= i < |cs| ==> 0 < cs[i] < 64
  }

  function At(cs: Codes, i: nat): nat {
    if i < |cs| then cs[i] else 0
  }

  /** The packed bytes of a group of at most four codes. */
  function Group(cs: Codes): (r: Bytes)
    requires 0 < |cs| && forall i :: 0 <= i < |cs| ==> cs[i] < 64
    ensures |r| == if |cs| < 3 then |cs| else 3
  {
    var p: Bytes :=
      [4 * At(cs, 0) + At(cs, 1) / 16, At(cs, 1) % 16 * 16 + At(cs, 2) / 4, At(cs, 2) % 4 * 64 + At(cs, 3)];
    p[..if |cs| < 3 then |cs| else 3]
  }

  function Pack(cs: Codes): (r: Bytes)
    requires forall i :: 0 <= i < |cs| ==> cs[i] < 64
    decreases |cs|
  {
    if cs == [] then [] else if |cs| <= 4 then Group(cs) else Group(cs) + Pack(cs[4..])
  }

  // The four codes that three packed bytes hold.
  function Six0(p: Byte): (c: nat) ensures c < 64 { p / 4 }

  function Six1(p: Byte, q: Byte): (c: nat) ensures c < 64 { p % 4 * 16 + q / 16 }

  function Six2(q: Byte, r: Byte): (c: nat) ensures c < 64 { q % 16 * 4 + r / 64 }

  function Six3(r: Byte): (c: nat) ensures c < 64 { r % 64 }

  /** The codes in a packed string: three bytes hold four, one or two bytes hold as many. */
  function Unpack(bs: Bytes): (r: Codes)
    ensures forall i :: 0 <= i < |r| ==> r[i] < 64
    decreases |bs|
  {
    if bs == [] then []
    else if |bs| == 1 then [Six0(bs[0])]
    else if |bs| == 2 then [Six0(bs[0]), Six1(bs[0], bs[1])]
    else [Six0(bs[0]), Six1(bs[0], bs[1]), Six2(bs[1], bs[2]), Six3(bs[2])] + Unpack(bs[3..])
  }

  /** A trailing zero stands for a missing fourth character. */
  function Strip(cs: Codes): Codes {
    if cs != [] && cs[|cs| - 1] == 0 then cs[..|cs| - 1] else cs
  }

  /** Splitting and joining the bits of four codes. */
  lemma Bits(a: nat, b: nat, c: nat, d: nat)
    requires a < 64 && b < 64 && c < 64 && d < 64
    ensures var p, q, r := 4 * a + b / 16, b % 16 * 16 + c / 4, c % 4 * 64 + d;
            && p < 256 && q < 256 && r < 256
            && Six0(p) == a && Six1(p, q) == b && Six2(q, r) == c && Six3(r) == d
  {
  }

  /** One group, whatever follows it. */
  lemma UnpackGroup(cs: Codes, rest: Bytes)
    requires 0 < |cs| && (|cs| < 4 ==> rest == []) && forall i :: 0 <= i < |cs| ==> cs[i] < 64
    ensures Unpack(Group(cs) + rest) ==
            if |cs| < 3 then cs else [cs[0], cs[1], cs[2], At(cs, 3)] + Unpack(rest)
  {
    hide Six0, Six1, Six2, Six3;
    Bits(At(cs, 0), At(cs, 1), At(cs, 2), At(cs, 3));
    var bs := Group(cs) + rest;
    if |cs| < 3 {
      assert bs == Group(cs);
    } else {
      assert bs[3..] == rest;
    }
  }

  lemma {:induction false} UnpackPack(cs: Codes)
    requires Coded(cs)
    ensures Unpack(Pack(cs)) == if |cs| % 4 == 3 then cs + [0] else cs
    decreases |cs|
  {
    hide Group, Unpack;
    UnpackNone();
    if |cs| > 4 {
      var tail := cs[4..];
      UnpackGroup(cs, Pack(tail));
      UnpackPack(tail);
      var four := [cs[0], cs[1], cs[2], cs[3]];
      assert cs == four + tail;
      assert four + (tail + [0]) == cs + [0];
    } else if cs != [] {
      UnpackGroup(cs, []);
      assert Group(cs) + [] == Group(cs);
      if |cs| >= 3 {
        assert [cs[0], cs[1], cs[2], At(cs, 3)] + [] == if |cs| == 3 then cs + [0] else cs;
      }
    }
  }

  lemma UnpackNone()
    ensures Unpack([]) == []
  {
  }

  /** unsixpack undoes sixpack, lengths of 3 modulo 4 included. */
  lemma RoundTrip(cs: Codes)
    requires Coded(cs)
    ensures Strip(Unpack(Pack(cs))) == cs
  {
    UnpackPack(cs);
    if |cs| % 4 == 3 {
      assert (cs + [0])[..|cs|] == cs;
    }
  }

  // ----- order -----

  /** memcmp followed by a comparison of lengths. */
  function Lex(a: seq<int>, b: seq<int>): int
    decreases |a|
  {
    if a == [] || b == [] then (if a != [] then 1 else if b != [] then -1 else 0)
    else if a[0] != b[0] then (if a[0] < b[0] then -1 else 1)
    else Lex(a[1..], b[1..])
  }

  function Digit(s: seq<int>, i: nat): int {
    if i < |s| then s[i] else 0
  }

  function Tail(s: seq<int>): seq<int> {
    if s == [] then [] else s[1..]
  }

  ghost predicate Below(s: seq<int>, base: int) {
    forall i :: 0 <= i < |s| ==> 0 <= s[i] < base
  }

  /** The first `k` digits, missing ones counting as zero, read as a number. */
  function Number(s: seq<int>, k: nat, base: int): int
    decreases k
  {
    if k == 0 then 0 else Digit(s, 0) * Pow(base, k - 1) + Number(Tail(s), k - 1, base)
  }

  function Pow(base: int, k: nat): int {
    if k == 0 then 1 else base * Pow(base, k - 1)
  }

  lemma NumberStep(s: seq<int>, k: nat, base: int)
    requires k > 0
    ensures base > 0 && Below(s, base) ==> Below(Tail(s), base)
    ensures Number(s, k, base) == Digit(s, 0) * Pow(base, k - 1) + Number(Tail(s), k - 1, base)
    ensures Pow(base, k) == base * Pow(base, k - 1)
  {
  }

  lemma {:induction false} NumberBound(s: seq<int>, k: nat, base: int)
    requires base > 0 && Below(s, base)
    ensures 0 <= Number(s, k, base) < Pow(base, k)
    decreases k
  {
    hide Number, Pow;
    if k > 0 {
      NumberStep(s, k, base);
      NumberBound(Tail(s), k - 1, base);
      var d, w := Digit(s, 0), Pow(base, k - 1);
      MulMono(d + 1, base, w);
      MulMono(0, d, w);
    } else {
      NumberZero(s, base);
    }
  }

  lemma NumberZero(s: seq<int>, base: int)
    ensures Number(s, 0, base) == 0 && Pow(base, 0) == 1
  {
  }

  lemma MulMono(a: int, b: int, w: int)
    requires a <= b && w >= 0
    ensures a * w <= b * w
  {
  }

  /** Comparing two-part numbers compares the high parts first. */
  lemma Weigh(c: int, d: int, w: int, m: int, n: int)
    requires 0 <= m < w && 0 <= n < w && c * w + m <= d * w + n
    ensures c <= d && (c == d ==> m <= n)
  {
    if c > d {
      MulMono(d + 1, c, w);
    }
  }

  /** A smaller leading digit decides. */
  lemma LexHead(a: seq<int>, b: seq<int>)
    requires Digit(a, 0) < Digit(b, 0) && 0 <= Digit(a, 0)
    ensures Lex(a, b) == -1 && Lex(b, a) == 1
  {
  }

  /** Equal leading digits leave the decision to the rest. */
  lemma LexTail(a: seq<int>, b: seq<int>)
    requires Digit(a, 0) == Digit(b, 0) && Lex(Tail(a), Tail(b)) == -1 && Lex(Tail(b), Tail(a)) == 1
    ensures Lex(a, b) == -1 && Lex(b, a) == 1
  {
  }

  /** The leading digit of the smaller number is no larger; if equal, the rest is smaller. */
  lemma NumberHead(a: seq<int>, b: seq<int>, k: nat, base: int)
    requires base > 0 && Below(a, base) && Below(b, base) && k > 0
    requires Number(a, k, base) < Number(b, k, base)
    ensures 0 <= Digit(a, 0) <= Digit(b, 0)
    ensures Digit(a, 0) == Digit(b, 0) ==> Number(Tail(a), k - 1, base) < Number(Tail(b), k - 1, base)
    ensures Below(Tail(a), base) && Below(Tail(b), base)
  {
    hide Pow, Number;
    var c, d, w := Digit(a, 0), Digit(b, 0), Pow(base, k - 1);
    var m, n := Number(Tail(a), k - 1, base), Number(Tail(b), k - 1, base);
    NumberBound(Tail(a), k - 1, base);
    NumberBound(Tail(b), k - 1, base);
    NumberStep(a, k, base);
    NumberStep(b, k, base);
    Weigh(c, d, w, m, n);
  }

  /** Strings whose leading digits differ compare like the numbers they form. */
  lemma {:induction false} NumberLex(a: seq<int>, b: seq<int>, k: nat, base: int)
    requires base > 0 && Below(a, base) && Below(b, base) && Number(a, k, base) < Number(b, k, base)
    ensures Lex(a, b) == -1 && Lex(b, a) == 1
    decreases k
  {
    hide Lex, Pow, Below;
    if k > 0 {
      NumberHead(a, b, k, base);
      if Digit(a, 0) == Digit(b, 0) {
        NumberLex(Tail(a), Tail(b), k - 1, base);
        LexTail(a, b);
      } else {
        LexHead(a, b);
      }
    }
  }

  lemma {:induction false} LexPrefix(g: seq<int>, a: seq<int>, b: seq<int>)
    ensures Lex(g + a, g + b) == Lex(a, b)
    decreases |g|
  {
    if g == [] {
      assert g + a == a && g + b == b;
    } else {
      assert (g + a)[1..] == g[1..] + a && (g + b)[1..] == g[1..] + b;
      LexPrefix(g[1..], a, b);
    }
  }

  lemma NumberSameHead(a: seq<int>, b: seq<int>, k: nat, base: int)
    requires base > 0 && Below(a, base) && Below(b, base) && Number(a, k, base) == Number(b, k, base) && k > 0
    ensures Digit(a, 0) == Digit(b, 0) && Number(Tail(a), k - 1, base) == Number(Tail(b), k - 1, base)
    ensures Below(Tail(a), base) && Below(Tail(b), base)
  {
    hide Pow, Number;
    var c, d, w := Digit(a, 0), Digit(b, 0), Pow(base, k - 1);
    var m, n := Number(Tail(a), k - 1, base), Number(Tail(b), k - 1, base);
    NumberBound(Tail(a), k - 1, base);
    NumberBound(Tail(b), k - 1, base);
    NumberStep(a, k, base);
    NumberStep(b, k, base);
    Weigh(c, d, w, m, n);
    Weigh(d, c, w, n, m);
  }

  /** Numbers agree only if all their digits do. */
  lemma {:induction false} NumberSame(a: seq<int>, b: seq<int>, k: nat, base: int, i: nat)
    requires base > 0 && Below(a, base) && Below(b, base) && Number(a, k, base) == Number(b, k, base) && i < k
    ensures Digit(a, i) == Digit(b, i)
    decreases k
  {
    hide Pow, Number, Below;
    NumberSameHead(a, b, k, base);
    if i > 0 {
      NumberSame(Tail(a), Tail(b), k - 1, base, i - 1);
    }
  }

  lemma Number4(s: seq<int>)
    ensures Number(s, 4, 64) == Digit(s, 0) * 262144 + Digit(s, 1) * 4096 + Digit(s, 2) * 64 + Digit(s, 3)
  {
    assert Pow(64, 1) == 64 && Pow(64, 2) == 4096 && Pow(64, 3) == 262144;
    var t := Tail(s);
    var u := Tail(t);
    var v := Tail(u);
    assert Number(v, 1, 64) == Digit(v, 0) by { assert Number(Tail(v), 0, 64) == 0; }
    assert Number(u, 2, 64) == Digit(u, 0) * 64 + Digit(v, 0);
    assert Number(t, 3, 64) == Digit(t, 0) * 4096 + Number(u, 2, 64);
  }

  lemma Number3(s: seq<int>)
    ensures Number(s, 3, 256) == Digit(s, 0) * 65536 + Digit(s, 1) * 256 + Digit(s, 2)
  {
    assert Pow(256, 1) == 256 && Pow(256, 2) == 65536;
    var t := Tail(s);
    var u := Tail(t);
    assert Number(u, 1, 256) == Digit(u, 0) by { assert Number(Tail(u), 0, 256) == 0; }
    assert Number(t, 2, 256) == Digit(t, 0) * 256 + Digit(u, 0);
  }

  /** The three bytes of a group hold the same number as its four codes. */
  lemma GroupDigits(cs: Codes)
    requires Coded(cs)
    ensures Number(Pack(cs), 3, 256) == Number(cs, 4, 64)
  {
    Number4(cs);
    Number3(Pack(cs));
    Bits(At(cs, 0), At(cs, 1), At(cs, 2), At(cs, 3));
  }

  lemma PackSplit(cs: Codes)
    requires Coded(cs) && |cs| >= 4
    ensures cs == cs[..4] + cs[4..] && Coded(cs[4..]) && Pack(cs) == Group(cs[..4]) + Pack(cs[4..])
  {
    hide Group;
    GroupPrefix(cs);
    if |cs| == 4 {
      assert cs[..4] == cs && Group(cs) + [] == Group(cs);
    }
  }

  lemma GroupPrefix(cs: Codes)
    requires Coded(cs) && |cs| >= 4
    ensures Group(cs[..4]) == Group(cs)
  {
  }

  lemma SameFour(x: Codes, y: Codes)
    requires Coded(x) && Coded(y) && forall i: nat :: i < 4 ==> Digit(x, i) == Digit(y, i)
    ensures |x| < 4 || |y| < 4 ==> x == y
    ensures |x| >= 4 && |y| >= 4 ==> x[..4] == y[..4]
  {
    assert Digit(x, 0) == Digit(y, 0) && Digit(x, 1) == Digit(y, 1);
    assert Digit(x, 2) == Digit(y, 2) && Digit(x, 3) == Digit(y, 3);
  }

  /** Packing preserves the order, both strictly and for equality. */
  lemma {:induction false} PackOrder(x: Codes, y: Codes)
    requires Coded(x) && Coded(y)
    ensures Lex(Pack(x), Pack(y)) == Lex(x, y)
    decreases |x|
  {
    hide Number, Pack, Lex, Group, Digit;
    GroupDigits(x);
    GroupDigits(y);
    var m, n := Number(x, 4, 64), Number(y, 4, 64);
    if m < n {
      NumberLex(x, y, 4, 64);
      NumberLex(Pack(x), Pack(y), 3, 256);
    } else if n < m {
      NumberLex(y, x, 4, 64);
      NumberLex(Pack(y), Pack(x), 3, 256);
    } else {
      forall i: nat | i < 4 ensures Digit(x, i) == Digit(y, i) { NumberSame(x, y, 4, 64, i); }
      SameFour(x, y);
      if |x| < 4 || |y| < 4 {
        LexSame(x);
        LexSame(Pack(x));
      } else {
        PackSplit(x);
        PackSplit(y);
        LexPrefix(x[..4], x[4..], y[4..]);
        LexPrefix(Group(x[..4]), Pack(x[4..]), Pack(y[4..]));
        PackOrder(x[4..], y[4..]);
      }
    }
  }

  lemma {:induction false} LexSame(a: seq<int>)
    ensures Lex(a, a) == 0
    decreases |a|
  {
    if a != [] {
      LexSame(a[1..]);
    }
  }

  lemma {:induction false} LexZero(a: seq<int>, b: seq<int>)
    ensures Lex(a, b) == 0 <==> a == b
    decreases |a|
  {
    if a != [] && b != [] {
      LexZero(a[1..], b[1..]);
      assert a == [a[0]] + a[1..] && b == [b[0]] + b[1..];
    }
  }

  // ----- keys -----

  /** A key that sixpack accepts: every character has a code. */
  predicate Packable(key: Bytes) {
    forall i :: 0 <= i < |key| ==> ToSix(key[i]) > 0
  }

  function Sixes(key: Bytes): (r: Codes)
    ensures |r| == |key| && forall i :: 0 <= i < |key| ==> r[i] == ToSix(key[i])
  {
    seq(|key|, i requires 0 <= i < |key| => ToSix(key[i]))
  }

  function Letters(cs: Codes): (r: Bytes)
    requires forall i :: 0 <= i < |cs| ==> cs[i] < 64
    ensures |r| == |cs| && forall i :: 0 <= i < |cs| ==> r[i] == FromSix(cs[i])
  {
    seq(|cs|, i requires 0 <= i < |cs| => FromSix(cs[i]))
  }

  function PackKey(key: Bytes): Bytes { Pack(Sixes(key)) }

  function UnpackKey(packed: Bytes): Bytes { Letters(Strip(Unpack(packed))) }

  /** A packed key can be read back. */
  lemma KeyRoundTrip(key: Bytes)
    requires Packable(key)
    ensures UnpackKey(PackKey(key)) == key
  {
    RoundTrip(Sixes(key));
    forall i | 0 <= i < |key| ensures Letters(Sixes(key))[i] == key[i] { CodesInvert(key[i]); }
  }

  lemma {:induction false} SixesOrder(a: Bytes, b: Bytes)
    requires Packable(a) && Packable(b)
    ensures Lex(Sixes(a), Sixes(b)) == Lex(a, b)
    decreases |a|
  {
    if a != [] && b != [] {
      CodesOrder(a[0], b[0]);
      CodesOrder(b[0], a[0]);
      assert Sixes(a)[1..] == Sixes(a[1..]) && Sixes(b)[1..] == Sixes(b[1..]);
      SixesOrder(a[1..], b[1..]);
    }
  }

  /** Comparing packed keys gives the order of the keys themselves. */
  lemma KeyOrder(a: Bytes, b: Bytes)
    requires Packable(a) && Packable(b)
    ensures Lex(PackKey(a), PackKey(b)) == Lex(a, b)
  {
    hide Pack, Lex;
    SixesOrder(a, b);
    PackOrder(Sixes(a), Sixes(b));
  }

  // ----- the loops -----

  function PackedLen(n: nat): nat { (3 * n + 3) / 4 }

  function UnpackedLen(n: nat): nat { n / 3 * 4 + n % 3 }

  /** What one more code adds: the bits that go into the last byte and the byte that follows. */
  ghost predicate Appended(bs: Bytes, n: nat, c: nat, r: Bytes) {
    if n % 4 == 0 then c < 64 && r == bs + [4 * c]
    else
      && bs != [] && |r| >= |bs| && r[..|bs| - 1] == bs[..|bs| - 1]
      && var last := |bs| - 1;
         if n % 4 == 1 then r[last] == bs[last] + c / 16 && r[last + 1..] == [c % 16 * 16]
         else if n % 4 == 2 then r[last] == bs[last] + c / 4 && r[last + 1..] == [c % 4 * 64]
         else r[last] == bs[last] + c && r[last + 1..] == []
  }

  lemma PackShort(cs: Codes)
    requires 0 < |cs| <= 4 && forall i :: 0 <= i < |cs| ==> cs[i] < 64
    ensures Pack(cs) == Group(cs) && |Group(cs)| == PackedLen(|cs|)
    ensures Group(cs)[0] == 4 * At(cs, 0) + At(cs, 1) / 16
    ensures |cs| > 1 ==> Group(cs)[1] == At(cs, 1) % 16 * 16 + At(cs, 2) / 4
    ensures |cs| > 2 ==> Group(cs)[2] == At(cs, 2) % 4 * 64 + At(cs, 3)
  {
  }

  lemma GroupStep(cs: Codes, c: nat)
    requires |cs| < 4 && c < 64 && forall i :: 0 <= i < |cs| ==> cs[i] < 64
    ensures Appended(Pack(cs), |cs|, c, Pack(cs + [c]))
    ensures |Pack(cs)| == PackedLen(|cs|)
  {
    hide Pack, Group, Appended;
    PackNone();
    var ds := cs + [c];
    PackShort(ds);
    if cs != [] {
      PackShort(cs);
    }
    assert forall i :: 0 <= i < |cs| ==> At(ds, i) == At(cs, i);
    assert At(cs, |cs|) == 0 && At(ds, |cs|) == c && At(ds, |cs| + 1) == 0;
    GroupBytes(Pack(cs), |cs|, c, Pack(ds));
  }

  /** Two groups that differ by one code, byte by byte. */
  lemma GroupBytes(bs: Bytes, n: nat, c: nat, r: Bytes)
    requires n < 4 && c < 64 && |bs| == PackedLen(n) && |r| == PackedLen(n + 1)
    requires forall i :: 0 <= i < |bs| - 1 ==> r[i] == bs[i]
    requires n == 0 ==> r[0] == 4 * c
    requires n == 1 ==> r[0] == bs[0] + c / 16 && r[1] == c % 16 * 16
    requires n == 2 ==> r[1] == bs[1] + c / 4 && r[2] == c % 4 * 64
    requires n == 3 ==> r[2] == bs[2] + c
    ensures Appended(bs, n, c, r)
  {
  }

  lemma AppendedAfter(g: Bytes, bs: Bytes, n: nat, c: nat, r: Bytes)
    requires Appended(bs, n, c, r)
    ensures Appended(g + bs, n, c, g + r)
  {
    var k := |bs| - 1;
    if bs != [] && n % 4 != 0 {
      assert (g + bs)[..|g| + k] == g + bs[..k];
      assert (g + r)[..|g| + k] == g + r[..k];
      assert (g + r)[|g| + k + 1..] == r[k + 1..];
    }
  }

  lemma {:induction false} PackStep(cs: Codes, c: nat)
    requires Coded(cs) && 0 < c < 64
    ensures Appended(Pack(cs), |cs|, c, Pack(cs + [c])) && |Pack(cs)| == PackedLen(|cs|)
    decreases |cs|
  {
    hide Pack, Appended, Group;
    if |cs| < 4 {
      GroupStep(cs, c);
    } else {
      var tail, ds := cs[4..], cs + [c];
      PackSplit(cs);
      PackSplit(ds);
      PackStep(tail, c);
      assert ds[4..] == tail + [c] && ds[..4] == cs[..4];
      AppendedAfter(Group(cs[..4]), Pack(tail), |tail|, c, Pack(tail + [c]));
      AppendedCongruent(Pack(cs), |cs|, |tail|, c, Pack(ds));
    }
  }

  lemma AppendedCongruent(bs: Bytes, n: nat, m: nat, c: nat, r: Bytes)
    requires n == m + 4
    ensures Appended(bs, n, c, r) == Appended(bs, m, c, r)
  {
    assert n % 4 == m % 4;
  }

  lemma UnpackFew(x: Byte, y: Byte, z: Byte)
    ensures Unpack([x]) == [Six0(x)]
    ensures Unpack([x, y]) == [Six0(x), Six1(x, y)]
    ensures Unpack([x, y, z]) == Four(x, y, z)
  {
    assert [x, y, z][3..] == [];
  }

  lemma UnpackShort(bs: Bytes, b: Byte)
    requires |bs| < 3
    ensures |Unpack(bs)| == UnpackedLen(|bs|)
    ensures Unpack(bs + [b]) == Unpack(bs) + Gained(bs, b)
  {
    hide Unpack, Six0, Six1, Six2, Six3;
    UnpackNone();
    if |bs| == 0 {
      UnpackFew(b, b, b);
      assert bs + [b] == [b];
    } else if |bs| == 1 {
      UnpackFew(bs[0], b, b);
      assert bs == [bs[0]] && bs + [b] == [bs[0], b];
    } else {
      UnpackFew(bs[0], bs[1], b);
      assert bs == [bs[0], bs[1]] && bs + [b] == [bs[0], bs[1], b];
    }
  }

  lemma UnpackHead(bs: Bytes)
    requires |bs| >= 3
    ensures Unpack(bs) == Four(bs[0], bs[1], bs[2]) + Unpack(bs[3..])
  {
  }

  function Four(p: Byte, q: Byte, r: Byte): Codes {
    [Six0(p), Six1(p, q), Six2(q, r), Six3(r)]
  }

  lemma {:induction false} UnpackStep(bs: Bytes, b: Byte)
    ensures |Unpack(bs)| == UnpackedLen(|bs|)
    ensures Unpack(bs + [b]) == Unpack(bs) + Gained(bs, b)
    decreases |bs|
  {
    hide Unpack, Gained, Six0, Six1, Six2, Six3;
    if |bs| < 3 {
      UnpackShort(bs, b);
    } else {
      var tail, cs := bs[3..], bs + [b];
      UnpackStep(tail, b);
      UnpackHead(bs);
      UnpackHead(cs);
      assert cs[3..] == tail + [b];
      GainedTail(bs, b);
    }
  }

  lemma GainedTail(bs: Bytes, b: Byte)
    requires |bs| >= 3
    ensures Gained(bs, b) == Gained(bs[3..], b)
  {
    assert |bs| % 3 == |bs[3..]| % 3;
  }

  /** The codes one more byte completes. */
  function Gained(bs: Bytes, b: Byte): Codes {
    if |bs| % 3 == 0 then [Six0(b)]
    else if |bs| % 3 == 1 then [Six1(bs[|bs| - 1], b)]
    else [Six2(bs[|bs| - 1], b), Six3(b)]
  }

  /** The body of the packing loop: adds one code to the bytes written so far. */
  method PutCode(dst: array<Byte>, j: nat, i: nat, c: nat, ghost want: Bytes) returns (n: nat)
    requires j <= dst.Length && |want| <= dst.Length && Appended(dst[..j], i, c, want)
    modifies dst
    ensures n == |want| && dst[..n] == want
  {
    hide Appended;
    ghost var was := dst[..j];
    AppendedFits(was, i, c, want);
    n := j;
    if i % 4 == 0 {
      dst[n] := 4 * c;
      n := n + 1;
    } else if i % 4 == 1 {
      dst[n - 1] := dst[n - 1] + c / 16;
      dst[n] := c % 16 * 16;
      n := n + 1;
    } else if i % 4 == 2 {
      dst[n - 1] := dst[n - 1] + c / 4;
      dst[n] := c % 4 * 64;
      n := n + 1;
    } else {
      dst[n - 1] := dst[n - 1] + c;
    }
  }

  /** sixpack: packs a key, or returns 0 for one that is empty or has a character without a code. */
  method SixpackInto(data: Bytes, dst: array<Byte>) returns (n: nat)
    requires dst.Length >= PackedLen(|data|)
    modifies dst
    ensures n > 0 <==> data != [] && Packable(data)
    ensures n > 0 ==> n <= dst.Length && dst[..n] == PackKey(data)
  {
    hide Pack, Appended, ToSix;
    PackNone();
    n := 0;
    var i := 0;
    while i < |data|
      invariant 0 <= i <= |data| && n == PackedLen(i) && n <= dst.Length
      invariant Packable(data[..i])
      invariant dst[..n] == PackKey(data[..i])
    {
      var c := ToSix(data[i]);
      if c == 0 {
        return 0;
      }
      PackNext(data, i);
      n := PutCode(dst, n, i, c, PackKey(data[..i + 1]));
      i := i + 1;
    }
    assert data[..|data|] == data;
  }

  lemma PackNext(data: Bytes, i: nat)
    requires i < |data| && Packable(data[..i]) && ToSix(data[i]) > 0
    ensures Packable(data[..i + 1])
    ensures Appended(PackKey(data[..i]), i, ToSix(data[i]), PackKey(data[..i + 1]))
    ensures |PackKey(data[..i + 1])| == PackedLen(i + 1)
  {
    hide Pack, Appended;
    var c := ToSix(data[i]);
    PackStep(Sixes(data[..i]), c);
    assert Sixes(data[..i + 1]) == Sixes(data[..i]) + [c];
    PackStep(Sixes(data[..i + 1]), 1);
  }

  lemma PackNone()
    ensures Pack([]) == []
  {
  }

  /** The bytes after one more code, position by position. */
  lemma AppendedFits(bs: Bytes, n: nat, c: nat, r: Bytes)
    requires Appended(bs, n, c, r)
    ensures if n % 4 == 0 then c < 64 && r == bs + [4 * c]
            else bs != [] && var last := bs[|bs| - 1];
              if n % 4 == 1 then last + c / 16 < 256 && r == bs[..|bs| - 1] + [last + c / 16, c % 16 * 16]
              else if n % 4 == 2 then last + c / 4 < 256 && r == bs[..|bs| - 1] + [last + c / 4, c % 4 * 64]
              else last + c < 256 && r == bs[..|bs| - 1] + [last + c]
  {
    var k := |bs| - 1;
    if n % 4 != 0 {
      assert r == r[..k] + [r[k]] + r[k + 1..];
    }
  }

  /** The body of the unpacking loop: the letters one more byte completes. */
  method PutLetters(data: Bytes, i: nat, dst: array<Byte>, j: nat) returns (n: nat)
    requires i < |data| && j == UnpackedLen(i) && UnpackedLen(i + 1) <= dst.Length
    requires dst[..j] == Letters(Unpack(data[..i]))
    modifies dst
    ensures n == UnpackedLen(i + 1) && dst[..n] == Letters(Unpack(data[..i + 1]))
  {
    hide Unpack, FromSix, Letters, Six0, Six1, Six2, Six3;
    UnpackNext(data, i);
    n := j;
    if i % 3 == 0 {
      dst[n] := FromSix(Six0(data[i]));
      n := n + 1;
    } else if i % 3 == 1 {
      dst[n] := FromSix(Six1(data[i - 1], data[i]));
      n := n + 1;
    } else {
      dst[n] := FromSix(Six2(data[i - 1], data[i]));
      dst[n + 1] := FromSix(Six3(data[i]));
      n := n + 2;
    }
  }

  /** unsixpack: restores the characters of packed data. */
  method UnsixpackInto(data: Bytes, dst: array<Byte>) returns (n: nat)
    requires dst.Length >= UnpackedLen(|data|)
    modifies dst
    ensures n <= dst.Length && dst[..n] == UnpackKey(data)
  {
    hide Unpack, Letters, Strip;
    UnpackNone();
    n := 0;
    var i := 0;
    while i < |data|
      invariant 0 <= i <= |data| && n == UnpackedLen(i) && n <= dst.Length
      invariant dst[..n] == Letters(Unpack(data[..i]))
    {
      n := PutLetters(data, i, dst, n);
      i := i + 1;
    }
    assert data[..|data|] == data;
    StripLetters(Unpack(data));
    if n > 0 && dst[n - 1] == 0 {
      n := n - 1;
    }
  }

  lemma UnpackNext(data: Bytes, i: nat)
    requires i < |data|
    ensures var was, now, b := Letters(Unpack(data[..i])), Letters(Unpack(data[..i + 1])), data[i];
            && |now| == UnpackedLen(i + 1)
            && (i % 3 == 0 ==> now == was + [FromSix(Six0(b))])
            && (i % 3 == 1 ==> now == was + [FromSix(Six1(data[i - 1], b))])
            && (i % 3 == 2 ==> now == was + [FromSix(Six2(data[i - 1], b)), FromSix(Six3(b))])
  {
    hide Unpack, FromSix, Six0, Six1, Six2, Six3;
    UnpackStep(data[..i], data[i]);
    UnpackStep(data[..i + 1], 0);
    assert data[..i + 1] == data[..i] + [data[i]];
  }

  lemma StripLetters(cs: Codes)
    requires forall i :: 0 <= i < |cs| ==> cs[i] < 64
    ensures var l := Letters(cs);
            Letters(Strip(cs)) == if l != [] && l[|l| - 1] == 0 then l[..|l| - 1] else l
  {
    hide FromSix;
    if cs != [] {
      LetterZero(cs[|cs| - 1]);
    }
  }

  lemma LetterZero(c: nat)
    requires c < 64
    ensures FromSix(c) == 0 <==> c == 0
  {
  }
}
