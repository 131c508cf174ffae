/**
 The RESP wire format: the writers of src/conn.c and the incremental parser of src/resp.c.
 */
module Resp {
  import opened Common

  const STAR: Byte := 42
  const DOLLAR: Byte := 36
  const CR: Byte := 13
  const LF: Byte := 10

  const MAXARGS: nat := 100000
  const MAXARGSZ: nat := 536870912

  // ----- numbers -----

  /** u64toa */
  function Digits(x: nat): (r: Bytes)
    ensures |r| > 0 && forall i :: 0 <= i < |r| ==> 48 <= r[i] <= 57
  {
    if x < 10 then [48 + x] else Digits(x / 10) + [48 + x % 10]
  }

  predicate IsSpace(b: Byte) {
    b == 32 || 9 <= b <= 13
  }

  /** The white space of the C locale: space, tab, line feed, vertical tab, form feed and carriage
      return. */
  lemma Spaces(b: Byte)
    ensures IsSpace(b) <==> b in {32, 9, 10, 11, 12, 13}
  {
  }

  predicate IsDigit(b: Byte) {
    48 <= b <= 57
  }

  /** First position from `i` on that is not white space. */
  function SkipSpace(s: Bytes, i: nat): (r: nat)
    requires i <= |s|
    ensures i <= r <= |s|
    decreases |s| - i
  {
    if i < |s| && IsSpace(s[i]) then SkipSpace(s, i + 1) else i
  }

  /** Value and end of the digits from `i` on, continuing the value `v`. */
  function TakeDigits(s: Bytes, i: nat, v: nat): (r: (nat, nat))
    requires i <= |s|
    ensures i <= r.1 <= |s|
    decreases |s| - i
  {
    if i < |s| && IsDigit(s[i]) then TakeDigits(s, i + 1, 10 * v + (s[i] as int - 48)) else (v, i)
  }

  /** strtoll in base 10 on a zero-terminated buffer: the value and where it stopped, which is the
      start if there is no number. */
  function StrToLL(s: Bytes, i: nat): (r: (int, nat))
    requires i <= |s|
  {
    var j := SkipSpace(s, i);
    var neg := j < |s| && s[j] == 45;
    var k := if j < |s| && (s[j] == 45 || s[j] == 43) then j + 1 else j;
    var (v, e) := TakeDigits(s, k, 0);
    if e == k then (0, i) else (if neg then -(v as int) else v, e)
  }

  // ----- the parser -----

  datatype Num = NumMore | NumBad | Num(x: int, pos: nat)

  /** Position of the first `b` from `i` on, or the end. */
  function Find(s: Bytes, i: nat, b: Byte): (r: nat)
    requires i <= |s|
    ensures i <= r <= |s| && (r < |s| ==> s[r] == b) && forall k :: i <= k < r ==> s[k] != b
    decreases |s| - i
  {
    if i < |s| && s[i] != b then Find(s, i + 1, b) else i
  }

  /** read_resp_num */
  function ReadNum(s: Bytes, i: nat, min: int, max: int): (r: Num)
    requires i <= |s|
    ensures r.Num? ==> i < r.pos <= |s| && min <= r.x <= max
  {
    var p := Find(s, i, CR);
    if p == |s| then (if |s| - i > 32 then NumBad else NumMore)
    else if p + 1 == |s| then NumMore
    else if s[p + 1] != LF then NumBad
    else
      var (x, e) := StrToLL(s, i);
      if e == p && IsInt64(x) && min <= x <= max then Num(x, p + 2) else NumBad
  }

  datatype Parsed = More | Bad | Command(args: seq<Bytes>, n: nat)

  /** The loop of parse_resp with `left` arguments to go. */
  function ParseArgs(s: Bytes, pos: nat, left: nat, acc: seq<Bytes>): (r: Parsed)
    requires pos <= |s|
    ensures r.Command? ==> pos <= r.n <= |s|
    decreases left
  {
    if left == 0 then Command(acc, pos)
    else if pos == |s| then More
    else if s[pos] != DOLLAR then Bad
    else if pos + 1 == |s| then More
    else match ReadNum(s, pos + 1, 0, MAXARGSZ)
      case NumMore => More
      case NumBad => Bad
      case Num(x, p) =>
        if p + x + 2 > |s| then More else ParseArgs(s, p + x + 2, left - 1, acc + [s[p..p + x]])
  }

  /** parse_resp: "need more", an error, or the arguments and the bytes used. */
  function Parse(s: Bytes): (r: Parsed)
    ensures r.Command? ==> 0 < r.n <= |s|
  {
    if s == [] then More
    else if s[0] != STAR then Bad
    else if |s| == 1 then More
    else match ReadNum(s, 1, INT64_MIN, MAXARGS)
      case NumMore => More
      case NumBad => Bad
      case Num(x, p) => ParseArgs(s, p, if x > 0 then x else 0, [])
  }

  /** parse_resp as it runs: a cursor moved over the buffer, arguments appended. */
  method ParseResp(s: Bytes) returns (r: Parsed)
    ensures r == Parse(s)
  {
    hide ReadNum;
    if s == [] {
      return More;
    }
    if s[0] != STAR {
      return Bad;
    }
    if |s| == 1 {
      return More;
    }
    var num := ReadNum(s, 1, INT64_MIN, MAXARGS);
    if !num.Num? {
      return if num == NumMore then More else Bad;
    }
    var nargs, pos, args: seq<Bytes>, j := num.x, num.pos, [], 0;
    while j < nargs
      invariant 0 <= j && (nargs >= 0 ==> j <= nargs) && (nargs < 0 ==> j == 0) && 0 < pos <= |s|
      invariant Parse(s) == ParseArgs(s, pos, if nargs > 0 then nargs - j else 0, args)
    {
      if pos == |s| {
        return More;
      }
      if s[pos] != DOLLAR {
        return Bad;
      }
      if pos + 1 == |s| {
        return More;
      }
      num := ReadNum(s, pos + 1, 0, MAXARGSZ);
      if !num.Num? {
        return if num == NumMore then More else Bad;
      }
      if num.x + 2 > |s| - num.pos {
        return More;
      }
      args := args + [s[num.pos..num.pos + num.x]];
      pos := num.pos + num.x + 2;
      j := j + 1;
    }
    return Command(args, pos);
  }

  // ----- the writers -----

  /** resp_write_bulk */
  function Bulk(arg: Bytes): Bytes {
    [DOLLAR] + Digits(|arg|) + [CR, LF] + arg + [CR, LF]
  }

  function Bulks(args: seq<Bytes>): Bytes {
    if args == [] then [] else Bulk(args[0]) + Bulks(args[1..])
  }

  /** A command as clients send it: an array header and one bulk string per argument. */
  function Encode(args: seq<Bytes>): Bytes {
    [STAR] + Digits(|args|) + [CR, LF] + Bulks(args)
  }

  ghost predicate Legal(args: seq<Bytes>) {
    |args| <= MAXARGS && forall i :: 0 <= i < |args| ==> |args[i]| <= MAXARGSZ
  }

  // ----- reading back what was written -----

  /** As far as `s` reaches from `pos` on, it reads `w`. */
  ghost predicate Reads(s: Bytes, pos: nat, w: Bytes) {
    pos <= |s| && forall i :: 0 <= i < |w| && pos + i < |s| ==> s[pos + i] == w[i]
  }

  lemma ReadsParts(s: Bytes, pos: nat, a: Bytes, b: Bytes)
    requires Reads(s, pos, a + b)
    ensures Reads(s, pos, a) && (pos + |a| <= |s| ==> Reads(s, pos + |a|, b))
  {
    forall i | 0 <= i < |a| && pos + i < |s| ensures s[pos + i] == a[i] {
      assert (a + b)[i] == a[i];
    }
    forall i | 0 <= i < |b| && pos + |a| + i < |s| ensures s[pos + |a| + i] == b[i] {
      assert s[pos + (|a| + i)] == (a + b)[|a| + i];
    }
  }

  function Value(d: Bytes, v: nat): nat
    requires forall i :: 0 <= i < |d| ==> IsDigit(d[i])
  {
    if d == [] then v else assert IsDigit(d[0]); Value(d[1..], 10 * v + (d[0] as int - 48))
  }

  lemma {:induction false} ValueAppend(d: Bytes, c: Byte, v: nat)
    requires (forall i :: 0 <= i < |d| ==> IsDigit(d[i])) && IsDigit(c)
    ensures Value(d + [c], v) == 10 * Value(d, v) + (c as int - 48)
    decreases |d|
  {
    if d == [] {
      assert ([] + [c])[1..] == [];
    } else {
      assert (d + [c])[1..] == d[1..] + [c];
      ValueAppend(d[1..], c, 10 * v + (d[0] as int - 48));
    }
  }

  lemma {:induction false} DigitsValue(x: nat)
    ensures Value(Digits(x), 0) == x
  {
    if x < 10 {
      assert Digits(x)[1..] == [];
    } else {
      DigitsValue(x / 10);
      ValueAppend(Digits(x / 10), 48 + x % 10, 0);
    }
  }

  lemma {:induction false} DigitsShort(x: nat, k: nat, bound: nat)
    requires k > 0 && x < bound && bound == Power10(k)
    ensures |Digits(x)| <= k
    decreases k
  {
    if x >= 10 {
      assert k > 1;
      DigitsShort(x / 10, k - 1, Power10(k - 1));
    }
  }

  function Power10(k: nat): nat {
    if k == 0 then 1 else 10 * Power10(k - 1)
  }

  lemma {:induction false} TakesDigits(s: Bytes, i: nat, d: Bytes, v: nat)
    requires (forall k :: 0 <= k < |d| ==> IsDigit(d[k])) && Reads(s, i, d) && i + |d| < |s| && !IsDigit(s[i + |d|])
    ensures TakeDigits(s, i, v) == (Value(d, v), i + |d|)
    decreases |d|
  {
    if d != [] {
      assert s[i + 0] == d[0];
      assert Reads(s, i + 1, d[1..]) by {
        forall k | 0 <= k < |d[1..]| && i + 1 + k < |s| ensures s[i + 1 + k] == d[1..][k] {
          assert s[i + (1 + k)] == d[1 + k];
        }
      }
      TakesDigits(s, i + 1, d[1..], 10 * v + (d[0] as int - 48));
    }
  }

  /** A written number is read back, or more input is asked for. */
  lemma ReadsNum(s: Bytes, i: nat, x: nat, min: int, max: nat)
    requires Reads(s, i, Digits(x) + [CR, LF]) && min <= x <= max < 1000000000
    ensures ReadNum(s, i, min, max) ==
            if |s| >= i + |Digits(x)| + 2 then Num(x, i + |Digits(x)| + 2) else NumMore
  {
    var d := Digits(x);
    var n := |d|;
    DigitsValue(x);
    assert Power10(9) == 1000000000 by { Power9(); }
    DigitsShort(x, 9, 1000000000);
    ReadsParts(s, i, d, [CR, LF]);
    var p := Find(s, i, CR);
    assert forall k :: i <= k < i + n && k < |s| ==> s[k] == d[k - i];
    if i + n < |s| {
      assert s[i + n + 0] == [CR, LF][0];
      assert p == i + n;
      TakesDigits(s, i, d, 0);
      assert s[i + 0] == d[0];
      if i + n + 1 < |s| {
        assert s[i + n + 1] == [CR, LF][1];
      }
    }
  }

  lemma Power9()
    ensures Power10(9) == 1000000000
  {
    assert Power10(3) == 1000;
    assert Power10(6) == 1000000 by {
      assert Power10(4) == 10000;
      assert Power10(5) == 100000;
    }
    assert Power10(7) == 10000000;
    assert Power10(8) == 100000000;
  }

  /** One bulk string is read back, or more input is asked for. */
  lemma ReadsBulk(s: Bytes, pos: nat, arg: Bytes, left: nat, acc: seq<Bytes>)
    requires Reads(s, pos, Bulk(arg)) && |arg| <= MAXARGSZ && left > 0
    ensures ParseArgs(s, pos, left, acc) ==
            if |s| >= pos + |Bulk(arg)| then ParseArgs(s, pos + |Bulk(arg)|, left - 1, acc + [arg]) else More
  {
    hide ReadNum, Digits;
    var head, tail := Digits(|arg|) + [CR, LF], arg + [CR, LF];
    assert Bulk(arg) == [DOLLAR] + (head + tail);
    ReadsParts(s, pos, [DOLLAR], head + tail);
    if pos + 1 < |s| {
      assert s[pos + 0] == [DOLLAR][0];
      ReadsParts(s, pos + 1, head, tail);
      ReadsNum(s, pos + 1, |arg|, 0, MAXARGSZ);
      var p := pos + 1 + |head|;
      if p + |arg| + 2 <= |s| {
        ReadsParts(s, p, arg, [CR, LF]);
        assert s[p..p + |arg|] == arg;
      }
    } else if pos < |s| {
      assert s[pos + 0] == [DOLLAR][0];
    }
  }

  lemma NoArgs(s: Bytes, pos: nat, acc: seq<Bytes>)
    requires pos <= |s|
    ensures ParseArgs(s, pos, 0, acc) == Command(acc, pos)
  {
  }

  lemma {:induction false} ReadsArgs(s: Bytes, pos: nat, args: seq<Bytes>, acc: seq<Bytes>)
    requires pos <= |s| && Reads(s, pos, Bulks(args)) && forall i :: 0 <= i < |args| ==> |args[i]| <= MAXARGSZ
    ensures ParseArgs(s, pos, |args|, acc) ==
            if |s| >= pos + |Bulks(args)| then Command(acc + args, pos + |Bulks(args)|) else More
    decreases |args|
  {
    hide Bulk, ParseArgs, Reads, ReadNum;
    if args == [] {
      assert acc + args == acc;
      NoArgs(s, pos, acc);
    } else {
      ReadsParts(s, pos, Bulk(args[0]), Bulks(args[1..]));
      ReadsBulk(s, pos, args[0], |args|, acc);
      if |s| >= pos + |Bulk(args[0])| {
        ReadsArgs(s, pos + |Bulk(args[0])|, args[1..], acc + [args[0]]);
        assert acc + [args[0]] + args[1..] == acc + args;
      }
    }
  }

  /** The parser undoes the writer: a buffer that starts with a whole command yields exactly its
      arguments and length, and a buffer that is a strict prefix of one asks for more. */
  lemma ParseEncoded(s: Bytes, args: seq<Bytes>)
    requires Legal(args) && Reads(s, 0, Encode(args))
    ensures Parse(s) == if |s| >= |Encode(args)| then Command(args, |Encode(args)|) else More
  {
    hide ReadNum, Digits, Bulks;
    var head := Digits(|args|) + [CR, LF];
    assert Encode(args) == [STAR] + (head + Bulks(args));
    ReadsParts(s, 0, [STAR], head + Bulks(args));
    if |s| > 1 {
      assert s[0 + 0] == [STAR][0];
      ReadsParts(s, 1, head, Bulks(args));
      ReadsNum(s, 1, |args|, INT64_MIN, MAXARGS);
      if 1 + |head| <= |s| {
        ReadsArgs(s, 1 + |head|, args, []);
        assert [] + args == args;
      }
    } else if |s| == 1 {
      assert s[0 + 0] == [STAR][0];
    }
  }

  // ----- what is refused -----

  /** Arguments that are all there are read, whatever follows them. */
  lemma {:induction false} ReadsSome(s: Bytes, pos: nat, args: seq<Bytes>, left: nat, acc: seq<Bytes>)
    requires pos <= |s| && Reads(s, pos, Bulks(args)) && pos + |Bulks(args)| <= |s| && |args| <= left
    requires forall i :: 0 <= i < |args| ==> |args[i]| <= MAXARGSZ
    ensures ParseArgs(s, pos, left, acc) == ParseArgs(s, pos + |Bulks(args)|, left - |args|, acc + args)
    decreases |args|
  {
    hide Bulk, ParseArgs, Reads, ReadNum;
    if args == [] {
      assert acc + args == acc;
    } else {
      ReadsParts(s, pos, Bulk(args[0]), Bulks(args[1..]));
      ReadsBulk(s, pos, args[0], left, acc);
      ReadsSome(s, pos + |Bulk(args[0])|, args[1..], left - 1, acc + [args[0]]);
      assert acc + [args[0]] + args[1..] == acc + args;
    }
  }

  /** A complete number above the limit is refused. */
  lemma ReadsTooLarge(s: Bytes, i: nat, x: nat, min: int, max: int)
    requires Reads(s, i, Digits(x) + [CR, LF]) && i + |Digits(x)| + 2 <= |s| && x > max
    ensures ReadNum(s, i, min, max) == NumBad
  {
    var d := Digits(x);
    var n := |d|;
    DigitsValue(x);
    ReadsParts(s, i, d, [CR, LF]);
    assert forall k :: i <= k < i + n ==> s[k] == d[k - i];
    assert s[i + n + 0] == [CR, LF][0] && s[i + n + 1] == [CR, LF][1];
    assert Find(s, i, CR) == i + n;
    TakesDigits(s, i, d, 0);
    assert s[i + 0] == d[0];
  }

  /** The header of a command. */
  function Head(n: nat): Bytes {
    [STAR] + Digits(n) + [CR, LF]
  }

  /** A command that announces `n` arguments and has `args` of them at its start. */
  lemma AfterSome(s: Bytes, n: nat, args: seq<Bytes>)
    requires n <= MAXARGS && Legal(args) && |args| <= n
    requires Reads(s, 0, Head(n) + Bulks(args)) && |Head(n) + Bulks(args)| <= |s|
    ensures Parse(s) == ParseArgs(s, |Head(n)| + |Bulks(args)|, n - |args|, args)
  {
    hide ReadNum, Digits, Bulks, ParseArgs;
    var num := Digits(n) + [CR, LF];
    assert Head(n) == [STAR] + num && Head(n) + Bulks(args) == [STAR] + (num + Bulks(args));
    ReadsParts(s, 0, [STAR], num + Bulks(args));
    assert s[0 + 0] == [STAR][0];
    ReadsParts(s, 1, num, Bulks(args));
    ReadsNum(s, 1, n, INT64_MIN, MAXARGS);
    ReadsSome(s, 1 + |num|, args, n, []);
    assert [] + args == args;
  }

  /** What is refused: another first byte, too many arguments, another byte where an argument should
      start, and an argument that is too long. */
  lemma OtherFirstByte(s: Bytes)
    requires s != [] && s[0] != STAR
    ensures Parse(s) == Bad
  {
  }

  lemma TooManyArgs(n: nat, rest: Bytes)
    requires n > MAXARGS
    ensures Parse(Head(n) + rest) == Bad
  {
    hide Digits;
    var s, num := Head(n) + rest, Digits(n) + [CR, LF];
    assert Reads(s, 1, num) by {
      forall i | 0 <= i < |num| && 1 + i < |s| ensures s[1 + i] == num[i] { assert s == [STAR] + num + rest; }
    }
    ReadsTooLarge(s, 1, n, INT64_MIN, MAXARGS);
  }

  lemma MissingDollar(n: nat, args: seq<Bytes>, b: Byte, rest: Bytes)
    requires n <= MAXARGS && Legal(args) && |args| < n && b != DOLLAR
    ensures Parse(Head(n) + Bulks(args) + [b] + rest) == Bad
  {
    hide Digits, Bulks, Parse, ReadNum, Head;
    var front := Head(n) + Bulks(args);
    var s := front + [b] + rest;
    assert Reads(s, 0, front);
    AfterSome(s, n, args);
    assert s[|front|] == b;
  }

  lemma TooLongArg(n: nat, args: seq<Bytes>, x: nat, rest: Bytes)
    requires n <= MAXARGS && Legal(args) && |args| < n && x > MAXARGSZ
    ensures Parse(Head(n) + Bulks(args) + [DOLLAR] + (Digits(x) + [CR, LF]) + rest) == Bad
  {
    hide Digits, Bulks, Parse, ParseArgs, Head, Reads;
    var front, num := Head(n) + Bulks(args), Digits(x) + [CR, LF];
    var s := front + [DOLLAR] + num + rest;
    InPlace(front, num, rest);
    AfterSome(s, n, args);
    ArgTooLong(s, |front|, x, n - |args|, args);
  }

  lemma InPlace(front: Bytes, num: Bytes, rest: Bytes)
    ensures var s := front + [DOLLAR] + num + rest;
            Reads(s, 0, front) && s[|front|] == DOLLAR && Reads(s, |front| + 1, num)
  {
  }

  lemma ArgTooLong(s: Bytes, pos: nat, x: nat, left: nat, acc: seq<Bytes>)
    requires pos < |s| && s[pos] == DOLLAR && left > 0 && x > MAXARGSZ
    requires Reads(s, pos + 1, Digits(x) + [CR, LF]) && pos + 1 + |Digits(x)| + 2 <= |s|
    ensures ParseArgs(s, pos, left, acc) == Bad
  {
    hide Digits, ReadNum, Reads;
    ReadsTooLarge(s, pos + 1, x, 0, MAXARGSZ);
  }

  // ----- which commands do not depend on packet boundaries -----

  /** The number at `i` has an empty field, and every byte after it so far is white space or a final
      sign: strtoll runs past the field, and a digit that arrives next becomes part of the number. */
  predicate Hanging(s: Bytes, i: nat)
    requires i < |s|
  {
    && s[i] == CR
    && var j := SkipSpace(s, i); j == |s| || (j + 1 == |s| && (s[j] == 45 || s[j] == 43))
  }

  /** The number field at `i` has at most 32 bytes and does not hang. */
  predicate FirmNum(s: Bytes, i: nat)
    requires i < |s|
  {
    Find(s, i, CR) - i <= 32 && !Hanging(s, i)
  }

  predicate FirmArgs(s: Bytes, pos: nat, left: nat)
    requires pos <= |s|
    decreases left
  {
    left == 0 || pos + 1 >= |s| ||
    (FirmNum(s, pos + 1) &&
     match ReadNum(s, pos + 1, 0, MAXARGSZ)
     case Num(x, p) => p + x + 2 <= |s| ==> FirmArgs(s, p + x + 2, left - 1)
     case _ => true)
  }

  /** All number fields of a command have at most 32 bytes, and none of them hangs. */
  predicate Firm(s: Bytes) {
    |s| <= 1 ||
    (FirmNum(s, 1) &&
     match ReadNum(s, 1, INT64_MIN, MAXARGS)
     case Num(x, p) => FirmArgs(s, p, if x > 0 then x else 0)
     case _ => true)
  }

  lemma {:induction false} FindPrefix(s: Bytes, t: Bytes, i: nat, b: Byte)
    requires i <= |s|
    ensures Find(s + t, i, b) == if Find(s, i, b) < |s| then Find(s, i, b) else Find(s + t, |s|, b)
    decreases |s| - i
  {
    if i < |s| && s[i] != b {
      FindPrefix(s, t, i + 1, b);
    }
  }

  lemma {:induction false} SkipSpacePrefix(s: Bytes, t: Bytes, i: nat)
    requires i <= |s|
    ensures SkipSpace(s + t, i) == if SkipSpace(s, i) < |s| then SkipSpace(s, i) else SkipSpace(s + t, |s|)
    decreases |s| - i
  {
    if i < |s| && IsSpace(s[i]) {
      SkipSpacePrefix(s, t, i + 1);
    }
  }

  lemma {:induction false} TakeDigitsPrefix(s: Bytes, t: Bytes, i: nat, v: nat)
    requires i <= |s|
    ensures TakeDigits(s, i, v).1 < |s| ==> TakeDigits(s + t, i, v) == TakeDigits(s, i, v)
    ensures i < |s| ==> (TakeDigits(s, i, v).1 == i <==> !IsDigit(s[i]))
    decreases |s| - i
  {
    if i < |s| && IsDigit(s[i]) {
      TakeDigitsPrefix(s, t, i + 1, 10 * v + (s[i] as int - 48));
    }
  }

  lemma {:induction false} TakeDigitsStops(s: Bytes, i: nat, v: nat, p: nat)
    requires i <= p < |s| && !IsDigit(s[p])
    ensures TakeDigits(s, i, v).1 <= p
    decreases |s| - i
  {
    if i < |s| && IsDigit(s[i]) {
      TakeDigitsStops(s, i + 1, 10 * v + (s[i] as int - 48), p);
    }
  }

  lemma {:induction false} SkipSpaceStops(s: Bytes, i: nat, p: nat)
    requires i <= p < |s| && IsSpace(s[p]) && SkipSpace(s, i) >= p
    ensures SkipSpace(s, i) > p
    decreases |s| - i
  {
    if i < p {
      SkipSpaceStops(s, i + 1, p);
    }
  }

  /** A number read before a carriage return does not depend on what comes after it, unless its field
      is empty and hangs. */
  lemma StrToLLPrefix(s: Bytes, t: Bytes, i: nat, p: nat)
    requires i <= p < |s| && s[p] == CR && Find(s, i, CR) == p
    ensures i < p ==> (StrToLL(s, i).1 == p <==> StrToLL(s + t, i).1 == p)
    ensures i < p && StrToLL(s, i).1 == p ==> StrToLL(s + t, i) == StrToLL(s, i)
    ensures i == p && !Hanging(s, i) ==> (StrToLL(s, i).1 == p <==> StrToLL(s + t, i).1 == p)
    ensures i == p && StrToLL(s, i).1 == p ==> StrToLL(s, i) == (0, i)
  {
    SkipSpacePrefix(s, t, i);
    var j := SkipSpace(s, i);
    var k := if j < |s| && (s[j] == 45 || s[j] == 43) then j + 1 else j;
    if j >= p {
      SkipSpaceStops(s, i, p);
    } else {
      TakeDigitsStops(s, k, 0, p);
    }
    if j < |s| {
      TakeDigitsPrefix(s, t, k, 0);
    }
  }

  /** Later bytes do not change a number that was read, unless it hangs. */
  lemma ReadNumExtends(s: Bytes, t: Bytes, i: nat, min: int, max: int)
    requires i < |s| && ReadNum(s, i, min, max).Num? && !Hanging(s, i)
    ensures ReadNum(s + t, i, min, max) == ReadNum(s, i, min, max)
  {
    hide StrToLL, Hanging;
    var p := Find(s, i, CR);
    FindPrefix(s, t, i, CR);
    StrToLLPrefix(s, t, i, p);
    StrToLLPrefix(s + t, [], i, p);
  }

  /** The same number with less of the input at hand: it is read, or more is asked for if the field has
      at most 32 bytes. */
  lemma ReadNumShrinks(s: Bytes, t: Bytes, i: nat, min: int, max: int)
    requires i < |s| && ReadNum(s + t, i, min, max).Num?
    ensures var r := ReadNum(s + t, i, min, max);
            && (r.pos <= |s| ==> ReadNum(s, i, min, max) == r)
            && (r.pos > |s| && Find(s + t, i, CR) - i <= 32 ==> ReadNum(s, i, min, max) == NumMore)
  {
    hide StrToLL, Hanging;
    FindPrefix(s, t, i, CR);
    var p := Find(s + t, i, CR);
    if p < |s| {
      StrToLLPrefix(s, t, i, p);
      StrToLLPrefix(s + t, [], i, p);
      assert s + t + [] == s + t;
      if Hanging(s, i) {
        HangingZero(s, i);
        HangingEmpty(s, i);
      }
    }
  }

  lemma HangingEmpty(s: Bytes, i: nat)
    requires i < |s| && Hanging(s, i)
    ensures Find(s, i, CR) == i
  {
  }

  lemma HangingZero(s: Bytes, i: nat)
    requires i < |s| && Hanging(s, i)
    ensures StrToLL(s, i) == (0, i)
  {
  }

  /** A field of more than 32 bytes is refused while its end has not arrived. */
  lemma LongField(s: Bytes, i: nat, min: int, max: int)
    requires i < |s| && Find(s, i, CR) - i > 32
    ensures ReadNum(s[..Find(s, i, CR)], i, min, max) == NumBad
  {
    var p := Find(s, i, CR);
    assert s[..p] + s[p..] == s;
    FindPrefix(s[..p], s[p..], i, CR);
  }

  /** A number that hangs is refused once a digit follows. */
  lemma HangingField(s: Bytes, i: nat, min: int, max: int)
    requires i < |s| && Hanging(s, i) && ReadNum(s, i, min, max).Num?
    ensures ReadNum(s + [55], i, min, max) == NumBad
  {
    var t := s + [55];
    FindPrefix(s, [55], i, CR);
    SkipSpacePrefix(s, [55], i);
    var j := SkipSpace(s, i);
    assert SkipSpace(t, |s|) == |s|;
    assert TakeDigits(t, |s|, 0) == TakeDigits(t, |s| + 1, 7);
    assert TakeDigits(t, |s| + 1, 7) == (7, |s| + 1);
  }

  // ----- lifted to commands -----

  lemma {:induction false} ArgsExtend(s: Bytes, t: Bytes, pos: nat, left: nat, acc: seq<Bytes>)
    requires pos <= |s| && ParseArgs(s, pos, left, acc).Command? && FirmArgs(s, pos, left)
    ensures ParseArgs(s + t, pos, left, acc) == ParseArgs(s, pos, left, acc)
    decreases left
  {
    hide ReadNum, Hanging, Find;
    if left > 0 {
      ReadNumExtends(s, t, pos + 1, 0, MAXARGSZ);
      var r := ReadNum(s, pos + 1, 0, MAXARGSZ);
      assert (s + t)[r.pos..r.pos + r.x] == s[r.pos..r.pos + r.x];
      ArgsExtend(s, t, r.pos + r.x + 2, left - 1, acc + [s[r.pos..r.pos + r.x]]);
    }
  }

  lemma FirmField(s: Bytes, pos: nat, left: nat)
    requires pos + 1 < |s| && left > 0 && FirmArgs(s, pos, left)
    ensures Find(s, pos + 1, CR) - (pos + 1) <= 32
  {
  }

  lemma {:induction false} ArgsShrink(s: Bytes, t: Bytes, pos: nat, left: nat, acc: seq<Bytes>)
    requires pos <= |s| && ParseArgs(s + t, pos, left, acc).Command?
    ensures var r := ParseArgs(s + t, pos, left, acc);
            && (r.n <= |s| ==> ParseArgs(s, pos, left, acc) == r)
            && (r.n > |s| && FirmArgs(s + t, pos, left) ==> ParseArgs(s, pos, left, acc) == More)
    decreases left
  {
    hide ReadNum, Hanging, Find;
    if left > 0 && pos + 1 < |s| {
      var w := s + t;
      if FirmArgs(w, pos, left) {
        FirmField(w, pos, left);
      }
      ReadNumShrinks(s, t, pos + 1, 0, MAXARGSZ);
      var r := ReadNum(w, pos + 1, 0, MAXARGSZ);
      var q := r.pos + r.x + 2;
      if q <= |s| {
        assert w[r.pos..r.pos + r.x] == s[r.pos..r.pos + r.x];
        ArgsShrink(s, t, q, left - 1, acc + [s[r.pos..r.pos + r.x]]);
      }
    }
  }

  /** An interruption: the input stops before position `k`, or one more digit follows all of it. */
  function Cut(w: Bytes, k: nat): Bytes {
    if k < |w| then w[..k] else w + [55]
  }

  /** A number read in full is read the same after an interruption that comes later. */
  lemma CutNum(w: Bytes, k: nat, i: nat, min: int, max: int)
    requires i < |w| && ReadNum(w, i, min, max).Num? && FirmNum(w, i) && ReadNum(w, i, min, max).pos <= k
    ensures ReadNum(Cut(w, k), i, min, max) == ReadNum(w, i, min, max)
  {
    hide ReadNum, Hanging;
    if k < |w| {
      assert w[..k] + w[k..] == w;
      ReadNumShrinks(w[..k], w[k..], i, min, max);
    } else {
      ReadNumExtends(w, [55], i, min, max);
    }
  }

  /** A field that is not firm is refused after some interruption. */
  lemma BreakNum(w: Bytes, i: nat, min: int, max: int) returns (k: nat)
    requires i < |w| && ReadNum(w, i, min, max).Num? && !FirmNum(w, i)
    ensures i < k && ReadNum(Cut(w, k), i, min, max) == NumBad
  {
    hide Hanging;
    if Find(w, i, CR) - i > 32 {
      k := Find(w, i, CR);
      LongField(w, i, min, max);
    } else {
      k := |w|;
      HangingField(w, i, min, max);
    }
  }

  lemma {:induction false} ArgsBreak(w: Bytes, pos: nat, left: nat, acc: seq<Bytes>) returns (k: nat)
    requires pos <= |w| && ParseArgs(w, pos, left, acc).Command? && !FirmArgs(w, pos, left)
    ensures pos < k && ParseArgs(Cut(w, k), pos, left, acc) == Bad
    decreases left
  {
    hide ReadNum, FirmNum;
    var r := ReadNum(w, pos + 1, 0, MAXARGSZ);
    if !FirmNum(w, pos + 1) {
      k := BreakNum(w, pos + 1, 0, MAXARGSZ);
    } else {
      var q := r.pos + r.x + 2;
      k := ArgsBreak(w, q, left - 1, acc + [w[r.pos..r.pos + r.x]]);
      CutNum(w, k, pos + 1, 0, MAXARGSZ);
      assert Cut(w, k)[r.pos..r.pos + r.x] == w[r.pos..r.pos + r.x];
    }
  }

  /** Packet boundaries do not matter: every strict prefix asks for more, and nothing that follows
      changes the outcome. */
  ghost predicate Stable(w: Bytes) {
    (forall k :: 0 <= k < |w| ==> Parse(w[..k]) == More) && (forall t :: Parse(w + t) == Parse(w))
  }

  /** An accepted command is accepted by itself. */
  lemma Alone(s: Bytes)
    requires Parse(s).Command?
    ensures Parse(s[..Parse(s).n]) == Parse(s)
  {
    hide ReadNum;
    var w, t := s[..Parse(s).n], s[Parse(s).n..];
    assert w + t == s;
    var r := ReadNum(s, 1, INT64_MIN, MAXARGS);
    ReadNumShrinks(w, t, 1, INT64_MIN, MAXARGS);
    ArgsShrink(w, t, r.pos, if r.x > 0 then r.x else 0, []);
  }

  lemma FirmPrefix(w: Bytes, k: nat)
    requires Parse(w).Command? && Parse(w).n == |w| && Firm(w) && k < |w|
    ensures Parse(w[..k]) == More
  {
    hide ReadNum, Hanging;
    var s, t := w[..k], w[k..];
    assert s + t == w;
    if k > 1 {
      var r := ReadNum(w, 1, INT64_MIN, MAXARGS);
      ReadNumShrinks(s, t, 1, INT64_MIN, MAXARGS);
      if r.pos <= k {
        ArgsShrink(s, t, r.pos, if r.x > 0 then r.x else 0, []);
      }
    }
  }

  lemma FirmExtend(w: Bytes, t: Bytes)
    requires Parse(w).Command? && Firm(w)
    ensures Parse(w + t) == Parse(w)
  {
    hide ReadNum, Hanging;
    var r := ReadNum(w, 1, INT64_MIN, MAXARGS);
    ReadNumExtends(w, t, 1, INT64_MIN, MAXARGS);
    ArgsExtend(w, t, r.pos, if r.x > 0 then r.x else 0, []);
  }

  lemma NotFirmBreaks(w: Bytes) returns (k: nat)
    requires Parse(w).Command? && !Firm(w)
    ensures Parse(Cut(w, k)) == Bad
  {
    hide ReadNum, FirmNum;
    var r := ReadNum(w, 1, INT64_MIN, MAXARGS);
    if !FirmNum(w, 1) {
      k := BreakNum(w, 1, INT64_MIN, MAXARGS);
    } else {
      k := ArgsBreak(w, r.pos, if r.x > 0 then r.x else 0, []);
      CutNum(w, k, 1, INT64_MIN, MAXARGS);
    }
  }

  /** Exactly the commands whose number fields are all firm can be cut up and followed by anything. */
  lemma StableIffFirm(w: Bytes)
    requires Parse(w).Command? && Parse(w).n == |w|
    ensures Stable(w) <==> Firm(w)
  {
    hide Parse, Firm;
    if Firm(w) {
      forall k | 0 <= k < |w| ensures Parse(w[..k]) == More { FirmPrefix(w, k); }
      forall t ensures Parse(w + t) == Parse(w) { FirmExtend(w, t); }
    } else {
      var k := NotFirmBreaks(w);
    }
  }

  /** Commands as clients write them are firm. */
  lemma CanonicalFirm(args: seq<Bytes>)
    requires Legal(args)
    ensures Parse(Encode(args)) == Command(args, |Encode(args)|)
    ensures Firm(Encode(args)) && Stable(Encode(args))
  {
    hide Parse, Firm, Encode, Legal;
    var w := Encode(args);
    ParseEncoded(w, args);
    forall k | 0 <= k < |w| ensures Parse(w[..k]) == More { ParseEncoded(w[..k], args); }
    forall t ensures Parse(w + t) == Parse(w) { ParseEncoded(w + t, args); }
    StableIffFirm(w);
  }

  /** An empty field need not hang: what follows it may already settle the number. */
  lemma EmptyButFirm()
    ensures var w: Bytes := [42, 49, 13, 10, 36, 13, 10, 97, 98];  // *1 CR LF $ CR LF a b
            Parse(w) == Command([[]], 9) && Stable(w)
  {
    var w: Bytes := [42, 49, 13, 10, 36, 13, 10, 97, 98];
    assert Find(w, 1, CR) == Find(w, 2, CR) == 2;
    assert TakeDigits(w, 1, 0) == TakeDigits(w, 2, 1) == (1, 2);
    assert StrToLL(w, 1) == (1, 2);
    assert ReadNum(w, 1, INT64_MIN, MAXARGS) == Num(1, 4);
    assert Find(w, 5, CR) == 5;
    assert SkipSpace(w, 5) == SkipSpace(w, 6) == SkipSpace(w, 7) == 7;
    assert TakeDigits(w, 7, 0) == (0, 7);
    assert StrToLL(w, 5) == (0, 5);
    assert ReadNum(w, 5, 0, MAXARGSZ) == Num(0, 7);
    var acc: seq<Bytes> := [];
    assert w[7..7] == [] && acc + [w[7..7]] == [[]];
    assert ParseArgs(w, 4, 1, []) == ParseArgs(w, 9, 0, acc + [w[7..7]]) == Command([[]], 9);
    assert FirmArgs(w, 9, 0);
    assert FirmNum(w, 5) && FirmNum(w, 1);
    assert FirmArgs(w, 4, 1);
    StableIffFirm(w);
  }

  // ----- memory after the buffer -----

  /** read_resp_num when strtoll, which knows no end, runs into the bytes `mem` that lie behind the
      buffer. */
  function ReadNumIn(s: Bytes, mem: Bytes, i: nat, min: int, max: int): Num
    requires i <= |s|
  {
    var p := Find(s, i, CR);
    if p == |s| then (if |s| - i > 32 then NumBad else NumMore)
    else if p + 1 == |s| then NumMore
    else if s[p + 1] != LF then NumBad
    else
      var (x, e) := StrToLL(s + mem, i);
      if e == p && IsInt64(x) && min <= x <= max then Num(x, p + 2) else NumBad
  }

  /** What lies behind the buffer makes a difference exactly for an accepted number that hangs. */
  lemma MemoryMatters(s: Bytes, i: nat, min: int, max: int)
    requires i < |s|
    ensures (forall mem :: ReadNumIn(s, mem, i, min, max) == ReadNum(s, i, min, max))
            <==> !(ReadNum(s, i, min, max).Num? && Hanging(s, i))
  {
    hide StrToLL, Hanging;
    if ReadNum(s, i, min, max).Num? && Hanging(s, i) {
      HangingField(s, i, min, max);
      FindPrefix(s, [55], i, CR);
      assert ReadNumIn(s, [55], i, min, max) == NumBad;
    } else {
      forall mem ensures ReadNumIn(s, mem, i, min, max) == ReadNum(s, i, min, max) {
        MemoryIgnored(s, mem, i, min, max);
      }
    }
  }

  lemma MemoryIgnored(s: Bytes, mem: Bytes, i: nat, min: int, max: int)
    requires i < |s| && !(ReadNum(s, i, min, max).Num? && Hanging(s, i))
    ensures ReadNumIn(s, mem, i, min, max) == ReadNum(s, i, min, max)
  {
    hide StrToLL, Hanging;
    var p := Find(s, i, CR);
    FindPrefix(s, mem, i, CR);
    if p < |s| {
      StrToLLPrefix(s, mem, i, p);
      StrToLLPrefix(s + mem, [], i, p);
      if Hanging(s, i) {
        HangingEmpty(s, i);
        HangingZero(s, i);
      }
    }
  }
}
