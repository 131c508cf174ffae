/**
 Snapshot files (src/save.c): entries are written to a block per shard, blocks are compressed
 and framed with a 16-byte header, and the loader undoes both.
 */
module Snapshot {
  import opened Common
  import opened Varint
  import Lz4Spec
  import Lz4Compressor

  /** An entry of a block; `ttl` is 0 for an entry that does not expire. */
  datatype Item = Item(key: Bytes, val: Bytes, ttl: nat, flags: nat, cas: nat)

  /** What the loader accepts of an item. */
  predicate Writable(it: Item) {
    && |it.key| < UINT64_LIMIT && |it.val| < UINT64_LIMIT
    && it.ttl <= INT64_MAX && it.flags < UINT32_LIMIT && it.cas < UINT64_LIMIT
  }

  function PutString(s: Bytes): Bytes { Write(|s|) + s }

  /** The numbers that end an item. */
  function PutNumbers(it: Item): Bytes { Write(it.ttl) + (Write(it.flags) + Write(it.cas)) }

  function PutItem(it: Item): Bytes {
    [0] + (PutString(it.key) + (PutString(it.val) + PutNumbers(it)))
  }

  function PutItems(items: seq<Item>): Bytes {
    if items == [] then [] else PutItem(items[0]) + PutItems(items[1..])
  }

  /** A block: the wall-clock time of the save, then the items. */
  function PutBlock(unixtime: nat, items: seq<Item>): Bytes {
    Write(unixtime) + PutItems(items)
  }

  // ----- reading -----

  /** A varint no larger than `max`, and what follows it. */
  function GetNumber(bs: Bytes, max: nat): (r: Option<(nat, Bytes)>)
    ensures r.Some? ==> |r.value.1| < |bs|
  {
    ReadLength(bs, 0, 0);
    match ReadVar(bs)
    case Value(n, x) => if x <= max then Some((x, bs[n..])) else None
    case _ => None
  }

  const NOLIMIT: nat := UINT64_LIMIT

  function GetString(bs: Bytes): (r: Option<(Bytes, Bytes)>)
    ensures r.Some? ==> |r.value.1| < |bs|
  {
    match GetNumber(bs, NOLIMIT)
    case None => None
    case Some((n, rest)) => if n <= |rest| then Some((rest[..n], rest[n..])) else None
  }

  function GetNumbers(bs: Bytes, key: Bytes, val: Bytes): (r: Option<(Item, Bytes)>)
    ensures r.Some? ==> |r.value.1| < |bs|
  {
    match GetNumber(bs, INT64_MAX)
    case None => None
    case Some((ttl, bs1)) =>
      match GetNumber(bs1, UINT32_LIMIT - 1)
      case None => None
      case Some((flags, bs2)) =>
        match GetNumber(bs2, NOLIMIT)
        case None => None
        case Some((cas, bs3)) => Some((Item(key, val, ttl, flags, cas), bs3))
  }

  function GetItem(bs: Bytes): (r: Option<(Item, Bytes)>)
    ensures r.Some? ==> |r.value.1| < |bs|
  {
    if bs == [] || bs[0] != 0 then None
    else
      match GetString(bs[1..])
      case None => None
      case Some((key, bs1)) =>
        match GetString(bs1)
        case None => None
        case Some((val, bs2)) => GetNumbers(bs2, key, val)
  }

  /** The items read before the end or the first mistake, and whether the end was reached. */
  function GetItems(bs: Bytes): (seq<Item>, bool)
    decreases |bs|
  {
    if bs == [] then ([], true)
    else
      match GetItem(bs)
      case None => ([], false)
      case Some((it, rest)) =>
        var (items, ok) := GetItems(rest);
        ([it] + items, ok)
  }

  /** The same with the save time in front. */
  function GetBlock(bs: Bytes): (nat, seq<Item>, bool) {
    match GetNumber(bs, INT64_MAX)
    case None => (0, [], false)
    case Some((unixtime, rest)) =>
      var (items, ok) := GetItems(rest);
      (unixtime, items, ok)
  }

  // ----- parsing undoes writing -----

  lemma NumberBack(x: nat, max: nat, rest: Bytes)
    requires x <= max && x < UINT64_LIMIT
    ensures GetNumber(Write(x) + rest, max) == Some((x, rest))
  {
    hide Write, ReadVar;
    RoundTrip(x, rest);
  }

  lemma StringBack(s: Bytes, rest: Bytes)
    requires |s| < UINT64_LIMIT
    ensures GetString(PutString(s) + rest) == Some((s, rest))
  {
    hide Write, GetNumber;
    NumberBack(|s|, NOLIMIT, s + rest);
    assert PutString(s) + rest == Write(|s|) + (s + rest);
  }

  lemma NumbersBack(it: Item, rest: Bytes)
    requires Writable(it)
    ensures GetNumbers(PutNumbers(it) + rest, it.key, it.val) == Some((it, rest))
  {
    hide Write, GetNumber;
    var c := Write(it.cas) + rest;
    var f := Write(it.flags) + c;
    NumberBack(it.ttl, INT64_MAX, f);
    NumberBack(it.flags, UINT32_LIMIT - 1, c);
    NumberBack(it.cas, NOLIMIT, rest);
    assert PutNumbers(it) + rest == Write(it.ttl) + f;
  }

  lemma ItemBack(it: Item, rest: Bytes)
    requires Writable(it)
    ensures GetItem(PutItem(it) + rest) == Some((it, rest))
  {
    hide PutString, PutNumbers, GetString, GetNumbers, Writable;
    var n := PutNumbers(it) + rest;
    var v := PutString(it.val) + n;
    var bs := PutItem(it) + rest;
    assert bs[1..] == PutString(it.key) + v;
    Lengths(it);
    StringBack(it.key, v);
    StringBack(it.val, n);
    NumbersBack(it, rest);
  }

  lemma Lengths(it: Item)
    requires Writable(it)
    ensures |it.key| < UINT64_LIMIT && |it.val| < UINT64_LIMIT
  {
  }

  lemma {:induction false} ItemsBack(items: seq<Item>)
    requires forall i :: 0 <= i < |items| ==> Writable(items[i])
    ensures GetItems(PutItems(items)) == (items, true)
    decreases |items|
  {
    hide PutItem, GetItem, Writable;
    if items != [] {
      var rest := PutItems(items[1..]);
      ItemBack(items[0], rest);
      ItemsBack(items[1..]);
      assert [items[0]] + items[1..] == items;
      assert PutItems(items) != [] by { assert PutItem(items[0]) != [] by { NotEmpty(items[0]); } }
    }
  }

  lemma NotEmpty(it: Item)
    ensures PutItem(it) != []
  {
  }

  /** Parsing a written block gives the same items in the same order. */
  lemma BlockBack(unixtime: nat, items: seq<Item>)
    requires unixtime <= INT64_MAX && forall i :: 0 <= i < |items| ==> Writable(items[i])
    ensures GetBlock(PutBlock(unixtime, items)) == (unixtime, items, true)
  {
    hide Write, GetNumber, PutItems, GetItems;
    NumberBack(unixtime, INT64_MAX, PutItems(items));
    ItemsBack(items);
  }

  // ----- what is cut short is refused -----

  lemma NumberCut(x: nat, max: nat, k: nat)
    requires x < UINT64_LIMIT && k < |Write(x)|
    ensures GetNumber(Write(x)[..k], max) == None
  {
    hide Write, ReadVar;
    CutShort(x, k);
  }

  lemma StringCut(s: Bytes, k: nat)
    requires |s| < UINT64_LIMIT && k < |PutString(s)|
    ensures GetString(PutString(s)[..k]) == None
  {
    hide Write, GetNumber;
    var w := Write(|s|);
    if k < |w| {
      NumberCut(|s|, NOLIMIT, k);
      assert PutString(s)[..k] == w[..k];
    } else {
      NumberBack(|s|, NOLIMIT, s[..k - |w|]);
      assert PutString(s)[..k] == w + s[..k - |w|];
    }
  }

  lemma NumbersCut(it: Item, k: nat)
    requires Writable(it) && k < |PutNumbers(it)|
    ensures GetNumbers(PutNumbers(it)[..k], it.key, it.val) == None
  {
    hide Write, GetNumber;
    var t, f, c := Write(it.ttl), Write(it.flags), Write(it.cas);
    var bs := PutNumbers(it)[..k];
    if k < |t| {
      NumberCut(it.ttl, INT64_MAX, k);
      assert bs == t[..k];
    } else if k < |t| + |f| {
      NumberBack(it.ttl, INT64_MAX, f[..k - |t|]);
      NumberCut(it.flags, UINT32_LIMIT - 1, k - |t|);
      assert bs == t + f[..k - |t|];
    } else {
      var last := c[..k - |t| - |f|];
      NumberBack(it.ttl, INT64_MAX, f + last);
      NumberBack(it.flags, UINT32_LIMIT - 1, last);
      NumberCut(it.cas, NOLIMIT, k - |t| - |f|);
      assert bs == t + (f + last);
    }
  }

  /** No strict prefix of a written item is accepted. */
  lemma ItemCut(it: Item, k: nat)
    requires Writable(it) && k < |PutItem(it)|
    ensures GetItem(PutItem(it)[..k]) == None
  {
    hide PutString, PutNumbers, GetString, GetNumbers, Writable;
    Lengths(it);
    if k > 0 {
      var key, val, nums := PutString(it.key), PutString(it.val), PutNumbers(it);
      var bs := PutItem(it)[..k];
      var n := k - 1;
      if n < |key| {
        StringCut(it.key, n);
        assert bs[1..] == key[..n];
      } else if n < |key| + |val| {
        StringBack(it.key, val[..n - |key|]);
        StringCut(it.val, n - |key|);
        assert bs[1..] == key + val[..n - |key|];
      } else {
        var last := nums[..n - |key| - |val|];
        StringBack(it.key, val + last);
        StringBack(it.val, last);
        NumbersCut(it, n - |key| - |val|);
        assert bs[1..] == key + (val + last);
      }
    }
  }

  /** The items before a cut are read; the cut is noticed exactly if it is not at the end of an item. */
  lemma {:induction false} ItemsCut(items: seq<Item>, k: nat) returns (j: nat)
    requires (forall i :: 0 <= i < |items| ==> Writable(items[i])) && k <= |PutItems(items)|
    ensures j <= |items| && GetItems(PutItems(items)[..k]).0 == items[..j]
    ensures GetItems(PutItems(items)[..k]).1 <==> |PutItems(items[..j])| == k
    ensures forall i :: 0 <= i <= |items| && |PutItems(items[..i])| == k ==> i == j
    decreases |items|
  {
    hide PutItem, GetItem, Writable;
    j := 0;
    assert items[..0] == [];
    if k > 0 {
      var bs, first, rest := PutItems(items)[..k], PutItem(items[0]), items[1..];
      NotEmpty(items[0]);
      forall i | 0 < i <= |items| ensures PutItems(items[..i]) == first + PutItems(rest[..i - 1]) {
        assert items[..i][1..] == rest[..i - 1];
      }
      if k < |first| {
        ItemCut(items[0], k);
        assert bs == first[..k];
      } else {
        var n := k - |first|;
        assert bs == first + PutItems(rest)[..n];
        ItemBack(items[0], PutItems(rest)[..n]);
        j := ItemsCut(rest, n);
        j := j + 1;
        assert items[..j] == [items[0]] + rest[..j - 1];
      }
    } else {
      forall i | 0 < i <= |items| ensures PutItems(items[..i]) != [] {
        NotEmpty(items[0]);
        assert items[..i][0] == items[0];
      }
    }
  }

  // ----- frames -----

  type Crc = Bytes -> nat

  /** A compressed block and the size it decompresses to (struct cblock). */
  datatype Block = Block(cdata: Bytes, dlen: nat)

  const TAG: Bytes := [80, 79, 71, 79]

  predicate Framable(b: Block, crc: Crc) {
    |b.cdata| < UINT32_LIMIT && b.dlen < UINT32_LIMIT && crc(b.cdata) < UINT32_LIMIT
  }

  function Frame(b: Block, crc: Crc): Bytes {
    TAG + Fixed(crc(b.cdata), 4) + Fixed(b.dlen, 4) + Fixed(|b.cdata|, 4) + b.cdata
  }

  function Frames(bs: seq<Block>, crc: Crc): Bytes {
    if bs == [] then [] else Frame(bs[0], crc) + Frames(bs[1..], crc)
  }

  /** The block at the start of a file, and what follows it. */
  function GetFrame(file: Bytes, crc: Crc): (r: Option<(Block, Bytes)>)
    ensures r.Some? ==> |r.value.1| < |file|
  {
    if |file| < 16 || file[..4] != TAG then None
    else
      var clen := FromFixed(file[12..16]);
      if |file| < 16 + clen then None
      else if crc(file[16..16 + clen]) != FromFixed(file[4..8]) then None
      else Some((Block(file[16..16 + clen], FromFixed(file[8..12])), file[16 + clen..]))
  }

  /** The blocks read before the end of the file or the first bad one, and whether all were good. */
  function GetFrames(file: Bytes, crc: Crc): (seq<Block>, bool)
    decreases |file|
  {
    if file == [] then ([], true)
    else
      match GetFrame(file, crc)
      case None => ([], false)
      case Some((b, rest)) =>
        var (bs, ok) := GetFrames(rest, crc);
        ([b] + bs, ok)
  }

  lemma FrameBack(b: Block, crc: Crc, rest: Bytes)
    requires Framable(b, crc)
    ensures GetFrame(Frame(b, crc) + rest, crc) == Some((b, rest))
  {
    hide Fixed, FromFixed;
    Widths();
    FixedRoundTrip(crc(b.cdata), 4);
    FixedRoundTrip(b.dlen, 4);
    FixedRoundTrip(|b.cdata|, 4);
    FrameParts(TAG, Fixed(crc(b.cdata), 4), Fixed(b.dlen, 4), Fixed(|b.cdata|, 4), b.cdata, rest);
  }

  lemma FrameParts(tag: Bytes, c: Bytes, d: Bytes, n: Bytes, cdata: Bytes, rest: Bytes)
    requires |tag| == 4 && |c| == 4 && |d| == 4 && |n| == 4
    ensures var f := tag + c + d + n + cdata + rest;
            && f[..4] == tag && f[4..8] == c && f[8..12] == d && f[12..16] == n
            && f[16..16 + |cdata|] == cdata && f[16 + |cdata|..] == rest
  {
  }

  /** A file of frames is read back block by block. */
  lemma {:induction false} FramesBack(bs: seq<Block>, crc: Crc)
    requires forall i :: 0 <= i < |bs| ==> Framable(bs[i], crc)
    ensures GetFrames(Frames(bs, crc), crc) == (bs, true)
    decreases |bs|
  {
    hide Frame, GetFrame;
    if bs != [] {
      FrameBack(bs[0], crc, Frames(bs[1..], crc));
      FramesBack(bs[1..], crc);
      FrameSize(bs[0], crc);
      assert [bs[0]] + bs[1..] == bs;
    }
  }

  lemma FrameSize(b: Block, crc: Crc)
    ensures |Frame(b, crc)| == 16 + |b.cdata|
  {
  }

  // ----- the writer -----

  /** The block buffer of a save thread (struct savectx). */
  class Saver {
    var buf: Bytes
    var nentries: nat

    constructor ()
      ensures buf == [] && nentries == 0
    {
      buf, nentries := [], 0;
    }

    /** buf_append_uvarint */
    method AppendNumber(x: nat)
      requires x < UINT64_LIMIT
      modifies this`buf
      ensures buf == old(buf) + Write(x)
    {
      WriteLength(x);
      var tmp := new Byte[10](_ => 0);
      var n := WriteInto(x, tmp);
      buf := buf + tmp[..n];
    }

    /** The start of a shard in thsave. */
    method Begin(unixnow: nat)
      requires unixnow <= INT64_MAX && buf == [] && nentries == 0
      modifies this
      ensures buf == PutBlock(unixnow, []) && nentries == 0
    {
      AppendNumber(unixnow);
      assert PutBlock(unixnow, []) == Write(unixnow);
    }

    /** save_entry: appends an entry that is alive at `time`, `items` being those written before. */
    method SaveEntry(key: Bytes, val: Bytes, expires: int, time: int, flags: nat, cas: nat,
                     ghost unixtime: nat, ghost items: seq<Item>)
      requires 0 <= time && (expires > 0 ==> time < expires) && buf == PutBlock(unixtime, items)
      requires Writable(Item(key, val, if expires > 0 then expires - time else 0, flags, cas))
      modifies this
      ensures buf == PutBlock(unixtime, items + [Item(key, val, if expires > 0 then expires - time else 0, flags, cas)])
      ensures nentries == old(nentries) + 1
    {
      hide Write, PutItem, PutItems;
      var ttl := if expires > 0 then expires - time else 0;
      buf := buf + [0];
      AppendNumber(|key|);
      buf := buf + key;
      AppendNumber(|val|);
      buf := buf + val;
      AppendNumber(ttl);
      AppendNumber(flags);
      AppendNumber(cas);
      nentries := nentries + 1;
      ItemGrows(old(buf), Item(key, val, ttl, flags, cas));
      BlockGrows(unixtime, items, Item(key, val, ttl, flags, cas));
    }

    /** flush: compresses and frames the block unless it has no entries.  Lengths are passed on as
        32-bit integers: of a longer buffer only the bytes up to its length modulo 2^32 are seen.  The
        block decompresses to the buffer exactly if the buffer is within the compressor's limit. */
    method Flush(crc: Crc, hash: Lz4Compressor.Hash) returns (out: Bytes, ghost b: Block)
      modifies this
      ensures buf == [] && nentries == 0
      ensures old(nentries) == 0 ==> out == []
      ensures old(nentries) > 0 ==> out == Frame(b, crc) && Compressed(b, old(buf))
    {
      hide Lz4Spec.Decode;
      out, b := [], Block([], 0);
      if nentries > 0 {
        var len := |buf| % UINT32_LIMIT;
        var dst := new Byte[Lz4Compressor.CompressBound(len)](_ => 0);
        var n := Lz4Compressor.Compress(buf[..len], dst, hash);
        b := Block(dst[..n], len);
        out := TAG + Fixed(crc(dst[..n]), 4) + Fixed(len, 4) + Fixed(n, 4) + dst[..n];
        SmallEnough(|buf|);
        Oversized(len);
      }
      buf, nentries := [], 0;
    }
  }

  lemma SmallEnough(n: nat)
    ensures n % UINT32_LIMIT <= n && (n < UINT32_LIMIT ==> n % UINT32_LIMIT == n)
  {
  }

  /** What flush makes of a buffer. */
  ghost predicate Compressed(b: Block, buf: Bytes) {
    var len := |buf| % UINT32_LIMIT;
    && b.dlen == len && len <= |buf| && |b.cdata| < UINT32_LIMIT
    && Lz4Spec.Decode(b.cdata, b.dlen) == (if len <= Lz4Compressor.MAX_INPUT_SIZE then Some(buf[..len]) else None)
  }

  /** A block can be loaded as it was written exactly if the buffer was within the compressor's limit. */
  lemma LoadableIff(b: Block, buf: Bytes)
    requires Compressed(b, buf)
    ensures Lz4Spec.Decode(b.cdata, b.dlen) == Some(buf) <==> |buf| <= Lz4Compressor.MAX_INPUT_SIZE
  {
    hide Lz4Spec.Decode;
    SmallEnough(|buf|);
    assert |buf| < UINT32_LIMIT ==> buf[..|buf| % UINT32_LIMIT] == buf;
  }

  lemma ItemGrows(buf: Bytes, it: Item)
    ensures buf + [0] + Write(|it.key|) + it.key + Write(|it.val|) + it.val
            + Write(it.ttl) + Write(it.flags) + Write(it.cas)
            == buf + PutItem(it)
  {
    hide Write;
    var k, v := Write(|it.key|) + it.key, Write(|it.val|) + it.val;
    var n := PutNumbers(it);
    var front := buf + [0] + Write(|it.key|) + it.key + Write(|it.val|) + it.val;
    assert front + Write(it.ttl) + Write(it.flags) + Write(it.cas) == front + n;
    assert front == buf + [0] + k + v;
    assert buf + [0] + k + v + n == buf + ([0] + (k + (v + n)));
  }

  lemma BlockGrows(unixtime: nat, items: seq<Item>, it: Item)
    ensures PutBlock(unixtime, items) + PutItem(it) == PutBlock(unixtime, items + [it])
  {
    hide PutItem, PutItems, Write;
    ItemsGrow(items, it);
  }

  lemma {:induction false} ItemsGrow(items: seq<Item>, it: Item)
    ensures PutItems(items + [it]) == PutItems(items) + PutItem(it)
    decreases |items|
  {
    hide PutItem;
    if items != [] {
      ItemsGrow(items[1..], it);
      assert (items + [it])[1..] == items[1..] + [it];
    } else {
      assert ([] + [it])[1..] == [];
    }
  }

  /** A block over the compressor's limit is framed as an empty one, which cannot be loaded. */
  lemma Oversized(n: nat)
    ensures Lz4Spec.Decode([], n).None?
  {
  }

  // ----- the reader -----

  /** One pass of the reading loop: the frame at a position and where it ends. */
  method ReadFrame(file: Bytes, p: nat, crc: Crc) returns (r: Option<(Block, nat)>)
    requires p < |file|
    ensures r.None? <==> GetFrame(file[p..], crc).None?
    ensures r.Some? ==> p < r.value.1 <= |file| && GetFrame(file[p..], crc) == Some((r.value.0, file[r.value.1..]))
  {
    hide FromFixed;
    ghost var rest := file[p..];
    if |file| - p < 16 {
      return None;
    }
    assert file[p..p + 4] == rest[..4] && file[p + 4..p + 8] == rest[4..8];
    assert file[p + 8..p + 12] == rest[8..12] && file[p + 12..p + 16] == rest[12..16];
    if file[p..p + 4] != TAG {
      return None;
    }
    var dlen, clen := FromFixed(file[p + 8..p + 12]), FromFixed(file[p + 12..p + 16]);
    if |file| - p < 16 + clen {
      return None;
    }
    var q := p + 16 + clen;
    assert file[p + 16..q] == rest[16..16 + clen] && rest[16 + clen..] == file[q..];
    if crc(file[p + 16..q]) != FromFixed(file[p + 4..p + 8]) {
      return None;
    }
    return Some((Block(file[p + 16..q], dlen), q));
  }

  /** The reading loop of load: frames until the end of the file or a bad one. */
  method ReadFile(file: Bytes, crc: Crc) returns (blocks: seq<Block>, ok: bool)
    ensures (blocks, ok) == GetFrames(file, crc)
  {
    hide GetFrame;
    blocks, ok := [], true;
    var p := 0;
    assert file[0..] == file;
    while p < |file|
      invariant 0 <= p <= |file|
      invariant blocks + GetFrames(file[p..], crc).0 == GetFrames(file, crc).0
      invariant GetFrames(file[p..], crc).1 == GetFrames(file, crc).1
      decreases |file| - p
    {
      var r := ReadFrame(file, p, crc);
      if r.None? {
        assert blocks + [] == blocks;
        return blocks, false;
      }
      blocks := blocks + [r.value.0];
      p := r.value.1;
    }
    assert file[p..] == [] && blocks + [] == blocks;
  }
}
