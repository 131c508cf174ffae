/**
 The record of a cache entry (src/pogocache.c): header, time, optional expiry, flags and CAS,
 then key and value with varint lengths.  The key may be stored sixpacked.
 */
module Record {
  import opened Common
  import opened Varint
  import Sixpack
  import CacheSpec

  /** The options that decide the layout (struct pgctx). */
  datatype Layout = Layout(usecas: bool, nosixpack: bool)

  function Field(present: bool, bs: Bytes): Bytes {
    if present then bs else []
  }

  predicate Packs(key: Bytes, l: Layout) {
    !l.nosixpack && 0 < |key| <= 128 && Sixpack.Packable(key)
  }

  function Bit(b: bool, w: nat): nat {
    if b then w else 0
  }

  function Header(e: Entry, l: Layout): Byte {
    Bit(e.expires > 0, 1) + Bit(e.flags > 0, 2) + Bit(l.usecas, 4) + Bit(Packs(e.key, l), 8)
  }

  function StoredKey(key: Bytes, l: Layout): Bytes {
    if Packs(key, l) then Sixpack.PackKey(key) else key
  }

  /** The values a record can hold. */
  predicate Storable(e: Entry) {
    IsInt64(e.expires) && e.flags < UINT32_LIMIT && e.cas < UINT64_LIMIT && IsInt64(e.time)
    && |e.key| < UINT64_LIMIT && |e.val| < UINT64_LIMIT
  }

  function Strings(key: Bytes, val: Bytes): Bytes {
    Write(|key|) + (key + (Write(|val|) + val))
  }

  /** The optional fields, and what comes after them. */
  function Fields(e: Entry, l: Layout): Bytes
    requires Storable(e)
  {
    Field(e.expires > 0, Fixed(Unsigned(e.expires), 8))
    + (Field(e.flags > 0, Fixed(e.flags, 4))
       + (Field(l.usecas, Fixed(e.cas, 8))
          + Strings(StoredKey(e.key, l), e.val)))
  }

  /** The bytes of a record. */
  function Encode(e: Entry, l: Layout): Bytes
    requires Storable(e)
  {
    [Header(e, l)] + (Fixed(Unsigned(e.time), 8) + Fields(e, l))
  }

  // ----- reading -----

  function Take(bs: Bytes, n: nat): Bytes {
    if n <= |bs| then bs[..n] else bs
  }

  function Drop(bs: Bytes, n: nat): Bytes {
    if n <= |bs| then bs[n..] else []
  }

  function Has(hdr: Byte, w: nat): bool
    requires w > 0
  {
    hdr / w % 2 == 1
  }

  function Skip(bs: Bytes, present: bool, n: nat): Bytes {
    if present then Drop(bs, n) else bs
  }

  function Number(bs: Bytes, present: bool, n: nat): nat {
    if present then FromFixed(Take(bs, n)) else 0
  }

  function Hdr(r: Bytes): Byte {
    if r == [] then 0 else r[0]
  }

  function AfterTime(r: Bytes): Bytes { Drop(r, 9) }

  function AfterExpires(r: Bytes): Bytes { Skip(AfterTime(r), Has(Hdr(r), 1), 8) }

  function AfterFlags(r: Bytes): Bytes { Skip(AfterExpires(r), Has(Hdr(r), 2), 4) }

  /** The strings part; `withCas` is the cache option in entry_extract and the header bit elsewhere. */
  function AfterCas(r: Bytes, withCas: bool): Bytes { Skip(AfterFlags(r), withCas, 8) }

  function VarLen(bs: Bytes): (nat, Bytes) {
    match ReadVar(bs)
    case Value(n, x) => (x, Drop(bs, n))
    case _ => (0, bs)
  }

  /** entry_time */
  function TimeOf(r: Bytes): int { Signed(FromFixed(Take(Drop(r, 1), 8))) }

  /** entry_expires */
  function ExpiresOf(r: Bytes): int { Signed(Number(AfterTime(r), Has(Hdr(r), 1), 8)) }

  /** entry_cas */
  function CasOf(r: Bytes): nat { Number(AfterFlags(r), Has(Hdr(r), 4), 8) }

  /** entry_rawkey */
  function RawKey(r: Bytes): Bytes {
    var (n, p) := VarLen(AfterCas(r, Has(Hdr(r), 4)));
    Take(p, n)
  }

  /** entry_key */
  function KeyOf(r: Bytes): Bytes {
    if Has(Hdr(r), 8) then Sixpack.UnpackKey(RawKey(r)) else RawKey(r)
  }

  /** entry_extract, with the entry's time, and the size of the record. */
  function Extract(r: Bytes, l: Layout): (Entry, int) {
    var (n, p) := VarLen(AfterCas(r, l.usecas));
    var (m, q) := VarLen(Drop(p, n));
    var key := Take(p, n);
    (Entry(
       if Has(Hdr(r), 8) then Sixpack.UnpackKey(key) else key,
       Take(q, m),
       Signed(Number(AfterTime(r), Has(Hdr(r), 1), 8)),
       Number(AfterExpires(r), Has(Hdr(r), 2), 4),
       Number(AfterFlags(r), l.usecas, 8),
       TimeOf(r)),
     |r| - |Drop(q, m)|)
  }

  /** entry_compare: the stored bytes if both keys are stored alike, else the keys. */
  function Compare(a: Bytes, b: Bytes): int {
    if Has(Hdr(a), 8) == Has(Hdr(b), 8) then Sixpack.Lex(RawKey(a), RawKey(b))
    else Sixpack.Lex(KeyOf(a), KeyOf(b))
  }

  // ----- what was stored is what is read -----

  lemma HeaderBits(a: bool, b: bool, c: bool, d: bool)
    ensures var h := Bit(a, 1) + Bit(b, 2) + Bit(c, 4) + Bit(d, 8);
            Has(h, 1) == a && Has(h, 2) == b && Has(h, 4) == c && Has(h, 8) == d
  {
  }

  lemma FieldRead(present: bool, x: nat, k: nat, rest: Bytes)
    requires x < Pow256(k)
    ensures var bs := Field(present, Fixed(x, k)) + rest;
            Number(bs, present, k) == (if present then x else 0) && Skip(bs, present, k) == rest
  {
    FixedRoundTrip(x, k);
    var bs := Field(present, Fixed(x, k)) + rest;
    assert present ==> Take(bs, k) == Fixed(x, k);
  }

  lemma StringRead(s: Bytes, rest: Bytes)
    requires |s| < UINT64_LIMIT
    ensures var (n, p) := VarLen(Write(|s|) + (s + rest));
            n == |s| && p == s + rest && Take(p, n) == s && Drop(p, n) == rest
  {
    RoundTrip(|s|, s + rest);
  }

  lemma HeadRead(e: Entry, l: Layout)
    requires Storable(e)
    ensures var r := Encode(e, l);
            && Hdr(r) == Header(e, l) && AfterTime(r) == Fields(e, l) && TimeOf(r) == e.time
  {
    hide Fixed, FromFixed, Fields;
    Widths();
    var r, t := Encode(e, l), Unsigned(e.time);
    FixedRoundTrip(t, 8);
    assert Take(Drop(r, 1), 8) == Fixed(t, 8);
    assert Drop(r, 9) == Fields(e, l);
  }

  /** The optional fields of a record, and the strings after them. */
  lemma FieldsRead(e: Entry, l: Layout)
    requires Storable(e)
    ensures var r := Encode(e, l);
            && ExpiresOf(r) == (if e.expires > 0 then e.expires else 0)
            && Number(AfterExpires(r), Has(Hdr(r), 2), 4) == e.flags
            && Number(AfterFlags(r), l.usecas, 8) == (if l.usecas then e.cas else 0)
            && CasOf(r) == (if l.usecas then e.cas else 0)
            && Has(Hdr(r), 4) == l.usecas && Has(Hdr(r), 8) == Packs(e.key, l)
            && AfterCas(r, l.usecas) == Strings(StoredKey(e.key, l), e.val)
  {
    hide Fixed, Number, Skip, Has, Strings, StoredKey, Packs, Encode, Field;
    Widths();
    HeadRead(e, l);
    HeaderBits(e.expires > 0, e.flags > 0, l.usecas, Packs(e.key, l));
    var strings := Strings(StoredKey(e.key, l), e.val);
    var cas := Field(l.usecas, Fixed(e.cas, 8)) + strings;
    var flags := Field(e.flags > 0, Fixed(e.flags, 4)) + cas;
    FieldRead(e.expires > 0, Unsigned(e.expires), 8, flags);
    FieldRead(e.flags > 0, e.flags, 4, cas);
    FieldRead(l.usecas, e.cas, 8, strings);
  }

  lemma KeyRead(e: Entry, l: Layout)
    requires Storable(e)
    ensures var r := Encode(e, l);
            RawKey(r) == StoredKey(e.key, l) && KeyOf(r) == e.key && Has(Hdr(r), 8) == Packs(e.key, l)
  {
    hide Encode, Has, AfterCas, VarLen, Sixpack.PackKey, Sixpack.UnpackKey;
    FieldsRead(e, l);
    StoredKeyLength(e.key, l);
    StringRead(StoredKey(e.key, l), Write(|e.val|) + e.val);
    if Packs(e.key, l) {
      Sixpack.KeyRoundTrip(e.key);
    }
  }

  lemma KeyBack(key: Bytes, l: Layout)
    ensures (if Packs(key, l) then Sixpack.UnpackKey(StoredKey(key, l)) else StoredKey(key, l)) == key
  {
    hide Sixpack.PackKey, Sixpack.UnpackKey;
    if Packs(key, l) {
      Sixpack.KeyRoundTrip(key);
    }
  }

  lemma StoredKeyLength(key: Bytes, l: Layout)
    ensures |StoredKey(key, l)| <= |key|
  {
    hide Sixpack.Pack;
    if Packs(key, l) {
      Sixpack.PackStep(Sixpack.Sixes(key), 1);
    }
  }

  /** entry_extract recovers what entry_new stored, and the size of the whole record. */
  lemma ExtractEncode(e: Entry, l: Layout)
    requires Storable(e)
    ensures Extract(Encode(e, l), l) ==
            (e.(expires := if e.expires > 0 then e.expires else 0, cas := if l.usecas then e.cas else 0),
             |Encode(e, l)|)
  {
    hide Encode, Has, AfterCas, AfterTime, AfterExpires, AfterFlags, VarLen, Sixpack.UnpackKey, Number, StoredKey;
    hide Packs, Write;
    FieldsRead(e, l);
    HeadRead(e, l);
    StoredKeyLength(e.key, l);
    StringRead(StoredKey(e.key, l), Write(|e.val|) + e.val);
    assert e.val + [] == e.val;
    StringRead(e.val, []);
    KeyBack(e.key, l);
  }

  /** A record made and stamped for a store holds the entry of the cache model. */
  lemma RecordIsEntry(key: Bytes, val: Bytes, expires: int, flags: nat, cas: nat, now: int, l: Layout, noevict: bool)
    requires Storable(Entry(key, val, expires, flags, cas, now))
    ensures Extract(Encode(Entry(key, val, expires, flags, cas, now), l), l).0
            == CacheSpec.NewEntry(key, val, expires, flags, cas, now, CacheSpec.Config(l.usecas, noevict))
  {
    hide Encode, Extract;
    ExtractEncode(Entry(key, val, expires, flags, cas, now), l);
  }

  /** entry_compare orders records by their keys, however each key is stored. */
  lemma CompareIsKeyOrder(a: Entry, b: Entry, la: Layout, lb: Layout)
    requires Storable(a) && Storable(b)
    ensures Compare(Encode(a, la), Encode(b, lb)) == Sixpack.Lex(a.key, b.key)
    ensures Compare(Encode(a, la), Encode(b, lb)) == 0 <==> a.key == b.key
  {
    hide Encode, Has, KeyOf, RawKey, Sixpack.PackKey, Sixpack.Lex;
    KeyRead(a, la);
    KeyRead(b, lb);
    if Packs(a.key, la) && Packs(b.key, lb) {
      Sixpack.KeyOrder(a.key, b.key);
    }
    Sixpack.LexZero(a.key, b.key);
  }

  // ----- building and stamping in place -----

  /** memcpy at a cursor: returns the cursor after the bytes. */
  method Put(a: array<Byte>, p: nat, bs: Bytes) returns (q: nat)
    requires p + |bs| <= a.Length
    modifies a
    ensures q == p + |bs| && a[..q] == old(a[..p]) + bs
  {
    q := p;
    while q < p + |bs|
      invariant p <= q <= p + |bs|
      invariant a[..q] == old(a[..p]) + bs[..q - p]
    {
      a[q] := bs[q - p];
      q := q + 1;
    }
    assert bs[..|bs|] == bs;
  }

  /** The key bytes to store, and whether they are packed. */
  method PackedKey(key: Bytes, l: Layout) returns (stored: Bytes, packed: bool)
    ensures stored == StoredKey(key, l) && packed == Packs(key, l)
  {
    hide Sixpack.PackKey, Sixpack.Packable;
    if !l.nosixpack && |key| <= 128 {
      var buf := new Byte[128](_ => 0);
      var n := Sixpack.SixpackInto(key, buf);
      if n > 0 {
        return buf[..n], true;
      }
    }
    return key, false;
  }

  /** The fields of a record in the order they are written. */
  lemma InOrder(e: Entry, l: Layout, head: Bytes, time: Bytes, exp: Bytes, flags: Bytes, cas: Bytes, klen: Bytes,
                key: Bytes, vlen: Bytes)
    requires Storable(e)
    requires head == [Header(e, l)] && time == Fixed(Unsigned(e.time), 8)
    requires exp == Field(e.expires > 0, Fixed(Unsigned(e.expires), 8))
    requires flags == Field(e.flags > 0, Fixed(e.flags, 4))
    requires cas == Field(l.usecas, Fixed(e.cas, 8)) && key == StoredKey(e.key, l)
    requires klen == Write(|key|) && vlen == Write(|e.val|)
    ensures [] + head + time + exp + flags + cas + klen + key + vlen + e.val == Encode(e, l)
  {
    hide Fixed, Write, StoredKey, Field, Header;
    var strings := Strings(key, e.val);
    Regroup([] + head + time + exp + flags + cas, klen, key, vlen, e.val);
    Regroup([] + head + time, exp, flags, cas, strings);
    assert [] + head + time + Fields(e, l) == head + (time + Fields(e, l));
  }

  lemma Regroup(front: Bytes, a: Bytes, b: Bytes, c: Bytes, d: Bytes)
    ensures front + a + b + c + d == front + (a + (b + (c + d)))
  {
  }

  /** The header, the time and the optional fields. */
  method PutHead(r: array<Byte>, head: Bytes, time: Bytes, exp: Bytes, flags: Bytes, cas: Bytes) returns (p: nat)
    requires |head| + |time| + |exp| + |flags| + |cas| <= r.Length
    modifies r
    ensures p == |head| + |time| + |exp| + |flags| + |cas| && r[..p] == [] + head + time + exp + flags + cas
  {
    p := Put(r, 0, head);
    p := Put(r, p, time);
    p := Put(r, p, exp);
    p := Put(r, p, flags);
    p := Put(r, p, cas);
  }

  /** The key and the value, with their lengths. */
  method PutStrings(r: array<Byte>, q: nat, klen: Bytes, key: Bytes, vlen: Bytes, val: Bytes) returns (p: nat)
    requires q + |klen| + |key| + |vlen| + |val| <= r.Length
    modifies r
    ensures p == q + |klen| + |key| + |vlen| + |val| && r[..p] == old(r[..q]) + klen + key + vlen + val
  {
    p := Put(r, q, klen);
    p := Put(r, p, key);
    p := Put(r, p, vlen);
    p := Put(r, p, val);
  }

  /** entry_new: sizes the allocation and fills it front to back; the time starts as zero. */
  method EntryNew(key: Bytes, val: Bytes, expires: int, flags: nat, cas: nat, l: Layout) returns (r: array<Byte>)
    requires Storable(Entry(key, val, expires, flags, cas, 0))
    ensures fresh(r) && r[..] == Encode(Entry(key, val, expires, flags, cas, 0), l)
  {
    hide Fixed, Write, Packs, StoredKey, Encode, Field, Bit;
    var stored, packed := PackedKey(key, l);
    var hdr := Bit(expires > 0, 1) + Bit(flags > 0, 2) + Bit(l.usecas, 4) + Bit(packed, 8);
    HeaderByte(expires > 0, flags > 0, l.usecas, packed);
    var exp := Field(expires > 0, Fixed(Unsigned(expires), 8));
    var flg := Field(flags > 0, Fixed(flags, 4));
    var version := Field(l.usecas, Fixed(cas, 8));
    var klen, vlen := Write(|stored|), Write(|val|);
    var size := 1 + 8 + |exp| + |flg| + |version| + |klen| + |stored| + |vlen| + |val|;
    r := new Byte[size](_ => 0);
    var p := PutHead(r, [hdr], Fixed(0, 8), exp, flg, version);
    p := PutStrings(r, p, klen, stored, vlen, val);
    assert r[..] == r[..p];
    InOrder(Entry(key, val, expires, flags, cas, 0), l, [hdr], Fixed(0, 8), exp, flg, version, klen, stored, vlen);
  }

  lemma HeaderByte(a: bool, b: bool, c: bool, d: bool)
    ensures 0 <= Bit(a, 1) + Bit(b, 2) + Bit(c, 4) + Bit(d, 8) < 16
  {
  }

  /** memcpy over the bytes at a cursor. */
  method Overwrite(a: array<Byte>, p: nat, bs: Bytes)
    requires p + |bs| <= a.Length
    modifies a
    ensures a[..] == old(a[..p]) + bs + old(a[p + |bs|..])
  {
    var i := 0;
    while i < |bs|
      invariant 0 <= i <= |bs|
      invariant a[..p] == old(a[..p]) && a[p..p + i] == bs[..i] && a[p + i..] == old(a[p + i..])
    {
      a[p + i] := bs[i];
      i := i + 1;
    }
    assert a[..] == a[..p] + a[p..p + i] + a[p + i..];
  }

  /** entry_settime: stamps a record in place and leaves everything else as it was. */
  method SetTime(r: array<Byte>, time: int, ghost e: Entry, l: Layout)
    requires Storable(e) && IsInt64(time) && r[..] == Encode(e, l)
    modifies r
    ensures r[..] == Encode(e.(time := time), l)
  {
    hide Fixed, Encode;
    Stamped(e, time, l);
    Overwrite(r, 1, Fixed(Unsigned(time), 8));
  }

  lemma Stamped(e: Entry, time: int, l: Layout)
    requires Storable(e) && IsInt64(time)
    ensures |Encode(e, l)| >= 9
    ensures Encode(e.(time := time), l) == Encode(e, l)[..1] + Fixed(Unsigned(time), 8) + Encode(e, l)[9..]
  {
    hide Fixed, Fields, Header;
    SameFields(e, time, l);
    var r := Encode(e, l);
    assert r[..1] == [Header(e, l)];
    assert r[9..] == Fields(e, l);
  }

  lemma SameFields(e: Entry, time: int, l: Layout)
    requires Storable(e) && IsInt64(time)
    ensures Fields(e.(time := time), l) == Fields(e, l) && Header(e.(time := time), l) == Header(e, l)
  {
  }
}
