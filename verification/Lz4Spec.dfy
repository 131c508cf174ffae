/**
 LZ4_decompress_safe byte by byte: exactly the blocks it accepts and what they decode to.
 The functions follow the labels of the decoder's loop.  A block of `src` is decoded into at
 most `cap` bytes.
 */
module Lz4Spec {
  import opened Common
  import opened Lz4Format

  datatype Length = BadLength | Length(n: nat, ip: nat)

  /** read_variable_length: bytes of 255 go on, no byte at or past `limit` may be needed. */
  function ReadLen(src: Bytes, ip: nat, limit: int): (r: Length)
    requires limit <= |src|
    ensures r.Length? ==> ip < r.ip <= limit
    decreases |src| - ip
  {
    if ip >= limit then BadLength
    else if src[ip] != 255 then Length(src[ip], ip + 1)
    else match ReadLen(src, ip + 1, limit)
      case BadLength => BadLength
      case Length(n, ip') => Length(n + 255, ip')
  }

  function Offset(src: Bytes, ip: nat): nat
    requires ip + 2 <= |src|
  {
    src[ip] as int + 256 * (src[ip + 1] as int)
  }

  /** Enough input and output is left that a short literal run needs no further check. */
  predicate Roomy(src: Bytes, ip: nat, op: nat, cap: nat) {
    ip + 17 <= |src| && op + 32 <= cap
  }

  /** At a token. */
  function AtToken(src: Bytes, ip: nat, out: Bytes, cap: nat): Option<Bytes>
    decreases |src| - ip, 0
  {
    if ip >= |src| then None
    else
      var token := src[ip];
      if token / 16 == 15 then
        match ReadLen(src, ip + 1, |src| - 15)
        case BadLength => None
        case Length(n, ip') => AtLiterals(src, token, n + 15, ip', false, out, cap)
      else
        AtLiterals(src, token, token / 16, ip + 1, Roomy(src, ip + 1, |out|, cap), out, cap)
  }

  /** With the number of literals known. */
  function AtLiterals(src: Bytes, token: Byte, ll: nat, ip: nat, roomy: bool, out: Bytes, cap: nat): Option<Bytes>
    requires ip <= |src| && (roomy ==> ll <= 14 && ip + 17 <= |src|)
    decreases |src| - ip, 3
  {
    if roomy || (|out| + ll + MFLIMIT <= cap && ip + ll + 3 + LASTLITERALS <= |src|) then
      AtMatch(src, token, roomy, Offset(src, ip + ll), ip + ll + 2, out + src[ip..ip + ll], cap)
    else if ip + ll == |src| && |out| + ll <= cap then Some(out + src[ip..ip + ll])
    else None
  }

  /** With the literals copied and the offset known. */
  function AtMatch(src: Bytes, token: Byte, roomy: bool, offset: nat, ip: nat, out: Bytes, cap: nat): Option<Bytes>
    requires ip <= |src|
    decreases |src| - ip, 2
  {
    if token % 16 == 15 then
      match ReadLen(src, ip, |src| - LASTLITERALS + 1)
      case BadLength => None
      case Length(n, ip') => AtCopy(src, false, offset, n + 15 + MINMATCH, ip', out, cap)
    else AtCopy(src, roomy && offset >= 8, offset, token % 16 + MINMATCH, ip, out, cap)
  }

  /** With the match length known; a `quick` match skips the end-of-block check. */
  function AtCopy(src: Bytes, quick: bool, offset: nat, mlen: nat, ip: nat, out: Bytes, cap: nat): Option<Bytes>
    requires ip <= |src|
    decreases |src| - ip, 1
  {
    if offset > |out| || (!quick && |out| + mlen + LASTLITERALS > cap) then None
    else AtToken(src, ip, Extend(out, offset, mlen), cap)
  }

  /** LZ4_decompress_safe, with the special cases of an empty output or input. */
  function Decode(src: Bytes, cap: nat): Option<Bytes> {
    if cap == 0 then (if src == [0] then Some([]) else None) else AtToken(src, 0, [], cap)
  }

  // ----- what is written is read back -----

  /** `w` stands at position `ip` of `src`. */
  ghost predicate Holds(src: Bytes, ip: nat, w: Bytes) {
    ip + |w| <= |src| && src[ip..ip + |w|] == w
  }

  lemma {:induction false} ReadsLen(src: Bytes, ip: nat, n: nat, limit: int)
    requires limit <= |src| && Holds(src, ip, LenBytes(n)) && ip + |LenBytes(n)| <= limit
    ensures ReadLen(src, ip, limit) == Length(n, ip + |LenBytes(n)|)
    decreases n
  {
    var w := LenBytes(n);
    assert src[ip] == src[ip..ip + |w|][0] == w[0];
    if n >= 255 {
      assert src[ip + 1..ip + 1 + |LenBytes(n - 255)|] == src[ip..ip + |w|][1..];
      ReadsLen(src, ip + 1, n - 255, limit);
    }
  }

  /** Splitting a written string over its parts. */
  lemma HoldsParts(src: Bytes, ip: nat, a: Bytes, b: Bytes)
    requires Holds(src, ip, a + b)
    ensures Holds(src, ip, a) && Holds(src, ip + |a|, b)
  {
    var w := src[ip..ip + |a + b|];
    assert src[ip..ip + |a|] == w[..|a|];
    assert src[ip + |a|..ip + |a| + |b|] == w[|a|..];
  }

  lemma TokenFields(hi: Byte, lo: Byte)
    requires hi < 16 && lo < 16
    ensures (16 * hi + lo) / 16 == hi && (16 * hi + lo) % 16 == lo
  {
  }

  /** The offset of a written sequence is read back. */
  lemma ReadsOffset(src: Bytes, ip: nat, offset: nat)
    requires offset <= DISTANCE_MAX && Holds(src, ip, [offset % 256, offset / 256])
    ensures Offset(src, ip) == offset
  {
    var w := [offset % 256, offset / 256];
    assert src[ip] == src[ip..ip + 2][0] == w[0];
    assert src[ip + 1] == src[ip..ip + 2][1] == w[1];
  }

  /** A written token and literal length are read back. */
  lemma ReadsToken(src: Bytes, ip: nat, ll: nat, lo: Byte, out: Bytes, cap: nat)
    requires lo < 16 && Holds(src, ip, [16 * Field(ll) + lo] + Excess(ll)) && ip + 1 + |Excess(ll)| + ll <= |src|
    ensures var token := 16 * Field(ll) + lo;
            var roomy := ll < 15 && Roomy(src, ip + 1, |out|, cap);
            AtToken(src, ip, out, cap) == AtLiterals(src, token, ll, ip + 1 + |Excess(ll)|, roomy, out, cap)
  {
    hide AtLiterals;
    var token: Byte := 16 * Field(ll) + lo;
    HoldsParts(src, ip, [token], Excess(ll));
    TokenFields(Field(ll), lo);
    assert src[ip] == src[ip..ip + 1][0] == token;
    if ll >= 15 {
      ReadsLen(src, ip + 1, ll - 15, |src| - 15);
    }
  }

  lemma SequenceParts(src: Bytes, ip: nat, s: Sequence)
    requires s.mlen >= MINMATCH && s.offset <= DISTANCE_MAX && Holds(src, ip, Encode1(s))
    ensures var ll, ml := |s.lits|, s.mlen - MINMATCH;
            var ip1 := ip + 1 + |Excess(ll)|;
            && Holds(src, ip, [16 * Field(ll) + Field(ml)] + Excess(ll))
            && Holds(src, ip1, s.lits)
            && Holds(src, ip1 + ll, [s.offset % 256, s.offset / 256])
            && Holds(src, ip1 + ll + 2, Excess(ml))
            && ip + |Encode1(s)| == ip1 + ll + 2 + |Excess(ml)|
  {
    hide Holds, Excess;
    var ll, ml := |s.lits|, s.mlen - MINMATCH;
    var off := [s.offset % 256, s.offset / 256];
    var head, tail := [16 * Field(ll) + Field(ml)] + Excess(ll), Excess(ml);
    assert Encode1(s) == head + (s.lits + (off + tail));
    HoldsParts(src, ip, head, s.lits + (off + tail));
    HoldsParts(src, ip + |head|, s.lits, off + tail);
    HoldsParts(src, ip + |head| + ll, off, tail);
  }

  lemma FitsOne(s: Sequence, pos: nat, total: nat)
    ensures Fits([s], pos, total) <==>
            && s.mlen >= MINMATCH && 1 <= s.offset <= DISTANCE_MAX && s.offset <= pos + |s.lits|
            && pos + |s.lits| + MFLIMIT <= total && pos + |s.lits| + s.mlen + LASTLITERALS <= total
  {
    assert [s][1..] == [];
  }

  lemma RoomyMeans(src: Bytes, ip: nat, op: nat, cap: nat)
    ensures Roomy(src, ip, op, cap) <==> ip + 17 <= |src| && op + 32 <= cap
  {
  }

  lemma ReadsLiterals(src: Bytes, token: Byte, lits: Bytes, ip: nat, roomy: bool, out: Bytes, cap: nat)
    requires Holds(src, ip, lits) && (roomy ==> |lits| <= 14 && ip + 17 <= |src|)
    requires |out| + |lits| + MFLIMIT <= cap && ip + |lits| + 8 <= |src|
    ensures AtLiterals(src, token, |lits|, ip, roomy, out, cap)
            == AtMatch(src, token, roomy, Offset(src, ip + |lits|), ip + |lits| + 2, out + lits, cap)
  {
    hide AtMatch, Offset;
  }

  /** The decoder follows one written sequence, if at least six bytes come after it. */
  lemma ReadsSequence(src: Bytes, ip: nat, s: Sequence, out: Bytes, cap: nat)
    requires Fits([s], |out|, cap) && Holds(src, ip, Encode1(s)) && ip + |Encode1(s)| + 6 <= |src|
    ensures AtToken(src, ip, out, cap)
            == AtToken(src, ip + |Encode1(s)|, Extend(out + s.lits, s.offset, s.mlen), cap)
  {
    hide *;
    FitsOne(s, |out|, cap);
    SequenceParts(src, ip, s);
    var roomy := |s.lits| < 15 && Roomy(src, ip + 1, |out|, cap);
    RoomyMeans(src, ip + 1, |out|, cap);
    var ll, ml := |s.lits|, s.mlen - MINMATCH;
    var ip1 := ip + 1 + |Excess(ll)|;
    ReadsOffset(src, ip1 + ll, s.offset);
    ReadsToken(src, ip, ll, Field(ml), out, cap);
    TokenFields(Field(ll), Field(ml));
    ReadsLiterals(src, 16 * Field(ll) + Field(ml), s.lits, ip1, roomy, out, cap);
    ReadsMatch(src, 16 * Field(ll) + Field(ml), roomy, s, ip1 + ll + 2, out + s.lits, cap);
  }

  lemma ReadsMatch(src: Bytes, token: Byte, roomy: bool, s: Sequence, ip: nat, out: Bytes, cap: nat)
    requires s.mlen >= MINMATCH && s.offset <= |out| && |out| + s.mlen + LASTLITERALS <= cap
    requires token % 16 == Field(s.mlen - MINMATCH)
    requires Holds(src, ip, Excess(s.mlen - MINMATCH)) && ip + |Excess(s.mlen - MINMATCH)| + 6 <= |src|
    ensures AtMatch(src, token, roomy, s.offset, ip, out, cap)
            == AtToken(src, ip + |Excess(s.mlen - MINMATCH)|, Extend(out, s.offset, s.mlen), cap)
  {
    var ml := s.mlen - MINMATCH;
    if ml >= 15 {
      ReadsLen(src, ip, ml - 15, |src| - LASTLITERALS + 1);
    }
  }

  lemma ReadsLast(src: Bytes, ip: nat, last: Bytes, out: Bytes, cap: nat)
    requires Holds(src, ip, EncodeLast(last)) && ip + |EncodeLast(last)| == |src| && |out| + |last| <= cap
    ensures AtToken(src, ip, out, cap) == Some(out + last)
  {
    hide AtToken, AtMatch, ReadLen, LenBytes, Offset;
    var head := [16 * Field(|last|)] + Excess(|last|);
    HoldsParts(src, ip, head, last);
    ReadsToken(src, ip, |last|, 0, out, cap);
  }

  /** From any point of a well-formed block the decoder accepts and produces its meaning. */
  lemma {:induction false} ReadsBlock(src: Bytes, ip: nat, seqs: seq<Sequence>, last: Bytes, out: Bytes, cap: nat)
    requires Fits(seqs, |out|, cap) && Writable(seqs) && |out| + Width(seqs) + |last| == cap
    requires Holds(src, ip, Encode(seqs) + EncodeLast(last)) && ip + |Encode(seqs) + EncodeLast(last)| == |src|
    ensures Play(out, seqs).Some? && AtToken(src, ip, out, cap) == Some(Play(out, seqs).value + last)
    decreases |seqs|
  {
    hide AtToken, Encode1, EncodeLast, Extend;
    if seqs == [] {
      assert Encode(seqs) + EncodeLast(last) == EncodeLast(last);
      ReadsLast(src, ip, last, out, cap);
    } else {
      var s, rest := seqs[0], seqs[1..];
      assert Encode(seqs) + EncodeLast(last) == Encode1(s) + (Encode(rest) + EncodeLast(last));
      HoldsParts(src, ip, Encode1(s), Encode(rest) + EncodeLast(last));
      assert Fits([s], |out|, cap) by { assert [s][1..] == []; }
      LastLong(rest, last, |out| + |s.lits| + s.mlen, cap);
      ReadsSequence(src, ip, s, out, cap);
      ReadsBlock(src, ip + |Encode1(s)|, rest, last, Extend(out + s.lits, s.offset, s.mlen), cap);
    }
  }

  /** After a match at least a token and five bytes follow. */
  lemma LastLong(seqs: seq<Sequence>, last: Bytes, pos: nat, cap: nat)
    requires Fits(seqs, pos, cap) && Writable(seqs) && pos + Width(seqs) + |last| == cap && pos + LASTLITERALS <= cap
    ensures |Encode(seqs) + EncodeLast(last)| >= 6
  {
    if seqs != [] {
      LastLongTail(seqs, last, pos, cap);
    }
  }

  lemma {:induction false} LastLongTail(seqs: seq<Sequence>, last: Bytes, pos: nat, cap: nat)
    requires seqs != [] && Fits(seqs, pos, cap) && pos + Width(seqs) + |last| == cap
    ensures |last| >= LASTLITERALS
    decreases |seqs|
  {
    if |seqs| > 1 {
      LastLongTail(seqs[1..], last, pos + |seqs[0].lits| + seqs[0].mlen, cap);
    } else {
      assert seqs[1..] == [];
    }
  }

  /** Any block that respects the parsing restrictions decodes to what it stands for. */
  lemma RoundTrip(seqs: seq<Sequence>, last: Bytes, data: Bytes)
    requires Fits(seqs, 0, |data|) && Writable(seqs) && Width(seqs) + |last| == |data|
    requires Play([], seqs).Some? && Play([], seqs).value + last == data
    ensures Decode(Encode(seqs) + EncodeLast(last), |data|) == Some(data)
  {
    var src := Encode(seqs) + EncodeLast(last);
    if data == [] {
      assert seqs == [] && last == [];
      assert src == [0];
    } else {
      ReadsBlock(src, 0, seqs, last, [], |data|);
    }
  }
}
