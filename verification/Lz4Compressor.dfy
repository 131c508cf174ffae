/**
 LZ4_compress_default into a buffer of LZ4_compressBound bytes (src/lz4.c): a hash table of
 earlier positions proposes matches, which are checked against the input.  Nothing is assumed
 of the hash function.
 */
module Lz4Compressor {
  import opened Common
  import opened Lz4Format
  import Spec = Lz4Spec
  import opened Lz4Copy

  const MAX_INPUT_SIZE: nat := 0x7E00_0000
  const LIMIT_64K: nat := 65536 + MFLIMIT - 1

  function CompressBound(n: nat): nat {
    n + n / 255 + 16
  }

  /** The hash of the bytes at a position. */
  type Hash = nat -> nat

  // ----- what has been written so far -----

  /** `w` encodes sequences that stand for src[..anchor]. */
  ghost predicate Written(src: Bytes, w: Bytes, seqs: seq<Sequence>, anchor: nat) {
    && anchor <= |src| && Fits(seqs, 0, |src|) && Writable(seqs) && Width(seqs) == anchor
    && Play([], seqs) == Some(src[..anchor]) && w == Encode(seqs)
  }

  /** A checked match at `ip`, `offset` back: within reach and away from the end. */
  ghost predicate Sound(src: Bytes, anchor: nat, ip: nat, offset: nat, mlen: nat) {
    && anchor <= ip && 1 <= offset <= DISTANCE_MAX && offset <= ip && mlen >= MINMATCH
    && ip + MFLIMIT <= |src| && ip + mlen + LASTLITERALS <= |src|
    && forall k :: ip <= k < ip + mlen ==> src[k] == src[k - offset]
  }

  lemma AddSequence(src: Bytes, w: Bytes, seqs: seq<Sequence>, anchor: nat, ip: nat, offset: nat, mlen: nat)
    requires Written(src, w, seqs, anchor) && Sound(src, anchor, ip, offset, mlen)
    ensures var s := Sequence(src[anchor..ip], offset, mlen);
            Written(src, w + Encode1(s), seqs + [s], ip + mlen)
  {
    hide Fits, Writable, Width, Play, Encode, Encode1, Extend;
    var s := Sequence(src[anchor..ip], offset, mlen);
    Spec.FitsOne(s, anchor, |src|);
    Append([], seqs, s, |src|);
    EncodeAppend(seqs, s);
    assert src[..anchor] + s.lits == src[..ip];
    EchoExtends(src, ip, ip + mlen, offset);
  }

  lemma WrittenBound(src: Bytes, w: Bytes, seqs: seq<Sequence>, anchor: nat)
    requires Written(src, w, seqs, anchor)
    ensures 255 * |w| <= 256 * anchor
  {
    EncodeBound(seqs);
  }

  /** The bound leaves this much room, counted in 255ths of a byte. */
  lemma BoundRoom(n: nat, cap: nat)
    requires cap >= CompressBound(n)
    ensures 255 * cap >= 256 * n + 3826
  {
  }

  // ----- writing into the buffer -----

  /** A length in bytes of 255 and a rest. */
  method PutRun(dst: array<Byte>, op0: nat, len0: nat) returns (op: nat)
    requires op0 + len0 / 255 + 1 <= dst.Length
    modifies dst
    ensures op == op0 + |LenBytes(len0)| && op <= dst.Length
    ensures dst[..op] == old(dst[..op0]) + LenBytes(len0)
  {
    var len := len0;
    op := op0;
    while len >= 255
      invariant op0 <= op && op + len / 255 + 1 <= dst.Length
      invariant op + |LenBytes(len)| == op0 + |LenBytes(len0)|
      invariant dst[..op] + LenBytes(len) == old(dst[..op0]) + LenBytes(len0)
    {
      ghost var w := dst[..op];
      dst[op] := 255;
      op, len := op + 1, len - 255;
      assert dst[..op] == w + [255];
      assert w + LenBytes(len + 255) == w + [255] + LenBytes(len);
    }
    ghost var w := dst[..op];
    dst[op] := len;
    op := op + 1;
    assert dst[..op] == w + [len];
  }

  /** Token and literal length of a sequence. */
  method PutHead(dst: array<Byte>, op0: nat, ll: nat) returns (op: nat)
    requires op0 + 1 + |Excess(ll)| <= dst.Length
    modifies dst
    ensures op == op0 + 1 + |Excess(ll)|
    ensures dst[..op] == old(dst[..op0]) + ([16 * Field(ll)] + Excess(ll))
  {
    hide LenBytes;
    ghost var w := dst[..op0];
    op := op0 + 1;
    dst[op0] := 16 * Field(ll);
    assert dst[..op] == w + [16 * Field(ll)];
    if ll >= 15 {
      op := PutRun(dst, op, ll - 15);
    }
    assert dst[..op] == w + ([16 * Field(ll)] + Excess(ll));
  }

  /** Token and literals of a sequence. */
  method PutLiterals(src: Bytes, dst: array<Byte>, anchor: nat, ip: nat, op0: nat) returns (op: nat)
    requires anchor <= ip && ip + 8 <= |src| && op0 + 1 + |Excess(ip - anchor)| + (ip - anchor) + 8 <= dst.Length
    modifies dst
    ensures op == op0 + 1 + |Excess(ip - anchor)| + (ip - anchor)
    ensures dst[..op] == old(dst[..op0]) + ([16 * Field(ip - anchor)] + Excess(ip - anchor) + src[anchor..ip])
  {
    hide Excess, Field;
    var ll := ip - anchor;
    op := PutHead(dst, op0, ll);
    ghost var v := dst[..op];
    WildCopyIn(dst, op, src, anchor, op + ll, 8);
    op := op + ll;
    assert dst[..op] == v + src[anchor..ip];
  }

  /** The excess of a match length, laid down four bytes of 255 at a time. */
  method PutMatchRun(dst: array<Byte>, op0: nat, code0: nat) returns (op: nat)
    requires op0 + code0 / 255 + 5 <= dst.Length
    modifies dst
    ensures op == op0 + |LenBytes(code0)| && op <= dst.Length
    ensures dst[..op] == old(dst[..op0]) + LenBytes(code0)
  {
    hide LenBytes;
    var code := code0;
    op := op0;
    Put255x4(dst, op);
    while code >= 4 * 255
      invariant op0 <= op && op + code / 255 + 5 <= dst.Length
      invariant op + |LenBytes(code)| == op0 + |LenBytes(code0)|
      invariant dst[..op] + LenBytes(code) == old(dst[..op0]) + LenBytes(code0)
      invariant forall k :: op <= k < op + 4 ==> dst[k] == 255
    {
      ghost var w := dst[..op];
      assert dst[..op + 4] == w + [255, 255, 255, 255];
      Peel4(w, code);
      op := op + 4;
      Put255x4(dst, op);
      code := code - 4 * 255;
    }
    op := PutRunTail(dst, op, code);
  }

  /** The end of a run: up to three of the bytes of 255 already there, and the remainder. */
  method PutRunTail(dst: array<Byte>, op0: nat, code: nat) returns (op: nat)
    requires code < 4 * 255 && op0 + code / 255 + 5 <= dst.Length && forall k :: op0 <= k < op0 + 4 ==> dst[k] == 255
    modifies dst
    ensures op == op0 + |LenBytes(code)| && op <= dst.Length
    ensures dst[..op] == old(dst[..op0]) + LenBytes(code)
  {
    hide LenBytes;
    ghost var w := dst[..op0];
    LenTail(code);
    var q := code / 255;
    assert dst[..op0 + q] == w + [255, 255, 255][..q];
    dst[op0 + q] := code % 255;
    op := op0 + q + 1;
    assert dst[..op] == w + ([255, 255, 255][..q] + [code % 255]);
  }

  lemma Peel4(w: Bytes, code: nat)
    requires code >= 4 * 255
    ensures w + LenBytes(code) == w + [255, 255, 255, 255] + LenBytes(code - 4 * 255)
    ensures |LenBytes(code)| == 4 + |LenBytes(code - 4 * 255)|
  {
    assert LenBytes(code) == [255] + LenBytes(code - 255);
    assert LenBytes(code - 255) == [255] + LenBytes(code - 2 * 255);
    assert LenBytes(code - 2 * 255) == [255] + LenBytes(code - 3 * 255);
    assert LenBytes(code - 3 * 255) == [255] + LenBytes(code - 4 * 255);
  }

  lemma LenTail(code: nat)
    requires code < 4 * 255
    ensures code / 255 <= 3 && LenBytes(code) == [255, 255, 255][..code / 255] + [code % 255]
  {
    if code >= 255 {
      assert LenBytes(code) == [255] + LenBytes(code - 255);
      if code >= 510 {
        assert LenBytes(code - 255) == [255] + LenBytes(code - 510);
        if code >= 765 {
          assert LenBytes(code - 510) == [255] + LenBytes(code - 765);
        }
      }
    }
  }

  method Put255x4(dst: array<Byte>, op: nat)
    requires op + 4 <= dst.Length
    modifies dst
    ensures forall k :: 0 <= k < dst.Length ==> dst[k] == if op <= k < op + 4 then 255 else old(dst[k])
  {
    forall k | op <= k < op + 4 {
      dst[k] := 255;
    }
  }

  /** Offset and match length; the low half of the token is filled in. */
  method PutMatch(dst: array<Byte>, token: nat, op0: nat, offset: nat, code: nat) returns (op: nat)
    requires token < op0 && op0 + 2 + |Excess(code)| + 4 <= dst.Length && offset <= DISTANCE_MAX
    requires dst[token] <= 240
    modifies dst
    ensures op == op0 + 2 + |Excess(code)|
    ensures dst[..op] == old(dst[..op0])[token := old(dst[token]) + Field(code)]
                         + ([offset % 256, offset / 256] + Excess(code))
  {
    ghost var w := dst[..op0];
    dst[op0], dst[op0 + 1] := offset % 256, offset / 256;
    op := op0 + 2;
    dst[token] := dst[token] + Field(code);
    ghost var v := w[token := w[token] + Field(code)];
    assert dst[..op] == v + [offset % 256, offset / 256];
    if code >= 15 {
      op := PutMatchRun(dst, op, code - 15);
    }
    assert dst[..op] == v + [offset % 256, offset / 256] + Excess(code);
  }

  // ----- finding matches -----

  /** Every table entry is a position before `p`. */
  ghost predicate Earlier(table: seq<nat>, p: nat) {
    forall i :: 0 <= i < |table| ==> table[i] < p
  }

  /** LZ4_putIndexOnHash: 16-bit entries are truncated. */
  method PutIndex(table: array<nat>, h: nat, idx: nat, u16: bool, ghost p: nat)
    requires h < table.Length && Earlier(table[..], p) && idx < p && (u16 ==> idx < 65536)
    modifies table
    ensures Earlier(table[..], p) && table[..] == old(table[..])[h := idx]
  {
    ghost var t := table[..];
    table[h] := if u16 then idx % 65536 else idx;
    assert table[..] == t[h := idx];
  }

  predicate Same4(src: Bytes, i: nat, j: nat)
    requires i + 4 <= |src| && j + 4 <= |src|
  {
    src[i..i + 4] == src[j..j + 4]
  }

  /** A candidate accepted by the search. */
  ghost predicate Candidate(src: Bytes, ip: nat, m: nat) {
    && m < ip && ip - m <= DISTANCE_MAX && ip + MFLIMIT <= |src|
    && forall k :: ip <= k < ip + 4 ==> src[k] == src[k - (ip - m)]
  }

  lemma Candidates(src: Bytes, ip: nat, m: nat)
    requires m < ip && ip - m <= DISTANCE_MAX && ip + MFLIMIT <= |src| && Same4(src, m, ip)
    ensures Candidate(src, ip, m)
  {
    SliceAgree(src, ip, ip - m, 4);
  }

  /** The same byte over and over, and a hash that sees nothing but the bytes it is given. */
  ghost predicate Uniform(src: Bytes, hash: Hash) {
    && (forall i, j :: 0 <= i < |src| && 0 <= j < |src| ==> src[i] == src[j])
    && (forall i: nat, j: nat :: i + 8 <= |src| && j + 8 <= |src| ==> hash(i) == hash(j))
  }

  lemma UniformSame(src: Bytes, hash: Hash, i: nat, j: nat)
    requires Uniform(src, hash) && i + 12 <= |src| && j + 12 <= |src|
    ensures Same4(src, i, j) && hash(i) == hash(j)
  {
    assert src[i..i + 4] == src[j..j + 4];
  }

  /** The search loop: probes positions with growing steps until the table proposes one whose
      first four bytes agree, or the end is near. */
  method FindMatch(src: Bytes, table: array<nat>, hash: Hash, u16: bool, start: nat)
    returns (found: bool, ip: nat, m: nat)
    requires |src| > MFLIMIT && 1 <= start && start + MFLIMIT <= |src| + 1 && table.Length > 0
    requires Earlier(table[..], start) && (u16 ==> |src| < LIMIT_64K)
    modifies table
    ensures found ==> start <= ip && Candidate(src, ip, m) && Earlier(table[..], ip + 1)
    ensures start == 1 && Uniform(src, hash) && old(table[hash(0) % table.Length]) == 0 ==> found && (ip, m) == (1, 0)
  {
    hide Uniform;
    ghost var lucky := start == 1 && Uniform(src, hash) && table[hash(0) % table.Length] == 0;
    if lucky {
      UniformSame(src, hash, 0, 1);
    }
    var forward, step, tries := start, 1, 64;
    var fh: nat := hash(start) % table.Length;
    ip, m := start, 0;
    while true
      invariant start <= forward && forward + MFLIMIT <= |src| + 1 && step >= 1 && tries >= 64
      invariant fh < table.Length && Earlier(table[..], forward)
      invariant lucky ==> forward == step == 1 && table[fh] == 0
      decreases |src| - forward
    {
      var h := fh;
      m, ip := table[h], forward;
      forward := forward + step;
      step := tries / 64;
      tries := tries + 1;
      if forward + MFLIMIT > |src| + 1 {
        return false, ip, m;
      }
      fh := hash(forward) % table.Length;
      PutIndex(table, h, ip, u16, ip + 1);
      if (u16 || m + DISTANCE_MAX >= ip) && Same4(src, m, ip) {
        Candidates(src, ip, m);
        return true, ip, m;
      }
    }
  }

  /** Bytes up to `hi` repeat the ones `d` before them. */
  ghost predicate Agree(src: Bytes, lo: nat, hi: nat, d: nat) {
    d <= lo && hi <= |src| && forall k :: lo <= k < hi ==> src[k] == src[k - d]
  }

  /** Catch up: extends the match backwards over pending literals. */
  method CatchUp(src: Bytes, anchor: nat, ip0: nat, m0: nat) returns (ip: nat, m: nat)
    requires anchor < ip0 && Candidate(src, ip0, m0)
    ensures anchor <= ip <= ip0 && m < ip && ip - m == ip0 - m0 && Agree(src, ip, ip0 + 4, ip - m)
    ensures ip == anchor || m == 0 || src[ip - 1] != src[m - 1]
  {
    ip, m := ip0, m0;
    while ip > anchor && m > 0 && src[ip - 1] == src[m - 1]
      invariant anchor <= ip <= ip0 && m < ip && ip - m == ip0 - m0 && Agree(src, ip, ip0 + 4, ip - m)
    {
      ip, m := ip - 1, m - 1;
    }
  }

  /** Length of the common prefix of two eight-byte words (LZ4_NbCommonBytes of their xor). */
  method CommonBytes(a: Bytes, b: Bytes) returns (c: nat)
    requires |a| == |b| && a != b
    ensures c < |a| && a[c] != b[c] && forall k :: 0 <= k < c ==> a[k] == b[k]
  {
    ghost var q :| 0 <= q < |a| && a[q] != b[q];
    c := 0;
    while a[c] == b[c]
      invariant c <= q && forall k :: 0 <= k < c ==> a[k] == b[k]
      decreases |a| - c
    {
      c := c + 1;
    }
  }

  /** Equal words agree byte by byte, up to where they first differ. */
  lemma SliceAgree(src: Bytes, p: nat, d: nat, n: nat)
    requires d <= p && p + n <= |src| && src[p - d..p - d + n] == src[p..p + n]
    ensures Agree(src, p, p + n, d)
  {
    forall k | p <= k < p + n ensures src[k] == src[k - d] {
      assert src[k] == src[p..p + n][k - p];
      assert src[k - d] == src[p - d..p - d + n][k - p];
    }
  }

  lemma SliceDiffer(src: Bytes, p: nat, d: nat, n: nat) returns (q: nat)
    requires d <= p && p + n <= |src| && src[p - d..p - d + n] != src[p..p + n]
    ensures p <= q < p + n && src[q] != src[q - d]
  {
    var a, b := src[p - d..p - d + n], src[p..p + n];
    var k :| 0 <= k < n && a[k] != b[k];
    q := p + k;
  }

  /** Skips `n` more bytes if they agree. */
  method Skip(src: Bytes, p0: nat, p: nat, d: nat, limit: nat, n: nat, ghost q0: nat) returns (p': nat, ghost q: nat)
    requires 1 <= d <= p0 <= p <= limit <= |src| && Agree(src, p0, p, d)
    requires n > 0 && p <= q0 <= limit && (q0 < limit ==> src[q0] != src[q0 - d]) && q0 < p + 2 * n
    ensures p <= p' <= limit && Agree(src, p0, p', d)
    ensures p' <= q <= limit && (q < limit ==> src[q] != src[q - d]) && q < p' + n
  {
    p', q := p, q0;
    if p + n <= limit {
      if src[p - d..p - d + n] == src[p..p + n] {
        SliceAgree(src, p, d, n);
        p' := p + n;
      } else {
        q := SliceDiffer(src, p, d, n);
      }
    }
  }

  /** The tail of LZ4_count: four, two, then one byte. */
  method CountTail(src: Bytes, p0: nat, p1: nat, d: nat, limit: nat) returns (p: nat)
    requires 1 <= d <= p0 <= p1 <= limit <= |src| && limit < p1 + 8 && Agree(src, p0, p1, d)
    ensures p1 <= p <= limit && Agree(src, p0, p, d)
    ensures p < limit ==> src[p] != src[p - d]
  {
    ghost var q;
    p, q := Skip(src, p0, p1, d, limit, 4, limit);
    p, q := Skip(src, p0, p, d, limit, 2, q);
    p, q := Skip(src, p0, p, d, limit, 1, q);
  }

  /** LZ4_count: how far the match goes on before `limit`, eight bytes at a time, then 4, 2, 1. */
  method Count(src: Bytes, p0: nat, d: nat, limit: nat) returns (c: nat)
    requires 1 <= d <= p0 <= limit <= |src|
    ensures p0 + c <= limit && Agree(src, p0, p0 + c, d)
    ensures p0 + c < limit ==> src[p0 + c] != src[p0 + c - d]
  {
    var p := p0;
    while p + 8 <= limit
      invariant p0 <= p <= limit && Agree(src, p0, p, d)
    {
      var a, b := src[p - d..p - d + 8], src[p..p + 8];
      if a != b {
        var n := CommonBytes(a, b);
        assert src[p - d..p - d + n] == a[..n] == b[..n] == src[p..p + n];
        SliceAgree(src, p, d, n);
        assert src[p + n] == b[n] && src[p + n - d] == a[n];
        return p + n - p0;
      }
      SliceAgree(src, p, d, 8);
      p := p + 8;
    }
    p := CountTail(src, p0, p, d, limit);
    return p - p0;
  }

  // ----- whole sequences -----

  /** What is in the buffer once the literals of a sequence are written. */
  function Begun(w: Bytes, lits: Bytes): Bytes {
    w + ([16 * Field(|lits|)] + Excess(|lits|) + lits)
  }

  lemma FinishSequence(w: Bytes, s: Sequence, v: Bytes)
    requires s.mlen >= MINMATCH && s.offset <= DISTANCE_MAX
    requires v == Begun(w, s.lits)[|w| := 16 * Field(|s.lits|) + Field(s.mlen - MINMATCH)]
                  + ([s.offset % 256, s.offset / 256] + Excess(s.mlen - MINMATCH))
    ensures v == w + Encode1(s)
  {
    hide Excess, Field;
    var t: Byte := 16 * Field(|s.lits|) + Field(s.mlen - MINMATCH);
    assert Begun(w, s.lits)[|w| := t] == w + ([t] + Excess(|s.lits|) + s.lits);
  }

  /** There is room for the end of a sequence, wide writes included. */
  lemma MatchRoom(src: Bytes, w: Bytes, anchor: nat, ip: nat, offset: nat, mlen: nat, cap: nat)
    requires 255 * |w| <= 256 * anchor && Sound(src, anchor, ip, offset, mlen) && cap >= CompressBound(|src|)
    ensures |Begun(w, src[anchor..ip])| + 2 + |Excess(mlen - MINMATCH)| + 4 <= cap
  {
    hide Excess, Field;
    Encode1Bound(Sequence(src[anchor..ip], offset, mlen));
    BoundRoom(|src|, cap);
  }

  lemma LiteralRoom(src: Bytes, w: Bytes, anchor: nat, ip: nat, cap: nat)
    requires 255 * |w| <= 256 * anchor && anchor <= ip && ip + MFLIMIT <= |src| && cap >= CompressBound(|src|)
    ensures |w| + 1 + |Excess(ip - anchor)| + (ip - anchor) + 8 <= cap
  {
    hide Excess, Field;
    ExcessBound(ip - anchor);
    BoundRoom(|src|, cap);
  }

  /** From the label _next_match: offset, length, and the sequence is complete. */
  method EmitMatch(src: Bytes, dst: array<Byte>, token: nat, op0: nat, anchor: nat, ip0: nat, m: nat,
                   ghost hi: nat, ghost w: Bytes, ghost seqs: seq<Sequence>)
    returns (ip: nat, op: nat, ghost seqs': seq<Sequence>)
    requires anchor <= ip0 && m < ip0 && ip0 - m <= DISTANCE_MAX && ip0 + MFLIMIT <= |src|
    requires ip0 + MINMATCH <= hi <= |src| - LASTLITERALS && Agree(src, ip0, hi, ip0 - m)
    requires Written(src, w, seqs, anchor) && token == |w|
    requires op0 <= dst.Length && dst[..op0] == Begun(w, src[anchor..ip0])
    requires dst.Length >= CompressBound(|src|)
    modifies dst
    ensures hi <= ip <= |src| - LASTLITERALS && op <= dst.Length && Written(src, dst[..op], seqs', ip)
    ensures ip == |src| - LASTLITERALS || src[ip] != src[ip - (ip0 - m)]
    ensures seqs' == seqs + [Sequence(src[anchor..ip0], ip0 - m, ip - ip0)]
  {
    hide Written, Excess, Encode1, Begun;
    var offset := ip0 - m;
    var code := Count(src, ip0 + MINMATCH, offset, |src| - LASTLITERALS);
    var mlen := code + MINMATCH;
    ghost var s := Sequence(src[anchor..ip0], offset, mlen);
    ip := ip0 + mlen;
    WrittenBound(src, w, seqs, anchor);
    MatchRoom(src, w, anchor, ip0, offset, mlen, dst.Length);
    BegunToken(w, s.lits);
    op := PutMatch(dst, token, op0, offset, code);
    FinishSequence(w, s, dst[..op]);
    AddSequence(src, w, seqs, anchor, ip0, offset, mlen);
    seqs' := seqs + [s];
  }

  lemma BegunToken(w: Bytes, lits: Bytes)
    ensures |Begun(w, lits)| > |w| && Begun(w, lits)[|w|] == 16 * Field(|lits|)
  {
  }

  /** A sequence without literals needs one byte for its token. */
  lemma ZeroLiterals(src: Bytes, w: Bytes, seqs: seq<Sequence>, ip: nat, cap: nat)
    requires Written(src, w, seqs, ip) && ip + MFLIMIT <= |src| && cap >= CompressBound(|src|)
    ensures |w| < cap && w + [0] == Begun(w, src[ip..ip])
  {
    WrittenBound(src, w, seqs, ip);
    LiteralRoom(src, w, ip, ip, cap);
  }

  /** After a match: the table learns two positions, and as long as the very next position
      matches too, sequences without literals follow. */
  method NextMatches(src: Bytes, dst: array<Byte>, table: array<nat>, hash: Hash, u16: bool, ip0: nat, op0: nat,
                     ghost seqs0: seq<Sequence>)
    returns (ip: nat, op: nat, ghost seqs: seq<Sequence>)
    requires |src| > MFLIMIT && table.Length > 0 && (u16 ==> |src| < LIMIT_64K)
    requires 2 <= ip0 <= |src| && op0 <= dst.Length && Written(src, dst[..op0], seqs0, ip0) && Earlier(table[..], ip0)
    requires dst.Length >= CompressBound(|src|)
    modifies dst, table
    ensures ip0 <= ip <= |src| && op <= dst.Length && Written(src, dst[..op], seqs, ip)
    ensures ip + MFLIMIT <= |src| ==> Earlier(table[..], ip + 1) && table[hash(ip) % table.Length] == ip
    ensures ip0 + MFLIMIT > |src| ==> (ip, seqs) == (ip0, seqs0)
  {
    hide Written, Begun;
    ip, op, seqs := ip0, op0, seqs0;
    while ip + MFLIMIT <= |src|
      invariant ip0 <= ip <= |src| && op <= dst.Length && Written(src, dst[..op], seqs, ip) && Earlier(table[..], ip)
      invariant ip0 + MFLIMIT > |src| ==> (ip, seqs) == (ip0, seqs0)
      decreases |src| - ip
    {
      PutIndex(table, hash(ip - 2) % table.Length, ip - 2, u16, ip);
      var h := hash(ip) % table.Length;
      var m := table[h];
      PutIndex(table, h, ip, u16, ip + 1);
      if !((u16 || m + DISTANCE_MAX >= ip) && Same4(src, m, ip)) {
        return;
      }
      Candidates(src, ip, m);
      ghost var w := dst[..op];
      ZeroLiterals(src, w, seqs, ip, dst.Length);
      dst[op] := 0;
      assert dst[..op + 1] == w + [0];
      ip, op, seqs := EmitMatch(src, dst, op, op + 1, ip, ip, m, ip + 4, w, seqs);
    }
  }

  /** The first byte, and all but the last ones repeated from it. */
  function OneRun(src: Bytes): Sequence
    requires |src| > MFLIMIT
  {
    Sequence(src[..1], 1, |src| - LASTLITERALS - 1)
  }

  /** One round of the main loop from an accepted candidate: literals, match, next matches. */
  method EmitFound(src: Bytes, dst: array<Byte>, table: array<nat>, hash: Hash, u16: bool, anchor: nat, mp: nat,
                   m0: nat, op0: nat, ghost seqs0: seq<Sequence>)
    returns (ip: nat, op: nat, ghost seqs: seq<Sequence>)
    requires table.Length > 0 && (u16 ==> |src| < LIMIT_64K) && anchor < mp && Candidate(src, mp, m0)
    requires op0 <= dst.Length && Written(src, dst[..op0], seqs0, anchor) && Earlier(table[..], mp + 1)
    requires dst.Length >= CompressBound(|src|)
    modifies dst, table
    ensures mp < ip <= |src| && op <= dst.Length && Written(src, dst[..op], seqs, ip)
    ensures ip + MFLIMIT <= |src| ==> Earlier(table[..], ip + 1) && table[hash(ip) % table.Length] == ip
    ensures Uniform(src, hash) && (anchor, mp, m0) == (0, 1, 0) ==>
              ip == |src| - LASTLITERALS && seqs == seqs0 + [OneRun(src)]
  {
    hide Written;
    var m;
    ip, m := CatchUp(src, anchor, mp, m0);
    ghost var w := dst[..op0];
    WrittenBound(src, w, seqs0, anchor);
    LiteralRoom(src, w, anchor, ip, dst.Length);
    op := PutLiterals(src, dst, anchor, ip, op0);
    ip, op, seqs := EmitMatch(src, dst, op0, op, anchor, ip, m, mp + 4, w, seqs0);
    ip, op, seqs := NextMatches(src, dst, table, hash, u16, ip, op, seqs);
  }

  /** The main loop. */
  method CompressLoop(src: Bytes, dst: array<Byte>, hash: Hash)
    returns (anchor: nat, op: nat, ghost seqs: seq<Sequence>)
    requires |src| > MFLIMIT && dst.Length >= CompressBound(|src|)
    modifies dst
    ensures anchor <= |src| && op <= dst.Length && Written(src, dst[..op], seqs, anchor)
    ensures Uniform(src, hash) ==> anchor == |src| - LASTLITERALS && seqs == [OneRun(src)]
  {
    hide Written, Uniform;
    var u16 := |src| < LIMIT_64K;
    var table := new nat[if u16 then 8192 else 4096](_ => 0);
    PutIndex(table, hash(0) % table.Length, 0, u16, 1);
    anchor, op, seqs := 0, 0, [];
    WrittenNothing(src);
    assert dst[..0] == [];
    var ip := 1;
    while true
      invariant anchor < ip && ip + MFLIMIT <= |src| + 1 && op <= dst.Length
      invariant Written(src, dst[..op], seqs, anchor) && Earlier(table[..], ip)
      invariant Uniform(src, hash) ==> (anchor, ip, seqs) == (0, 1, []) && table[hash(0) % table.Length] == 0
      decreases |src| - ip
    {
      var found, mp, m := FindMatch(src, table, hash, u16, ip);
      if !found {
        return;
      }
      anchor, op, seqs := EmitFound(src, dst, table, hash, u16, anchor, mp, m, op, seqs);
      if anchor + MFLIMIT > |src| {
        return;
      }
      ip := anchor + 1;
    }
  }

  lemma WrittenNothing(src: Bytes)
    ensures Written(src, [], [], 0)
  {
  }

  lemma LastRoom(src: Bytes, w: Bytes, seqs: seq<Sequence>, anchor: nat, cap: nat)
    requires Written(src, w, seqs, anchor) && cap >= CompressBound(|src|)
    ensures |w| + |EncodeLast(src[anchor..])| <= cap && Writable(seqs) && w == Encode(seqs)
  {
    SizeBound(seqs, src[anchor..]);
  }

  /** The last literals. */
  method PutLast(src: Bytes, dst: array<Byte>, anchor: nat, op0: nat, ghost seqs: seq<Sequence>) returns (op: nat)
    requires anchor <= |src| && op0 <= dst.Length && Written(src, dst[..op0], seqs, anchor)
    requires dst.Length >= CompressBound(|src|)
    modifies dst
    ensures op <= dst.Length && Writable(seqs) && dst[..op] == Encode(seqs) + EncodeLast(src[anchor..])
    ensures Written(src, Encode(seqs), seqs, anchor)
  {
    hide Written, Writable, Encode, Excess, Field;
    LastRoom(src, dst[..op0], seqs, anchor, dst.Length);
    ghost var w := dst[..op0];
    var ll := |src| - anchor;
    op := PutHead(dst, op0, ll);
    ghost var v := dst[..op];
    CopyIn(dst, op, src, anchor, ll);
    op := op + ll;
    assert dst[..op] == v + src[anchor..];
    assert v + src[anchor..] == w + EncodeLast(src[anchor..]);
  }

  /** LZ4_compress_default: whatever the hash function proposes, the block in the buffer decodes
      to the input, and it stays within the documented bound. */
  method Compress(src: Bytes, dst: array<Byte>, hash: Hash) returns (n: nat)
    requires |src| <= MAX_INPUT_SIZE ==> dst.Length >= CompressBound(|src|)
    modifies dst
    ensures |src| > MAX_INPUT_SIZE ==> n == 0
    ensures |src| <= MAX_INPUT_SIZE ==>
              && 0 < n <= dst.Length && n <= |src| + |src| / 255 + 2
              && Spec.Decode(dst[..n], |src|) == Some(src)
    ensures MFLIMIT < |src| <= MAX_INPUT_SIZE && Uniform(src, hash) ==> n <= |src| / 255 + 11
  {
    hide Written, Encode, EncodeLast, Spec.Decode, Uniform;
    if |src| > MAX_INPUT_SIZE {
      return 0;
    }
    var anchor, op := 0, 0;
    ghost var seqs: seq<Sequence> := [];
    WrittenNothing(src);
    assert dst[..0] == [];
    if |src| > MFLIMIT {
      anchor, op, seqs := CompressLoop(src, dst, hash);
    }
    n := PutLast(src, dst, anchor, op, seqs);
    BlockDecodes(src, dst[..n], seqs, anchor);
    if |src| > MFLIMIT && Uniform(src, hash) {
      OneRunSize(src);
    }
  }

  lemma OneRunSize(src: Bytes)
    requires |src| > MFLIMIT
    ensures |Encode([OneRun(src)]) + EncodeLast(src[|src| - LASTLITERALS..])| <= |src| / 255 + 11
  {
    assert [OneRun(src)][1..] == [];
  }

  lemma BlockDecodes(src: Bytes, block: Bytes, seqs: seq<Sequence>, anchor: nat)
    requires Writable(seqs) && Written(src, Encode(seqs), seqs, anchor)
    requires block == Encode(seqs) + EncodeLast(src[anchor..])
    ensures 0 < |block| <= |src| + |src| / 255 + 2 && Spec.Decode(block, |src|) == Some(src)
  {
    SizeBound(seqs, src[anchor..]);
    assert src[..anchor] + src[anchor..] == src;
    Spec.RoundTrip(seqs, src[anchor..], src);
  }
}
