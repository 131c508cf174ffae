/**
 The copy routines of src/lz4.c, which move 8, 16 or 32 bytes at a time and may write past
 the end they are asked for.  Each is shown to leave, up to that end, what a byte-by-byte
 overlapping copy leaves.  Every memcpy is called on regions that do not overlap.
 */
module Lz4Copy {
  import opened Common
  import opened Lz4Format

  /** memcpy from another buffer. */
  method CopyIn(dst: array<Byte>, d: nat, src: Bytes, s: nat, n: nat)
    requires d + n <= dst.Length && s + n <= |src|
    modifies dst
    ensures forall k :: 0 <= k < dst.Length ==>
              dst[k] == if d <= k < d + n then src[s + (k - d)] else old(dst[k])
  {
    forall k | d <= k < d + n {
      dst[k] := src[s + (k - d)];
    }
  }

  /** memcpy inside one buffer: the regions must not overlap. */
  method Copy(dst: array<Byte>, d: nat, s: nat, n: nat)
    requires s + n <= d && d + n <= dst.Length
    modifies dst
    ensures forall k :: 0 <= k < dst.Length ==>
              dst[k] == if d <= k < d + n then old(dst[s + (k - d)]) else old(dst[k])
  {
    forall k | d <= k < d + n {
      dst[k] := dst[s + (k - d)];
    }
  }

  /** LZ4_wildCopy8 and LZ4_wildCopy32 from another buffer, in strides of `w` bytes. */
  method WildCopyIn(dst: array<Byte>, d0: nat, src: Bytes, s0: nat, e: nat, w: nat)
    requires w > 0 && d0 <= e && d0 + w <= dst.Length && e + w <= dst.Length + 1
    requires s0 + w <= |src| && s0 + (e - d0) + w <= |src| + 1
    modifies dst
    ensures dst[..d0] == old(dst[..d0])
    ensures dst[d0..e] == src[s0..s0 + (e - d0)]
  {
    CopyIn(dst, d0, src, s0, w);
    var d, s := d0 + w, s0 + w;
    while d < e
      invariant d0 <= d && d - d0 == s - s0 && d < e + w + (if e == d0 then 1 else 0)
      invariant forall k :: 0 <= k < d0 ==> dst[k] == old(dst[k])
      invariant d <= dst.Length && forall k :: d0 <= k < d ==> dst[k] == src[s0 + (k - d0)]
    {
      CopyIn(dst, d, src, s, w);
      d, s := d + w, s + w;
    }
  }

  /** Below `lo` nothing changed. */
  twostate predicate Below(dst: array<Byte>, lo: nat)
    requires lo <= dst.Length
    reads dst
  {
    forall k :: 0 <= k < lo ==> dst[k] == old(dst[k])
  }

  /** LZ4_wildCopy8 inside one buffer, over a distance of at least 8. */
  method WildCopy8(dst: array<Byte>, d0: nat, s0: nat, e: nat)
    requires s0 + 8 <= d0 && d0 + 8 <= dst.Length && e + 7 <= dst.Length
    modifies dst
    ensures Below(dst, d0)
    ensures d0 <= e ==> Echo(dst[..], d0, e, d0 - s0)
  {
    Copy(dst, d0, s0, 8);
    var d, s := d0 + 8, s0 + 8;
    while d < e
      invariant d0 <= d && d - d0 == s - s0 && d <= dst.Length
      invariant forall k :: 0 <= k < d0 ==> dst[k] == old(dst[k])
      invariant forall k :: d0 <= k < d ==> dst[k] == dst[k - (d0 - s0)]
    {
      Copy(dst, d, s, 8);
      d, s := d + 8, s + 8;
    }
  }

  /** LZ4_wildCopy32 inside one buffer, two 16-byte copies per stride. */
  method WildCopy32(dst: array<Byte>, d0: nat, s0: nat, e: nat)
    requires s0 + 16 <= d0 && d0 + 32 <= dst.Length && e + 31 <= dst.Length
    modifies dst
    ensures Below(dst, d0)
    ensures d0 <= e ==> Echo(dst[..], d0, e, d0 - s0)
  {
    Copy(dst, d0, s0, 16);
    Copy(dst, d0 + 16, s0 + 16, 16);
    var d, s := d0 + 32, s0 + 32;
    while d < e
      invariant d0 <= d && d - d0 == s - s0 && d <= dst.Length
      invariant forall k :: 0 <= k < d0 ==> dst[k] == old(dst[k])
      invariant forall k :: d0 <= k < d ==> dst[k] == dst[k - (d0 - s0)]
    {
      Copy(dst, d, s, 16);
      Copy(dst, d + 16, s + 16, 16);
      d, s := d + 32, s + 32;
    }
  }

  const INC32: seq<nat> := [0, 1, 2, 1, 0, 4, 4, 4]
  const DEC64: seq<int> := [0, 0, 0, -1, -4, 1, 2, 3]

  /** After the first eight bytes of a match the copy goes on over this distance: a multiple of
      the offset that is at least eight. */
  function Stride(offset: nat): nat {
    if offset >= 8 then offset
    else if offset <= 2 || offset == 4 then 8
    else if offset == 3 then 9 else 2 * offset
  }

  /** Four bytes copied in order, over an offset that may be as small as zero. */
  method First4(dst: array<Byte>, op: nat, offset: nat)
    requires offset <= op && op + 4 <= dst.Length
    modifies dst
    ensures Below(dst, op) && Echo(dst[..], op, op + 4, offset)
  {
    var m := op - offset;
    dst[op], dst[op + 1], dst[op + 2], dst[op + 3] := 0, 0, 0, 0;
    dst[op] := dst[m];
    dst[op + 1] := dst[m + 1];
    dst[op + 2] := dst[m + 2];
    dst[op + 3] := dst[m + 3];
  }

  /** The second four bytes, taken from inc32table[offset] further on, keep the echo. */
  lemma Second4(s: Bytes, op: nat, offset: nat)
    requires offset < 8 && offset <= op && op + 8 <= |s| && Echo(s, op, op + 4, offset)
    requires forall k :: op + 4 <= k < op + 8 ==> s[k] == s[op - offset + INC32[offset] + (k - op - 4)]
    ensures Echo(s, op, op + 8, offset)
  {
    var m := op - offset + INC32[offset];
    assert s[op + 4] == s[m] && s[op + 5] == s[m + 1] && s[op + 6] == s[m + 2] && s[op + 7] == s[m + 3];
    if offset == 0 || offset == 1 || offset == 2 || offset == 3 || offset == 4 {
      assert s[op + 4] == if offset == 0 then 0 else s[op + 4 - offset];
      assert s[op + 5] == if offset == 0 then 0 else s[op + 5 - offset];
    }
  }

  /** The first eight bytes of a match: byte by byte and through inc32table/dec64table when the
      offset is below eight.  Returns where the copy goes on. */
  method First8(dst: array<Byte>, op: nat, offset: nat) returns (m: nat)
    requires offset <= op && op + 8 <= dst.Length
    modifies dst
    ensures Below(dst, op)
    ensures Echo(dst[..], op, op + 8, offset)
    ensures m == op + 8 - Stride(offset)
  {
    m := op - offset;
    if offset < 8 {
      First4(dst, op, offset);
      m := m + INC32[offset];
      ghost var b := dst[..];
      Copy(dst, op + 4, m, 4);
      Second4(dst[..], op, offset);
      m := m - DEC64[offset];
    } else {
      Copy(dst, op, m, 8);
      m := m + 8;
    }
  }

  // ----- going on over a multiple of the offset -----

  /** Inside an echo, going back a multiple of the offset changes nothing. */
  lemma {:induction false} EchoBack(s: Bytes, lo: nat, hi: nat, offset: nat, p: nat, j: nat)
    requires Echo(s, lo, hi, offset) && 1 <= offset && lo <= p < hi && j * offset <= p
    requires j > 0 ==> lo + (j - 1) * offset <= p
    ensures s[p] == s[p - j * offset]
    decreases j
  {
    if j > 0 {
      assert (j - 1) * offset == j * offset - offset;
      if j > 1 {
        assert (j - 2) * offset == j * offset - 2 * offset;
      }
      EchoBack(s, lo, hi, offset, p, j - 1);
      var q := p - (j - 1) * offset;
      assert s[q] == s[q - offset];
    }
  }

  /** Eight echoing bytes followed by an echo over the stride make one echo over the offset. */
  lemma {:induction false} EchoStride(s: Bytes, op: nat, hi: nat, offset: nat, j: nat)
    requires Echo(s, op, op + 8, offset) && op + 8 <= hi && Echo(s, op + 8, hi, Stride(offset))
    requires offset > 0 ==> Stride(offset) == j * offset
    ensures Echo(s, op, hi, offset)
    decreases hi
  {
    if hi > op + 8 {
      EchoStride(s, op, hi - 1, offset, j);
      var k := hi - 1;
      assert s[k] == s[k - Stride(offset)];
      if 0 < offset < 8 {
        assert (j - 1) * offset == j * offset - offset && (offset > 0 ==> j > 0);
        if j > 1 {
          assert (j - 2) * offset == j * offset - 2 * offset;
          EchoBack(s, op, hi - 1, offset, k - offset, j - 1);
        }
      }
    }
  }

  /** Carries on a match after its first eight bytes. */
  lemma MatchDone(s: Bytes, op: nat, cpy: nat, offset: nat)
    requires offset <= op && cpy <= |s| && op + 8 <= |s| && Echo(s, op, op + 8, offset)
    requires op + 8 <= cpy ==> Echo(s, op + 8, cpy, Stride(offset))
    ensures Echo(s, op, cpy, offset)
  {
    if op + 8 <= cpy {
      var j := if offset == 0 then 0 else if offset == 1 then 8 else if offset == 2 then 4
               else if offset == 3 then 3 else if offset < 8 then 2 else 1;
      EchoStride(s, op, cpy, offset, j);
    }
  }

  lemma BelowEcho(s: Bytes, t: Bytes, lo: nat, hi: nat, offset: nat)
    requires Echo(s, lo, hi, offset) && hi <= |t| && s[..hi] == t[..hi]
    ensures Echo(t, lo, hi, offset)
  {
    assert forall k :: 0 <= k < hi ==> t[k] == t[..hi][k] == s[..hi][k] == s[k];
  }

  // ----- whole matches -----

  /** The eight-byte pattern of LZ4_memcpy_using_offset for offsets 1, 2 and 4. */
  function Pattern(s: Bytes, m: nat, offset: nat): Bytes
    requires offset in {1, 2, 4} && m + offset <= |s|
  {
    if offset == 1 then [s[m], s[m], s[m], s[m], s[m], s[m], s[m], s[m]]
    else if offset == 2 then [s[m], s[m + 1], s[m], s[m + 1], s[m], s[m + 1], s[m], s[m + 1]]
    else s[m..m + 4] + s[m..m + 4]
  }

  lemma PatternEchoes(s: Bytes, op: nat, offset: nat)
    requires offset in {1, 2, 4} && offset <= op && op + 8 <= |s|
    requires s[op..op + 8] == Pattern(s, op - offset, offset)
    ensures Echo(s, op, op + 8, offset)
  {
    var m, v := op - offset, s[op..op + 8];
    assert s[op] == v[0] && s[op + 1] == v[1] && s[op + 2] == v[2] && s[op + 3] == v[3];
    assert s[op + 4] == v[4] && s[op + 5] == v[5] && s[op + 6] == v[6] && s[op + 7] == v[7];
  }

  /** The pattern is laid down in strides of eight. */
  method CopyPattern(dst: array<Byte>, op: nat, v: Bytes, cpy: nat)
    requires |v| == 8 && op + MINMATCH <= cpy && cpy + 12 <= dst.Length
    modifies dst
    ensures Below(dst, op) && dst[op..op + 8] == v
    ensures op + 8 <= cpy ==> Echo(dst[..], op + 8, cpy, 8)
  {
    CopyIn(dst, op, v, 0, 8);
    var d := op + 8;
    while d < cpy
      invariant op + 8 <= d <= dst.Length
      invariant forall k :: 0 <= k < op ==> dst[k] == old(dst[k])
      invariant forall k :: op <= k < op + 8 ==> dst[k] == v[k - op]
      invariant forall k :: op + 8 <= k < d ==> dst[k] == dst[k - 8]
      invariant forall k :: d - 8 <= k < d ==> dst[k] == v[k - (d - 8)]
    {
      CopyIn(dst, d, v, 0, 8);
      d := d + 8;
    }
  }

  /** LZ4_memcpy_using_offset */
  method CopyUsingOffset(dst: array<Byte>, op: nat, offset: nat, cpy: nat)
    requires offset <= op && op + MINMATCH <= cpy && cpy + 12 <= dst.Length
    modifies dst
    ensures Below(dst, op) && Echo(dst[..], op, cpy, offset)
  {
    if offset in {1, 2, 4} {
      var v := Pattern(dst[..], op - offset, offset);
      CopyPattern(dst, op, v, cpy);
      assert v == Pattern(dst[..], op - offset, offset);
      PatternEchoes(dst[..], op, offset);
    } else {
      var m := First8(dst, op, offset);
      ghost var b := dst[..];
      WildCopy8(dst, op + 8, m, cpy);
      BelowEcho(b, dst[..], op, op + 8, offset);
    }
    MatchDone(dst[..], op, cpy, offset);
  }

  /** The match copy of the fast loop. */
  method CopyMatchFast(dst: array<Byte>, op: nat, offset: nat, cpy: nat)
    requires offset <= op && op + MINMATCH <= cpy && cpy + 64 <= dst.Length
    modifies dst
    ensures Below(dst, op) && Echo(dst[..], op, cpy, offset)
  {
    if offset < 16 {
      CopyUsingOffset(dst, op, offset, cpy);
    } else {
      WildCopy32(dst, op, op - offset, cpy);
    }
  }

  /** The 18-byte match copy of both shortcuts. */
  method CopyMatch18(dst: array<Byte>, op: nat, offset: nat, cpy: nat)
    requires 8 <= offset <= op && cpy <= op + 18 <= dst.Length && op <= cpy
    modifies dst
    ensures Below(dst, op) && Echo(dst[..], op, cpy, offset)
  {
    Copy(dst, op, op - offset, 8);
    Copy(dst, op + 8, op + 8 - offset, 8);
    Copy(dst, op + 16, op + 16 - offset, 2);
  }

  /** The match copy of the safe loop: wide strides while they fit, single bytes at the end. */
  method CopyMatchSafe(dst: array<Byte>, op: nat, offset: nat, cpy: nat)
    requires offset <= op && op + MINMATCH <= cpy && op + 8 <= dst.Length && cpy + LASTLITERALS <= dst.Length
    modifies dst
    ensures Below(dst, op) && Echo(dst[..], op, cpy, offset)
  {
    var m := First8(dst, op, offset);
    ghost var b := dst[..];
    var p := op + 8;
    if cpy + 12 > dst.Length {
      TailCopy(dst, p, m, cpy);
    } else {
      Copy(dst, p, m, 8);
      if cpy > op + 16 {
        ghost var c := dst[..];
        WildCopy8(dst, p + 8, m + 8, cpy);
        EchoJoin(c, dst[..], p, p + 8, cpy, p - m);
      }
    }
    BelowEcho(b, dst[..], op, op + 8, offset);
    MatchDone(dst[..], op, cpy, offset);
  }

  lemma EchoJoin(c: Bytes, s: Bytes, lo: nat, mid: nat, hi: nat, offset: nat)
    requires |c| == |s| && 1 <= offset <= lo <= mid <= hi <= |s| && s[..mid] == c[..mid]
    requires forall k :: lo <= k < mid ==> c[k] == c[k - offset]
    requires Echo(s, mid, hi, offset)
    ensures Echo(s, lo, hi, offset)
  {
    assert forall k :: 0 <= k < mid ==> s[k] == s[..mid][k] == c[..mid][k] == c[k];
  }

  /** Near the end of the output: strides of eight up to seven bytes before it, then bytes. */
  method TailCopy(dst: array<Byte>, p0: nat, m0: nat, cpy: nat)
    requires m0 + 8 <= p0 <= dst.Length && cpy <= dst.Length && 8 <= dst.Length
    modifies dst
    ensures Below(dst, p0)
    ensures p0 <= cpy ==> Echo(dst[..], p0, cpy, p0 - m0)
  {
    var p, m, limit := p0, m0, dst.Length - 7;
    if p < limit {
      WildCopy8(dst, p, m, limit);
      m := m + (limit - p);
      p := limit;
    }
    while p < cpy
      invariant p0 <= p <= dst.Length && p - m == p0 - m0
      invariant forall k :: 0 <= k < p0 ==> dst[k] == old(dst[k])
      invariant forall k :: p0 <= k < p ==> dst[k] == dst[k - (p0 - m0)]
    {
      dst[p] := dst[m];
      p, m := p + 1, m + 1;
    }
  }
}
