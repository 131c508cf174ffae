/**
 The LZ4 block format: what a block means, how it is written, and which byte strings
 LZ4_decompress_safe accepts, all byte by byte.
 */
module Lz4Format {
  import opened Common

  const MINMATCH: nat := 4
  const LASTLITERALS: nat := 5
  const MFLIMIT: nat := 12
  const DISTANCE_MAX: nat := 65535

  /** Literals followed by a match: `mlen` bytes repeated from `offset` bytes back. */
  datatype Sequence = Sequence(lits: Bytes, offset: nat, mlen: nat)

  // ----- meaning -----

  function Zeros(n: nat): (r: Bytes)
    ensures |r| == n && forall i :: 0 <= i < n ==> r[i] == 0
  {
    seq(n, _ => 0)
  }

  /** `out` with `len` bytes appended one at a time, each copied from `offset` bytes before it,
      so that a match may overlap what it produces. */
  function Repeat(out: Bytes, offset: nat, len: nat): (r: Bytes)
    requires 1 <= offset <= |out|
    ensures |r| == |out| + len
    decreases len
  {
    if len == 0 then out else Repeat(out + [out[|out| - offset]], offset, len - 1)
  }

  /** A match of offset zero, which no compressor writes, decodes to zeros. */
  function Extend(out: Bytes, offset: nat, len: nat): (r: Bytes)
    requires offset <= |out|
    ensures |r| == |out| + len
  {
    if offset == 0 then out + Zeros(len) else Repeat(out, offset, len)
  }

  /** Position `k` of every k in lo..hi repeats the byte `offset` before it. */
  ghost predicate Echo(s: Bytes, lo: nat, hi: nat, offset: nat) {
    offset <= lo && hi <= |s| && forall k :: lo <= k < hi ==> s[k] == if offset == 0 then 0 else s[k - offset]
  }

  /** A string is the extension of its prefix exactly when it echoes. */
  lemma {:induction false} EchoRepeats(s: Bytes, lo: nat, hi: nat, offset: nat)
    requires 1 <= offset <= lo <= hi <= |s| && Echo(s, lo, hi, offset)
    ensures Repeat(s[..lo], offset, hi - lo) == s[..hi]
    decreases hi - lo
  {
    if lo < hi {
      assert s[..lo] + [s[lo - offset]] == s[..lo + 1];
      EchoRepeats(s, lo + 1, hi, offset);
    }
  }

  lemma EchoExtends(s: Bytes, lo: nat, hi: nat, offset: nat)
    requires offset <= lo <= hi <= |s| && Echo(s, lo, hi, offset)
    ensures Extend(s[..lo], offset, hi - lo) == s[..hi]
  {
    if offset == 0 {
      assert s[..hi] == s[..lo] + Zeros(hi - lo);
    } else {
      EchoRepeats(s, lo, hi, offset);
    }
  }

  /** The bytes a list of sequences adds to `out`; none if an offset reaches before the start. */
  function Play(out: Bytes, seqs: seq<Sequence>): Option<Bytes>
    decreases |seqs|
  {
    if seqs == [] then Some(out)
    else
      var lit := out + seqs[0].lits;
      if seqs[0].offset > |lit| then None else Play(Extend(lit, seqs[0].offset, seqs[0].mlen), seqs[1..])
  }

  /** The parsing restrictions of the format for a block of `total` bytes, from position `pos`:
      a match starts at least MFLIMIT and ends at least LASTLITERALS bytes before the end. */
  ghost predicate Fits(seqs: seq<Sequence>, pos: nat, total: nat)
    decreases |seqs|
  {
    seqs == [] ||
    var s := seqs[0];
    var start := pos + |s.lits|;
    && s.mlen >= MINMATCH && 1 <= s.offset <= DISTANCE_MAX && s.offset <= start
    && start + MFLIMIT <= total && start + s.mlen + LASTLITERALS <= total
    && Fits(seqs[1..], start + s.mlen, total)
  }

  function Width(seqs: seq<Sequence>): nat
    decreases |seqs|
  {
    if seqs == [] then 0 else |seqs[0].lits| + seqs[0].mlen + Width(seqs[1..])
  }

  lemma {:induction false} PlayWidth(out: Bytes, seqs: seq<Sequence>, total: nat)
    requires Fits(seqs, |out|, total)
    ensures Play(out, seqs).Some? && |Play(out, seqs).value| == |out| + Width(seqs)
    decreases |seqs|
  {
    if seqs != [] {
      PlayWidth(Extend(out + seqs[0].lits, seqs[0].offset, seqs[0].mlen), seqs[1..], total);
    }
  }

  /** Adding one more sequence at the end. */
  lemma {:induction false} Append(out: Bytes, seqs: seq<Sequence>, s: Sequence, total: nat)
    requires Fits(seqs, |out|, total) && Fits([s], |out| + Width(seqs), total)
    ensures Fits(seqs + [s], |out|, total) && Width(seqs + [s]) == Width(seqs) + |s.lits| + s.mlen
    ensures Play(out, seqs).Some? && |Play(out, seqs).value| == |out| + Width(seqs)
    ensures Play(out, seqs + [s]) == Some(Extend(Play(out, seqs).value + s.lits, s.offset, s.mlen))
    decreases |seqs|
  {
    PlayWidth(out, seqs, total);
    if seqs == [] {
      assert [] + [s] == [s];
      assert [s][1..] == [];
    } else {
      assert (seqs + [s])[1..] == seqs[1..] + [s];
      Append(Extend(out + seqs[0].lits, seqs[0].offset, seqs[0].mlen), seqs[1..], s, total);
    }
  }

  // ----- writing -----

  /** A length in excess of the 4-bit token field. */
  function LenBytes(n: nat): (r: Bytes)
    ensures |r| == n / 255 + 1
  {
    if n < 255 then [n] else [255] + LenBytes(n - 255)
  }

  function Field(n: nat): (r: Byte)
    ensures r < 16
  {
    if n < 15 then n else 15
  }

  function Excess(n: nat): (r: Bytes)
    ensures n < 15 ==> r == []
  {
    if n < 15 then [] else LenBytes(n - 15)
  }

  /** The bytes after the token of a sequence. */
  function Body(s: Sequence): Bytes
    requires s.mlen >= MINMATCH && s.offset <= DISTANCE_MAX
  {
    Excess(|s.lits|) + s.lits + [s.offset % 256, s.offset / 256] + Excess(s.mlen - MINMATCH)
  }

  function Encode1(s: Sequence): Bytes
    requires s.mlen >= MINMATCH && s.offset <= DISTANCE_MAX
  {
    [16 * Field(|s.lits|) + Field(s.mlen - MINMATCH)] + Body(s)
  }

  function EncodeLast(last: Bytes): Bytes {
    [16 * Field(|last|)] + Excess(|last|) + last
  }

  ghost predicate Writable(seqs: seq<Sequence>) {
    forall i :: 0 <= i < |seqs| ==> seqs[i].mlen >= MINMATCH && seqs[i].offset <= DISTANCE_MAX
  }

  /** A block: sequences, then the last literals. */
  function Encode(seqs: seq<Sequence>): Bytes
    requires Writable(seqs)
    decreases |seqs|
  {
    if seqs == [] then [] else Encode1(seqs[0]) + Encode(seqs[1..])
  }

  lemma {:induction false} FitsWritable(seqs: seq<Sequence>, pos: nat, total: nat)
    requires Fits(seqs, pos, total) && pos <= total
    ensures Writable(seqs) && pos + Width(seqs) <= total
    decreases |seqs|
  {
    if seqs != [] {
      FitsWritable(seqs[1..], pos + |seqs[0].lits| + seqs[0].mlen, total);
      assert forall i :: 1 <= i < |seqs| ==> seqs[i] == seqs[1..][i - 1];
    }
  }

  lemma {:induction false} EncodeAppend(seqs: seq<Sequence>, s: Sequence)
    requires Writable(seqs) && s.mlen >= MINMATCH && s.offset <= DISTANCE_MAX
    ensures Writable(seqs + [s]) && Encode(seqs + [s]) == Encode(seqs) + Encode1(s)
    decreases |seqs|
  {
    if seqs == [] {
      assert seqs + [s] == [s];
      assert [s][1..] == [];
      assert Encode([s]) == Encode1(s) + [];
    } else {
      assert (seqs + [s])[1..] == seqs[1..] + [s];
      EncodeAppend(seqs[1..], s);
      assert Encode(seqs + [s]) == Encode1(seqs[0]) + (Encode(seqs[1..]) + Encode1(s));
    }
  }

  // ----- size -----

  /** 255 times the excess bytes of a length stay within the length plus 240. */
  lemma ExcessBound(n: nat)
    ensures 255 * |Excess(n)| <= if n < 15 then 0 else n + 240
  {
  }

  lemma Encode1Bound(s: Sequence)
    requires s.mlen >= MINMATCH && s.offset <= DISTANCE_MAX
    ensures 255 * |Encode1(s)| <= 256 * (|s.lits| + s.mlen)
  {
    ExcessBound(|s.lits|);
    ExcessBound(s.mlen - MINMATCH);
  }

  lemma {:induction false} EncodeBound(seqs: seq<Sequence>)
    requires Writable(seqs)
    ensures 255 * |Encode(seqs)| <= 256 * Width(seqs)
    decreases |seqs|
  {
    if seqs != [] {
      Encode1Bound(seqs[0]);
      EncodeBound(seqs[1..]);
    }
  }

  /** LZ4_COMPRESSBOUND holds for every block that can be written, with 14 bytes to spare. */
  lemma SizeBound(seqs: seq<Sequence>, last: Bytes)
    requires Writable(seqs)
    ensures var n := Width(seqs) + |last|;
            |Encode(seqs) + EncodeLast(last)| <= n + n / 255 + 2
  {
    EncodeBound(seqs);
    ExcessBound(|last|);
    var n, size := Width(seqs) + |last|, |Encode(seqs) + EncodeLast(last)|;
    assert 255 * size <= 256 * n + 495;
  }
}
