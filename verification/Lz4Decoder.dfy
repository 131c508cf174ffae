/**
 LZ4_decompress_safe with its fast loop, its shortcut and its wide copies, decoding into the
 array `dst` in place.  It is proved to accept exactly the blocks of the byte-wise decoder of
 Lz4Spec and to produce the same bytes, without ever reading or writing out of bounds.
 */
module Lz4Decoder {
  import opened Common
  import opened Lz4Format
  import opened Lz4Spec
  import opened Lz4Copy

  /** A label of the decoder: where decoding goes on. */
  datatype Point =
    | Token
    | Literals(token: Byte, ll: nat)
    | Match(offset: nat, mlen: nat)
    | Done
    | Fail

  /** What remains to be decoded at a label. */
  ghost function Pending(src: Bytes, p: Point, ip: nat, out: Bytes, cap: nat): Option<Bytes>
    requires ip <= |src|
  {
    match p
    case Token => AtToken(src, ip, out, cap)
    case Literals(token, ll) => AtLiterals(src, token, ll, ip, false, out, cap)
    case Match(offset, mlen) => AtCopy(src, false, offset, mlen, ip, out, cap)
    case Done => Some(out)
    case Fail => None
  }

  function Longer(r: Length, n: nat): Length {
    if r.BadLength? then r else Length(r.n + n, r.ip)
  }

  /** read_variable_length */
  method ReadVar(src: Bytes, ip0: nat, limit: int, check: bool) returns (r: Length)
    requires limit <= |src| && (check || ip0 < |src|)
    ensures r == ReadLen(src, ip0, limit)
  {
    if check && ip0 >= limit {
      return BadLength;
    }
    var s, ip, length: nat := src[ip0], ip0 + 1, src[ip0];
    if ip > limit {
      return BadLength;
    }
    while s == 255
      invariant ip0 < ip <= limit
      invariant ReadLen(src, ip0, limit) ==
                if s == 255 then Longer(ReadLen(src, ip, limit), length) else Length(length, ip)
      decreases s == 255, limit - ip
    {
      if ip == limit {
        return BadLength;
      }
      s, length, ip := src[ip], length + src[ip], ip + 1;
    }
    return Length(length, ip);
  }

  // ----- the fast loop -----

  datatype LitResult = LitFail | LitSafe(ll: nat, ip: nat) | LitCopied(ip: nat, op: nat)

  /** The literals of a sequence in the fast loop: copied in strides, or left to the safe loop. */
  method FastLiterals(src: Bytes, dst: array<Byte>, ip0: nat, op: nat) returns (r: LitResult)
    requires ip0 < |src| && op + 64 <= dst.Length
    modifies dst
    ensures r.LitFail? ==> AtToken(src, ip0, old(dst[..op]), dst.Length) == None
    ensures r.LitSafe? ==>
              && ip0 < r.ip <= |src| && dst[..op] == old(dst[..op])
              && AtToken(src, ip0, old(dst[..op]), dst.Length)
                 == AtLiterals(src, src[ip0], r.ll, r.ip, false, dst[..op], dst.Length)
    ensures r.LitCopied? ==>
              && ip0 < r.ip && r.ip + 3 <= |src| && op <= r.op && r.op + 32 <= dst.Length
              && AtToken(src, ip0, old(dst[..op]), dst.Length)
                 == AtMatch(src, src[ip0], src[ip0] / 16 != 15, Offset(src, r.ip), r.ip + 2, dst[..r.op], dst.Length)
              && (src[ip0] / 16 != 15 ==> r.op + 50 <= dst.Length)
  {
    hide AtMatch, Offset;
    var ip := ip0 + 1;
    var ll: nat := src[ip0] / 16;
    if ll == 15 {
      var addl := ReadVar(src, ip, |src| - 15, true);
      if addl.BadLength? {
        return LitFail;
      }
      ll, ip := ll + addl.n, addl.ip;
      if op + ll + 32 > dst.Length || ip + ll + 32 > |src| {
        return LitSafe(ll, ip);
      }
      WildCopyIn(dst, op, src, ip, op + ll, 32);
    } else if ip + 17 <= |src| {
      CopyIn(dst, op, src, ip, 16);
    } else {
      return LitSafe(ll, ip);
    }
    assert dst[..op + ll] == old(dst[..op]) + src[ip..ip + ll];
    return LitCopied(ip + ll, op + ll);
  }

  /** The match of a sequence in the fast loop. */
  method FastMatch(src: Bytes, dst: array<Byte>, token: Byte, roomy: bool, offset: nat, ip: nat, op: nat)
    returns (p: Point, ip': nat, op': nat)
    requires ip < |src| && op + 32 <= dst.Length && (roomy ==> op + 50 <= dst.Length)
    modifies dst
    ensures ip <= ip' < |src| && op <= op' <= dst.Length
    ensures Pending(src, p, ip', dst[..op'], dst.Length) ==
              AtMatch(src, token, roomy, offset, ip, old(dst[..op]), dst.Length)
    ensures p.Token? ==> op' + 64 <= dst.Length
    ensures p.Match? ==> op' + 8 <= dst.Length && p.mlen >= MINMATCH
    ensures !p.Literals? && !p.Done?
  {
    hide AtToken, AtLiterals, ReadLen, Extend;
    ghost var out := dst[..op];
    var mlen: nat := token % 16;
    ip' := ip;
    if mlen == 15 {
      var addl := ReadVar(src, ip, |src| - LASTLITERALS + 1, false);
      if addl.BadLength? {
        return Fail, ip, op;
      }
      mlen, ip' := mlen + addl.n + MINMATCH, addl.ip;
      if op + mlen + 64 >= dst.Length {
        return Match(offset, mlen), ip', op;
      }
    } else {
      mlen := mlen + MINMATCH;
      if op + mlen + 64 >= dst.Length {
        return Match(offset, mlen), ip', op;
      }
      if offset <= op && offset >= 8 {
        CopyMatch18(dst, op, offset, op + mlen);
        Extended(dst[..], out, op, op + mlen, offset);
        return Token, ip', op + mlen;
      }
    }
    if offset > op {
      return Fail, ip', op;
    }
    CopyMatchFast(dst, op, offset, op + mlen);
    Extended(dst[..], out, op, op + mlen, offset);
    return Token, ip', op + mlen;
  }

  /** A copied match is the extension of what was there. */
  lemma Extended(s: Bytes, out: Bytes, op: nat, cpy: nat, offset: nat)
    requires op <= cpy <= |s| && |out| == op && offset <= op && Echo(s, op, cpy, offset)
    requires forall k :: 0 <= k < op ==> s[k] == out[k]
    ensures s[..cpy] == Extend(out, offset, cpy - op)
  {
    assert s[..op] == out;
    EchoExtends(s, op, cpy, offset);
  }

  /** One sequence of the fast loop. */
  method FastSequence(src: Bytes, dst: array<Byte>, ip: nat, op: nat) returns (p: Point, ip': nat, op': nat)
    requires ip < |src| && op + 64 <= dst.Length
    modifies dst
    ensures ip < ip' <= |src| && op <= op' <= dst.Length
    ensures Pending(src, p, ip', dst[..op'], dst.Length) == AtToken(src, ip, old(dst[..op]), dst.Length)
    ensures p.Token? ==> ip' < |src| && op' + 64 <= dst.Length
    ensures p.Match? ==> ip' < |src| && op' + 8 <= dst.Length && p.mlen >= MINMATCH
    ensures !p.Done?
  {
    hide AtToken, AtLiterals, AtMatch, AtCopy;
    var r := FastLiterals(src, dst, ip, op);
    match r
    case LitFail => return Fail, ip + 1, op;
    case LitSafe(ll, ip1) => return Literals(src[ip], ll), ip1, op;
    case LitCopied(ip1, op1) =>
      p, ip', op' := FastMatch(src, dst, src[ip], src[ip] / 16 != 15, Offset(src, ip1), ip1 + 2, op1);
  }

  // ----- the safe loop -----

  /** From the label safe_match_copy. */
  method SafeCopy(src: Bytes, dst: array<Byte>, offset: nat, mlen: nat, ip: nat, op: nat) returns (p: Point, op': nat)
    requires ip < |src| && op + 8 <= dst.Length && mlen >= MINMATCH
    modifies dst
    ensures op <= op' <= dst.Length && (p.Token? || p.Fail?)
    ensures Pending(src, p, ip, dst[..op'], dst.Length) ==
              AtCopy(src, false, offset, mlen, ip, old(dst[..op]), dst.Length)
  {
    hide AtToken, Extend;
    if offset > op {
      return Fail, op;
    }
    if op + mlen + LASTLITERALS > dst.Length {
      return Fail, op;
    }
    ghost var out := dst[..op];
    CopyMatchSafe(dst, op, offset, op + mlen);
    Extended(dst[..], out, op, op + mlen, offset);
    return Token, op + mlen;
  }

  /** From the label _copy_match: the match length is still to be completed. */
  method SafeMatch(src: Bytes, dst: array<Byte>, token: Byte, roomy: bool, offset: nat, ip: nat, op: nat)
    returns (p: Point, ip': nat, op': nat)
    requires ip < |src| && op + 8 <= dst.Length
    requires token % 16 == 15 || !roomy || offset < 8 || offset > op
    modifies dst
    ensures ip <= ip' < |src| && op <= op' <= dst.Length && (p.Token? || p.Fail?)
    ensures Pending(src, p, ip', dst[..op'], dst.Length) ==
              AtMatch(src, token, roomy, offset, ip, old(dst[..op]), dst.Length)
  {
    hide AtToken, AtLiterals, ReadLen, Extend;
    var mlen: nat := token % 16;
    ip' := ip;
    if mlen == 15 {
      var addl := ReadVar(src, ip, |src| - LASTLITERALS + 1, false);
      if addl.BadLength? {
        return Fail, ip, op;
      }
      mlen, ip' := mlen + addl.n, addl.ip;
    }
    p, op' := SafeCopy(src, dst, offset, mlen + MINMATCH, ip', op);
  }

  /** From the label safe_literal_copy. */
  method SafeLiterals(src: Bytes, dst: array<Byte>, token: Byte, ll: nat, ip: nat, op: nat)
    returns (p: Point, ip': nat, op': nat)
    requires ip <= |src| && op <= dst.Length
    modifies dst
    ensures ip <= ip' <= |src| && op <= op' <= dst.Length && !p.Match? && !p.Literals?
    ensures p.Token? ==> ip' < |src| && ip < ip'
    ensures Pending(src, p, ip', dst[..op'], dst.Length) ==
              AtLiterals(src, token, ll, ip, false, old(dst[..op]), dst.Length)
  {
    hide AtToken, AtMatch, Offset;
    if op + ll + MFLIMIT > dst.Length || ip + ll + 3 + LASTLITERALS > |src| {
      if ip + ll != |src| || op + ll > dst.Length {
        return Fail, ip, op;
      }
      CopyIn(dst, op, src, ip, ll);
      assert dst[..op + ll] == old(dst[..op]) + src[ip..ip + ll];
      return Done, ip + ll, op + ll;
    }
    WildCopyIn(dst, op, src, ip, op + ll, 8);
    assert dst[..op + ll] == old(dst[..op]) + src[ip..ip + ll];
    p, ip', op' := SafeMatch(src, dst, token, false, Offset(src, ip + ll), ip + ll + 2, op + ll);
  }

  /** From a token, with the shortcut for short literals and a short distant match. */
  method SafeToken(src: Bytes, dst: array<Byte>, ip: nat, op: nat) returns (p: Point, ip': nat, op': nat)
    requires ip < |src| && op <= dst.Length
    modifies dst
    ensures ip < ip' <= |src| && op <= op' <= dst.Length && !p.Match? && !p.Literals?
    ensures p.Token? ==> ip' < |src|
    ensures Pending(src, p, ip', dst[..op'], dst.Length) == AtToken(src, ip, old(dst[..op]), dst.Length)
  {
    hide AtMatch, ReadLen, Offset;
    var token, ip1 := src[ip], ip + 1;
    var ll: nat := token / 16;
    if ll != 15 && ip1 + 17 <= |src| && op + 32 <= dst.Length {
      CopyIn(dst, op, src, ip1, 16);
      assert dst[..op + ll] == old(dst[..op]) + src[ip1..ip1 + ll];
      p, ip', op' := Shortcut(src, dst, token, Offset(src, ip1 + ll), ip1 + ll + 2, op + ll);
      return;
    }
    if ll == 15 {
      var addl := ReadVar(src, ip1, |src| - 15, true);
      if addl.BadLength? {
        return Fail, ip1, op;
      }
      ll, ip1 := ll + addl.n, addl.ip;
    }
    p, ip', op' := SafeLiterals(src, dst, token, ll, ip1, op);
  }

  /** The second stage of the shortcut. */
  method Shortcut(src: Bytes, dst: array<Byte>, token: Byte, offset: nat, ip: nat, op: nat)
    returns (p: Point, ip': nat, op': nat)
    requires ip < |src| && op + 18 <= dst.Length
    modifies dst
    ensures ip <= ip' < |src| && op <= op' <= dst.Length && (p.Token? || p.Fail?)
    ensures Pending(src, p, ip', dst[..op'], dst.Length) ==
              AtMatch(src, token, true, offset, ip, old(dst[..op]), dst.Length)
  {
    hide AtToken, AtLiterals, ReadLen, Extend;
    if token % 16 != 15 && offset >= 8 && offset <= op {
      ghost var out := dst[..op];
      var mlen: nat := token % 16 + MINMATCH;
      CopyMatch18(dst, op, offset, op + mlen);
      Extended(dst[..], out, op, op + mlen, offset);
      return Token, ip, op + mlen;
    }
    p, ip', op' := SafeMatch(src, dst, token, true, offset, ip, op);
  }

  /** LZ4_decompress_safe: the number of bytes decoded, or a negative number. */
  method DecompressSafe(src: Bytes, dst: array<Byte>) returns (n: int)
    modifies dst
    ensures n >= 0 <==> Decode(src, dst.Length).Some?
    ensures n >= 0 ==> n <= dst.Length && Decode(src, dst.Length) == Some(dst[..n])
  {
    hide AtToken, AtLiterals, AtMatch, AtCopy;
    var cap := dst.Length;
    if cap == 0 {
      assert dst[..0] == [];
      return if src == [0] then 0 else -1;
    }
    if src == [] {
      NoInput(cap);
      return -1;
    }
    var p, ip, op := Token, 0, 0;
    assert dst[..0] == [];
    if cap >= 64 {
      while p.Token?
        invariant ip <= |src| && op <= cap && !p.Done?
        invariant p.Token? ==> ip < |src| && op + 64 <= cap
        invariant p.Match? ==> ip < |src| && op + 8 <= cap && p.mlen >= MINMATCH
        invariant Pending(src, p, ip, dst[..op], cap) == AtToken(src, 0, [], cap)
        decreases |src| - ip, p.Token?
      {
        p, ip, op := FastSequence(src, dst, ip, op);
      }
      if p.Literals? {
        p, ip, op := SafeLiterals(src, dst, p.token, p.ll, ip, op);
      } else if p.Match? {
        p, op := SafeCopy(src, dst, p.offset, p.mlen, ip, op);
      }
    }
    while p.Token?
      invariant ip <= |src| && op <= cap && !p.Literals? && !p.Match?
      invariant p.Token? ==> ip < |src|
      invariant Pending(src, p, ip, dst[..op], cap) == AtToken(src, 0, [], cap)
      decreases |src| - ip, p.Token?
    {
      p, ip, op := SafeToken(src, dst, ip, op);
    }
    return if p.Done? then op else -(ip as int) - 1;
  }

  lemma NoInput(cap: nat)
    ensures AtToken([], 0, [], cap) == None
  {
  }
}
