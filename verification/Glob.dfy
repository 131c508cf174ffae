/**
 The pattern matcher behind the KEYS command (src/cmds.c).
 */
module Glob {
  import opened Common

  const STAR: Byte := 42
  const QUESTION: Byte := 63
  const BACKSLASH: Byte := 92

  // ----- what a pattern means -----

  datatype Token = Any | One | Lit(b: Byte)

  /** A pattern as tokens; a pattern that ends in a lone backslash has no meaning.  A backslash
      makes a star literal, but a question mark stays a wild card after it. */
  function Tokens(pat: Bytes): Option<seq<Token>>
    decreases |pat|
  {
    if pat == [] then Some([])
    else if pat[0] == BACKSLASH then
      if |pat| == 1 then None else Prefix(Plain(pat[1]), Tokens(pat[2..]))
    else if pat[0] == STAR then Prefix(Any, Tokens(pat[1..]))
    else Prefix(Plain(pat[0]), Tokens(pat[1..]))
  }

  function Plain(b: Byte): Token {
    if b == QUESTION then One else Lit(b)
  }

  function Prefix(t: Token, ts: Option<seq<Token>>): Option<seq<Token>> {
    if ts.None? then None else Some([t] + ts.value)
  }

  ghost predicate Means(ts: seq<Token>, s: Bytes)
    decreases |ts|
  {
    if ts == [] then s == []
    else match ts[0]
      case Any => exists k :: 0 <= k <= |s| && Means(ts[1..], s[k..])
      case One => s != [] && Means(ts[1..], s[1..])
      case Lit(b) => s != [] && s[0] == b && Means(ts[1..], s[1..])
  }

  /** Runs of stars that are followed by something else. */
  function Runs(ts: seq<Token>): nat
    decreases |ts|
  {
    if |ts| <= 1 then 0
    else (if ts[0] == Any && ts[1] != Any then 1 else 0) + Runs(ts[1..])
  }

  /** What the matcher accepts when entered at a given depth. */
  ghost predicate Accepts(pat: Bytes, s: Bytes, depth: nat) {
    Tokens(pat).Some? && Means(Tokens(pat).value, s) && depth + Runs(Tokens(pat).value) <= 127
  }

  // ----- steps of the matcher -----

  lemma TrailingStar(s: Bytes, depth: nat)
    requires depth <= 127
    ensures Accepts([STAR], s, depth)
  {
    assert [STAR][1..] == [];
    assert Tokens([STAR]) == Some([Any] + []);
    assert s[|s|..] == [];
    assert ([Any] + [])[1..] == [];
    assert Means([], s[|s|..]);
  }

  /** The rest of a pattern after a token. */
  lemma TokensTail(pat: Bytes)
    requires pat != [] && (pat[0] == BACKSLASH ==> |pat| > 1)
    ensures var rest := if pat[0] == BACKSLASH then pat[2..] else pat[1..];
            Tokens(pat).Some? <==> Tokens(rest).Some?
    ensures var rest := if pat[0] == BACKSLASH then pat[2..] else pat[1..];
            Tokens(pat).Some? ==> Tokens(pat).value != [] && Tokens(pat).value[1..] == Tokens(rest).value
    ensures pat[0] == BACKSLASH && Tokens(pat).Some? ==> Tokens(pat).value[0] == Plain(pat[1])
    ensures pat[0] != BACKSLASH && Tokens(pat).Some? ==>
              Tokens(pat).value[0] == if pat[0] == STAR then Any else Plain(pat[0])
  {
  }

  lemma FirstToken(pat: Bytes)
    requires pat != [] && Tokens(pat).Some?
    ensures Tokens(pat).value != [] && (Tokens(pat).value[0] == Any <==> pat[0] == STAR)
  {
  }

  /** Two stars in a row mean one. */
  lemma DoubleStar(pat: Bytes, s: Bytes, depth: nat)
    requires |pat| > 1 && pat[0] == STAR && pat[1] == STAR
    ensures Accepts(pat, s, depth) <==> Accepts(pat[1..], s, depth)
  {
    TokensTail(pat);
    if Tokens(pat).Some? {
      FirstToken(pat[1..]);
      var ts := Tokens(pat).value;
      var us := ts[1..];
      if Means(ts, s) {
        var k :| 0 <= k <= |s| && Means(us, s[k..]);
        var j :| 0 <= j <= |s[k..]| && Means(us[1..], s[k..][j..]);
        assert s[k..][j..] == s[k + j..];
        assert Means(us, s);
      }
      if Means(us, s) {
        assert s[0..] == s;
        assert Means(ts, s);
      }
    }
  }

  /** A star either stops here, and the rest of the pattern matches at one depth more, or it
      swallows a byte. */
  lemma StarStep(pat: Bytes, s: Bytes, depth: nat)
    requires |pat| > 1 && pat[0] == STAR && pat[1] != STAR
    ensures Accepts(pat[1..], s, depth + 1) ==> Accepts(pat, s, depth)
    ensures !Accepts(pat[1..], s, depth + 1) ==>
              (Accepts(pat, s, depth) <==> s != [] && Accepts(pat, s[1..], depth))
  {
    TokensTail(pat);
    if Tokens(pat).Some? {
      FirstToken(pat[1..]);
      var ts := Tokens(pat).value;
      var us := ts[1..];
      assert Runs(ts) == 1 + Runs(us);
      assert s[0..] == s;
      if Means(us, s) {
        assert Means(ts, s);
      } else {
        if Means(ts, s) {
          var k :| 0 <= k <= |s| && Means(us, s[k..]);
          assert k > 0 && s[k..] == s[1..][k - 1..];
          assert Means(ts, s[1..]);
        }
        if s != [] && Means(ts, s[1..]) {
          var k :| 0 <= k <= |s[1..]| && Means(us, s[1..][k..]);
          assert s[1..][k..] == s[k + 1..];
          assert Means(ts, s);
        }
      }
    }
  }

  /** A plain or escaped byte of the pattern consumes one byte. */
  lemma PlainStep(pat: Bytes, s: Bytes, depth: nat)
    requires pat != [] && pat[0] != STAR && (pat[0] == BACKSLASH ==> |pat| > 1)
    ensures var b := if pat[0] == BACKSLASH then pat[1] else pat[0];
            var rest := if pat[0] == BACKSLASH then pat[2..] else pat[1..];
            Accepts(pat, s, depth) <==>
            s != [] && (b == QUESTION || s[0] == b) && Accepts(rest, s[1..], depth)
  {
    TokensTail(pat);
    if Tokens(pat).Some? {
      FirstToken(pat);
    }
  }

  /** match: a loop over the pattern with one recursive call per run of stars, at most 128 deep.
      It accepts exactly the strings the pattern means, provided the depth suffices. */
  method Match(pat0: Bytes, s0: Bytes, depth: nat) returns (r: bool)
    requires depth <= 128
    ensures r <==> Accepts(pat0, s0, depth)
    decreases |pat0|
  {
    hide Accepts;
    if depth == 128 {
      TooDeep(pat0, s0);
      return false;
    }
    var pat, s := pat0, s0;
    while pat != []
      invariant |pat| <= |pat0| && (Accepts(pat, s, depth) <==> Accepts(pat0, s0, depth))
      decreases |pat|, |s|
    {
      var rest, b := pat[1..], pat[0];
      if pat[0] == BACKSLASH {
        if |pat| == 1 {
          LoneBackslash(pat, s, depth);
          return false;
        }
        rest, b := pat[2..], pat[1];
      } else if pat[0] == STAR {
        if |pat| == 1 {
          assert pat == [STAR];
          TrailingStar(s, depth);
          return true;
        }
        if pat[1] == STAR {
          DoubleStar(pat, s, depth);
          pat := pat[1..];
          continue;
        }
        StarStep(pat, s, depth);
        var found := Match(pat[1..], s, depth + 1);
        if found {
          return true;
        }
        if s == [] {
          return false;
        }
        s := s[1..];
        continue;
      }
      PlainStep(pat, s, depth);
      if s == [] {
        return false;
      }
      if b != QUESTION && s[0] != b {
        return false;
      }
      pat, s := rest, s[1..];
    }
    EmptyPattern(s, depth);
    return s == [];
  }

  lemma TooDeep(pat: Bytes, s: Bytes)
    ensures !Accepts(pat, s, 128)
  {
  }

  lemma LoneBackslash(pat: Bytes, s: Bytes, depth: nat)
    requires |pat| == 1 && pat[0] == BACKSLASH
    ensures !Accepts(pat, s, depth)
  {
  }

  lemma EmptyPattern(s: Bytes, depth: nat)
    requires depth <= 127
    ensures Accepts([], s, depth) <==> s == []
  {
  }

  /** The KEYS command enters the matcher at depth zero: it is exact for every pattern with at most
      127 star runs before its last token, and with more it accepts nothing. */
  method MatchKey(pat: Bytes, key: Bytes) returns (r: bool)
    ensures Tokens(pat).None? ==> !r
    ensures Tokens(pat).Some? && Runs(Tokens(pat).value) <= 127 ==> (r <==> Means(Tokens(pat).value, key))
    ensures Tokens(pat).Some? && Runs(Tokens(pat).value) > 127 ==> !r
  {
    if |pat| == 1 && pat[0] == STAR {
      assert pat == [STAR];
      TrailingStar(key, 0);
      return true;
    }
    r := Match(pat, key, 0);
  }

  // ----- patterns that are too deep -----

  /** n times "*a" */
  function Stars(n: nat): seq<Token> {
    if n == 0 then [] else [Any, Lit(97)] + Stars(n - 1)
  }

  function StarPattern(n: nat): Bytes {
    if n == 0 then [] else [STAR, 97] + StarPattern(n - 1)
  }

  function Letters(n: nat): Bytes {
    if n == 0 then [] else [97] + Letters(n - 1)
  }

  lemma {:induction false} StarTokens(n: nat)
    ensures Tokens(StarPattern(n)) == Some(Stars(n))
  {
    if n > 0 {
      StarTokens(n - 1);
      var pat := StarPattern(n);
      assert pat[1..][1..] == StarPattern(n - 1) && pat[1] == 97;
      assert Tokens(pat[1..]) == Some([Lit(97)] + Stars(n - 1));
      assert Stars(n) == [Any] + ([Lit(97)] + Stars(n - 1));
    }
  }

  lemma {:induction false} StarRuns(n: nat)
    ensures Runs(Stars(n)) == n
  {
    if n > 0 {
      StarRuns(n - 1);
      var ts := Stars(n);
      assert ts[1..] == [Lit(97)] + Stars(n - 1) && ts[1..][1..] == Stars(n - 1);
    }
  }

  lemma {:induction false} StarMeans(n: nat)
    ensures Means(Stars(n), Letters(n))
  {
    if n > 0 {
      StarMeans(n - 1);
      var ts, s := Stars(n), Letters(n);
      assert ts[1..] == [Lit(97)] + Stars(n - 1) && ts[1..][1..] == Stars(n - 1);
      assert s[0..] == s && s[1..] == Letters(n - 1);
      assert Means(ts[1..], s[0..]);
    }
  }

  /** The pattern of n star runs means the string of n letters, but it is rejected as soon as there
      are more than 127 runs. */
  lemma DeepPattern(n: nat)
    ensures Tokens(StarPattern(n)) == Some(Stars(n)) && Means(Stars(n), Letters(n))
    ensures Accepts(StarPattern(n), Letters(n), 0) <==> n <= 127
  {
    hide Tokens, Means, Runs;
    StarTokens(n);
    StarRuns(n);
    StarMeans(n);
  }
}
