/**
 The packet buffering loop of src/conn.c for a connection that speaks RESP: bytes arrive in
 arbitrary pieces, complete commands run, the rest waits in the packet buffer.
 */
module Conn {
  import opened Common
  import opened Resp

  /** What running a command does to its connection. */
  datatype Effect = Stay | Background | Close

  /** The command table: the effect of the n-th command of the connection. */
  type Commands = (nat, seq<Bytes>) -> Effect

  /** parse_resp_telnet, for input that does not start with '*'. */
  type Telnet = Bytes -> Parsed

  datatype State = State(packet: Bytes, ran: seq<seq<Bytes>>, closed: bool, bg: bool)

  /** parse_command once the protocol is RESP. */
  function ParseCommand(s: Bytes, telnet: Telnet): (r: Parsed)
    requires s != []
    ensures r.Command? ==> 0 < r.n <= |s|
  {
    if s[0] == STAR then Parse(s)
    else
      var r := telnet(s);
      if r.Command? && !(0 < r.n <= |s|) then Bad else r
  }

  /** The loop of evdata over the bytes at hand. */
  function Drain(s: Bytes, ran: seq<seq<Bytes>>, run: Commands, telnet: Telnet): (r: State)
    ensures |r.packet| <= |s| && (r.bg ==> !r.closed && |r.packet| < |s|)
    decreases |s|
  {
    if s == [] then State([], ran, false, false)
    else match ParseCommand(s, telnet)
      case More => State(s, ran, false, false)
      case Bad => State(s, ran, true, false)
      case Command(args, n) =>
        if args == [] then Drain(s[n..], ran, run, telnet)
        else match run(|ran|, args)
          case Stay => Drain(s[n..], ran + [args], run, telnet)
          case Background => State(s[n..], ran + [args], false, true)
          case Close => State(s[n..], ran + [args], true, false)
  }

  /** evdata on an open connection that is not in background mode. */
  function Receive(c: State, data: Bytes, run: Commands, telnet: Telnet): State {
    if c.closed then c else Drain(c.packet + data, c.ran, run, telnet)
  }

  class Connection {
    var packet: Bytes
    var ran: seq<seq<Bytes>>
    var closed: bool
    var bg: bool

    constructor ()
      ensures packet == [] && ran == [] && !closed && !bg
    {
      packet, ran, closed, bg := [], [], false, false;
    }

    ghost function Abs(): State
      reads this
    {
      State(packet, ran, closed, bg)
    }

    /** evdata.  A background command stops the loop; the rest of the bytes is kept. */
    method EvData(data: Bytes, run: Commands, telnet: Telnet)
      requires !bg
      modifies this
      ensures Abs() == Receive(old(Abs()), data, run, telnet)
    {
      if closed {
        return;
      }
      var copied := packet != [];
      var rest := if copied then packet + data else data;
      assert rest == packet + data;
      while rest != [] && !closed
        invariant !bg && packet == old(packet)
        invariant closed ==> State(rest, ran, true, false) == Receive(old(Abs()), data, run, telnet)
        invariant !closed ==> Drain(rest, ran, run, telnet) == Receive(old(Abs()), data, run, telnet)
        decreases !closed, |rest|
      {
        var r := ParseCommand(rest, telnet);
        if r == More {
          break;
        }
        if r == Bad {
          closed := true;
          break;
        }
        var n := |ran|;
        if r.args != [] {
          ran := ran + [r.args];
          var effect := run(n, r.args);
          bg, closed := effect == Background, effect == Close;
        }
        rest := rest[r.n..];
        if bg {
          break;
        }
      }
      packet := rest;
    }
  }

  // ----- independence of packet boundaries -----

  /** The bytes of one command whose number fields are all firm.  Commands as clients write them are
      of this kind (Resp.CanonicalFirm). */
  ghost predicate Word(w: Bytes) {
    Parse(w).Command? && Parse(w).n == |w| && Firm(w)
  }

  function Args(w: Bytes): seq<Bytes> {
    if Parse(w).Command? then Parse(w).args else []
  }

  /** A stream of commands as bytes. */
  function Stream(words: seq<Bytes>): Bytes {
    if words == [] then [] else words[0] + Stream(words[1..])
  }

  ghost predicate AllWords(words: seq<Bytes>) {
    forall i :: 0 <= i < |words| ==> Word(words[i])
  }

  /** What becomes of a stream of commands: those that reach the command table, empty arrays being
      skipped, up to and including the first that closes the connection, and whether there is one. */
  function RunTo(words: seq<Bytes>, ran: seq<seq<Bytes>>, run: Commands): (seq<seq<Bytes>>, bool) {
    if words == [] then (ran, false)
    else
      var args := Args(words[0]);
      if args == [] then RunTo(words[1..], ran, run)
      else if run(|ran|, args) == Close then (ran + [args], true)
      else RunTo(words[1..], ran + [args], run)
  }

  /** The first bytes of a stream. */
  ghost predicate Begins(s: Bytes, words: seq<Bytes>) {
    |s| <= |Stream(words)| && s == Stream(words)[..|s|]
  }

  /** The parser finds the first command of a stream, or asks for more. */
  lemma HeadParses(s: Bytes, words: seq<Bytes>, telnet: Telnet)
    requires s != [] && AllWords(words) && Begins(s, words)
    ensures words != []
    ensures var w := words[0];
            && ParseCommand(s, telnet) == (if |s| >= |w| then Command(Args(w), |w|) else More)
            && (|s| >= |w| ==> s == w + s[|w|..] && Begins(s[|w|..], words[1..]))
  {
    hide Parse, Firm;
    var w := words[0];
    WordStarts(w);
    assert s[0] == w[0];
    StableIffFirm(w);
    if |s| >= |w| {
      assert s[|w|..] == Stream(words[1..])[..|s| - |w|];
      assert s == w + s[|w|..];
    } else {
      assert s == w[..|s|];
    }
  }

  lemma WordStarts(w: Bytes)
    requires Word(w)
    ensures |w| > 0 && w[0] == STAR
  {
  }

  /** Counting the first command in. */
  lemma OneMore(words: seq<Bytes>, j: nat)
    requires words != [] && j < |words|
    ensures Stream(words[..j + 1]) == words[0] + Stream(words[1..][..j])
    ensures words[..j + 1] != [] && words[..j + 1][0] == words[0] && words[..j + 1][1..] == words[1..][..j]
  {
    assert words[..j + 1][1..] == words[1..][..j];
  }

  lemma RunOne(words: seq<Bytes>, j: nat, ran: seq<seq<Bytes>>, run: Commands)
    requires words != [] && j < |words|
    ensures var args, rest := Args(words[0]), words[1..][..j];
            RunTo(words[..j + 1], ran, run) ==
              if args == [] then RunTo(rest, ran, run)
              else if run(|ran|, args) == Close then (ran + [args], true)
              else RunTo(rest, ran + [args], run)
  {
    hide Stream, Args;
    OneMore(words, j);
  }

  lemma RunNone(ran: seq<seq<Bytes>>, run: Commands)
    ensures RunTo([], ran, run) == (ran, false)
  {
  }

  lemma NoneYet(words: seq<Bytes>)
    ensures Stream(words[..0]) == [] && words[..0] == []
    ensures words == [] ==> Stream(words) == []
  {
  }

  /** The first pass of the loop. */
  lemma DrainFirst(s: Bytes, ran: seq<seq<Bytes>>, run: Commands, telnet: Telnet)
    ensures s == [] ==> Drain(s, ran, run, telnet) == State([], ran, false, false)
    ensures s != [] && ParseCommand(s, telnet) == More ==> Drain(s, ran, run, telnet) == State(s, ran, false, false)
    ensures s != [] && ParseCommand(s, telnet).Command? ==>
              var args, rest := ParseCommand(s, telnet).args, s[ParseCommand(s, telnet).n..];
              Drain(s, ran, run, telnet) ==
                if args == [] then Drain(rest, ran, run, telnet)
                else if run(|ran|, args) == Stay then Drain(rest, ran + [args], run, telnet)
                else State(rest, ran + [args], run(|ran|, args) == Close, run(|ran|, args) == Background)
  {
    hide ParseCommand;
  }

  /** Given the first bytes of a stream, the loop runs commands of the stream in order and keeps
      the exact bytes of the others.  It stops at the command that closes the connection; unless it
      was stopped, what it keeps is less than one command. */
  lemma {:induction false} DrainStream(s: Bytes, words: seq<Bytes>, ran: seq<seq<Bytes>>, run: Commands,
                                       telnet: Telnet)
    returns (k: nat)
    requires AllWords(words) && Begins(s, words)
    ensures var c := Drain(s, ran, run, telnet);
            && k <= |words| && (c.ran, c.closed) == RunTo(words[..k], ran, run)
            && Stream(words[..k]) + c.packet == s
            && (!c.closed && !c.bg ==> k == |words| || |c.packet| < |words[k]|)
    decreases |words|
  {
    hide ParseCommand, Stream, Begins, Word, Args, RunTo, Drain;
    k := 0;
    NoneYet(words);
    RunNone(ran, run);
    DrainFirst(s, ran, run, telnet);
    if s == [] {
      if words != [] {
        WordStarts(words[0]);
      }
    } else {
      HeadParses(s, words, telnet);
      var w, rest := words[0], words[1..];
      WordStarts(w);
      if |s| >= |w| {
        OneMore(words, 0);
        RunOne(words, 0, ran, run);
        NoneYet(rest);
        RunNone(ran + [Args(w)], run);
        k := 1;
        if Args(w) == [] || run(|ran|, Args(w)) == Stay {
          var ran' := if Args(w) == [] then ran else ran + [Args(w)];
          var j := DrainStream(s[|w|..], rest, ran', run, telnet);
          OneMore(words, j);
          RunOne(words, j, ran, run);
          k := j + 1;
        }
      }
    }
  }

  function Concat(datas: seq<Bytes>): Bytes {
    if datas == [] then [] else Concat(datas[..|datas| - 1]) + datas[|datas| - 1]
  }

  /** A connection fed piece by piece.  After background work the loop is entered again, with
      whatever has arrived meanwhile. */
  function FeedAll(datas: seq<Bytes>, run: Commands, telnet: Telnet): State {
    if datas == [] then State([], [], false, false)
    else Receive(FeedAll(datas[..|datas| - 1], run, telnet).(bg := false), datas[|datas| - 1], run, telnet)
  }

  /** The loop entered again, without new input, until no background work is left. */
  function Resume(c: State, run: Commands, telnet: Telnet): State
    decreases |c.packet|
  {
    if !c.bg || c.closed then c
    else
      assert c.packet + [] == c.packet;
      var d := Receive(c.(bg := false), [], run, telnet);
      if d.bg then Resume(d, run, telnet) else d
  }

  /** A stream with its first `k` commands dropped. */
  lemma {:induction false} StreamDrop(s: Bytes, words: seq<Bytes>, k: nat)
    requires k <= |words| && Begins(Stream(words[..k]) + s, words)
    ensures Begins(s, words[k..])
    decreases k
  {
    if k == 0 {
      NoneYet(words);
      assert [] + s == s && words[0..] == words;
    } else {
      OneMore(words, k - 1);
      var w := words[0];
      var t := Stream(words[1..][..k - 1]) + s;
      assert Stream(words[..k]) + s == w + t;
      assert t == (w + t)[|w|..] == Stream(words)[..|w + t|][|w|..] == Stream(words[1..])[..|t|];
      StreamDrop(s, words[1..], k - 1);
      assert words[1..][k - 1..] == words[k..];
    }
  }

  lemma {:induction false} StreamSplit(words: seq<Bytes>, k: nat, j: nat)
    requires k + j <= |words|
    ensures Stream(words[..k + j]) == Stream(words[..k]) + Stream(words[k..][..j])
    decreases k
  {
    hide Stream;
    if k == 0 {
      NoneYet(words);
      assert words[0..] == words;
    } else {
      OneMore(words, k - 1);
      OneMore(words, k + j - 1);
      StreamSplit(words[1..], k - 1, j);
      assert words[1..][k - 1..] == words[k..];
      assert words[1..][..k + j - 1] == words[1..][..k - 1 + j];
    }
  }

  /** Running a stream in two parts; nothing runs after a close. */
  lemma {:induction false} RunSplit(words: seq<Bytes>, k: nat, j: nat, ran: seq<seq<Bytes>>, run: Commands)
    requires k + j <= |words|
    ensures var (r, closed) := RunTo(words[..k], ran, run);
            RunTo(words[..k + j], ran, run) == if closed then (r, true) else RunTo(words[k..][..j], r, run)
    decreases k
  {
    hide Stream, Args;
    if k == 0 {
      assert words[0..] == words && words[..0] == [];
    } else {
      OneMore(words, k - 1);
      OneMore(words, k + j - 1);
      var args := Args(words[0]);
      RunSplit(words[1..], k - 1, j, if args == [] then ran else ran + [args], run);
      assert words[1..][k - 1..] == words[k..];
      assert words[1..][..k + j - 1] == words[1..][..k - 1 + j];
    }
  }

  /** The first `k` commands of a stream have been dealt with, and the packet buffer holds exactly the
      bytes received after them; unless the loop was stopped, that is less than one command. */
  ghost predicate At(c: State, words: seq<Bytes>, k: nat, received: Bytes, run: Commands) {
    && k <= |words| && (c.ran, c.closed) == RunTo(words[..k], [], run)
    && (!c.closed ==> Stream(words[..k]) + c.packet == received)
    && (!c.closed && !c.bg ==> k == |words| || |c.packet| < |words[k]|)
  }

  /** One more packet, or an empty one on the return from background work. */
  lemma ReceiveKeeps(c: State, words: seq<Bytes>, k: nat, received: Bytes, data: Bytes, run: Commands, telnet: Telnet)
    returns (k': nat)
    requires AllWords(words) && At(c, words, k, received, run) && Begins(received + data, words)
    ensures At(Receive(c.(bg := false), data, run, telnet), words, k', received + data, run)
    ensures k' >= k
  {
    hide Stream, Word, RunTo, Drain;
    k' := k;
    if !c.closed {
      assert Stream(words[..k]) + (c.packet + data) == received + data;
      StreamDrop(c.packet + data, words, k);
      var j := DrainStream(c.packet + data, words[k..], c.ran, run, telnet);
      StreamSplit(words, k, j);
      RunSplit(words, k, j, [], run);
      var d := Drain(c.packet + data, c.ran, run, telnet);
      assert Stream(words[..k + j]) + d.packet == Stream(words[..k]) + (Stream(words[k..][..j]) + d.packet);
      k' := k + j;
    }
  }

  /** At any moment the commands run are the first `k` of the stream, with the same argument bytes
      and in the same order, up to the first that closes the connection; the packet buffer holds
      exactly the bytes received after them. */
  lemma {:induction false} Lossless(datas: seq<Bytes>, words: seq<Bytes>, run: Commands, telnet: Telnet)
    returns (k: nat)
    requires AllWords(words) && Begins(Concat(datas), words)
    ensures At(FeedAll(datas, run, telnet), words, k, Concat(datas), run)
    decreases |datas|
  {
    hide Stream, Word, Receive, At;
    if datas == [] {
      k := 0;
      AtStart(words, run);
    } else {
      var init, last := datas[..|datas| - 1], datas[|datas| - 1];
      assert Begins(Concat(init), words) by { assert Concat(init) == Concat(datas)[..|Concat(init)|]; }
      k := Lossless(init, words, run, telnet);
      k := ReceiveKeeps(FeedAll(init, run, telnet), words, k, Concat(init), last, run, telnet);
    }
  }

  lemma AtStart(words: seq<Bytes>, run: Commands)
    requires AllWords(words)
    ensures At(State([], [], false, false), words, 0, [], run)
  {
    NoneYet(words);
    if words != [] {
      WordStarts(words[0]);
    }
  }

  lemma {:induction false} ResumeKeeps(c: State, words: seq<Bytes>, k: nat, received: Bytes, run: Commands,
                                       telnet: Telnet)
    returns (k': nat)
    requires AllWords(words) && At(c, words, k, received, run) && Begins(received, words)
    ensures At(Resume(c, run, telnet), words, k', received, run)
    ensures !Resume(c, run, telnet).bg || Resume(c, run, telnet).closed
    decreases |c.packet|
  {
    hide Stream, Word, At;
    k' := k;
    if c.bg && !c.closed {
      assert received + [] == received && c.packet + [] == c.packet;
      k' := ReceiveKeeps(c, words, k, received, [], run, telnet);
      var d := Receive(c.(bg := false), [], run, telnet);
      if d.bg {
        k' := ResumeKeeps(d, words, k', received, run, telnet);
      }
    }
  }

  /** Independence of packet boundaries: however a stream of commands is cut up, once all of it has
      arrived and background work is done, exactly its commands up to the first that closes the
      connection have run, with their exact arguments and in order, and if none closes it no byte is
      left over. */
  lemma AnySplit(datas: seq<Bytes>, words: seq<Bytes>, run: Commands, telnet: Telnet)
    requires AllWords(words) && Concat(datas) == Stream(words)
    ensures var c := Resume(FeedAll(datas, run, telnet), run, telnet);
            && (c.ran, c.closed) == RunTo(words, [], run)
            && (!c.closed ==> c.packet == [] && !c.bg)
  {
    hide Word, FeedAll, Resume, RunTo, Stream, Concat;
    assert Stream(words)[..|Stream(words)|] == Stream(words);
    var k := Lossless(datas, words, run, telnet);
    k := ResumeKeeps(FeedAll(datas, run, telnet), words, k, Concat(datas), run, telnet);
    var c := Resume(FeedAll(datas, run, telnet), run, telnet);
    var j := |words| - k;
    StreamSplit(words, k, j);
    RunSplit(words, k, j, [], run);
    assert words[..k + j] == words && words[k..][..j] == words[k..];
    if !c.closed {
      Cancel(Stream(words[..k]), c.packet, Stream(words[k..]));
      if j > 0 {
        StreamFirst(words[k..]);
      } else {
        NoneYet(words[k..]);
      }
    }
  }

  lemma Cancel(a: Bytes, b: Bytes, c: Bytes)
    requires a + b == a + c
    ensures b == c
  {
    assert b == (a + b)[|a|..] && c == (a + c)[|a|..];
  }

  lemma StreamFirst(words: seq<Bytes>)
    requires words != []
    ensures |Stream(words)| >= |words[0]|
  {
  }

  /** Two ways of cutting up the same bytes cannot be told apart. */
  lemma SplitsAgree(datas1: seq<Bytes>, datas2: seq<Bytes>, words: seq<Bytes>, run: Commands, telnet: Telnet)
    requires AllWords(words) && Concat(datas1) == Stream(words) == Concat(datas2)
    ensures var c := Resume(FeedAll(datas1, run, telnet), run, telnet);
            var d := Resume(FeedAll(datas2, run, telnet), run, telnet);
            c.ran == d.ran && c.closed == d.closed
  {
    hide Word, FeedAll, Resume, RunTo, Stream, Concat;
    AnySplit(datas1, words, run, telnet);
    AnySplit(datas2, words, run, telnet);
  }

  /** Commands as clients write them. */
  lemma CanonicalWords(cmds: seq<seq<Bytes>>) returns (words: seq<Bytes>)
    requires forall i :: 0 <= i < |cmds| ==> Legal(cmds[i])
    ensures |words| == |cmds| && AllWords(words)
    ensures forall i :: 0 <= i < |cmds| ==> words[i] == Encode(cmds[i]) && Args(words[i]) == cmds[i]
  {
    hide Parse, Firm, Encode, Legal, Stable;
    words := seq(|cmds|, i requires 0 <= i < |cmds| => Encode(cmds[i]));
    forall i | 0 <= i < |cmds| ensures Word(words[i]) && Args(words[i]) == cmds[i] {
      CanonicalFirm(cmds[i]);
    }
  }

  // ----- input that is not firm -----

  lemma {:induction false} ZeroValue(d: Bytes)
    requires forall i :: 0 <= i < |d| ==> d[i] == 48
    ensures Value(d, 0) == 0
    decreases |d|
  {
    if d != [] {
      ZeroValue(d[1..]);
    }
  }

  /** Packet boundaries matter for a number of more than 32 bytes, which no writer produces: it is
      accepted in one piece and refused when its end has not arrived yet. */
  lemma LongNumber(n: nat)
    requires n > 32
    ensures var zeros: Bytes := seq(n, _ => 48);
            && Parse([STAR] + zeros + [CR, LF]) == Command([], n + 3)
            && Parse([STAR] + zeros) == Bad
  {
    var zeros: Bytes := seq(n, _ => 48);
    var s := [STAR] + zeros + [CR, LF];
    assert forall i :: 1 <= i <= n ==> s[i] == 48;
    assert Reads(s, 1, zeros);
    TakesDigits(s, 1, zeros, 0);
    ZeroValue(zeros);
    assert Find(s, 1, CR) == n + 1;
    var t := [STAR] + zeros;
    assert Find(t, 1, CR) == |t|;
  }

  /** They also matter for an empty number at the end of the bytes at hand: the same four bytes leave
      the connection open or close it. */
  lemma EmptyNumber(run: Commands, telnet: Telnet)
    requires telnet([55]) == More
    ensures Concat([[42, 13, 10], [55]]) == Concat([[42, 13, 10, 55]])
    ensures !FeedAll([[42, 13, 10], [55]], run, telnet).closed
    ensures FeedAll([[42, 13, 10, 55]], run, telnet).closed
  {
    hide Parse, FeedAll, Concat;
    EmptyHeader();
    var w: Bytes, t: Bytes, last: Bytes := [42, 13, 10], [42, 13, 10, 55], [55];
    FeedOne(w, run, telnet);
    FeedOne(t, run, telnet);
    FeedTwo(w, last, run, telnet);
    assert w + last == t;
    assert Drain(w, [], run, telnet) == Drain([], [], run, telnet) by { assert w[3..] == []; }
    assert [] + last == last;
  }

  lemma FeedOne(a: Bytes, run: Commands, telnet: Telnet)
    ensures Concat([a]) == a && FeedAll([a], run, telnet) == Drain(a, [], run, telnet)
  {
    hide Drain;
    assert [a][..0] == [] && [] + a == a;
  }

  lemma FeedTwo(a: Bytes, b: Bytes, run: Commands, telnet: Telnet)
    ensures Concat([a, b]) == a + b
    ensures FeedAll([a, b], run, telnet) == Receive(FeedAll([a], run, telnet).(bg := false), b, run, telnet)
  {
    hide Receive;
    FeedOne(a, run, telnet);
    assert [a, b][..1] == [a];
  }

  lemma EmptyHeader()
    ensures Parse([42, 13, 10]) == Command([], 3) && Parse([42, 13, 10, 55]) == Bad
  {
    var w: Bytes := [42, 13, 10];
    assert Find(w, 1, CR) == 1;
    assert SkipSpace(w, 1) == SkipSpace(w, 2) == SkipSpace(w, 3) == 3;
    assert TakeDigits(w, 3, 0) == (0, 3);
    assert ReadNum(w, 1, INT64_MIN, MAXARGS) == Num(0, 3);
    assert ParseArgs(w, 3, 0, []) == Command([], 3);
    HangingField(w, 1, INT64_MIN, MAXARGS);
    assert w + [55] == [42, 13, 10, 55];
  }

  /** Firmness is needed: for any other accepted command there are two ways of cutting up the same
      bytes, one of which leaves the connection open while the other closes it. */
  lemma NotFirmTells(w: Bytes, run: Commands, telnet: Telnet) returns (open: seq<Bytes>, shut: seq<Bytes>)
    requires Parse(w).Command? && Parse(w).n == |w| && !Firm(w)
    requires telnet([55]) == More && forall n, args :: run(n, args) == Stay
    ensures Concat(open) == Concat(shut)
    ensures !FeedAll(open, run, telnet).closed && FeedAll(shut, run, telnet).closed
  {
    hide Firm, Parse, FeedAll, Concat;
    var k := NotFirmBreaks(w);
    AcceptedStarts(w);
    AcceptedStarts(Cut(w, k));
    FeedOne(w, run, telnet);
    FeedOne(Cut(w, k), run, telnet);
    assert w[|w|..] == [];
    if k < |w| {
      open, shut := [w], [w[..k], w[k..]];
      FeedTwo(w[..k], w[k..], run, telnet);
      assert w[..k] + w[k..] == w;
    } else {
      var last: Bytes := [55];
      open, shut := [w, last], [w + last];
      FeedTwo(w, last, run, telnet);
      assert [] + last == last;
    }
  }

  /** Whatever the parser accepts or refuses has a first byte, and what it accepts starts an array. */
  lemma AcceptedStarts(s: Bytes)
    requires Parse(s) != More
    ensures s != [] && (Parse(s).Command? ==> s[0] == STAR)
  {
  }
}
