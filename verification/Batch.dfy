/**
 The lock protocol of src/pogocache.c: single operations hold one shard, a batch keeps every
 shard it touches on a linked list until pogocache_end releases them one by one.  Threads
 interleave at every access to shared memory.  `log`, `snap`, `chain` and `hist` only record
 what happened; no step reads them.
 */
module Batch {
  import opened Common
  import opened CacheSpec
  import opened CacheRuns

  /** An operation addressed to a shard. */
  datatype Call = Call(shard: nat, ev: Event)

  /** A call with what it returned. */
  datatype Logged = Logged(call: Call, out: Outcome)

  /** The lock word: zero, UINTPTR_MAX (any single operation), or the address of a batch. */
  datatype Lock = Free | Anon(who: nat) | Owner(who: nat)

  datatype Pc =
    | Idle
    | SWait(c: Call)   // single operation spinning for its shard
    | SHold(c: Call)   // holds the shard
    | SExit(c: Call)   // has run, lock still set
    | BOpen            // inside a batch, between operations
    | BWait(c: Call)   // spinning for a shard
    | BLink(c: Call)   // lock taken, shard not linked yet
    | BHead(c: Call)   // shard->next set
    | BHold(c: Call)   // shard held and linked
    | BEnd(cur: Option<nat>)             // release loop of pogocache_end
    | BFree(at: nat, rest: Option<nat>)  // next read and reset, lock still set

  datatype Thread = Thread(pc: Pc, head: Option<nat>, chain: seq<nat>, log: seq<Logged>)

  datatype System = System(
    locks: seq<Lock>, next: seq<Option<nat>>, data: seq<State>, threads: seq<Thread>,
    snap: seq<State>, hist: seq<seq<Logged>>)

  datatype Action =
    | Begin(t: nat)
    | CallSingle(t: nat, c: Call)
    | CallBatch(t: nat, c: Call)
    | Advance(t: nat)
    | End(t: nat)

  // ----- steps -----

  /** `d` after running one call. */
  function RunCall(d: seq<State>, c: Call, cfg: Config): (r: (seq<State>, Outcome))
    requires c.shard < |d|
    ensures |r.0| == |d|
  {
    var (s, out) := Step(d[c.shard], c.ev, cfg);
    (d[c.shard := s], out)
  }

  function SetPc(s: System, t: nat, pc: Pc): System
    requires t < |s.threads|
  {
    s.(threads := s.threads[t := s.threads[t].(pc := pc)])
  }

  function Rest(chain: seq<nat>): seq<nat> {
    if chain == [] then [] else chain[1..]
  }

  function First(chain: seq<nat>): Option<nat> {
    if chain == [] then None else Some(chain[0])
  }

  ghost predicate Shaped(s: System) {
    |s.locks| == |s.next| == |s.data| == |s.snap|
  }

  /** The next memory access of thread `t`; a failed compare-and-swap leaves it spinning. */
  function Access(s: System, t: nat, cfg: Config): (r: System)
    requires t < |s.threads| && Shaped(s)
  {
    var th := s.threads[t];
    match th.pc
    case SWait(c) =>
      if c.shard < |s.locks| && s.locks[c.shard] == Free then
        SetPc(s.(locks := s.locks[c.shard := Anon(t)]), t, SHold(c))
      else s
    case SHold(c) =>
      if c.shard < |s.data| then
        var (d, out) := RunCall(s.data, c, cfg);
        SetPc(s.(data := d, hist := s.hist + [[Logged(c, out)]]), t, SExit(c))
      else s
    case SExit(c) =>
      if c.shard < |s.locks| then SetPc(s.(locks := s.locks[c.shard := Free]), t, Idle) else s
    case BWait(c) =>
      if c.shard >= |s.locks| then s
      else if s.locks[c.shard] == Free then
        SetPc(s.(locks := s.locks[c.shard := Owner(t)], snap := s.snap[c.shard := s.data[c.shard]]), t, BLink(c))
      else if s.locks[c.shard] == Owner(t) then SetPc(s, t, BHold(c))
      else s
    case BLink(c) =>
      if c.shard < |s.next| then SetPc(s.(next := s.next[c.shard := th.head]), t, BHead(c)) else s
    case BHead(c) =>
      s.(threads := s.threads[t := th.(pc := BHold(c), head := Some(c.shard), chain := [c.shard] + th.chain)])
    case BHold(c) =>
      if c.shard < |s.data| then
        var (d, out) := RunCall(s.data, c, cfg);
        s.(data := d, threads := s.threads[t := th.(pc := BOpen, log := th.log + [Logged(c, out)])])
      else s
    case BEnd(cur) =>
      if cur == None then s.(threads := s.threads[t := Thread(Idle, None, [], [])])
      else if cur.value < |s.next| then
        s.(next := s.next[cur.value := None],
           threads := s.threads[t := th.(pc := BFree(cur.value, s.next[cur.value]), chain := Rest(th.chain))])
      else s
    case BFree(at, rest) =>
      if at < |s.locks| then SetPc(s.(locks := s.locks[at := Free]), t, BEnd(rest)) else s
    case Idle => s
    case BOpen => s
  }

  /** One step of some thread; actions that are not enabled change nothing. */
  function Next(s: System, a: Action, cfg: Config): System
    requires Shaped(s)
  {
    if a.t >= |s.threads| then s
    else
      var th := s.threads[a.t];
      match a
      case Begin(t) => if th.pc == Idle then s.(threads := s.threads[t := Thread(BOpen, None, [], [])]) else s
      case CallSingle(t, c) => if th.pc == Idle && c.shard < |s.data| then SetPc(s, t, SWait(c)) else s
      case CallBatch(t, c) => if th.pc == BOpen && c.shard < |s.data| then SetPc(s, t, BWait(c)) else s
      case Advance(t) => Access(s, t, cfg)
      case End(t) =>
        if th.pc == BOpen then SetPc(s.(hist := s.hist + [th.log]), t, BEnd(th.head)) else s
  }

  // ----- list discipline -----

  /** The shards whose lock word is the batch of thread `t`. */
  ghost predicate Held(s: System, t: nat, sh: nat) {
    sh < |s.locks| && s.locks[sh] == Owner(t)
  }

  /** The one shard that is locked but not (or no longer) on the list. */
  function Extra(pc: Pc): set<nat> {
    match pc
    case BLink(c) => {c.shard}
    case BHead(c) => {c.shard}
    case BFree(at, _) => {at}
    case _ => {}
  }

  /** Where the list of a thread starts. */
  function Start(th: Thread): Option<nat> {
    match th.pc
    case BEnd(cur) => cur
    case BFree(_, rest) => rest
    case _ => th.head
  }

  /** The link of the i-th shard of a list leads to the one after it. */
  ghost predicate LinkAt(next: seq<Option<nat>>, chain: seq<nat>, i: nat)
    requires i < |chain|
  {
    chain[i] < |next| && next[chain[i]] == First(chain[i + 1..])
  }

  ghost predicate Chained(next: seq<Option<nat>>, chain: seq<nat>) {
    forall i :: 0 <= i < |chain| ==> LinkAt(next, chain, i)
  }

  lemma ChainFrame(next: seq<Option<nat>>, next': seq<Option<nat>>, chain: seq<nat>)
    requires Chained(next, chain) && |next| == |next'|
    requires forall x :: x in chain && x < |next| ==> next'[x] == next[x]
    ensures Chained(next', chain)
  {
    forall i | 0 <= i < |chain| ensures LinkAt(next', chain, i) {
      assert LinkAt(next, chain, i) && chain[i] in chain;
    }
  }

  lemma ChainCons(next: seq<Option<nat>>, x: nat, chain: seq<nat>)
    requires Chained(next, chain) && x < |next| && next[x] == First(chain)
    ensures Chained(next, [x] + chain)
  {
    var c := [x] + chain;
    forall i | 0 <= i < |c| ensures LinkAt(next, c, i) {
      if i > 0 {
        assert LinkAt(next, chain, i - 1) && c[i + 1..] == chain[i..];
      } else {
        assert c[1..] == chain;
      }
    }
  }

  lemma ChainTail(next: seq<Option<nat>>, chain: seq<nat>)
    requires Chained(next, chain) && chain != [] && NoDup(chain)
    ensures chain[0] < |next| && next[chain[0]] == First(chain[1..])
    ensures Chained(next[chain[0] := None], chain[1..]) && NoDup(chain[1..])
    ensures forall x :: x in chain <==> x == chain[0] || x in chain[1..]
    ensures chain[0] !in chain[1..]
  {
    var c := chain[1..];
    assert LinkAt(next, chain, 0) && chain == [chain[0]] + c;
    var next' := next[chain[0] := None];
    forall i | 0 <= i < |c| ensures LinkAt(next', c, i) {
      assert LinkAt(next, chain, i + 1) && c[i + 1..] == chain[i + 2..] && c[i] == chain[i + 1];
    }
    forall i, j | 0 <= i < j < |c| ensures c[i] != c[j] {
      assert c[i] == chain[i + 1] && c[j] == chain[j + 1];
    }
  }

  /** A shard is on the list of a thread, exactly once, iff its lock holds the thread's batch,
      apart from the one being linked or unlinked. */
  ghost predicate Listed(s: System, t: nat)
    requires t < |s.threads|
  {
    var th := s.threads[t];
    && NoDup(th.chain) && Chained(s.next, th.chain) && Start(th) == First(th.chain)
    && (forall sh :: Held(s, t, sh) <==> sh in th.chain || sh in Extra(th.pc))
    && (forall sh :: sh in Extra(th.pc) ==> sh !in th.chain)
  }

  /** Between pogocache_begin and pogocache_end. */
  predicate InBatch(pc: Pc) {
    pc.BOpen? || pc.BWait? || pc.BLink? || pc.BHead? || pc.BHold?
  }

  /** What the program counter says about locks and links. */
  ghost predicate PcOk(s: System, t: nat)
    requires t < |s.threads| && Shaped(s)
  {
    var th := s.threads[t];
    match th.pc
    case Idle => th.chain == []
    case SWait(c) => th.chain == [] && c.shard < |s.locks|
    case SHold(c) => th.chain == [] && c.shard < |s.locks| && s.locks[c.shard] == Anon(t)
    case SExit(c) => th.chain == [] && c.shard < |s.locks| && s.locks[c.shard] == Anon(t)
    case BOpen => true
    case BWait(c) => c.shard < |s.locks|
    case BLink(c) => true
    case BHead(c) => c.shard < |s.locks| && s.next[c.shard] == th.head
    case BHold(c) => c.shard in th.chain
    case BEnd(cur) => true
    case BFree(at, rest) => true
  }

  ghost predicate Disciplined(s: System) {
    Shaped(s) && forall t :: 0 <= t < |s.threads| ==> Listed(s, t) && PcOk(s, t)
  }

  /** A change at shard `x` that concerns another thread leaves `u` alone. */
  lemma OtherThread(s: System, s': System, u: nat, x: nat)
    requires Shaped(s) && Shaped(s') && |s'.locks| == |s.locks| && u < |s.threads| == |s'.threads|
    requires Listed(s, u) && PcOk(s, u) && s'.threads[u] == s.threads[u]
    requires forall sh :: 0 <= sh < |s.locks| && sh != x ==> s'.locks[sh] == s.locks[sh] && s'.next[sh] == s.next[sh]
    requires x < |s.locks| ==> s.locks[x] != Owner(u) && s.locks[x] != Anon(u)
                               && s'.locks[x] != Owner(u) && s'.locks[x] != Anon(u)
    ensures Listed(s', u) && PcOk(s', u)
  {
    var th := s.threads[u];
    assert forall sh :: Held(s', u, sh) <==> Held(s, u, sh);
    assert forall i :: 0 <= i < |th.chain| ==> Held(s, u, th.chain[i]);
    ChainFrame(s.next, s'.next, th.chain);
  }

  /** Taking, using and leaving a shard for a single operation. */
  lemma SingleDisciplined(s: System, t: nat, cfg: Config)
    requires Disciplined(s) && t < |s.threads|
    requires s.threads[t].pc.SWait? || s.threads[t].pc.SHold? || s.threads[t].pc.SExit?
    ensures Disciplined(Access(s, t, cfg))
  {
    var s', x := Access(s, t, cfg), s.threads[t].pc.c.shard;
    assert Listed(s, t) && PcOk(s, t);
    assert forall sh :: Held(s', t, sh) <==> Held(s, t, sh);
    forall u | 0 <= u < |s.threads| && u != t ensures Listed(s', u) && PcOk(s', u) {
      OtherThread(s, s', u, if s'.locks == s.locks then |s.locks| else x);
    }
  }

  /** Only thread `t` and shard `x`, which is free or its own, are concerned by a step. */
  lemma Settled(s: System, s': System, t: nat, x: nat)
    requires Disciplined(s) && Shaped(s') && |s'.locks| == |s.locks| && t < |s.threads|
    requires |s'.threads| == |s.threads| && s'.threads == s.threads[t := s'.threads[t]]
    requires forall sh :: 0 <= sh < |s.locks| && sh != x ==> s'.locks[sh] == s.locks[sh] && s'.next[sh] == s.next[sh]
    requires x < |s.locks| ==> s.locks[x] in {Free, Owner(t)} && s'.locks[x] in {Free, Owner(t)}
    requires Listed(s', t) && PcOk(s', t)
    ensures Disciplined(s')
  {
    hide Listed, PcOk;
    forall u | 0 <= u < |s.threads| && u != t ensures Listed(s', u) && PcOk(s', u) {
      OtherThread(s, s', u, x);
    }
  }

  /** The compare-and-swap of a batch. */
  lemma TakeDisciplined(s: System, t: nat, cfg: Config)
    requires Disciplined(s) && t < |s.threads| && s.threads[t].pc.BWait?
    ensures Disciplined(Access(s, t, cfg))
  {
    hide Step;
    var th, s' := s.threads[t], Access(s, t, cfg);
    assert Listed(s, t) && PcOk(s, t);
    assert forall i :: 0 <= i < |th.chain| ==> Held(s, t, th.chain[i]);
    assert forall sh :: Held(s', t, sh) <==> Held(s, t, sh) || sh in Extra(s'.threads[t].pc);
    Settled(s, s', t, if s'.locks == s.locks then |s.locks| else th.pc.c.shard);
  }

  /** shard->next = batch->shard */
  lemma LinkDisciplined(s: System, t: nat, cfg: Config)
    requires Disciplined(s) && t < |s.threads| && s.threads[t].pc.BLink?
    ensures Disciplined(Access(s, t, cfg))
  {
    hide Step;
    var th, s' := s.threads[t], Access(s, t, cfg);
    assert Listed(s, t) && PcOk(s, t);
    assert th.pc.c.shard in Extra(th.pc);
    assert Held(s, t, th.pc.c.shard);
    assert forall sh :: Held(s', t, sh) <==> Held(s, t, sh);
    ChainFrame(s.next, s'.next, th.chain);
    Settled(s, s', t, th.pc.c.shard);
  }

  /** batch->shard = shard */
  lemma HeadDisciplined(s: System, t: nat, cfg: Config)
    requires Disciplined(s) && t < |s.threads| && s.threads[t].pc.BHead?
    ensures Disciplined(Access(s, t, cfg))
  {
    hide Step;
    var th, s' := s.threads[t], Access(s, t, cfg);
    var th', x := s'.threads[t], th.pc.c.shard;
    assert Listed(s, t) && PcOk(s, t);
    assert th'.chain == [x] + th.chain && x in Extra(th.pc);
    ChainCons(s.next, x, th.chain);
    assert forall sh :: Held(s', t, sh) <==> Held(s, t, sh);
    Settled(s, s', t, |s.locks|);
  }

  /** The release loop reads and resets the link of the shard it is about to release. */
  lemma UnlinkDisciplined(s: System, t: nat, cfg: Config)
    requires Disciplined(s) && t < |s.threads| && s.threads[t].pc.BEnd?
    ensures Disciplined(Access(s, t, cfg))
  {
    hide Step;
    var th, s' := s.threads[t], Access(s, t, cfg);
    var th' := s'.threads[t];
    assert Listed(s, t) && PcOk(s, t);
    assert forall sh :: Held(s', t, sh) <==> Held(s, t, sh);
    if th.pc.cur != None {
      var x := th.chain[0];
      assert Held(s, t, x);
      ChainTail(s.next, th.chain);
      assert Listed(s', t);
      Settled(s, s', t, x);
    } else {
      Settled(s, s', t, |s.locks|);
    }
  }

  /** The release loop frees a shard. */
  lemma FreeDisciplined(s: System, t: nat, cfg: Config)
    requires Disciplined(s) && t < |s.threads| && s.threads[t].pc.BFree?
    ensures Disciplined(Access(s, t, cfg))
  {
    hide Step;
    var th, s' := s.threads[t], Access(s, t, cfg);
    assert Listed(s, t) && PcOk(s, t);
    assert th.pc.at in Extra(th.pc);
    assert Held(s, t, th.pc.at);
    assert forall sh :: Held(s', t, sh) <==> Held(s, t, sh) && sh != th.pc.at;
    Settled(s, s', t, th.pc.at);
  }

  /** Every step keeps the list discipline. */
  lemma NextDisciplined(s: System, a: Action, cfg: Config)
    requires Disciplined(s)
    ensures Disciplined(Next(s, a, cfg))
  {
    hide Listed, PcOk, Access;
    if a.t < |s.threads| {
      var t, pc := a.t, s.threads[a.t].pc;
      if a.Advance? && (pc.SWait? || pc.SHold? || pc.SExit?) {
        SingleDisciplined(s, t, cfg);
      } else if a.Advance? && pc.BWait? {
        TakeDisciplined(s, t, cfg);
      } else if a.Advance? && pc.BLink? {
        LinkDisciplined(s, t, cfg);
      } else if a.Advance? && pc.BHead? {
        HeadDisciplined(s, t, cfg);
      } else if a.Advance? && pc.BEnd? {
        UnlinkDisciplined(s, t, cfg);
      } else if a.Advance? && pc.BFree? {
        FreeDisciplined(s, t, cfg);
      } else {
        QuietDisciplined(s, a, cfg);
      }
    }
  }

  /** Steps that touch neither locks nor links. */
  lemma QuietDisciplined(s: System, a: Action, cfg: Config)
    requires Disciplined(s) && a.t < |s.threads|
    requires a.Advance? ==> var pc := s.threads[a.t].pc; pc.Idle? || pc.BOpen? || pc.BHold?
    ensures Disciplined(Next(s, a, cfg))
  {
    hide Step;
    var t, s' := a.t, Next(s, a, cfg);
    assert Listed(s, t) && PcOk(s, t);
    assert s'.locks == s.locks && s'.next == s.next;
    forall u | 0 <= u < |s.threads| ensures Listed(s', u) && PcOk(s', u) {
      if u != t {
        OtherThread(s, s', u, |s.locks|);
      } else {
        assert forall sh :: Held(s', t, sh) <==> Held(s, t, sh);
      }
    }
  }
}
