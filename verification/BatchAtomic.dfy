/**
 Atomicity of batches.  The committed value of a shard is the one it had when a running batch
 took it, or its present value if no running batch holds it.  In every reachable state the
 committed values are those of a serial execution that runs each batch at one instant, the
 start of its pogocache_end, and every call returned what it returns in that execution.
 */
module BatchAtomic {
  import opened Common
  import opened CacheSpec
  import opened CacheRuns
  import opened Batch

  // ----- serial execution -----

  ghost predicate Addressed(log: seq<Logged>, n: nat) {
    forall i :: 0 <= i < |log| ==> log[i].call.shard < n
  }

  /** The shards after the calls of a log. */
  function Exec(d: seq<State>, log: seq<Logged>, cfg: Config): (r: seq<State>)
    requires Addressed(log, |d|)
    ensures |r| == |d|
  {
    if log == [] then d
    else RunCall(Exec(d, log[..|log| - 1], cfg), log[|log| - 1].call, cfg).0
  }

  /** Run from `d`, every call of the log returns what was logged. */
  ghost predicate Faithful(d: seq<State>, log: seq<Logged>, cfg: Config)
    requires Addressed(log, |d|)
  {
    log == [] ||
    (Faithful(d, log[..|log| - 1], cfg)
     && log[|log| - 1].out == RunCall(Exec(d, log[..|log| - 1], cfg), log[|log| - 1].call, cfg).1)
  }

  ghost predicate AllAddressed(hist: seq<seq<Logged>>, n: nat) {
    forall i :: 0 <= i < |hist| ==> Addressed(hist[i], n)
  }

  /** The shards after committed transactions, one after the other. */
  function Serial(init: seq<State>, hist: seq<seq<Logged>>, cfg: Config): (r: seq<State>)
    requires AllAddressed(hist, |init|)
    ensures |r| == |init|
  {
    if hist == [] then init
    else Exec(Serial(init, hist[..|hist| - 1], cfg), hist[|hist| - 1], cfg)
  }

  ghost predicate SerialFaithful(init: seq<State>, hist: seq<seq<Logged>>, cfg: Config)
    requires AllAddressed(hist, |init|)
  {
    hist == [] ||
    (SerialFaithful(init, hist[..|hist| - 1], cfg)
     && Faithful(Serial(init, hist[..|hist| - 1], cfg), hist[|hist| - 1], cfg))
  }

  /** Calls on the shards `h` neither see nor change the others. */
  lemma {:induction false} ExecFrame(d: seq<State>, e: seq<State>, log: seq<Logged>, h: set<nat>, cfg: Config)
    requires |d| == |e| && Addressed(log, |d|)
    requires forall i :: 0 <= i < |log| ==> log[i].call.shard in h
    requires forall x :: x in h && x < |d| ==> d[x] == e[x]
    ensures forall x :: x in h && x < |d| ==> Exec(d, log, cfg)[x] == Exec(e, log, cfg)[x]
    ensures forall x :: x !in h && 0 <= x < |d| ==> Exec(d, log, cfg)[x] == d[x]
    ensures Faithful(d, log, cfg) <==> Faithful(e, log, cfg)
    decreases |log|
  {
    hide Step;
    if log != [] {
      ExecFrame(d, e, log[..|log| - 1], h, cfg);
    }
  }

  lemma ExecAppend(d: seq<State>, log: seq<Logged>, l: Logged, cfg: Config)
    requires Addressed(log, |d|) && l.call.shard < |d|
    ensures Addressed(log + [l], |d|)
    ensures Exec(d, log + [l], cfg) == RunCall(Exec(d, log, cfg), l.call, cfg).0
    ensures Faithful(d, log + [l], cfg) <==> Faithful(d, log, cfg) && l.out == RunCall(Exec(d, log, cfg), l.call, cfg).1
  {
    hide RunCall;
    assert (log + [l])[..|log + [l]| - 1] == log;
  }

  lemma SerialAppend(init: seq<State>, hist: seq<seq<Logged>>, log: seq<Logged>, cfg: Config)
    requires AllAddressed(hist, |init|) && Addressed(log, |init|)
    ensures AllAddressed(hist + [log], |init|)
    ensures Serial(init, hist + [log], cfg) == Exec(Serial(init, hist, cfg), log, cfg)
    ensures SerialFaithful(init, hist + [log], cfg) <==>
            SerialFaithful(init, hist, cfg) && Faithful(Serial(init, hist, cfg), log, cfg)
  {
    hide Exec, Faithful;
    assert (hist + [log])[..|hist + [log]| - 1] == hist;
  }

  // ----- the refinement -----

  /** Shard `x` is held by a batch that has not reached its end. */
  ghost predicate Pending(s: System, x: nat) {
    x < |s.locks| && s.locks[x].Owner? && s.locks[x].who < |s.threads| && InBatch(s.threads[s.locks[x].who].pc)
  }

  /** What other threads may rely on. */
  ghost function Committed(s: System): (r: seq<State>)
    requires Shaped(s)
    ensures |r| == |s.data|
    ensures forall x :: 0 <= x < |r| ==> r[x] == if Pending(s, x) then s.snap[x] else s.data[x]
  {
    seq(|s.data|, x requires 0 <= x < |s.data| => if Pending(s, x) then s.snap[x] else s.data[x])
  }

  ghost function Shards(chain: seq<nat>): set<nat> {
    set x | x in chain
  }

  /** A running batch sees the committed values plus its own calls, on the shards it holds. */
  ghost predicate Mirrors(s: System, c: seq<State>, t: nat, cfg: Config)
    requires Shaped(s) && t < |s.threads| && |c| == |s.data|
  {
    var log := s.threads[t].log;
    && Addressed(log, |c|)
    && (forall i :: 0 <= i < |log| ==> log[i].call.shard in s.threads[t].chain)
    && Faithful(c, log, cfg)
    && (forall x: nat :: Held(s, t, x) && x < |c| ==> Exec(c, log, cfg)[x] == s.data[x])
  }

  ghost predicate Atomic(s: System, init: seq<State>, cfg: Config) {
    && Disciplined(s) && |init| == |s.data|
    && AllAddressed(s.hist, |init|) && SerialFaithful(init, s.hist, cfg)
    && Serial(init, s.hist, cfg) == Committed(s)
    && forall t :: 0 <= t < |s.threads| && InBatch(s.threads[t].pc) ==> Mirrors(s, Committed(s), t, cfg)
  }

  /** A change outside the shards of `t` does not disturb its batch. */
  lemma MirrorFrame(s: System, s': System, c: seq<State>, c': seq<State>, t: nat, cfg: Config)
    requires Shaped(s) && Shaped(s') && t < |s.threads| && |s'.threads| == |s.threads| && s'.threads[t] == s.threads[t]
    requires |c| == |c'| == |s.data| == |s'.data| && Mirrors(s, c, t, cfg) && Listed(s, t)
    requires forall x: nat :: Held(s, t, x) <==> Held(s', t, x)
    requires forall x: nat :: Held(s, t, x) ==> c'[x] == c[x] && s'.data[x] == s.data[x]
    ensures Mirrors(s', c', t, cfg)
  {
    hide Exec, Faithful;
    var h := set x | 0 <= x < |s.locks| && Held(s, t, x);
    assert forall i :: 0 <= i < |s.threads[t].log| ==> Held(s, t, s.threads[t].log[i].call.shard);
    ExecFrame(c, c', s.threads[t].log, h, cfg);
    assert forall x: nat :: Held(s', t, x) ==> x in h;
  }

  /** Only thread `t` and its shards were concerned by a step. */
  lemma OthersMirror(s: System, s': System, t: nat, init: seq<State>, cfg: Config)
    requires Atomic(s, init, cfg) && Disciplined(s') && t < |s.threads| == |s'.threads| && |s'.data| == |s.data|
    requires forall u :: 0 <= u < |s.threads| && u != t ==> s'.threads[u] == s.threads[u]
    requires forall x, u :: 0 <= x < |s.locks| && 0 <= u < |s.threads| && u != t && s.locks[x] == Owner(u) ==>
               s'.locks[x] == s.locks[x] && s'.data[x] == s.data[x] && s'.snap[x] == s.snap[x]
    requires forall x, u :: 0 <= x < |s.locks| && 0 <= u < |s.threads| && u != t && s'.locks[x] == Owner(u) ==>
               s.locks[x] == s'.locks[x]
    ensures forall u :: 0 <= u < |s.threads| && u != t && InBatch(s.threads[u].pc) ==>
              Mirrors(s', Committed(s'), u, cfg)
  {
    hide Exec, Faithful, Listed, PcOk;
    forall u | 0 <= u < |s.threads| && u != t && InBatch(s.threads[u].pc)
      ensures Mirrors(s', Committed(s'), u, cfg)
    {
      forall x: nat | Held(s, u, x)
        ensures Held(s', u, x) && Committed(s')[x] == Committed(s)[x] && s'.data[x] == s.data[x]
      {
        assert Pending(s, x) && Pending(s', x);
      }
      MirrorFrame(s, s', Committed(s), Committed(s'), u, cfg);
    }
  }

  /** Steps that change no value, no lock and no membership in a batch. */
  lemma QuietAtomic(s: System, s': System, t: nat, init: seq<State>, cfg: Config)
    requires Atomic(s, init, cfg) && Disciplined(s') && t < |s.threads| == |s'.threads|
    requires s'.data == s.data && s'.locks == s.locks && s'.snap == s.snap && s'.hist == s.hist
    requires s'.threads == s.threads[t := s'.threads[t]]
    requires s'.threads[t].log == s.threads[t].log && s'.threads[t].chain == s.threads[t].chain
    requires InBatch(s'.threads[t].pc) <==> InBatch(s.threads[t].pc)
    ensures Atomic(s', init, cfg)
  {
    hide Exec, Faithful, Listed, PcOk, Serial, SerialFaithful;
    assert forall x :: 0 <= x < |s.locks| ==> (Pending(s', x) <==> Pending(s, x));
    assert Committed(s') == Committed(s);
    OthersMirror(s, s', t, init, cfg);
    if InBatch(s.threads[t].pc) {
      assert forall x: nat :: Held(s, t, x) <==> Held(s', t, x);
      assert Mirrors(s, Committed(s), t, cfg);
    }
  }

  /** Lock changes of a thread that is in no running batch. */
  lemma OutsideAtomic(s: System, s': System, t: nat, init: seq<State>, cfg: Config)
    requires Atomic(s, init, cfg) && Disciplined(s') && t < |s.threads| == |s'.threads|
    requires s'.data == s.data && s'.snap == s.snap && s'.hist == s.hist
    requires s'.threads == s.threads[t := s'.threads[t]]
    requires !InBatch(s'.threads[t].pc) && !InBatch(s.threads[t].pc)
    requires forall x :: 0 <= x < |s.locks| && s'.locks[x] != s.locks[x] ==>
               s.locks[x] in {Free, Anon(t), Owner(t)} && s'.locks[x] in {Free, Anon(t), Owner(t)}
    ensures Atomic(s', init, cfg)
  {
    hide Exec, Faithful, Listed, PcOk, Serial, SerialFaithful, Mirrors;
    assert forall x :: 0 <= x < |s.locks| ==> (Pending(s', x) <==> Pending(s, x));
    assert Committed(s') == Committed(s);
    OthersMirror(s, s', t, init, cfg);
  }

  lemma HoldsAnon(s: System, t: nat)
    requires Disciplined(s) && t < |s.threads| && s.threads[t].pc.SHold?
    ensures var x := s.threads[t].pc.c.shard; x < |s.locks| && s.locks[x] == Anon(t)
  {
    assert PcOk(s, t);
  }

  /** A single operation takes effect when it runs. */
  lemma SingleRunAtomic(s: System, t: nat, init: seq<State>, cfg: Config)
    requires Atomic(s, init, cfg) && t < |s.threads| && s.threads[t].pc.SHold?
    ensures Atomic(Access(s, t, cfg), init, cfg)
  {
    hide Step, Exec, Faithful, Listed, PcOk, Serial, SerialFaithful, Mirrors, Addressed;
    NextDisciplined(s, Advance(t), cfg);
    HoldsAnon(s, t);
    var s', c, cm := Access(s, t, cfg), s.threads[t].pc.c, Committed(s);
    var l := Logged(c, RunCall(s.data, c, cfg).1);
    assert forall x :: 0 <= x < |s.locks| ==> (Pending(s', x) <==> Pending(s, x));
    assert !Pending(s, c.shard);
    ExecNothing(cm, cfg);
    ExecAppend(cm, [], l, cfg);
    assert [] + [l] == [l];
    assert RunCall(cm, c, cfg).0 == Committed(s');
    SerialAppend(init, s.hist, [l], cfg);
    OthersMirror(s, s', t, init, cfg);
  }

  lemma ExecNothing(d: seq<State>, cfg: Config)
    ensures Addressed([], |d|) && Exec(d, [], cfg) == d && Faithful(d, [], cfg)
  {
  }

  /** A batch takes a free shard: its value is remembered. */
  lemma TakeAtomic(s: System, t: nat, init: seq<State>, cfg: Config)
    requires Atomic(s, init, cfg) && t < |s.threads| && s.threads[t].pc.BWait?
    requires s.threads[t].pc.c.shard < |s.locks| && s.locks[s.threads[t].pc.c.shard] == Free
    ensures Atomic(Access(s, t, cfg), init, cfg)
  {
    NextDisciplined(s, Advance(t), cfg);
    var s', x, cm := Access(s, t, cfg), s.threads[t].pc.c.shard, Committed(s);
    assert Listed(s, t);
    assert x !in s.threads[t].chain;
    hide Step, Exec, Faithful, Listed, PcOk, Serial, SerialFaithful;
    assert forall y :: 0 <= y < |s.locks| && y != x ==> (Pending(s', y) <==> Pending(s, y));
    assert Committed(s') == cm;
    OthersMirror(s, s', t, init, cfg);
    assert Mirrors(s, cm, t, cfg);
    ExecFrame(cm, cm, s.threads[t].log, Shards(s.threads[t].chain), cfg);
    assert Mirrors(s', cm, t, cfg) by {
      assert forall y: nat :: Held(s', t, y) ==> y == x || Held(s, t, y);
    }
  }

  lemma HeadAtomic(s: System, t: nat, init: seq<State>, cfg: Config)
    requires Atomic(s, init, cfg) && t < |s.threads| && s.threads[t].pc.BHead?
    ensures Atomic(Access(s, t, cfg), init, cfg)
  {
    NextDisciplined(s, Advance(t), cfg);
    var s' := Access(s, t, cfg);
    hide Step, Exec, Faithful, Listed, PcOk, Serial, SerialFaithful;
    assert forall y :: 0 <= y < |s.locks| ==> (Pending(s', y) <==> Pending(s, y));
    assert Committed(s') == Committed(s);
    OthersMirror(s, s', t, init, cfg);
    assert Mirrors(s, Committed(s), t, cfg);
    assert forall y: nat :: Held(s', t, y) <==> Held(s, t, y);
  }

  /** A batch runs a call on a shard it holds. */
  lemma RunAtomic(s: System, t: nat, init: seq<State>, cfg: Config)
    requires Atomic(s, init, cfg) && t < |s.threads| && s.threads[t].pc.BHold?
    ensures Atomic(Access(s, t, cfg), init, cfg)
  {
    NextDisciplined(s, Advance(t), cfg);
    var s', c, cm := Access(s, t, cfg), s.threads[t].pc.c, Committed(s);
    var log := s.threads[t].log;
    assert PcOk(s, t) && Listed(s, t);
    assert Held(s, t, c.shard);
    hide Step, Exec, Faithful, Listed, PcOk, Serial, SerialFaithful;
    assert Mirrors(s, cm, t, cfg);
    var l := Logged(c, RunCall(s.data, c, cfg).1);
    assert forall y :: 0 <= y < |s.locks| ==> (Pending(s', y) <==> Pending(s, y));
    assert Committed(s') == cm;
    OthersMirror(s, s', t, init, cfg);
    ExecAppend(cm, log, l, cfg);
    assert Exec(cm, log, cfg)[c.shard] == s.data[c.shard];
    assert forall y: nat :: Held(s', t, y) <==> Held(s, t, y);
    assert Mirrors(s', cm, t, cfg);
  }

  /** The values a batch commits are the ones its calls produce from the committed state. */
  lemma EndCommits(s: System, s': System, t: nat, cfg: Config)
    requires Shaped(s) && Shaped(s') && t < |s.threads| == |s'.threads| && Listed(s, t) && s.threads[t].pc.BOpen?
    requires s'.locks == s.locks && s'.data == s.data && s'.snap == s.snap
    requires s'.threads == s.threads[t := s'.threads[t]] && !InBatch(s'.threads[t].pc)
    requires Mirrors(s, Committed(s), t, cfg)
    ensures Exec(Committed(s), s.threads[t].log, cfg) == Committed(s')
  {
    hide Step, Exec, Faithful, Chained;
    var cm, log := Committed(s), s.threads[t].log;
    ExecFrame(cm, cm, log, Shards(s.threads[t].chain), cfg);
    forall y: nat | y < |s.data| ensures Exec(cm, log, cfg)[y] == Committed(s')[y] {
      assert Held(s, t, y) <==> y in Shards(s.threads[t].chain);
      assert Pending(s', y) <==> Pending(s, y) && !Held(s, t, y);
    }
  }

  /** pogocache_end: all calls of the batch take effect at once. */
  lemma EndAtomic(s: System, t: nat, init: seq<State>, cfg: Config)
    requires Atomic(s, init, cfg) && t < |s.threads| && s.threads[t].pc.BOpen?
    ensures Atomic(Next(s, End(t), cfg), init, cfg)
  {
    hide Step, Exec, Faithful, Listed, PcOk, Serial, SerialFaithful, Mirrors;
    NextDisciplined(s, End(t), cfg);
    var s', log := Next(s, End(t), cfg), s.threads[t].log;
    assert Mirrors(s, Committed(s), t, cfg);
    MirrorsAddressed(s, Committed(s), t, cfg);
    EndCommits(s, s', t, cfg);
    SerialAppend(init, s.hist, log, cfg);
    OthersMirror(s, s', t, init, cfg);
  }

  lemma MirrorsAddressed(s: System, c: seq<State>, t: nat, cfg: Config)
    requires Shaped(s) && t < |s.threads| && |c| == |s.data| && Mirrors(s, c, t, cfg)
    ensures Addressed(s.threads[t].log, |c|) && Faithful(c, s.threads[t].log, cfg)
  {
  }

  lemma BeginAtomic(s: System, t: nat, init: seq<State>, cfg: Config)
    requires Atomic(s, init, cfg) && t < |s.threads| && s.threads[t].pc.Idle?
    ensures Atomic(Next(s, Begin(t), cfg), init, cfg)
  {
    NextDisciplined(s, Begin(t), cfg);
    var s' := Next(s, Begin(t), cfg);
    assert Listed(s, t) && PcOk(s, t);
    assert forall y: nat :: !Held(s, t, y) && !Held(s', t, y);
    hide Step, Exec, Faithful, Listed, PcOk, Serial, SerialFaithful;
    assert forall y :: 0 <= y < |s.locks| ==> (Pending(s', y) <==> Pending(s, y)) by {
      assert forall y: nat :: y < |s.locks| && s.locks[y] == Owner(t) ==> Held(s, t, y);
    }
    assert Committed(s') == Committed(s);
    OthersMirror(s, s', t, init, cfg);
    ExecNothing(Committed(s'), cfg);
  }

  /** Every step keeps the system serial. */
  lemma NextAtomic(s: System, a: Action, init: seq<State>, cfg: Config)
    requires Atomic(s, init, cfg)
    ensures Atomic(Next(s, a, cfg), init, cfg)
  {
    if a.t < |s.threads| {
      var t, s' := a.t, Next(s, a, cfg);
      var pc := s.threads[t].pc;
      NextDisciplined(s, a, cfg);
      if a.Begin? && pc.Idle? {
        BeginAtomic(s, t, init, cfg);
      } else if a.End? && pc.BOpen? {
        EndAtomic(s, t, init, cfg);
      } else if a.Advance? && pc.SHold? {
        SingleRunAtomic(s, t, init, cfg);
      } else if a.Advance? && pc.BHead? {
        HeadAtomic(s, t, init, cfg);
      } else if a.Advance? && pc.BHold? {
        RunAtomic(s, t, init, cfg);
      } else if a.Advance? && pc.BWait? && pc.c.shard < |s.locks| && s.locks[pc.c.shard] == Free {
        TakeAtomic(s, t, init, cfg);
      } else if a.Advance? && (pc.SWait? || pc.SExit? || pc.BEnd? || pc.BFree?) {
        AdvanceOutside(s, t, init, cfg);
      } else {
        hide Step, Disciplined, Atomic, InBatch;
        QuietStep(s, a, init, cfg);
      }
    }
  }

  lemma AdvanceOutside(s: System, t: nat, init: seq<State>, cfg: Config)
    requires Atomic(s, init, cfg) && t < |s.threads|
    requires var pc := s.threads[t].pc; pc.SWait? || pc.SExit? || pc.BEnd? || pc.BFree?
    ensures Atomic(Access(s, t, cfg), init, cfg)
  {
    NextDisciplined(s, Advance(t), cfg);
    assert PcOk(s, t) && Listed(s, t);
    if s.threads[t].pc.BFree? {
      assert s.threads[t].pc.at in Extra(s.threads[t].pc);
      assert Held(s, t, s.threads[t].pc.at);
    }
    hide Step, Serial, SerialFaithful, Mirrors, Chained;
    OutsideAtomic(s, Access(s, t, cfg), t, init, cfg);
  }

  lemma QuietStep(s: System, a: Action, init: seq<State>, cfg: Config)
    requires Atomic(s, init, cfg) && a.t < |s.threads|
    requires var pc := s.threads[a.t].pc;
             match a
             case Begin(t) => !pc.Idle?
             case CallSingle(t, c) => true
             case CallBatch(t, c) => true
             case End(t) => !pc.BOpen?
             case Advance(t) => pc.Idle? || pc.BOpen? || pc.BLink?
                                || (pc.BWait? && !(pc.c.shard < |s.locks| && s.locks[pc.c.shard] == Free))
    ensures Atomic(Next(s, a, cfg), init, cfg)
  {
    hide Step, Serial, SerialFaithful, Mirrors, Chained, Listed, PcOk;
    NextDisciplined(s, a, cfg);
    QuietAtomic(s, Next(s, a, cfg), a.t, init, cfg);
  }

  // ----- whole runs -----

  /** All shards free, every thread idle. */
  function Initial(init: seq<State>, nthreads: nat): (s: System)
    ensures Shaped(s)
  {
    System(seq(|init|, _ => Free), seq(|init|, _ => None), init,
           seq(nthreads, _ => Thread(Idle, None, [], [])), init, [])
  }

  function RunAll(s: System, acts: seq<Action>, cfg: Config): (r: System)
    requires Disciplined(s)
    ensures Disciplined(r)
  {
    if acts == [] then s
    else
      NextDisciplined(RunAll(s, acts[..|acts| - 1], cfg), acts[|acts| - 1], cfg);
      Next(RunAll(s, acts[..|acts| - 1], cfg), acts[|acts| - 1], cfg)
  }

  lemma InitialAtomic(init: seq<State>, nthreads: nat, cfg: Config)
    ensures Disciplined(Initial(init, nthreads)) && Atomic(Initial(init, nthreads), init, cfg)
  {
    var s := Initial(init, nthreads);
    forall t: nat | t < nthreads ensures Listed(s, t) && PcOk(s, t) {
      assert forall sh: nat :: !Held(s, t, sh);
    }
    assert Committed(s) == init;
  }

  /** Batch atomicity: every interleaving, at any point, has the committed values and the results
      of a serial execution in which each batch runs at the instant its pogocache_end starts. */
  lemma {:induction false} EveryRunSerial(init: seq<State>, nthreads: nat, acts: seq<Action>, cfg: Config)
    ensures Disciplined(Initial(init, nthreads))
    ensures Atomic(RunAll(Initial(init, nthreads), acts, cfg), init, cfg)
    decreases |acts|
  {
    hide Atomic, Disciplined, Next, Initial;
    InitialAtomic(init, nthreads, cfg);
    if acts != [] {
      EveryRunSerial(init, nthreads, acts[..|acts| - 1], cfg);
      NextAtomic(RunAll(Initial(init, nthreads), acts[..|acts| - 1], cfg), acts[|acts| - 1], init, cfg);
    }
  }

  /** Once no batch is running, the shards themselves are those of the serial execution. */
  lemma QuiescentSerial(init: seq<State>, nthreads: nat, acts: seq<Action>, cfg: Config)
    requires Disciplined(Initial(init, nthreads))
    requires var s := RunAll(Initial(init, nthreads), acts, cfg);
             forall t :: 0 <= t < |s.threads| ==> !InBatch(s.threads[t].pc)
    ensures var s := RunAll(Initial(init, nthreads), acts, cfg);
            AllAddressed(s.hist, |init|) && SerialFaithful(init, s.hist, cfg) && s.data == Serial(init, s.hist, cfg)
  {
    hide RunAll, Serial, SerialFaithful;
    EveryRunSerial(init, nthreads, acts, cfg);
    var s := RunAll(Initial(init, nthreads), acts, cfg);
    assert Committed(s) == s.data;
  }
}
