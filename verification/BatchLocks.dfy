/**
 Who holds the locks, and that they are given back: a lock word names a single operation only while
 that operation runs, idle threads hold nothing, no step but a failed compare-and-swap leaves a thread
 where it was, and both forms of release come to their end.
 */
module BatchLocks {
  import opened Common
  import opened CacheSpec
  import opened CacheRuns
  import opened Batch
  import opened BatchAtomic
  import opened CacheLaws

  /** A single operation that has taken shard `sh` and not given it back. */
  predicate Inside(pc: Pc, sh: nat) {
    (pc.SHold? || pc.SExit?) && pc.c.shard == sh
  }

  ghost predicate AnonAt(s: System, sh: nat, t: nat) {
    sh < |s.locks| && s.locks[sh] == Anon(t)
  }

  /** A lock names a single operation if and only if that operation is inside its shard, and no lock
      names a thread that does not exist. */
  ghost predicate Guarded(s: System) {
    && (forall sh: nat, t: nat :: AnonAt(s, sh, t) <==>
          sh < |s.locks| && t < |s.threads| && Inside(s.threads[t].pc, sh))
    && (forall sh: nat, t: nat :: Held(s, t, sh) ==> t < |s.threads|)
  }

  /** A step of thread `t` that leaves the locks alone, or gives up or takes one shard. */
  lemma StepGuarded(s: System, s': System, t: nat)
    requires Guarded(s) && |s'.locks| == |s.locks| && t < |s.threads| && |s'.threads| == |s.threads|
    requires s'.threads == s.threads[t := s'.threads[t]]
    requires forall sh: nat, u: nat :: u != t ==> (AnonAt(s', sh, u) <==> AnonAt(s, sh, u))
    requires forall sh: nat :: AnonAt(s', sh, t) <==> sh < |s.locks| && Inside(s'.threads[t].pc, sh)
    requires forall sh: nat, u: nat :: Held(s', u, sh) ==> Held(s, u, sh) || u == t
    ensures Guarded(s')
  {
    forall sh: nat, u: nat
      ensures AnonAt(s', sh, u) <==> sh < |s'.locks| && u < |s'.threads| && Inside(s'.threads[u].pc, sh)
    {
      assert AnonAt(s, sh, u) <==> sh < |s.locks| && u < |s.threads| && Inside(s.threads[u].pc, sh);
    }
  }

  lemma AccessGuarded(s: System, t: nat, cfg: Config)
    requires Disciplined(s) && Guarded(s) && t < |s.threads|
    ensures Guarded(Access(s, t, cfg))
  {
    hide Step, Listed;
    var pc, s' := s.threads[t].pc, Access(s, t, cfg);
    assert Listed(s, t) && PcOk(s, t);
    if pc.BFree? {
      Releasing(s, t);
    }
    forall sh: nat ensures AnonAt(s', sh, t) <==> sh < |s.locks| && Inside(s'.threads[t].pc, sh) {
      assert AnonAt(s, sh, t) <==> sh < |s.locks| && t < |s.threads| && Inside(s.threads[t].pc, sh);
    }
    StepGuarded(s, s', t);
  }

  lemma Releasing(s: System, t: nat)
    requires Disciplined(s) && t < |s.threads| && s.threads[t].pc.BFree?
    ensures Held(s, t, s.threads[t].pc.at)
  {
    assert Listed(s, t);
    assert s.threads[t].pc.at in Extra(s.threads[t].pc);
  }

  lemma NextGuarded(s: System, a: Action, cfg: Config)
    requires Disciplined(s) && Guarded(s)
    ensures Guarded(Next(s, a, cfg))
  {
    hide Access, Listed, PcOk;
    if a.t < |s.threads| {
      if a.Advance? {
        AccessGuarded(s, a.t, cfg);
      } else {
        var s' := Next(s, a, cfg);
        forall sh: nat ensures AnonAt(s', sh, a.t) <==> sh < |s.locks| && Inside(s'.threads[a.t].pc, sh) {
          assert AnonAt(s, sh, a.t) <==> sh < |s.locks| && a.t < |s.threads| && Inside(s.threads[a.t].pc, sh);
        }
        StepGuarded(s, s', a.t);
      }
    }
  }

  /** In every run a lock names a single operation exactly while that operation is inside. */
  lemma {:induction false} EveryRunGuarded(init: seq<State>, nthreads: nat, acts: seq<Action>, cfg: Config)
    requires Disciplined(Initial(init, nthreads))
    ensures Guarded(RunAll(Initial(init, nthreads), acts, cfg))
    decreases |acts|
  {
    hide Guarded, Disciplined, Next, Initial;
    if acts == [] {
      InitialGuarded(init, nthreads);
    } else {
      EveryRunGuarded(init, nthreads, acts[..|acts| - 1], cfg);
      NextGuarded(RunAll(Initial(init, nthreads), acts[..|acts| - 1], cfg), acts[|acts| - 1], cfg);
    }
  }

  lemma InitialGuarded(init: seq<State>, nthreads: nat)
    ensures Guarded(Initial(init, nthreads))
  {
  }

  /** No lock names an idle thread; when all threads are idle, every shard is free. */
  lemma IdleHoldsNothing(init: seq<State>, nthreads: nat, acts: seq<Action>, cfg: Config)
    requires Disciplined(Initial(init, nthreads))
    ensures var s := RunAll(Initial(init, nthreads), acts, cfg);
            && (forall sh: nat, t: nat :: t < |s.threads| && s.threads[t].pc == Idle ==>
                  !AnonAt(s, sh, t) && !Held(s, t, sh))
            && ((forall t :: 0 <= t < |s.threads| ==> s.threads[t].pc == Idle) ==>
                  forall sh :: 0 <= sh < |s.locks| ==> s.locks[sh] == Free)
  {
    hide RunAll, Initial, Disciplined;
    EveryRunGuarded(init, nthreads, acts, cfg);
    var s := RunAll(Initial(init, nthreads), acts, cfg);
    forall sh: nat, t: nat | t < |s.threads| && s.threads[t].pc == Idle ensures !AnonAt(s, sh, t) && !Held(s, t, sh) {
      IdleUnlocked(s, t, sh);
    }
    if forall t :: 0 <= t < |s.threads| ==> s.threads[t].pc == Idle {
      forall sh | 0 <= sh < |s.locks| ensures s.locks[sh] == Free {
        FreeIfIdle(s, sh);
      }
    }
  }

  lemma FreeIfIdle(s: System, sh: nat)
    requires Disciplined(s) && Guarded(s) && sh < |s.locks|
    requires forall t :: 0 <= t < |s.threads| ==> s.threads[t].pc == Idle
    ensures s.locks[sh] == Free
  {
    hide Guarded, Disciplined;
    if s.locks[sh].Anon? {
      NamesThread(s, sh, s.locks[sh].who);
    } else if s.locks[sh].Owner? {
      NamesThread(s, sh, s.locks[sh].who);
      IdleUnlocked(s, s.locks[sh].who, sh);
    }
  }

  lemma NamesThread(s: System, sh: nat, t: nat)
    requires Guarded(s) && sh < |s.locks| && (s.locks[sh] == Anon(t) || s.locks[sh] == Owner(t))
    ensures t < |s.threads| && (s.locks[sh] == Anon(t) ==> Inside(s.threads[t].pc, sh))
  {
    assert AnonAt(s, sh, t) || Held(s, t, sh);
  }

  lemma IdleUnlocked(s: System, t: nat, sh: nat)
    requires Disciplined(s) && Guarded(s) && t < |s.threads| && s.threads[t].pc == Idle
    ensures !AnonAt(s, sh, t) && !Held(s, t, sh)
  {
    assert Listed(s, t) && PcOk(s, t);
    assert AnonAt(s, sh, t) <==> sh < |s.locks| && t < |s.threads| && Inside(s.threads[t].pc, sh);
  }

  // ----- progress -----

  /** Waiting for a shard that somebody else has. */
  predicate Spinning(s: System, t: nat)
    requires t < |s.threads|
  {
    var pc := s.threads[t].pc;
    (pc.SWait? || pc.BWait?) && pc.c.shard < |s.locks| && s.locks[pc.c.shard] != Free
    && (pc.SWait? || s.locks[pc.c.shard] != Owner(t))
  }

  /** A thread with something to do goes on at its next access, unless another one has the shard it
      wants. */
  lemma GoesOn(s: System, t: nat, cfg: Config)
    requires Disciplined(s) && t < |s.threads| && s.threads[t].pc != Idle && s.threads[t].pc != BOpen
    ensures Access(s, t, cfg).threads[t].pc == s.threads[t].pc <==> Spinning(s, t)
  {
    hide Step;
    assert Listed(s, t) && PcOk(s, t);
    var pc := s.threads[t].pc;
    if pc.BLink? {
      assert pc.c.shard in Extra(pc);
      assert Held(s, t, pc.c.shard);
    } else if pc.BFree? {
      Releasing(s, t);
    } else if pc.BEnd? && pc.cur.Some? {
      assert s.threads[t].chain[0] in s.threads[t].chain;
      assert Held(s, t, s.threads[t].chain[0]);
    } else if pc.BHold? {
      assert Held(s, t, pc.c.shard);
    }
  }

  /** A single operation on a free shard: taken, run and given back in three accesses. */
  lemma SingleCompletes(s: System, t: nat, c: Call, cfg: Config)
    requires Shaped(s) && t < |s.threads| && s.threads[t].pc == Idle && c.shard < |s.data| && s.locks[c.shard] == Free
    ensures var s1 := Next(s, CallSingle(t, c), cfg);
            var s4 := Access(Access(Access(s1, t, cfg), t, cfg), t, cfg);
            var (s', out) := Step(s.data[c.shard], c.ev, cfg);
            && s4.locks == s.locks && s4.threads == s.threads && s4.data == s.data[c.shard := s']
            && s4.hist == s.hist + [[Logged(c, out)]]
  {
    hide Step;
    var s1 := Next(s, CallSingle(t, c), cfg);
    var s2 := Access(s1, t, cfg);
    var s3 := Access(s2, t, cfg);
    var s4 := Access(s3, t, cfg);
    assert s4.threads[t] == s.threads[t];
  }

  lemma RunsOn(s: System, acts: seq<Action>, a: Action, cfg: Config)
    requires Disciplined(s)
    ensures RunAll(s, acts + [a], cfg) == Next(RunAll(s, acts, cfg), a, cfg)
  {
    assert (acts + [a])[..|acts|] == acts;
  }

  /** So it is from every reachable state in which the thread is idle and the shard is free. */
  lemma SingleRuns(init: seq<State>, nthreads: nat, acts: seq<Action>, t: nat, c: Call, cfg: Config)
    requires Disciplined(Initial(init, nthreads))
    requires var s := RunAll(Initial(init, nthreads), acts, cfg);
             t < |s.threads| && s.threads[t].pc == Idle && c.shard < |s.data| && s.locks[c.shard] == Free
    ensures var s := RunAll(Initial(init, nthreads), acts, cfg);
            var more := acts + [CallSingle(t, c)] + [Advance(t)] + [Advance(t)] + [Advance(t)];
            var s4 := RunAll(Initial(init, nthreads), more, cfg);
            && s4.locks == s.locks && s4.threads == s.threads
            && s4.data == s.data[c.shard := Step(s.data[c.shard], c.ev, cfg).0]
  {
    hide Step, Disciplined, Initial, RunAll;
    var s0, a := Initial(init, nthreads), Advance(t);
    var s, acts1 := RunAll(s0, acts, cfg), acts + [CallSingle(t, c)];
    IsShaped(s);
    RunsOn(s0, acts, CallSingle(t, c), cfg);
    RunsOn(s0, acts1, a, cfg);
    RunsOn(s0, acts1 + [a], a, cfg);
    RunsOn(s0, acts1 + [a] + [a], a, cfg);
    SingleCompletes(s, t, c, cfg);
  }

  /** A call of a batch on a free shard: taken, linked and run in four accesses, and kept. */
  lemma BatchCallCompletes(s: System, t: nat, c: Call, cfg: Config)
    requires Shaped(s) && t < |s.threads| && s.threads[t].pc == BOpen && c.shard < |s.data| && s.locks[c.shard] == Free
    ensures var s1 := Next(s, CallBatch(t, c), cfg);
            var s5 := Access(Access(Access(Access(s1, t, cfg), t, cfg), t, cfg), t, cfg);
            var (s', out) := Step(s.data[c.shard], c.ev, cfg);
            var th := s.threads[t];
            && s5.locks == s.locks[c.shard := Owner(t)] && s5.data == s.data[c.shard := s'] && s5.hist == s.hist
            && s5.threads ==
                 s.threads[t := Thread(BOpen, Some(c.shard), [c.shard] + th.chain, th.log + [Logged(c, out)])]
  {
    hide Step;
    var s1 := Next(s, CallBatch(t, c), cfg);
    var s2 := Access(s1, t, cfg);
    var s3 := Access(s2, t, cfg);
    var s4 := Access(s3, t, cfg);
    var s5 := Access(s4, t, cfg);
    assert s4.data[c.shard] == s.data[c.shard];
  }

  /** A further call on a shard the batch has already: two accesses, and nothing is linked again. */
  lemma BatchCallAgain(s: System, t: nat, c: Call, cfg: Config)
    requires Shaped(s) && t < |s.threads| && s.threads[t].pc == BOpen && c.shard < |s.data|
    requires s.locks[c.shard] == Owner(t)
    ensures var s1 := Next(s, CallBatch(t, c), cfg);
            var s3 := Access(Access(s1, t, cfg), t, cfg);
            var (s', out) := Step(s.data[c.shard], c.ev, cfg);
            && s3.locks == s.locks && s3.next == s.next && s3.data == s.data[c.shard := s'] && s3.hist == s.hist
            && s3.threads == s.threads[t := s.threads[t].(log := s.threads[t].log + [Logged(c, out)])]
  {
    hide Step;
    var s1 := Next(s, CallBatch(t, c), cfg);
    var s2 := Access(s1, t, cfg);
    var s3 := Access(s2, t, cfg);
    assert s2.data[c.shard] == s.data[c.shard];
  }

  /** A batch opens empty, and its end commits what it has logged. */
  lemma BeginAndEnd(s: System, t: nat, cfg: Config)
    requires Shaped(s) && t < |s.threads|
    ensures s.threads[t].pc == Idle ==>
              Next(s, Begin(t), cfg) == s.(threads := s.threads[t := Thread(BOpen, None, [], [])])
    ensures s.threads[t].pc == BOpen ==>
              var s' := Next(s, End(t), cfg);
              && s'.hist == s.hist + [s.threads[t].log] && s'.threads[t].pc.BEnd?
              && s'.threads[t].chain == s.threads[t].chain && s'.locks == s.locks && s'.data == s.data
  {
  }

  /** `n` accesses of one thread in a row. */
  function Accesses(s: System, t: nat, n: nat, cfg: Config): (r: System)
    requires t < |s.threads| && Disciplined(s)
    ensures Disciplined(r) && |r.threads| == |s.threads|
    decreases n
  {
    if n == 0 then s
    else
      NextDisciplined(s, Advance(t), cfg);
      Accesses(Access(s, t, cfg), t, n - 1, cfg)
  }

  lemma AccessesStep(s: System, t: nat, n: nat, cfg: Config)
    requires t < |s.threads| && Disciplined(s) && n > 0
    ensures Disciplined(Access(s, t, cfg)) && |Access(s, t, cfg).threads| == |s.threads|
    ensures Accesses(s, t, n, cfg) == Accesses(Access(s, t, cfg), t, n - 1, cfg)
  {
    hide Disciplined, Access;
    IsShaped(s);
    NextDisciplined(s, Advance(t), cfg);
    assert Next(s, Advance(t), cfg) == Access(s, t, cfg);
    SameThreads(s, t, cfg);
  }

  lemma IsShaped(s: System)
    requires Disciplined(s)
    ensures Shaped(s)
  {
  }

  lemma SameThreads(s: System, t: nat, cfg: Config)
    requires t < |s.threads| && Shaped(s)
    ensures |Access(s, t, cfg).threads| == |s.threads|
  {
    hide Step;
  }

  /** The release loop gives back every shard of the batch: two accesses for each, and one to leave. */
  lemma {:induction false} EndReleases(s: System, t: nat, cfg: Config)
    requires Disciplined(s) && Guarded(s) && t < |s.threads| && s.threads[t].pc.BEnd?
    ensures var s' := Accesses(s, t, 2 * |s.threads[t].chain| + 1, cfg);
            && s'.threads[t].pc == Idle && s'.data == s.data && s'.hist == s.hist
            && (forall u :: 0 <= u < |s.threads| && u != t ==> s'.threads[u] == s.threads[u])
            && |s'.locks| == |s.locks|
            && forall sh :: 0 <= sh < |s.locks| ==>
                 s'.locks[sh] == if Held(s, t, sh) then Free else s.locks[sh]
    decreases |s.threads[t].chain|
  {
    hide Step, Disciplined, Guarded, Accesses, Access;
    var n := |s.threads[t].chain|;
    IsShaped(s);
    AccessesStep(s, t, 2 * n + 1, cfg);
    var s1 := Access(s, t, cfg);
    AccessGuarded(s, t, cfg);
    EndStep(s, t, cfg);
    if n > 0 {
      IsShaped(s1);
      AccessesStep(s1, t, 2 * n, cfg);
      AccessGuarded(s1, t, cfg);
      FreeStep(s1, t, cfg);
      EndReleases(Access(s1, t, cfg), t, cfg);
    } else {
      AccessesNone(s1, t, cfg);
    }
  }

  lemma AccessesNone(s: System, t: nat, cfg: Config)
    requires t < |s.threads| && Disciplined(s)
    ensures Accesses(s, t, 0, cfg) == s
  {
  }

  /** The first half of a pass of the release loop, or its exit. */
  lemma EndStep(s: System, t: nat, cfg: Config)
    requires Disciplined(s) && t < |s.threads| && s.threads[t].pc.BEnd?
    ensures var s', th := Access(s, t, cfg), s.threads[t];
            && s'.data == s.data && s'.hist == s.hist && s'.locks == s.locks && |s'.threads| == |s.threads|
            && (forall u :: 0 <= u < |s.threads| && u != t ==> s'.threads[u] == s.threads[u])
            && (th.chain == [] ==> s'.threads[t].pc == Idle && forall sh: nat :: !Held(s, t, sh))
            && (th.chain != [] ==> s'.threads[t].pc.BFree? && s'.threads[t].chain == th.chain[1..])
  {
    hide Step;
    assert Listed(s, t);
    if s.threads[t].chain != [] {
      assert LinkAt(s.next, s.threads[t].chain, 0);
    }
  }

  lemma FreeStep(s: System, t: nat, cfg: Config)
    requires Disciplined(s) && t < |s.threads| && s.threads[t].pc.BFree?
    ensures var s', at := Access(s, t, cfg), s.threads[t].pc.at;
            && Held(s, t, at) && s'.locks == s.locks[at := Free]
            && s'.data == s.data && s'.hist == s.hist && |s'.threads| == |s.threads|
            && s'.threads[t].pc.BEnd? && s'.threads[t].chain == s.threads[t].chain
            && (forall u :: 0 <= u < |s.threads| && u != t ==> s'.threads[u] == s.threads[u])
  {
    hide Step;
    Releasing(s, t);
  }

  // ----- what a call does -----

  /** A call of any kind does to the visible entries of its shard what the flat map does, returns what it
      returns, and leaves the other shards alone. */
  lemma CallRefines(d: seq<State>, c: Call, cfg: Config)
    requires c.shard < |d| && d[c.shard].cleartime <= c.ev.now && NoEviction([c.ev])
    ensures var (d', out) := RunCall(d, c, cfg);
            && |d'| == |d| && (forall x :: 0 <= x < |d| && x != c.shard ==> d'[x] == d[x])
            && (View(d'[c.shard], c.ev.now), out) == FlatStep(View(d[c.shard], c.ev.now), c.ev, cfg)
  {
    hide Step, FlatStep, View;
    StepRefines(d[c.shard], c.ev.now, c.ev, cfg);
  }

  /** What each kind of call leaves visible of its shard. */
  lemma CallMeans(d: seq<State>, c: Call, cfg: Config)
    requires c.shard < |d| && d[c.shard].cleartime <= c.ev.now && NoEviction([c.ev])
    ensures var (d', out) := RunCall(d, c, cfg);
            var v, v' := View(d[c.shard], c.ev.now).v, View(d'[c.shard], c.ev.now).v;
            match c.ev.op
            case DoStore(k, val, _, _, _) =>
              && (forall x :: x != k ==> (x in v' <==> x in v) && (x in v ==> v'[x] == v[x]))
              && (out.status != Replaced && out.status != Inserted ==> v' == v)
              && ((out.status == Replaced || out.status == Inserted) && k in v' ==> v'[k].val == val)
            case DoLoad(k, _, _) =>
              && (forall x :: x != k ==> (x in v' <==> x in v) && (x in v ==> v'[x] == v[x]))
              && out.seen == (if k in v then Some(v[k]) else None)
            case DoDelete(k, _) => v' == (if out.status == Deleted then v - {k} else v)
            case DoClear => forall x :: x in v' <==> x in v && v[x].time >= c.ev.now
            case DoSweep => v' == v
            case DoIter(chosen) => v' == v - chosen
  {
    hide Store, Load, Delete, Sweep, Clear, IterDrop, Living;
    var s, now := d[c.shard], c.ev.now;
    assert [c.ev][0] == c.ev;
    match c.ev.op
    case DoStore(k, val, o, nomem, _) =>
      StoreMeans(s, k, val, o, now, cfg, nomem);
      StoredIsSeen(s, k, val, o, now, cfg, nomem);
    case DoLoad(k, o, nomem) => LoadMeans(s, k, o, now, cfg, nomem);
    case DoDelete(k, o) => DeleteMeans(s, k, o, now);
    case DoClear => ClearRefines(s, now);
    case DoSweep => SweepRefines(s, now);
    case DoIter(chosen) => IterRefines(s, chosen, now);
  }

  lemma StoredIsSeen(s: State, k: Bytes, val: Bytes, o: StoreOpts, now: int, c: Config, nomem: bool)
    ensures var (s', _) := Store(s, k, val, o, now, c, nomem, None);
            var v' := View(s', now).v; k in v' ==> k in s'.m && v'[k] == s'.m[k]
  {
    hide Store;
  }
}
