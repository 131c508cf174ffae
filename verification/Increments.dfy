/**
 Counters (execINCRDECR in src/cmds.c) among arbitrary other traffic: the increments of a key are
 batches of a load and a store; everything else that commits may do what it likes, as long as it
 does not write that key.
 */
module Increments {
  import opened Common
  import opened CacheSpec
  import opened CacheRuns
  import opened Batch
  import opened BatchAtomic

  /** How a counter is written in a value. */
  type Number = Bytes -> int

  /** What the load of an increment found, 0 for a counter that is not there. */
  function Base(log: seq<Logged>, num: Number): int
    requires log != []
  {
    if log[0].out.seen.Some? then num(log[0].out.seen.value.val) else 0
  }

  /** The batch of a successful increment: load the counter, store the sum with the same expiry.  The
      store may be the first one of the key, and it may make room by evicting an entry. */
  ghost predicate Increment(log: seq<Logged>, sh: nat, k: Bytes, delta: int, num: Number) {
    && |log| == 2 && log[0].call.shard == sh && log[1].call.shard == sh
    && var load, store := log[0].call.ev, log[1].call.ev;
    && load.op.DoLoad? && load.op.key == k && load.op.lo.visit == None
    && store.op.DoStore? && store.op.key == k
    && !store.op.so.keepttl && store.op.so.ttl == 0
    && store.op.so.expires == (if log[0].out.seen.Some? then log[0].out.seen.value.expires else 0)
    && (log[1].out.status == Replaced || log[1].out.status == Inserted)
    && num(store.op.val) == Base(log, num) + delta
  }

  /** A call that does not write `k`: it is about another shard or key, or it only reads `k`, or it was
      refused.  Entries that are dead may be removed by it. */
  predicate Spares(l: Logged, sh: nat, k: Bytes) {
    l.call.shard != sh ||
    match l.call.ev.op
    case DoStore(key, _, _, _, victim) =>
      victim != Some(k) && (key != k || (l.out.status != Inserted && l.out.status != Replaced))
    case DoLoad(key, lo, nomem) =>
      key != k || lo.visit == None || nomem || (l.out.seen.Some? ==> lo.visit.value(l.out.seen.value) == None)
    case DoDelete(key, _) => key != k || l.out.status != Deleted
    case DoClear => true
    case DoSweep => true
    case DoIter(chosen) => k !in chosen
  }

  ghost predicate SparesAll(log: seq<Logged>, sh: nat, k: Bytes) {
    forall i :: 0 <= i < |log| ==> Spares(log[i], sh, k)
  }

  /** A committed transaction is an increment by `kind.value`, or it does not write the counter. */
  ghost predicate Allowed(log: seq<Logged>, sh: nat, k: Bytes, kind: Option<int>, num: Number) {
    match kind
    case Some(delta) => Increment(log, sh, k, delta, num)
    case None => SparesAll(log, sh, k)
  }

  ghost predicate AllAllowed(hist: seq<seq<Logged>>, sh: nat, k: Bytes, kinds: seq<Option<int>>, num: Number) {
    |kinds| == |hist| && forall i :: 0 <= i < |hist| ==> Allowed(hist[i], sh, k, kinds[i], num)
  }

  /** A call evicts only what auto_evict_entry can choose, as Shards.Shard.StoreOp ensures. */
  predicate Fair(s: State, ev: Event, cfg: Config) {
    ev.op.DoStore? ==> FairVictim(s, ev.op.key, ev.op.val, ev.op.so, ev.now, cfg, ev.op.victim)
  }

  ghost predicate FairLog(d: seq<State>, log: seq<Logged>, cfg: Config)
    requires Addressed(log, |d|)
  {
    log == [] ||
    var n := |log| - 1;
    FairLog(d, log[..n], cfg) && Fair(Exec(d, log[..n], cfg)[log[n].call.shard], log[n].call.ev, cfg)
  }

  ghost predicate FairHistory(init: seq<State>, hist: seq<seq<Logged>>, cfg: Config) {
    hist == [] ||
    var n := |hist| - 1;
    && FairHistory(init, hist[..n], cfg) && AllAddressed(hist, |init|)
    && FairLog(Serial(init, hist[..n], cfg), hist[n], cfg)
  }

  // ----- one transaction -----

  /** A call that spares `k` leaves its value and expiry, or removes it if it is dead. */
  ghost predicate Spared(s: State, s': State, ev: Event, k: Bytes) {
    && (k in s'.m ==> k in s.m && s'.m[k].val == s.m[k].val && s'.m[k].expires == s.m[k].expires
                      && (s'.m[k].time == s.m[k].time || s'.m[k].time == ev.now))
    && (k in s.m && k !in s'.m ==> Life(s.m[k], ev.now, s.cleartime) != Alive)
    && (!ev.op.DoClear? ==> s'.cleartime == s.cleartime)
  }

  lemma StoreSpares(s: State, l: Logged, k: Bytes, cfg: Config)
    requires l.call.ev.op.DoStore? && l.out == Step(s, l.call.ev, cfg).1 && Spares(l, l.call.shard, k)
    ensures Spared(s, Step(s, l.call.ev, cfg).0, l.call.ev, k)
  {
    hide StoreExpires, Judge;
  }

  lemma LoadSpares(s: State, l: Logged, k: Bytes, cfg: Config)
    requires l.call.ev.op.DoLoad? && l.out == Step(s, l.call.ev, cfg).1 && Spares(l, l.call.shard, k)
    ensures Spared(s, Step(s, l.call.ev, cfg).0, l.call.ev, k)
  {
  }

  lemma CallSpares(s: State, l: Logged, k: Bytes, cfg: Config)
    requires l.out == Step(s, l.call.ev, cfg).1 && Spares(l, l.call.shard, k)
    ensures Spared(s, Step(s, l.call.ev, cfg).0, l.call.ev, k)
  {
    hide Store, Load;
    match l.call.ev.op
    case DoStore(_, _, _, _, _) => StoreSpares(s, l, k, cfg);
    case DoLoad(_, _, _) => LoadSpares(s, l, k, cfg);
    case _ =>
  }

  /** A call spares `k` exactly if it leaves the live entry of `k` its version. */
  lemma SparesIff(s: State, l: Logged, k: Bytes, cfg: Config)
    requires l.out == Step(s, l.call.ev, cfg).1 && cfg.usecas && k in s.m && s.m[k].cas <= s.cas
    requires Life(s.m[k], l.call.ev.now, s.cleartime) == Alive
    requires l.call.ev.op.DoStore? && l.call.ev.op.victim.Some? ==> l.out.status == Inserted
    ensures var s' := Step(s, l.call.ev, cfg).0;
            Spares(l, l.call.shard, k) <==> k in s'.m && s'.m[k].cas == s.m[k].cas
  {
    hide StoreExpires, AddClamp;
  }

  /** The value of the counter, for a shard that has it. */
  ghost predicate Shows(s: State, k: Bytes, v: int, num: Number) {
    k in s.m ==> num(s.m[k].val) == v
  }

  /** A counter that cannot die: it has no expiry, and no clear is ahead of it. */
  ghost predicate Steady(s: State, k: Bytes, cleartime: int) {
    s.cleartime == cleartime && (k in s.m ==> s.m[k].expires == 0 && s.m[k].time >= cleartime)
  }

  /** No clear of the shard, and no call before the last one. */
  ghost predicate Calm(log: seq<Logged>, sh: nat, cleartime: int) {
    forall i :: 0 <= i < |log| && log[i].call.shard == sh ==>
      !log[i].call.ev.op.DoClear? && log[i].call.ev.now >= cleartime
  }

  /** Running a log call by call. */
  lemma ExecStep(d: seq<State>, log: seq<Logged>, cfg: Config)
    requires log != [] && Addressed(log, |d|)
    ensures var n := |log| - 1;
            && Addressed(log[..n], |d|)
            && Exec(d, log, cfg) == RunCall(Exec(d, log[..n], cfg), log[n].call, cfg).0
            && (Faithful(d, log, cfg) ==>
                  Faithful(d, log[..n], cfg) && log[n].out == RunCall(Exec(d, log[..n], cfg), log[n].call, cfg).1)
  {
  }

  lemma {:induction false} LogSpares(d: seq<State>, log: seq<Logged>, sh: nat, k: Bytes, cfg: Config)
    requires sh < |d| && Addressed(log, |d|) && Faithful(d, log, cfg) && SparesAll(log, sh, k)
    ensures var s, s' := d[sh], Exec(d, log, cfg)[sh];
            k in s'.m ==> k in s.m && s'.m[k].val == s.m[k].val
    decreases |log|
  {
    hide Step, Exec, Faithful, Spares;
    ExecNothing(d, cfg);
    if log != [] {
      var n := |log| - 1;
      ExecStep(d, log, cfg);
      LogSpares(d, log[..n], sh, k, cfg);
      if log[n].call.shard == sh {
        CallSpares(Exec(d, log[..n], cfg)[sh], log[n], k, cfg);
      }
    }
  }

  lemma {:induction false} LogSteady(d: seq<State>, log: seq<Logged>, sh: nat, k: Bytes, ct: int, cfg: Config)
    requires sh < |d| && Addressed(log, |d|) && Faithful(d, log, cfg) && SparesAll(log, sh, k)
    requires Steady(d[sh], k, ct) && Calm(log, sh, ct)
    ensures var s' := Exec(d, log, cfg)[sh]; Steady(s', k, ct) && (k in s'.m <==> k in d[sh].m)
    decreases |log|
  {
    hide Step, Exec, Faithful, Spares;
    ExecNothing(d, cfg);
    if log != [] {
      var n := |log| - 1;
      ExecStep(d, log, cfg);
      LogSteady(d, log[..n], sh, k, ct, cfg);
      if log[n].call.shard == sh {
        CallSpares(Exec(d, log[..n], cfg)[sh], log[n], k, cfg);
      }
    }
  }

  lemma LoadFinds(s: State, ev: Event, cfg: Config)
    requires ev.op.DoLoad? && ev.op.lo.visit == None
    ensures var k, (s', out) := ev.op.key, Step(s, ev, cfg);
            && s'.cleartime == s.cleartime
            && (out.seen.Some? <==> k in s.m && Life(s.m[k], ev.now, s.cleartime) == Alive)
            && (out.seen.Some? ==> out.seen.value == s.m[k])
            && (out.seen.None? ==> k !in s'.m)
  {
  }

  lemma StorePuts(s: State, ev: Event, cfg: Config)
    requires ev.op.DoStore? && Fair(s, ev, cfg) && !ev.op.so.keepttl && ev.op.so.ttl == 0
    ensures var k, (s', out) := ev.op.key, Step(s, ev, cfg);
            var expires := if ev.op.so.expires > 0 then ev.op.so.expires else 0;
            (out.status == Replaced || out.status == Inserted) ==>
              && s'.cleartime == s.cleartime
              && (k in s'.m ==> s'.m[k].val == ev.op.val && s'.m[k].time == ev.now && s'.m[k].expires == expires)
              && (k !in s'.m ==> ev.now < s.cleartime || 0 < expires <= ev.now)
  {
  }

  /** What an increment leaves behind: the value it found plus its delta, unless the counter was dead
      when it was stored. */
  lemma IncrementAdds(d: seq<State>, log: seq<Logged>, sh: nat, k: Bytes, delta: int, num: Number, cfg: Config)
    requires sh < |d| && Addressed(log, |d|) && Faithful(d, log, cfg) && FairLog(d, log, cfg)
    requires Increment(log, sh, k, delta, num)
    ensures var s, s', found, now := d[sh], Exec(d, log, cfg)[sh], log[0].out.seen.Some?, log[1].call.ev.now;
            && (k in s'.m ==> num(s'.m[k].val) == Base(log, num) + delta && s'.m[k].time == now)
            && (found ==> k in s.m && Base(log, num) == num(s.m[k].val))
            && (!found ==> k !in s.m || Life(s.m[k], log[0].call.ev.now, s.cleartime) != Alive)
            && (k in s'.m && found && s.m[k].expires > 0 ==> s'.m[k].expires == s.m[k].expires)
            && ((found ==> s.m[k].expires == 0) ==>
                  (k in s'.m ==> s'.m[k].expires == 0) && (now >= s.cleartime ==> k in s'.m))
            && s'.cleartime == s.cleartime
  {
    hide Exec, Faithful, Step, Fair;
    var l0, l1 := log[0], log[1];
    assert log == ([] + [l0]) + [l1];
    ExecNothing(d, cfg);
    ExecAppend(d, [], l0, cfg);
    ExecAppend(d, [] + [l0], l1, cfg);
    assert log[..1] == [] + [l0];
    LoadFinds(d[sh], l0.call.ev, cfg);
    StorePuts(Exec(d, [] + [l0], cfg)[sh], l1.call.ev, cfg);
  }

  // ----- whole histories -----

  /** The value a history gives the counter: every increment adds its delta, and one that finds no
      counter starts again from zero. */
  ghost function Tally(v: int, hist: seq<seq<Logged>>, kinds: seq<Option<int>>): int
    requires |kinds| == |hist| && forall i :: 0 <= i < |hist| && kinds[i].Some? ==> hist[i] != []
  {
    if hist == [] then v
    else
      var n := |hist| - 1;
      var before := Tally(v, hist[..n], kinds[..n]);
      match kinds[n]
      case None => before
      case Some(delta) => if hist[n][0].out.seen.Some? then before + delta else delta
  }

  /** The value at the start, 0 for a counter that is not there. */
  ghost function Initially(s: State, k: Bytes, num: Number): int {
    if k in s.m then num(s.m[k].val) else 0
  }

  lemma AllowedPrefix(hist: seq<seq<Logged>>, sh: nat, k: Bytes, kinds: seq<Option<int>>, num: Number)
    requires AllAllowed(hist, sh, k, kinds, num) && hist != []
    ensures var n := |hist| - 1;
            AllAllowed(hist[..n], sh, k, kinds[..n], num) && Allowed(hist[n], sh, k, kinds[n], num)
  {
    hide Allowed;
  }

  /** No increment is lost: in a serial history whose other transactions do not write the counter, the
      counter ends with the tally of its increments. */
  lemma {:induction false} NoLostUpdate(init: seq<State>, hist: seq<seq<Logged>>, sh: nat, k: Bytes,
                                        kinds: seq<Option<int>>, num: Number, cfg: Config)
    requires AllAddressed(hist, |init|) && SerialFaithful(init, hist, cfg) && sh < |init|
    requires FairHistory(init, hist, cfg)
    requires AllAllowed(hist, sh, k, kinds, num)
    ensures Shows(Serial(init, hist, cfg)[sh], k, Tally(Initially(init[sh], k, num), hist, kinds), num)
    decreases |hist|
  {
    hide Exec, Faithful, Increment, SparesAll, FairLog;
    if hist != [] {
      var n := |hist| - 1;
      AllowedPrefix(hist, sh, k, kinds, num);
      NoLostUpdate(init, hist[..n], sh, k, kinds[..n], num, cfg);
      var d := Serial(init, hist[..n], cfg);
      match kinds[n]
      case Some(delta) => IncrementAdds(d, hist[n], sh, k, delta, num, cfg);
      case None => LogSpares(d, hist[n], sh, k, cfg);
    }
  }

  ghost function Sum(kinds: seq<Option<int>>): int {
    if kinds == [] then 0
    else Sum(kinds[..|kinds| - 1]) + if kinds[|kinds| - 1].Some? then kinds[|kinds| - 1].value else 0
  }

  ghost predicate SomeIncrement(kinds: seq<Option<int>>) {
    exists i :: 0 <= i < |kinds| && kinds[i].Some?
  }

  ghost predicate AllCalm(hist: seq<seq<Logged>>, sh: nat, ct: int) {
    forall i :: 0 <= i < |hist| ==> Calm(hist[i], sh, ct)
  }

  /** A counter without expiry, or one that does not exist yet, in a shard that is not cleared: it is
      there from the first increment on, and its value is the initial one plus the sum of all
      increments. */
  lemma {:induction false} SteadyCounter(init: seq<State>, hist: seq<seq<Logged>>, sh: nat, k: Bytes,
                                         kinds: seq<Option<int>>, num: Number, ct: int, cfg: Config)
    requires AllAddressed(hist, |init|) && SerialFaithful(init, hist, cfg) && sh < |init|
    requires FairHistory(init, hist, cfg)
    requires AllAllowed(hist, sh, k, kinds, num) && Steady(init[sh], k, ct) && AllCalm(hist, sh, ct)
    ensures var s := Serial(init, hist, cfg)[sh];
            && Steady(s, k, ct)
            && (k in s.m <==> k in init[sh].m || SomeIncrement(kinds))
            && (k in s.m ==> num(s.m[k].val) == Initially(init[sh], k, num) + Sum(kinds))
            && (k !in s.m ==> Sum(kinds) == 0)
    decreases |hist|
  {
    hide Exec, Faithful, Increment, SparesAll, Calm, FairLog;
    if hist != [] {
      var n := |hist| - 1;
      AllowedPrefix(hist, sh, k, kinds, num);
      SteadyCounter(init, hist[..n], sh, k, kinds[..n], num, ct, cfg);
      SomeIncrementStep(kinds);
      var d := Serial(init, hist[..n], cfg);
      match kinds[n]
      case Some(delta) =>
        IncrementAdds(d, hist[n], sh, k, delta, num, cfg);
        CalmIncrement(hist[n], sh, k, delta, num, ct);
      case None =>
        LogSpares(d, hist[n], sh, k, cfg);
        LogSteady(d, hist[n], sh, k, ct, cfg);
    }
  }

  lemma SomeIncrementStep(kinds: seq<Option<int>>)
    requires kinds != []
    ensures SomeIncrement(kinds) <==> SomeIncrement(kinds[..|kinds| - 1]) || kinds[|kinds| - 1].Some?
  {
    var n := |kinds| - 1;
    if SomeIncrement(kinds[..n]) {
      var i :| 0 <= i < n && kinds[..n][i].Some?;
      assert kinds[i].Some?;
    }
    if i :| 0 <= i < |kinds| && kinds[i].Some? {
      assert i < n ==> kinds[..n][i].Some?;
    }
  }

  lemma CalmIncrement(log: seq<Logged>, sh: nat, k: Bytes, delta: int, num: Number, ct: int)
    requires Increment(log, sh, k, delta, num) && Calm(log, sh, ct)
    ensures log[0].call.ev.now >= ct && log[1].call.ev.now >= ct
  {
  }

  // ----- whole runs -----

  /** No increment is lost in any run of any number of threads, at any moment: the committed value of
      the counter is the tally of the increments committed so far. */
  lemma ConcurrentIncrements(init: seq<State>, nthreads: nat, acts: seq<Action>, sh: nat, k: Bytes,
                             kinds: seq<Option<int>>, num: Number, cfg: Config)
    requires Disciplined(Initial(init, nthreads)) && sh < |init|
    requires var hist := RunAll(Initial(init, nthreads), acts, cfg).hist;
             AllAllowed(hist, sh, k, kinds, num) && FairHistory(init, hist, cfg)
    ensures var s := RunAll(Initial(init, nthreads), acts, cfg);
            |s.data| == |init| && Shows(Committed(s)[sh], k, Tally(Initially(init[sh], k, num), s.hist, kinds), num)
  {
    hide RunAll, Initial, Serial, SerialFaithful, AllAllowed, Shows, Mirrors, FairHistory;
    EveryRunSerial(init, nthreads, acts, cfg);
    NoLostUpdate(init, RunAll(Initial(init, nthreads), acts, cfg).hist, sh, k, kinds, num, cfg);
  }

  /** For a counter that cannot die that is the initial value plus the sum of all increments. */
  lemma ConcurrentSum(init: seq<State>, nthreads: nat, acts: seq<Action>, sh: nat, k: Bytes,
                      kinds: seq<Option<int>>, num: Number, ct: int, cfg: Config)
    requires Disciplined(Initial(init, nthreads)) && sh < |init| && Steady(init[sh], k, ct)
    requires var hist := RunAll(Initial(init, nthreads), acts, cfg).hist;
             AllAllowed(hist, sh, k, kinds, num) && FairHistory(init, hist, cfg) && AllCalm(hist, sh, ct)
    ensures var s := RunAll(Initial(init, nthreads), acts, cfg);
            && |s.data| == |init|
            && var c := Committed(s)[sh];
               && (k in c.m <==> k in init[sh].m || SomeIncrement(kinds))
               && (k in c.m ==> num(c.m[k].val) == Initially(init[sh], k, num) + Sum(kinds))
  {
    hide RunAll, Initial, Serial, SerialFaithful, AllAllowed, AllCalm, Mirrors, FairHistory;
    EveryRunSerial(init, nthreads, acts, cfg);
    SteadyCounter(init, RunAll(Initial(init, nthreads), acts, cfg).hist, sh, k, kinds, num, ct, cfg);
  }
}
