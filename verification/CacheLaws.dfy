/**
 Two laws over whole runs of a shard, low-memory evictions included: versions are never
 reused, so compare-and-store is safe, and the clear count stays exact.
 */
module CacheLaws {
  import opened Common
  import opened CacheSpec
  import opened CacheRuns

  // ----- compare-and-store -----

  /** Stored versions are distinct and none is ahead of the shard's counter. */
  ghost predicate Versioned(s: State) {
    && (forall k :: k in s.m ==> s.m[k].cas <= s.cas)
    && (forall j, k :: j in s.m && k in s.m && j != k ==> s.m[j].cas != s.m[k].cas)
  }

  /** The entry of `k` in `s'` is the very version it was in `s`: same value, flags and expiry. */
  ghost predicate SameVersion(s: State, s': State, k: Bytes) {
    k in s.m && k in s'.m && s'.m[k] == s.m[k].(time := s'.m[k].time)
  }

  /** A step keeps entries (up to their access time), drops them, or stamps the key `w` afresh. */
  ghost predicate Stamped(s: State, s': State, w: Option<Bytes>) {
    && s.cas <= s'.cas
    && (forall k :: k in s'.m ==> SameVersion(s, s', k) || (w == Some(k) && s'.m[k].cas == s'.cas == s.cas + 1))
  }

  lemma StepStamps(s: State, ev: Event, c: Config) returns (w: Option<Bytes>)
    requires c.usecas
    ensures Stamped(s, Step(s, ev, c).0, w)
  {
    hide Judge, StoreExpires, Life, AddClamp;
    match ev.op
    case DoStore(key, val, o, nomem, victim) => w := Some(key);
    case DoLoad(key, o, nomem) => w := Some(key);
    case DoDelete(key, o) => w := None;
    case DoClear => w := None;
    case DoSweep => w := None;
    case DoIter(chosen) => w := None;
  }

  /** `k` no longer carries version `v`, and every later version is newer. */
  ghost predicate Moved(s: State, k: Bytes, v: nat) {
    v <= s.cas && (k in s.m ==> s.m[k].cas != v)
  }

  lemma {:induction false} NeverAgain(s: State, evs: seq<Event>, c: Config, k: Bytes, v: nat)
    requires c.usecas && Moved(s, k, v)
    ensures Moved(Run(s, evs, c).0, k, v)
    decreases |evs|
  {
    hide Step;
    if evs != [] {
      var w := StepStamps(s, evs[0], c);
      NeverAgain(Step(s, evs[0], c).0, evs[1..], c, k, v);
    }
  }

  lemma {:induction false} VersionsStay(s: State, evs: seq<Event>, c: Config)
    requires c.usecas && Versioned(s)
    ensures Versioned(Run(s, evs, c).0) && s.cas <= Run(s, evs, c).0.cas
    decreases |evs|
  {
    hide Step;
    if evs != [] {
      var w := StepStamps(s, evs[0], c);
      VersionsStay(Step(s, evs[0], c).0, evs[1..], c);
    }
  }

  lemma {:induction false} RunSplit(s: State, evs: seq<Event>, j: nat, c: Config)
    requires j <= |evs|
    ensures Run(s, evs, c).0 == Run(Run(s, evs[..j], c).0, evs[j..], c).0
    decreases |evs|
  {
    hide Step;
    if j == 0 {
      assert evs[0..] == evs;
    } else {
      assert evs[..j][0] == evs[0] && evs[..j][1..] == evs[1..][..j - 1];
      assert evs[1..][j - 1..] == evs[j..];
      RunSplit(Step(s, evs[0], c).0, evs[1..], j - 1, c);
    }
  }

  /** CAS safety: a run after which `k` still carries the version it started with never wrote or
      removed `k`; at every intermediate point the entry was that version. */
  lemma {:induction false} CasUnwritten(s: State, evs: seq<Event>, c: Config, k: Bytes, j: nat)
    requires c.usecas && Versioned(s) && k in s.m && j <= |evs|
    requires var s' := Run(s, evs, c).0; k in s'.m && s'.m[k].cas == s.m[k].cas
    ensures SameVersion(s, Run(s, evs[..j], c).0, k)
    decreases j
  {
    hide Step;
    if j > 0 {
      CasUnwritten(s, evs, c, k, j - 1);
      var before, ev := Run(s, evs[..j - 1], c).0, evs[j - 1];
      VersionsStay(s, evs[..j - 1], c);
      RunSplit(s, evs[..j], j - 1, c);
      assert evs[..j][..j - 1] == evs[..j - 1] && evs[..j][j - 1..] == [ev];
      assert Run(before, [ev], c).0 == Step(before, ev, c).0 by { assert [ev][1..] == []; }
      var after := Step(before, ev, c).0;
      var w := StepStamps(before, ev, c);
      RunSplit(s, evs, j, c);
      if !SameVersion(before, after, k) {
        assert Moved(after, k, s.m[k].cas);
        NeverAgain(after, evs[j..], c, k, s.m[k].cas);
      }
    } else {
      assert evs[..0] == [];
    }
  }

  /** A compare-and-store that succeeds with the version read from `s` overwrites that version:
      no store, update or delete of the key took effect in between. */
  lemma CasStoreSafe(s: State, evs: seq<Event>, c: Config, k: Bytes, val: Bytes, o: StoreOpts, now: int, j: nat)
    requires c.usecas && Versioned(s) && k in s.m && j <= |evs|
    requires o.casop && o.cas == s.m[k].cas
    requires Store(Run(s, evs, c).0, k, val, o, now, c, false, None).1 == Replaced
    ensures SameVersion(s, Run(s, evs[..j], c).0, k)
    ensures SameVersion(s, Run(s, evs, c).0, k)
  {
    hide Run;
    CasUnwritten(s, evs, c, k, j);
    CasUnwritten(s, evs, c, k, |evs|);
    assert evs[..|evs|] == evs;
  }

  // ----- conditional stores -----

  /** The version and NX tests that a visible entry in the way of a store has to pass. */
  predicate Passes(e: Entry, o: StoreOpts, c: Config) {
    if o.casop then c.usecas && o.cas == e.cas else !o.nx
  }

  predicate Agrees(accept: Option<Entry -> bool>, e: Entry) {
    accept.Some? ==> accept.value(e)
  }

  /** Every status of a store and when it is given, what is visible afterwards, and that a store which is
      refused changes nothing visible.  `v` is what is visible before. */
  lemma StoreMeans(s: State, key: Bytes, val: Bytes, o: StoreOpts, now: int, c: Config, nomem: bool)
    requires s.cleartime <= now
    ensures var v := View(s, now).v;
            var (s', st) := Store(s, key, val, o, now, c, nomem, None);
            && (st == NoMem <==> nomem)
            && (st == Found <==> !nomem && key in v && !Passes(v[key], o, c))
            && (st == Canceled <==> !nomem && key in v && Passes(v[key], o, c) && !Agrees(o.accept, v[key]))
            && (st == Replaced <==> !nomem && key in v && Passes(v[key], o, c) && Agrees(o.accept, v[key]))
            && (st == NotFound <==> !nomem && key !in v && (o.xx || o.casop))
            && (st == Inserted <==> !nomem && key !in v && !o.xx && !o.casop)
            && (st == Replaced || st == Inserted ==>
                  && key in s'.m && s'.m[key].val == val && s'.m[key].flags == o.flags && s'.m[key].time == now
                  && s'.m[key].cas == (if c.usecas then s.cas + 1 else 0)
                  && (o.keepttl && key in v ==> s'.m[key].expires == if v[key].expires > 0 then v[key].expires else 0))
            && s'.cas == s.cas + 1
            && (st != Replaced && st != Inserted ==> View(s', now).v == v)
            && (forall k :: k != key ==> (k in View(s', now).v <==> k in v))
            && (forall k :: k != key && k in v ==> View(s', now).v[k] == v[k])
  {
    hide Life, AddClamp;
  }

  /** How long what was stored can be loaded: up to the expiry given, or else for the time to live given, or
      else for ever. */
  lemma StoredFor(s: State, key: Bytes, val: Bytes, o: StoreOpts, now: int, c: Config, later: int)
    requires s.cleartime <= now && (o.keepttl ==> key !in View(s, now).v)
    requires var st := Store(s, key, val, o, now, c, false, None).1; st == Inserted || st == Replaced
    ensures var s' := Store(s, key, val, o, now, c, false, None).0;
            var (_, st, seen) := Load(s', key, LoadOpts(true, None), later, c, false);
            && (st == NotFound <==>
                  || 0 < o.expires <= later
                  || (o.expires <= 0 < o.ttl && 0 < AddClamp(now, o.ttl) <= later))
            && (st != NotFound ==> seen.Some? && seen.value.val == val && seen.value.flags == o.flags)
  {
    hide AddClamp;
  }

  /** Every status of a delete, and what is visible afterwards. */
  lemma DeleteMeans(s: State, key: Bytes, o: DeleteOpts, now: int)
    ensures var v := View(s, now).v;
            var (s', st) := Delete(s, key, o, now);
            && (st == Deleted <==> key in v && Agrees(o.accept, v[key]))
            && (st == Canceled <==> key in v && !Agrees(o.accept, v[key]))
            && (st == NotFound <==> key !in v)
            && View(s', now).v == (if st == Deleted then v - {key} else v) && s'.cas == s.cas
  {
    hide Life;
    DeleteRefines(s, key, o, now);
  }

  /** The change the callback of a load asks for. */
  function Wanted(o: LoadOpts, e: Entry): Option<Update> {
    if o.visit.Some? then o.visit.value(e) else None
  }

  /** Every status of a load, what its callback sees, and what is visible afterwards: the entry touched,
      or replaced by what the callback wants. */
  lemma LoadMeans(s: State, key: Bytes, o: LoadOpts, now: int, c: Config, nomem: bool)
    requires s.cleartime <= now
    ensures var v := View(s, now).v;
            var (s', st, seen) := Load(s, key, o, now, c, nomem);
            && (st == NotFound <==> key !in v)
            && (st == NoMem <==> key in v && Wanted(o, v[key]).Some? && nomem)
            && (st == Found <==> key in v && (Wanted(o, v[key]).Some? ==> !nomem))
            && seen == (if key in v then Some(v[key]) else None)
            && (key !in v ==> View(s', now).v == v)
            && (key in v && (Wanted(o, v[key]).None? || nomem) ==>
                  key in s'.m && s'.m[key] == v[key].(time := if o.notouch then v[key].time else now))
            && (key in v && Wanted(o, v[key]).Some? && !nomem ==>
                  var u := Wanted(o, v[key]).value;
                  && key in s'.m && s'.m[key].val == u.val && s'.m[key].flags == u.flags && s'.m[key].time == now
                  && s'.m[key].expires == (if u.expires > 0 then u.expires else 0)
                  && (c.usecas ==> s'.m[key].cas > s.cas))
            && (forall k :: k != key ==> (k in View(s', now).v <==> k in v))
            && (forall k :: k != key && k in v ==> View(s', now).v[k] == v[k])
  {
    hide Life;
  }

  // ----- clear accounting -----

  /** The operation's time is not before the last clear, and a clear comes strictly after
      every access time in the shard. */
  ghost predicate Timely(s: State, ev: Event) {
    ev.now >= s.cleartime && (ev.op.DoClear? ==> forall k :: k in s.m ==> s.m[k].time < ev.now)
  }

  /** Clearing leaves the count exact precisely when it comes strictly after every access. */
  lemma ClearAccounts(s: State, now: int)
    ensures Accounted(Clear(s, now)) <==> forall k :: k in s.m ==> s.m[k].time < now
  {
    var t := Clear(s, now);
    if forall k :: k in s.m ==> s.m[k].time < now {
      assert ClearedKeys(t) == s.m.Keys;
    } else {
      var k :| k in s.m && s.m[k].time >= now;
      assert ClearedKeys(t) <= s.m.Keys - {k};
      var rest := (s.m.Keys - {k}) - ClearedKeys(t);
      assert s.m.Keys - {k} == ClearedKeys(t) + rest;
    }
  }

  lemma EvictAccounts(s: State, victim: Option<Bytes>, now: int)
    requires Accounted(s)
    ensures Accounted(Evict(s, victim, now))
  {
    if victim.Some? && victim.value in s.m {
      assert ClearedKeys(Evict(s, victim, now)) == ClearedKeys(s) - {victim.value};
    }
  }

  /** Storing or touching an entry that is not cleared. */
  lemma PutAccounts(s: State, key: Bytes, e: Entry)
    requires Accounted(s) && key !in ClearedKeys(s) && e.time >= s.cleartime
    ensures Accounted(s.(m := s.m[key := e]))
  {
    assert ClearedKeys(s.(m := s.m[key := e])) == ClearedKeys(s);
  }

  /** Keys that are alive or not stored do not count as cleared. */
  lemma NotCleared(s: State, key: Bytes, now: int)
    ensures key in s.m && Life(s.m[key], now, s.cleartime) == Alive ==> key !in ClearedKeys(s.(cas := s.cas + 1))
    ensures key !in ClearedKeys(Evict(s.(cas := s.cas + 1), Some(key), now))
  {
  }

  lemma CasAccounts(s: State)
    requires Accounted(s)
    ensures Accounted(s.(cas := s.cas + 1))
  {
    assert ClearedKeys(s.(cas := s.cas + 1)) == ClearedKeys(s);
  }

  lemma StoreAccounts(s: State, key: Bytes, val: Bytes, o: StoreOpts, now: int, c: Config, nomem: bool,
                      victim: Option<Bytes>)
    requires Accounted(s) && now >= s.cleartime
    ensures Accounted(Store(s, key, val, o, now, c, nomem, victim).0)
  {
    hide Accounted, Life, Judge, StoreExpires, ClearedKeys;
    NotCleared(s, key, now);
    var e := NewEntry(key, val, StoreExpires(s, key, o, now), o.flags, s.cas + 1, now, c);
    var s1 := s.(cas := s.cas + 1);
    CasAccounts(s);
    if key in s.m && Life(s.m[key], now, s.cleartime) == Alive {
      PutAccounts(s1, key, e);
    } else {
      EvictAccounts(s1, Some(key), now);
      var s2 := Evict(s1, Some(key), now);
      PutAccounts(s2, key, e);
      EvictAccounts(s2.(m := s2.m[key := e]), victim, now);
    }
  }

  lemma LoadAccounts(s: State, key: Bytes, o: LoadOpts, now: int, c: Config, nomem: bool)
    requires Accounted(s) && now >= s.cleartime
    ensures Accounted(Load(s, key, o, now, c, nomem).0)
  {
    var (s', st, seen) := Load(s, key, o, now, c, nomem);
    if key in s.m && Life(s.m[key], now, s.cleartime) == Alive {
      assert ClearedKeys(s') == ClearedKeys(s);
    } else {
      EvictAccounts(s, Some(key), now);
    }
  }

  lemma StepAccounts(s: State, ev: Event, c: Config)
    requires Accounted(s) && Timely(s, ev)
    ensures Accounted(Step(s, ev, c).0)
  {
    match ev.op
    case DoStore(key, val, o, nomem, victim) => StoreAccounts(s, key, val, o, ev.now, c, nomem, victim);
    case DoLoad(key, o, nomem) => LoadAccounts(s, key, o, ev.now, c, nomem);
    case DoDelete(key, o) => EvictAccounts(s, Some(key), ev.now);
    case DoClear => ClearAccounts(s, ev.now);
    case DoSweep => assert ClearedKeys(Sweep(s, ev.now)) == {};
    case DoIter(chosen) => assert ClearedKeys(IterDrop(s, chosen, ev.now)) == ClearedKeys(s);
  }

  ghost predicate TimelyRun(s: State, evs: seq<Event>, c: Config)
    decreases |evs|
  {
    evs == [] || (Timely(s, evs[0]) && TimelyRun(Step(s, evs[0], c).0, evs[1..], c))
  }

  /** Clear accounting over any run: count is the number of stored entries not cleared. */
  lemma {:induction false} CountExact(s: State, evs: seq<Event>, c: Config)
    requires Accounted(s) && TimelyRun(s, evs, c)
    ensures var s' := Run(s, evs, c).0;
            Accounted(s') && |s'.m| - s'.clearcount == |s'.m.Keys - ClearedKeys(s')|
    decreases |evs|
  {
    hide Step, Timely;
    if evs != [] {
      StepAccounts(s, evs[0], c);
      CountExact(Step(s, evs[0], c).0, evs[1..], c);
    } else {
      assert s.m.Keys == ClearedKeys(s) + (s.m.Keys - ClearedKeys(s));
    }
  }

  /** A clear in the same instant as a store: the entry is still found but no longer counted. */
  lemma ClearSameInstant(c: Config)
    ensures var o := StoreOpts(0, 0, 0, 0, false, false, false, false, false, None);
            var s1 := Store(State(map[], 1, 0, 0), [1], [2], o, 5, c, false, None).0;
            var s2 := Clear(s1, 5);
            && Load(s2, [1], LoadOpts(true, None), 5, c, false).1 == Found
            && |s2.m| - s2.clearcount == 0
  {
    var o := StoreOpts(0, 0, 0, 0, false, false, false, false, false, None);
    var s0 := State(map[], 1, 0, 0);
    assert Evict(s0.(cas := 2), Some([1]), 5) == s0.(cas := 2);
    var s1 := Store(s0, [1], [2], o, 5, c, false, None).0;
    assert [1] in s1.m && s1.m[[1]].time == 5;
  }
}
