/**
 Whole runs of a shard: whatever the order of operations, the lazily cleaned shard behaves
 like a plain map that drops an entry at the instant it expires or is cleared.
 */
module CacheRuns {
  import opened Common
  import opened CacheSpec

  datatype Op =
    | DoStore(key: Bytes, val: Bytes, so: StoreOpts, nomem: bool, victim: Option<Bytes>)
    | DoLoad(key: Bytes, lo: LoadOpts, nomem: bool)
    | DoDelete(key: Bytes, del: DeleteOpts)
    | DoClear
    | DoSweep
    | DoIter(chosen: set<Bytes>)

  /** An operation and the time it runs at. */
  datatype Event = Event(op: Op, now: int)

  /** What the caller learns: the status, and for a load the entry shown to its callback. */
  datatype Outcome = Outcome(status: Status, seen: Option<Entry>)

  /** Removal of the live entries among `chosen` (iterop with POGOCACHE_ITER_DELETE). */
  function IterDrop(s: State, chosen: set<Bytes>, now: int): State {
    s.(m := s.m - (set k | k in chosen && k in s.m && Life(s.m[k], now, s.cleartime) == Alive))
  }

  function Step(s: State, ev: Event, c: Config): (State, Outcome) {
    match ev.op
    case DoStore(key, val, o, nomem, victim) =>
      var (s', st) := Store(s, key, val, o, ev.now, c, nomem, victim);
      (s', Outcome(st, None))
    case DoLoad(key, o, nomem) =>
      var (s', st, seen) := Load(s, key, o, ev.now, c, nomem);
      (s', Outcome(st, seen))
    case DoDelete(key, o) =>
      var (s', st) := Delete(s, key, o, ev.now);
      (s', Outcome(st, None))
    case DoClear => (Clear(s, ev.now), Outcome(Finished, None))
    case DoSweep => (Sweep(s, ev.now), Outcome(Finished, None))
    case DoIter(chosen) => (IterDrop(s, chosen, ev.now), Outcome(Finished, None))
  }

  function Run(s: State, evs: seq<Event>, c: Config): (State, seq<Outcome>)
    decreases |evs|
  {
    if evs == [] then (s, [])
    else
      var (s1, out) := Step(s, evs[0], c);
      var (s2, outs) := Run(s1, evs[1..], c);
      (s2, [out] + outs)
  }

  // ----- the flat map -----

  /** A plain map plus the version counter. */
  datatype Flat = Flat(v: map<Bytes, Entry>, cas: nat)

  /** Entries vanish at the instant they expire. */
  function Fresh(v: map<Bytes, Entry>, now: int): (r: map<Bytes, Entry>)
    ensures forall k :: k in r <==> k in v && !(v[k].expires > 0 && v[k].expires <= now)
    ensures forall k :: k in r ==> r[k] == v[k]
  {
    map k | k in v && !(v[k].expires > 0 && v[k].expires <= now) :: v[k]
  }

  function FlatStore(f: Flat, key: Bytes, val: Bytes, o: StoreOpts, now: int, c: Config, nomem: bool): (Flat, Status) {
    var expires :=
      if o.keepttl && key in f.v then f.v[key].expires
      else if o.expires > 0 then o.expires
      else if o.ttl > 0 then AddClamp(now, o.ttl)
      else 0;
    var e := NewEntry(key, val, expires, o.flags, f.cas + 1, now, c);
    var same, stored := Flat(f.v, f.cas + 1), Flat(Fresh(f.v[key := e], now), f.cas + 1);
    if nomem then (same, NoMem)
    else if key in f.v then
      var st := Judge(f.v[key], o, c);
      (if st == Replaced then stored else same, st)
    else if o.xx || o.casop then (same, NotFound)
    else (stored, Inserted)
  }

  function FlatLoad(f: Flat, key: Bytes, o: LoadOpts, now: int, c: Config, nomem: bool): (Flat, Status, Option<Entry>) {
    if key !in f.v then (f, NotFound, None)
    else
      var e := f.v[key];
      var f1 := if o.notouch then f else Flat(f.v[key := e.(time := now)], f.cas);
      var u := if o.visit.Some? then o.visit.value(e) else None;
      if u.None? then (f1, Found, Some(e))
      else if nomem then (Flat(f1.v, f.cas + 1), NoMem, Some(e))
      else
        var e2 := NewEntry(key, u.value.val, u.value.expires, u.value.flags, f.cas + 1, now, c);
        (Flat(Fresh(f1.v[key := e2], now), f.cas + 1), Found, Some(e))
  }

  function FlatDelete(f: Flat, key: Bytes, o: DeleteOpts): (Flat, Status) {
    if key !in f.v then (f, NotFound)
    else if o.accept.Some? && !o.accept.value(f.v[key]) then (f, Canceled)
    else (Flat(f.v - {key}, f.cas), Deleted)
  }

  function FlatStep(f0: Flat, ev: Event, c: Config): (Flat, Outcome) {
    var f := Flat(Fresh(f0.v, ev.now), f0.cas);
    match ev.op
    case DoStore(key, val, o, nomem, _) =>
      var (f', st) := FlatStore(f, key, val, o, ev.now, c, nomem);
      (f', Outcome(st, None))
    case DoLoad(key, o, nomem) =>
      var (f', st, seen) := FlatLoad(f, key, o, ev.now, c, nomem);
      (f', Outcome(st, seen))
    case DoDelete(key, o) =>
      var (f', st) := FlatDelete(f, key, o);
      (f', Outcome(st, None))
    case DoClear => (Flat(map k | k in f.v && f.v[k].time >= ev.now :: f.v[k], f.cas), Outcome(Finished, None))
    case DoSweep => (f, Outcome(Finished, None))
    case DoIter(chosen) => (Flat(f.v - chosen, f.cas), Outcome(Finished, None))
  }

  function FlatRun(f: Flat, evs: seq<Event>, c: Config): (Flat, seq<Outcome>)
    decreases |evs|
  {
    if evs == [] then (f, [])
    else
      var (f1, out) := FlatStep(f, evs[0], c);
      var (f2, outs) := FlatRun(f1, evs[1..], c);
      (f2, [out] + outs)
  }

  /** What a client can see of a shard at time `now`. */
  function View(s: State, now: int): Flat {
    Flat(Living(s.m, now, s.cleartime), s.cas)
  }

  /** Times never run backwards from `t` on. */
  ghost predicate Ordered(evs: seq<Event>, t: int) {
    forall i :: 0 <= i < |evs| ==> t <= evs[i].now && forall j :: i < j < |evs| ==> evs[i].now <= evs[j].now
  }

  ghost predicate NoEviction(evs: seq<Event>) {
    forall i :: 0 <= i < |evs| && evs[i].op.DoStore? ==> evs[i].op.victim == None
  }

  /** Waiting only drops what expires meanwhile. */
  lemma ViewLater(s: State, t: int, now: int)
    requires t <= now
    ensures Fresh(View(s, t).v, now) == View(s, now).v
  {
  }

  lemma LivingPut(m: map<Bytes, Entry>, key: Bytes, e: Entry, now: int, cleartime: int)
    requires e.time >= cleartime
    ensures Living(m[key := e], now, cleartime) == Fresh(Living(m, now, cleartime)[key := e], now)
  {
  }

  lemma LivingDrop(m: map<Bytes, Entry>, key: Bytes, now: int, cleartime: int)
    ensures Living(m - {key}, now, cleartime) == Living(m, now, cleartime) - {key}
    ensures key !in Living(m, now, cleartime) ==> Living(m, now, cleartime) - {key} == Living(m, now, cleartime)
  {
  }

  lemma StoreRefines(s: State, key: Bytes, val: Bytes, o: StoreOpts, now: int, c: Config, nomem: bool)
    requires s.cleartime <= now
    ensures var (s', st) := Store(s, key, val, o, now, c, nomem, None);
            (View(s', now), st) == FlatStore(View(s, now), key, val, o, now, c, nomem)
  {
    hide Judge, Living, Fresh, StoreExpires, AddClamp;
    var e := NewEntry(key, val, StoreExpires(s, key, o, now), o.flags, s.cas + 1, now, c);
    SameExpires(s, key, o, now);
    LivingPut(s.m, key, e, now, s.cleartime);
    LivingDrop(s.m, key, now, s.cleartime);
    LivingPut(s.m - {key}, key, e, now, s.cleartime);
    LivingAt(s, key, now);
    assert (s.m - {key})[key := e] == s.m[key := e];
  }

  lemma LivingAt(s: State, key: Bytes, now: int)
    ensures var v := Living(s.m, now, s.cleartime);
            && (key in v <==> key in s.m && Life(s.m[key], now, s.cleartime) == Alive)
            && (key in v ==> v[key] == s.m[key])
  {
  }

  lemma SameExpires(s: State, key: Bytes, o: StoreOpts, now: int)
    ensures var v := Living(s.m, now, s.cleartime);
            StoreExpires(s, key, o, now) ==
              if o.keepttl && key in v then v[key].expires
              else if o.expires > 0 then o.expires
              else if o.ttl > 0 then AddClamp(now, o.ttl)
              else 0
  {
    hide AddClamp;
  }

  lemma LoadRefines(s: State, key: Bytes, o: LoadOpts, now: int, c: Config, nomem: bool)
    requires s.cleartime <= now
    ensures var (s', st, seen) := Load(s, key, o, now, c, nomem);
            (View(s', now), st, seen) == FlatLoad(View(s, now), key, o, now, c, nomem)
  {
    var (s', st, seen) := Load(s, key, o, now, c, nomem);
    var (f', st', seen') := FlatLoad(View(s, now), key, o, now, c, nomem);
    assert View(s', now).v == f'.v;
  }

  lemma DeleteRefines(s: State, key: Bytes, o: DeleteOpts, now: int)
    ensures var (s', st) := Delete(s, key, o, now);
            (View(s', now), st) == FlatDelete(View(s, now), key, o)
  {
    var (s', st) := Delete(s, key, o, now);
    var (f', st') := FlatDelete(View(s, now), key, o);
    assert View(s', now).v == f'.v;
  }

  /** A clear leaves visible what was touched at that very instant. */
  lemma ClearRefines(s: State, now: int)
    requires s.cleartime <= now
    ensures var v := View(s, now).v;
            View(Clear(s, now), now) == Flat(map k | k in v && v[k].time >= now :: v[k], s.cas)
  {
  }

  lemma SweepRefines(s: State, now: int)
    ensures View(Sweep(s, now), now) == View(s, now)
  {
  }

  lemma IterRefines(s: State, chosen: set<Bytes>, now: int)
    ensures View(IterDrop(s, chosen, now), now) == Flat(View(s, now).v - chosen, s.cas)
  {
  }

  lemma StepRefines(s: State, t: int, ev: Event, c: Config)
    requires s.cleartime <= t <= ev.now && NoEviction([ev])
    ensures var (s', out) := Step(s, ev, c);
            s'.cleartime <= ev.now && (View(s', ev.now), out) == FlatStep(View(s, t), ev, c)
  {
    ViewLater(s, t, ev.now);
    assert [ev][0] == ev;
    StepClearTime(s, ev, c);
    match ev.op
    case DoStore(key, val, o, nomem, victim) => StoreRefines(s, key, val, o, ev.now, c, nomem);
    case DoLoad(key, o, nomem) => LoadRefines(s, key, o, ev.now, c, nomem);
    case DoDelete(key, o) => DeleteRefines(s, key, o, ev.now);
    case DoClear => ClearRefines(s, ev.now);
    case DoSweep => SweepRefines(s, ev.now);
    case DoIter(chosen) => IterRefines(s, chosen, ev.now);
  }

  lemma StepClearTime(s: State, ev: Event, c: Config)
    ensures Step(s, ev, c).0.cleartime == if ev.op.DoClear? then ev.now else s.cleartime
  {
  }

  /** Flat-map refinement: over any run without low-memory eviction and with times that never
      decrease, every status and every entry shown to a callback is the one of the flat map, and
      so is what remains visible.  When dead entries are physically removed is unobservable. */
  lemma {:induction false} RunRefines(s: State, t: int, evs: seq<Event>, c: Config)
    requires s.cleartime <= t && Ordered(evs, t) && NoEviction(evs)
    ensures var (s', outs) := Run(s, evs, c);
            var (f', outs') := FlatRun(View(s, t), evs, c);
            outs == outs' && View(s', if evs == [] then t else evs[|evs| - 1].now) == f'
    decreases |evs|
  {
    hide Step, FlatStep, View;
    if evs != [] {
      var ev := evs[0];
      assert NoEviction([ev]);
      StepRefines(s, t, ev, c);
      var rest := evs[1..];
      assert Ordered(rest, ev.now) && NoEviction(rest);
      RunRefines(Step(s, ev, c).0, ev.now, rest, c);
      assert rest != [] ==> rest[|rest| - 1] == evs[|evs| - 1];
    }
  }
}
