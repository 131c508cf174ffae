/**
 What the key operations of a shard do, as functions on the set of stored entries.  Dead
 entries (expired, or touched before the last clear) may still be stored: the operations
 remove them lazily.
 */
module CacheSpec {
  import opened Common

  datatype Reason = Alive | Expired | Cleared

  datatype Status = Inserted | Replaced | Found | NotFound | Deleted | Canceled | NoMem | Finished

  /** The stored entries of a shard with its CAS counter and clear bookkeeping. */
  datatype State = State(m: map<Bytes, Entry>, cas: nat, cleartime: int, clearcount: int)

  /** Cache-wide options (struct pgctx). */
  datatype Config = Config(usecas: bool, noevict: bool)

  datatype StoreOpts = StoreOpts(
    expires: int, ttl: int, flags: nat, cas: nat,
    keepttl: bool, casop: bool, nx: bool, xx: bool, lowmem: bool,
    accept: Option<Entry -> bool>)

  datatype Update = Update(val: Bytes, flags: nat, expires: int)

  datatype LoadOpts = LoadOpts(notouch: bool, visit: Option<Entry -> Option<Update>>)

  datatype DeleteOpts = DeleteOpts(accept: Option<Entry -> bool>)

  /** entry_alive */
  function Life(e: Entry, now: int, cleartime: int): Reason {
    if e.time < cleartime then Cleared
    else if e.expires > 0 && e.expires <= now then Expired
    else Alive
  }

  /** int64_add_clamp */
  function AddClamp(a: int, b: int): int {
    if a + b > INT64_MAX then INT64_MAX else if a + b < INT64_MIN then INT64_MIN else a + b
  }

  /** The branches of int64_add_clamp; operands of opposite signs cannot overflow. */
  lemma ClampBranches(a: int, b: int)
    requires IsInt64(a) && IsInt64(b)
    ensures IsInt64(AddClamp(a, b))
    ensures AddClamp(a, b) ==
              if (a < 0) == (b < 0) && a > 0 && b > INT64_MAX - a then INT64_MAX
              else if (a < 0) == (b < 0) && a <= 0 && b < INT64_MIN - a then INT64_MIN
              else a + b
  {
  }

  /** entry_new followed by entry_settime: a non-positive expiry is not recorded, and without
      usecas neither is the CAS value. */
  function NewEntry(key: Bytes, val: Bytes, expires: int, flags: nat, cas: nat, now: int, c: Config): Entry {
    Entry(key, val, if expires > 0 then expires else 0, flags, if c.usecas then cas else 0, now)
  }

  function Tally(r: Reason): int {
    if r == Cleared then 1 else 0
  }

  /** Removal of a key for a given reason. */
  function Evict(s: State, victim: Option<Bytes>, now: int): State {
    if victim.None? || victim.value !in s.m then s
    else s.(m := s.m - {victim.value},
            clearcount := s.clearcount - Tally(Life(s.m[victim.value], now, s.cleartime)))
  }

  /** The expiry of an entry about to be stored. */
  function StoreExpires(s: State, key: Bytes, o: StoreOpts, now: int): int {
    if o.keepttl && key in s.m && Life(s.m[key], now, s.cleartime) == Alive then s.m[key].expires
    else if o.expires > 0 then o.expires
    else if o.ttl > 0 then AddClamp(now, o.ttl)
    else 0
  }

  /** What happens to a live entry in the way of a store. */
  function Judge(old_: Entry, o: StoreOpts, c: Config): Status {
    if o.casop && (!c.usecas || o.cas != old_.cas) then Found
    else if !o.casop && o.nx then Found
    else if o.accept.Some? && !o.accept.value(old_) then Canceled
    else Replaced
  }

  /** The entry a store is about to put. */
  function Incoming(s: State, key: Bytes, val: Bytes, o: StoreOpts, now: int, c: Config): Entry {
    NewEntry(key, val, StoreExpires(s, key, o, now), o.flags, s.cas + 1, now, c)
  }

  /** The entry evicted after a low-memory insert is never the one just stored, unless that is dead
      already. */
  predicate FairVictim(s: State, key: Bytes, val: Bytes, o: StoreOpts, now: int, c: Config, victim: Option<Bytes>) {
    victim == Some(key) ==> Life(Incoming(s, key, val, o, now, c), now, s.cleartime) != Alive
  }

  /** storeop on the stored entries.  `nomem` says that an allocation failed and `victim` names
      the entry evicted after a low-memory insert. */
  function Store(s: State, key: Bytes, val: Bytes, o: StoreOpts, now: int, c: Config,
                 nomem: bool, victim: Option<Bytes>): (State, Status) {
    var e := NewEntry(key, val, StoreExpires(s, key, o, now), o.flags, s.cas + 1, now, c);
    var s1 := s.(cas := s.cas + 1);
    if nomem then
      (s1, NoMem)
    else if key in s.m && Life(s.m[key], now, s.cleartime) == Alive then
      var st := Judge(s.m[key], o, c);
      (if st == Replaced then s1.(m := s.m[key := e]) else s1, st)
    else
      var s2 := Evict(s1, Some(key), now);
      if o.xx || o.casop then (s2, NotFound)
      else (Evict(s2.(m := s2.m[key := e]), victim, now), Inserted)
  }

  lemma EvictNone(s: State, now: int)
    ensures Evict(s, None, now) == s
  {
  }

  /** A store that fails, one that meets a live entry, and one that does not. */
  lemma StoreFails(s: State, key: Bytes, val: Bytes, o: StoreOpts, now: int, c: Config)
    ensures Store(s, key, val, o, now, c, true, None) == (s.(cas := s.cas + 1), NoMem)
  {
  }

  lemma StoreOver(s: State, key: Bytes, val: Bytes, o: StoreOpts, now: int, c: Config)
    requires key in s.m && Life(s.m[key], now, s.cleartime) == Alive
    ensures var e, st := Incoming(s, key, val, o, now, c), Judge(s.m[key], o, c);
            Store(s, key, val, o, now, c, false, None) ==
              (s.(cas := s.cas + 1, m := if st == Replaced then s.m[key := e] else s.m), st)
  {
  }

  lemma StoreNew(s: State, key: Bytes, val: Bytes, o: StoreOpts, now: int, c: Config, victim: Option<Bytes>, s1: State)
    requires key in s.m ==> Life(s.m[key], now, s.cleartime) != Alive
    requires s1 == s.(cas := s.cas + 1, m := s.m - {key},
                      clearcount := s.clearcount - if key in s.m then Tally(Life(s.m[key], now, s.cleartime)) else 0)
    ensures Store(s, key, val, o, now, c, false, victim) ==
              if o.xx || o.casop then (s1, NotFound)
              else (Evict(s1.(m := s1.m[key := Incoming(s, key, val, o, now, c)]), victim, now), Inserted)
  {
    assert key !in s.m ==> s.m - {key} == s.m;
  }

  /** loadop on the stored entries, with the entry the callback sees. */
  function Load(s: State, key: Bytes, o: LoadOpts, now: int, c: Config, nomem: bool): (State, Status, Option<Entry>) {
    if key !in s.m then
      (s, NotFound, None)
    else if Life(s.m[key], now, s.cleartime) != Alive then
      (Evict(s, Some(key), now), NotFound, None)
    else
      var e := s.m[key];
      var s1 := if o.notouch then s else s.(m := s.m[key := e.(time := now)]);
      var u := if o.visit.Some? then o.visit.value(e) else None;
      if u.None? then
        (s1, Found, Some(e))
      else
        var s2 := s1.(cas := s.cas + 1);
        var e2 := NewEntry(key, u.value.val, u.value.expires, u.value.flags, s2.cas, now, c);
        if nomem then (s2, NoMem, Some(e)) else (s2.(m := s2.m[key := e2]), Found, Some(e))
  }

  /** deleteop on the stored entries. */
  function Delete(s: State, key: Bytes, o: DeleteOpts, now: int): (State, Status) {
    if key !in s.m then
      (s, NotFound)
    else if Life(s.m[key], now, s.cleartime) != Alive then
      (Evict(s, Some(key), now), NotFound)
    else if o.accept.Some? && !o.accept.value(s.m[key]) then
      (s, Canceled)
    else
      (Evict(s, Some(key), now), Deleted)
  }

  /** clearop */
  function Clear(s: State, now: int): State {
    s.(cleartime := now, clearcount := |s.m|)
  }

  /** The entries that are alive at `now`. */
  function Living(m: map<Bytes, Entry>, now: int, cleartime: int): (r: map<Bytes, Entry>)
    ensures forall k :: k in r <==> k in m && Life(m[k], now, cleartime) == Alive
    ensures forall k :: k in r ==> r[k] == m[k]
  {
    map k | k in m && Life(m[k], now, cleartime) == Alive :: m[k]
  }

  /** The keys of the entries touched before the last clear. */
  function ClearedKeys(s: State): (r: set<Bytes>)
    ensures forall k :: k in r <==> k in s.m && s.m[k].time < s.cleartime
  {
    set k | k in s.m && s.m[k].time < s.cleartime
  }

  /** clearcount counts exactly the stored entries that a clear has killed. */
  ghost predicate Accounted(s: State) {
    s.clearcount == |ClearedKeys(s)|
  }

  /** sweepop on the stored entries. */
  function Sweep(s: State, now: int): State {
    var live := Living(s.m, now, s.cleartime);
    s.(m := live, clearcount := s.clearcount - |ClearedKeys(s)|)
  }
}
