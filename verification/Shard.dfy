/**
 struct shard of src/pogocache.c and the operations that run under its lock.
 */
module Shards {
  import opened Common
  import opened RobinHood
  import opened Tables
  import opened Sweeps
  import opened Evictions
  import Spec = CacheSpec

  class Shard {
    const map_: Table
    const cfg: Spec.Config
    var cas: nat
    var cleartime: int
    var clearcount: int

    ghost predicate Valid()
      reads this, map_, map_.buckets
    {
      map_.Valid()
    }

    ghost function Abs(): Spec.State
      reads this, map_
    {
      Spec.State(map_.M, cas, cleartime, clearcount)
    }

    /** shard_init */
    constructor (hash: Hasher, loadPct: nat, allowShrink: bool, cfg: Spec.Config)
      requires 55 <= loadPct <= 95
      ensures Valid() && fresh(map_) && fresh(map_.buckets)
      ensures Abs() == Spec.State(map[], 1, 0, 0) && this.cfg == cfg && map_.hash == hash
    {
      this.cfg := cfg;
      map_ := new Table(hash, loadPct, allowShrink);
      cas, cleartime, clearcount := 1, 0, 0;
    }

    /** loadop */
    method LoadOp(key: Bytes, o: Spec.LoadOpts, now: int, entryOk: bool)
      returns (status: Spec.Status, seen: Option<Entry>)
      requires Valid()
      modifies this, map_, map_.buckets
      ensures Valid() && map_.buckets == old(map_.buckets)
      ensures (Abs(), status, seen) == Spec.Load(old(Abs()), key, o, now, cfg, !entryOk)
    {
      hide Tables.Table.Valid, RobinHood.ShiftedFrom;
      var i := map_.GetBucket(key);
      if i < 0 {
        return Spec.NotFound, None;
      }
      var e := map_.buckets[i].entry;
      var reason := Spec.Life(e, now, cleartime);
      if reason != Spec.Alive {
        clearcount := clearcount - Spec.Tally(reason);
        map_.DelBkt(i);
        return Spec.NotFound, None;
      }
      if !o.notouch {
        map_.SetEntry(i, e.(time := now));
      }
      if o.visit.Some? {
        var u := o.visit.value(e);
        if u.Some? {
          cas := cas + 1;
          if !entryOk {
            return Spec.NoMem, Some(e);
          }
          map_.SetEntry(i, Spec.NewEntry(key, u.value.val, u.value.expires, u.value.flags, cas, now, cfg));
        }
      }
      return Spec.Found, Some(e);
    }

    /** deleteop */
    method DeleteOp(key: Bytes, o: Spec.DeleteOpts, now: int, shrinkOk: bool)
      returns (status: Spec.Status)
      requires Valid()
      modifies this, map_, map_.buckets
      ensures Valid() && (map_.buckets == old(map_.buckets) || fresh(map_.buckets))
      ensures (Abs(), status) == Spec.Delete(old(Abs()), key, o, now)
      ensures map_.buckets.Length ==
              if key in old(map_.M) && status != Spec.Canceled && shrinkOk
                 && SparseIn(map_.allowShrink, old(map_.buckets.Length), map_.count)
              then old(map_.buckets.Length) / 2 else old(map_.buckets.Length)
    {
      hide Tables.Table.Valid;
      var removed := map_.Delete(key);
      if removed == None {
        assert map_.M == old(map_.M);
        return Spec.NotFound;
      }
      var e := removed.value;
      var reason := Spec.Life(e, now, cleartime);
      if reason != Spec.Alive {
        clearcount := clearcount - Spec.Tally(reason);
        map_.TryShrink(false, shrinkOk);
        return Spec.NotFound;
      }
      if o.accept.Some? && !o.accept.value(e) {
        // Put back: needs no allocation, the deletion left room.
        var ok, prev := map_.Insert(e, false);
        assert ok && prev == None;
        assert map_.M == old(map_.M);
        return Spec.Canceled;
      }
      map_.TryShrink(false, shrinkOk);
      return Spec.Deleted;
    }

    /** The expiry of a new entry, taken over from a live entry on request. */
    method ExpiresFor(key: Bytes, o: Spec.StoreOpts, now: int) returns (expires: int)
      requires Valid()
      ensures expires == Spec.StoreExpires(Abs(), key, o, now)
    {
      hide Tables.Table.Valid;
      expires := if o.expires > 0 then o.expires else if o.ttl > 0 then Spec.AddClamp(now, o.ttl) else 0;
      if o.keepttl {
        var i := map_.GetBucket(key);
        if i >= 0 {
          var cur := map_.buckets[i].entry;
          if Spec.Life(cur, now, cleartime) == Spec.Alive {
            expires := cur.expires;
          }
        }
      }
    }

    /** Whether a live entry may be replaced: the CAS test, NX, then the user's callback. */
    method Decide(prev: Entry, o: Spec.StoreOpts) returns (status: Spec.Status)
      ensures status == Spec.Judge(prev, o, cfg) && status != Spec.Inserted
    {
      if o.casop {
        if cfg.usecas {
          if o.cas != prev.cas {
            return Spec.Found;
          }
        } else {
          return Spec.Found;
        }
      } else if o.nx {
        return Spec.Found;
      }
      if o.accept.Some? && !o.accept.value(prev) {
        return Spec.Canceled;
      }
      return Spec.Replaced;
    }

    /** storeop.  `mid` are the buckets after the insertion, in which an eviction looks for its victim. */
    method StoreOp(key: Bytes, val: Bytes, o: Spec.StoreOpts, now: int, entryOk: bool, growOk: bool)
      returns (status: Spec.Status, victim: Option<Bytes>, ghost mid: seq<Bucket>)
      requires Valid()
      modifies this, map_, map_.buckets
      ensures Valid() && (map_.buckets == old(map_.buckets) || fresh(map_.buckets))
      ensures (Abs(), status) ==
              Spec.Store(old(Abs()), key, val, o, now, cfg,
                         !entryOk || (o.lowmem && cfg.noevict) || (old(map_.count >= map_.growat) && !growOk), victim)
      ensures victim.Some? ==> o.lowmem && status == Spec.Inserted && key !in old(map_.M)
      ensures Spec.FairVictim(old(Abs()), key, val, o, now, cfg, victim)
      ensures status == Spec.Inserted ==>
                && RobinHood.Table(mid, map_.hash, old(map_.M)[key := Spec.Incoming(old(Abs()), key, val, o, now, cfg)])
                && victim == if o.lowmem && key !in old(map_.M) then Victim(mid, Clip(map_.hash(key)), now, cleartime)
                             else None
    {
      hide Tables.Table.Valid, Spec.StoreExpires, Spec.Judge, Victim, RobinHood.Table, Spec.Tally, Spec.Store;
      hide Spec.Life, Spec.Evict;
      ghost var s0 := Abs();
      Spec.StoreFails(s0, key, val, o, now, cfg);
      var expires := ExpiresFor(key, o, now);
      cas := cas + 1;
      if !entryOk || (o.lowmem && cfg.noevict) {
        return Spec.NoMem, None, [];
      }
      var count0, e := map_.count, Spec.NewEntry(key, val, expires, o.flags, cas, now, cfg);
      var ok, prev := map_.Insert(e, growOk);
      if !ok {
        return Spec.NoMem, None, [];
      }
      map_.IsTable();
      mid := map_.buckets[..];
      if prev.Some? {
        var reason := Spec.Life(prev.value, now, cleartime);
        if reason == Spec.Alive {
          Spec.StoreOver(s0, key, val, o, now, cfg);
          status := Decide(prev.value, o);
          if status != Spec.Replaced {
            PutBack(prev.value, e);
            assert map_.M == old(map_.M);
          }
          return status, None, mid;
        }
        // The old entry is dead: this counts as its eviction.
        clearcount := clearcount - Spec.Tally(reason);
      }
      ghost var s1 := Abs().(m := old(map_.M) - {key});
      status, victim := FinishNew(e, o, now, count0 < map_.count, old(map_.M));
      Spec.StoreNew(s0, key, val, o, now, cfg, victim, s1);
    }

    /** The end of storeop when no live entry was in the way of `e`. */
    method FinishNew(e: Entry, o: Spec.StoreOpts, now: int, grew: bool, ghost m: map<Bytes, Entry>)
      returns (status: Spec.Status, victim: Option<Bytes>)
      requires Valid() && map_.M == m[e.key := e] && (grew <==> e.key !in m)
      modifies this`clearcount, map_, map_.buckets
      ensures Valid() && map_.buckets == old(map_.buckets)
      ensures var s := old(Abs()).(m := m - {e.key});
              if o.xx || o.casop then status == Spec.NotFound && Abs() == s && victim == None
              else status == Spec.Inserted && Abs() == Spec.Evict(s.(m := s.m[e.key := e]), victim, now)
      ensures victim.Some? ==> o.lowmem && e.key !in m
      ensures victim == Some(e.key) ==> Spec.Life(e, now, cleartime) != Spec.Alive
      ensures map_.buckets.Length > 0
      ensures !o.xx && !o.casop ==>
                victim == if o.lowmem && e.key !in m
                          then Victim(old(map_.buckets[..]), Clip(map_.hash(e.key)), now, cleartime) else None
    {
      hide Tables.Table.Valid, Spec.Life, Victim, Spec.Evict, RobinHood.Table;
      if o.xx || o.casop {
        map_.IsTable();
        var gone := map_.Delete(e.key);
        assert gone == Some(e);
        assert m[e.key := e] - {e.key} == m - {e.key};
        return Spec.NotFound, None;
      }
      map_.IsTable();
      assert (m - {e.key})[e.key := e] == m[e.key := e];
      Spec.EvictNone(Abs(), now);
      victim := None;
      if o.lowmem && grew {
        victim := AutoEvict(map_.hash(e.key), now);
      }
      return Spec.Inserted, victim;
    }

    /** put_back: the old entry takes the place of the one just stored.  It swaps entries in one
        bucket, so it needs no allocation and cannot fail. */
    method PutBack(prev: Entry, ghost e: Entry)
      requires Valid() && prev.key in map_.M && map_.M[prev.key] == e && map_.count < map_.growat
      modifies map_, map_.buckets
      ensures Valid() && map_.M == old(map_.M)[prev.key := prev]
      ensures map_.buckets == old(map_.buckets) || fresh(map_.buckets)
    {
      hide Tables.Table.Valid;
      var ok, out := map_.Insert(prev, false);
      assert ok && out == Some(e);
    }

    /** The scan of auto_evict_entry: the first dead entry met, or else the older of the first two live
        entries whose hash differs from the one just stored. */
    method PickVictim(hash: nat, now: int) returns (pick: Option<Entry>)
      requires Valid()
      ensures map_.buckets.Length > 0
      ensures (if pick.Some? then Some(pick.value.key) else None) ==
              Victim(map_.buckets[..], Clip(hash), now, cleartime)
      ensures pick.Some? ==> pick.value.key in map_.M && map_.M[pick.value.key] == pick.value
                             && Evictable(pick.value, map_.hash, Clip(hash), now, cleartime)
    {
      hide Tables.Table.Valid, Pick, SlotAt, RobinHood.Table;
      var n, hsh := map_.buckets.Length, Clip(hash);
      ghost var b := map_.buckets[..];
      map_.IsTable();
      var picks: seq<Entry> := [];
      var i := 1;
      while i < n && |picks| < 2
        invariant 1 <= i && |picks| <= 2 && n > 0
        invariant forall e :: e in picks ==> e.key in map_.M && map_.M[e.key] == e && Clip(map_.hash(e.key)) != hsh
        invariant Pick(b, hsh, i, picks, now, cleartime) == Victim(b, hsh, now, cleartime)
        decreases n - i
      {
        var j := SlotAt(i, hsh, n);
        var bkt := map_.buckets[j];
        PickStep(b, hsh, i, picks, now, cleartime);
        if bkt.dib != 0 {
          map_.Occupant(j);
          if Spec.Life(bkt.entry, now, cleartime) != Spec.Alive {
            return Some(bkt.entry);
          }
          if bkt.hash != hsh {
            picks := picks + [bkt.entry];
          }
        }
        i := i + 1;
      }
      PickEnd(b, hsh, i, picks, now, cleartime);
      if |picks| == 0 {
        return None;
      }
      var chosen := if |picks| == 1 || picks[0].time < picks[1].time then picks[0] else picks[1];
      assert chosen in picks;
      return Some(chosen);
    }

    /** auto_evict_entry */
    method AutoEvict(hash: nat, now: int) returns (victim: Option<Bytes>)
      requires Valid()
      modifies this`clearcount, map_, map_.buckets
      ensures Valid() && map_.buckets == old(map_.buckets) && map_.buckets.Length > 0
      ensures Abs() == Spec.Evict(old(Abs()), victim, now)
      ensures victim == Victim(old(map_.buckets[..]), Clip(hash), now, cleartime)
      ensures victim.Some? ==> victim.value in old(map_.M)
                               && Evictable(old(map_.M)[victim.value], map_.hash, Clip(hash), now, cleartime)
    {
      hide Tables.Table.Valid, Victim, Spec.Life;
      var pick := PickVictim(hash, now);
      if pick == None {
        return None;
      }
      var e := pick.value;
      var gone := map_.Delete(e.key);
      clearcount := clearcount - Spec.Tally(Spec.Life(e, now, cleartime));
      return Some(e.key);
    }

    /** clearop: constant time, entries are not touched. */
    method ClearOp(now: int)
      requires Valid()
      modifies this`cleartime, this`clearcount
      ensures Valid() && Abs() == Spec.Clear(old(Abs()), now)
    {
      cleartime := now;
      clearcount := clearcount + (map_.count - clearcount);
    }

    /** countop */
    method CountOp() returns (n: int)
      requires Valid()
      ensures n == |Abs().m| - Abs().clearcount
    {
      n := map_.count - clearcount;
    }

    /** The removal of a dead entry in a sweep. */
    method SweepAt(i: nat, now: int, ghost s0: Spec.State, ghost kept: nat, ghost wraps: nat)
      requires Valid() && i < map_.buckets.Length && Dead(map_.buckets[i], now, cleartime) && Sweeping(Abs(), s0, now)
      requires Counted(map_.buckets[..], map_.hash, map_.M, i, kept, wraps, now, cleartime)
      modifies this`clearcount, map_, map_.buckets
      ensures Valid() && map_.buckets == old(map_.buckets) && |map_.M| == |old(map_.M)| - 1
      ensures Sweeping(Abs(), s0, now)
      ensures Counted(map_.buckets[..], map_.hash, map_.M, i, kept, wraps, now, cleartime)
    {
      hide Tables.Table.Valid, ShiftedFrom, KeysBefore, RobinHood.Table, Sweeping, Spec.Life, Counted, Removed;
      ghost var b, m := map_.buckets[..], map_.M;
      var bkt := map_.buckets[i];
      map_.IsTable();
      map_.Occupant(i);
      var reason := Spec.Life(bkt.entry, now, cleartime);
      SweepStep(Abs(), s0, bkt.entry.key, now);
      clearcount := clearcount - Spec.Tally(reason);
      map_.DelBkt(i);
      CountDead(b, map_.hash, m, i, kept, wraps, now, cleartime);
    }

    /** sweepop: a slot is looked at again after a deletion, because the entry behind it moved in.  An
        entry that a wrapped shift takes from the first bucket back to the last is counted once more as
        kept. */
    method SweepOp(now: int, shrinkOk: bool) returns (swept: nat, kept: nat)
      requires Valid()
      modifies this`clearcount, map_, map_.buckets
      ensures Valid() && Abs() == Spec.Sweep(old(Abs()), now)
      ensures swept == |old(map_.M)| - |map_.M|
      ensures kept == |map_.M| + Wraps(old(map_.buckets[..]), map_.hash, old(map_.M), 0, now, cleartime)
      ensures kept == |map_.M| <==> !Overcounts(old(map_.buckets[..]), now, cleartime)
      ensures shrinkOk ==> !SparseIn(map_.allowShrink, map_.buckets.Length, map_.count)
    {
      hide Tables.Table.Valid, RobinHood.Table, Sweeping, Spec.Life, Spec.Sweep, Wraps, Overcounts, Counted, Dead;
      var n, i := map_.buckets.Length, 0;
      swept, kept := 0, 0;
      map_.IsTable();
      ghost var s0, wraps := Abs(), Wraps(map_.buckets[..], map_.hash, map_.M, 0, now, cleartime);
      WrapsIff(map_.buckets[..], map_.hash, map_.M, now, cleartime);
      SweepInit(s0, now);
      CountStart(map_.buckets[..], map_.hash, map_.M, now, cleartime);
      while i < n
        invariant i <= n && map_.Valid() && map_.buckets == old(map_.buckets)
        invariant Sweeping(Abs(), s0, now) && swept == |s0.m| - |map_.M|
        invariant Counted(map_.buckets[..], map_.hash, map_.M, i, kept, wraps, now, cleartime)
        decreases |map_.M| + n - i
      {
        var bkt := map_.buckets[i];
        if !Dead(bkt, now, cleartime) {
          CountLive(map_.buckets[..], map_.hash, map_.M, i, kept, wraps, now, cleartime);
          kept, i := if bkt.dib > 0 then kept + 1 else kept, i + 1;
          continue;
        }
        SweepAt(i, now, s0, kept, wraps);
        swept := swept + 1;
      }
      CountEnd(map_.buckets[..], map_.hash, map_.M, kept, wraps, now, cleartime);
      SweepDone(map_.buckets[..], map_.hash, s0, Abs(), now);
      map_.TryShrink(true, shrinkOk);
    }

    /** The loop of iterop. */
    method IterLoop(act: Chooser, now: int)
      returns (stopped: bool, visited: seq<Entry>, ghost deleted: set<Bytes>, ghost i: nat)
      requires Valid()
      modifies map_, map_.buckets
      ensures Valid() && map_.buckets == old(map_.buckets)
      ensures Iterating(map_.buckets[..], map_.M, old(map_.M), i, visited, deleted, now, cleartime, act)
      ensures stopped <==> Stopped(visited, act)
      ensures !stopped ==> i == map_.buckets.Length
    {
      hide Tables.Table.Valid, ShiftedFrom, RobinHood.Table, Iterating, Spec.Life, Stopped;
      var n, j := map_.buckets.Length, 0;
      visited, deleted, stopped := [], {}, false;
      IterInit(map_.buckets[..], map_.M, now, cleartime, act);
      while j < n && !stopped
        invariant j <= n && map_.Valid() && map_.buckets == old(map_.buckets)
        invariant Iterating(map_.buckets[..], map_.M, old(map_.M), j, visited, deleted, now, cleartime, act)
        invariant stopped <==> Stopped(visited, act)
        decreases !stopped, |map_.M| + n - j
      {
        ghost var b, m := map_.buckets[..], map_.M;
        map_.IsTable();
        var bkt := map_.buckets[j];
        if bkt.dib == 0 || Spec.Life(bkt.entry, now, cleartime) != Spec.Alive {
          IterSkip(b, map_.hash, m, old(map_.M), j, visited, deleted, now, cleartime, act);
          j := j + 1;
          continue;
        }
        map_.Occupant(j);
        var action := act(|visited|, bkt.entry);
        StoppedAt(visited, bkt.entry, act);
        if action.delete {
          map_.DelBkt(j);
          IterDelete(map_.buckets[..], b, map_.hash, m, old(map_.M), j, visited, deleted, now, cleartime, act);
          visited, deleted := visited + [bkt.entry], deleted + {bkt.entry.key};
        } else {
          IterKeep(b, map_.hash, m, old(map_.M), j, visited, deleted, now, cleartime, act);
          visited, j := visited + [bkt.entry], j + 1;
        }
        stopped := action.stop;
      }
      i := j;
    }

    /** iterop: shows every live entry to `act`, which may delete it or stop. */
    method IterOp(act: Chooser, now: int, shrinkOk: bool)
      returns (status: Spec.Status, visited: seq<Entry>, ghost deleted: set<Bytes>)
      requires Valid()
      modifies map_, map_.buckets
      ensures Valid() && Abs() == old(Abs()).(m := old(map_.M) - deleted)
      ensures map_.buckets == old(map_.buckets) || fresh(map_.buckets)
      ensures Shown(old(map_.M), visited, deleted, now, cleartime, act)
      ensures status == if Stopped(visited, act) then Spec.Canceled else Spec.Finished
      ensures status == Spec.Finished ==>
                forall k :: k in old(map_.M) && Spec.Life(old(map_.M)[k], now, cleartime) == Spec.Alive
                  ==> old(map_.M)[k] in visited
      ensures deleted == {} ==> forall v, w :: 0 <= v < w < |visited| ==> visited[v].key != visited[w].key
      ensures shrinkOk ==> !SparseIn(map_.allowShrink, map_.buckets.Length, map_.count)
    {
      hide Tables.Table.Valid, RobinHood.Table, Iterating, Shown, Spec.Life, Stopped;
      var stopped;
      ghost var i;
      stopped, visited, deleted, i := IterLoop(act, now);
      map_.IsTable();
      IterDone(map_.buckets[..], map_.hash, map_.M, old(map_.M), i, visited, deleted, now, cleartime, act);
      map_.TryShrink(true, shrinkOk);
      status := if stopped then Spec.Canceled else Spec.Finished;
    }
  }

  // ----- iterating -----

  datatype Action = Action(delete: bool, stop: bool)

  /** The user's callback: it may answer differently at each visit. */
  type Chooser = (nat, Entry) -> Action

  /** The callback saw live entries only, and exactly what it chose was deleted. */
  ghost predicate Shown(m0: map<Bytes, Entry>, visited: seq<Entry>, deleted: set<Bytes>, now: int, cleartime: int,
                        act: Chooser) {
    && (forall v :: 0 <= v < |visited| ==>
          && visited[v].key in m0 && m0[visited[v].key] == visited[v]
          && Spec.Life(visited[v], now, cleartime) == Spec.Alive)
    && (forall v :: 0 <= v < |visited| && act(v, visited[v]).delete ==> visited[v].key in deleted)
    && (forall k :: k in deleted ==> exists v :: 0 <= v < |visited| && visited[v].key == k && act(v, visited[v]).delete)
  }

  /** The callback asked to stop at its last visit. */
  ghost predicate Stopped(visited: seq<Entry>, act: Chooser) {
    |visited| > 0 && act(|visited| - 1, visited[|visited| - 1]).stop
  }

  lemma StoppedAt(visited: seq<Entry>, e: Entry, act: Chooser)
    ensures Stopped(visited + [e], act) <==> act(|visited|, e).stop
  {
  }

  /** Every live entry in the slots before `i` has been visited, and only those if nothing was
      deleted yet. */
  ghost predicate Iterating(b: seq<Bucket>, m: map<Bytes, Entry>, m0: map<Bytes, Entry>, i: nat,
                            visited: seq<Entry>, deleted: set<Bytes>, now: int, cleartime: int, act: Chooser) {
    && i <= |b| && m == m0 - deleted && Shown(m0, visited, deleted, now, cleartime, act)
    && (forall k :: k in KeysBefore(b, i) && k in m && Spec.Life(m[k], now, cleartime) == Spec.Alive ==>
          m[k] in visited)
    && (deleted == {} ==>
          && (forall v :: 0 <= v < |visited| ==> visited[v].key in KeysBefore(b, i))
          && (forall v, w :: 0 <= v < w < |visited| ==> visited[v].key != visited[w].key))
  }

  lemma IterInit(b: seq<Bucket>, m0: map<Bytes, Entry>, now: int, cleartime: int, act: Chooser)
    ensures Iterating(b, m0, m0, 0, [], {}, now, cleartime, act)
    ensures !Stopped([], act)
  {
    assert m0 - {} == m0;
  }

  lemma IterSkip(b: seq<Bucket>, h: Hasher, m: map<Bytes, Entry>, m0: map<Bytes, Entry>, i: nat,
                 visited: seq<Entry>, deleted: set<Bytes>, now: int, cleartime: int, act: Chooser)
    requires RobinHood.Table(b, h, m) && i < |b|
    requires Iterating(b, m, m0, i, visited, deleted, now, cleartime, act)
    requires b[i].dib == 0 || Spec.Life(b[i].entry, now, cleartime) != Spec.Alive
    ensures Iterating(b, m, m0, i + 1, visited, deleted, now, cleartime, act)
  {
    hide RobinHood.Table, Shown, KeysBefore;
    KeysStep(b, h, m, i);
    if b[i].dib > 0 {
      Stored(b, h, m, i);
    }
  }

  lemma ShownMore(m0: map<Bytes, Entry>, visited: seq<Entry>, deleted: set<Bytes>, e: Entry,
                  now: int, cleartime: int, act: Chooser)
    requires Shown(m0, visited, deleted, now, cleartime, act)
    requires e.key in m0 && m0[e.key] == e && Spec.Life(e, now, cleartime) == Spec.Alive
    ensures var gone := if act(|visited|, e).delete then deleted + {e.key} else deleted;
            Shown(m0, visited + [e], gone, now, cleartime, act)
  {
    var vs := visited + [e];
    var gone := if act(|visited|, e).delete then deleted + {e.key} else deleted;
    forall k | k in gone ensures exists v :: 0 <= v < |vs| && vs[v].key == k && act(v, vs[v]).delete {
      if k in deleted {
        var v :| 0 <= v < |visited| && visited[v].key == k && act(v, visited[v]).delete;
        assert vs[v] == visited[v];
      } else {
        assert vs[|visited|] == e;
      }
    }
  }

  lemma IterKeep(b: seq<Bucket>, h: Hasher, m: map<Bytes, Entry>, m0: map<Bytes, Entry>, i: nat,
                 visited: seq<Entry>, deleted: set<Bytes>, now: int, cleartime: int, act: Chooser)
    requires RobinHood.Table(b, h, m) && i < |b| && b[i].dib > 0
    requires Iterating(b, m, m0, i, visited, deleted, now, cleartime, act)
    requires Spec.Life(b[i].entry, now, cleartime) == Spec.Alive && !act(|visited|, b[i].entry).delete
    ensures Iterating(b, m, m0, i + 1, visited + [b[i].entry], deleted, now, cleartime, act)
  {
    hide RobinHood.Table, Shown, KeysBefore;
    KeysStep(b, h, m, i);
    Stored(b, h, m, i);
    ShownMore(m0, visited, deleted, b[i].entry, now, cleartime, act);
  }

  lemma IterDelete(c: seq<Bucket>, b: seq<Bucket>, h: Hasher, m: map<Bytes, Entry>, m0: map<Bytes, Entry>, i: nat,
                   visited: seq<Entry>, deleted: set<Bytes>, now: int, cleartime: int, act: Chooser)
    requires RobinHood.Table(b, h, m) && i < |b| && b[i].dib > 0 && ShiftedFrom(c, b, i)
    requires Iterating(b, m, m0, i, visited, deleted, now, cleartime, act)
    requires Spec.Life(b[i].entry, now, cleartime) == Spec.Alive && act(|visited|, b[i].entry).delete
    ensures var e := b[i].entry;
            Iterating(c, m - {e.key}, m0, i, visited + [e], deleted + {e.key}, now, cleartime, act)
  {
    hide RobinHood.Table, Shown, KeysBefore, ShiftedFrom;
    var key := b[i].entry.key;
    BehindScan(c, b, i);
    Stored(b, h, m, i);
    ShownMore(m0, visited, deleted, b[i].entry, now, cleartime, act);
    assert m - {key} == m0 - (deleted + {key});
  }

  lemma IterDone(b: seq<Bucket>, h: Hasher, m: map<Bytes, Entry>, m0: map<Bytes, Entry>, i: nat,
                 visited: seq<Entry>, deleted: set<Bytes>, now: int, cleartime: int, act: Chooser)
    requires RobinHood.Table(b, h, m)
    requires Iterating(b, m, m0, i, visited, deleted, now, cleartime, act)
    ensures m == m0 - deleted && Shown(m0, visited, deleted, now, cleartime, act)
    ensures deleted == {} ==> forall v, w :: 0 <= v < w < |visited| ==> visited[v].key != visited[w].key
    ensures i == |b| ==>
              forall k :: k in m0 && Spec.Life(m0[k], now, cleartime) == Spec.Alive ==> m0[k] in visited
  {
    KeysAll(b, h, m);
    forall k | i == |b| && k in m0 && Spec.Life(m0[k], now, cleartime) == Spec.Alive
      ensures m0[k] in visited
    {
      if k in deleted {
        var v :| 0 <= v < |visited| && visited[v].key == k && act(v, visited[v]).delete;
        assert visited[v] in visited;
      } else {
        assert k in m && m[k] == m0[k] && k in KeysBefore(b, i);
      }
    }
  }

  // ----- sweeping -----

  /** A sweep that has reached slot `i`: with `wraps` wrapped shifts in all, those still to come are
      missing from `kept`. */
  ghost predicate Counted(b: seq<Bucket>, h: Hasher, m: map<Bytes, Entry>, i: nat, kept: nat, wraps: nat,
                          now: int, cleartime: int) {
    && RobinHood.Table(b, h, m) && |m| < |b| && i <= |b| && Visited(b, i, now, cleartime)
    && kept + Wraps(b, h, m, i, now, cleartime) == |KeysBefore(b, i)| + wraps
  }

  lemma CountStart(b: seq<Bucket>, h: Hasher, m: map<Bytes, Entry>, now: int, cleartime: int)
    requires RobinHood.Table(b, h, m) && |m| < |b|
    ensures Counted(b, h, m, 0, 0, Wraps(b, h, m, 0, now, cleartime), now, cleartime)
  {
    hide RobinHood.Table, Wraps;
  }

  lemma CountLive(b: seq<Bucket>, h: Hasher, m: map<Bytes, Entry>, i: nat, kept: nat, wraps: nat,
                  now: int, cleartime: int)
    requires Counted(b, h, m, i, kept, wraps, now, cleartime) && i < |b| && !Dead(b[i], now, cleartime)
    ensures Counted(b, h, m, i + 1, if b[i].dib > 0 then kept + 1 else kept, wraps, now, cleartime)
  {
    hide RobinHood.Table, Wraps, Visited, Dead, KeysBefore;
    KeysCount(b, h, m, i);
    VisitedOne(b, i, now, cleartime);
    SkipLive(b, h, m, i, i + 1, now, cleartime);
  }

  lemma KeysCount(b: seq<Bucket>, h: Hasher, m: map<Bytes, Entry>, i: nat)
    requires RobinHood.Table(b, h, m) && i < |b|
    ensures |KeysBefore(b, i + 1)| == |KeysBefore(b, i)| + if b[i].dib > 0 then 1 else 0
  {
    hide RobinHood.Table, KeysBefore;
    KeysStep(b, h, m, i);
  }

  lemma CountDead(b: seq<Bucket>, h: Hasher, m: map<Bytes, Entry>, i: nat, kept: nat, wraps: nat,
                  now: int, cleartime: int)
    requires Counted(b, h, m, i, kept, wraps, now, cleartime) && i < |b| && Dead(b[i], now, cleartime)
    ensures HasRoom(b)
    ensures Counted(Removed(b, i), h, m - {b[i].entry.key}, i, kept, wraps, now, cleartime)
  {
    hide RobinHood.Table, Wraps, Visited, KeysBefore, Removed, ShiftedFrom;
    RemovedTable(b, h, m, i);
    BehindKeys(Removed(b, i), b, h, m, i);
    StillVisited(Removed(b, i), b, i, now, cleartime);
    WrapsStep(b, h, m, i, now, cleartime);
  }

  lemma CountEnd(b: seq<Bucket>, h: Hasher, m: map<Bytes, Entry>, kept: nat, wraps: nat, now: int, cleartime: int)
    requires Counted(b, h, m, |b|, kept, wraps, now, cleartime)
    ensures RobinHood.Table(b, h, m) && Visited(b, |b|, now, cleartime) && kept == |m| + wraps
  {
    hide RobinHood.Table, KeysBefore;
    KeysAll(b, h, m);
    assert |m| == |m.Keys|;
  }

  lemma VisitedOne(b: seq<Bucket>, i: nat, now: int, cleartime: int)
    requires i < |b| && Visited(b, i, now, cleartime) && !Dead(b[i], now, cleartime)
    ensures Visited(b, i + 1, now, cleartime)
  {
  }

  /** Part of the dead entries of `s0` are gone, and the clear count with them. */
  ghost predicate Sweeping(s: Spec.State, s0: Spec.State, now: int) {
    && s.cas == s0.cas && s.cleartime == s0.cleartime
    && (forall k :: k in s.m ==> k in s0.m && s.m[k] == s0.m[k])
    && (forall k :: k in s0.m && Spec.Life(s0.m[k], now, s0.cleartime) == Spec.Alive ==> k in s.m)
    && s.clearcount - |Spec.ClearedKeys(s)| == s0.clearcount - |Spec.ClearedKeys(s0)|
  }

  lemma SweepInit(s: Spec.State, now: int)
    ensures Sweeping(s, s, now)
  {
  }

  lemma SweepStep(s: Spec.State, s0: Spec.State, k: Bytes, now: int)
    requires Sweeping(s, s0, now) && k in s.m && Spec.Life(s.m[k], now, s.cleartime) != Spec.Alive
    ensures var r := Spec.Life(s.m[k], now, s.cleartime);
            Sweeping(s.(m := s.m - {k}, clearcount := s.clearcount - Spec.Tally(r)), s0, now)
    ensures |(s.m - {k})| == |s.m| - 1
  {
    hide Spec.ClearedKeys, Spec.Life;
    EvictCount(s, k, now);
    assert s.m.Keys == (s.m - {k}).Keys + {k};
  }

  lemma EvictCount(s: Spec.State, k: Bytes, now: int)
    requires k in s.m
    ensures var r := Spec.Life(s.m[k], now, s.cleartime);
            |Spec.ClearedKeys(s.(m := s.m - {k}, clearcount := s.clearcount - Spec.Tally(r)))|
            == |Spec.ClearedKeys(s)| - Spec.Tally(r)
  {
    var r := Spec.Life(s.m[k], now, s.cleartime);
    var s' := s.(m := s.m - {k}, clearcount := s.clearcount - Spec.Tally(r));
    assert Spec.ClearedKeys(s') == Spec.ClearedKeys(s) - {k};
  }

  lemma SweepDone(b: seq<Bucket>, h: Hasher, s0: Spec.State, s: Spec.State, now: int)
    requires RobinHood.Table(b, h, s.m) && Sweeping(s, s0, now) && Visited(b, |b|, now, s.cleartime)
    ensures s == Spec.Sweep(s0, now)
    ensures KeysBefore(b, |b|) == s.m.Keys
  {
    KeysAll(b, h, s.m);
    hide RobinHood.Table, KeysBefore;
    forall k | k in s.m ensures Spec.Life(s.m[k], now, s.cleartime) == Spec.Alive {
      var p := Locate(b, h, s.m, k);
    }
    assert Spec.ClearedKeys(s) == {};
    assert s.m == Spec.Living(s0.m, now, s0.cleartime);
  }
}
