/**
 A restart: the entries alive in a cache are saved, and the file is loaded into a cache at a
 later time.  Times come from two clocks, the cache's own and the wall clock.
 */
module Restart {
  import opened Common
  import opened Snapshot
  import opened CacheSpec
  import Lz4Spec
  import Lz4Decoder
  import Lz4Compressor
  import Resp
  import Varint

  /** The cache clock (sys_now) and the wall clock (sys_unixnow) at one instant. */
  datatype Clock = Clock(now: nat, unix: nat)

  predicate Sane(c: Clock) {
    c.now < INT64_MAX && c.unix <= INT64_MAX
  }

  /** One item to load: the wall-clock time of its block, and the clocks of the load. */
  datatype Restore = Restore(item: Item, unixtime: nat, at: Clock)

  /** The wall-clock time at which an item expires. */
  function UnixExpiry(r: Restore): int { AddClamp(r.unixtime, r.item.ttl) }

  /** An item that has expired since it was saved is skipped. */
  predicate Late(r: Restore) { r.item.ttl > 0 && UnixExpiry(r) < r.at.unix }

  function StoreOptions(ttl: int, flags: nat, cas: nat): StoreOpts {
    StoreOpts(0, ttl, flags, cas, false, false, false, false, false, None)
  }

  function LoadItem(s: State, r: Restore, c: Config): State {
    if Late(r) then s
    else
      var ttl := if r.item.ttl > 0 then UnixExpiry(r) - r.at.unix else 0;
      Store(s, r.item.key, r.item.val, StoreOptions(ttl, r.item.flags, r.item.cas), r.at.now, c, false, None).0
  }

  function LoadAll(s: State, rs: seq<Restore>, c: Config): State
    decreases |rs|
  {
    if rs == [] then s else LoadAll(LoadItem(s, rs[0], c), rs[1..], c)
  }

  function Tag(items: seq<Item>, unixtime: nat, at: Clock): (r: seq<Restore>)
    ensures |r| == |items| && forall i :: 0 <= i < |items| ==> r[i] == Restore(items[i], unixtime, at)
  {
    seq(|items|, i requires 0 <= i < |items| => Restore(items[i], unixtime, at))
  }

  /** What a compressed block holds: save time, items, and whether it is well formed. */
  function Contents(b: Block): (nat, seq<Item>, bool) {
    match Lz4Spec.Decode(b.cdata, b.dlen)
    case Some(d) => if |d| == b.dlen then GetBlock(d) else (0, [], false)
    case None => (0, [], false)
  }

  function BlockRestores(b: Block, at: Clock): seq<Restore> {
    Tag(Contents(b).1, Contents(b).0, at)
  }

  function Lates(rs: seq<Restore>): nat {
    if rs == [] then 0 else (if Late(rs[0]) then 1 else 0) + Lates(rs[1..])
  }

  // ----- the loader -----

  /** A number at a cursor. */
  method NumberAt(d: Bytes, p: nat, max: nat) returns (r: Option<(nat, nat)>)
    requires p <= |d|
    ensures r.None? <==> GetNumber(d[p..], max).None?
    ensures r.Some? ==> p < r.value.1 <= |d| && GetNumber(d[p..], max) == Some((r.value.0, d[r.value.1..]))
  {
    hide Varint.ReadVar;
    var n, x := Varint.ReadAt(d[p..]);
    Varint.ReadLength(d[p..], 0, 0);
    if n <= 0 || x > max {
      return None;
    }
    assert Varint.ReadVar(d[p..]) == Varint.Value(n, x);
    Used(d, p, n, x);
    assert d[p..][n..] == d[p + n..];
    return Some((x, p + n));
  }

  lemma Used(d: Bytes, p: nat, n: nat, x: nat)
    requires p <= |d| && Varint.ReadVar(d[p..]) == Varint.Value(n, x)
    ensures 0 < n <= |d| - p
  {
    Varint.ReadLength(d[p..], 0, 0);
  }

  /** A string at a cursor. */
  method StringAt(d: Bytes, p: nat) returns (r: Option<(Bytes, nat)>)
    requires p <= |d|
    ensures r.None? <==> GetString(d[p..]).None?
    ensures r.Some? ==> p < r.value.1 <= |d| && GetString(d[p..]) == Some((r.value.0, d[r.value.1..]))
  {
    hide GetNumber;
    var k := NumberAt(d, p, NOLIMIT);
    if k.None? {
      return None;
    }
    var n, q := k.value.0, k.value.1;
    if |d| - q < n {
      return None;
    }
    assert d[q..][..n] == d[q..q + n] && d[q..][n..] == d[q + n..];
    return Some((d[q..q + n], q + n));
  }

  method NumbersAt(d: Bytes, p: nat, key: Bytes, val: Bytes) returns (r: Option<(Item, nat)>)
    requires p <= |d|
    ensures r.None? <==> GetNumbers(d[p..], key, val).None?
    ensures r.Some? ==> p < r.value.1 <= |d| && GetNumbers(d[p..], key, val) == Some((r.value.0, d[r.value.1..]))
  {
    hide GetNumber;
    var ttl := NumberAt(d, p, INT64_MAX);
    if ttl.None? {
      return None;
    }
    var flags := NumberAt(d, ttl.value.1, UINT32_LIMIT - 1);
    if flags.None? {
      return None;
    }
    var cas := NumberAt(d, flags.value.1, NOLIMIT);
    if cas.None? {
      return None;
    }
    return Some((Item(key, val, ttl.value.0, flags.value.0, cas.value.0), cas.value.1));
  }

  /** The fields of an entry, in the order load_block reads them. */
  method ItemAt(d: Bytes, p: nat) returns (r: Option<(Item, nat)>)
    requires p < |d|
    ensures r.None? <==> GetItem(d[p..]).None?
    ensures r.Some? ==> p < r.value.1 <= |d| && GetItem(d[p..]) == Some((r.value.0, d[r.value.1..]))
  {
    hide GetString, GetNumbers;
    if d[p] != 0 {
      return None;
    }
    assert d[p..][1..] == d[p + 1..];
    var key := StringAt(d, p + 1);
    if key.None? {
      return None;
    }
    var val := StringAt(d, key.value.1);
    if val.None? {
      return None;
    }
    r := NumbersAt(d, val.value.1, key.value.0, val.value.0);
  }

  /** A loading thread with the cache it fills (struct loadctx). */
  class Worker {
    var cache: State
    var ninserted: nat
    var nexpired: nat

    constructor (s: State)
      ensures cache == s && ninserted == 0 && nexpired == 0
    {
      cache, ninserted, nexpired := s, 0, 0;
    }

    /** One pass of the entry loop. */
    method LoadOne(r: Restore, c: Config)
      modifies this
      ensures cache == LoadItem(old(cache), r, c)
      ensures nexpired == old(nexpired) + (if Late(r) then 1 else 0)
      ensures ninserted == old(ninserted) + (if Late(r) then 0 else 1)
    {
      hide Store;
      var ttl: int := r.item.ttl;
      if ttl > 0 {
        var unixexpires := AddClamp(r.unixtime, ttl);
        if unixexpires < r.at.unix {
          nexpired := nexpired + 1;
          return;
        }
        ttl := unixexpires - r.at.unix;
      }
      var o := StoreOptions(ttl, r.item.flags, r.item.cas);
      var (s, _) := Store(cache, r.item.key, r.item.val, o, r.at.now, c, false, None);
      cache := s;
      ninserted := ninserted + 1;
    }

    /** load_block: stores the items of a block up to the first mistake. */
    method LoadBlock(b: Block, at: Clock, c: Config) returns (ok: bool)
      modifies this
      ensures ok == Contents(b).2
      ensures cache == LoadAll(old(cache), BlockRestores(b, at), c)
      ensures nexpired == old(nexpired) + Lates(BlockRestores(b, at))
      ensures ninserted + nexpired == old(ninserted + nexpired) + |BlockRestores(b, at)|
    {
      hide LoadItem, GetNumber, GetItems, Lz4Spec.Decode, LoadAll, Lates;
      LoadNone(cache, c);
      var ddata := new Byte[b.dlen](_ => 0);
      var ret := Lz4Decoder.DecompressSafe(b.cdata, ddata);
      if ret < 0 || ret != b.dlen {
        assert BlockRestores(b, at) == [];
        return false;
      }
      var d := ddata[..];
      assert d == ddata[..ret];
      assert d[0..] == d;
      var u := NumberAt(d, 0, INT64_MAX);
      if u.None? {
        assert BlockRestores(b, at) == [];
        return false;
      }
      ok := LoadItems(d, u.value.1, u.value.0, at, c);
    }

    /** The entry loop of load_block, from a cursor on. */
    method LoadItems(d: Bytes, start: nat, unixtime: nat, at: Clock, c: Config) returns (ok: bool)
      requires start <= |d|
      modifies this
      ensures ok == GetItems(d[start..]).1
      ensures cache == LoadAll(old(cache), Tag(GetItems(d[start..]).0, unixtime, at), c)
      ensures nexpired == old(nexpired) + Lates(Tag(GetItems(d[start..]).0, unixtime, at))
      ensures ninserted + nexpired == old(ninserted + nexpired) + |GetItems(d[start..]).0|
    {
      hide LoadItem, GetItem, GetItems, LoadAll, Lates, Tag;
      var p := start;
      ghost var all := Tag(GetItems(d[start..]).0, unixtime, at);
      while p < |d|
        invariant start <= p <= |d|
        invariant GetItems(d[p..]).1 == GetItems(d[start..]).1
        invariant LoadAll(cache, Tag(GetItems(d[p..]).0, unixtime, at), c) == LoadAll(old(cache), all, c)
        invariant nexpired + Lates(Tag(GetItems(d[p..]).0, unixtime, at)) == old(nexpired) + Lates(all)
        invariant ninserted + nexpired + |GetItems(d[p..]).0| == old(ninserted + nexpired) + |GetItems(d[start..]).0|
        decreases |d| - p
      {
        var r := ItemAt(d, p);
        ItemsStep(d[p..], unixtime, at);
        if r.None? {
          LoadNone(cache, c);
          return false;
        }
        LoadStep(cache, Tag(GetItems(d[p..]).0, unixtime, at), c);
        LoadOne(Restore(r.value.0, unixtime, at), c);
        p := r.value.1;
      }
      ItemsEnd(d[p..], unixtime, at);
      LoadNone(cache, c);
      ok := true;
    }
  }

  lemma LoadNone(s: State, c: Config)
    ensures LoadAll(s, [], c) == s && Lates([]) == 0
  {
  }

  lemma LoadStep(s: State, rs: seq<Restore>, c: Config)
    requires rs != []
    ensures LoadAll(s, rs, c) == LoadAll(LoadItem(s, rs[0], c), rs[1..], c)
    ensures Lates(rs) == (if Late(rs[0]) then 1 else 0) + Lates(rs[1..])
  {
  }

  lemma ItemsStep(bs: Bytes, unixtime: nat, at: Clock)
    requires bs != []
    ensures GetItem(bs).None? ==> Tag(GetItems(bs).0, unixtime, at) == [] && GetItems(bs) == ([], false)
    ensures GetItem(bs).Some? ==>
              var (it, rest) := GetItem(bs).value;
              && GetItems(bs).1 == GetItems(rest).1 && |GetItems(bs).0| == 1 + |GetItems(rest).0|
              && var tags := Tag(GetItems(bs).0, unixtime, at);
                 tags != [] && tags[0] == Restore(it, unixtime, at) && tags[1..] == Tag(GetItems(rest).0, unixtime, at)
  {
    hide GetItem;
  }

  lemma ItemsEnd(bs: Bytes, unixtime: nat, at: Clock)
    requires bs == []
    ensures Tag(GetItems(bs).0, unixtime, at) == [] && GetItems(bs) == ([], true)
  {
  }

  // ----- what is in the cache afterwards -----

  ghost predicate Distinct(rs: seq<Restore>) {
    forall i, j :: 0 <= i < j < |rs| ==> rs[i].item.key != rs[j].item.key
  }

  /** An entry as its item asks: value and flags, and the time left counted from the load. */
  predicate Restored(e: Entry, r: Restore) {
    && e.val == r.item.val && e.flags == r.item.flags && e.time == r.at.now
    && e.expires ==
       if r.item.ttl > 0 && UnixExpiry(r) > r.at.unix then AddClamp(r.at.now, UnixExpiry(r) - r.at.unix) else 0
  }

  lemma ItemLoaded(s: State, r: Restore, c: Config)
    ensures var m, k := LoadItem(s, r, c).m, r.item.key;
            if Late(r) then m == s.m
            else k in m && Restored(m[k], r) && m == s.m[k := m[k]]
  {
  }

  /** The cache was left alone at a key. */
  predicate Untouched(m: map<Bytes, Entry>, m0: map<Bytes, Entry>, k: Bytes) {
    (k in m <==> k in m0) && (k in m ==> m[k] == m0[k])
  }

  /** Every item that has not expired is in the cache as saved, an expired one changes nothing, and
      entries with other keys are untouched. */
  lemma {:induction false} AllLoaded(s: State, rs: seq<Restore>, c: Config)
    requires Distinct(rs)
    ensures var m := LoadAll(s, rs, c).m;
            && (forall i :: 0 <= i < |rs| && !Late(rs[i]) ==> rs[i].item.key in m && Restored(m[rs[i].item.key], rs[i]))
            && (forall i :: 0 <= i < |rs| && Late(rs[i]) ==> Untouched(m, s.m, rs[i].item.key))
            && (forall k :: (forall i :: 0 <= i < |rs| ==> rs[i].item.key != k) ==> Untouched(m, s.m, k))
    decreases |rs|
  {
    hide LoadItem, Late, Restored;
    if rs != [] {
      var s1, rest := LoadItem(s, rs[0], c), rs[1..];
      ItemLoaded(s, rs[0], c);
      assert forall i :: 0 <= i < |rest| ==> rest[i] == rs[i + 1];
      AllLoaded(s1, rest, c);
      var m := LoadAll(s, rs, c).m;
      assert Untouched(m, s1.m, rs[0].item.key);
      forall i | 0 <= i < |rs|
        ensures !Late(rs[i]) ==> rs[i].item.key in m && Restored(m[rs[i].item.key], rs[i])
        ensures Late(rs[i]) ==> Untouched(m, s.m, rs[i].item.key)
      {
        if i > 0 {
          assert rs[i] == rest[i - 1];
        }
      }
      forall k | forall i :: 0 <= i < |rs| ==> rs[i].item.key != k ensures Untouched(m, s.m, k) {
        assert Untouched(m, s1.m, k);
      }
    }
  }

  /** Whether a key is absent or expired at a time of the cache clock. */
  predicate Gone(m: map<Bytes, Entry>, key: Bytes, t: int) {
    key !in m || (0 < m[key].expires <= t)
  }

  /** The instant an item is due, by the wall clock. */
  predicate Due(r: Restore, t: int) {
    r.item.ttl > 0 && UnixExpiry(r) <= r.at.unix + (t - r.at.now)
  }

  /** After a load each item expires exactly when its saved wall-clock expiry comes, unless that
      is the very instant of the load. */
  lemma ExpiryKept(s: State, rs: seq<Restore>, c: Config, i: nat)
    requires Distinct(rs) && i < |rs| && Sane(rs[i].at) && (Late(rs[i]) ==> rs[i].item.key !in s.m)
    ensures (forall t: int :: rs[i].at.now <= t < INT64_MAX ==>
              (Gone(LoadAll(s, rs, c).m, rs[i].item.key, t) <==> Due(rs[i], t)))
            <==> !(rs[i].item.ttl > 0 && UnixExpiry(rs[i]) == rs[i].at.unix)
  {
    hide LoadAll;
    AllLoaded(s, rs, c);
    var r, m := rs[i], LoadAll(s, rs, c).m;
    if r.item.ttl > 0 && UnixExpiry(r) == r.at.unix {
      assert !Gone(m, r.item.key, r.at.now) && Due(r, r.at.now);
    }
  }

  /** An item due at the very instant it is loaded is kept and never expires. */
  lemma LoadedWhenDue(s: State, c: Config)
    requires s.m == map[]
    ensures var r := Restore(Item([107], [118], 10, 0, 0), 100, Clock(5, 110));
            var m := LoadAll(s, [r], c).m;
            Due(r, 5) && forall t :: !Gone(m, r.item.key, t)
  {
    var r := Restore(Item([107], [118], 10, 0, 0), 100, Clock(5, 110));
    AllLoaded(s, [r], c);
    assert [r][0] == r;
  }

  // ----- a whole restart -----

  /** A shard that was saved: the clocks at that time, the entries the iteration visited, the
      block made of them, and the clocks when the block is loaded. */
  datatype Saved = Saved(clock: Clock, entries: seq<Entry>, block: Block, at: Clock)

  /** The item of an entry alive at `now`: the time it has left, 0 if it does not expire. */
  function ItemOf(e: Entry, now: nat): Item {
    Item(e.key, e.val, if e.expires > now then e.expires - now else 0, e.flags, e.cas)
  }

  predicate Kept(e: Entry, now: nat) {
    (e.expires <= 0 || e.expires > now) && Writable(ItemOf(e, now))
  }

  function ItemsOf(es: seq<Entry>, now: nat): (r: seq<Item>)
    ensures |r| == |es| && forall i :: 0 <= i < |es| ==> r[i] == ItemOf(es[i], now)
  {
    seq(|es|, i requires 0 <= i < |es| => ItemOf(es[i], now))
  }

  /** The block was written by save_entry and flush from live entries. */
  ghost predicate Faithful(v: Saved) {
    && Sane(v.clock) && (forall i :: 0 <= i < |v.entries| ==> Kept(v.entries[i], v.clock.now))
    && v.block.dlen == |PutBlock(v.clock.unix, ItemsOf(v.entries, v.clock.now))|
    && Lz4Spec.Decode(v.block.cdata, v.block.dlen) == Some(PutBlock(v.clock.unix, ItemsOf(v.entries, v.clock.now)))
  }

  /** What the loader makes of a saved block. */
  lemma BlockContents(v: Saved)
    requires Faithful(v)
    ensures Contents(v.block) == (v.clock.unix, ItemsOf(v.entries, v.clock.now), true)
  {
    hide Lz4Spec.Decode, PutBlock, GetBlock, Writable;
    assert forall i :: 0 <= i < |v.entries| ==> Kept(v.entries[i], v.clock.now);
    BlockBack(v.clock.unix, ItemsOf(v.entries, v.clock.now));
  }

  /** Loading the blocks one after the other. */
  function LoadBlocks(s: State, vs: seq<Saved>, c: Config): State
    decreases |vs|
  {
    if vs == [] then s else LoadBlocks(LoadAll(s, BlockRestores(vs[0].block, vs[0].at), c), vs[1..], c)
  }

  function Restores(vs: seq<Saved>): seq<Restore> {
    if vs == [] then [] else BlockRestores(vs[0].block, vs[0].at) + Restores(vs[1..])
  }

  lemma {:induction false} LoadConcat(s: State, a: seq<Restore>, b: seq<Restore>, c: Config)
    ensures LoadAll(s, a + b, c) == LoadAll(LoadAll(s, a, c), b, c)
    decreases |a|
  {
    hide LoadItem;
    if a == [] {
      assert a + b == b;
    } else {
      assert (a + b)[1..] == a[1..] + b;
      LoadConcat(LoadItem(s, a[0], c), a[1..], b, c);
    }
  }

  lemma {:induction false} BlocksAreItems(s: State, vs: seq<Saved>, c: Config)
    ensures LoadBlocks(s, vs, c) == LoadAll(s, Restores(vs), c)
    decreases |vs|
  {
    hide LoadAll, BlockRestores;
    if vs != [] {
      var first := BlockRestores(vs[0].block, vs[0].at);
      BlocksAreItems(LoadAll(s, first, c), vs[1..], c);
      LoadConcat(s, first, Restores(vs[1..]), c);
    } else {
      LoadNone(s, c);
    }
  }

  /** Where the j-th entry of the i-th shard is among all the items. */
  function Place(vs: seq<Saved>, i: nat, j: nat): nat
    requires i < |vs|
    decreases i
  {
    if i == 0 then j else |BlockRestores(vs[0].block, vs[0].at)| + Place(vs[1..], i - 1, j)
  }

  /** What is to be restored of the j-th entry of a shard. */
  function EntryRestore(v: Saved, j: nat): Restore
    requires j < |v.entries|
  {
    Restore(ItemOf(v.entries[j], v.clock.now), v.clock.unix, v.at)
  }

  lemma BlockPlace(v: Saved)
    requires Faithful(v)
    ensures var rs := BlockRestores(v.block, v.at);
            |rs| == |v.entries| && forall j :: 0 <= j < |rs| ==> rs[j] == EntryRestore(v, j)
  {
    hide Contents, Faithful;
    BlockContents(v);
  }

  lemma {:induction false} PlaceFinds(vs: seq<Saved>, i: nat, j: nat)
    requires i < |vs| && j < |vs[i].entries| && forall v :: v in vs ==> Faithful(v)
    ensures Place(vs, i, j) < |Restores(vs)|
    ensures Restores(vs)[Place(vs, i, j)] == EntryRestore(vs[i], j)
    decreases i
  {
    hide BlockRestores, Faithful, EntryRestore;
    BlockPlace(vs[0]);
    if i > 0 {
      PlaceFinds(vs[1..], i - 1, j);
    }
  }

  /** Every item comes from an entry. */
  lemma {:induction false} PlaceAll(vs: seq<Saved>, p: nat) returns (i: nat, j: nat)
    requires p < |Restores(vs)| && forall v :: v in vs ==> Faithful(v)
    ensures i < |vs| && j < |vs[i].entries| && p == Place(vs, i, j)
    decreases |vs|
  {
    hide BlockRestores, Faithful;
    BlockPlace(vs[0]);
    var n := |BlockRestores(vs[0].block, vs[0].at)|;
    if p < n {
      i, j := 0, p;
    } else {
      var i', j' := PlaceAll(vs[1..], p - n);
      i, j := i' + 1, j';
    }
  }

  /** No key was saved twice. */
  ghost predicate DistinctKeys(vs: seq<Saved>) {
    forall i, j, k, l ::
      (0 <= i < |vs| && 0 <= j < |vs[i].entries| && 0 <= k < |vs| && 0 <= l < |vs[k].entries| &&
       vs[i].entries[j].key == vs[k].entries[l].key) ==> i == k && j == l
  }

  lemma PlacesDistinct(vs: seq<Saved>)
    requires DistinctKeys(vs) && forall v :: v in vs ==> Faithful(v)
    ensures Distinct(Restores(vs))
  {
    hide Restores, Faithful;
    var rs := Restores(vs);
    forall p, q | 0 <= p < q < |rs| ensures rs[p].item.key != rs[q].item.key {
      var i, j := PlaceAll(vs, p);
      var k, l := PlaceAll(vs, q);
      PlaceFinds(vs, i, j);
      PlaceFinds(vs, k, l);
    }
  }

  // ----- any order -----

  lemma {:induction false} DistinctOnce(rs: seq<Restore>, r: Restore)
    requires Distinct(rs)
    ensures multiset(rs)[r] <= 1
    decreases |rs|
  {
    if rs != [] {
      var n := |rs| - 1;
      assert rs == rs[..n] + [rs[n]];
      DistinctOnce(rs[..n], r);
      assert r == rs[n] ==> r !in rs[..n];
    }
  }

  lemma Twice(rs: seq<Restore>, p: nat, q: nat)
    requires p < q < |rs| && rs[p] == rs[q]
    ensures multiset(rs)[rs[p]] >= 2
  {
    assert rs == rs[..q] + [rs[q]] + rs[q + 1..];
    assert rs[..q][p] == rs[p];
  }

  /** The order of items with distinct keys does not affect that they are distinct. */
  lemma Reordered(rs: seq<Restore>, us: seq<Restore>)
    requires Distinct(rs) && multiset(us) == multiset(rs)
    ensures Distinct(us)
  {
    forall p, q | 0 <= p < q < |us| ensures us[p].item.key != us[q].item.key {
      if us[p] == us[q] {
        Twice(us, p, q);
        DistinctOnce(rs, us[p]);
      } else {
        assert us[p] in multiset(us) && us[q] in multiset(us);
        var i :| 0 <= i < |rs| && rs[i] == us[p];
        var j :| 0 <= j < |rs| && rs[j] == us[q];
      }
    }
  }

  /** However the loading threads interleave, and whatever the clocks when each block is loaded: if the
      items of all blocks have been stored, each once, then each saved entry is back, due at the same
      wall-clock time, or has expired, and nothing else has changed. */
  lemma AnyInterleaving(vs: seq<Saved>, rs: seq<Restore>, s: State, c: Config)
    requires DistinctKeys(vs) && (forall v :: v in vs ==> Faithful(v)) && multiset(rs) == multiset(Restores(vs))
    ensures forall i, j :: 0 <= i < |vs| && 0 <= j < |vs[i].entries| ==>
              Survives(LoadAll(s, rs, c).m, s.m, vs[i].entries[j], vs[i].clock, vs[i].at)
    ensures forall key :: !SavedKey(vs, key) ==> Untouched(LoadAll(s, rs, c).m, s.m, key)
  {
    hide Restores, LoadAll, Restored, Late, Faithful, Distinct, Survives;
    PlacesDistinct(vs);
    Reordered(Restores(vs), rs);
    AllLoaded(s, rs, c);
    var m := LoadAll(s, rs, c).m;
    forall i, j | 0 <= i < |vs| && 0 <= j < |vs[i].entries|
      ensures Survives(m, s.m, vs[i].entries[j], vs[i].clock, vs[i].at)
    {
      PlaceFinds(vs, i, j);
      assert Restores(vs)[Place(vs, i, j)] in multiset(rs);
      var p :| 0 <= p < |rs| && rs[p] == EntryRestore(vs[i], j);
      SurvivesAs(m, s.m, vs[i], j);
    }
    forall key | !SavedKey(vs, key) ensures Untouched(m, s.m, key) {
      forall p | 0 <= p < |rs| ensures rs[p].item.key != key {
        assert rs[p] in multiset(Restores(vs));
        var q :| 0 <= q < |Restores(vs)| && Restores(vs)[q] == rs[p];
        var i, j := PlaceAll(vs, q);
        PlaceFinds(vs, i, j);
      }
    }
  }

  /** A restart: the file of the saved shards is read block by block, every block is accepted,
      and the cache holds exactly the saved entries that have not expired in between, with their
      values, flags and remaining life, besides what it held before under other keys. */
  lemma RestartRestores(vs: seq<Saved>, crc: Crc, s: State, c: Config)
    requires DistinctKeys(vs) && forall v :: v in vs ==> Faithful(v) && Framable(v.block, crc)
    ensures var blocks := seq(|vs|, i requires 0 <= i < |vs| => vs[i].block);
            GetFrames(Frames(blocks, crc), crc) == (blocks, true)
    ensures forall v :: v in vs ==> Contents(v.block).2
    ensures forall i, j :: 0 <= i < |vs| && 0 <= j < |vs[i].entries| ==>
              Survives(LoadBlocks(s, vs, c).m, s.m, vs[i].entries[j], vs[i].clock, vs[i].at)
    ensures forall key :: !SavedKey(vs, key) ==> Untouched(LoadBlocks(s, vs, c).m, s.m, key)
  {
    hide Frames, GetFrames, Contents, Restores, LoadBlocks, LoadAll, Faithful, Framable, Survives;
    FramesBack(seq(|vs|, i requires 0 <= i < |vs| => vs[i].block), crc);
    forall v | v in vs ensures Contents(v.block).2 { BlockContents(v); }
    BlocksAreItems(s, vs, c);
    AnyInterleaving(vs, Restores(vs), s, c);
  }

  ghost predicate SavedKey(vs: seq<Saved>, key: Bytes) {
    exists i, j :: 0 <= i < |vs| && 0 <= j < |vs[i].entries| && vs[i].entries[j].key == key
  }

  /** The wall-clock time at which an entry saved at `saved` expires. */
  function DueAt(e: Entry, saved: Clock): int {
    AddClamp(saved.unix, e.expires - saved.now)
  }

  /** An entry is back as it was, due at the same wall-clock time, unless that time passed before the
      load: then the cache keeps what it had.  An entry due at the very instant of the load comes back
      without an expiry. */
  predicate Survives(m: map<Bytes, Entry>, m0: map<Bytes, Entry>, e: Entry, saved: Clock, at: Clock) {
    if e.expires > 0 && DueAt(e, saved) < at.unix then Untouched(m, m0, e.key)
    else
      && e.key in m && m[e.key].val == e.val && m[e.key].flags == e.flags && m[e.key].time == at.now
      && m[e.key].expires ==
         if e.expires > 0 && DueAt(e, saved) > at.unix then AddClamp(at.now, DueAt(e, saved) - at.unix) else 0
  }

  /** The wall-clock expiry of a restored entry is that of the saved one. */
  lemma SameInstant(v: Saved, j: nat)
    requires j < |v.entries| && Kept(v.entries[j], v.clock.now)
    ensures var e := v.entries[j];
            if e.expires > 0 then
              UnixExpiry(EntryRestore(v, j)) == DueAt(e, v.clock) && EntryRestore(v, j).item.ttl > 0
            else EntryRestore(v, j).item.ttl == 0
  {
  }

  lemma SurvivesAs(m: map<Bytes, Entry>, m0: map<Bytes, Entry>, v: Saved, j: nat)
    requires j < |v.entries| && Faithful(v)
    requires var k, r := v.entries[j].key, EntryRestore(v, j);
             if Late(r) then Untouched(m, m0, k) else k in m && Restored(m[k], r)
    ensures Survives(m, m0, v.entries[j], v.clock, v.at)
  {
    hide Lz4Spec.Decode, PutBlock, AddClamp;
    SameInstant(v, j);
  }

  // ----- a buffer of four gigabytes and more -----

  /** The number of whole items before a cut, if it falls on the end of one. */
  ghost predicate CutsAt(unixtime: nat, items: seq<Item>, len: nat, k: nat) {
    k <= |items| && |PutBlock(unixtime, items[..k])| == len
  }

  /** What the loader makes of the first `len` bytes of a block. */
  lemma BlockCut(unixtime: nat, items: seq<Item>, len: nat)
    requires unixtime <= INT64_MAX && forall i :: 0 <= i < |items| ==> Writable(items[i])
    requires len <= |PutBlock(unixtime, items)|
    ensures var r := GetBlock(PutBlock(unixtime, items)[..len]);
            && (r.2 <==> exists k: nat :: CutsAt(unixtime, items, len, k))
            && forall k: nat :: CutsAt(unixtime, items, len, k) ==> r == (unixtime, items[..k], true)
  {
    hide PutItems, GetItems, Writable, GetNumber, Varint.Write;
    var w, all := Varint.Write(unixtime), PutItems(items);
    var bs := PutBlock(unixtime, items)[..len];
    if len < |w| {
      NumberCut(unixtime, INT64_MAX, len);
      assert bs == w[..len];
    } else {
      var n := len - |w|;
      NumberBack(unixtime, INT64_MAX, all[..n]);
      assert bs == w + all[..n];
      var j := ItemsCut(items, n);
      assert GetItems(all[..n]).1 ==> CutsAt(unixtime, items, len, j);
      forall k: nat | CutsAt(unixtime, items, len, k) ensures k == j {
        assert |PutItems(items[..k])| == n;
      }
    }
  }

  /** Of a block whose length is over the limit, the loader accepts the items before the cut if the cut
      falls on the end of an item, and refuses it otherwise. */
  lemma SilentlyCut(unixtime: nat, items: seq<Item>, b: Block)
    requires unixtime <= INT64_MAX && forall i :: 0 <= i < |items| ==> Writable(items[i])
    requires Compressed(b, PutBlock(unixtime, items))
    ensures var len := |PutBlock(unixtime, items)| % UINT32_LIMIT;
            && (Contents(b).2 <==>
                  len <= Lz4Compressor.MAX_INPUT_SIZE && exists k: nat :: CutsAt(unixtime, items, len, k))
            && (len <= Lz4Compressor.MAX_INPUT_SIZE ==>
                  forall k: nat :: CutsAt(unixtime, items, len, k) ==> Contents(b) == (unixtime, items[..k], true))
  {
    hide Lz4Spec.Decode, PutBlock, GetBlock, Writable, CutsAt;
    var whole := PutBlock(unixtime, items);
    SmallEnough(|whole|);
    BlockCut(unixtime, items, |whole| % UINT32_LIMIT);
  }

  /** An item of 2^29 bytes with a one-byte key: the largest that a client can store is larger. */
  function Large(key: Byte): Item {
    Item([key], seq(0x2000_0000 - 11, _ => 0), 0, 0, 0)
  }

  lemma LargeSize(key: Byte)
    ensures |PutItem(Large(key))| == 0x2000_0000 && Writable(Large(key)) && |Large(key).val| <= Resp.MAXARGSZ
  {
    var n := 0x2000_0000 - 11;
    assert |Large(key).val| == n;
    assert n == 0x1FFF_FFF5 && n / 128 == 0x3F_FFFF && n / 128 / 128 == 0x7FFF;
    assert n / 128 / 128 / 128 == 0xFF && n / 128 / 128 / 128 / 128 == 1;
    assert |Varint.Write(1)| == 1;
    assert |Varint.Write(0xFF)| == 2;
    assert |Varint.Write(0x7FFF)| == 3;
    assert |Varint.Write(0x3F_FFFF)| == 4;
    assert |Varint.Write(n)| == 5;
  }

  /** Eight of them, with eight different keys. */
  function EightLarge(k: nat): (r: seq<Item>)
    requires k <= 8
    ensures |r| == k && forall i :: 0 <= i < k ==> r[i] == Large(i)
  {
    seq(k, i requires 0 <= i < k => Large(i))
  }

  lemma {:induction false} EightSize(k: nat)
    requires k <= 8
    ensures |PutItems(EightLarge(k))| == k * 0x2000_0000
    ensures forall i :: 0 <= i < k ==> Writable(EightLarge(k)[i])
  {
    hide PutItem, PutItems, Writable, Large;
    if k > 0 {
      EightSize(k - 1);
      LargeSize(k - 1);
      assert EightLarge(k) == EightLarge(k - 1) + [Large(k - 1)];
      ItemsGrow(EightLarge(k - 1), Large(k - 1));
    } else {
      assert EightLarge(0) == [];
      NoItems();
    }
  }

  lemma NoItems()
    ensures PutItems([]) == []
  {
  }

  lemma {:induction false} ItemsConcat(a: seq<Item>, b: seq<Item>)
    ensures PutItems(a + b) == PutItems(a) + PutItems(b)
    decreases |a|
  {
    hide PutItem;
    if a == [] {
      assert a + b == b;
    } else {
      assert (a + b)[1..] == a[1..] + b;
      ItemsConcat(a[1..], b);
    }
  }

  /** Such blocks exist: eight entries of a size that clients may store, at the end of any shard, are
      lost without an error. */
  lemma EightItemsLost(unixtime: nat, items: seq<Item>, b: Block)
    requires unixtime <= INT64_MAX && forall i :: 0 <= i < |items| ==> Writable(items[i])
    requires |PutBlock(unixtime, items)| <= Lz4Compressor.MAX_INPUT_SIZE
    requires Compressed(b, PutBlock(unixtime, items + EightLarge(8)))
    ensures Contents(b) == (unixtime, items, true)
  {
    hide Contents, Writable, PutItem, Compressed, PutItems, Large, Varint.Write;
    EightSize(8);
    ItemsConcat(items, EightLarge(8));
    var all := items + EightLarge(8);
    var len := |PutBlock(unixtime, items)|;
    assert all[..|items|] == items;
    assert |PutBlock(unixtime, all)| == len + UINT32_LIMIT;
    assert |PutBlock(unixtime, all)| % UINT32_LIMIT == len;
    assert CutsAt(unixtime, all, len, |items|);
    SilentlyCut(unixtime, all, b);
  }
}
