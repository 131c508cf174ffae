/**
 struct map of src/pogocache.c: the bucket array of a shard, changed in place by probe
 loops, together with growth and shrinking by rehashing into a new array.  The outcome of
 each memory allocation is a parameter.
 */
module Tables {
  import opened Common
  import opened RobinHood

  /** Initial number of buckets of a shard. */
  const INITCAP: nat := 64

  /** Buckets come in INITCAP doublings. */
  ghost predicate IsCap(n: nat) {
    n == INITCAP || (n > INITCAP && n % 2 == 0 && IsCap(n / 2))
  }

  lemma {:induction false} CapAtLeast(n: nat)
    requires IsCap(n)
    ensures n >= INITCAP
  {
  }

  lemma CapInit()
    ensures IsCap(INITCAP)
  {
  }

  function GrowAt(n: nat, loadPct: nat): nat {
    n * loadPct / 100
  }

  function ShrinkAt(n: nat): nat {
    n * 10 / 100
  }

  /** Load factors between 55 and 95 percent leave an empty bucket, and half the buckets
      suffice for a table that is due for shrinking. */
  lemma LoadBounds(n: nat, loadPct: nat)
    requires n >= INITCAP && 55 <= loadPct <= 95
    ensures n * 55 / 100 <= GrowAt(n, loadPct) < n
  {
    assert n * 55 <= n * loadPct <= n * 95;
  }

  /** Doubling a full table makes room for at least one more entry. */
  lemma DoubledGrows(n: nat, loadPct: nat)
    requires IsCap(n) && 55 <= loadPct <= 95
    ensures IsCap(n * 2) && GrowAt(n, loadPct) < GrowAt(n * 2, loadPct)
  {
    CapAtLeast(n);
    assert n * 2 * loadPct == 2 * (n * loadPct);
    assert n * loadPct >= 64 * 55;
  }

  lemma CapDoubles(cap: nat, count: nat, loadPct: nat)
    requires IsCap(cap) && 55 <= loadPct <= 95 && count >= GrowAt(cap, loadPct)
    ensures IsCap(cap * 2) && cap * 2 <= 4 * count
  {
    CapAtLeast(cap);
    LoadBounds(cap, loadPct);
  }

  lemma HalfFits(n: nat, loadPct: nat)
    requires IsCap(n) && n > INITCAP && 55 <= loadPct <= 95
    ensures IsCap(n / 2) && ShrinkAt(n) <= GrowAt(n / 2, loadPct)
  {
    CapAtLeast(n / 2);
    LoadBounds(n / 2, loadPct);
  }

  /** The probe loop of map_insert: stores `x`, displacing richer entries, or replaces the
      entry with its key. */
  method Probe(a: array<Bucket>, h: Hasher, x: Entry, ghost m: map<Bytes, Entry>, ghost z: nat)
    returns (replaced: Option<Entry>)
    requires RobinHood.Table(a[..], h, m) && HasEmpty(a[..], z)
    modifies a
    ensures RobinHood.Table(a[..], h, m[x.key := x])
    ensures replaced == if x.key in m then Some(m[x.key]) else None
    ensures replaced.Some? ==> replaced.value.key == x.key
  {
    hide RobinHood.Table, Probing;
    var n := a.Length;
    var e := Bucket(1, Clip(h(x.key)), x);
    var i: nat := Home(e.hash, n);
    ProbeStart(a[..], h, m, x, z);
    while true
      invariant i < n && HasEmpty(a[..], z) && Probing(a[..], h, m, x, i, e, z)
      decreases Dist(i, z, n)
    {
      ghost var b := a[..];
      if a[i].dib == 0 {
        ProbeEmpty(b, h, m, x, i, e, z);
        a[i] := e;
        assert a[..] == b[i := e];
        return None;
      }
      if e.hash == a[i].hash && e.entry.key == a[i].entry.key {
        ProbeMatch(b, h, m, x, i, e, z);
        replaced := Some(a[i].entry);
        a[i] := a[i].(entry := e.entry);
        assert a[..] == b[i := b[i].(entry := e.entry)];
        return;
      }
      if a[i].dib < e.dib {
        ProbeSwap(b, h, m, x, i, e, z);
        var tmp := a[i];
        a[i] := e;
        assert a[..] == b[i := e];
        e := tmp;
      } else {
        ProbeHashes(b, h, m, x, i, e, z);
        ProbePast(b, h, m, x, i, e, z);
      }
      i := Next(i, n);
      e := e.(dib := e.dib + 1);
    }
  }

  /** The probe loop of resize: as in map_insert, but every key is known to be new. */
  method Reinsert(a: array<Bucket>, h: Hasher, src: Bucket, ghost m: map<Bytes, Entry>, ghost z: nat)
    requires RobinHood.Table(a[..], h, m) && HasEmpty(a[..], z)
    requires src.entry.key !in m && src.hash == Clip(h(src.entry.key))
    modifies a
    ensures RobinHood.Table(a[..], h, m[src.entry.key := src.entry])
  {
    hide RobinHood.Table, Probing;
    ghost var x := src.entry;
    var n, e := a.Length, src.(dib := 1);
    var i: nat := Home(e.hash, n);
    ProbeStart(a[..], h, m, x, z);
    while true
      invariant i < n && HasEmpty(a[..], z) && Probing(a[..], h, m, x, i, e, z)
      decreases Dist(i, z, n)
    {
      ghost var b := a[..];
      if a[i].dib == 0 {
        ProbeEmpty(b, h, m, x, i, e, z);
        a[i] := e;
        assert a[..] == b[i := e];
        return;
      }
      if a[i].dib < e.dib {
        ProbeSwap(b, h, m, x, i, e, z);
        var tmp := a[i];
        a[i] := e;
        assert a[..] == b[i := e];
        e := tmp;
      } else {
        if b[i].entry.key == e.entry.key {
          ProbeMatch(b, h, m, x, i, e, z);
        }
        ProbePast(b, h, m, x, i, e, z);
      }
      i := Next(i, n);
      e := e.(dib := e.dib + 1);
    }
  }

  /** The rehashing loop of resize: the buckets of `a`, slot by slot, into the empty `c`. */
  method Rehash(a: array<Bucket>, c: array<Bucket>, h: Hasher, ghost m: map<Bytes, Entry>)
    requires a != c && RobinHood.Table(a[..], h, m)
    requires c.Length > |m| && forall i :: 0 <= i < c.Length ==> c[i] == EMPTY
    modifies c
    ensures RobinHood.Table(c[..], h, m)
  {
    hide RobinHood.Table, Taken;
    ghost var b := a[..];
    AllEmpty(c[..], h);
    assert Taken(b, 0) == map[] by { TakenNone(b); }
    for i := 0 to a.Length
      invariant a[..] == b && RobinHood.Table(c[..], h, Taken(b, i))
    {
      if a[i].dib > 0 {
        TakenStep(b, h, m, i);
        ghost var z := EmptySlot(c[..], h, Taken(b, i));
        Reinsert(c, h, a[i], Taken(b, i), z);
      } else {
        TakenSkip(b, i);
      }
    }
    TableTaken(b, h, m);
  }

  /** The shifting loop of delbkt: empties slot `i` and moves the run behind it back. */
  method Unlink(a: array<Bucket>, h: Hasher, i: nat, ghost m: map<Bytes, Entry>, ghost z: nat)
    requires RobinHood.Table(a[..], h, m) && i < a.Length && a[i].dib > 0 && HasEmpty(a[..], z)
    modifies a
    ensures RobinHood.Table(a[..], h, m - {old(a[i]).entry.key})
    ensures ShiftedFrom(a[..], old(a[..]), i) && a[..] == Remove(old(a[..]), i, z)
  {
    hide RobinHood.Table, Holed;
    var n := a.Length;
    ghost var b0, m' := a[..], m - {a[i].entry.key};
    OpenHole(b0, h, m, i, z);
    a[i] := a[i].(dib := 0);
    ghost var v := Vacate(b0, i);
    var j: nat := i;
    while true
      invariant j < n && |v| == n && v == Vacate(a[..], j)
      invariant Holed(v, h, m', j) && HasEmpty(v, z) && Shifting(v, b0, i, j, z)
      invariant j != z && CloseUp(v, j, z) == Remove(b0, i, z)
      decreases Dist(j, z, n)
    {
      var g := j;
      j := Next(j, n);
      if a[j].dib <= 1 {
        CloseHole(v, h, m', g);
        a[g] := a[g].(dib := 0);
        assert a[..] == v;
        return;
      }
      MoveHole(v, h, m', g);
      ShiftStep(v, b0, i, g, z);
      a[g] := a[j].(dib := a[j].dib - 1);
      v := ShiftInto(v, g);
      assert v == Vacate(a[..], j);
    }
  }

  /** needsshrink: a table above its initial size of which at most a tenth is used. */
  predicate SparseIn(allowShrink: bool, n: nat, count: nat) {
    allowShrink && n > INITCAP && count <= ShrinkAt(n)
  }

  /** The least number of buckets, in doublings of the initial one, that holds `count` entries below the
      load factor. */
  ghost predicate LeastFor(n: nat, count: nat, loadPct: nat) {
    IsCap(n) && count < GrowAt(n, loadPct) && (n == INITCAP || GrowAt(n / 2, loadPct) <= count)
  }

  lemma LeastNotSparse(allowShrink: bool, n: nat, count: nat, loadPct: nat)
    requires LeastFor(n, count, loadPct) && 55 <= loadPct <= 95
    ensures !SparseIn(allowShrink, n, count)
  {
    if n > INITCAP {
      CapAtLeast(n / 2);
      LoadBounds(n / 2, loadPct);
    }
  }

  /** The capacity search of tryshrink: the least number of doublings above `count`. */
  method FitCap(count: nat, loadPct: nat) returns (cap: nat)
    requires 55 <= loadPct <= 95
    ensures LeastFor(cap, count, loadPct)
  {
    hide IsCap, GrowAt;
    cap := INITCAP;
    var limit := GrowAt(cap, loadPct);
    assert IsCap(cap) by { CapInit(); }
    while count >= limit
      invariant IsCap(cap) && limit == GrowAt(cap, loadPct)
      invariant cap == INITCAP || (cap <= 4 * count && GrowAt(cap / 2, loadPct) <= count)
      decreases 4 * count + INITCAP - cap
    {
      CapDoubles(cap, count, loadPct);
      cap := cap * 2;
      limit := GrowAt(cap, loadPct);
    }
  }

  class Table {
    const hash: Hasher
    const loadPct: nat
    const allowShrink: bool
    var buckets: array<Bucket>
    var count: nat
    var growat: nat
    var shrinkat: nat
    ghost var M: map<Bytes, Entry>

    /** Every probe loop meets an empty bucket because count <= growat < nbuckets. */
    ghost predicate Valid()
      reads this, buckets
    {
      && 55 <= loadPct <= 95
      && IsCap(buckets.Length)
      && growat == GrowAt(buckets.Length, loadPct)
      && shrinkat == ShrinkAt(buckets.Length)
      && RobinHood.Table(buckets[..], hash, M)
      && count == |M| && count <= growat < buckets.Length
    }

    /** map_init with INITCAP buckets. */
    constructor (hash: Hasher, loadPct: nat, allowShrink: bool)
      requires 55 <= loadPct <= 95
      ensures Valid() && fresh(buckets) && M == map[] && buckets.Length == INITCAP
      ensures this.hash == hash && this.loadPct == loadPct && this.allowShrink == allowShrink
    {
      this.hash, this.loadPct, this.allowShrink := hash, loadPct, allowShrink;
      buckets := new Bucket[INITCAP](_ => EMPTY);
      count, growat, shrinkat, M := 0, GrowAt(INITCAP, loadPct), ShrinkAt(INITCAP), map[];
      new;
      LoadBounds(INITCAP, loadPct);
      AllEmpty(buckets[..], hash);
    }

    /** map_get_bucket: the slot of `key`, or -1. */
    method GetBucket(key: Bytes) returns (idx: int)
      requires Valid()
      ensures -1 <= idx < buckets.Length
      ensures idx == -1 <==> key !in M
      ensures idx >= 0 ==> At(buckets[..], key, idx) && buckets[idx].entry == M[key]
    {
      var n := buckets.Length;
      var hsh := Clip(hash(key));
      ghost var b := buckets[..];
      ghost var z := EmptySlot(b, hash, M);
      ghost var s := Home(hsh, n);
      ghost var p: nat := 0;
      if key in M {
        p :| At(b, key, p);
        assert PlacedAt(b[p], p, n);
      }
      var i: nat := hsh % n;
      while true
        invariant i < n
        invariant key in M ==> Dist(s, i, n) <= Dist(s, p, n)
        decreases Dist(i, z, n)
      {
        if key in M {
          OnPath(b, hash, M, p, i);
        }
        if buckets[i].dib == 0 {
          return -1;
        }
        if buckets[i].hash == hsh && buckets[i].entry.key == key {
          assert At(b, key, i);
          return i;
        }
        i := if i + 1 == n then 0 else i + 1;
      }
    }

    /** An occupied slot stores one of the table's entries, under the hash of its key. */
    lemma Occupant(i: nat)
      requires Valid() && i < buckets.Length && buckets[i].dib > 0
      ensures var e := buckets[i].entry;
              e.key in M && M[e.key] == e && buckets[i].hash == Clip(hash(e.key))
    {
      Stored(buckets[..], hash, M, i);
    }

    lemma IsTable()
      requires Valid()
      ensures RobinHood.Table(buckets[..], hash, M) && |M| < buckets.Length
    {
    }

    /** delbkt */
    method DelBkt(i: nat)
      requires Valid() && i < buckets.Length && buckets[i].dib > 0
      modifies this`count, this`M, buckets
      ensures Valid() && M == old(M) - {old(buckets[i].entry.key)} && old(buckets[i].entry.key) in old(M)
      ensures count == old(count) - 1
      ensures ShiftedFrom(buckets[..], old(buckets[..]), i)
      ensures HasRoom(old(buckets[..])) && buckets[..] == Removed(old(buckets[..]), i)
    {
      hide RobinHood.Table, ShiftedFrom, IsCap, Remove;
      ghost var key := buckets[i].entry.key;
      ghost var e := EmptySlot(buckets[..], hash, M);
      assert buckets[..][e].dib == 0;
      ghost var z := Room(buckets[..]);
      Stored(buckets[..], hash, M, i);
      Unlink(buckets, hash, i, M, z);
      assert M.Keys == (M - {key}).Keys + {key};
      M, count := M - {key}, count - 1;
    }

    /** Changes the entry stored at a slot, keeping its key (set_entry, entry_settime). */
    method SetEntry(i: nat, x: Entry)
      requires Valid() && i < buckets.Length && buckets[i].dib > 0 && x.key == buckets[i].entry.key
      modifies this`M, buckets
      ensures Valid() && M == old(M)[x.key := x] && x.key in old(M)
      ensures buckets[..] == old(buckets[..])[i := old(buckets[i]).(entry := x)]
    {
      ReplaceEntry(buckets[..], hash, M, i, x);
      buckets[i] := buckets[i].(entry := x);
      M := M[x.key := x];
      assert buckets[..] == old(buckets[..])[i := old(buckets[i]).(entry := x)];
    }

    /** resize: moves every entry into `newCap` new buckets, if they can be allocated. */
    method Resize(newCap: nat, allocOk: bool) returns (ok: bool)
      requires Valid() && IsCap(newCap) && count <= GrowAt(newCap, loadPct)
      modifies this
      ensures ok == allocOk && Valid() && M == old(M) && count == old(count)
      ensures ok ==> fresh(buckets) && buckets.Length == newCap
      ensures !ok ==> buckets == old(buckets) && buckets[..] == old(buckets[..])
    {
      if !allocOk {
        return false;
      }
      CapAtLeast(newCap);
      LoadBounds(newCap, loadPct);
      hide RobinHood.Table, IsCap;
      var c := new Bucket[newCap](_ => EMPTY);
      Rehash(buckets, c, hash, M);
      buckets := c;
      growat, shrinkat := GrowAt(newCap, loadPct), ShrinkAt(newCap);
      return true;
    }

    /** map_insert: stores `x`, growing the table first when it is full. */
    method Insert(x: Entry, allocOk: bool) returns (ok: bool, replaced: Option<Entry>)
      requires Valid()
      modifies this, buckets
      ensures Valid() && (buckets == old(buckets) || fresh(buckets))
      ensures ok == (old(count < growat) || allocOk)
      ensures !ok ==> replaced == None && M == old(M)
      ensures ok ==> M == old(M)[x.key := x] && (count > old(count) <==> x.key !in old(M))
      ensures ok ==> replaced == if x.key in old(M) then Some(old(M)[x.key]) else None
      ensures ok && replaced.Some? ==> replaced.value.key == x.key && count < growat
      ensures old(count < growat) || !ok ==> buckets == old(buckets)
      ensures old(count >= growat) && ok ==> buckets.Length == old(buckets.Length) * 2
    {
      hide RobinHood.Table, IsCap, GrowAt, ShrinkAt;
      if count >= growat {
        DoubledGrows(buckets.Length, loadPct);
        ok := Resize(buckets.Length * 2, allocOk);
        if !ok {
          return false, None;
        }
      }
      ghost var z := EmptySlot(buckets[..], hash, M);
      replaced := Probe(buckets, hash, x, M, z);
      if replaced == None {
        count := count + 1;
      } else {
        assert M[x.key := x].Keys == M.Keys;
      }
      M := M[x.key := x];
      return true, replaced;
    }

    /** map_delete: unlinks the entry with the key, if there is one. */
    method Delete(key: Bytes) returns (removed: Option<Entry>)
      requires Valid()
      modifies this`count, this`M, buckets
      ensures Valid() && M == old(M) - {key}
      ensures removed == if key in old(M) then Some(old(M)[key]) else None
      ensures removed.Some? ==> removed.value.key == key && count < growat
    {
      var i := GetBucket(key);
      if i < 0 {
        assert M - {key} == M;
        return None;
      }
      removed := Some(buckets[i].entry);
      DelBkt(i);
    }

    /** tryshrink: rehashes into fewer buckets when the table is nearly empty; `multi` asks for
        the least number of doublings that fits. */
    method TryShrink(multi: bool, allocOk: bool)
      requires Valid()
      modifies this
      ensures Valid() && M == old(M) && count == old(count)
      ensures buckets == old(buckets) || fresh(buckets)
      ensures var due := allocOk && SparseIn(allowShrink, old(buckets.Length), count);
              && (!due ==> buckets == old(buckets))
              && (due && !multi ==> buckets.Length == old(buckets.Length) / 2)
              && (due && multi ==> LeastFor(buckets.Length, count, loadPct))
      ensures allocOk && multi ==> !SparseIn(allowShrink, buckets.Length, count)
    {
      if !(allowShrink && buckets.Length > INITCAP && count <= shrinkat) {
        return;
      }
      if multi {
        forall n | LeastFor(n, count, loadPct) ensures !SparseIn(allowShrink, n, count) {
          LeastNotSparse(allowShrink, n, count, loadPct);
        }
      }
      hide RobinHood.Table, IsCap, GrowAt, ShrinkAt, SparseIn;
      var cap;
      if multi {
        cap := FitCap(count, loadPct);
      } else {
        cap := buckets.Length / 2;
        HalfFits(buckets.Length, loadPct);
      }
      var _ := Resize(cap, allocOk);
    }
  }
}
