/**
 The bucket stores its probe distance in 8 bits (src/pogocache.c).  This module compares an
 insertion whose distances wrap at a width `w` with the one over unbounded distances used by the
 rest of the model.
 */
module NarrowDib {
  import opened Common
  import opened RobinHood
  import Tables

  /** set_dib(get_dib + 1) in a field with `w` values; w == 0 stands for an unbounded field. */
  function Inc(d: nat, w: nat): nat {
    if d + 1 == w then 0 else d + 1
  }

  /** The probe of map_insert from slot `i` with bucket `e` in hand; `z` is an empty slot. */
  function Settle(b: seq<Bucket>, i: nat, e: Bucket, z: nat, w: nat): (r: seq<Bucket>)
    requires i < |b| && z < |b| && b[z].dib == 0
    ensures |r| == |b|
    decreases Dist(i, z, |b|)
  {
    if b[i].dib == 0 then b[i := e]
    else if e.hash == b[i].hash && e.entry.key == b[i].entry.key then b[i := b[i].(entry := e.entry)]
    else if b[i].dib < e.dib then Settle(b[i := e], Next(i, |b|), b[i].(dib := Inc(b[i].dib, w)), z, w)
    else Settle(b, Next(i, |b|), e.(dib := Inc(e.dib, w)), z, w)
  }

  /** The largest distance in hand during the unbounded probe. */
  function Peak(b: seq<Bucket>, i: nat, e: Bucket, z: nat): (r: nat)
    requires i < |b| && z < |b| && b[z].dib == 0
    ensures r >= e.dib
    decreases Dist(i, z, |b|)
  {
    if b[i].dib == 0 || (e.hash == b[i].hash && e.entry.key == b[i].entry.key) then e.dib
    else if b[i].dib < e.dib then
      var p := Peak(b[i := e], Next(i, |b|), b[i].(dib := b[i].dib + 1), z);
      if p < e.dib then e.dib else p
    else Peak(b, Next(i, |b|), e.(dib := e.dib + 1), z)
  }

  ghost predicate Narrow(b: seq<Bucket>, w: nat) {
    forall i :: 0 <= i < |b| ==> b[i].dib < w
  }

  lemma {:induction false} SettleNarrow(b: seq<Bucket>, i: nat, e: Bucket, z: nat, w: nat)
    requires i < |b| && z < |b| && b[z].dib == 0 && w > 0 && Narrow(b, w) && e.dib < w
    ensures Narrow(Settle(b, i, e, z, w), w)
    decreases Dist(i, z, |b|)
  {
    if b[i].dib == 0 || (e.hash == b[i].hash && e.entry.key == b[i].entry.key) {
    } else if b[i].dib < e.dib {
      SettleNarrow(b[i := e], Next(i, |b|), b[i].(dib := Inc(b[i].dib, w)), z, w);
    } else {
      SettleNarrow(b, Next(i, |b|), e.(dib := Inc(e.dib, w)), z, w);
    }
  }

  /** If the unbounded probe goes past the width and stores what it carries, the result shows it. */
  lemma {:induction false} PeakShows(b: seq<Bucket>, i: nat, e: Bucket, z: nat, w: nat)
    requires i < |b| && z < |b| && b[z].dib == 0
    requires Peak(b, i, e, z) >= w > 0 && Absent(b, e.entry.key) && Distinct(b)
    ensures !Narrow(Settle(b, i, e, z, 0), w)
    decreases Dist(i, z, |b|)
  {
    if b[i].dib == 0 {
      assert Settle(b, i, e, z, 0)[i].dib >= w;
    } else if b[i].dib < e.dib {
      var c, t := b[i := e], b[i].(dib := b[i].dib + 1);
      if e.dib >= w {
        DeepStays(c, Next(i, |b|), t, z, w, i);
      } else {
        PeakShows(c, Next(i, |b|), t, z, w);
      }
    } else {
      PeakShows(b, Next(i, |b|), e.(dib := e.dib + 1), z, w);
    }
  }

  ghost predicate Absent(b: seq<Bucket>, k: Bytes) {
    forall i :: 0 <= i < |b| && b[i].dib > 0 ==> b[i].entry.key != k
  }

  /** A slot the probe has made richer than `w` only gets richer. */
  lemma {:induction false} DeepStays(b: seq<Bucket>, i: nat, e: Bucket, z: nat, w: nat, q: nat)
    requires i < |b| && z < |b| && b[z].dib == 0 && q < |b| && b[q].dib >= w > 0
    ensures Settle(b, i, e, z, 0)[q].dib >= w
    decreases Dist(i, z, |b|)
  {
    if b[i].dib == 0 || (e.hash == b[i].hash && e.entry.key == b[i].entry.key) {
    } else if b[i].dib < e.dib {
      DeepStays(b[i := e], Next(i, |b|), b[i].(dib := b[i].dib + 1), z, w, q);
    } else {
      DeepStays(b, Next(i, |b|), e.(dib := e.dib + 1), z, w, q);
    }
  }

  lemma {:induction false} BelowWidthAgrees(b: seq<Bucket>, i: nat, e: Bucket, z: nat, w: nat)
    requires i < |b| && z < |b| && b[z].dib == 0 && w > 0 && Peak(b, i, e, z) < w
    ensures Settle(b, i, e, z, w) == Settle(b, i, e, z, 0)
    decreases Dist(i, z, |b|)
  {
    if b[i].dib == 0 || (e.hash == b[i].hash && e.entry.key == b[i].entry.key) {
    } else if b[i].dib < e.dib {
      BelowWidthAgrees(b[i := e], Next(i, |b|), b[i].(dib := b[i].dib + 1), z, w);
    } else {
      BelowWidthAgrees(b, Next(i, |b|), e.(dib := e.dib + 1), z, w);
    }
  }

  /** The narrow insertion of a new key builds the table of the unbounded one exactly when no
      distance in hand reaches the width of the field. */
  lemma NarrowAgrees(b: seq<Bucket>, i: nat, e: Bucket, z: nat, w: nat)
    requires i < |b| && z < |b| && b[z].dib == 0
    requires w > 0 && Narrow(b, w) && e.dib < w && Absent(b, e.entry.key) && Distinct(b)
    ensures Settle(b, i, e, z, w) == Settle(b, i, e, z, 0) <==> Peak(b, i, e, z) < w
  {
    if Peak(b, i, e, z) < w {
      BelowWidthAgrees(b, i, e, z, w);
    } else {
      PeakShows(b, i, e, z, w);
      SettleNarrow(b, i, e, z, w);
    }
  }

  lemma {:induction false} SettleProbe(b: seq<Bucket>, h: Hasher, m: map<Bytes, Entry>, x: Entry,
                                       i: nat, e: Bucket, z: nat)
    requires i < |b| && z < |b| && b[z].dib == 0 && Probing(b, h, m, x, i, e, z)
    ensures Table(Settle(b, i, e, z, 0), h, m[x.key := x])
    decreases Dist(i, z, |b|)
  {
    hide Table, Probing;
    if b[i].dib == 0 {
      ProbeEmpty(b, h, m, x, i, e, z);
    } else if b[i].entry.key == e.entry.key {
      ProbeHashes(b, h, m, x, i, e, z);
      ProbeMatch(b, h, m, x, i, e, z);
    } else if b[i].dib < e.dib {
      ProbeSwap(b, h, m, x, i, e, z);
      SettleProbe(b[i := e], h, m, x, Next(i, |b|), b[i].(dib := b[i].dib + 1), z);
    } else {
      ProbePast(b, h, m, x, i, e, z);
      SettleProbe(b, h, m, x, Next(i, |b|), e.(dib := e.dib + 1), z);
    }
  }

  /** While no distance in hand reaches the width, a narrow insertion stores the entry like the
      unbounded one: the result is a table for the updated map. */
  lemma NarrowInserts(b: seq<Bucket>, h: Hasher, m: map<Bytes, Entry>, x: Entry, z: nat, w: nat)
    requires Table(b, h, m) && z < |b| && b[z].dib == 0 && w > 0
    requires Peak(b, Home(Clip(h(x.key)), |b|), Bucket(1, Clip(h(x.key)), x), z) < w
    ensures Table(Settle(b, Home(Clip(h(x.key)), |b|), Bucket(1, Clip(h(x.key)), x), z, w), h, m[x.key := x])
  {
    var e := Bucket(1, Clip(h(x.key)), x);
    ProbeStart(b, h, m, x, z);
    SettleProbe(b, h, m, x, Home(e.hash, |b|), e, z);
    BelowWidthAgrees(b, Home(e.hash, |b|), e, z, w);
  }

  // ----- the failing family -----

  /** The slot `t` steps to the right of `s`. */
  function Slot(s: nat, t: nat, n: nat): (r: nat)
    requires s < n && t < n
    ensures r < n && Dist(s, r, n) == t
  {
    if s + t < n then s + t else s + t - n
  }

  /** All keys of the table have one home slot. */
  ghost predicate OneHome(h: Hasher, m: map<Bytes, Entry>, n: nat, s: nat)
    requires n > 0
  {
    forall k :: k in m ==> Home(Clip(h(k)), n) == s
  }

  /** The occupied slots are those next to the home slot, up to some length. */
  ghost predicate Run(b: seq<Bucket>, s: nat, len: nat)
    requires s < |b|
  {
    forall i :: 0 <= i < |b| ==> b[i].dib == if Dist(s, i, |b|) < len then Dist(s, i, |b|) + 1 else 0
  }

  lemma {:induction false} RunFrom(b: seq<Bucket>, h: Hasher, m: map<Bytes, Entry>, s: nat, t: nat) returns (len: nat)
    requires Table(b, h, m) && s < |b| && OneHome(h, m, |b|, s) && |m| < |b|
    requires t < |b| && forall i :: 0 <= i < |b| && Dist(s, i, |b|) < t ==> b[i].dib > 0
    ensures len < |b| && Run(b, s, len)
    decreases |b| - t
  {
    var i := Slot(s, t, |b|);
    if b[i].dib == 0 {
      len := t;
      forall j | 0 <= j < |b| && b[j].dib > 0 ensures b[j].dib == Dist(s, j, |b|) + 1 && Dist(s, j, |b|) < t {
        HomeOf(b, h, m, s, j);
        if Dist(s, j, |b|) >= t {
          OnPath(b, h, m, j, i);
        }
      }
    } else {
      assert forall j :: 0 <= j < |b| && Dist(s, j, |b|) < t + 1 ==> b[j].dib > 0;
      if t + 1 == |b| {
        var z := EmptySlot(b, h, m);
        assert false;
      }
      len := RunFrom(b, h, m, s, t + 1);
    }
  }

  lemma HomeOf(b: seq<Bucket>, h: Hasher, m: map<Bytes, Entry>, s: nat, i: nat)
    requires Table(b, h, m) && s < |b| && OneHome(h, m, |b|, s) && i < |b| && b[i].dib > 0
    ensures Home(b[i].hash, |b|) == s && b[i].dib == Dist(s, i, |b|) + 1
  {
    Stored(b, h, m, i);
    assert PlacedAt(b[i], i, |b|);
  }

  ghost function RunKeys(b: seq<Bucket>, s: nat, t: nat): set<Bytes>
    requires s < |b| && t <= |b|
  {
    set j | 0 <= j < t :: b[Slot(s, j, |b|)].entry.key
  }

  lemma RunKeysStep(b: seq<Bucket>, m: map<Bytes, Entry>, s: nat, len: nat, t: nat)
    requires Distinct(b) && Holds(b, m) && s < |b| && len < |b| && Run(b, s, len) && t < len
    ensures var k := b[Slot(s, t, |b|)].entry.key;
            k in m && k !in RunKeys(b, s, t) && RunKeys(b, s, t + 1) == RunKeys(b, s, t) + {k}
  {
    var i := Slot(s, t, |b|);
    assert b[i].dib > 0;
    forall j | 0 <= j < t ensures b[Slot(s, j, |b|)].entry.key != b[i].entry.key {
      assert b[Slot(s, j, |b|)].dib > 0;
    }
  }

  lemma {:induction false} RunCount(b: seq<Bucket>, m: map<Bytes, Entry>, s: nat, len: nat, t: nat)
    requires Distinct(b) && Holds(b, m) && s < |b| && len < |b| && Run(b, s, len) && t <= len
    ensures |RunKeys(b, s, t)| == t && RunKeys(b, s, t) <= m.Keys
    decreases t
  {
    hide Distinct, Holds, Run, RunKeys;
    if t > 0 {
      RunCount(b, m, s, len, t - 1);
      RunKeysStep(b, m, s, len, t - 1);
    } else {
      NoRunKeys(b, s);
    }
  }

  lemma NoRunKeys(b: seq<Bucket>, s: nat)
    requires s < |b|
    ensures RunKeys(b, s, 0) == {}
  {
  }

  /** A run holds as many entries as it is long. */
  lemma RunSize(b: seq<Bucket>, m: map<Bytes, Entry>, s: nat, len: nat)
    requires Distinct(b) && Holds(b, m) && s < |b| && len < |b| && Run(b, s, len)
    ensures |m| == len
  {
    RunCount(b, m, s, len, len);
    forall k | k in m ensures k in RunKeys(b, s, len) {
      var p :| At(b, k, p);
      assert Slot(s, Dist(s, p, |b|), |b|) == p;
    }
    assert RunKeys(b, s, len) == m.Keys;
  }

  /** A table whose keys all have one home is a single run of exactly as many buckets. */
  lemma HomeRun(b: seq<Bucket>, h: Hasher, m: map<Bytes, Entry>, s: nat)
    requires Table(b, h, m) && s < |b| && OneHome(h, m, |b|, s) && |m| < |b|
    ensures Run(b, s, |m|)
  {
    var len := RunFrom(b, h, m, s, 0);
    RunSize(b, m, s, len);
  }

  /** The probe of a key of that home walks along the run; after 255 steps the distance in hand is
      zero. */
  lemma {:induction false} Walk(b: seq<Bucket>, s: nat, e: Bucket, z: nat, t: nat)
    requires s < |b| && |b| > 256 && Run(b, s, 255) && z < |b| && b[z].dib == 0 && t <= 255
    requires Absent(b, e.entry.key)
    ensures Settle(b, Slot(s, t, |b|), e.(dib := Inc(t, 256)), z, 256) == b[Slot(s, 255, |b|) := e.(dib := 0)]
    decreases 255 - t
  {
    var i := Slot(s, t, |b|);
    if t < 255 {
      assert Next(i, |b|) == Slot(s, t + 1, |b|);
      Walk(b, s, e, z, t + 1);
    }
  }

  /** Whenever 255 keys of one home slot make up a table, the 256th is stored with distance zero: its
      bucket reads as empty, and the key is lost.  The table is not due to grow, so this is what
      map_insert does. */
  lemma LostAt256(b: seq<Bucket>, h: Hasher, m: map<Bytes, Entry>, x: Entry, z: nat, loadPct: nat)
    requires Table(b, h, m) && Tables.IsCap(|b|) && 55 <= loadPct <= 95 && |m| == 255 < Tables.GrowAt(|b|, loadPct)
    requires x.key !in m && OneHome(h, m, |b|, Home(Clip(h(x.key)), |b|)) && z < |b| && b[z].dib == 0
    ensures var e := Bucket(1, Clip(h(x.key)), x);
            Absent(Settle(b, Home(e.hash, |b|), e, z, 256), x.key)
  {
    Tables.CapAtLeast(|b|);
    Tables.LoadBounds(|b|, loadPct);
    var e := Bucket(1, Clip(h(x.key)), x);
    var s := Home(e.hash, |b|);
    HomeRun(b, h, m, s);
    forall i | 0 <= i < |b| && b[i].dib > 0 ensures b[i].entry.key != x.key { Stored(b, h, m, i); }
    Walk(b, s, e, z, 0);
    assert Slot(s, 0, |b|) == s;
  }

  /** Such tables exist, for any 255 keys whose hashes are multiples of the number of buckets. */
  function Crowded(n: nat, h: Hasher, keys: seq<Entry>): seq<Bucket>
    requires n >= |keys|
  {
    seq(n, i requires 0 <= i => if i < |keys| then Bucket(i + 1, Clip(h(keys[i].key)), keys[i]) else EMPTY)
  }

  lemma CrowdedTable(n: nat, h: Hasher, keys: seq<Entry>) returns (m: map<Bytes, Entry>)
    requires n > |keys| && forall i :: 0 <= i < |keys| ==> Home(Clip(h(keys[i].key)), n) == 0
    requires forall i, j :: 0 <= i < j < |keys| ==> keys[i].key != keys[j].key
    ensures Table(Crowded(n, h, keys), h, m) && |m| == |keys| && OneHome(h, m, n, 0)
  {
    hide Distinct, Holds, Crowded, Run;
    m := map k | k in (set i | 0 <= i < |keys| :: keys[i].key) :: EntryOf(keys, k);
    CrowdedRing(n, h, keys);
    CrowdedHolds(n, h, keys, m);
    RunSize(Crowded(n, h, keys), m, 0, |keys|);
  }

  lemma CrowdedRing(n: nat, h: Hasher, keys: seq<Entry>)
    requires n > |keys| && forall i :: 0 <= i < |keys| ==> Home(Clip(h(keys[i].key)), n) == 0
    ensures var b := Crowded(n, h, keys); |b| == n && Placed(b) && Rich(b) && Hashed(b, h) && Run(b, 0, |keys|)
  {
  }

  lemma CrowdedHolds(n: nat, h: Hasher, keys: seq<Entry>, m: map<Bytes, Entry>)
    requires n > |keys| && forall i, j :: 0 <= i < j < |keys| ==> keys[i].key != keys[j].key
    requires forall i :: 0 <= i < |keys| ==> keys[i].key in m && m[keys[i].key] == keys[i]
    requires forall k :: k in m ==> exists i :: 0 <= i < |keys| && keys[i].key == k
    ensures Distinct(Crowded(n, h, keys)) && Holds(Crowded(n, h, keys), m)
  {
    var b := Crowded(n, h, keys);
    forall k | k in m ensures exists p :: At(b, k, p) {
      var p :| 0 <= p < |keys| && keys[p].key == k;
      assert At(b, k, p);
    }
  }

  ghost function EntryOf(keys: seq<Entry>, k: Bytes): (e: Entry)
    requires exists i :: 0 <= i < |keys| && keys[i].key == k
    ensures e.key == k && e in keys
  {
    var i :| 0 <= i < |keys| && keys[i].key == k;
    keys[i]
  }
}
