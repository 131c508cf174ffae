/**
 The open-addressed Robin Hood table of one shard, as a theory over sequences of
 buckets.  A bucket is empty when its `dib` is zero; an occupied bucket stores one plus
 the cyclic distance from the home slot of its hash.
 */
module RobinHood {
  import opened Common

  /** th64 with the cache's seed: any function of the key. */
  type Hasher = Bytes -> nat

  datatype Bucket = Bucket(dib: nat, hash: nat, entry: Entry)

  const EMPTY: Bucket := Bucket(0, 0, Entry([], [], 0, 0, 0, 0))

  /** Number of values of the 24-bit hash kept in a bucket. */
  const CLIP: nat := 0x100_0000

  function Clip(hash: nat): nat {
    hash % CLIP
  }

  // ----- ring arithmetic -----

  function Next(i: nat, n: nat): (r: nat)
    requires i < n
    ensures r < n
  {
    if i + 1 == n then 0 else i + 1
  }

  function Prev(i: nat, n: nat): (r: nat)
    requires i < n
    ensures r < n && Next(r, n) == i
  {
    if i == 0 then n - 1 else i - 1
  }

  /** Steps to the right from `i` to reach `j`. */
  function Dist(i: nat, j: nat, n: nat): (r: nat)
    requires i < n && j < n
    ensures r < n
  {
    if i <= j then j - i else j - i + n
  }

  function Home(hash: nat, n: nat): (r: nat)
    requires n > 0
    ensures r < n
  {
    hash % n
  }

  // ----- the table invariant -----

  /** Bucket `x` sitting at slot `i` records its own probe distance. */
  ghost predicate PlacedAt(x: Bucket, i: nat, n: nat)
    requires i < n
  {
    x.dib == 1 + Dist(Home(x.hash, n), i, n)
  }

  ghost predicate Placed(b: seq<Bucket>) {
    forall i :: 0 <= i < |b| && b[i].dib > 0 ==> PlacedAt(b[i], i, |b|)
  }

  /** Probe distances rise by at most one from a slot to the next. */
  ghost predicate Rich(b: seq<Bucket>) {
    forall i :: 0 <= i < |b| ==> b[Next(i, |b|)].dib <= b[i].dib + 1
  }

  ghost predicate Hashed(b: seq<Bucket>, h: Hasher) {
    forall i :: 0 <= i < |b| && b[i].dib > 0 ==> b[i].hash == Clip(h(b[i].entry.key))
  }

  ghost predicate Distinct(b: seq<Bucket>) {
    forall i, j :: 0 <= i < |b| && 0 <= j < |b| && i != j && b[i].dib > 0 && b[j].dib > 0
      ==> b[i].entry.key != b[j].entry.key
  }

  /** Slot `p` is the one that stores `k`. */
  ghost predicate At(b: seq<Bucket>, k: Bytes, p: nat) {
    p < |b| && b[p].dib > 0 && b[p].entry.key == k
  }

  /** The occupied buckets hold exactly the map `m`. */
  ghost predicate Holds(b: seq<Bucket>, m: map<Bytes, Entry>) {
    && (forall i :: 0 <= i < |b| && b[i].dib > 0 ==> b[i].entry.key in m && m[b[i].entry.key] == b[i].entry)
    && (forall k :: k in m ==> exists p :: At(b, k, p))
  }

  ghost predicate Table(b: seq<Bucket>, h: Hasher, m: map<Bytes, Entry>) {
    |b| > 0 && Placed(b) && Rich(b) && Hashed(b, h) && Distinct(b) && Holds(b, m)
  }

  // ----- consequences -----

  /** Going left from slot `p`, probe distances fall by at most one per slot. */
  lemma {:induction false} Chain(b: seq<Bucket>, q: nat, p: nat)
    requires q < |b| && p < |b| && Rich(b)
    ensures b[q].dib + Dist(q, p, |b|) >= b[p].dib
    decreases Dist(q, p, |b|)
  {
    if q != p {
      Chain(b, Next(q, |b|), p);
    }
  }

  /** The keys met in the first `j` slots of a table without empty slots. */
  ghost function FirstKeys(b: seq<Bucket>, j: nat): set<Bytes>
    requires j <= |b|
  {
    set i | 0 <= i < j :: b[i].entry.key
  }

  lemma {:induction false} FirstKeysCount(b: seq<Bucket>, m: map<Bytes, Entry>, j: nat)
    requires j <= |b| && Distinct(b) && Holds(b, m)
    requires forall i :: 0 <= i < |b| ==> b[i].dib > 0
    ensures |FirstKeys(b, j)| == j && FirstKeys(b, j) <= m.Keys
  {
    hide Distinct, Holds, FirstKeys;
    if j > 0 {
      FirstKeysCount(b, m, j - 1);
      FirstKeysStep(b, m, j - 1);
    } else {
      NoKeys(b);
    }
  }

  lemma FirstKeysStep(b: seq<Bucket>, m: map<Bytes, Entry>, j: nat)
    requires j < |b| && Distinct(b) && Holds(b, m)
    requires forall i :: 0 <= i < |b| ==> b[i].dib > 0
    ensures b[j].entry.key in m && b[j].entry.key !in FirstKeys(b, j)
    ensures FirstKeys(b, j + 1) == FirstKeys(b, j) + {b[j].entry.key}
  {
  }

  lemma NoKeys(b: seq<Bucket>)
    ensures FirstKeys(b, 0) == {}
  {
  }

  lemma SubsetCount<T>(a: set<T>, c: set<T>)
    requires a <= c
    ensures |a| <= |c|
  {
    assert c == a + (c - a);
  }

  /** A table with fewer entries than buckets has an empty bucket. */
  lemma EmptySlot(b: seq<Bucket>, h: Hasher, m: map<Bytes, Entry>) returns (z: nat)
    requires Table(b, h, m) && |m| < |b|
    ensures z < |b| && b[z].dib == 0
  {
    if forall i :: 0 <= i < |b| ==> b[i].dib > 0 {
      FirstKeysCount(b, m, |b|);
      SubsetCount(FirstKeys(b, |b|), m.Keys);
      assert false;
    }
    z :| 0 <= z < |b| && b[z].dib == 0;
  }

  /** Every slot from a stored key's home up to the key itself is occupied and at least as
      displaced as the key would be there: a probe meets no empty slot and no swap first. */
  lemma OnPath(b: seq<Bucket>, h: Hasher, m: map<Bytes, Entry>, p: nat, i: nat)
    requires Table(b, h, m) && p < |b| && i < |b| && b[p].dib > 0
    requires var s := Home(b[p].hash, |b|); Dist(s, i, |b|) <= Dist(s, p, |b|)
    ensures b[i].dib >= 1 + Dist(Home(b[p].hash, |b|), i, |b|)
  {
    assert PlacedAt(b[p], p, |b|);
    Chain(b, i, p);
  }

  lemma Stored(b: seq<Bucket>, h: Hasher, m: map<Bytes, Entry>, i: nat)
    requires Table(b, h, m) && i < |b| && b[i].dib > 0
    ensures b[i].entry.key in m && m[b[i].entry.key] == b[i].entry
  {
  }

  lemma Locate(b: seq<Bucket>, h: Hasher, m: map<Bytes, Entry>, k: Bytes) returns (p: nat)
    requires Table(b, h, m) && k in m
    ensures At(b, k, p) && b[p].hash == Clip(h(k)) && b[p].entry == m[k]
    ensures b[p].dib == 1 + Dist(Home(b[p].hash, |b|), p, |b|)
    ensures forall i :: At(b, k, i) ==> i == p
  {
    p :| At(b, k, p);
    assert PlacedAt(b[p], p, |b|);
  }

  // ----- carrying an entry to its slot -----

  /** Entry bucket `e` is about to be offered to slot `i`. */
  ghost predicate Carrying(b: seq<Bucket>, h: Hasher, m: map<Bytes, Entry>, i: nat, e: Bucket) {
    && Table(b, h, m)
    && i < |b|
    && PlacedAt(e, i, |b|)
    && e.hash == Clip(h(e.entry.key))
    && e.entry.key !in m
    && e.dib <= b[Prev(i, |b|)].dib + 1
  }

  lemma StartCarry(b: seq<Bucket>, h: Hasher, m: map<Bytes, Entry>, x: Entry)
    requires Table(b, h, m) && x.key !in m
    ensures var e := Bucket(1, Clip(h(x.key)), x); Carrying(b, h, m, Home(e.hash, |b|), e)
  {
  }

  ghost predicate HasEmpty(b: seq<Bucket>, z: nat) {
    z < |b| && b[z].dib == 0
  }

  /** At an occupied slot the carried entry has not yet gone all the way round. */
  lemma NotAround(b: seq<Bucket>, h: Hasher, m: map<Bytes, Entry>, i: nat, e: Bucket, z: nat)
    requires Carrying(b, h, m, i, e) && HasEmpty(b, z) && b[i].dib > 0
    ensures e.dib < |b|
  {
    Chain(b, z, Prev(i, |b|));
  }

  lemma CarryIntoEmpty(b: seq<Bucket>, h: Hasher, m: map<Bytes, Entry>, i: nat, e: Bucket)
    requires Carrying(b, h, m, i, e) && b[i].dib == 0
    ensures Table(b[i := e], h, m[e.entry.key := e.entry])
  {
    var c, m' := b[i := e], m[e.entry.key := e.entry];
    PutRich(b, i, e);
    assert Holds(c, m') by {
      forall k | k in m' ensures exists p :: At(c, k, p) {
        if k == e.entry.key {
          assert At(c, k, i);
        } else {
          var p :| At(b, k, p);
          assert At(c, k, p);
        }
      }
    }
  }

  lemma CarryPast(b: seq<Bucket>, h: Hasher, m: map<Bytes, Entry>, i: nat, e: Bucket, z: nat)
    requires Carrying(b, h, m, i, e) && HasEmpty(b, z) && b[i].dib >= e.dib
    ensures Carrying(b, h, m, Next(i, |b|), e.(dib := e.dib + 1))
  {
    NotAround(b, h, m, i, e, z);
  }

  /** An entry more displaced than the one it replaces keeps distances rising slowly. */
  lemma PutRich(b: seq<Bucket>, i: nat, e: Bucket)
    requires Rich(b) && i < |b| && b[i].dib <= e.dib <= b[Prev(i, |b|)].dib + 1
    ensures Rich(b[i := e])
  {
    var c := b[i := e];
    forall j | 0 <= j < |c| ensures c[Next(j, |c|)].dib <= c[j].dib + 1 {
      assert b[Next(j, |b|)].dib <= b[j].dib + 1;
    }
  }

  lemma SwapHolds(b: seq<Bucket>, m: map<Bytes, Entry>, i: nat, e: Bucket)
    requires Distinct(b) && Holds(b, m) && i < |b| && b[i].dib > 0 && e.dib > 0 && e.entry.key !in m
    ensures Distinct(b[i := e]) && Holds(b[i := e], m[e.entry.key := e.entry] - {b[i].entry.key})
  {
    var c, m' := b[i := e], m[e.entry.key := e.entry] - {b[i].entry.key};
    forall k | k in m' ensures exists p :: At(c, k, p) {
      if k == e.entry.key {
        assert At(c, k, i);
      } else {
        var p :| At(b, k, p);
        assert At(c, k, p);
      }
    }
  }

  lemma PutPlaced(b: seq<Bucket>, h: Hasher, i: nat, e: Bucket)
    requires Placed(b) && Hashed(b, h) && i < |b| && PlacedAt(e, i, |b|) && e.hash == Clip(h(e.entry.key))
    ensures Placed(b[i := e]) && Hashed(b[i := e], h)
  {
  }

  lemma CarrySwap(b: seq<Bucket>, h: Hasher, m: map<Bytes, Entry>, i: nat, e: Bucket, z: nat)
    requires Carrying(b, h, m, i, e) && HasEmpty(b, z) && 0 < b[i].dib < e.dib
    ensures var t := b[i];
            var m' := m[e.entry.key := e.entry] - {t.entry.key};
            Carrying(b[i := e], h, m', Next(i, |b|), t.(dib := t.dib + 1)) && HasEmpty(b[i := e], z)
  {
    hide Rich, Holds, Distinct;
    NotAround(b, h, m, i, e, z);
    PutRich(b, i, e);
    SwapHolds(b, m, i, e);
    PutPlaced(b, h, i, e);
    assert PlacedAt(b[i], i, |b|);
  }

  // ----- a whole probe -----

  /** `m` without the entry in hand. */
  ghost function Parked(m: map<Bytes, Entry>, x: Entry, e: Bucket): map<Bytes, Entry> {
    m[x.key := x] - {e.entry.key}
  }

  /** Inserting `x` into a table that held `m` has reached slot `i` with bucket `e` in hand.
      While `x.key` is stored nothing has been displaced and its slot is still ahead;
      otherwise the buckets hold the result without `e`. */
  ghost predicate Probing(b: seq<Bucket>, h: Hasher, m: map<Bytes, Entry>, x: Entry, i: nat, e: Bucket, z: nat) {
    && i < |b| && HasEmpty(b, z)
    && if x.key in m then
         && Table(b, h, m) && PlacedAt(e, i, |b|) && e.hash == Clip(h(x.key)) && e.entry == x
         && forall p :: At(b, x.key, p) ==> Dist(Home(e.hash, |b|), i, |b|) <= Dist(Home(e.hash, |b|), p, |b|)
       else
         && Carrying(b, h, Parked(m, x, e), i, e)
         && e.entry.key in m[x.key := x] && m[x.key := x][e.entry.key] == e.entry
  }

  lemma ProbeStart(b: seq<Bucket>, h: Hasher, m: map<Bytes, Entry>, x: Entry, z: nat)
    requires Table(b, h, m) && HasEmpty(b, z)
    ensures var e := Bucket(1, Clip(h(x.key)), x); Probing(b, h, m, x, Home(e.hash, |b|), e, z)
  {
    if x.key !in m {
      StartCarry(b, h, m, x);
      assert Parked(m, x, Bucket(1, Clip(h(x.key)), x)) == m;
    }
  }

  /** A probe that still looks for a stored key is at an occupied slot no poorer than it. */
  lemma ProbeAhead(b: seq<Bucket>, h: Hasher, m: map<Bytes, Entry>, x: Entry, i: nat, e: Bucket, z: nat)
    requires Probing(b, h, m, x, i, e, z) && x.key in m
    ensures b[i].dib >= e.dib > 0
  {
    var p := Locate(b, h, m, x.key);
    OnPath(b, h, m, p, i);
  }

  lemma ProbeEmpty(b: seq<Bucket>, h: Hasher, m: map<Bytes, Entry>, x: Entry, i: nat, e: Bucket, z: nat)
    requires Probing(b, h, m, x, i, e, z) && b[i].dib == 0
    ensures x.key !in m && Table(b[i := e], h, m[x.key := x])
  {
    if x.key in m {
      ProbeAhead(b, h, m, x, i, e, z);
    } else {
      CarryIntoEmpty(b, h, Parked(m, x, e), i, e);
      assert Parked(m, x, e)[e.entry.key := e.entry] == m[x.key := x];
    }
  }

  /** A match can only be with the key being inserted, before anything was displaced. */
  lemma ProbeMatch(b: seq<Bucket>, h: Hasher, m: map<Bytes, Entry>, x: Entry, i: nat, e: Bucket, z: nat)
    requires Probing(b, h, m, x, i, e, z) && b[i].dib > 0 && b[i].entry.key == e.entry.key
    ensures x.key in m && m[x.key] == b[i].entry && b[i].entry.key == x.key
    ensures Table(b[i := b[i].(entry := e.entry)], h, m[x.key := x])
  {
    if x.key in m {
      Stored(b, h, m, i);
      ReplaceEntry(b, h, m, i, x);
    } else {
      Stored(b, h, Parked(m, x, e), i);
    }
  }

  /** A bucket in hand carries the hash of its key, so comparing keys is enough. */
  lemma ProbeHashes(b: seq<Bucket>, h: Hasher, m: map<Bytes, Entry>, x: Entry, i: nat, e: Bucket, z: nat)
    requires Probing(b, h, m, x, i, e, z) && b[i].dib > 0
    ensures b[i].entry.key == e.entry.key ==> b[i].hash == e.hash
  {
  }

  lemma ProbePast(b: seq<Bucket>, h: Hasher, m: map<Bytes, Entry>, x: Entry, i: nat, e: Bucket, z: nat)
    requires Probing(b, h, m, x, i, e, z) && b[i].entry.key != e.entry.key && b[i].dib >= e.dib
    ensures Probing(b, h, m, x, Next(i, |b|), e.(dib := e.dib + 1), z)
  {
    if x.key in m {
      var p := Locate(b, h, m, x.key);
      assert i != p;
    } else {
      CarryPast(b, h, Parked(m, x, e), i, e, z);
    }
  }

  lemma ProbeSwap(b: seq<Bucket>, h: Hasher, m: map<Bytes, Entry>, x: Entry, i: nat, e: Bucket, z: nat)
    requires Probing(b, h, m, x, i, e, z) && 0 < b[i].dib < e.dib
    ensures x.key !in m
    ensures Probing(b[i := e], h, m, x, Next(i, |b|), b[i].(dib := b[i].dib + 1), z)
  {
    if x.key in m {
      ProbeAhead(b, h, m, x, i, e, z);
    } else {
      var q := Parked(m, x, e);
      CarrySwap(b, h, q, i, e, z);
      Stored(b, h, q, i);
      assert q[e.entry.key := e.entry] - {b[i].entry.key} == Parked(m, x, b[i]);
    }
  }

  // ----- closing the hole a deletion leaves -----

  /** `b` with slot `s` read as empty holds `m`; only the step out of the hole may rise by
      more than one. */
  ghost predicate Holed(b: seq<Bucket>, h: Hasher, m: map<Bytes, Entry>, s: nat) {
    && s < |b| && b[s].dib == 0
    && Placed(b) && Hashed(b, h) && Distinct(b) && Holds(b, m)
    && (forall i :: 0 <= i < |b| && i != s ==> b[Next(i, |b|)].dib <= b[i].dib + 1)
    && b[Next(s, |b|)].dib <= b[Prev(s, |b|)].dib + 2
  }

  function Vacate(b: seq<Bucket>, s: nat): (r: seq<Bucket>)
    requires s < |b|
    ensures |r| == |b| && r[s].dib == 0 && forall j :: 0 <= j < |b| && j != s ==> r[j] == b[j]
  {
    b[s := b[s].(dib := 0)]
  }

  lemma OpenHole(b: seq<Bucket>, h: Hasher, m: map<Bytes, Entry>, s: nat, z: nat)
    requires Table(b, h, m) && s < |b| && b[s].dib > 0 && HasEmpty(b, z)
    ensures b[s].entry.key in m
    ensures Holed(Vacate(b, s), h, m - {b[s].entry.key}, s)
  {
    hide Holds, Distinct;
    VacateHolds(b, m, s);
    var c := Vacate(b, s);
    assert b[Next(Prev(s, |b|), |b|)].dib <= b[Prev(s, |b|)].dib + 1;
    forall i | 0 <= i < |c| && i != s ensures c[Next(i, |c|)].dib <= c[i].dib + 1 {
      assert b[Next(i, |b|)].dib <= b[i].dib + 1;
    }
  }

  lemma VacateHolds(b: seq<Bucket>, m: map<Bytes, Entry>, s: nat)
    requires Distinct(b) && Holds(b, m) && s < |b| && b[s].dib > 0
    ensures b[s].entry.key in m
    ensures Distinct(Vacate(b, s)) && Holds(Vacate(b, s), m - {b[s].entry.key})
  {
    var c, m' := Vacate(b, s), m - {b[s].entry.key};
    forall k | k in m' ensures exists p :: At(c, k, p) {
      var p :| At(b, k, p);
      assert At(c, k, p);
    }
  }

  /** The bucket after the hole moves one slot left and becomes the hole. */
  function ShiftInto(b: seq<Bucket>, s: nat): (r: seq<Bucket>)
    requires s < |b| && b[Next(s, |b|)].dib > 1
    ensures |r| == |b|
  {
    var t := b[Next(s, |b|)];
    Vacate(b[s := t.(dib := t.dib - 1)], Next(s, |b|))
  }

  lemma MovePlaced(b: seq<Bucket>, s: nat)
    requires s < |b| && |b| > 1 && Placed(b) && b[Next(s, |b|)].dib > 1
    ensures Placed(ShiftInto(b, s))
  {
    var s' := Next(s, |b|);
    assert PlacedAt(b[s'], s', |b|);
  }

  lemma MoveHolds(b: seq<Bucket>, m: map<Bytes, Entry>, s: nat)
    requires s < |b| && |b| > 1 && b[s].dib == 0 && b[Next(s, |b|)].dib > 1
    requires Distinct(b) && Holds(b, m)
    ensures Distinct(ShiftInto(b, s)) && Holds(ShiftInto(b, s), m)
  {
    var c, s' := ShiftInto(b, s), Next(s, |b|);
    forall k | k in m ensures exists p :: At(c, k, p) {
      var p :| At(b, k, p);
      assert At(c, k, if p == s' then s else p);
    }
  }

  lemma MoveHole(b: seq<Bucket>, h: Hasher, m: map<Bytes, Entry>, s: nat)
    requires Holed(b, h, m, s) && |b| > 1 && b[Next(s, |b|)].dib > 1
    ensures Holed(ShiftInto(b, s), h, m, Next(s, |b|))
  {
    hide Placed, Holds, Distinct, Hashed;
    MovePlaced(b, s);
    MoveHolds(b, m, s);
    MoveRich(b, s);
    MoveHashed(b, h, s);
  }

  lemma MoveHashed(b: seq<Bucket>, h: Hasher, s: nat)
    requires s < |b| && |b| > 1 && Hashed(b, h) && b[Next(s, |b|)].dib > 1
    ensures Hashed(ShiftInto(b, s), h)
  {
  }

  lemma MoveRich(b: seq<Bucket>, s: nat)
    requires s < |b| && |b| > 1 && b[s].dib == 0 && b[Next(s, |b|)].dib > 1
    requires forall i :: 0 <= i < |b| && i != s ==> b[Next(i, |b|)].dib <= b[i].dib + 1
    requires b[Next(s, |b|)].dib <= b[Prev(s, |b|)].dib + 2
    ensures var c, n, s' := ShiftInto(b, s), |b|, Next(s, |b|);
            && (forall i :: 0 <= i < n && i != s' ==> c[Next(i, n)].dib <= c[i].dib + 1)
            && c[Next(s', n)].dib <= c[Prev(s', n)].dib + 2
  {
    var n, c, s' := |b|, ShiftInto(b, s), Next(s, |b|);
    assert b[Next(s', n)].dib <= b[s'].dib + 1;
    forall i | 0 <= i < n && i != s' ensures c[Next(i, n)].dib <= c[i].dib + 1 {
      if i != s && i != Prev(s, n) {
        assert b[Next(i, n)].dib <= b[i].dib + 1;
      }
    }
  }

  lemma CloseHole(b: seq<Bucket>, h: Hasher, m: map<Bytes, Entry>, s: nat)
    requires Holed(b, h, m, s) && b[Next(s, |b|)].dib <= 1
    ensures Table(b, h, m)
  {
  }

  /** What a deletion at slot `i` leaves in the buckets: an occupied slot keeps its bucket or
      takes its right neighbour's, and nothing is ever taken from slot `i` itself. */
  ghost predicate ShiftedFrom(c: seq<Bucket>, b: seq<Bucket>, i: nat) {
    && |c| == |b|
    && (forall j :: 0 <= j < |c| && c[j].dib > 0 ==>
          || (j != i && c[j] == b[j])
          || (Next(j, |b|) != i && b[Next(j, |b|)].dib > 0 && c[j].entry == b[Next(j, |b|)].entry))
  }

  /** Mid-deletion at slot `i`: the hole is at `j`, before the empty slot `z`, and the slots
      past the hole are untouched. */
  ghost predicate Shifting(v: seq<Bucket>, b: seq<Bucket>, i: nat, j: nat, z: nat) {
    && |v| == |b| && i < |b| && j < |b| && z < |b|
    && Dist(i, j, |b|) < Dist(i, z, |b|)
    && ShiftedFrom(v, b, i)
    && forall q :: 0 <= q < |b| && Dist(i, q, |b|) > Dist(i, j, |b|) ==> v[q] == b[q]
  }

  lemma ShiftStep(v: seq<Bucket>, b: seq<Bucket>, i: nat, j: nat, z: nat)
    requires Shifting(v, b, i, j, z) && HasEmpty(v, z) && v[Next(j, |v|)].dib > 1
    ensures Shifting(ShiftInto(v, j), b, i, Next(j, |b|), z)
  {
    var c, n := ShiftInto(v, j), |b|;
    assert v[Next(j, n)] == b[Next(j, n)];
    assert ShiftedFrom(c, b, i) by {
      forall q | 0 <= q < n && c[q].dib > 0
        ensures (q != i && c[q] == b[q])
             || (Next(q, n) != i && b[Next(q, n)].dib > 0 && c[q].entry == b[Next(q, n)].entry) {
      }
    }
  }

  // ----- a whole deletion -----

  /** The shifting loop of delbkt: the hole at `s` moves right up to an empty or home bucket. */
  function CloseUp(b: seq<Bucket>, s: nat, z: nat): (r: seq<Bucket>)
    requires s < |b| && z < |b| && s != z && b[z].dib == 0
    ensures |r| == |b|
    decreases Dist(s, z, |b|)
  {
    if b[Next(s, |b|)].dib <= 1 then b else CloseUp(ShiftInto(b, s), Next(s, |b|), z)
  }

  function Remove(b: seq<Bucket>, i: nat, z: nat): (r: seq<Bucket>)
    requires i < |b| && b[i].dib > 0 && z < |b| && b[z].dib == 0
    ensures |r| == |b|
  {
    CloseUp(Vacate(b, i), i, z)
  }

  ghost predicate HasRoom(b: seq<Bucket>) {
    exists z :: 0 <= z < |b| && b[z].dib == 0
  }

  ghost function Room(b: seq<Bucket>): (z: nat)
    requires HasRoom(b)
    ensures z < |b| && b[z].dib == 0
  {
    var z :| 0 <= z < |b| && b[z].dib == 0;
    z
  }

  /** The buckets after a deletion at slot `i`. */
  ghost function Removed(b: seq<Bucket>, i: nat): (r: seq<Bucket>)
    requires HasRoom(b) && i < |b| && b[i].dib > 0
    ensures |r| == |b|
  {
    Remove(b, i, Room(b))
  }

  lemma {:induction false} CloseUpTable(b: seq<Bucket>, h: Hasher, m: map<Bytes, Entry>, s: nat, z: nat)
    requires s < |b| && z < |b| && s != z && b[z].dib == 0 && Holed(b, h, m, s)
    ensures Table(CloseUp(b, s, z), h, m)
    decreases Dist(s, z, |b|)
  {
    hide Holed, Table;
    if b[Next(s, |b|)].dib > 1 {
      MoveHole(b, h, m, s);
      CloseUpTable(ShiftInto(b, s), h, m, Next(s, |b|), z);
    } else {
      CloseHole(b, h, m, s);
    }
  }

  lemma {:induction false} CloseUpShifted(v: seq<Bucket>, b: seq<Bucket>, i: nat, j: nat, z: nat)
    requires Shifting(v, b, i, j, z) && HasEmpty(v, z) && j != z
    ensures ShiftedFrom(CloseUp(v, j, z), b, i)
    decreases Dist(j, z, |v|)
  {
    hide ShiftedFrom;
    if v[Next(j, |v|)].dib > 1 {
      ShiftStep(v, b, i, j, z);
      CloseUpShifted(ShiftInto(v, j), b, i, Next(j, |v|), z);
    }
  }

  lemma RemoveTable(b: seq<Bucket>, h: Hasher, m: map<Bytes, Entry>, i: nat, z: nat)
    requires Table(b, h, m) && i < |b| && b[i].dib > 0 && HasEmpty(b, z)
    ensures b[i].entry.key in m && |m - {b[i].entry.key}| == |m| - 1
    ensures Table(Remove(b, i, z), h, m - {b[i].entry.key}) && ShiftedFrom(Remove(b, i, z), b, i)
  {
    hide Table, Holed, CloseUp;
    OpenHole(b, h, m, i, z);
    var key, v := b[i].entry.key, Vacate(b, i);
    assert m.Keys == (m - {key}).Keys + {key};
    CloseUpTable(v, h, m - {key}, i, z);
    CloseUpShifted(v, b, i, i, z);
  }

  // ----- in-place change of an entry -----

  lemma ReplaceEntry(b: seq<Bucket>, h: Hasher, m: map<Bytes, Entry>, i: nat, x: Entry)
    requires Table(b, h, m) && i < |b| && b[i].dib > 0 && x.key == b[i].entry.key
    ensures Table(b[i := b[i].(entry := x)], h, m[x.key := x])
  {
    var c, m' := b[i := b[i].(entry := x)], m[x.key := x];
    assert forall j :: 0 <= j < |b| ==> c[j].dib == b[j].dib && c[j].hash == b[j].hash
                                        && c[j].entry.key == b[j].entry.key;
    assert Rich(c) by {
      forall j | 0 <= j < |c| ensures c[Next(j, |c|)].dib <= c[j].dib + 1 {
        assert b[Next(j, |b|)].dib <= b[j].dib + 1;
      }
    }
    assert Holds(c, m') by {
      forall k | k in m' ensures exists p :: At(c, k, p) {
        var p :| At(b, k, p);
        assert At(c, k, p);
      }
    }
  }

  // ----- an empty table -----

  lemma AllEmpty(b: seq<Bucket>, h: Hasher)
    requires |b| > 0 && forall i :: 0 <= i < |b| ==> b[i] == EMPTY
    ensures Table(b, h, map[])
  {
  }

  // ----- rehashing -----

  /** The entries met in the first `j` slots. */
  ghost function Taken(b: seq<Bucket>, j: nat): map<Bytes, Entry>
    requires j <= |b|
  {
    if j == 0 then map[]
    else if b[j - 1].dib > 0 then Taken(b, j - 1)[b[j - 1].entry.key := b[j - 1].entry]
    else Taken(b, j - 1)
  }

  lemma {:induction false} TakenFrom(b: seq<Bucket>, m: map<Bytes, Entry>, j: nat)
    requires j <= |b| && Distinct(b) && Holds(b, m)
    ensures var t := Taken(b, j);
            && t.Keys <= m.Keys && |t| <= |m|
            && (forall k :: k in t ==> t[k] == m[k])
            && (forall i :: 0 <= i < |b| && b[i].dib > 0 ==> (b[i].entry.key in t <==> i < j))
  {
    if j > 0 {
      TakenFrom(b, m, j - 1);
    }
    SubsetCount(Taken(b, j).Keys, m.Keys);
  }

  lemma TakenAll(b: seq<Bucket>, m: map<Bytes, Entry>)
    requires Distinct(b) && Holds(b, m)
    ensures Taken(b, |b|) == m
  {
    TakenFrom(b, m, |b|);
    forall k | k in m ensures k in Taken(b, |b|) {
      var p :| At(b, k, p);
    }
  }

  lemma TakenStep(b: seq<Bucket>, h: Hasher, m: map<Bytes, Entry>, j: nat)
    requires Table(b, h, m) && j < |b| && b[j].dib > 0
    ensures b[j].entry.key !in Taken(b, j) && |Taken(b, j)| <= |m|
    ensures b[j].hash == Clip(h(b[j].entry.key))
    ensures Taken(b, j + 1) == Taken(b, j)[b[j].entry.key := b[j].entry]
  {
    TakenFrom(b, m, j);
  }

  lemma TakenNone(b: seq<Bucket>)
    ensures Taken(b, 0) == map[]
  {
  }

  lemma TakenSkip(b: seq<Bucket>, j: nat)
    requires j < |b| && b[j].dib == 0
    ensures Taken(b, j + 1) == Taken(b, j)
  {
  }

  lemma TableTaken(b: seq<Bucket>, h: Hasher, m: map<Bytes, Entry>)
    requires Table(b, h, m)
    ensures Taken(b, |b|) == m
  {
    TakenAll(b, m);
  }

  // ----- scans that delete as they go -----

  /** The keys in the first `i` slots. */
  ghost function KeysBefore(b: seq<Bucket>, i: nat): (r: set<Bytes>)
    requires i <= |b|
    ensures forall j :: 0 <= j < i && b[j].dib > 0 ==> b[j].entry.key in r
    ensures forall k :: k in r ==> exists j :: 0 <= j < i && At(b, k, j)
  {
    if i == 0 then {}
    else if b[i - 1].dib == 0 then KeysBefore(b, i - 1)
    else assert At(b, b[i - 1].entry.key, i - 1); KeysBefore(b, i - 1) + {b[i - 1].entry.key}
  }

  /** Deleting at slot `i` brings nothing new into the slots before `i`, even when the shift
      wraps around the end of the array. */
  lemma BehindScan(c: seq<Bucket>, b: seq<Bucket>, i: nat)
    requires ShiftedFrom(c, b, i) && i < |b|
    ensures forall j :: 0 <= j < i && c[j].dib > 0 ==>
              exists q :: 0 <= q < i && b[q].dib > 0 && c[j].entry == b[q].entry
    ensures |c| == |b| && KeysBefore(c, i) <= KeysBefore(b, i)
  {
    forall j | 0 <= j < i && c[j].dib > 0
      ensures exists q :: 0 <= q < i && b[q].dib > 0 && c[j].entry == b[q].entry
    {
      var q := if c[j] == b[j] then j else j + 1;
      assert b[q].dib > 0 && c[j].entry == b[q].entry;
    }
    forall k | k in KeysBefore(c, i) ensures k in KeysBefore(b, i) {
      var j :| 0 <= j < i && At(c, k, j);
      var q :| 0 <= q < i && b[q].dib > 0 && c[j].entry == b[q].entry;
    }
  }

  /** The shift went around the end of the array and took the bucket of slot 0 back into view. */
  ghost predicate Wrapped(c: seq<Bucket>, b: seq<Bucket>, i: nat) {
    && 0 < i < |b| == |c| && b[0].dib > 0 && c[|b| - 1].dib > 0
    && c[|b| - 1].entry.key == b[0].entry.key
  }

  /** The only key that a deletion at slot `i` can take away from the slots before `i` is that of a
      wrapped shift. */
  lemma BehindKeys(c: seq<Bucket>, b: seq<Bucket>, h: Hasher, m: map<Bytes, Entry>, i: nat)
    requires Table(b, h, m) && i < |b| && b[i].dib > 0 && ShiftedFrom(c, b, i)
    requires Table(c, h, m - {b[i].entry.key})
    ensures |c| == |b|
    ensures KeysBefore(c, i) == KeysBefore(b, i) - if Wrapped(c, b, i) then {b[0].entry.key} else {}
    ensures Wrapped(c, b, i) ==> b[0].entry.key in KeysBefore(b, i)
  {
    hide KeysBefore, Table;
    BehindScan(c, b, i);
    forall k | k in KeysBefore(b, i) && k !in KeysBefore(c, i) ensures Wrapped(c, b, i) && k == b[0].entry.key {
      var q :| 0 <= q < i && At(b, k, q);
      MovedAway(c, b, h, m, i, k, q);
    }
    if Wrapped(c, b, i) {
      Once(c, h, m - {b[i].entry.key}, |b| - 1);
    }
  }

  lemma Once(b: seq<Bucket>, h: Hasher, m: map<Bytes, Entry>, p: nat)
    requires Table(b, h, m) && p < |b| && b[p].dib > 0
    ensures forall q :: At(b, b[p].entry.key, q) ==> q == p
  {
  }

  lemma MovedAway(c: seq<Bucket>, b: seq<Bucket>, h: Hasher, m: map<Bytes, Entry>, i: nat, k: Bytes, q: nat)
    requires Table(b, h, m) && i < |b| && b[i].dib > 0 && ShiftedFrom(c, b, i)
    requires Table(c, h, m - {b[i].entry.key}) && q < i && At(b, k, q) && k !in KeysBefore(c, i)
    ensures Wrapped(c, b, i) && k == b[0].entry.key
  {
    hide KeysBefore;
    Stored(b, h, m, q);
    var p := Locate(c, h, m - {b[i].entry.key}, k);
    assert p >= i;
  }

  /** If the bucket of slot 0 is empty or at home, no shift wraps, and it stays that way. */
  lemma HomeStops(c: seq<Bucket>, b: seq<Bucket>, h: Hasher, m: map<Bytes, Entry>, i: nat, z: nat)
    requires Table(b, h, m) && i < |b| && b[i].dib > 0 && ShiftedFrom(c, b, i) && b[0].dib <= 1
    requires Table(c, h, m - {b[i].entry.key}) && HasEmpty(c, z)
    ensures !Wrapped(c, b, i) && c[0].dib <= 1
  {
    hide Table;
    var n, m' := |b|, m - {b[i].entry.key};
    if Wrapped(c, b, i) {
      SameHome(c, b, h, m, m', n - 1, 0);
      OnPath(c, h, m', n - 1, z);
      assert false;
    }
    if c[0].dib > 0 && c[0] != b[0] {
      SameHome(c, b, h, m, m', 0, Next(0, n));
      RichAt(b, h, m, 0);
      if Home(c[0].hash, n) != 0 {
        OnPath(c, h, m', 0, z);
      }
    }
  }

  lemma RichAt(b: seq<Bucket>, h: Hasher, m: map<Bytes, Entry>, i: nat)
    requires Table(b, h, m) && i < |b|
    ensures b[Next(i, |b|)].dib <= b[i].dib + 1
  {
  }

  /** A bucket with the same key keeps its home. */
  lemma SameHome(c: seq<Bucket>, b: seq<Bucket>, h: Hasher, m: map<Bytes, Entry>, m': map<Bytes, Entry>, p: nat, q: nat)
    requires Table(b, h, m) && Table(c, h, m') && |c| == |b| && p < |c| && q < |b|
    requires c[p].dib > 0 && b[q].dib > 0 && c[p].entry.key == b[q].entry.key
    ensures var s := Home(b[q].hash, |b|);
            Home(c[p].hash, |c|) == s && c[p].dib == 1 + Dist(s, p, |c|) && b[q].dib == 1 + Dist(s, q, |b|)
  {
    assert PlacedAt(c[p], p, |c|) && PlacedAt(b[q], q, |b|);
  }

  /** Each slot adds its own key, which no earlier slot holds. */
  lemma KeysStep(b: seq<Bucket>, h: Hasher, m: map<Bytes, Entry>, i: nat)
    requires Table(b, h, m) && i < |b|
    ensures KeysBefore(b, i + 1) == KeysBefore(b, i) + if b[i].dib > 0 then {b[i].entry.key} else {}
    ensures b[i].dib > 0 ==> b[i].entry.key !in KeysBefore(b, i)
  {
  }

  lemma KeysAll(b: seq<Bucket>, h: Hasher, m: map<Bytes, Entry>)
    requires Table(b, h, m)
    ensures KeysBefore(b, |b|) == m.Keys
  {
    forall k | k in m ensures k in KeysBefore(b, |b|) {
      var p := Locate(b, h, m, k);
    }
  }
}
