/**
 Which entry goes when memory is low: auto_evict_entry looks at the slots after that of the entry just
 stored, takes the first dead entry, or else the older of the first two live ones with another hash.
 */
module Evictions {
  import opened Common
  import opened RobinHood
  import opened Sweeps
  import Spec = CacheSpec

  /** The slot at a position of the scan. */
  function SlotAt(i: nat, hash: nat, n: nat): (j: nat)
    requires n > 0
    ensures j < n
  {
    (i + hash) % n
  }

  /** A live entry with another hash. */
  predicate Other(x: Bucket, hash: nat, now: int, cleartime: int) {
    x.dib > 0 && !Dead(x, now, cleartime) && x.hash != hash
  }

  predicate Candidate(x: Bucket, hash: nat, now: int, cleartime: int) {
    Dead(x, now, cleartime) || Other(x, hash, now, cleartime)
  }

  function Older(picks: seq<Entry>): Option<Bytes>
    requires |picks| <= 2
  {
    if picks == [] then None
    else if |picks| == 1 || picks[0].time < picks[1].time then Some(picks[0].key)
    else Some(picks[1].key)
  }

  /** The victim, from position `i` of the scan on with `picks` found so far. */
  function Pick(b: seq<Bucket>, hash: nat, i: nat, picks: seq<Entry>, now: int, cleartime: int): Option<Bytes>
    requires |b| > 0 && |picks| <= 2
    decreases |b| - i
  {
    if i >= |b| || |picks| == 2 then Older(picks)
    else
      var x := b[SlotAt(i, hash, |b|)];
      if Dead(x, now, cleartime) then Some(x.entry.key)
      else if Other(x, hash, now, cleartime) then Pick(b, hash, i + 1, picks + [x.entry], now, cleartime)
      else Pick(b, hash, i + 1, picks, now, cleartime)
  }

  lemma PickStep(b: seq<Bucket>, hash: nat, i: nat, picks: seq<Entry>, now: int, cleartime: int)
    requires 0 <= i < |b| && |picks| < 2
    ensures var x := b[SlotAt(i, hash, |b|)];
            Pick(b, hash, i, picks, now, cleartime) ==
              if x.dib > 0 && Spec.Life(x.entry, now, cleartime) != Spec.Alive then Some(x.entry.key)
              else if x.dib > 0 && x.hash != hash then Pick(b, hash, i + 1, picks + [x.entry], now, cleartime)
              else Pick(b, hash, i + 1, picks, now, cleartime)
  {
    hide SlotAt;
  }

  lemma PickEnd(b: seq<Bucket>, hash: nat, i: nat, picks: seq<Entry>, now: int, cleartime: int)
    requires |b| > 0 && |picks| <= 2 && (i >= |b| || |picks| == 2)
    ensures Pick(b, hash, i, picks, now, cleartime) == Older(picks)
  {
  }

  function Victim(b: seq<Bucket>, hash: nat, now: int, cleartime: int): Option<Bytes>
    requires |b| > 0
  {
    Pick(b, hash, 1, [], now, cleartime)
  }

  /** No candidate at the positions from `i` up to `j`. */
  ghost predicate Barren(b: seq<Bucket>, hash: nat, i: nat, j: nat, now: int, cleartime: int)
    requires |b| > 0
  {
    forall p: nat :: i <= p < j ==> !Candidate(b[SlotAt(p, hash, |b|)], hash, now, cleartime)
  }

  lemma {:induction false} SkipTo(b: seq<Bucket>, hash: nat, i: nat, j: nat, picks: seq<Entry>,
                                  now: int, cleartime: int)
    requires |b| > 0 && |picks| < 2 && i <= j <= |b| && Barren(b, hash, i, j, now, cleartime)
    ensures Pick(b, hash, i, picks, now, cleartime) == Pick(b, hash, j, picks, now, cleartime)
    decreases j - i
  {
    hide SlotAt, Dead;
    if i < j {
      SkipTo(b, hash, i + 1, j, picks, now, cleartime);
    }
  }

  /** The first dead entry goes, if at most one live candidate comes before it. */
  lemma DeadGoes(b: seq<Bucket>, hash: nat, p: nat, q: nat, now: int, cleartime: int)
    requires 1 <= p <= q < |b| && Dead(b[SlotAt(q, hash, |b|)], now, cleartime)
    requires Barren(b, hash, 1, p, now, cleartime) && Barren(b, hash, p + 1, q, now, cleartime)
    requires p == q || !Dead(b[SlotAt(p, hash, |b|)], now, cleartime)
    ensures Victim(b, hash, now, cleartime) == Some(b[SlotAt(q, hash, |b|)].entry.key)
  {
    hide SlotAt, Dead;
    var x := b[SlotAt(p, hash, |b|)];
    SkipTo(b, hash, 1, p, [], now, cleartime);
    if p < q {
      SkipTo(b, hash, p + 1, q, if Other(x, hash, now, cleartime) then [] + [x.entry] else [], now, cleartime);
    }
  }

  /** Else the older of the first two live candidates. */
  lemma OlderGoes(b: seq<Bucket>, hash: nat, p: nat, q: nat, now: int, cleartime: int)
    requires 1 <= p < q < |b|
    requires Other(b[SlotAt(p, hash, |b|)], hash, now, cleartime)
    requires Other(b[SlotAt(q, hash, |b|)], hash, now, cleartime)
    requires Barren(b, hash, 1, p, now, cleartime) && Barren(b, hash, p + 1, q, now, cleartime)
    ensures var x, y := b[SlotAt(p, hash, |b|)].entry, b[SlotAt(q, hash, |b|)].entry;
            && (x.time < y.time ==> Victim(b, hash, now, cleartime) == Some(x.key))
            && (y.time <= x.time ==> Victim(b, hash, now, cleartime) == Some(y.key))
  {
    hide SlotAt;
    var x := b[SlotAt(p, hash, |b|)];
    SkipTo(b, hash, 1, p, [], now, cleartime);
    SkipTo(b, hash, p + 1, q, [] + [x.entry], now, cleartime);
  }

  /** Or the only one. */
  lemma OnlyGoes(b: seq<Bucket>, hash: nat, p: nat, now: int, cleartime: int)
    requires 1 <= p < |b| && Other(b[SlotAt(p, hash, |b|)], hash, now, cleartime)
    requires Barren(b, hash, 1, p, now, cleartime) && Barren(b, hash, p + 1, |b|, now, cleartime)
    ensures Victim(b, hash, now, cleartime) == Some(b[SlotAt(p, hash, |b|)].entry.key)
  {
    hide SlotAt;
    var x := b[SlotAt(p, hash, |b|)];
    SkipTo(b, hash, 1, p, [], now, cleartime);
    SkipTo(b, hash, p + 1, |b|, [] + [x.entry], now, cleartime);
  }

  /** Nothing goes exactly if the scan meets no candidate. */
  lemma {:induction false} NothingGoes(b: seq<Bucket>, hash: nat, i: nat, picks: seq<Entry>, now: int, cleartime: int)
    requires |b| > 0 && |picks| <= 2
    ensures Pick(b, hash, i, picks, now, cleartime) == None <==> picks == [] && Barren(b, hash, i, |b|, now, cleartime)
    decreases |b| - i
  {
    hide SlotAt, Dead;
    if i < |b| && |picks| < 2 {
      var x := b[SlotAt(i, hash, |b|)];
      if Other(x, hash, now, cleartime) && !Dead(x, now, cleartime) {
        NothingGoes(b, hash, i + 1, picks + [x.entry], now, cleartime);
      } else if !Dead(x, now, cleartime) {
        NothingGoes(b, hash, i + 1, picks, now, cleartime);
      }
    }
  }

  // ----- the scan reaches every slot but one -----

  lemma {:induction false} ModShift(a: nat, q: nat, n: nat)
    requires n > 0
    ensures (a + n * q) % n == a % n
    decreases q
  {
    if q > 0 {
      ModShift(a, q - 1, n);
      assert n * q == n * (q - 1) + n;
      ModOnce(a + n * (q - 1), n);
    }
  }

  lemma ModOnce(a: nat, n: nat)
    requires n > 0
    ensures (a + n) % n == a % n
  {
    assert a == n * (a / n) + a % n;
    ModUnique(a + n, n, a / n + 1, a % n);
  }

  lemma ModUnique(a: nat, n: nat, q: int, r: nat)
    requires n > 0 && a == n * q + r && r < n
    ensures a % n == r
  {
    var q', r' := a / n, a % n;
    assert a == n * q' + r' && 0 <= r' < n;
    if q > q' {
      Apart(n, q, q');
    } else if q < q' {
      Apart(n, q', q);
    }
  }

  /** Different multiples of `n` are at least `n` apart. */
  lemma Apart(n: nat, q: int, p: int)
    requires q > p
    ensures n * q >= n * p + n
  {
    var d := q - p - 1;
    assert n * q == n * p + n + n * d by { assert q == p + 1 + d; }
    assert n * d >= 0;
  }

  /** Every slot but that of the hash itself has a position in the scan. */
  lemma PositionOf(hash: nat, n: nat, j: nat) returns (i: nat)
    requires n > 0 && j < n && j != hash % n
    ensures 1 <= i < n && SlotAt(i, hash, n) == j
  {
    var s := hash % n;
    i := if s < j then j - s else j - s + n;
    assert hash == s + n * (hash / n);
    ModShift(i + s, hash / n, n);
    if s < j {
      ModUnique(i + s, n, 0, j);
    } else {
      ModUnique(i + s, n, 1, j);
    }
  }

  /** An entry that the eviction may choose. */
  predicate Evictable(e: Entry, h: Hasher, hash: nat, now: int, cleartime: int) {
    Spec.Life(e, now, cleartime) != Spec.Alive || Clip(h(e.key)) != hash
  }

  /** If two stored entries are dead or have another hash, one of them or another such goes: at most one
      can sit in the slot that the scan leaves out. */
  lemma SomethingGoes(b: seq<Bucket>, h: Hasher, m: map<Bytes, Entry>, hash: nat, j: Bytes, k: Bytes,
                      now: int, cleartime: int)
    requires Table(b, h, m) && j in m && k in m && j != k
    requires Evictable(m[j], h, hash, now, cleartime) && Evictable(m[k], h, hash, now, cleartime)
    ensures Victim(b, hash, now, cleartime).Some?
  {
    hide Table, SlotAt;
    var p := Locate(b, h, m, j);
    var q := Locate(b, h, m, k);
    Stored(b, h, m, p);
    Stored(b, h, m, q);
    var r := if p != hash % |b| then p else q;
    var i := PositionOf(hash, |b|, r);
    assert Candidate(b[SlotAt(i, hash, |b|)], hash, now, cleartime);
    NothingGoes(b, hash, 1, [], now, cleartime);
  }
}
