/**
 How sweepop counts: a deletion whose shift goes round the end of the array takes a live entry that was
 counted already back into view.  This module says how often that happens and exactly when.
 */
module Sweeps {
  import opened Common
  import opened RobinHood
  import Spec = CacheSpec

  predicate Dead(x: Bucket, now: int, cleartime: int) {
    x.dib > 0 && Spec.Life(x.entry, now, cleartime) != Spec.Alive
  }

  /** The slots before `i` hold no dead entry. */
  ghost predicate Visited(b: seq<Bucket>, i: nat, now: int, cleartime: int) {
    forall j :: 0 <= j < i && j < |b| && b[j].dib > 0 ==> Spec.Life(b[j].entry, now, cleartime) == Spec.Alive
  }

  /** The number of wrapped shifts in the sweep of `b` from slot `i` on. */
  ghost function Wraps(b: seq<Bucket>, h: Hasher, m: map<Bytes, Entry>, i: nat, now: int, cleartime: int): nat
    requires Table(b, h, m) && |m| < |b| && i <= |b|
    decreases |m| + |b| - i
  {
    if i == |b| then 0
    else if !Dead(b[i], now, cleartime) then Wraps(b, h, m, i + 1, now, cleartime)
    else
      RemovedTable(b, h, m, i);
      var c := Removed(b, i);
      (if Wrapped(c, b, i) then 1 else 0) + Wraps(c, h, m - {b[i].entry.key}, i, now, cleartime)
  }

  lemma RemovedTable(b: seq<Bucket>, h: Hasher, m: map<Bytes, Entry>, i: nat)
    requires Table(b, h, m) && |m| < |b| && i < |b| && b[i].dib > 0
    ensures HasRoom(b) && b[i].entry.key in m && |m - {b[i].entry.key}| == |m| - 1
    ensures var c, m' := Removed(b, i), m - {b[i].entry.key};
            Table(c, h, m') && ShiftedFrom(c, b, i) && HasRoom(c)
  {
    hide Table, Remove, ShiftedFrom;
    var z := EmptySlot(b, h, m);
    assert HasRoom(b);
    RemoveTable(b, h, m, i, Room(b));
    var y := EmptySlot(Removed(b, i), h, m - {b[i].entry.key});
  }

  // ----- the condition -----

  /** An entry that went round the end of the array when it was stored. */
  predicate RoundTheEnd(b: seq<Bucket>, i: nat)
    requires i < |b|
  {
    b[i].dib > 0 && Home(b[i].hash, |b|) > i
  }

  /** Some live entry went round the end. */
  ghost predicate LiveRound(b: seq<Bucket>, now: int, cleartime: int) {
    exists i :: 0 <= i < |b| && RoundTheEnd(b, i) && !Dead(b[i], now, cleartime)
  }

  /** The last slot that is empty or holds an entry at home: a shift from any slot before it stops there
      at the latest, and a shift from it or after it reaches the end of the array. */
  ghost predicate LastStop(b: seq<Bucket>, r: nat) {
    r < |b| && b[r].dib <= 1 && forall j :: r < j < |b| ==> b[j].dib > 1
  }

  ghost predicate DeadFrom(b: seq<Bucket>, r: nat, now: int, cleartime: int) {
    exists j :: r <= j < |b| && Dead(b[j], now, cleartime)
  }

  /** A dead entry at or after the last stop, and a live one that went round the end. */
  ghost predicate Overcounts(b: seq<Bucket>, now: int, cleartime: int) {
    LiveRound(b, now, cleartime) && exists r :: LastStop(b, r) && DeadFrom(b, r, now, cleartime)
  }

  lemma {:induction false} FindStop(b: seq<Bucket>, j: nat) returns (r: nat)
    requires j <= |b| && (forall i :: j <= i < |b| ==> b[i].dib > 1) && HasRoom(b)
    ensures LastStop(b, r)
    decreases j
  {
    if j > 0 && b[j - 1].dib <= 1 {
      r := j - 1;
    } else if j > 0 {
      r := FindStop(b, j - 1);
    } else {
      assert false;
    }
  }

  // ----- shifts and the last stop -----

  /** A shift stops at an empty or home bucket. */
  lemma {:induction false} CloseUpTail(v: seq<Bucket>, s: nat, z: nat, r: nat)
    requires s < r < |v| && z < |v| && s != z && v[z].dib == 0 && v[r].dib <= 1
    ensures forall j :: r <= j < |v| ==> CloseUp(v, s, z)[j] == v[j]
    decreases Dist(s, z, |v|)
  {
    if v[Next(s, |v|)].dib > 1 {
      CloseUpTail(ShiftInto(v, s), Next(s, |v|), z, r);
    }
  }

  lemma RemovedTail(b: seq<Bucket>, i: nat, r: nat)
    requires HasRoom(b) && i < r && LastStop(b, r) && b[i].dib > 0
    ensures forall j :: r <= j < |b| ==> Removed(b, i)[j] == b[j]
    ensures LastStop(Removed(b, i), r)
  {
    CloseUpTail(Vacate(b, i), i, Room(b), r);
  }

  /** A shift that meets no stop before the end goes round it. */
  lemma {:induction false} CloseUpRound(v: seq<Bucket>, s: nat, z: nat)
    requires 0 < z < s < |v| && v[z].dib == 0 && v[0].dib > 1 && forall j :: s < j < |v| ==> v[j].dib > 1
    ensures var x := CloseUp(v, s, z)[|v| - 1]; x.dib > 0 && x.entry == v[0].entry
    decreases |v| - s
  {
    var u := ShiftInto(v, s);
    if s == |v| - 1 {
      CloseUpTail(u, 0, z, z);
    } else {
      CloseUpRound(u, s + 1, z);
    }
  }

  lemma RemovedRound(b: seq<Bucket>, i: nat, r: nat)
    requires HasRoom(b) && r <= i < |b| && LastStop(b, r) && b[i].dib > 0 && b[0].dib > 1
    ensures Wrapped(Removed(b, i), b, i)
  {
    var z := Room(b);
    assert z < i;
    CloseUpRound(Vacate(b, i), i, z);
  }

  // ----- entries that went round the end -----

  /** If some entry went round the end, the one in the first slot did. */
  lemma RoundAtZero(b: seq<Bucket>, h: Hasher, m: map<Bytes, Entry>, i: nat)
    requires Table(b, h, m) && i < |b| && RoundTheEnd(b, i)
    ensures b[0].dib > 1
  {
    OnPath(b, h, m, i, 0);
  }

  lemma HomeOf(b: seq<Bucket>, h: Hasher, m: map<Bytes, Entry>, i: nat)
    requires Table(b, h, m) && i < |b| && b[i].dib > 0
    ensures b[i].dib == 1 + Dist(Home(b[i].hash, |b|), i, |b|)
  {
    assert PlacedAt(b[i], i, |b|);
  }

  /** A live entry at the start that did not go round is at home. */
  lemma ZeroAtHome(b: seq<Bucket>, h: Hasher, m: map<Bytes, Entry>, now: int, cleartime: int)
    requires Table(b, h, m) && !LiveRound(b, now, cleartime) && !Dead(b[0], now, cleartime)
    ensures b[0].dib <= 1
  {
    if b[0].dib > 0 {
      HomeOf(b, h, m, 0);
      assert !RoundTheEnd(b, 0);
    }
  }

  /** A shift that does not wrap leaves each entry on its side of the end. */
  lemma SideKept(c: seq<Bucket>, b: seq<Bucket>, h: Hasher, m: map<Bytes, Entry>, i: nat, p: nat, q: nat, z: nat)
    requires Table(b, h, m) && i < |b| && b[i].dib > 0 && ShiftedFrom(c, b, i) && !Wrapped(c, b, i)
    requires Table(c, h, m - {b[i].entry.key}) && HasEmpty(c, z)
    requires p < |c| && q < |b| && c[p].dib > 0 && b[q].dib > 0 && c[p].entry.key == b[q].entry.key
    ensures RoundTheEnd(c, p) <==> RoundTheEnd(b, q)
  {
    hide Table;
    var m' := m - {b[i].entry.key};
    SameHome(c, b, h, m, m', p, q);
    Once(b, h, m, q);
    if p != i && c[p] == b[p] {
      assert At(b, b[q].entry.key, p);
    } else {
      assert At(b, b[q].entry.key, Next(p, |b|));
    }
    if q == p + 1 && Home(b[q].hash, |b|) == q {
      OnPath(c, h, m', p, z);
    }
  }

  lemma LiveRoundKept(b: seq<Bucket>, h: Hasher, m: map<Bytes, Entry>, i: nat, now: int, cleartime: int)
    requires Table(b, h, m) && |m| < |b| && i < |b| && Dead(b[i], now, cleartime)
    requires HasRoom(b) && !Wrapped(Removed(b, i), b, i)
    ensures LiveRound(Removed(b, i), now, cleartime) <==> LiveRound(b, now, cleartime)
  {
    hide Table, Removed, RoundTheEnd, Wrapped, ShiftedFrom;
    RemovedTable(b, h, m, i);
    var c, m' := Removed(b, i), m - {b[i].entry.key};
    var z := Room(c);
    if LiveRound(c, now, cleartime) {
      var p :| 0 <= p < |c| && RoundTheEnd(c, p) && !Dead(c[p], now, cleartime);
      var q := FromWhere(c, b, h, m, i, p);
      SideKept(c, b, h, m, i, p, q, z);
    }
    if LiveRound(b, now, cleartime) {
      var q :| 0 <= q < |b| && RoundTheEnd(b, q) && !Dead(b[q], now, cleartime);
      var p := ToWhere(c, b, h, m, i, q);
      SideKept(c, b, h, m, i, p, q, z);
    }
  }

  lemma FromWhere(c: seq<Bucket>, b: seq<Bucket>, h: Hasher, m: map<Bytes, Entry>, i: nat, p: nat) returns (q: nat)
    requires Table(b, h, m) && i < |b| && ShiftedFrom(c, b, i) && p < |c| && RoundTheEnd(c, p)
    ensures q < |b| && c[p].dib > 0 && b[q].dib > 0 && c[p].entry == b[q].entry
  {
    q := if p != i && c[p] == b[p] then p else Next(p, |b|);
  }

  lemma ToWhere(c: seq<Bucket>, b: seq<Bucket>, h: Hasher, m: map<Bytes, Entry>, i: nat, q: nat) returns (p: nat)
    requires Table(b, h, m) && i < |b| && b[i].dib > 0 && Table(c, h, m - {b[i].entry.key})
    requires q < |b| && q != i && RoundTheEnd(b, q)
    ensures p < |c| && c[p].dib > 0 && b[q].dib > 0 && c[p].entry == b[q].entry
  {
    Stored(b, h, m, q);
    assert b[q].entry.key != b[i].entry.key;
    p := Locate(c, h, m - {b[i].entry.key}, b[q].entry.key);
  }

  // ----- when nothing wraps -----

  lemma {:induction false} CalmNoWraps(b: seq<Bucket>, h: Hasher, m: map<Bytes, Entry>, i: nat,
                                       now: int, cleartime: int)
    requires Table(b, h, m) && |m| < |b| && i <= |b| && b[0].dib <= 1
    ensures Wraps(b, h, m, i, now, cleartime) == 0
    decreases |m| + |b| - i
  {
    hide Table, Removed, Wrapped, Dead, ShiftedFrom;
    if i < |b| {
      if !Dead(b[i], now, cleartime) {
        CalmNoWraps(b, h, m, i + 1, now, cleartime);
      } else {
        DeadOccupied(b[i], now, cleartime);
        RemovedTable(b, h, m, i);
        var c := Removed(b, i);
        HomeStops(c, b, h, m, i, Room(c));
        CalmNoWraps(c, h, m - {b[i].entry.key}, i, now, cleartime);
      }
    }
  }

  lemma DeadOccupied(x: Bucket, now: int, cleartime: int)
    requires Dead(x, now, cleartime)
    ensures x.dib > 0 && Spec.Life(x.entry, now, cleartime) != Spec.Alive
  {
  }

  /** From any point of a sweep on: a shift wraps if and only if some live entry went round the end and a
      dead one is still to come at or after the last stop. */
  lemma {:induction false} WrapsFrom(b: seq<Bucket>, h: Hasher, m: map<Bytes, Entry>, i: nat, r: nat,
                                     now: int, cleartime: int)
    requires Table(b, h, m) && |m| < |b| && i <= |b| && Visited(b, i, now, cleartime) && LastStop(b, r)
    ensures Wraps(b, h, m, i, now, cleartime) > 0 <==>
            LiveRound(b, now, cleartime) && DeadFrom(b, if i < r then r else i, now, cleartime)
    decreases |m| + |b| - i
  {
    hide Table, Removed, Wrapped, Dead, ShiftedFrom, LiveRound;
    if i < |b| {
      if !Dead(b[i], now, cleartime) {
        NotDead(b[i], now, cleartime);
        WrapsFrom(b, h, m, i + 1, r, now, cleartime);
      } else {
        DeadOccupied(b[i], now, cleartime);
        RemovedTable(b, h, m, i);
        if i < r {
          BeforeStop(b, h, m, i, r, now, cleartime);
          WrapsFrom(Removed(b, i), h, m - {b[i].entry.key}, i, r, now, cleartime);
        } else {
          AtStop(b, h, m, i, r, now, cleartime);
        }
      }
    }
  }

  /** A deletion before the last stop changes nothing that matters. */
  lemma BeforeStop(b: seq<Bucket>, h: Hasher, m: map<Bytes, Entry>, i: nat, r: nat, now: int, cleartime: int)
    requires Table(b, h, m) && |m| < |b| && HasRoom(b) && i < r < |b| && Dead(b[i], now, cleartime)
    requires Visited(b, i, now, cleartime) && LastStop(b, r)
    ensures var c := Removed(b, i);
            && !Wrapped(c, b, i) && LastStop(c, r) && Visited(c, i, now, cleartime)
            && (LiveRound(c, now, cleartime) <==> LiveRound(b, now, cleartime))
            && (DeadFrom(c, r, now, cleartime) <==> DeadFrom(b, r, now, cleartime))
  {
    hide Table, Removed, Dead, ShiftedFrom, LiveRound, Wrapped, Visited, LastStop;
    DeadOccupied(b[i], now, cleartime);
    RemovedTable(b, h, m, i);
    RemovedTail(b, i, r);
    LastDiffers(Removed(b, i), b, h, m, i);
    StillVisited(Removed(b, i), b, i, now, cleartime);
    LiveRoundKept(b, h, m, i, now, cleartime);
  }

  lemma LastDiffers(c: seq<Bucket>, b: seq<Bucket>, h: Hasher, m: map<Bytes, Entry>, i: nat)
    requires Table(b, h, m) && i < |b| - 1 && |c| == |b| && c[|b| - 1] == b[|b| - 1]
    ensures !Wrapped(c, b, i)
  {
    if b[0].dib > 0 {
      Once(b, h, m, 0);
      assert !At(b, b[0].entry.key, |b| - 1);
    }
  }

  lemma StillVisited(c: seq<Bucket>, b: seq<Bucket>, i: nat, now: int, cleartime: int)
    requires i < |b| && ShiftedFrom(c, b, i) && Visited(b, i, now, cleartime)
    ensures |c| == |b| && Visited(c, i, now, cleartime)
  {
    BehindScan(c, b, i);
  }

  /** A deletion at or after the last stop wraps if some live entry went round the end; if none did,
      nothing will. */
  lemma AtStop(b: seq<Bucket>, h: Hasher, m: map<Bytes, Entry>, i: nat, r: nat, now: int, cleartime: int)
    requires Table(b, h, m) && |m| < |b| && r <= i < |b| && Dead(b[i], now, cleartime)
    requires Visited(b, i, now, cleartime) && LastStop(b, r)
    ensures Wraps(b, h, m, i, now, cleartime) > 0 <==> LiveRound(b, now, cleartime)
  {
    hide Table, Removed, ShiftedFrom, Wrapped;
    DeadOccupied(b[i], now, cleartime);
    RemovedTable(b, h, m, i);
    if LiveRound(b, now, cleartime) {
      var q :| 0 <= q < |b| && RoundTheEnd(b, q) && !Dead(b[q], now, cleartime);
      RoundAtZero(b, h, m, q);
      RemovedRound(b, i, r);
    } else {
      if i > 0 {
        ZeroAtHome(b, h, m, now, cleartime);
      }
      CalmNoWraps(b, h, m, i, now, cleartime);
    }
  }

  lemma NotDead(x: Bucket, now: int, cleartime: int)
    requires !Dead(x, now, cleartime)
    ensures x.dib > 0 ==> Spec.Life(x.entry, now, cleartime) == Spec.Alive
  {
  }

  /** A sweep counts some entry twice if and only if a live entry went round the end of the array and a
      dead one sits at or after the last stop. */
  lemma WrapsIff(b: seq<Bucket>, h: Hasher, m: map<Bytes, Entry>, now: int, cleartime: int)
    requires Table(b, h, m) && |m| < |b|
    ensures Wraps(b, h, m, 0, now, cleartime) > 0 <==> Overcounts(b, now, cleartime)
  {
    hide Table, Wraps, LiveRound, DeadFrom;
    var z := EmptySlot(b, h, m);
    var r := FindStop(b, |b|);
    WrapsFrom(b, h, m, 0, r, now, cleartime);
  }

  // ----- an input -----

  /** Two keys whose home is the last of `n` slots. */
  function Pair(n: nat, h: Hasher, x: Entry, y: Entry): (b: seq<Bucket>)
    requires n > 2
    ensures |b| == n
  {
    seq(n, i requires 0 <= i => if i == n - 1 then Bucket(1, Clip(h(x.key)), x)
                                else if i == 0 then Bucket(2, Clip(h(y.key)), y) else EMPTY)
  }

  lemma PairTable(n: nat, h: Hasher, x: Entry, y: Entry)
    requires n > 2 && x.key != y.key && Home(Clip(h(x.key)), n) == n - 1 == Home(Clip(h(y.key)), n)
    ensures Table(Pair(n, h, x, y), h, map[x.key := x, y.key := y])
  {
    var b := Pair(n, h, x, y);
    assert At(b, x.key, n - 1) && At(b, y.key, 0);
  }

  lemma {:induction false} SkipLive(b: seq<Bucket>, h: Hasher, m: map<Bytes, Entry>, i: nat, j: nat,
                                    now: int, cleartime: int)
    requires Table(b, h, m) && |m| < |b| && i <= j <= |b|
    requires forall q :: i <= q < j ==> !Dead(b[q], now, cleartime)
    ensures Wraps(b, h, m, i, now, cleartime) == Wraps(b, h, m, j, now, cleartime)
    decreases j - i
  {
    hide Table, Dead;
    if i < j {
      SkipLive(b, h, m, i + 1, j, now, cleartime);
    }
  }

  /** The first of the two dead and the other alive: a sweep finds one live entry and counts it twice. */
  lemma CountedTwice(n: nat, h: Hasher, x: Entry, y: Entry, now: int, cleartime: int)
    requires n > 2 && x.key != y.key && Home(Clip(h(x.key)), n) == n - 1 == Home(Clip(h(y.key)), n)
    requires Spec.Life(x, now, cleartime) != Spec.Alive == Spec.Life(y, now, cleartime)
    ensures var b, m := Pair(n, h, x, y), map[x.key := x, y.key := y];
            && Table(b, h, m) && |m| < |b| && Overcounts(b, now, cleartime)
            && Wraps(b, h, m, 0, now, cleartime) == 1 && |Spec.Living(m, now, cleartime)| == 1
  {
    hide Table, Wraps, Removed;
    var b, m := Pair(n, h, x, y), map[x.key := x, y.key := y];
    PairTable(n, h, x, y);
    assert Spec.Living(m, now, cleartime) == map[y.key := y];
    SkipLive(b, h, m, 0, n - 1, now, cleartime);
    PairRemoved(n, h, x, y);
    RemovedTable(b, h, m, n - 1);
    var c, m' := Removed(b, n - 1), m - {x.key};
    WrapsStep(b, h, m, n - 1, now, cleartime);
    SkipLive(c, h, m', n - 1, n, now, cleartime);
    NoneAfter(c, h, m', now, cleartime);
    WrapsIff(b, h, m, now, cleartime);
  }

  lemma PairRemoved(n: nat, h: Hasher, x: Entry, y: Entry)
    requires n > 2 && x.key != y.key
    ensures var b := Pair(n, h, x, y);
            HasRoom(b) && Wrapped(Removed(b, n - 1), b, n - 1) && Removed(b, n - 1)[n - 1].entry == y
  {
    var b := Pair(n, h, x, y);
    assert b[1].dib == 0;
    var v := Vacate(b, n - 1);
    var u := ShiftInto(v, n - 1);
    assert CloseUp(v, n - 1, Room(b)) == CloseUp(u, 0, Room(b)) == u;
  }

  /** One deletion of a sweep. */
  lemma WrapsStep(b: seq<Bucket>, h: Hasher, m: map<Bytes, Entry>, i: nat, now: int, cleartime: int)
    requires Table(b, h, m) && |m| < |b| && i < |b| && Dead(b[i], now, cleartime)
    ensures HasRoom(b)
    ensures var c, m' := Removed(b, i), m - {b[i].entry.key};
            && Table(c, h, m') && |m'| < |c|
            && Wraps(b, h, m, i, now, cleartime) ==
                 (if Wrapped(c, b, i) then 1 else 0) + Wraps(c, h, m', i, now, cleartime)
  {
    hide Table, Removed, Wrapped;
    RemovedTable(b, h, m, i);
  }

  lemma NoneAfter(b: seq<Bucket>, h: Hasher, m: map<Bytes, Entry>, now: int, cleartime: int)
    requires Table(b, h, m) && |m| < |b|
    ensures Wraps(b, h, m, |b|, now, cleartime) == 0
  {
  }
}
