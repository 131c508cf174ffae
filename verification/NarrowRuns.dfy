/**
 Whole lives of a table with narrow probe distances: insertions, deletions and rehashes.  The narrow
 table is the unbounded one for as long as no stored distance of the latter reaches the width, and no
 longer.
 */
module NarrowRuns {
  import opened Common
  import opened RobinHood
  import opened NarrowDib

  // ----- deletion -----

  /** Distances only fall. */
  lemma {:induction false} CloseUpNarrow(b: seq<Bucket>, s: nat, z: nat, w: nat)
    requires s < |b| && z < |b| && s != z && b[z].dib == 0 && Narrow(b, w)
    ensures Narrow(CloseUp(b, s, z), w)
    decreases Dist(s, z, |b|)
  {
    if b[Next(s, |b|)].dib > 1 {
      CloseUpNarrow(ShiftInto(b, s), Next(s, |b|), z, w);
    }
  }

  // ----- rehashing -----

  /** The loop of resize: the first `j` buckets of `b` put into `n` empty ones.  Keys are distinct, so
      that the comparison of keys in Settle never finds one. */
  ghost function Rebuild(b: seq<Bucket>, n: nat, j: nat, w: nat): (r: seq<Bucket>)
    requires j <= |b| && n > 0
    ensures |r| == n
    decreases j
  {
    if j == 0 then seq(n, _ => EMPTY)
    else
      var c, e := Rebuild(b, n, j - 1, w), b[j - 1];
      if e.dib == 0 || !HasRoom(c) then c else Settle(c, Home(e.hash, n), e.(dib := 1), Room(c), w)
  }

  lemma {:induction false} RebuildTable(b: seq<Bucket>, h: Hasher, m: map<Bytes, Entry>, n: nat, j: nat)
    requires Table(b, h, m) && |m| < n && j <= |b|
    ensures Table(Rebuild(b, n, j, 0), h, Taken(b, j)) && HasRoom(Rebuild(b, n, j, 0))
    decreases j
  {
    hide Table, Taken;
    if j == 0 {
      TakenNone(b);
      AllEmpty(Rebuild(b, n, 0, 0), h);
      assert Rebuild(b, n, 0, 0)[0].dib == 0;
    } else {
      RebuildTable(b, h, m, n, j - 1);
      var c, e := Rebuild(b, n, j - 1, 0), b[j - 1];
      if e.dib > 0 {
        TakenStep(b, h, m, j - 1);
        ProbeStart(c, h, Taken(b, j - 1), e.entry, Room(c));
        SettleProbe(c, h, Taken(b, j - 1), e.entry, Home(e.hash, n), e.(dib := 1), Room(c));
        RoomLeft(b, h, m, j);
      } else {
        TakenSkip(b, j - 1);
      }
      var z := EmptySlotOf(b, h, m, n, j);
    }
  }

  lemma RoomLeft(b: seq<Bucket>, h: Hasher, m: map<Bytes, Entry>, j: nat)
    requires Table(b, h, m) && j <= |b|
    ensures |Taken(b, j)| <= |m|
  {
    TakenFrom(b, m, j);
  }

  lemma EmptySlotOf(b: seq<Bucket>, h: Hasher, m: map<Bytes, Entry>, n: nat, j: nat) returns (z: nat)
    requires Table(b, h, m) && |m| < n && j <= |b| && Table(Rebuild(b, n, j, 0), h, Taken(b, j))
    ensures z < n && Rebuild(b, n, j, 0)[z].dib == 0
  {
    hide Table, Rebuild, Taken;
    RoomLeft(b, h, m, j);
    z := EmptySlot(Rebuild(b, n, j, 0), h, Taken(b, j));
  }

  // ----- one insertion -----

  /** For a new key the distances in hand stay below the width exactly if the stored ones do. */
  lemma PeakIsStored(b: seq<Bucket>, i: nat, e: Bucket, z: nat, w: nat)
    requires i < |b| && z < |b| && b[z].dib == 0 && w > 0 && Narrow(b, w) && e.dib < w
    requires Absent(b, e.entry.key) && Distinct(b)
    ensures Peak(b, i, e, z) < w <==> Narrow(Settle(b, i, e, z, 0), w)
  {
    if Peak(b, i, e, z) < w {
      BelowWidthAgrees(b, i, e, z, w);
      SettleNarrow(b, i, e, z, w);
    } else {
      PeakShows(b, i, e, z, w);
    }
  }

  /** A key that is stored is met before the distance in hand exceeds its own. */
  lemma {:induction false} PresentPeak(b: seq<Bucket>, h: Hasher, m: map<Bytes, Entry>, x: Entry,
                                       i: nat, e: Bucket, z: nat, w: nat)
    requires i < |b| && z < |b| && b[z].dib == 0 && Probing(b, h, m, x, i, e, z) && x.key in m && Narrow(b, w)
    ensures Peak(b, i, e, z) < w
    decreases Dist(i, z, |b|)
  {
    hide Table, Probing;
    ProbeAhead(b, h, m, x, i, e, z);
    ProbeHashes(b, h, m, x, i, e, z);
    if b[i].entry.key != e.entry.key {
      ProbePast(b, h, m, x, i, e, z);
      PresentPeak(b, h, m, x, Next(i, |b|), e.(dib := e.dib + 1), z, w);
    }
  }

  lemma AbsentKey(b: seq<Bucket>, h: Hasher, m: map<Bytes, Entry>, k: Bytes)
    requires Table(b, h, m) && k !in m
    ensures Absent(b, k) && Distinct(b)
  {
  }

  /** An insertion, of a new key or a stored one, agrees exactly if the result stays narrow. */
  lemma InsertAgrees(b: seq<Bucket>, h: Hasher, m: map<Bytes, Entry>, x: Entry, z: nat, w: nat)
    requires Table(b, h, m) && z < |b| && b[z].dib == 0 && w > 1 && Narrow(b, w)
    ensures var e := Bucket(1, Clip(h(x.key)), x);
            var s := Home(e.hash, |b|);
            && Table(Settle(b, s, e, z, 0), h, m[x.key := x])
            && (Settle(b, s, e, z, w) == Settle(b, s, e, z, 0) <==> Narrow(Settle(b, s, e, z, 0), w))
  {
    hide Table, Probing, Settle, Peak;
    var e := Bucket(1, Clip(h(x.key)), x);
    var s := Home(e.hash, |b|);
    ProbeStart(b, h, m, x, z);
    SettleProbe(b, h, m, x, s, e, z);
    SettleNarrow(b, s, e, z, w);
    if x.key in m {
      PresentPeak(b, h, m, x, s, e, z, w);
      BelowWidthAgrees(b, s, e, z, w);
    } else {
      AbsentKey(b, h, m, x.key);
      PeakIsStored(b, s, e, z, w);
      NarrowAgrees(b, s, e, z, w);
    }
  }

  // ----- one rehash -----

  lemma {:induction false} RebuildNarrow(b: seq<Bucket>, n: nat, j: nat, w: nat)
    requires j <= |b| && n > 0 && w > 1
    ensures Narrow(Rebuild(b, n, j, w), w)
    decreases j
  {
    hide Settle;
    if j > 0 {
      RebuildNarrow(b, n, j - 1, w);
      var c, e := Rebuild(b, n, j - 1, w), b[j - 1];
      if e.dib > 0 && HasRoom(c) {
        SettleNarrow(c, Home(e.hash, n), e.(dib := 1), Room(c), w);
      }
    }
  }

  /** A distance once stored in a rehash stays. */
  lemma RebuildGrows(b: seq<Bucket>, n: nat, j: nat, w: nat)
    requires 0 < j <= |b| && n > 0 && w > 0 && Narrow(Rebuild(b, n, j, 0), w)
    ensures Narrow(Rebuild(b, n, j - 1, 0), w)
  {
    hide Settle;
    var c, e := Rebuild(b, n, j - 1, 0), b[j - 1];
    forall q | 0 <= q < n ensures c[q].dib < w {
      if c[q].dib >= w && e.dib > 0 && HasRoom(c) {
        DeepStays(c, Home(e.hash, n), e.(dib := 1), Room(c), w, q);
      }
    }
  }

  /** A rehash agrees exactly if its result is narrow. */
  lemma {:induction false} RebuildAgrees(b: seq<Bucket>, h: Hasher, m: map<Bytes, Entry>, n: nat, j: nat, w: nat)
    requires Table(b, h, m) && |m| < n && j <= |b| && w > 1
    ensures Rebuild(b, n, j, w) == Rebuild(b, n, j, 0) <==> Narrow(Rebuild(b, n, j, 0), w)
    decreases j
  {
    hide Table, Settle, Taken;
    RebuildNarrow(b, n, j, w);
    if Narrow(Rebuild(b, n, j, 0), w) && j > 0 {
      RebuildGrows(b, n, j, w);
      RebuildAgrees(b, h, m, n, j - 1, w);
      RebuildTable(b, h, m, n, j - 1);
      var c, e := Rebuild(b, n, j - 1, 0), b[j - 1];
      if e.dib > 0 {
        TakenStep(b, h, m, j - 1);
        InsertAgrees(c, h, Taken(b, j - 1), e.entry, Room(c), w);
        assert e.(dib := 1) == Bucket(1, Clip(h(e.entry.key)), e.entry);
      }
    }
  }

  // ----- whole runs -----

  /** Buckets, and the map they are meant to hold. */
  datatype Tab = Tab(b: seq<Bucket>, m: map<Bytes, Entry>)

  datatype Change = Put(x: Entry) | Drop(i: nat) | Resize(n: nat)

  /** map_insert, delbkt or resize with distances of width `w`; a change that does not fit is skipped. */
  ghost function Apply(c: Tab, ch: Change, h: Hasher, w: nat): Tab {
    match ch
    case Put(x) =>
      if |c.m| + 1 < |c.b| && HasRoom(c.b) then
        var e := Bucket(1, Clip(h(x.key)), x);
        Tab(Settle(c.b, Home(e.hash, |c.b|), e, Room(c.b), w), c.m[x.key := x])
      else c
    case Drop(i) =>
      if i < |c.b| && c.b[i].dib > 0 && HasRoom(c.b) then
        Tab(Remove(c.b, i, Room(c.b)), c.m - {c.b[i].entry.key})
      else c
    case Resize(n) => if |c.m| < n then Tab(Rebuild(c.b, n, |c.b|, w), c.m) else c
  }

  ghost function After(c: Tab, chs: seq<Change>, h: Hasher, w: nat): Tab {
    if chs == [] then c else Apply(After(c, chs[..|chs| - 1], h, w), chs[|chs| - 1], h, w)
  }

  lemma DropAgrees(c: Tab, i: nat, h: Hasher, w: nat)
    requires Table(c.b, h, c.m) && Narrow(c.b, w)
    ensures var d := Apply(c, Drop(i), h, 0); Table(d.b, h, d.m) && Narrow(d.b, w)
  {
    hide Table, Holed;
    if i < |c.b| && c.b[i].dib > 0 && HasRoom(c.b) {
      var z := Room(c.b);
      OpenHole(c.b, h, c.m, i, z);
      CloseUpTable(Vacate(c.b, i), h, c.m - {c.b[i].entry.key}, i, z);
      CloseUpNarrow(Vacate(c.b, i), i, z, w);
    }
  }

  lemma ResizeAgrees(c: Tab, n: nat, h: Hasher, w: nat)
    requires Table(c.b, h, c.m) && Narrow(c.b, w) && w > 1
    ensures var d := Apply(c, Resize(n), h, 0);
            Table(d.b, h, d.m) && (Apply(c, Resize(n), h, w) == d <==> Narrow(d.b, w))
  {
    hide Table, Rebuild;
    if |c.m| < n {
      RebuildTable(c.b, h, c.m, n, |c.b|);
      TableTaken(c.b, h, c.m);
      RebuildAgrees(c.b, h, c.m, n, |c.b|, w);
    }
  }

  lemma StepAgrees(c: Tab, ch: Change, h: Hasher, w: nat)
    requires Table(c.b, h, c.m) && Narrow(c.b, w) && w > 1
    ensures var d := Apply(c, ch, h, 0);
            Table(d.b, h, d.m) && (Apply(c, ch, h, w) == d <==> Narrow(d.b, w))
  {
    hide Table, Settle, Remove, Rebuild;
    match ch
    case Put(x) =>
      if |c.m| + 1 < |c.b| && HasRoom(c.b) {
        InsertAgrees(c.b, h, c.m, x, Room(c.b), w);
      }
    case Drop(i) => DropAgrees(c, i, h, w);
    case Resize(n) => ResizeAgrees(c, n, h, w);
  }

  /** The narrow table has followed the unbounded one through the first `j` changes. */
  ghost predicate Follows(c: Tab, chs: seq<Change>, h: Hasher, w: nat, j: nat)
    requires j <= |chs|
  {
    forall i :: 0 <= i <= j ==> After(c, chs[..i], h, w) == After(c, chs[..i], h, 0)
  }

  /** No distance the unbounded one stored reached the width. */
  ghost predicate StaysNarrow(c: Tab, chs: seq<Change>, h: Hasher, w: nat, j: nat)
    requires j <= |chs|
  {
    forall i :: 0 <= i <= j ==> Narrow(After(c, chs[..i], h, 0).b, w)
  }

  /** Over every run of insertions, deletions and rehashes, the narrow table is the unbounded one after
      every change exactly if no stored distance of the unbounded one reaches the width. */
  lemma {:induction false} RunAgrees(c: Tab, chs: seq<Change>, h: Hasher, w: nat, j: nat)
    requires Table(c.b, h, c.m) && Narrow(c.b, w) && w > 1 && j <= |chs|
    ensures Follows(c, chs, h, w, j) <==> StaysNarrow(c, chs, h, w, j)
    ensures StaysNarrow(c, chs, h, w, j) ==>
              var d := After(c, chs[..j], h, w); Table(d.b, h, d.m)
    decreases j
  {
    hide Table, Apply, Narrow;
    if j > 0 {
      RunAgrees(c, chs, h, w, j - 1);
      assert chs[..j][..j - 1] == chs[..j - 1] && chs[..j][j - 1] == chs[j - 1];
      var d := After(c, chs[..j - 1], h, 0);
      if StaysNarrow(c, chs, h, w, j - 1) {
        StepAgrees(d, chs[j - 1], h, w);
      }
      assert Follows(c, chs, h, w, j) ==> Follows(c, chs, h, w, j - 1);
      assert StaysNarrow(c, chs, h, w, j) ==> StaysNarrow(c, chs, h, w, j - 1);
    } else {
      assert chs[..0] == [];
    }
  }
}
