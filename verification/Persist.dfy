/**
 From the shards of one cache to another: thsave iterates over each shard and flushes a block per
 shard, load reads the file and stores what the blocks hold.
 */
module Persist {
  import opened Common
  import opened Snapshot
  import opened Restart
  import opened Shards
  import Tables
  import Spec = CacheSpec
  import Lz4Compressor
  import Lz4Spec
  import Varint

  /** The callback of a save: it looks at every entry, deletes none and never stops. */
  const LOOK: Chooser := (n, e) => Action(false, false)

  /** The buffer a shard is saved in. */
  function BufferOf(es: seq<Entry>, clock: Clock): Bytes {
    PutBlock(clock.unix, ItemsOf(es, clock.now))
  }

  /** save_entry for the entries of a shard. */
  method SaveEntries(saver: Saver, es: seq<Entry>, clock: Clock)
    requires saver.buf == [] && saver.nentries == 0 && Sane(clock)
    requires forall i :: 0 <= i < |es| ==> Kept(es[i], clock.now)
    modifies saver
    ensures saver.buf == BufferOf(es, clock) && saver.nentries == |es|
  {
    hide PutBlock;
    saver.Begin(clock.unix);
    var i := 0;
    while i < |es|
      invariant 0 <= i <= |es| && saver.nentries == i
      invariant saver.buf == PutBlock(clock.unix, ItemsOf(es[..i], clock.now))
    {
      var e := es[i];
      assert ItemsOf(es[..i + 1], clock.now) == ItemsOf(es[..i], clock.now) + [ItemOf(e, clock.now)];
      assert Kept(e, clock.now);
      saver.SaveEntry(e.key, e.val, e.expires, clock.now, e.flags, e.cas, clock.unix, ItemsOf(es[..i], clock.now));
      i := i + 1;
    }
    assert es[..i] == es;
  }

  /** The entries of `es` are exactly those of a shard that are alive at `now`, each once. */
  ghost predicate Lists(es: seq<Entry>, s: Spec.State, now: int) {
    && (forall i :: 0 <= i < |es| ==> es[i].key in s.m && s.m[es[i].key] == es[i]
                                      && Spec.Life(es[i], now, s.cleartime) == Spec.Alive)
    && (forall k :: k in s.m && Spec.Life(s.m[k], now, s.cleartime) == Spec.Alive ==> s.m[k] in es)
    && (forall i, j :: 0 <= i < j < |es| ==> es[i].key != es[j].key)
  }

  /** The fields of the entries have the widths of a record, and keys are stored under themselves. */
  ghost predicate Sized(s: Spec.State, now: nat) {
    forall k :: k in s.m ==> s.m[k].key == k && Writable(ItemOf(s.m[k], now))
  }

  lemma ListsKept(es: seq<Entry>, s: Spec.State, now: nat)
    requires Lists(es, s, now) && Sized(s, now)
    ensures forall i :: 0 <= i < |es| ==> Kept(es[i], now)
  {
    hide Writable;
  }

  /** What was saved of a shard: nothing if it has no live entries, else one frame whose block can be
      loaded exactly if the buffer was within the compressor's limit. */
  ghost predicate SavedAs(out: Bytes, v: Saved, crc: Crc) {
    if v.entries == [] then out == []
    else
      && out == Frame(v.block, crc) && |v.block.cdata| < UINT32_LIMIT && v.block.dlen < UINT32_LIMIT
      && (Faithful(v) <==> |BufferOf(v.entries, v.clock)| <= Lz4Compressor.MAX_INPUT_SIZE)
  }

  lemma FaithfulIff(v: Saved)
    requires Sane(v.clock) && (forall i :: 0 <= i < |v.entries| ==> Kept(v.entries[i], v.clock.now))
    requires Compressed(v.block, BufferOf(v.entries, v.clock))
    ensures Faithful(v) <==> |BufferOf(v.entries, v.clock)| <= Lz4Compressor.MAX_INPUT_SIZE
    ensures v.block.dlen < UINT32_LIMIT && |v.block.cdata| < UINT32_LIMIT
  {
    hide Lz4Spec.Decode, PutBlock, Kept;
    LoadableIff(v.block, BufferOf(v.entries, v.clock));
    SmallEnough(|BufferOf(v.entries, v.clock)|);
  }

  /** The block of a shard. */
  method SaveBlock(saver: Saver, es: seq<Entry>, clock: Clock, crc: Crc, hash: Lz4Compressor.Hash, ghost at: Clock)
    returns (out: Bytes, ghost v: Saved)
    requires saver.buf == [] && saver.nentries == 0 && Sane(clock)
    requires forall i :: 0 <= i < |es| ==> Kept(es[i], clock.now)
    modifies saver
    ensures saver.buf == [] && saver.nentries == 0
    ensures v.clock == clock && v.at == at && v.entries == es && SavedAs(out, v, crc)
  {
    hide Frame, BufferOf, Kept, Compressed, Faithful;
    SaveEntries(saver, es, clock);
    ghost var b;
    out, b := saver.Flush(crc, hash);
    v := Saved(clock, es, b, at);
    if es != [] {
      FaithfulIff(v);
    }
  }

  /** The live entries of a shard, as an iteration shows them. */
  method Look(sh: Shard, now: int, shrinkOk: bool) returns (es: seq<Entry>)
    requires sh.Valid()
    modifies sh.map_, sh.map_.buckets
    ensures sh.Valid() && sh.Abs() == old(sh.Abs())
    ensures sh.map_.buckets == old(sh.map_.buckets) || fresh(sh.map_.buckets)
    ensures Lists(es, sh.Abs(), now)
  {
    hide Tables.Table.Valid, Spec.Life;
    var status, visited, deleted := sh.IterOp(LOOK, now, shrinkOk);
    NoneDeleted(old(sh.Abs()), visited, deleted, now);
    es := visited;
  }

  /** One pass of thsave: iterate over a shard, then flush. */
  method SaveShard(sh: Shard, saver: Saver, clock: Clock, crc: Crc, hash: Lz4Compressor.Hash, shrinkOk: bool,
                   ghost at: Clock)
    returns (out: Bytes, ghost v: Saved)
    requires sh.Valid() && saver.buf == [] && saver.nentries == 0 && Sane(clock) && Sized(sh.Abs(), clock.now)
    modifies sh.map_, sh.map_.buckets, saver
    ensures sh.Valid() && sh.Abs() == old(sh.Abs()) && saver.buf == [] && saver.nentries == 0
    ensures sh.map_.buckets == old(sh.map_.buckets) || fresh(sh.map_.buckets)
    ensures v.clock == clock && v.at == at && Lists(v.entries, sh.Abs(), clock.now) && SavedAs(out, v, crc)
  {
    hide Tables.Table.Valid, SavedAs, Lists, Sized, Kept;
    var es := Look(sh, clock.now, shrinkOk);
    ListsKept(es, sh.Abs(), clock.now);
    out, v := SaveBlock(saver, es, clock, crc, hash, at);
  }

  lemma NoneDeleted(s: Spec.State, visited: seq<Entry>, deleted: set<Bytes>, now: int)
    requires Shown(s.m, visited, deleted, now, s.cleartime, LOOK)
    ensures deleted == {} && s.m - deleted == s.m && !Stopped(visited, LOOK)
  {
  }

  // ----- the whole file -----

  /** Shards that are valid and share no memory. */
  ghost predicate Apart(shards: seq<Shard>)
    reads set sh | sh in shards :: sh
    reads set sh | sh in shards :: sh.map_
    reads set sh | sh in shards :: sh.map_.buckets
  {
    && (forall sh :: sh in shards ==> sh.Valid())
    && forall i, j :: 0 <= i < j < |shards| ==>
         shards[i].map_ != shards[j].map_ && shards[i].map_.buckets != shards[j].map_.buckets
  }

  /** The shards that had something to save. */
  function NonEmpty(all: seq<Saved>): (r: seq<Saved>)
    ensures forall v :: v in r <==> v in all && v.entries != []
  {
    if all == [] then []
    else
      var n := |all| - 1;
      assert all == all[..n] + [all[n]];
      if all[n].entries == [] then NonEmpty(all[..n]) else NonEmpty(all[..n]) + [all[n]]
  }

  function Blocks(vs: seq<Saved>): (r: seq<Block>)
    ensures |r| == |vs| && forall i :: 0 <= i < |vs| ==> r[i] == vs[i].block
  {
    seq(|vs|, i requires 0 <= i < |vs| => vs[i].block)
  }

  lemma {:induction false} FramesGrow(bs: seq<Block>, b: Block, crc: Crc)
    ensures Frames(bs + [b], crc) == Frames(bs, crc) + Frame(b, crc)
    decreases |bs|
  {
    hide Frame;
    if bs != [] {
      FramesGrow(bs[1..], b, crc);
      assert (bs + [b])[1..] == bs[1..] + [b];
    } else {
      assert ([] + [b])[1..] == [];
    }
  }

  lemma NonEmptyPlus(all: seq<Saved>, v: Saved)
    ensures NonEmpty(all + [v]) == NonEmpty(all) + if v.entries == [] then [] else [v]
  {
    assert (all + [v])[..|all|] == all;
  }

  lemma FileGrows(all: seq<Saved>, v: Saved, out: Bytes, crc: Crc)
    requires SavedAs(out, v, crc)
    ensures Frames(Blocks(NonEmpty(all + [v])), crc) == Frames(Blocks(NonEmpty(all)), crc) + out
  {
    hide Frame, Frames, NonEmpty;
    NonEmptyPlus(all, v);
    if v.entries != [] {
      FramesGrow(Blocks(NonEmpty(all)), v.block, crc);
      assert Blocks(NonEmpty(all) + [v]) == Blocks(NonEmpty(all)) + [v.block];
    } else {
      assert NonEmpty(all) + [] == NonEmpty(all);
    }
  }

  /** The k-th block of the file is loaded at the k-th clock. */
  ghost predicate ClocksInOrder(all: seq<Saved>, at: nat -> Clock) {
    forall p :: 0 <= p < |NonEmpty(all)| ==> NonEmpty(all)[p].at == at(p)
  }

  lemma ClocksGrow(all: seq<Saved>, v: Saved, at: nat -> Clock)
    requires ClocksInOrder(all, at) && v.at == at(|NonEmpty(all)|)
    ensures ClocksInOrder(all + [v], at)
  {
    hide NonEmpty;
    NonEmptyPlus(all, v);
  }

  /** What is known of the shards saved so far. */
  ghost predicate SavedSoFar(all: seq<Saved>, states: seq<Spec.State>, clocks: seq<Clock>, crc: Crc) {
    && |all| <= |states| == |clocks|
    && forall i :: 0 <= i < |all| ==> WellSaved(all[i], states[i], clocks[i], crc)
  }

  ghost predicate WellSaved(v: Saved, s: Spec.State, clock: Clock, crc: Crc) {
    && v.clock == clock && Lists(v.entries, s, clock.now)
    && exists out :: SavedAs(out, v, crc)
  }

  lemma SavedOne(all: seq<Saved>, v: Saved, out: Bytes, states: seq<Spec.State>, clocks: seq<Clock>, crc: Crc)
    requires SavedSoFar(all, states, clocks, crc) && |all| < |states| && SavedAs(out, v, crc)
    requires var i := |all|; v.clock == clocks[i] && Lists(v.entries, states[i], clocks[i].now)
    ensures SavedSoFar(all + [v], states, clocks, crc)
  {
    hide Lists, SavedAs;
    var i := |all|;
    assert WellSaved(v, states[i], clocks[i], crc);
  }

  /** thsave over all shards. */
  method SaveFile(shards: seq<Shard>, clocks: seq<Clock>, crc: Crc, hash: Lz4Compressor.Hash, shrinkOk: bool,
                  ghost states: seq<Spec.State>, ghost at: nat -> Clock)
    returns (file: Bytes, ghost all: seq<Saved>)
    requires Apart(shards) && |clocks| == |shards| == |states|
    requires forall i :: 0 <= i < |shards| ==>
               states[i] == shards[i].Abs() && Sane(clocks[i]) && Sized(states[i], clocks[i].now)
    modifies set sh | sh in shards :: sh.map_
    modifies set sh | sh in shards :: sh.map_.buckets
    ensures |all| == |shards| && SavedSoFar(all, states, clocks, crc) && ClocksInOrder(all, at)
    ensures file == Frames(Blocks(NonEmpty(all)), crc)
    ensures forall i :: 0 <= i < |shards| ==> shards[i].Abs() == states[i]
  {
    hide Frames, SavedSoFar, SavedAs, Lists, Sized, NonEmpty, Blocks, Tables.Table.Valid;
    var saver := new Saver();
    file, all := [], [];
    NothingSaved(states, clocks, crc);
    var i := 0;
    while i < |shards|
      invariant 0 <= i <= |shards| && |all| == i && fresh(saver) && saver.buf == [] && saver.nentries == 0
      invariant Apart(shards) && forall j :: 0 <= j < |shards| ==> shards[j].Abs() == states[j]
      invariant forall j :: 0 <= j < |shards| ==>
                  shards[j].map_.buckets == old(shards[j].map_.buckets) || fresh(shards[j].map_.buckets)
      invariant SavedSoFar(all, states, clocks, crc) && file == Frames(Blocks(NonEmpty(all)), crc)
      invariant ClocksInOrder(all, at)
    {
      var out;
      ghost var v;
      assert shards[i] in shards;
      out, v := SaveShard(shards[i], saver, clocks[i], crc, hash, shrinkOk, at(|NonEmpty(all)|));
      FileGrows(all, v, out, crc);
      SavedOne(all, v, out, states, clocks, crc);
      ClocksGrow(all, v, at);
      file, all := file + out, all + [v];
      i := i + 1;
    }
  }

  lemma NothingSaved(states: seq<Spec.State>, clocks: seq<Clock>, crc: Crc)
    requires |states| == |clocks|
    ensures SavedSoFar([], states, clocks, crc) && Frames(Blocks(NonEmpty([])), crc) == []
  {
  }

  // ----- loading it -----

  /** The blocks in order, the first of them at the k-th clock. */
  function LoadList(s: Spec.State, blocks: seq<Block>, at: nat -> Clock, k: nat, c: Spec.Config): Spec.State
    decreases |blocks|
  {
    if blocks == [] then s
    else LoadList(LoadAll(s, BlockRestores(blocks[0], at(k)), c), blocks[1..], at, k + 1, c)
  }

  ghost predicate AllGood(blocks: seq<Block>) {
    forall i :: 0 <= i < |blocks| ==> Contents(blocks[i]).2
  }

  /** load with a single thread: the blocks of a file one after the other, up to a bad one. */
  method LoadFile(w: Worker, file: Bytes, crc: Crc, at: nat -> Clock, c: Spec.Config) returns (ok: bool)
    modifies w
    ensures ok <==> GetFrames(file, crc).1 && AllGood(GetFrames(file, crc).0)
    ensures ok ==> w.cache == LoadList(old(w.cache), GetFrames(file, crc).0, at, 0, c)
  {
    hide GetFrames, Contents, LoadAll, BlockRestores, Lates;
    var blocks;
    blocks, ok := ReadFile(file, crc);
    var i := 0;
    while i < |blocks|
      invariant 0 <= i <= |blocks|
      invariant forall j :: 0 <= j < i ==> Contents(blocks[j]).2
      invariant LoadList(w.cache, blocks[i..], at, i, c) == LoadList(old(w.cache), blocks, at, 0, c)
    {
      var good := w.LoadBlock(blocks[i], at(i), c);
      if !good {
        return false;
      }
      assert blocks[i..][1..] == blocks[i + 1..];
      i := i + 1;
    }
    assert blocks[i..] == [];
  }

  lemma {:induction false} ListsAreBlocks(s: Spec.State, vs: seq<Saved>, at: nat -> Clock, k: nat, c: Spec.Config)
    requires forall p :: 0 <= p < |vs| ==> vs[p].at == at(k + p)
    ensures LoadList(s, Blocks(vs), at, k, c) == LoadBlocks(s, vs, c)
    decreases |vs|
  {
    hide LoadAll, BlockRestores;
    if vs != [] {
      assert vs[0].at == at(k + 0);
      assert Blocks(vs)[1..] == Blocks(vs[1..]);
      forall p | 0 <= p < |vs| - 1 ensures vs[1..][p].at == at(k + 1 + p) { assert vs[1 + p].at == at(k + (1 + p)); }
      ListsAreBlocks(LoadAll(s, BlockRestores(vs[0].block, vs[0].at), c), vs[1..], at, k + 1, c);
    }
  }

  // ----- from one cache to another -----

  /** No key is in two shards. */
  ghost predicate Partition(states: seq<Spec.State>) {
    forall i, j, k :: 0 <= i < j < |states| && k in states[i].m ==> k !in states[j].m
  }

  // ----- the size of a shard -----

  function ItemSize(e: Entry, now: nat): nat {
    |PutItem(ItemOf(e, now))|
  }

  /** The bytes that the entries with the given keys take in a block. */
  ghost function Total(keys: set<Bytes>, m: map<Bytes, Entry>, now: nat): nat
    requires keys <= m.Keys
  {
    if keys == {} then 0
    else
      var k :| k in keys;
      ItemSize(m[k], now) + Total(keys - {k}, m, now)
  }

  lemma {:induction false} TotalPick(keys: set<Bytes>, m: map<Bytes, Entry>, now: nat, k: Bytes)
    requires keys <= m.Keys && k in keys
    ensures Total(keys, m, now) == ItemSize(m[k], now) + Total(keys - {k}, m, now)
    decreases |keys|
  {
    hide ItemSize;
    var j :| j in keys && Total(keys, m, now) == ItemSize(m[j], now) + Total(keys - {j}, m, now);
    if j != k {
      TotalPick(keys - {j}, m, now, k);
      TotalPick(keys - {k}, m, now, j);
      assert keys - {j} - {k} == keys - {k} - {j};
    }
  }

  function LiveKeys(s: Spec.State, now: int): (r: set<Bytes>)
    ensures forall k :: k in r <==> LiveIn(s, k, now)
  {
    set k | k in s.m && LiveIn(s, k, now)
  }

  /** The length of the block of a shard: it does not depend on the order of the entries. */
  ghost function BlockSize(s: Spec.State, clock: Clock): nat {
    |Varint.Write(clock.unix)| + Total(LiveKeys(s, clock.now), s.m, clock.now)
  }

  /** No shard is over the compressor's limit. */
  ghost predicate Fit(states: seq<Spec.State>, clocks: seq<Clock>) {
    |states| == |clocks| && forall i :: 0 <= i < |states| ==>
      BlockSize(states[i], clocks[i]) <= Lz4Compressor.MAX_INPUT_SIZE
  }

  lemma {:induction false} ListTotal(es: seq<Entry>, m: map<Bytes, Entry>, now: nat, keys: set<Bytes>)
    requires keys <= m.Keys && (forall i :: 0 <= i < |es| ==> es[i].key in keys && m[es[i].key] == es[i])
    requires (forall k :: k in keys ==> exists i :: 0 <= i < |es| && es[i].key == k)
    requires forall i, j :: 0 <= i < j < |es| ==> es[i].key != es[j].key
    ensures |PutItems(ItemsOf(es, now))| == Total(keys, m, now)
    decreases |es|
  {
    hide PutItem, PutItems, Total;
    if es == [] {
      assert keys == {} && ItemsOf(es, now) == [];
      NoItems();
      NoTotal(m, now);
    } else {
      var n := |es| - 1;
      var init, e := es[..n], es[n];
      assert ItemsOf(es, now) == ItemsOf(init, now) + [ItemOf(e, now)];
      ItemsGrow(ItemsOf(init, now), ItemOf(e, now));
      TotalPick(keys, m, now, e.key);
      forall k | k in keys - {e.key} ensures exists i :: 0 <= i < |init| && init[i].key == k {
        var i :| 0 <= i < |es| && es[i].key == k;
        assert init[i].key == k;
      }
      ListTotal(init, m, now, keys - {e.key});
    }
  }

  lemma NoTotal(m: map<Bytes, Entry>, now: nat)
    ensures Total({}, m, now) == 0
  {
  }

  lemma ListsSize(es: seq<Entry>, s: Spec.State, clock: Clock)
    requires Lists(es, s, clock.now) && forall k :: k in s.m ==> s.m[k].key == k
    ensures |BufferOf(es, clock)| == BlockSize(s, clock)
  {
    hide PutItems, Total, Varint.Write;
    var keys := LiveKeys(s, clock.now);
    forall k | k in keys ensures exists i :: 0 <= i < |es| && es[i].key == k {
      assert s.m[k] in es;
      var i :| 0 <= i < |es| && es[i] == s.m[k];
      assert es[i].key == k;
    }
    ListTotal(es, s.m, clock.now, keys);
  }

  // ----- what is carried over -----

  predicate LiveIn(s: Spec.State, k: Bytes, now: int) {
    k in s.m && Spec.Life(s.m[k], now, s.cleartime) == Spec.Alive
  }

  /** Every live entry survives, shard i being loaded at `all[i].at`, and other keys are left alone. */
  ghost predicate Carried(m: map<Bytes, Entry>, m0: map<Bytes, Entry>, states: seq<Spec.State>, clocks: seq<Clock>,
                          all: seq<Saved>)
    requires |states| == |clocks| == |all|
  {
    && (forall i, k :: 0 <= i < |states| && LiveIn(states[i], k, clocks[i].now) ==>
          Survives(m, m0, states[i].m[k], clocks[i], all[i].at))
    && (forall k :: (forall i :: 0 <= i < |states| ==> !LiveIn(states[i], k, clocks[i].now)) ==> Untouched(m, m0, k))
  }

  /** The position of a saved shard among those with entries. */
  lemma {:induction false} FindSaved(all: seq<Saved>, i: nat) returns (p: nat)
    requires i < |all| && all[i].entries != []
    ensures p < |NonEmpty(all)| && NonEmpty(all)[p] == all[i]
    decreases |all|
  {
    var n := |all| - 1;
    if i == n {
      p := |NonEmpty(all[..n])|;
    } else {
      p := FindSaved(all[..n], i);
    }
  }

  lemma NonEmptyStep(all: seq<Saved>)
    requires all != []
    ensures var n := |all| - 1;
            NonEmpty(all) == NonEmpty(all[..n]) + if all[n].entries == [] then [] else [all[n]]
  {
  }

  /** Two shards with entries come from two shards, in the same order. */
  lemma {:induction false} OrderKept(all: seq<Saved>, q: nat, p: nat) returns (j: nat, i: nat)
    requires q < p < |NonEmpty(all)|
    ensures j < i < |all| && NonEmpty(all)[q] == all[j] && NonEmpty(all)[p] == all[i]
    decreases |all|
  {
    var n := |all| - 1;
    NonEmptyStep(all);
    var before := NonEmpty(all[..n]);
    if p < |before| {
      j, i := OrderKept(all[..n], q, p);
    } else {
      i := n;
      assert before[q] in before;
      j :| 0 <= j < n && all[..n][j] == before[q];
    }
  }

  lemma KeysDistinct(all: seq<Saved>, states: seq<Spec.State>, clocks: seq<Clock>, crc: Crc)
    requires SavedSoFar(all, states, clocks, crc) && |all| == |states| && Partition(states)
    ensures DistinctKeys(NonEmpty(all))
  {
    hide SavedAs, NonEmpty;
    var vs := NonEmpty(all);
    forall i, j, k, l | 0 <= i < |vs| && 0 <= j < |vs[i].entries| && 0 <= k < |vs| && 0 <= l < |vs[k].entries| &&
                        vs[i].entries[j].key == vs[k].entries[l].key
      ensures i == k && j == l
    {
      if i != k {
        var lo, hi := if i < k then i else k, if i < k then k else i;
        var a, b := OrderKept(all, lo, hi);
        ApartKeys(all, states, clocks, crc, a, b, if i < k then j else l, if i < k then l else j);
      } else {
        assert vs[i] in vs;
        var a :| 0 <= a < |all| && all[a] == vs[i];
        assert WellSaved(all[a], states[a], clocks[a], crc);
        assert Lists(all[a].entries, states[a], clocks[a].now);
      }
    }
  }

  lemma ApartKeys(all: seq<Saved>, states: seq<Spec.State>, clocks: seq<Clock>, crc: Crc,
                  a: nat, b: nat, j: nat, l: nat)
    requires SavedSoFar(all, states, clocks, crc) && |all| == |states| && Partition(states)
    requires a < b < |all| && j < |all[a].entries| && l < |all[b].entries|
    ensures all[a].entries[j].key != all[b].entries[l].key
  {
    hide SavedAs;
    assert WellSaved(all[a], states[a], clocks[a], crc) && WellSaved(all[b], states[b], clocks[b], crc);
    assert Lists(all[a].entries, states[a], clocks[a].now) && Lists(all[b].entries, states[b], clocks[b].now);
    assert all[a].entries[j].key in states[a].m;
  }

  lemma AllFaithful(all: seq<Saved>, states: seq<Spec.State>, clocks: seq<Clock>, crc: Crc)
    requires SavedSoFar(all, states, clocks, crc) && Fit(states, clocks) && forall bs :: crc(bs) < UINT32_LIMIT
    requires forall i :: 0 <= i < |states| ==> Sized(states[i], clocks[i].now)
    ensures forall v :: v in NonEmpty(all) ==> Faithful(v) && Framable(v.block, crc)
  {
    hide NonEmpty, Lists, Faithful, Frame, BufferOf, BlockSize, Writable;
    forall v | v in NonEmpty(all) ensures Faithful(v) && Framable(v.block, crc) {
      var i :| 0 <= i < |all| && all[i] == v;
      assert WellSaved(all[i], states[i], clocks[i], crc);
      ListsSize(v.entries, states[i], clocks[i]);
      var out :| SavedAs(out, all[i], crc);
    }
  }

  /** Any interleaving of the loading threads, each block at its own clock, carries every live entry
      over. */
  lemma CarriedAnyhow(all: seq<Saved>, states: seq<Spec.State>, clocks: seq<Clock>, crc: Crc, rs: seq<Restore>,
                      s: Spec.State, c: Spec.Config)
    requires SavedSoFar(all, states, clocks, crc) && |all| == |states| && Fit(states, clocks) && Partition(states)
    requires (forall bs :: crc(bs) < UINT32_LIMIT)
             && forall i :: 0 <= i < |states| ==> Sized(states[i], clocks[i].now)
    requires multiset(rs) == multiset(Restores(NonEmpty(all)))
    ensures Carried(LoadAll(s, rs, c).m, s.m, states, clocks, all)
  {
    hide NonEmpty, Faithful, Framable, Restores, LoadAll, SavedAs, Fit, Survives, Sized;
    var vs := NonEmpty(all);
    AllFaithful(all, states, clocks, crc);
    KeysDistinct(all, states, clocks, crc);
    AnyInterleaving(vs, rs, s, c);
    var m := LoadAll(s, rs, c).m;
    forall i, k | 0 <= i < |states| && LiveIn(states[i], k, clocks[i].now)
      ensures Survives(m, s.m, states[i].m[k], clocks[i], all[i].at)
    {
      assert WellSaved(all[i], states[i], clocks[i], crc);
      assert Lists(all[i].entries, states[i], clocks[i].now);
      var j :| 0 <= j < |all[i].entries| && all[i].entries[j] == states[i].m[k];
      var p := FindSaved(all, i);
    }
    forall k | forall i :: 0 <= i < |states| ==> !LiveIn(states[i], k, clocks[i].now) ensures Untouched(m, s.m, k) {
      if SavedKey(vs, k) {
        var i := SavedIsLive(all, k, states, clocks, crc);
      }
    }
  }

  /** Saving and loading together carry every live entry over. */
  lemma CarriedOver(all: seq<Saved>, states: seq<Spec.State>, clocks: seq<Clock>, at: nat -> Clock, crc: Crc,
                    s: Spec.State, c: Spec.Config)
    requires SavedSoFar(all, states, clocks, crc) && |all| == |states| && Fit(states, clocks) && Partition(states)
    requires (forall bs :: crc(bs) < UINT32_LIMIT) && ClocksInOrder(all, at)
             && forall i :: 0 <= i < |states| ==> Sized(states[i], clocks[i].now)
    ensures var blocks := Blocks(NonEmpty(all));
            && GetFrames(Frames(blocks, crc), crc) == (blocks, true) && AllGood(blocks)
            && Carried(LoadList(s, blocks, at, 0, c).m, s.m, states, clocks, all)
  {
    hide NonEmpty, Frames, GetFrames, AllGood, LoadList, LoadAll, Restores, Fit, SavedSoFar, Carried, Sized, Partition;
    hide ClocksInOrder, Blocks;
    FileGood(all, states, clocks, crc);
    InOrder(all, at, s, c);
    CarriedAnyhow(all, states, clocks, crc, Restores(NonEmpty(all)), s, c);
  }

  /** Loading the blocks of the file in order is loading their items in order. */
  lemma InOrder(all: seq<Saved>, at: nat -> Clock, s: Spec.State, c: Spec.Config)
    requires ClocksInOrder(all, at)
    ensures LoadList(s, Blocks(NonEmpty(all)), at, 0, c) == LoadAll(s, Restores(NonEmpty(all)), c)
  {
    hide NonEmpty, Blocks, LoadList, LoadAll, LoadBlocks, Restores;
    ListsAreBlocks(s, NonEmpty(all), at, 0, c);
    BlocksAreItems(s, NonEmpty(all), c);
  }

  /** The file is read back whole, and every block of it is accepted. */
  lemma FileGood(all: seq<Saved>, states: seq<Spec.State>, clocks: seq<Clock>, crc: Crc)
    requires SavedSoFar(all, states, clocks, crc) && Fit(states, clocks) && forall bs :: crc(bs) < UINT32_LIMIT
    requires forall i :: 0 <= i < |states| ==> Sized(states[i], clocks[i].now)
    ensures var blocks := Blocks(NonEmpty(all));
            GetFrames(Frames(blocks, crc), crc) == (blocks, true) && AllGood(blocks)
  {
    hide NonEmpty, Faithful, Framable, Contents, Frames, GetFrames, Fit, SavedSoFar, Sized;
    var vs := NonEmpty(all);
    AllFaithful(all, states, clocks, crc);
    forall i | 0 <= i < |vs| ensures Contents(vs[i].block).2 && Framable(vs[i].block, crc) {
      assert vs[i] in vs;
      BlockContents(vs[i]);
    }
    FramesBack(Blocks(vs), crc);
  }

  lemma SavedIsLive(all: seq<Saved>, k: Bytes, states: seq<Spec.State>, clocks: seq<Clock>, crc: Crc)
    returns (i: nat)
    requires SavedSoFar(all, states, clocks, crc) && SavedKey(NonEmpty(all), k)
    ensures i < |states| && LiveIn(states[i], k, clocks[i].now)
  {
    hide NonEmpty, SavedAs;
    var vs := NonEmpty(all);
    var p, j :| 0 <= p < |vs| && 0 <= j < |vs[p].entries| && vs[p].entries[j].key == k;
    assert vs[p] in vs;
    i :| 0 <= i < |all| && all[i] == vs[p];
    assert WellSaved(all[i], states[i], clocks[i], crc);
    assert Lists(all[i].entries, states[i], clocks[i].now);
  }

  /** The abstract states of the shards. */
  ghost function States(shards: seq<Shard>): (r: seq<Spec.State>)
    reads set sh | sh in shards :: sh
    reads set sh | sh in shards :: sh.map_
    ensures |r| == |shards| && forall i :: 0 <= i < |shards| ==> r[i] == shards[i].Abs()
    decreases |shards|
  {
    if shards == [] then []
    else
      assert shards[0] in shards && forall sh :: sh in shards[1..] ==> sh in shards;
      [shards[0].Abs()] + States(shards[1..])
  }

  /** A restart: the shards of a cache are saved to a file, and the file is loaded into a cache in state
      `s`.  Unless a shard is too large for the compressor, the load succeeds, every entry alive when it
      was saved is back with its value, flags and wall-clock expiry unless that has passed, and nothing
      else changes. */
  method SaveAndLoad(shards: seq<Shard>, clocks: seq<Clock>, crc: Crc, hash: Lz4Compressor.Hash, shrinkOk: bool,
                     at: nat -> Clock, s: Spec.State, c: Spec.Config)
    returns (ok: bool, w: Worker, ghost all: seq<Saved>, ghost states: seq<Spec.State>)
    requires Apart(shards) && |clocks| == |shards| && forall bs :: crc(bs) < UINT32_LIMIT
    requires forall i :: 0 <= i < |shards| ==> Sane(clocks[i]) && Sized(shards[i].Abs(), clocks[i].now)
    requires forall i, j, k :: 0 <= i < j < |shards| && k in shards[i].Abs().m ==> k !in shards[j].Abs().m
    modifies set sh | sh in shards :: sh.map_
    modifies set sh | sh in shards :: sh.map_.buckets
    ensures |states| == |shards|
    ensures forall i :: 0 <= i < |shards| ==> states[i] == old(shards[i].Abs()) == shards[i].Abs()
    ensures |all| == |shards| && SavedSoFar(all, states, clocks, crc) && ClocksInOrder(all, at)
    ensures Fit(states, clocks) ==> ok && Carried(w.cache.m, s.m, states, clocks, all)
  {
    hide SavedSoFar, Fit, Frames, GetFrames, NonEmpty, Blocks, AllGood, LoadList, Carried, Tables.Table.Valid, Sized;
    hide ClocksInOrder;
    states := States(shards);
    var file;
    file, all := SaveFile(shards, clocks, crc, hash, shrinkOk, states, at);
    w := new Worker(s);
    ok := LoadFile(w, file, crc, at, c);
    if Fit(states, clocks) {
      CarriedOver(all, states, clocks, at, crc, s, c);
    }
  }
}
