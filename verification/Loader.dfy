/**
 The snapshot loader of src/save.c: one reader fills a bounded queue of blocks and a pool of
 workers empties it, with one mutex and one condition variable.  A critical section is one
 step; a broadcast that follows the unlock is a step of its own.  `loc` and `loads` only record
 what became of each queued block.
 */
module Loader {
  import opened Common

  /** What became of a queued block. */
  datatype Fate = Queued | With(w: nat) | Loaded | Spoiled

  datatype Worker =
    | Ready                          // about to enter the critical section
    | Notify(b: nat)                 // took a block and unlocked, broadcast still to come
    | Load(b: nat)                   // in load_block
    | Judged(b: nat, good: bool)     // load_block returned
    | Asleep                         // in pthread_cond_wait
    | Leave                          // left the loop, broadcast still to come
    | Gone

  datatype Reader =
    | Reading
    | Have                           // a block is ready to be queued
    | RAsleep                        // queue full, in pthread_cond_wait
    | Closing                        // about to set donereading
    | CloseNotify                    // broadcast still to come
    | Joining
    | Returned(ok: bool)

  datatype Pool = Pool(
    nprocs: nat, workers: seq<Worker>, reader: Reader, ok: bool,
    blocks: seq<nat>, failure: bool, done: bool,
    loc: seq<Fate>, loads: seq<nat>)

  datatype Action =
    | WorkerStep(w: nat, good: bool)   // `good`: what load_block returns
    | ReadBlock | ReadEnd | ReadError
    | ReaderStep
    | WakeWorker(w: nat) | WakeReader  // spurious wake-ups

  function Wake(w: Worker): Worker {
    if w == Asleep then Ready else w
  }

  /** pthread_cond_broadcast */
  function Broadcast(s: Pool): (r: Pool)
    ensures |r.workers| == |s.workers|
  {
    s.(workers := seq(|s.workers|, i requires 0 <= i < |s.workers| => Wake(s.workers[i])),
       reader := if s.reader == RAsleep then Have else s.reader)
  }

  function SetWorker(s: Pool, w: nat, pc: Worker): Pool
    requires w < |s.workers|
  {
    s.(workers := s.workers[w := pc])
  }

  /** thload, one step of worker `w`. */
  function StepWorker(s: Pool, w: nat, good: bool): Pool
    requires w < |s.workers|
  {
    match s.workers[w]
    case Ready =>
      if s.failure then SetWorker(s, w, Leave)
      else if s.blocks != [] then
        var b := s.blocks[|s.blocks| - 1];
        var s1 := s.(blocks := s.blocks[..|s.blocks| - 1]);
        SetWorker(if b < |s.loc| then s1.(loc := s.loc[b := With(w)]) else s1, w, Notify(b))
      else if s.done then SetWorker(s, w, Leave)
      else SetWorker(s, w, Asleep)
    case Notify(b) => SetWorker(Broadcast(s), w, Load(b))
    case Load(b) => SetWorker(s, w, Judged(b, good))
    case Judged(b, ok) =>
      if b >= |s.loc| then s
      else if ok then SetWorker(s.(loc := s.loc[b := Loaded], loads := s.loads + [b]), w, Ready)
      else SetWorker(s.(loc := s.loc[b := Spoiled], failure := true), w, Leave)
    case Asleep => s
    case Leave => SetWorker(Broadcast(s), w, Gone)
    case Gone => s
  }

  /** load, one step of the reader. */
  function StepReader(s: Pool): Pool {
    match s.reader
    case Have =>
      if s.failure then s.(ok := false, reader := Closing)
      else if |s.blocks| == s.nprocs then s.(reader := RAsleep)
      else Broadcast(s.(blocks := s.blocks + [|s.loc|], loc := s.loc + [Queued], reader := Reading))
    case Closing => s.(done := true, reader := CloseNotify)
    case CloseNotify => Broadcast(s).(reader := Joining)
    case Joining =>
      if forall w :: 0 <= w < |s.workers| ==> s.workers[w] == Gone then s.(reader := Returned(s.ok && !s.failure))
      else s
    case _ => s
  }

  function Next(s: Pool, a: Action): Pool {
    match a
    case WorkerStep(w, good) => if w < |s.workers| then StepWorker(s, w, good) else s
    case ReadBlock => if s.reader == Reading then s.(reader := Have) else s
    case ReadEnd => if s.reader == Reading then s.(reader := Closing) else s
    case ReadError => if s.reader == Reading then s.(reader := Closing, ok := false) else s
    case ReaderStep => StepReader(s)
    case WakeWorker(w) => if w < |s.workers| && s.workers[w] == Asleep then SetWorker(s, w, Ready) else s
    case WakeReader => if s.reader == RAsleep then s.(reader := Have) else s
  }

  // ----- invariants -----

  function InHand(w: Worker): Option<nat> {
    match w
    case Notify(b) => Some(b)
    case Load(b) => Some(b)
    case Judged(b, _) => Some(b)
    case _ => None
  }

  lemma NoDupAppend(xs: seq<nat>, x: nat)
    requires NoDup(xs) && x !in xs
    ensures NoDup(xs + [x])
  {
    forall i, j | 0 <= i < j < |xs + [x]| ensures (xs + [x])[i] != (xs + [x])[j] {
      assert (xs + [x])[i] == xs[i];
    }
  }

  ghost predicate Fated(s: Pool, b: nat, f: Fate) {
    b < |s.loc| && s.loc[b] == f
  }

  /** Every queued block is in exactly one place. */
  ghost predicate Placed(s: Pool) {
    && NoDup(s.blocks) && (forall b: nat :: b in s.blocks <==> Fated(s, b, Queued))
    && NoDup(s.loads) && (forall b: nat :: b in s.loads <==> Fated(s, b, Loaded))
    && (forall w :: 0 <= w < |s.workers| && InHand(s.workers[w]).Some? ==>
          Fated(s, InHand(s.workers[w]).value, With(w)))
    && (forall b :: 0 <= b < |s.loc| && s.loc[b].With? ==>
          s.loc[b].w < |s.workers| && InHand(s.workers[s.loc[b].w]) == Some(b))
    && (forall b :: 0 <= b < |s.loc| && s.loc[b] == Spoiled ==> s.failure)
  }

  /** Some worker is about to broadcast. */
  ghost predicate WorkerPending(s: Pool) {
    exists w :: 0 <= w < |s.workers| && Calls(s.workers[w])
  }

  /** No lost wake-up: whoever sleeps has nothing to do, or a broadcast is still to come. */
  ghost predicate NoLostWakeup(s: Pool) {
    && ((exists w :: 0 <= w < |s.workers| && s.workers[w] == Asleep) && (s.failure || s.blocks != [] || s.done)
        ==> s.reader == CloseNotify || WorkerPending(s))
    && (s.reader == RAsleep && (s.failure || |s.blocks| < s.nprocs) ==> WorkerPending(s))
  }

  ghost predicate Orderly(s: Pool) {
    && s.nprocs > 0 && |s.workers| == s.nprocs && |s.blocks| <= s.nprocs
    && (s.done <==> s.reader.CloseNotify? || s.reader.Joining? || s.reader.Returned?)
    && (forall w :: 0 <= w < |s.workers| && (s.workers[w].Leave? || s.workers[w].Gone?) ==>
          s.failure || (s.done && s.blocks == []))
    && (s.reader.Returned? ==>
          && (forall w :: 0 <= w < |s.workers| ==> s.workers[w] == Gone)
          && s.reader.ok == (s.ok && !s.failure))
  }

  ghost predicate Sound(s: Pool) {
    Placed(s) && NoLostWakeup(s) && Orderly(s)
  }

  function Start(nprocs: nat): Pool {
    Pool(nprocs, seq(nprocs, _ => Ready), Reading, true, [], false, false, [], [])
  }

  // ----- every step keeps them -----

  /** Nothing moved. */
  lemma SamePlaces(s: Pool, r: Pool)
    requires Placed(s) && r.blocks == s.blocks && r.loc == s.loc && r.loads == s.loads && |r.workers| == |s.workers|
    requires forall w :: 0 <= w < |s.workers| ==> InHand(r.workers[w]) == InHand(s.workers[w])
    requires s.failure ==> r.failure
    ensures Placed(r)
  {
    assert forall b: nat, f :: Fated(r, b, f) <==> Fated(s, b, f);
  }

  lemma NoDupInit(xs: seq<nat>, x: nat)
    requires NoDup(xs + [x])
    ensures NoDup(xs) && x !in xs
  {
    forall i, j | 0 <= i < j < |xs| ensures xs[i] != xs[j] {
      assert (xs + [x])[i] == xs[i] && (xs + [x])[j] == xs[j];
    }
    forall i | 0 <= i < |xs| ensures xs[i] != x {
      assert (xs + [x])[i] == xs[i] && (xs + [x])[|xs|] == x;
    }
  }

  lemma TakeStep(s: Pool, w: nat)
    requires w < |s.workers| && s.workers[w] == Ready && !s.failure && s.blocks != []
    requires s.blocks[|s.blocks| - 1] < |s.loc|
    ensures var b, r := s.blocks[|s.blocks| - 1], StepWorker(s, w, true);
            && s.blocks == r.blocks + [b] && r.loads == s.loads && !r.failure
            && r.loc == s.loc[b := With(w)] && r.workers == s.workers[w := Notify(b)]
  {
  }

  lemma TakePlaced(s: Pool, w: nat)
    requires Placed(s) && w < |s.workers| && s.workers[w] == Ready && !s.failure && s.blocks != []
    ensures Placed(StepWorker(s, w, true))
  {
    hide StepWorker;
    var b, r := s.blocks[|s.blocks| - 1], StepWorker(s, w, true);
    assert b in s.blocks && Fated(s, b, Queued);
    TakeStep(s, w);
    NoDupInit(r.blocks, b);
    forall x: nat ensures x in r.blocks <==> Fated(r, x, Queued) {
      assert Fated(r, x, Queued) <==> Fated(s, x, Queued) && x != b;
    }
    forall x: nat ensures x in r.loads <==> Fated(r, x, Loaded) {
      assert Fated(r, x, Loaded) <==> Fated(s, x, Loaded);
    }
  }

  lemma JudgePlaced(s: Pool, w: nat)
    requires Placed(s) && w < |s.workers| && s.workers[w].Judged?
    ensures Placed(StepWorker(s, w, true))
  {
    var b, good, r := s.workers[w].b, s.workers[w].good, StepWorker(s, w, true);
    assert InHand(s.workers[w]) == Some(b) && Fated(s, b, With(w));
    NoDupAppend(s.loads, b);
    forall x: nat ensures x in r.blocks <==> Fated(r, x, Queued) {
      assert Fated(r, x, Queued) <==> Fated(s, x, Queued);
    }
    forall x: nat ensures x in r.loads <==> Fated(r, x, Loaded) {
      assert Fated(r, x, Loaded) <==> Fated(s, x, Loaded) || (x == b && good);
    }
  }

  lemma WorkerPlaced(s: Pool, w: nat, good: bool)
    requires Placed(s) && w < |s.workers|
    ensures Placed(StepWorker(s, w, good))
  {
    hide Placed;
    if s.workers[w].Judged? {
      JudgePlaced(s, w);
    } else if s.workers[w] == Ready && !s.failure && s.blocks != [] {
      TakePlaced(s, w);
    } else {
      SamePlaces(s, StepWorker(s, w, good));
    }
  }

  lemma QueuePlaced(s: Pool, r: Pool)
    requires Placed(s) && r == s.(blocks := s.blocks + [|s.loc|], loc := s.loc + [Queued], reader := Reading)
    ensures Placed(r)
  {
    NoDupAppend(s.blocks, |s.loc|);
    forall x: nat ensures x in r.blocks <==> Fated(r, x, Queued) {
      assert Fated(r, x, Queued) <==> Fated(s, x, Queued) || x == |s.loc|;
    }
    forall x: nat ensures x in r.loads <==> Fated(r, x, Loaded) {
      assert Fated(r, x, Loaded) <==> Fated(s, x, Loaded);
    }
  }

  lemma ReaderPlaced(s: Pool)
    requires Placed(s)
    ensures Placed(StepReader(s))
  {
    hide Placed;
    if s.reader == Have && !s.failure && |s.blocks| != s.nprocs {
      var r := s.(blocks := s.blocks + [|s.loc|], loc := s.loc + [Queued], reader := Reading);
      QueuePlaced(s, r);
      SamePlaces(r, StepReader(s));
    } else {
      SamePlaces(s, StepReader(s));
    }
  }

  predicate Calls(w: Worker) {
    w.Notify? || w.Leave?
  }

  /** A pending broadcast stays pending while its worker does not move. */
  lemma StillPending(s: Pool, r: Pool, w: nat)
    requires w < |s.workers| == |r.workers| && WorkerPending(s) && !Calls(s.workers[w])
    requires forall u :: 0 <= u < |s.workers| && u != w ==> r.workers[u] == s.workers[u]
    ensures WorkerPending(r)
  {
    var u :| 0 <= u < |s.workers| && Calls(s.workers[u]);
    assert Calls(r.workers[u]);
  }

  lemma WorkerWakes(s: Pool, w: nat, good: bool)
    requires NoLostWakeup(s) && w < |s.workers|
    ensures NoLostWakeup(StepWorker(s, w, good))
  {
    hide WorkerPending;
    var r := StepWorker(s, w, good);
    if Calls(s.workers[w]) {
      assert forall u :: 0 <= u < |r.workers| ==> r.workers[u] != Asleep;
    } else if Calls(r.workers[w]) {
      NowPending(r, w);
    } else if WorkerPending(s) {
      StillPending(s, r, w);
    } else if s.reader != CloseNotify {
      SleepersStay(s, r, w);
    }
  }

  lemma NowPending(r: Pool, w: nat)
    requires w < |r.workers| && Calls(r.workers[w])
    ensures WorkerPending(r)
  {
  }

  /** A worker that neither calls nor has something to do may fall asleep or stay. */
  lemma SleepersStay(s: Pool, r: Pool, w: nat)
    requires w < |s.workers| == |r.workers| && r.workers == s.workers[w := r.workers[w]]
    requires r.failure == s.failure && r.done == s.done && r.blocks == s.blocks
    requires r.workers[w] == Asleep && s.workers[w] != Asleep ==> !s.failure && s.blocks == [] && !s.done
    requires (exists u :: 0 <= u < |s.workers| && s.workers[u] == Asleep) ==> !(s.failure || s.blocks != [] || s.done)
    ensures (exists u :: 0 <= u < |r.workers| && r.workers[u] == Asleep) ==> !(r.failure || r.blocks != [] || r.done)
  {
    if u :| 0 <= u < |r.workers| && r.workers[u] == Asleep {
      assert u != w ==> s.workers[u] == Asleep;
    }
  }

  lemma ReaderWakes(s: Pool)
    requires NoLostWakeup(s) && |s.blocks| <= s.nprocs
    ensures NoLostWakeup(StepReader(s))
  {
    var r := StepReader(s);
    if WorkerPending(s) && r.workers == s.workers {
      assert WorkerPending(r);
    }
  }

  lemma WorkerOrderly(s: Pool, w: nat, good: bool)
    requires Orderly(s) && w < |s.workers|
    ensures Orderly(StepWorker(s, w, good))
  {
    hide StepWorker;
    WorkerEffect(s, w, good);
    var r := StepWorker(s, w, good);
    if s.reader.Returned? {
      assert s.workers[w] == Gone;
    } else {
      LeaversStay(s, r, w);
    }
  }

  predicate Left(w: Worker) { w.Leave? || w.Gone? }

  /** What a worker's step does to the rest. */
  ghost predicate Effect(s: Pool, r: Pool, w: nat)
    requires w < |s.workers|
  {
    && r.nprocs == s.nprocs && |r.workers| == |s.workers| && |r.blocks| <= |s.blocks|
    && r.done == s.done && r.reader == (if Calls(s.workers[w]) && s.reader == RAsleep then Have else s.reader)
    && r.ok == s.ok && (s.failure ==> r.failure)
    && (forall u :: 0 <= u < |s.workers| && u != w && Left(r.workers[u]) ==> Left(s.workers[u]))
    && (Left(r.workers[w]) && !Left(s.workers[w]) ==> r.failure || (r.done && r.blocks == []))
    && (s.workers[w] == Gone ==> r == s)
  }

  lemma QuietEffect(s: Pool, s1: Pool, w: nat, pc: Worker)
    requires w < |s.workers| && !Calls(s.workers[w]) && s.workers[w] != Gone && |s1.blocks| <= |s.blocks|
    requires s1 == s.(blocks := s1.blocks, loc := s1.loc, loads := s1.loads, failure := s1.failure)
    requires s.failure ==> s1.failure
    requires pc.Leave? ==> s1.failure || (s1.done && s1.blocks == [])
    requires !pc.Gone?
    ensures Effect(s, SetWorker(s1, w, pc), w)
  {
  }

  lemma CallEffect(s: Pool, w: nat, pc: Worker)
    requires w < |s.workers| && Calls(s.workers[w]) && (Left(pc) ==> Left(s.workers[w]))
    ensures Effect(s, SetWorker(Broadcast(s), w, pc), w)
  {
    hide Broadcast;
    BroadcastEffect(s);
  }

  lemma WorkerEffect(s: Pool, w: nat, good: bool)
    requires w < |s.workers|
    ensures Effect(s, StepWorker(s, w, good), w)
  {
    hide Effect, Broadcast, SetWorker;
    match s.workers[w]
    case Ready =>
      if s.failure || (s.blocks == [] && s.done) {
        QuietEffect(s, s, w, Leave);
      } else if s.blocks == [] {
        QuietEffect(s, s, w, Asleep);
      } else {
        var b := s.blocks[|s.blocks| - 1];
        var s1 := s.(blocks := s.blocks[..|s.blocks| - 1]);
        QuietEffect(s, if b < |s.loc| then s1.(loc := s.loc[b := With(w)]) else s1, w, Notify(b));
      }
    case Notify(b) => CallEffect(s, w, Load(b));
    case Load(b) => QuietEffect(s, s, w, Judged(b, good));
    case Judged(b, ok) =>
      if b >= |s.loc| {
        SameEffect(s, w);
      } else if ok {
        QuietEffect(s, s.(loc := s.loc[b := Loaded], loads := s.loads + [b]), w, Ready);
      } else {
        QuietEffect(s, s.(loc := s.loc[b := Spoiled], failure := true), w, Leave);
      }
    case Asleep => SameEffect(s, w);
    case Leave => CallEffect(s, w, Gone);
    case Gone => SameEffect(s, w);
  }

  lemma SameEffect(s: Pool, w: nat)
    requires w < |s.workers| && !Calls(s.workers[w])
    ensures Effect(s, s, w)
  {
  }

  lemma BroadcastEffect(s: Pool)
    ensures var r := Broadcast(s);
            && r == s.(workers := r.workers, reader := if s.reader == RAsleep then Have else s.reader)
            && |r.workers| == |s.workers|
            && forall u :: 0 <= u < |s.workers| ==> Left(r.workers[u]) == Left(s.workers[u])
  {
  }

  /** Workers leave only once there is nothing left to do, and others stay as they are. */
  lemma LeaversStay(s: Pool, r: Pool, w: nat)
    requires w < |s.workers| == |r.workers| && (s.failure ==> r.failure) && r.done == s.done
    requires s.blocks == [] ==> r.blocks == []
    requires forall u :: 0 <= u < |s.workers| && (s.workers[u].Leave? || s.workers[u].Gone?) ==>
               s.failure || (s.done && s.blocks == [])
    requires forall u :: 0 <= u < |s.workers| && u != w && Left(r.workers[u]) ==> Left(s.workers[u])
    requires Left(r.workers[w]) && !Left(s.workers[w]) ==> r.failure || (r.done && r.blocks == [])
    ensures forall u :: 0 <= u < |r.workers| && (r.workers[u].Leave? || r.workers[u].Gone?) ==>
              r.failure || (r.done && r.blocks == [])
  {
  }

  lemma ReaderOrderly(s: Pool)
    requires Orderly(s)
    ensures Orderly(StepReader(s))
  {
  }

  lemma NextSound(s: Pool, a: Action)
    requires Sound(s)
    ensures Sound(Next(s, a))
  {
    hide Placed, NoLostWakeup, Orderly, StepWorker, StepReader;
    match a
    case WorkerStep(w, good) =>
      if w < |s.workers| {
        WorkerPlaced(s, w, good);
        WorkerWakes(s, w, good);
        WorkerOrderly(s, w, good);
      }
    case ReaderStep =>
      QueueFits(s);
      ReaderPlaced(s);
      ReaderWakes(s);
      ReaderOrderly(s);
    case WakeWorker(w) =>
      if w < |s.workers| && s.workers[w] == Asleep {
        WakeSound(s, w);
      }
    case ReadBlock => QuietSound(s, Next(s, a));
    case ReadEnd => QuietSound(s, Next(s, a));
    case ReadError => QuietSound(s, Next(s, a));
    case WakeReader => QuietSound(s, Next(s, a));
  }

  lemma QueueFits(s: Pool)
    requires Orderly(s)
    ensures |s.blocks| <= s.nprocs
  {
  }

  lemma WakeSound(s: Pool, w: nat)
    requires Sound(s) && w < |s.workers| && s.workers[w] == Asleep
    ensures Sound(SetWorker(s, w, Ready))
  {
    hide Placed;
    var r := SetWorker(s, w, Ready);
    SamePlaces(s, r);
    if WorkerPending(s) {
      StillPending(s, r, w);
    }
  }

  /** Steps of the reader outside the critical sections. */
  lemma QuietSound(s: Pool, r: Pool)
    requires Sound(s) && r == s.(reader := r.reader, ok := r.ok)
    requires r == s || ((s.reader == Reading || s.reader == RAsleep) && r.reader in {Reading, Have, Closing})
    ensures Sound(r)
  {
    SamePlaces(s, r);
    if WorkerPending(s) {
      assert WorkerPending(r);
    }
  }

  function RunAll(s: Pool, acts: seq<Action>): Pool {
    if acts == [] then s else Next(RunAll(s, acts[..|acts| - 1]), acts[|acts| - 1])
  }

  /** Whatever the interleaving, the pool stays sound; in particular the queue never holds more
      than nprocs blocks and each block is taken by one worker and loaded at most once. */
  lemma {:induction false} EveryRunSound(nprocs: nat, acts: seq<Action>)
    requires nprocs > 0
    ensures Sound(RunAll(Start(nprocs), acts))
    decreases |acts|
  {
    hide Sound, Next;
    if acts == [] {
      StartSound(nprocs);
    } else {
      EveryRunSound(nprocs, acts[..|acts| - 1]);
      NextSound(RunAll(Start(nprocs), acts[..|acts| - 1]), acts[|acts| - 1]);
    }
  }

  lemma StartSound(nprocs: nat)
    requires nprocs > 0
    ensures Sound(Start(nprocs))
  {
  }

  /** A successful return means that every queued block was loaded, exactly once. */
  lemma SuccessLoadsAll(nprocs: nat, acts: seq<Action>)
    requires nprocs > 0 && RunAll(Start(nprocs), acts).reader == Returned(true)
    ensures var s := RunAll(Start(nprocs), acts);
            NoDup(s.loads) && forall b: nat :: b in s.loads <==> b < |s.loc|
  {
    hide RunAll;
    EveryRunSound(nprocs, acts);
    var s := RunAll(Start(nprocs), acts);
    assert s.workers[0] == Gone;
    forall b: nat | b < |s.loc| ensures s.loc[b] == Loaded {
      assert s.loc[b] == Queued ==> Fated(s, b, Queued);
    }
    forall b: nat ensures b in s.loads <==> b < |s.loc| {
      assert b in s.loads <==> Fated(s, b, Loaded);
    }
  }

  // ----- what a return says -----

  /** The blocks read from the file: the ReadBlock actions that found the reader reading. */
  function ReadSoFar(nprocs: nat, acts: seq<Action>): nat {
    if acts == [] then 0
    else
      var n := |acts| - 1;
      ReadSoFar(nprocs, acts[..n]) +
      if acts[n] == ReadBlock && RunAll(Start(nprocs), acts[..n]).reader == Reading then 1 else 0
  }

  /** Whether reading failed: some ReadError found the reader reading. */
  predicate ErrorSoFar(nprocs: nat, acts: seq<Action>) {
    acts != [] &&
    var n := |acts| - 1;
    || ErrorSoFar(nprocs, acts[..n])
    || (acts[n] == ReadError && RunAll(Start(nprocs), acts[..n]).reader == Reading)
  }

  /** Whether a block was bad: load_block failed for some worker. */
  predicate BadSoFar(nprocs: nat, acts: seq<Action>) {
    acts != [] &&
    var n := |acts| - 1;
    BadSoFar(nprocs, acts[..n]) || Fails(RunAll(Start(nprocs), acts[..n]), acts[n])
  }

  predicate Fails(s: Pool, a: Action) {
    a.WorkerStep? && a.w < |s.workers| && s.workers[a.w].Load? && !a.good
  }

  /** The block the reader has in hand. */
  function Pending(r: Reader): nat {
    if r.Have? || r.RAsleep? then 1 else 0
  }

  /** A worker whose block was bad and which has not said so yet. */
  ghost predicate Blames(s: Pool, w: int) {
    0 <= w < |s.workers| && s.workers[w].Judged? && !s.workers[w].good
  }

  /** Every block read has been queued or is in hand, unless a worker has failed; `ok` is lost exactly by
      an error or a failure, and a failure comes from a bad block, which is never passed over. */
  ghost predicate Complete(s: Pool, read: nat, error: bool, bad: bool) {
    && (s.ok ==> |s.loc| + Pending(s.reader) == read)
    && (error ==> !s.ok) && (!s.ok ==> error || s.failure)
    && (bad <==> s.failure || exists w :: Blames(s, w))
    && (s.failure ==> exists b :: 0 <= b < |s.loc| && s.loc[b] == Spoiled)
    && (error ==> !s.reader.Reading? && Pending(s.reader) == 0)
  }

  lemma WorkerComplete(s: Pool, w: nat, good: bool, read: nat, error: bool, bad: bool)
    requires Sound(s) && Complete(s, read, error, bad) && w < |s.workers|
    ensures Complete(StepWorker(s, w, good), read, error, bad || Fails(s, WorkerStep(w, good)))
  {
    hide NoLostWakeup, NoDup;
    var r := StepWorker(s, w, good);
    assert InHand(s.workers[w]).Some? ==> Fated(s, InHand(s.workers[w]).value, With(w));
    WorkerBlames(s, w, good);
    if s.failure {
      var b :| 0 <= b < |s.loc| && s.loc[b] == Spoiled;
      assert r.loc[b] == Spoiled;
    } else if r.failure {
      assert r.loc[s.workers[w].b] == Spoiled;
    }
  }

  lemma BlamesOwn(s: Pool, w: nat, good: bool)
    requires w < |s.workers| && (s.workers[w].Judged? ==> s.workers[w].b < |s.loc|)
    ensures var r := StepWorker(s, w, good);
            && (r.failure <==> s.failure || Blames(s, w)) && (Blames(r, w) <==> Fails(s, WorkerStep(w, good)))
  {
  }

  lemma BlamesOther(s: Pool, w: nat, good: bool, v: int)
    requires w < |s.workers| && v != w
    ensures Blames(StepWorker(s, w, good), v) <==> Blames(s, v)
  {
  }

  /** A worker whose block is bad remembers it, and tells everyone at its next step. */
  lemma WorkerBlames(s: Pool, w: nat, good: bool)
    requires w < |s.workers| && (s.workers[w].Judged? ==> s.workers[w].b < |s.loc|)
    ensures var r := StepWorker(s, w, good);
            (r.failure || exists v :: Blames(r, v)) <==>
              (s.failure || (exists v :: Blames(s, v)) || Fails(s, WorkerStep(w, good)))
  {
    hide StepWorker;
    var r := StepWorker(s, w, good);
    assert r.failure <==> s.failure || Blames(s, w) by { BlamesOwn(s, w, good); }
    assert Blames(r, w) <==> Fails(s, WorkerStep(w, good)) by { BlamesOwn(s, w, good); }
    forall v | v != w ensures Blames(r, v) <==> Blames(s, v) { BlamesOther(s, w, good, v); }
  }

  lemma ReaderComplete(s: Pool, read: nat, error: bool, bad: bool)
    requires Complete(s, read, error, bad)
    ensures Complete(StepReader(s), read, error, bad)
  {
    var r := StepReader(s);
    assert forall w :: Blames(r, w) <==> Blames(s, w);
    if s.failure {
      var b :| 0 <= b < |s.loc| && s.loc[b] == Spoiled;
      assert r.loc[b] == Spoiled;
    }
  }

  lemma NextComplete(s: Pool, a: Action, read: nat, error: bool, bad: bool)
    requires Sound(s) && Complete(s, read, error, bad)
    ensures Complete(Next(s, a), if a == ReadBlock && s.reader == Reading then read + 1 else read,
                     error || (a == ReadError && s.reader == Reading), bad || Fails(s, a))
  {
    hide Sound, StepWorker, StepReader;
    match a
    case WorkerStep(w, good) =>
      if w < |s.workers| {
        WorkerComplete(s, w, good, read, error, bad);
      }
    case ReaderStep => ReaderComplete(s, read, error, bad);
    case _ => assert forall w :: Blames(Next(s, a), w) <==> Blames(s, w);
  }

  lemma {:induction false} EveryRunComplete(nprocs: nat, acts: seq<Action>)
    requires nprocs > 0
    ensures Complete(RunAll(Start(nprocs), acts), ReadSoFar(nprocs, acts), ErrorSoFar(nprocs, acts),
                     BadSoFar(nprocs, acts))
    decreases |acts|
  {
    hide Sound, Next, Complete;
    if acts == [] {
      StartComplete(nprocs);
    } else {
      var n := |acts| - 1;
      EveryRunComplete(nprocs, acts[..n]);
      EveryRunSound(nprocs, acts[..n]);
      var read, error := ReadSoFar(nprocs, acts[..n]), ErrorSoFar(nprocs, acts[..n]);
      NextComplete(RunAll(Start(nprocs), acts[..n]), acts[n], read, error, BadSoFar(nprocs, acts[..n]));
    }
  }

  lemma StartComplete(nprocs: nat)
    ensures Complete(Start(nprocs), 0, false, false)
  {
  }

  /** load reports success if and only if no read failed and no block was bad; then as many blocks were
      queued as were read from the file, and each of them was loaded exactly once. */
  lemma ReturnMeans(nprocs: nat, acts: seq<Action>)
    requires nprocs > 0 && RunAll(Start(nprocs), acts).reader.Returned?
    ensures var s := RunAll(Start(nprocs), acts);
            && (s.reader == Returned(true) <==> !ErrorSoFar(nprocs, acts) && !BadSoFar(nprocs, acts))
            && (BadSoFar(nprocs, acts) <==> exists b :: 0 <= b < |s.loc| && s.loc[b] == Spoiled)
            && (s.reader == Returned(true) ==>
                  && |s.loc| == ReadSoFar(nprocs, acts)
                  && NoDup(s.loads) && forall b: nat :: b in s.loads <==> b < ReadSoFar(nprocs, acts))
  {
    hide RunAll, ReadSoFar, ErrorSoFar, BadSoFar;
    EveryRunComplete(nprocs, acts);
    EveryRunSound(nprocs, acts);
    if RunAll(Start(nprocs), acts).reader == Returned(true) {
      SuccessLoadsAll(nprocs, acts);
    }
  }

  /** No deadlock: in every reachable state before the return, the reader or some worker has a
      step that changes the state, without any spurious wake-up and without another block to read. */
  lemma NeverStuck(nprocs: nat, acts: seq<Action>) returns (a: Action)
    requires nprocs > 0 && !RunAll(Start(nprocs), acts).reader.Returned?
    ensures !a.WakeWorker? && !a.WakeReader? && !a.ReadBlock?
    ensures var s := RunAll(Start(nprocs), acts); Next(s, a) != s
  {
    hide RunAll, Sound, Next;
    EveryRunSound(nprocs, acts);
    var s := RunAll(Start(nprocs), acts);
    if w :| 0 <= w < |s.workers| && s.workers[w] != Asleep && s.workers[w] != Gone {
      WorkerMoves(s, w);
      a := WorkerStep(w, true);
    } else {
      ReaderMoves(s);
      a := if s.reader == Reading then ReadEnd else ReaderStep;
    }
  }

  /** A worker that is awake can take its next step. */
  lemma WorkerMoves(s: Pool, w: nat)
    requires Sound(s) && w < |s.workers| && s.workers[w] != Asleep && s.workers[w] != Gone
    ensures Next(s, WorkerStep(w, true)) != s
  {
    hide NoLostWakeup, Orderly, NoDup;
    assert InHand(s.workers[w]).Some? ==> Fated(s, InHand(s.workers[w]).value, With(w));
    assert StepWorker(s, w, true).workers[w] != s.workers[w];
  }

  /** If all workers sleep or are gone, the reader can go on. */
  lemma ReaderMoves(s: Pool)
    requires Sound(s) && !s.reader.Returned?
    requires forall w :: 0 <= w < |s.workers| ==> s.workers[w] == Asleep || s.workers[w] == Gone
    ensures Next(s, if s.reader == Reading then ReadEnd else ReaderStep) != s
  {
    hide Placed;
    assert !WorkerPending(s);
    assert s.workers[0] == Asleep || s.workers[0] == Gone;
  }

  /** A spurious wake-up does no harm: a thread that still has nothing to do goes back to sleep. */
  lemma SpuriousHarmless(s: Pool, w: nat, good: bool)
    requires !s.failure
    ensures w < |s.workers| && s.workers[w] == Asleep && s.blocks == [] && !s.done ==>
              var r := Next(s, WakeWorker(w)); r != s && Next(r, WorkerStep(w, good)) == s
    ensures s.reader == RAsleep && |s.blocks| == s.nprocs ==>
              var r := Next(s, WakeReader); r != s && Next(r, ReaderStep) == s
  {
    if w < |s.workers| && s.workers[w] == Asleep && s.blocks == [] && !s.done {
      var r := Next(s, WakeWorker(w));
      assert r.workers[w] == Ready;
      assert Next(r, WorkerStep(w, good)).workers == s.workers;
    }
  }

  // ----- every run ends -----

  /** The most a broadcast adds to the steps ahead, plus one. */
  function Din(nprocs: nat): nat { nprocs + 2 }

  /** Steps a worker may still take for what it has in hand and for leaving. */
  function WorkerAhead(w: Worker, d: nat): nat {
    match w
    case Gone => 0
    case Leave => d
    case Asleep => d + 1
    case Ready => d + 2
    case Judged(_, _) => d + 3
    case Load(_) => d + 4
    case Notify(_) => 2 * d + 4
  }

  function ReaderAhead(r: Reader, d: nat): nat {
    match r
    case Returned(_) => 0
    case Joining => 1
    case CloseNotify => d + 1
    case Closing => d + 2
    case Reading => d + 3
    case RAsleep => 3 * d + 5
    case Have => 3 * d + 6
  }

  function WorkersAhead(ws: seq<Worker>, d: nat): nat {
    if ws == [] then 0 else WorkerAhead(ws[0], d) + WorkersAhead(ws[1..], d)
  }

  /** A bound on the steps still to come when `unread` blocks are left in the file. */
  function Ahead(s: Pool, unread: nat): nat {
    var d := Din(s.nprocs);
    WorkersAhead(s.workers, d) + (d + 3) * |s.blocks| + ReaderAhead(s.reader, d) + (2 * d + 4) * unread
  }

  lemma {:induction false} OneWorker(ws: seq<Worker>, w: nat, pc: Worker, d: nat)
    requires w < |ws|
    ensures WorkersAhead(ws[w := pc], d) == WorkersAhead(ws, d) - WorkerAhead(ws[w], d) + WorkerAhead(pc, d)
    ensures WorkersAhead(ws, d) >= WorkerAhead(ws[w], d)
    decreases |ws|
  {
    hide WorkerAhead;
    if w == 0 {
      assert ws[0 := pc][1..] == ws[1..];
    } else {
      assert ws[w := pc][1..] == ws[1..][w - 1 := pc];
      OneWorker(ws[1..], w - 1, pc, d);
    }
  }

  lemma {:induction false} AllWoken(ws: seq<Worker>, vs: seq<Worker>, d: nat)
    requires |ws| == |vs| && forall i :: 0 <= i < |ws| ==> vs[i] == Wake(ws[i])
    ensures WorkersAhead(vs, d) <= WorkersAhead(ws, d) + |ws|
    decreases |ws|
  {
    if ws != [] {
      AllWoken(ws[1..], vs[1..], d);
    }
  }

  /** A worker that changes its own state only, having taken or finished what it works on. */
  lemma SetAhead(s: Pool, s1: Pool, w: nat, pc: Worker, unread: nat)
    requires w < |s.workers| && s1.workers == s.workers && s1.reader == s.reader && s1.nprocs == s.nprocs
    requires var d := Din(s.nprocs);
             WorkerAhead(pc, d) + (d + 3) * |s1.blocks| < WorkerAhead(s.workers[w], d) + (d + 3) * |s.blocks|
    ensures Ahead(SetWorker(s1, w, pc), unread) < Ahead(s, unread)
  {
    OneWorker(s.workers, w, pc, Din(s.nprocs));
  }

  /** A worker that broadcasts. */
  lemma CallAhead(s: Pool, w: nat, pc: Worker, unread: nat)
    requires w < |s.workers| == s.nprocs && Calls(s.workers[w])
    requires var d := Din(s.nprocs); WorkerAhead(pc, d) + d <= WorkerAhead(s.workers[w], d)
    ensures Ahead(SetWorker(Broadcast(s), w, pc), unread) < Ahead(s, unread)
  {
    var r, d := Broadcast(s), Din(s.nprocs);
    AllWoken(s.workers, r.workers, d);
    OneWorker(r.workers, w, pc, d);
    assert r.workers[w] == s.workers[w];
  }

  lemma WorkerProgress(s: Pool, w: nat, good: bool, unread: nat)
    requires w < |s.workers| == s.nprocs && StepWorker(s, w, good) != s
    ensures Ahead(StepWorker(s, w, good), unread) < Ahead(s, unread)
  {
    hide Broadcast, SetWorker, Ahead;
    match s.workers[w]
    case Ready =>
      if s.failure || (s.blocks == [] && s.done) {
        SetAhead(s, s, w, Leave, unread);
      } else if s.blocks == [] {
        SetAhead(s, s, w, Asleep, unread);
      } else {
        var b := s.blocks[|s.blocks| - 1];
        var s1 := s.(blocks := s.blocks[..|s.blocks| - 1]);
        TakeLess(Din(s.nprocs), |s.blocks|);
        SetAhead(s, if b < |s.loc| then s1.(loc := s.loc[b := With(w)]) else s1, w, Notify(b), unread);
      }
    case Notify(b) => CallAhead(s, w, Load(b), unread);
    case Load(b) => SetAhead(s, s, w, Judged(b, good), unread);
    case Judged(b, ok) =>
      if b < |s.loc| {
        if ok {
          SetAhead(s, s.(loc := s.loc[b := Loaded], loads := s.loads + [b]), w, Ready, unread);
        } else {
          SetAhead(s, s.(loc := s.loc[b := Spoiled], failure := true), w, Leave, unread);
        }
      }
    case Asleep =>
    case Leave => CallAhead(s, w, Gone, unread);
    case Gone =>
  }

  lemma TakeLess(d: nat, n: nat)
    requires n > 0
    ensures 2 * d + 4 + (d + 3) * (n - 1) < d + 2 + (d + 3) * n
  {
    assert (d + 3) * n == (d + 3) * (n - 1) + (d + 3);
  }

  lemma ReaderProgress(s: Pool, unread: nat)
    requires |s.workers| == s.nprocs && StepReader(s) != s
    ensures Ahead(StepReader(s), unread) < Ahead(s, unread)
  {
    hide WorkersAhead;
    var d := Din(s.nprocs);
    if s.reader == CloseNotify {
      AllWoken(s.workers, Broadcast(s).workers, d);
    } else if s.reader == Have && !s.failure && |s.blocks| != s.nprocs {
      QueueProgress(s, unread);
    }
  }

  lemma QueueProgress(s: Pool, unread: nat)
    requires |s.workers| == s.nprocs && s.reader == Have
    ensures var s1 := s.(blocks := s.blocks + [|s.loc|], loc := s.loc + [Queued], reader := Reading);
            Ahead(Broadcast(s1), unread) < Ahead(s, unread)
  {
    hide WorkersAhead;
    var s1, d := s.(blocks := s.blocks + [|s.loc|], loc := s.loc + [Queued], reader := Reading), Din(s.nprocs);
    AllWoken(s1.workers, Broadcast(s1).workers, d);
    assert (d + 3) * (|s.blocks| + 1) == (d + 3) * |s.blocks| + (d + 3);
  }

  /** Every step that changes something, other than a spurious wake-up, brings the end nearer; reading
      a block uses up one of the file. */
  lemma Progress(s: Pool, a: Action, unread: nat)
    requires Sound(s) && !a.WakeWorker? && !a.WakeReader? && Next(s, a) != s && (a.ReadBlock? ==> unread > 0)
    ensures Ahead(Next(s, a), if a.ReadBlock? then unread - 1 else unread) < Ahead(s, unread)
  {
    hide Placed, NoLostWakeup, StepWorker, StepReader;
    match a
    case WorkerStep(w, good) => WorkerProgress(s, w, good, unread);
    case ReaderStep => ReaderProgress(s, unread);
    case ReadBlock =>
      var d := Din(s.nprocs);
      assert (2 * d + 4) * unread == (2 * d + 4) * (unread - 1) + (2 * d + 4);
    case _ =>
  }

  /** Every action of the run changes the state and is no spurious wake-up. */
  ghost predicate Effective(nprocs: nat, acts: seq<Action>) {
    forall i :: 0 <= i < |acts| ==>
      var s := RunAll(Start(nprocs), acts[..i]);
      !acts[i].WakeWorker? && !acts[i].WakeReader? && Next(s, acts[i]) != s
  }

  function BlocksRead(acts: seq<Action>): nat {
    if acts == [] then 0
    else BlocksRead(acts[..|acts| - 1]) + if acts[|acts| - 1].ReadBlock? then 1 else 0
  }

  /** Loading a file ends: with `n` blocks in the file, no run without spurious wake-ups is longer than
      the bound at its start, and by NeverStuck the only place to stop is the return. */
  lemma {:induction false} LoadEnds(nprocs: nat, n: nat, acts: seq<Action>)
    requires nprocs > 0 && Effective(nprocs, acts) && BlocksRead(acts) <= n
    ensures |acts| + Ahead(RunAll(Start(nprocs), acts), n - BlocksRead(acts)) <= Ahead(Start(nprocs), n)
    decreases |acts|
  {
    hide Sound, Next, Ahead;
    if acts != [] {
      var k := |acts| - 1;
      var before, a := acts[..k], acts[k];
      forall i | 0 <= i < k
        ensures var s := RunAll(Start(nprocs), before[..i]);
                !before[i].WakeWorker? && !before[i].WakeReader? && Next(s, before[i]) != s
      {
        assert before[..i] == acts[..i] && before[i] == acts[i];
      }
      assert acts[..k] == before;
      LoadEnds(nprocs, n, before);
      EveryRunSound(nprocs, before);
      Progress(RunAll(Start(nprocs), before), a, n - BlocksRead(before));
    }
  }
}
