/**
 One event-loop thread and the background workers of its connections (src/net.c, with the
 command loop of src/conn.c).  A step handles one element of one queue, or finishes the work of
 one background thread; background threads may finish between any two steps.
 */
module EventLoop {
  import opened Common

  type Id = nat

  /** What a connection is registered for in the event queue. */
  datatype Registered = Nothing | ForRead | ForWrite

  /** A command and what carrying it out does: bytes written, closing, background work, and
      whether a thread can be created for that work. */
  datatype Cmd = Cmd(tag: nat, out: nat, close: bool, background: bool, threadOk: bool)

  /** A command was carried out, or a done callback ran and wrote `out` bytes. */
  datatype Event = Ran(cmd: Cmd) | Done(cmd: Cmd, out: nat, close: bool)

  /** A connection: `bg` is the command in the background and `working` says that its thread has
      not finished.  `received` are the commands that arrived, `log` what has happened to them, `sent` the
      number of bytes written to the socket, and `broken` that writing failed. */
  datatype Conn = Conn(
    reg: Registered, bg: Option<Cmd>, working: bool, outlen: nat, closed: bool,
    received: seq<Cmd>, pending: seq<Cmd>, log: seq<Event>, sent: nat, broken: bool)

  const FRESH: Conn := Conn(ForRead, None, false, 0, false, [], [], [], 0, false)

  datatype Stage = Waiting | Accepting | Attaching | Reading | Processing | Writing | Closing

  /** The thread: its connections and what is left of each queue of this iteration. */
  datatype Loop = Loop(
    conns: map<Id, Conn>, stage: Stage,
    events: seq<Id>, attachs: seq<Id>, readers: seq<Id>, ins: seq<Id>, outs: seq<Id>, closes: seq<Id>)

  // ----- operations on a connection -----

  /** net_conn_bgwork: false if the connection is busy or closed.  pthread_create reports a failure by
      a positive number, which the comparison with -1 misses: the connection enters background mode
      whether or not there is a thread for it. */
  function StartWork(c: Conn, cmd: Cmd): (Conn, bool) {
    if c.bg.Some? || c.closed then (c, false)
    else (c.(reg := Nothing, bg := Some(cmd), working := true), true)
  }

  /** evcommand for the first pending command. */
  function RunCommand(c: Conn): Conn
    requires c.pending != []
  {
    var cmd := c.pending[0];
    var d := c.(pending := c.pending[1..], log := c.log + [Ran(cmd)], outlen := c.outlen + cmd.out,
                closed := c.closed || cmd.close);
    if cmd.background then StartWork(d, cmd).0 else d
  }

  /** The command loop of evdata: until nothing is left, a close, or background work. */
  function Serve(c: Conn): Conn
    decreases |c.pending|
  {
    if c.pending == [] || c.closed then c
    else
      var d := RunCommand(c);
      if d.bg.Some? then d else Serve(d)
  }

  /** The body of qattach: the done callback may write and close, then the loop takes over. */
  function Attach(c: Conn, out: nat, close: bool, broken: bool): Conn
    requires c.bg.Some?
  {
    Flush(c.(log := c.log + [Done(c.bg.value, out, close)], outlen := c.outlen + out, closed := c.closed || close,
             bg := None, reg := ForRead), broken)
  }

  /** flush_conn: everything is written, or the connection turns out to be broken. */
  function Flush(c: Conn, broken: bool): Conn {
    if broken && c.outlen > 0 then c.(outlen := 0, closed := true, broken := true)
    else c.(sent := c.sent + c.outlen, outlen := 0)
  }

  // ----- steps -----

  /** The end of the body of qaccept: the queue a ready connection goes to. */
  function Sort(l: Loop, id: Id): Loop
    requires id in l.conns
  {
    var c := l.conns[id];
    if c.bg.Some? then l.(attachs := l.attachs + [id])
    else if c.outlen > 0 then l.(outs := l.outs + [id])
    else if c.closed then l.(closes := l.closes + [id])
    else l.(readers := l.readers + [id])
  }

  datatype Action =
    | Wake(ready: seq<Id>)
    | Accept(admit: bool)
    | Reattach(out: nat, close: bool, broken: bool)
    | Read(arrived: Option<seq<Cmd>>)
    | Process
    | Send(broken: bool)
    | Close
    | NextStage
    | Finish(id: Id)

  /** The queue event delivery: a descriptor is reported once, and only if it is registered. */
  ghost predicate Deliverable(l: Loop, ready: seq<Id>) {
    && (forall id :: multiset(ready)[id] <= 1)
    && (forall id :: id in ready && id in l.conns ==> l.conns[id].reg != Nothing)
  }

  ghost predicate Enabled(l: Loop, a: Action) {
    match a
    case Wake(ready) => l.stage == Waiting && Deliverable(l, ready)
    case Accept(_) => l.stage == Accepting && l.events != []
    case Reattach(_, _, _) => l.stage == Attaching && l.attachs != []
    case Read(_) => l.stage == Reading && l.readers != []
    case Process => l.stage == Processing && l.ins != []
    case Send(_) => l.stage == Writing && l.outs != []
    case Close => l.stage == Closing && l.closes != []
    case NextStage =>
      || (l.stage == Accepting && l.events == []) || (l.stage == Attaching && l.attachs == [])
      || (l.stage == Reading && l.readers == []) || (l.stage == Processing && l.ins == [])
      || (l.stage == Writing && l.outs == []) || (l.stage == Closing && l.closes == [])
    case Finish(id) => id in l.conns && l.conns[id].working && l.conns[id].bg.Some? && l.conns[id].bg.value.threadOk
  }

  function After(s: Stage): Stage {
    match s
    case Waiting => Accepting
    case Accepting => Attaching
    case Attaching => Reading
    case Reading => Processing
    case Processing => Writing
    case Writing => Closing
    case Closing => Waiting
  }

  /** qaccept for one event: an unknown descriptor is a new connection, or is turned away. */
  function AcceptOne(l: Loop, admit: bool): Loop
    requires l.events != []
  {
    var id, l1 := l.events[0], l.(events := l.events[1..]);
    if id in l1.conns then Sort(l1, id)
    else if !admit then l1
    else Sort(l1.(conns := l1.conns[id := FRESH]), id)
  }

  /** qattach for one connection; assert(bgctx) of the source. */
  function AttachOne(l: Loop, out: nat, close: bool, broken: bool): Loop
    requires l.attachs != [] && l.attachs[0] in l.conns && l.conns[l.attachs[0]].bg.Some?
  {
    var id := l.attachs[0];
    var c := Attach(l.conns[id], out, close, broken);
    var l1 := l.(attachs := l.attachs[1..], conns := l.conns[id := c]);
    if c.closed then l1.(closes := l1.closes + [id]) else l1.(readers := l1.readers + [id])
  }

  /** handle_read for one connection, with its two asserts; None is a failed read. */
  function ReadOne(l: Loop, arrived: Option<seq<Cmd>>): Loop
    requires l.readers != [] && l.readers[0] in l.conns
    requires l.conns[l.readers[0]].outlen == 0 && l.conns[l.readers[0]].bg.None?
  {
    var id := l.readers[0];
    var c, l1 := l.conns[id], l.(readers := l.readers[1..]);
    match arrived
    case None => l1.(closes := l1.closes + [id])
    case Some(cmds) =>
      l1.(ins := l1.ins + [id], conns := l1.conns[id := c.(received := c.received + cmds, pending := c.pending + cmds)])
  }

  /** qprocess for one connection. */
  function ProcessOne(l: Loop): Loop
    requires l.ins != [] && l.ins[0] in l.conns
  {
    var id := l.ins[0];
    var c := Serve(l.conns[id]);
    var l1 := l.(ins := l.ins[1..], conns := l.conns[id := c]);
    if c.bg.Some? then l1
    else if c.outlen > 0 then l1.(outs := l1.outs + [id])
    else if c.closed then l1.(closes := l1.closes + [id])
    else l1
  }

  /** qwrite for one connection. */
  function SendOne(l: Loop, broken: bool): Loop
    requires l.outs != [] && l.outs[0] in l.conns
  {
    var id := l.outs[0];
    var c := Flush(l.conns[id], broken);
    var l1 := l.(outs := l.outs[1..], conns := l.conns[id := c]);
    if c.closed then l1.(closes := l1.closes + [id]) else l1
  }

  /** qclose for one connection: it is freed. */
  function CloseOne(l: Loop): Loop
    requires l.closes != [] && l.closes[0] in l.conns
  {
    l.(closes := l.closes[1..], conns := l.conns - {l.closes[0]})
  }

  /** bgwork: the thread is done and asks the loop to attach the connection again. */
  function FinishOne(l: Loop, id: Id): Loop
    requires id in l.conns
  {
    l.(conns := l.conns[id := l.conns[id].(working := false, reg := ForWrite)])
  }

  predicate Living(l: Loop, q: seq<Id>) { q != [] && q[0] in l.conns }

  /** A step; None if an assert of the source fails or a freed connection is used. */
  ghost function Next(l: Loop, a: Action): Option<Loop>
    requires Enabled(l, a)
  {
    match a
    case Wake(ready) => Some(l.(stage := Accepting, events := ready))
    case Accept(admit) => Some(AcceptOne(l, admit))
    case Reattach(out, close, broken) =>
      if Living(l, l.attachs) && l.conns[l.attachs[0]].bg.Some? then Some(AttachOne(l, out, close, broken)) else None
    case Read(arrived) =>
      if Living(l, l.readers) && l.conns[l.readers[0]].outlen == 0 && l.conns[l.readers[0]].bg.None? then
        Some(ReadOne(l, arrived))
      else None
    case Process => if Living(l, l.ins) then Some(ProcessOne(l)) else None
    case Send(broken) => if Living(l, l.outs) then Some(SendOne(l, broken)) else None
    case Close => if Living(l, l.closes) then Some(CloseOne(l)) else None
    case NextStage => Some(l.(stage := After(l.stage)))
    case Finish(id) => Some(FinishOne(l, id))
  }

  // ----- what every step keeps -----

  /** How often a connection stands in each queue. */
  datatype Spot = Spot(ev: nat, at: nat, rd: nat, inn: nat, out: nat, cl: nat)

  function SpotOf(l: Loop, id: Id): Spot {
    Spot(multiset(l.events)[id], multiset(l.attachs)[id], multiset(l.readers)[id],
         multiset(l.ins)[id], multiset(l.outs)[id], multiset(l.closes)[id])
  }

  function ConnOf(l: Loop, id: Id): Option<Conn> {
    if id in l.conns then Some(l.conns[id]) else None
  }

  /** A connection is in background mode or registered for reading, never both and never neither;
      one whose work is finished is registered for writing. */
  predicate Exclusive(c: Conn) {
    if c.bg.Some? then !c.closed && c.reg == (if c.working then Nothing else ForWrite)
    else !c.working && c.reg == ForRead
  }

  /** Commands run in the order they arrived, each once. */
  function RanIn(log: seq<Event>): seq<Cmd> {
    if log == [] then []
    else
      var ran := RanIn(log[..|log| - 1]);
      if log[|log| - 1].Ran? then ran + [log[|log| - 1].cmd] else ran
  }

  /** The command whose background work is outstanding, if the log is in order: nothing happens
      on the connection between the start of background work and its done callback. */
  ghost predicate Outstanding(log: seq<Event>, bg: Option<Cmd>) {
    if log == [] then bg.None?
    else
      var e, before := log[|log| - 1], log[..|log| - 1];
      match e
      case Done(cmd, _, _) => bg.None? && Outstanding(before, Some(cmd))
      case Ran(cmd) => (bg.None? || bg == Some(cmd)) && Outstanding(before, None)
  }

  /** The bytes that commands and done callbacks have written. */
  function WrittenIn(log: seq<Event>): nat {
    if log == [] then 0
    else
      var e := log[|log| - 1];
      WrittenIn(log[..|log| - 1]) + if e.Ran? then e.cmd.out else e.out
  }

  /** Whether a command or a done callback has closed the connection. */
  predicate ClosesIn(log: seq<Event>) {
    log != [] &&
    var e := log[|log| - 1];
    ClosesIn(log[..|log| - 1]) || (if e.Ran? then e.cmd.close else e.close)
  }

  /** All that was written is sent or waits to be sent, unless the connection broke; it is closed exactly
      if it broke or something closed it. */
  ghost predicate Balanced(c: Conn) {
    && (!c.broken ==> c.sent + c.outlen == WrittenIn(c.log))
    && (c.closed <==> c.broken || ClosesIn(c.log))
  }

  ghost predicate Orderly(c: Conn) {
    RanIn(c.log) + c.pending == c.received && Outstanding(c.log, c.bg) && Balanced(c)
  }

  /** Between iterations a connection has nothing to write and, unless it works in the
      background, no command waiting. */
  predicate Idle(c: Conn) {
    !c.closed && (c.bg.None? ==> c.outlen == 0 && c.pending == [])
  }

  /** A connection is in one queue at most, every queue but that of events holds only living
      connections, and each queue says something about the connection. */
  ghost predicate Fits(s: Spot, c: Option<Conn>) {
    && s.ev + s.at + s.rd + s.inn + s.out + s.cl <= 1
    && match c
       case None => s.at == s.rd == s.inn == s.out == s.cl == 0
       case Some(c) =>
         && Exclusive(c) && Orderly(c)
         && (s.ev > 0 ==> !c.working)
         && (s.at > 0 ==> c.bg.Some? && !c.working)
         && (s.rd > 0 || s.inn > 0 ==> Quiet(c))
         && (s.out > 0 ==> c.bg.None? && Drained(c))
         && (s.cl > 0 ==> c.bg.None?)
         && (s.at == s.rd == s.inn == s.out == s.cl == 0 ==> Idle(c))
  }

  predicate Quiet(c: Conn) { c.bg.None? && c.outlen == 0 && !c.closed }

  /** Everything that could be run has been. */
  predicate Drained(c: Conn) { c.closed || c.pending == [] }

  /** The queues that are empty at each stage. */
  predicate Staged(l: Loop) {
    && (l.stage != Accepting ==> l.events == [])
    && (l.stage == Waiting || l.stage.Reading? || l.stage.Processing? || l.stage.Writing? || l.stage.Closing? ==>
          l.attachs == [])
    && (l.stage == Waiting || l.stage.Processing? || l.stage.Writing? || l.stage.Closing? ==> l.readers == [])
    && (l.stage == Waiting || l.stage.Writing? || l.stage.Closing? ==> l.ins == [])
    && (l.stage == Waiting || l.stage.Closing? ==> l.outs == [])
    && (l.stage == Waiting ==> l.closes == [])
  }

  ghost predicate Sound(l: Loop) {
    Staged(l) && forall id :: Fits(SpotOf(l, id), ConnOf(l, id))
  }

  lemma StagedNext(l: Loop, a: Action)
    requires Staged(l) && Enabled(l, a)
    ensures Next(l, a).Some? ==> Staged(Next(l, a).value)
  {
    hide Attach, Serve, Flush;
  }

  // ----- connections -----

  lemma LogGrows(log: seq<Event>, e: Event)
    ensures RanIn(log + [e]) == if e.Ran? then RanIn(log) + [e.cmd] else RanIn(log)
    ensures e.Done? && Outstanding(log, Some(e.cmd)) ==> Outstanding(log + [e], None)
    ensures e.Ran? && Outstanding(log, None) ==> Outstanding(log + [e], None) && Outstanding(log + [e], Some(e.cmd))
    ensures WrittenIn(log + [e]) == WrittenIn(log) + if e.Ran? then e.cmd.out else e.out
    ensures ClosesIn(log + [e]) <==> ClosesIn(log) || if e.Ran? then e.cmd.close else e.close
  {
    assert (log + [e])[..|log|] == log;
  }

  lemma RunKeeps(c: Conn)
    requires c.pending != [] && c.bg.None? && Exclusive(c) && Orderly(c) && !c.closed
    ensures var d := RunCommand(c); Exclusive(d) && Orderly(d)
  {
    hide RanIn, Outstanding, WrittenIn, ClosesIn;
    var cmd := c.pending[0];
    LogGrows(c.log, Ran(cmd));
    assert RanIn(c.log) + c.pending == RanIn(c.log) + [cmd] + c.pending[1..];
  }

  /** The command loop stops with everything run, a close, or one command in the background. */
  lemma {:induction false} ServeKeeps(c: Conn)
    requires c.bg.None? && Exclusive(c) && Orderly(c)
    ensures var d := Serve(c); Exclusive(d) && Orderly(d) && (d.bg.None? ==> Drained(d)) && d.received == c.received
    decreases |c.pending|
  {
    hide Orderly, Exclusive;
    if c.pending != [] && !c.closed {
      RunKeeps(c);
      if RunCommand(c).bg.None? {
        ServeKeeps(RunCommand(c));
      }
    }
  }

  lemma AttachKeeps(c: Conn, out: nat, close: bool, broken: bool)
    requires c.bg.Some? && !c.working && Exclusive(c) && Orderly(c)
    ensures var d := Attach(c, out, close, broken); Exclusive(d) && Orderly(d) && d.bg.None? && d.outlen == 0
  {
    hide RanIn, Outstanding, WrittenIn, ClosesIn;
    LogGrows(c.log, Done(c.bg.value, out, close));
  }

  lemma ReadKeeps(c: Conn, cmds: seq<Cmd>)
    requires Orderly(c)
    ensures Orderly(c.(received := c.received + cmds, pending := c.pending + cmds))
  {
    hide RanIn, Outstanding, WrittenIn, ClosesIn;
    assert RanIn(c.log) + (c.pending + cmds) == RanIn(c.log) + c.pending + cmds;
  }

  lemma OrderlyFields(c: Conn, d: Conn)
    requires d == c.(reg := d.reg, working := d.working)
    ensures Orderly(c) == Orderly(d)
  {
  }

  lemma FlushKeeps(c: Conn, broken: bool)
    requires Orderly(c)
    ensures Orderly(Flush(c, broken))
  {
  }

  // ----- queues -----

  lemma Popped(q: seq<Id>, id: Id)
    requires q != []
    ensures multiset(q)[id] == multiset(q[1..])[id] + (if id == q[0] then 1 else 0)
  {
    assert q == [q[0]] + q[1..];
  }

  lemma Pushed(q: seq<Id>, x: Id, id: Id)
    ensures multiset(q + [x])[id] == multiset(q)[id] + (if id == x then 1 else 0)
  {
  }

  lemma AllPopped(q: seq<Id>)
    requires q != []
    ensures forall id :: multiset(q)[id] == multiset(q[1..])[id] + (if id == q[0] then 1 else 0)
  {
    forall id ensures multiset(q)[id] == multiset(q[1..])[id] + (if id == q[0] then 1 else 0) { Popped(q, id); }
  }

  lemma AllPushed(q: seq<Id>, x: Id)
    ensures forall id :: multiset(q + [x])[id] == multiset(q)[id] + (if id == x then 1 else 0)
  {
    forall id ensures multiset(q + [x])[id] == multiset(q)[id] + (if id == x then 1 else 0) { Pushed(q, x, id); }
  }

  // ----- steps -----

  /** A step that is no crash and leads to a sound state. */
  ghost predicate Good(l: Loop, a: Action)
    requires Enabled(l, a)
  {
    Next(l, a).Some? && Sound(Next(l, a).value)
  }

  lemma WakeSound(l: Loop, ready: seq<Id>)
    requires Sound(l) && Enabled(l, Wake(ready))
    ensures Good(l, Wake(ready))
  {
    hide Orderly;
    var l' := Next(l, Wake(ready)).value;
    forall id ensures Fits(SpotOf(l', id), ConnOf(l', id)) {
      assert Fits(SpotOf(l, id), ConnOf(l, id));
      assert id in ready <==> multiset(ready)[id] > 0;
    }
  }

  /** Putting a connection whose event was taken into its queue. */
  lemma SortSound(l: Loop, id: Id, x: Id)
    requires x in l.conns && Fits(SpotOf(l, id), ConnOf(l, id))
    requires id == x ==> SpotOf(l, id) == Spot(0, 0, 0, 0, 0, 0) && !l.conns[x].working
    ensures Fits(SpotOf(Sort(l, x), id), ConnOf(Sort(l, x), id))
  {
    hide Orderly, Exclusive;
    Pushed(l.attachs, x, id);
    Pushed(l.outs, x, id);
    Pushed(l.closes, x, id);
    Pushed(l.readers, x, id);
  }

  lemma AcceptSound(l: Loop, admit: bool)
    requires Sound(l) && Enabled(l, Accept(admit))
    ensures Good(l, Accept(admit))
  {
    hide Orderly, Exclusive, Sort, Staged;
    StagedNext(l, Accept(admit));
    var x, l' := l.events[0], AcceptOne(l, admit);
    var l1 := l.(events := l.events[1..]);
    var l2 := if x !in l.conns && admit then l1.(conns := l1.conns[x := FRESH]) else l1;
    FreshFits();
    assert Fits(SpotOf(l, x), ConnOf(l, x));
    forall id ensures Fits(SpotOf(l', id), ConnOf(l', id)) {
      assert Fits(SpotOf(l, id), ConnOf(l, id));
      Popped(l.events, id);
      if x in l2.conns {
        SortSound(l2, id, x);
      }
    }
  }

  lemma FreshFits()
    ensures Exclusive(FRESH) && Orderly(FRESH)
  {
  }

  /** A step that touches one connection only. */
  ghost predicate Elsewhere(l: Loop, l': Loop, x: Id) {
    forall id :: id != x ==> SpotOf(l', id) == SpotOf(l, id) && ConnOf(l', id) == ConnOf(l, id)
  }

  lemma OneMoved(l: Loop, l': Loop, x: Id)
    requires Sound(l) && Staged(l') && Elsewhere(l, l', x) && Fits(SpotOf(l', x), ConnOf(l', x))
    ensures Sound(l')
  {
    hide Fits, SpotOf, ConnOf, Staged;
    forall id ensures Fits(SpotOf(l', id), ConnOf(l', id)) {
      assert Fits(SpotOf(l, id), ConnOf(l, id));
    }
  }

  lemma SoundAt(l: Loop, x: Id)
    requires Sound(l)
    ensures Fits(SpotOf(l, x), ConnOf(l, x)) && Staged(l)
  {
  }

  lemma AttachMoves(l: Loop, out: nat, close: bool, broken: bool)
    requires Living(l, l.attachs) && l.conns[l.attachs[0]].bg.Some?
    ensures var x, l' := l.attachs[0], AttachOne(l, out, close, broken);
            var c, s := Attach(l.conns[x], out, close, broken), SpotOf(l, x);
            && s.at > 0 && Elsewhere(l, l', x) && ConnOf(l', x) == Some(c)
            && SpotOf(l', x) == if c.closed then s.(at := s.at - 1, cl := s.cl + 1)
                                else s.(at := s.at - 1, rd := s.rd + 1)
  {
    hide Attach;
    AllPopped(l.attachs);
    AllPushed(l.closes, l.attachs[0]);
    AllPushed(l.readers, l.attachs[0]);
  }

  lemma ReattachSound(l: Loop, out: nat, close: bool, broken: bool)
    requires Sound(l) && Enabled(l, Reattach(out, close, broken))
    ensures Good(l, Reattach(out, close, broken))
  {
    hide Sound, Orderly, Exclusive, Attach, Staged, SpotOf, Elsewhere, AttachOne;
    var x := l.attachs[0];
    SoundAt(l, x);
    InQueue(l, x);
    StagedNext(l, Reattach(out, close, broken));
    AttachMoves(l, out, close, broken);
    AttachKeeps(l.conns[x], out, close, broken);
    OneMoved(l, AttachOne(l, out, close, broken), x);
  }

  /** The queues a connection stands in. */
  lemma InQueue(l: Loop, x: Id)
    ensures var s := SpotOf(l, x);
            && (x in l.attachs <==> s.at > 0) && (x in l.readers <==> s.rd > 0) && (x in l.ins <==> s.inn > 0)
            && (x in l.outs <==> s.out > 0) && (x in l.closes <==> s.cl > 0)
  {
  }

  lemma ReadMoves(l: Loop, arrived: Option<seq<Cmd>>)
    requires Living(l, l.readers) && l.conns[l.readers[0]].outlen == 0 && l.conns[l.readers[0]].bg.None?
    ensures var x, l' := l.readers[0], ReadOne(l, arrived);
            var c, s := l.conns[x], SpotOf(l, x);
            && s.rd > 0 && Elsewhere(l, l', x)
            && (arrived.None? ==> SpotOf(l', x) == s.(rd := s.rd - 1, cl := s.cl + 1) && ConnOf(l', x) == Some(c))
            && (arrived.Some? ==> SpotOf(l', x) == s.(rd := s.rd - 1, inn := s.inn + 1))
            && (arrived.Some? ==>
                  ConnOf(l', x) ==
                    Some(c.(received := c.received + arrived.value, pending := c.pending + arrived.value)))
  {
    AllPopped(l.readers);
    AllPushed(l.closes, l.readers[0]);
    AllPushed(l.ins, l.readers[0]);
  }

  lemma ReadSound(l: Loop, arrived: Option<seq<Cmd>>)
    requires Sound(l) && Enabled(l, Read(arrived))
    ensures Good(l, Read(arrived))
  {
    hide Sound, Orderly, Staged, SpotOf, Elsewhere, ReadOne;
    var x := l.readers[0];
    SoundAt(l, x);
    InQueue(l, x);
    StagedNext(l, Read(arrived));
    ReadMoves(l, arrived);
    ReadKeeps(l.conns[x], if arrived.Some? then arrived.value else []);
    OneMoved(l, ReadOne(l, arrived), x);
  }

  lemma ProcessMoves(l: Loop)
    requires Living(l, l.ins)
    ensures var x, l' := l.ins[0], ProcessOne(l);
            var c, s := Serve(l.conns[x]), SpotOf(l, x).(inn := SpotOf(l', x).inn);
            && SpotOf(l, x).inn == SpotOf(l', x).inn + 1 && Elsewhere(l, l', x) && ConnOf(l', x) == Some(c)
            && SpotOf(l', x) == if c.bg.Some? then s else if c.outlen > 0 then s.(out := s.out + 1)
                                else if c.closed then s.(cl := s.cl + 1) else s
  {
    hide Serve, SpotOf, ConnOf;
    var x := l.ins[0];
    var c := Serve(l.conns[x]);
    var l1 := l.(ins := l.ins[1..], conns := l.conns[x := c]);
    InsPopped(l, c);
    OutPushed(l1, x);
    ClosePushed(l1, x);
  }

  lemma InsPopped(l: Loop, c: Conn)
    requires Living(l, l.ins)
    ensures var x := l.ins[0];
            var l1 := l.(ins := l.ins[1..], conns := l.conns[x := c]);
            && Elsewhere(l, l1, x) && ConnOf(l1, x) == Some(c)
            && SpotOf(l, x).inn == SpotOf(l1, x).inn + 1 && SpotOf(l1, x) == SpotOf(l, x).(inn := SpotOf(l1, x).inn)
  {
    AllPopped(l.ins);
  }

  lemma OutPushed(l: Loop, x: Id)
    ensures var l1 := l.(outs := l.outs + [x]);
            && Elsewhere(l, l1, x) && ConnOf(l1, x) == ConnOf(l, x)
            && SpotOf(l1, x) == SpotOf(l, x).(out := SpotOf(l, x).out + 1)
  {
    AllPushed(l.outs, x);
  }

  lemma ClosePushed(l: Loop, x: Id)
    ensures var l1 := l.(closes := l.closes + [x]);
            && Elsewhere(l, l1, x) && ConnOf(l1, x) == ConnOf(l, x)
            && SpotOf(l1, x) == SpotOf(l, x).(cl := SpotOf(l, x).cl + 1)
  {
    AllPushed(l.closes, x);
  }

  lemma ProcessSound(l: Loop)
    requires Sound(l) && Enabled(l, Process)
    ensures Good(l, Process)
  {
    hide Sound, Orderly, Serve, Staged, SpotOf, Elsewhere, ProcessOne;
    var x := l.ins[0];
    SoundAt(l, x);
    InQueue(l, x);
    StagedNext(l, Process);
    ProcessMoves(l);
    ServeKeeps(l.conns[x]);
    OneMoved(l, ProcessOne(l), x);
  }

  lemma SendMoves(l: Loop, broken: bool)
    requires Living(l, l.outs)
    ensures var x, l' := l.outs[0], SendOne(l, broken);
            var c, s := Flush(l.conns[x], broken), SpotOf(l, x);
            && s.out > 0 && Elsewhere(l, l', x) && ConnOf(l', x) == Some(c)
            && SpotOf(l', x) == if c.closed then s.(out := s.out - 1, cl := s.cl + 1) else s.(out := s.out - 1)
  {
    hide Flush;
    AllPopped(l.outs);
    AllPushed(l.closes, l.outs[0]);
  }

  lemma SendSound(l: Loop, broken: bool)
    requires Sound(l) && Enabled(l, Send(broken))
    ensures Good(l, Send(broken))
  {
    hide Sound, Orderly, Staged, SpotOf, Elsewhere, SendOne;
    var x := l.outs[0];
    SoundAt(l, x);
    InQueue(l, x);
    StagedNext(l, Send(broken));
    SendMoves(l, broken);
    FlushKeeps(l.conns[x], broken);
    OneMoved(l, SendOne(l, broken), x);
  }

  lemma CloseSound(l: Loop)
    requires Sound(l) && Enabled(l, Close)
    ensures Good(l, Close)
  {
    hide Orderly, Exclusive;
    var x := l.closes[0];
    assert Fits(SpotOf(l, x), ConnOf(l, x));
    Popped(l.closes, x);
    var l' := CloseOne(l);
    forall id ensures Fits(SpotOf(l', id), ConnOf(l', id)) {
      assert Fits(SpotOf(l, id), ConnOf(l, id));
      Popped(l.closes, id);
    }
  }

  lemma FinishSound(l: Loop, x: Id)
    requires Sound(l) && Enabled(l, Finish(x))
    ensures Good(l, Finish(x))
  {
    hide Orderly;
    var l' := FinishOne(l, x);
    OrderlyFields(l.conns[x], l'.conns[x]);
    forall id ensures Fits(SpotOf(l', id), ConnOf(l', id)) {
      assert Fits(SpotOf(l, id), ConnOf(l, id));
    }
  }

  lemma NextStageSound(l: Loop)
    requires Sound(l) && Enabled(l, NextStage)
    ensures Good(l, NextStage)
  {
    hide Orderly, Exclusive;
    var l' := Next(l, NextStage).value;
    forall id ensures Fits(SpotOf(l', id), ConnOf(l', id)) {
      assert Fits(SpotOf(l, id), ConnOf(l, id));
    }
  }

  /** No step from a sound state crashes, and every one leads to a sound state. */
  lemma NextSound(l: Loop, a: Action)
    requires Sound(l) && Enabled(l, a)
    ensures Next(l, a).Some? && Sound(Next(l, a).value)
  {
    hide Sound, Enabled, Next;
    match a
    case Wake(ready) => WakeSound(l, ready);
    case Accept(admit) => AcceptSound(l, admit);
    case Reattach(out, close, broken) => ReattachSound(l, out, close, broken);
    case Read(arrived) => ReadSound(l, arrived);
    case Process => ProcessSound(l);
    case Send(broken) => SendSound(l, broken);
    case Close => CloseSound(l);
    case NextStage => NextStageSound(l);
    case Finish(id) => FinishSound(l, id);
  }

  // ----- runs -----

  const START: Loop := Loop(map[], Waiting, [], [], [], [], [], [])

  /** Where a sequence of actions leads: not a run if one is not enabled, a crash, or a state. */
  datatype Outcome = NotARun | Crash | At(l: Loop)

  ghost function Run(actions: seq<Action>): Outcome {
    if actions == [] then At(START)
    else
      match Run(actions[..|actions| - 1])
      case At(l) =>
        var a := actions[|actions| - 1];
        if !Enabled(l, a) then NotARun else if Next(l, a).None? then Crash else At(Next(l, a).value)
      case o => o
  }

  /** In every run, whenever the background threads finish, no assert of the source fails, no freed
      connection is used, and the state is sound. */
  lemma {:induction false} EveryRunSound(actions: seq<Action>)
    ensures Run(actions) != Crash
    ensures Run(actions).At? ==> Sound(Run(actions).l)
    decreases |actions|
  {
    hide Sound, Enabled, Next;
    if actions == [] {
      StartSound();
    } else {
      var before := actions[..|actions| - 1];
      EveryRunSound(before);
      if Run(before).At? && Enabled(Run(before).l, actions[|actions| - 1]) {
        NextSound(Run(before).l, actions[|actions| - 1]);
      }
    }
  }

  lemma StartSound()
    ensures Sound(START)
  {
  }

  // ----- what soundness means -----

  /** The hand-off between loop and background: a connection is in background mode exactly when it
      is not registered for reading, one whose work is finished is registered so that the loop will
      attach it, and at most one queue holds it, so that it is closed once. */
  lemma HandOff(actions: seq<Action>, id: Id)
    requires Run(actions).At? && id in Run(actions).l.conns
    ensures var l := Run(actions).l; var c := l.conns[id];
            && (c.bg.Some? <==> c.reg != ForRead)
            && (c.bg.Some? && !c.working ==> c.reg == ForWrite)
            && multiset(l.closes)[id] <= 1
            && (id in l.readers ==> c.bg.None? && c.outlen == 0)
            && (l.stage == Waiting && c.bg.None? ==> c.pending == [] && c.outlen == 0 && !c.closed)
  {
    hide Run, Orderly;
    EveryRunSound(actions);
    var l := Run(actions).l;
    assert Fits(SpotOf(l, id), ConnOf(l, id));
    assert id in l.readers <==> multiset(l.readers)[id] > 0;
  }

  /** Commands are carried out once each in the order they arrived, and a done callback comes
      directly after the start of its command: no later command runs in between. */
  lemma Pipelined(actions: seq<Action>, id: Id)
    requires Run(actions).At? && id in Run(actions).l.conns
    ensures var c := Run(actions).l.conns[id];
            && RanIn(c.log) + c.pending == c.received
            && (forall i :: 0 <= i < |c.log| && c.log[i].Done? ==> i > 0 && c.log[i - 1] == Ran(c.log[i].cmd))
            && (c.bg.Some? ==> c.log != [] && c.log[|c.log| - 1] == Ran(c.bg.value))
  {
    hide Run, RanIn, Outstanding;
    EveryRunSound(actions);
    var l := Run(actions).l;
    assert Fits(SpotOf(l, id), ConnOf(l, id));
    DoneFollows(l.conns[id].log, l.conns[id].bg);
  }

  lemma {:induction false} DoneFollows(log: seq<Event>, bg: Option<Cmd>)
    requires Outstanding(log, bg)
    ensures forall i :: 0 <= i < |log| && log[i].Done? ==> i > 0 && log[i - 1] == Ran(log[i].cmd)
    ensures bg.Some? ==> log != [] && log[|log| - 1] == Ran(bg.value)
    decreases |log|
  {
    if log != [] {
      var e, before := log[|log| - 1], log[..|log| - 1];
      DoneFollows(before, if e.Done? then Some(e.cmd) else None);
      assert forall i :: 0 <= i < |before| ==> log[i] == before[i];
    }
  }

  /** Replies are sent: between iterations every connection that is not in background mode has sent
      exactly what its commands and done callbacks have written, and none that a command, a callback or
      an error closed is left. */
  lemma Replied(actions: seq<Action>, id: Id)
    requires Run(actions).At? && Run(actions).l.stage == Waiting && id in Run(actions).l.conns
    ensures var c := Run(actions).l.conns[id];
            !ClosesIn(c.log) && !c.broken && c.sent + c.outlen == WrittenIn(c.log) && (c.bg.None? ==> c.outlen == 0)
  {
    hide Run, RanIn, Outstanding, WrittenIn, ClosesIn;
    EveryRunSound(actions);
    var l := Run(actions).l;
    assert Fits(SpotOf(l, id), ConnOf(l, id));
  }

  /** A connection reported ready has nothing left to write and is not closed, unless it comes back from
      the background: qaccept never takes its branches for those. */
  lemma ReadyIsIdle(actions: seq<Action>, id: Id)
    requires Run(actions).At? && id in Run(actions).l.events && id in Run(actions).l.conns
    ensures var c := Run(actions).l.conns[id]; !c.closed && !c.working && (c.bg.None? ==> c.outlen == 0)
  {
    hide Run, Orderly;
    EveryRunSound(actions);
    var l := Run(actions).l;
    assert Fits(SpotOf(l, id), ConnOf(l, id));
    assert id in l.events <==> multiset(l.events)[id] > 0;
  }

  // ----- every report is answered -----

  /** What a run has done about one descriptor: how often it was reported ready, turned away as a new
      connection, read, or closed at its done callback, and the commands read since it was accepted. */
  datatype Ledger = Ledger(reported: nat, turned: nat, read: nat, ended: nat, arrived: seq<Cmd>)

  predicate First(q: seq<Id>, id: Id) { q != [] && q[0] == id }

  /** The entry for a step from `l`. */
  ghost function Note(g: Ledger, l: Loop, a: Action, id: Id): Ledger {
    match a
    case Wake(ready) => g.(reported := g.reported + multiset(ready)[id])
    case Accept(admit) => if First(l.events, id) && id !in l.conns && !admit then g.(turned := g.turned + 1) else g
    case Reattach(out, close, broken) =>
      if First(l.attachs, id) && id in l.conns
         && (l.conns[id].closed || close || (broken && l.conns[id].outlen + out > 0)) then
        g.(ended := g.ended + 1)
      else g
    case Read(arrived) =>
      if First(l.readers, id) then
        g.(read := g.read + 1, arrived := g.arrived + if arrived.Some? then arrived.value else [])
      else g
    case Close => if First(l.closes, id) then g.(arrived := []) else g
    case _ => g
  }

  ghost function Account(actions: seq<Action>, id: Id): Ledger {
    if actions == [] then Ledger(0, 0, 0, 0, [])
    else
      var before := actions[..|actions| - 1];
      match Run(before)
      case At(l) => Note(Account(before, id), l, actions[|actions| - 1], id)
      case _ => Account(before, id)
  }

  function Received(c: Option<Conn>): seq<Cmd> {
    if c.Some? then c.value.received else []
  }

  /** A report not yet answered stands in one of the first three queues. */
  ghost predicate Booked(s: Spot, c: Option<Conn>, g: Ledger) {
    && g.reported == g.turned + g.read + g.ended + s.ev + s.at + s.rd
    && g.arrived == Received(c)
  }

  /** A ready connection is attached or read next. */
  lemma SortMoves(l: Loop, x: Id, id: Id)
    requires x in l.conns && Idle(l.conns[x])
    ensures var s, s', l' := SpotOf(l, id), SpotOf(Sort(l, x), id), Sort(l, x);
            && s'.ev == s.ev && s'.at + s'.rd == s.at + s.rd + (if id == x then 1 else 0)
            && ConnOf(l', id) == ConnOf(l, id)
  {
    Pushed(l.attachs, x, id);
    Pushed(l.readers, x, id);
  }

  lemma AcceptBooked(l: Loop, admit: bool, id: Id, g: Ledger)
    requires Sound(l) && Enabled(l, Accept(admit)) && Booked(SpotOf(l, id), ConnOf(l, id), g)
    ensures var l' := AcceptOne(l, admit);
            Booked(SpotOf(l', id), ConnOf(l', id), Note(g, l, Accept(admit), id))
  {
    hide Orderly, Exclusive, Sort, Sound;
    var x, l1 := l.events[0], l.(events := l.events[1..]);
    var l2 := if x !in l.conns && admit then l1.(conns := l1.conns[x := FRESH]) else l1;
    SoundAt(l, x);
    Popped(l.events, x);
    Popped(l.events, id);
    if x in l2.conns {
      SortMoves(l2, x, id);
    }
  }

  /** The steps that handle one connection of a queue. */
  lemma AttachBooked(l: Loop, a: Action, id: Id, g: Ledger)
    requires Sound(l) && Enabled(l, a) && Booked(SpotOf(l, id), ConnOf(l, id), g) && a.Reattach?
    ensures Next(l, a).Some? && var l' := Next(l, a).value; Booked(SpotOf(l', id), ConnOf(l', id), Note(g, l, a, id))
  {
    hide Sound, Orderly, Exclusive, SpotOf, AttachOne, Attach;
    SoundAt(l, l.attachs[0]);
    InQueue(l, l.attachs[0]);
    AttachMoves(l, a.out, a.close, a.broken);
    AttachDoes(l.conns[l.attachs[0]], a.out, a.close, a.broken);
  }

  lemma ReadBooked(l: Loop, a: Action, id: Id, g: Ledger)
    requires Sound(l) && Enabled(l, a) && Booked(SpotOf(l, id), ConnOf(l, id), g) && a.Read?
    ensures Next(l, a).Some? && var l' := Next(l, a).value; Booked(SpotOf(l', id), ConnOf(l', id), Note(g, l, a, id))
  {
    hide Sound, Orderly, Exclusive, SpotOf, ReadOne;
    SoundAt(l, l.readers[0]);
    InQueue(l, l.readers[0]);
    ReadMoves(l, a.arrived);
  }

  lemma ServeBooked(l: Loop, a: Action, id: Id, g: Ledger)
    requires Sound(l) && Enabled(l, a) && Booked(SpotOf(l, id), ConnOf(l, id), g) && (a.Process? || a.Send?)
    ensures Next(l, a).Some? && var l' := Next(l, a).value; Booked(SpotOf(l', id), ConnOf(l', id), Note(g, l, a, id))
  {
    hide Sound, Orderly, Exclusive, Serve, SpotOf, ProcessOne, SendOne;
    var x := if a.Process? then l.ins[0] else l.outs[0];
    SoundAt(l, x);
    InQueue(l, x);
    if a.Process? {
      ProcessMoves(l);
      ServeKeeps(l.conns[x]);
    } else {
      SendMoves(l, a.broken);
    }
  }

  lemma CloseBooked(l: Loop, id: Id, g: Ledger)
    requires Sound(l) && Living(l, l.closes) && Booked(SpotOf(l, id), ConnOf(l, id), g)
    ensures var l' := CloseOne(l); Booked(SpotOf(l', id), ConnOf(l', id), Note(g, l, Close, id))
  {
    hide Orderly, Exclusive;
  }

  lemma NextBooked(l: Loop, a: Action, id: Id, g: Ledger)
    requires Sound(l) && Enabled(l, a) && Booked(SpotOf(l, id), ConnOf(l, id), g)
    ensures Next(l, a).Some? && var l' := Next(l, a).value; Booked(SpotOf(l', id), ConnOf(l', id), Note(g, l, a, id))
  {
    hide Sound;
    NextSound(l, a);
    SoundAt(l, id);
    match a
    case Accept(admit) => AcceptBooked(l, admit, id, g);
    case Reattach(_, _, _) => AttachBooked(l, a, id, g);
    case Read(_) => ReadBooked(l, a, id, g);
    case Process => ServeBooked(l, a, id, g);
    case Send(_) => ServeBooked(l, a, id, g);
    case Close => CloseBooked(l, id, g);
    case Wake(ready) =>
    case NextStage =>
    case Finish(x) =>
  }

  lemma {:induction false} EveryRunBooked(actions: seq<Action>, id: Id)
    requires Run(actions).At?
    ensures var l := Run(actions).l; Booked(SpotOf(l, id), ConnOf(l, id), Account(actions, id))
    decreases |actions|
  {
    hide Enabled, Next, Note;
    if actions != [] {
      var before := actions[..|actions| - 1];
      EveryRunBooked(before, id);
      EveryRunSound(before);
      NextBooked(Run(before).l, actions[|actions| - 1], id, Account(before, id));
    }
  }

  /** Nothing is overlooked: between iterations every report that a descriptor is ready has led to exactly
      one read, unless a new connection was turned away or a done callback ended it; and every command
      that arrived has been carried out, once and in order, unless background work comes first. */
  lemma Answered(actions: seq<Action>, id: Id)
    requires Run(actions).At? && Run(actions).l.stage == Waiting
    ensures var l, g := Run(actions).l, Account(actions, id);
            && g.reported == g.turned + g.read + g.ended
            && (id in l.conns ==>
                  var c := l.conns[id];
                  RanIn(c.log) + c.pending == g.arrived && (c.bg.None? ==> RanIn(c.log) == g.arrived))
  {
    hide Run, RanIn, Outstanding, WrittenIn, ClosesIn, Account;
    EveryRunBooked(actions, id);
    EveryRunSound(actions);
    var l := Run(actions).l;
    assert Fits(SpotOf(l, id), ConnOf(l, id));
    assert SpotOf(l, id) == Spot(0, 0, 0, 0, 0, 0);
  }

  // ----- what the command loop does -----

  /** A command after which the loop stops. */
  predicate Stops(cmd: Cmd) { cmd.close || cmd.background }

  /** How many pending commands are carried out: up to and including the first that stops the loop. */
  function Served(pending: seq<Cmd>): (k: nat)
    ensures k <= |pending|
  {
    if pending == [] then 0 else if Stops(pending[0]) then 1 else 1 + Served(pending[1..])
  }

  function Rans(cmds: seq<Cmd>): seq<Event> {
    if cmds == [] then [] else [Ran(cmds[0])] + Rans(cmds[1..])
  }

  function OutSum(cmds: seq<Cmd>): nat {
    if cmds == [] then 0 else cmds[0].out + OutSum(cmds[1..])
  }

  /** From `c`, the first `k` pending commands have been carried out: each is logged, the output grows by
      exactly what they write, the connection is closed exactly if the last of them closes it, and else in
      background mode exactly if that wants it. */
  ghost predicate CarriedOut(c: Conn, d: Conn, k: nat)
    requires k <= |c.pending|
  {
    && d.pending == c.pending[k..] && d.log == c.log + Rans(c.pending[..k])
    && d.outlen == c.outlen + OutSum(c.pending[..k]) && d.sent == c.sent
    && (d.closed <==> k > 0 && c.pending[k - 1].close)
    && d.bg == (if k > 0 && c.pending[k - 1].background && !d.closed then Some(c.pending[k - 1]) else None)
  }

  /** The command loop carries out the pending commands up to the first that closes or wants background
      work. */
  lemma {:induction false} ServeDoes(c: Conn)
    requires !c.closed && c.bg.None?
    ensures CarriedOut(c, Serve(c), Served(c.pending))
    decreases |c.pending|
  {
    hide CarriedOut, RunCommand;
    if c.pending == [] {
      NothingToDo(c);
    } else {
      RunDoes(c);
      if !Stops(c.pending[0]) {
        ServeDoes(RunCommand(c));
        OneFirst(c, Serve(RunCommand(c)), Served(c.pending[1..]));
      }
    }
  }

  lemma NothingToDo(c: Conn)
    requires !c.closed && c.bg.None? && c.pending == []
    ensures CarriedOut(c, c, 0)
  {
    assert c.log + [] == c.log && c.pending[..0] == [];
  }

  lemma RunDoes(c: Conn)
    requires !c.closed && c.bg.None? && c.pending != []
    ensures CarriedOut(c, RunCommand(c), 1) && RunCommand(c).pending == c.pending[1..]
    ensures var d := RunCommand(c); (d.closed || d.bg.Some? <==> Stops(c.pending[0]))
  {
    var cmd := c.pending[0];
    assert c.pending[..1] == [cmd] && [cmd][1..] == [];
  }

  lemma OneFirst(c: Conn, e: Conn, k: nat)
    requires c.pending != [] && !Stops(c.pending[0]) && CarriedOut(c, RunCommand(c), 1)
    requires k <= |c.pending| - 1 && RunCommand(c).pending == c.pending[1..] && CarriedOut(RunCommand(c), e, k)
    ensures CarriedOut(c, e, k + 1)
  {
    hide RunCommand;
    var cmd, rest := c.pending[0], c.pending[1..];
    var some := c.pending[..k + 1];
    assert c.pending[..1] == [cmd] && [cmd][1..] == [];
    assert some[0] == cmd && some[1..] == rest[..k];
    assert c.log + [Ran(cmd)] + Rans(rest[..k]) == c.log + ([Ran(cmd)] + Rans(rest[..k]));
    assert c.pending[k + 1..] == rest[k..];
    assert Rans([cmd]) == [Ran(cmd)] && OutSum([cmd]) == cmd.out;
  }

  /** Attaching sends what was pending and what the callback wrote, unless the write fails. */
  lemma AttachDoes(c: Conn, out: nat, close: bool, broken: bool)
    requires c.bg.Some?
    ensures var d := Attach(c, out, close, broken);
            && d.bg.None? && d.reg == ForRead && d.outlen == 0 && d.pending == c.pending && d.received == c.received
            && (broken && c.outlen + out > 0 ==> d.broken && d.closed)
            && (!(broken && c.outlen + out > 0) ==>
                  d.sent == c.sent + c.outlen + out && d.broken == c.broken && d.closed == (c.closed || close))
  {
  }

  // ----- a thread that could not be created -----

  /** In background mode without a thread. */
  predicate Stranded(l: Loop, id: Id) {
    id in l.conns && l.conns[id].working && l.conns[id].bg.Some? && !l.conns[id].bg.value.threadOk
  }

  /** A connection that works in the background stands in no queue. */
  lemma NowhereQueued(l: Loop, id: Id)
    requires Sound(l) && id in l.conns && l.conns[id].working
    ensures id !in l.events && id !in l.attachs && id !in l.readers && id !in l.ins && id !in l.outs && id !in l.closes
  {
    hide Orderly;
    assert Fits(SpotOf(l, id), ConnOf(l, id));
    assert id in l.events <==> multiset(l.events)[id] > 0;
    InQueue(l, id);
  }

  lemma StrandedStays(l: Loop, a: Action, id: Id)
    requires Sound(l) && Enabled(l, a) && Stranded(l, id) && Next(l, a).Some?
    ensures var l' := Next(l, a).value; Stranded(l', id) && l'.conns[id] == l.conns[id]
  {
    hide Sound, Attach, Serve, Flush;
    NowhereQueued(l, id);
  }

  /** If the thread for a command could not be created, the connection is stranded: whatever else
      happens, it never leaves background mode, its done callback never runs, nor does any command that
      arrived after. */
  lemma {:induction false} StrandedForever(actions: seq<Action>, more: seq<Action>, id: Id)
    requires Run(actions).At? && Stranded(Run(actions).l, id) && Run(actions + more).At?
    ensures var l, l' := Run(actions).l, Run(actions + more).l;
            Stranded(l', id) && l'.conns[id] == l.conns[id]
    decreases |more|
  {
    hide Sound, Enabled, Next, Stranded;
    if more == [] {
      assert actions + more == actions;
    } else {
      var init, a := more[..|more| - 1], more[|more| - 1];
      assert (actions + more)[..|actions + more| - 1] == actions + init;
      EveryRunSound(actions + init);
      StrandedForever(actions, init, id);
      StrandedStays(Run(actions + init).l, a, id);
    }
  }

  // ----- continuations -----

  /** Where a sequence of actions leads from a given state. */
  ghost function RunFrom(l: Loop, acts: seq<Action>): Outcome
    decreases |acts|
  {
    if acts == [] then At(l)
    else if !Enabled(l, acts[0]) then NotARun
    else if Next(l, acts[0]).None? then Crash
    else RunFrom(Next(l, acts[0]).value, acts[1..])
  }

  lemma {:induction false} RunFromEnd(l: Loop, acts: seq<Action>, a: Action)
    ensures RunFrom(l, acts + [a]) ==
            match RunFrom(l, acts)
            case At(k) => if !Enabled(k, a) then NotARun else if Next(k, a).None? then Crash else At(Next(k, a).value)
            case o => o
    decreases |acts|
  {
    hide Enabled, Next;
    if acts == [] {
      assert acts + [a] == [a] && [a][1..] == [];
    } else {
      assert (acts + [a])[0] == acts[0] && (acts + [a])[1..] == acts[1..] + [a];
      if Enabled(l, acts[0]) && Next(l, acts[0]).Some? {
        RunFromEnd(Next(l, acts[0]).value, acts[1..], a);
      }
    }
  }

  /** A run goes on from the state it has reached. */
  lemma {:induction false} RunGoesOn(actions: seq<Action>, more: seq<Action>)
    requires Run(actions).At?
    ensures Run(actions + more) == RunFrom(Run(actions).l, more)
    decreases |more|
  {
    hide Enabled, Next;
    if more == [] {
      assert actions + more == actions;
    } else {
      var init, a := more[..|more| - 1], more[|more| - 1];
      assert (actions + more)[..|actions + more| - 1] == actions + init;
      assert more == init + [a];
      RunGoesOn(actions, init);
      RunFromEnd(Run(actions).l, init, a);
    }
  }

  /** The next step of an iteration that admits nobody, reads nothing and writes without an error. */
  function Onward(l: Loop): Action {
    match l.stage
    case Waiting => Wake([])
    case Accepting => if l.events != [] then Accept(false) else NextStage
    case Attaching => if l.attachs != [] then Reattach(0, false, false) else NextStage
    case Reading => if l.readers != [] then Read(Some([])) else NextStage
    case Processing => if l.ins != [] then Process else NextStage
    case Writing => if l.outs != [] then Send(false) else NextStage
    case Closing => if l.closes != [] then Close else NextStage
  }

  function StagesLeft(s: Stage): nat {
    match s
    case Waiting => 0
    case Accepting => 6
    case Attaching => 5
    case Reading => 4
    case Processing => 3
    case Writing => 2
    case Closing => 1
  }

  /** A bound on the steps left in an iteration. */
  function StepsLeft(l: Loop): nat {
    StagesLeft(l.stage) + 6 * |l.events| + 5 * |l.attachs| + 4 * |l.readers| + 3 * |l.ins| + 2 * |l.outs| + |l.closes|
  }

  lemma OnwardSteps(l: Loop)
    requires Sound(l) && l.stage != Waiting
    ensures Enabled(l, Onward(l)) && Next(l, Onward(l)).Some? && Sound(Next(l, Onward(l)).value)
    ensures StepsLeft(Next(l, Onward(l)).value) < StepsLeft(l)
  {
    hide Sound, Attach, Serve, Flush;
    NextSound(l, Onward(l));
  }

  /** A connection that stands in no queue. */
  predicate Unqueued(l: Loop, id: Id) {
    && id in l.conns && id !in l.events && id !in l.attachs && id !in l.readers
    && id !in l.ins && id !in l.outs && id !in l.closes
  }

  lemma OnwardSpares(l: Loop, id: Id)
    requires l.stage != Waiting && Unqueued(l, id) && Enabled(l, Onward(l)) && Next(l, Onward(l)).Some?
    ensures var k := Next(l, Onward(l)).value; Unqueued(k, id) && k.conns[id] == l.conns[id]
  {
    hide Attach, Serve, Flush;
  }

  /** The iteration can be finished without touching a connection that stands in no queue. */
  lemma {:induction false} FinishIteration(l: Loop, id: Id) returns (acts: seq<Action>)
    requires Sound(l) && Unqueued(l, id)
    ensures RunFrom(l, acts).At?
    ensures var k := RunFrom(l, acts).l; k.stage == Waiting && Sound(k) && Unqueued(k, id) && k.conns[id] == l.conns[id]
    decreases StepsLeft(l)
  {
    hide Sound, Enabled, Next, Unqueued, Onward, StepsLeft;
    if l.stage == Waiting {
      acts := [];
    } else {
      OnwardSteps(l);
      OnwardSpares(l, id);
      var rest := FinishIteration(Next(l, Onward(l)).value, id);
      acts := [Onward(l)] + rest;
      assert acts[1..] == rest;
    }
  }

  lemma {:induction false} RunFromConcat(l: Loop, a: seq<Action>, b: seq<Action>)
    requires RunFrom(l, a).At?
    ensures RunFrom(l, a + b) == RunFrom(RunFrom(l, a).l, b)
    decreases |a|
  {
    hide Enabled, Next;
    if a == [] {
      assert a + b == b;
    } else {
      assert (a + b)[0] == a[0] && (a + b)[1..] == a[1..] + b;
      RunFromConcat(Next(l, a[0]).value, a[1..], b);
    }
  }

  lemma Single(l: Loop, a: Action)
    requires Enabled(l, a) && Next(l, a).Some?
    ensures RunFrom(l, [a]) == At(Next(l, a).value)
  {
    hide Enabled, Next;
    assert [a][1..] == [];
  }

  /** Adding an action to a continuation. */
  lemma Then(l: Loop, acts: seq<Action>, a: Action)
    requires RunFrom(l, acts).At? && Enabled(RunFrom(l, acts).l, a) && Next(RunFrom(l, acts).l, a).Some?
    ensures RunFrom(l, acts + [a]) == At(Next(RunFrom(l, acts).l, a).value)
  {
    hide Enabled, Next, RunFrom;
    RunFromEnd(l, acts, a);
  }

  /** Finished work is attached again in the next iteration. */
  lemma AttachNext(l: Loop, id: Id) returns (acts: seq<Action>)
    requires Sound(l) && l.stage == Waiting && id in l.conns && l.conns[id].bg.Some? && !l.conns[id].working
    ensures RunFrom(l, acts).At? && id in RunFrom(l, acts).l.conns
    ensures RunFrom(l, acts).l.conns[id].log == l.conns[id].log + [Done(l.conns[id].bg.value, 0, false)]
  {
    hide RunFrom, Orderly;
    assert Fits(SpotOf(l, id), ConnOf(l, id));
    var wake := Wake([id]);
    assert forall x :: x != id ==> multiset([id])[x] == 0;
    Single(l, wake);
    var l1 := Next(l, wake).value;
    Then(l, [wake], Accept(false));
    var l2 := Next(l1, Accept(false)).value;
    assert l2 == l.(stage := Accepting, attachs := [id]);
    Then(l, [wake] + [Accept(false)], NextStage);
    var l3 := Next(l2, NextStage).value;
    assert l3.stage == Attaching && l3.attachs == [id] && l3.conns == l.conns;
    Then(l, [wake] + [Accept(false)] + [NextStage], Reattach(0, false, false));
    acts := [wake] + [Accept(false)] + [NextStage] + [Reattach(0, false, false)];
  }

  /** After `more` the work of the connection is done and its callback has run. */
  ghost predicate ComesBack(actions: seq<Action>, more: seq<Action>, id: Id)
    requires Run(actions).At? && id in Run(actions).l.conns && Run(actions).l.conns[id].bg.Some?
  {
    var c, r := Run(actions).l.conns[id], Run(actions + more);
    r.At? && id in r.l.conns && exists out, close :: r.l.conns[id].log == c.log + [Done(c.bg.value, out, close)]
  }

  lemma FinishSpares(l: Loop, id: Id)
    requires Sound(l) && Enabled(l, Finish(id))
    ensures var k := FinishOne(l, id);
            && Next(l, Finish(id)) == Some(k) && Sound(k) && Unqueued(k, id)
            && k.conns[id].bg == l.conns[id].bg && !k.conns[id].working && k.conns[id].log == l.conns[id].log
  {
    hide Sound;
    NowhereQueued(l, id);
    FinishSound(l, id);
  }

  lemma WorkComesBack(actions: seq<Action>, id: Id) returns (more: seq<Action>)
    requires Run(actions).At? && Enabled(Run(actions).l, Finish(id))
    ensures ComesBack(actions, more, id)
  {
    hide Run, RunFrom, Sound, Next, Unqueued;
    EveryRunSound(actions);
    var l := Run(actions).l;
    FinishSpares(l, id);
    var l1 := FinishOne(l, id);
    Single(l, Finish(id));
    var a := FinishIteration(l1, id);
    var l2 := RunFrom(l1, a).l;
    var b := StillThere(l2, l1, id);
    RunFromConcat(l1, a, b);
    RunFromConcat(l, [Finish(id)], a + b);
    more := [Finish(id)] + (a + b);
    RunGoesOn(actions, more);
  }

  lemma StillThere(l2: Loop, l1: Loop, id: Id) returns (acts: seq<Action>)
    requires Sound(l2) && l2.stage == Waiting && Unqueued(l2, id) && id in l1.conns && l2.conns[id] == l1.conns[id]
    requires l1.conns[id].bg.Some? && !l1.conns[id].working
    ensures RunFrom(l2, acts).At? && id in RunFrom(l2, acts).l.conns
    ensures RunFrom(l2, acts).l.conns[id].log == l1.conns[id].log + [Done(l1.conns[id].bg.value, 0, false)]
  {
    hide Sound, RunFrom;
    acts := AttachNext(l2, id);
  }

  /** A connection that works in the background can come back, with its done callback run, if and only if
      its thread could be created. */
  lemma ComesBackIff(actions: seq<Action>, id: Id)
    requires Run(actions).At? && id in Run(actions).l.conns && Run(actions).l.conns[id].working
    ensures Run(actions).l.conns[id].bg.Some?
    ensures (exists more :: ComesBack(actions, more, id)) <==> Run(actions).l.conns[id].bg.value.threadOk
  {
    hide Run, Sound, Next;
    EveryRunSound(actions);
    var l := Run(actions).l;
    WorkingInBackground(l, id);
    if l.conns[id].bg.value.threadOk {
      var more := WorkComesBack(actions, id);
    } else {
      forall more ensures !ComesBack(actions, more, id) {
        if Run(actions + more).At? {
          StrandedForever(actions, more, id);
        }
      }
    }
  }

  lemma WorkingInBackground(l: Loop, id: Id)
    requires Sound(l) && id in l.conns && l.conns[id].working
    ensures l.conns[id].bg.Some?
  {
    hide Orderly;
    assert Fits(SpotOf(l, id), ConnOf(l, id));
  }

  /** The run of a client whose first command wants background work. */
  function FirstCommand(id: Id, cmd: Cmd): seq<Action> {
    [Wake([id])] + [Accept(true)] + [NextStage] + [NextStage] + [Read(Some([cmd]))] + [NextStage] + [Process]
  }

  /** Such connections are reached: a new connection whose first command wants background work, for
      which no thread can be created, is stranded. */
  lemma StrandedReached(id: Id, cmd: Cmd)
    requires cmd.background && !cmd.close
    ensures Run(FirstCommand(id, cmd)).At? && id in Run(FirstCommand(id, cmd)).l.conns
    ensures var c := Run(FirstCommand(id, cmd)).l.conns[id]; c.working && c.bg == Some(cmd)
    ensures !cmd.threadOk ==> Stranded(Run(FirstCommand(id, cmd)).l, id)
  {
    hide Run, RunFrom;
    var a := [Wake([id])];
    assert forall x :: x != id ==> multiset([id])[x] == 0;
    Single(START, Wake([id]));
    var l1 := START.(stage := Accepting, events := [id]);
    Then(START, a, Accept(true));
    var l2 := START.(stage := Accepting, conns := map[id := FRESH], readers := [id]);
    assert [id][1..] == [] && map[][id := FRESH] == map[id := FRESH];
    assert AcceptOne(l1, true) == l2;
    Then(START, a + [Accept(true)], NextStage);
    Then(START, a + [Accept(true)] + [NextStage], NextStage);
    var l4 := l2.(stage := Reading);
    var b := a + [Accept(true)] + [NextStage] + [NextStage];
    assert RunFrom(START, b) == At(l4);
    FirstRead(b, l4, id, cmd);
  }

  lemma FirstRead(b: seq<Action>, l: Loop, id: Id, cmd: Cmd)
    requires cmd.background && !cmd.close && RunFrom(START, b) == At(l)
    requires l == START.(stage := Reading, conns := map[id := FRESH], readers := [id])
    ensures var acts := b + [Read(Some([cmd]))] + [NextStage] + [Process];
            && Run(acts).At? && id in Run(acts).l.conns
            && Run(acts).l.conns[id].working && Run(acts).l.conns[id].bg == Some(cmd)
  {
    hide Run, RunFrom;
    var read := Read(Some([cmd]));
    Then(START, b, read);
    var c := FRESH.(received := [] + [cmd], pending := [] + [cmd]);
    var l5 := l.(readers := [], ins := [id], conns := map[id := c]);
    assert [id][1..] == [] && map[id := FRESH][id := c] == map[id := c];
    assert ReadOne(l, Some([cmd])) == l5;
    Then(START, b + [read], NextStage);
    var l6 := l5.(stage := Processing);
    Then(START, b + [read] + [NextStage], Process);
    assert c.pending[0] == cmd && RunCommand(c).bg == Some(cmd);
    StartIsRun(b + [read] + [NextStage] + [Process]);
  }

  lemma StartIsRun(acts: seq<Action>)
    ensures Run(acts) == RunFrom(START, acts)
  {
    hide RunFrom;
    assert [] + acts == acts;
    RunGoesOn([], acts);
  }
}
