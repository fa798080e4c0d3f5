/** A master, the agent that watches its traffic, and a slave that joins: when the slave follows the master. */
module Convergence {
  import opened Bytes
  import opened Kv
  import opened Kvsp
  import opened Commands
  import opened Meeting
  import opened Framing
  import opened ServerReader
  import opened ReceiveLoop
  import opened Recovery
  import opened Traversal
  import Persistence
  import opened Agent
  import opened Traffic

  // ---- the world ----

  /** How far the join of the slave has come. */
  datatype Phase = Idle | Synced | Loaded | Connected

  datatype World = World(
    /** The chunks that the master received, on all its connections. */
    chunks: seq<Chunk>,
    /** How many of them the agent has handled, the agent, and how much it had sent before the last one. */
    seen: nat, agent: Drained<AgentState>, before: nat,
    /** The join, which chunk was its SYNC, and the file of the snapshot. */
    phase: Phase, sync: nat, snapshot: Str,
    /** Whether the agent knows the slave, and what was sent before it did. */
    registered: bool, reg: nat,
    /** The slave's store, how many of the frames sent to it it has executed, and whether it closed the connection. */
    slave: Db, applied: nat, cut: bool)

  datatype Event =
    /** Bytes from a client, or of another slave's handshake, or the slave's FULLSYNC FINISHED. */
    | Arrive(c: Chunk)
    | TakeSnapshot(conn: nat, file: Str)
    | LoadSnapshot
    | Connect
    | Register(reg: nat)
    | AgentStep
    | SlaveStep

  const BEGIN: World := World([], 0, Drained(START, [], false), 0, Idle, 0, [], false, 0, EMPTY, 0, false)

  /** The master's store: that of the commands which it executed. */
  ghost function Master(w: World): Db { Run(EMPTY, CommandsOf(w.chunks)) }

  ghost function StoreAt(cs: seq<Chunk>, n: nat): Db
    requires n <= |cs|
  {
    Run(EMPTY, CommandsOf(cs[..n]))
  }

  /** The master's store when the snapshot was taken. */
  ghost function Snapshot(w: World): Db
    requires w.sync <= |w.chunks|
  {
    StoreAt(w.chunks, w.sync)
  }

  /** The store that a snapshot's file is read into. */
  ghost function Loading(file: Str): Db {
    Drain(file, EMPTY, Persistence.StepOf(Persistence.Save)).state
  }

  /** A chunk that can be received, and whose commands have a meaning. */
  ghost predicate CanArrive(w: World, c: Chunk) {
    var net := NetOf(w.chunks);
    Receivable(net, c) && Meaningful(Rest(net, c.conn) + c.bytes, Master(w))
  }

  /**
   * One event, if it can happen; cap is the size of the agent's cache. The agent learns of the slave at
   * any time, also between two frames of one chunk. A refused frame makes the slave close the connection.
   */
  ghost function Next(cap: nat, w: World, e: Event): Option<World> {
    match e
    case Arrive(c) =>
      if CanArrive(w, c) then Some(w.(chunks := w.chunks + [c])) else None
    case TakeSnapshot(conn, file) =>
      var c := Chunk(conn, FrameOf([SYNC]));
      if w.phase == Idle && CanArrive(w, c) && conn !in NetOf(w.chunks).rests && Saved(file, Master(w)) && StorableDb(Master(w))
      then Some(w.(chunks := w.chunks + [c], phase := Synced, sync := |w.chunks|, snapshot := file)) else None
    case LoadSnapshot =>
      if w.phase == Synced then Some(w.(phase := Loaded, slave := Loading(w.snapshot))) else None
    case Connect =>
      if w.phase == Loaded then Some(w.(phase := Connected)) else None
    case Register(reg) =>
      if w.phase == Connected && !w.registered && w.before <= reg <= |w.agent.state.sent|
      then Some(w.(registered := true, reg := reg)) else None
    case AgentStep =>
      if w.seen >= |w.chunks| || w.agent.dead then None
      else Some(w.(agent := Feed(w.agent, w.chunks[w.seen].bytes, Step(cap)), seen := w.seen + 1, before := |w.agent.state.sent|))
    case SlaveStep =>
      if !w.registered || w.cut || w.reg + w.applied >= |w.agent.state.sent| then None
      else
        var c := CommandOf(w.agent.state.sent[w.reg + w.applied]);
        if c.None? then Some(w.(cut := true))
        else if !DefinedOn(w.slave, c.value) then None
        else Some(w.(slave := Exec(w.slave, c.value), applied := w.applied + 1))
  }

  /** The world after a run of events, if all of them can happen. */
  ghost function AfterAll(cap: nat, w: World, es: seq<Event>): Option<World>
    decreases |es|
  {
    if es == [] then Some(w)
    else if Next(cap, w, es[0]).None? then None
    else AfterAll(cap, Next(cap, w, es[0]).value, es[1..])
  }

  // ---- what every event keeps ----

  /** What the agent did depends on the bytes that it saw. */
  ghost predicate AgentOk(cap: nat, w: World) {
    && w.seen <= |w.chunks| && w.before <= |w.agent.state.sent|
    && w.agent == Drain(Stream(w.chunks[..w.seen]), START, Step(cap))
    && (w.seen > 0 ==> w.before == |Drain(Stream(w.chunks[..w.seen - 1]), START, Step(cap)).state.sent|)
  }

  /** What the slave has of the frames sent to it. */
  ghost predicate SlaveOk(w: World) {
    && (w.phase != Idle ==> w.sync < |w.chunks| && w.chunks[w.sync].bytes == FrameOf([SYNC]))
    && (!w.registered ==> w.applied == 0 && !w.cut)
    && (w.phase in {Loaded, Connected} && !w.registered ==> w.slave == Snapshot(w))
    && (w.registered ==>
        var sent := w.agent.state.sent;
        && w.phase == Connected && w.reg + w.applied <= |sent|
        && w.slave == Run(Snapshot(w), Cmds(sent[w.reg..w.reg + w.applied]))
        && Accepted(sent[w.reg..w.reg + w.applied])
        && (w.cut ==> w.reg + w.applied < |sent| && CommandOf(sent[w.reg + w.applied]).None?))
  }

  ghost predicate SnapshotOk(w: World) {
    w.phase != Idle ==> w.sync < |w.chunks| && Saved(w.snapshot, Snapshot(w)) && StorableDb(Snapshot(w))
  }

  ghost predicate Inv(cap: nat, w: World) { AgentOk(cap, w) && SlaveOk(w) && SnapshotOk(w) }

  /** More is sent: the slave's part of it stays. */
  lemma MoreSent(w: World, w': World)
    requires SlaveOk(w) && w.agent.state.sent <= w'.agent.state.sent
    requires w' == w.(agent := w'.agent, seen := w'.seen, before := w'.before)
    ensures SlaveOk(w')
  {
    hide Run, Accepted, CommandOf, Cmds, StoreAt;
    if w.registered {
      var n := w.reg + w.applied;
      assert w'.agent.state.sent[w.reg..n] == w.agent.state.sent[w.reg..n];
    }
  }

  /** The agent takes the chunk number n. */
  lemma AgentTakesChunk(cap: nat, cs: seq<Chunk>, n: nat)
    requires n < |cs| && !Drain(Stream(cs[..n]), START, Step(cap)).dead
    ensures var d, d' := Drain(Stream(cs[..n]), START, Step(cap)), Drain(Stream(cs[..n + 1]), START, Step(cap));
      d' == Feed(d, cs[n].bytes, Step(cap)) && d.state.sent <= d'.state.sent
  {
    hide Drain, Stream, Changing, Cut;
    assert cs[..n + 1] == cs[..n] + [cs[n]];
    StreamMore(cs[..n], cs[n]);
    var d := Drain(Stream(cs[..n]), START, Step(cap));
    DrainAppend(Stream(cs[..n]), cs[n].bytes, START, Step(cap));
    AgentCuts(cap, d.rest + cs[n].bytes, d.state);
  }

  lemma AgentStepKeeps(cap: nat, w: World, w': World)
    requires Inv(cap, w) && Next(cap, w, AgentStep) == Some(w')
    ensures Inv(cap, w')
  {
    hide Drain, Feed, Stream, StoreAt, Saved, StorableDb, SlaveOk;
    AgentTakesChunk(cap, w.chunks, w.seen);
    MoreSent(w, w');
  }

  lemma SlaveStepKeeps(cap: nat, w: World, w': World)
    requires Inv(cap, w) && Next(cap, w, SlaveStep) == Some(w')
    ensures Inv(cap, w')
  {
    hide Drain, Run, CommandOf, Exec, DefinedOn, Saved, StorableDb, StoreAt, Cmds;
    var sent, lo, n := w.agent.state.sent, w.reg, w.reg + w.applied;
    var c := CommandOf(sent[n]);
    if c.Some? {
      var fs := sent[lo..n];
      assert sent[lo..n + 1] == fs + [sent[n]];
      CmdsConcat(fs, [sent[n]]);
      CmdsOne(sent[n]);
      RunConcat(Snapshot(w), Cmds(fs), [c.value]);
      RunOne(w.slave, c.value);
    }
  }

  /** What the master receives does not disturb what the agent and the slave did before. */
  lemma ArriveKeeps(cap: nat, w: World, e: Event, w': World)
    requires Inv(cap, w) && Next(cap, w, e) == Some(w') && (e.Arrive? || e.TakeSnapshot?)
    ensures Inv(cap, w')
  {
    hide Drain, FrameOf, Cmds, Saved, StorableDb, Accepted, CommandOf, CanArrive, StoreAt, Stream, CommandsOf, NetOf, Run;
    var c := w'.chunks[|w.chunks|];
    assert w'.chunks == w.chunks + [c];
    SamePrefix(w.chunks, c, w.seen);
    if w.seen > 0 {
      SamePrefix(w.chunks, c, w.seen - 1);
    }
    if w.phase != Idle {
      SamePrefix(w.chunks, c, w.sync);
    }
    if e.TakeSnapshot? {
      SamePrefix(w.chunks, c, |w.chunks|);
      StoreNow(w);
    }
  }

  lemma SamePrefix(cs: seq<Chunk>, c: Chunk, n: nat)
    requires n <= |cs|
    ensures (cs + [c])[..n] == cs[..n] && StoreAt(cs + [c], n) == StoreAt(cs, n)
  {
    hide CommandsOf, Run;
    assert (cs + [c])[..n] == cs[..n];
  }

  lemma StoreNow(w: World)
    ensures StoreAt(w.chunks, |w.chunks|) == Master(w)
  {
    hide CommandsOf, Run;
    assert w.chunks[..|w.chunks|] == w.chunks;
  }

  lemma JoinKeeps(cap: nat, w: World, e: Event, w': World)
    requires Inv(cap, w) && Next(cap, w, e) == Some(w') && (e.LoadSnapshot? || e.Connect? || e.Register?)
    ensures Inv(cap, w')
  {
    hide Drain, Run, Saved, StorableDb, Loading, CommandOf, Cmd, StoreAt;
    if e.LoadSnapshot? {
      LoadingIs(w.snapshot, Snapshot(w));
    }
    if e.Register? {
      assert w.agent.state.sent[w'.reg..w'.reg] == [];
      RunNothing(w.slave);
    }
  }

  lemma LoadingIs(file: Str, db: Db)
    requires Saved(file, db) && StorableDb(db)
    ensures Loading(file) == db
  {
    hide Saved, StorableDb;
    SaveLoad(file, db);
  }

  lemma RunNothing(db: Db)
    ensures Run(db, Cmds([])) == Run(db, []) == db
  {}

  lemma NextKeeps(cap: nat, w: World, e: Event, w': World)
    requires Inv(cap, w) && Next(cap, w, e) == Some(w')
    ensures Inv(cap, w')
  {
    hide Inv, Next;
    match e
    case AgentStep => AgentStepKeeps(cap, w, w');
    case SlaveStep => SlaveStepKeeps(cap, w, w');
    case LoadSnapshot => JoinKeeps(cap, w, e, w');
    case Connect => JoinKeeps(cap, w, e, w');
    case Register(_) => JoinKeeps(cap, w, e, w');
    case _ => ArriveKeeps(cap, w, e, w');
  }

  // ---- every run ----

  lemma BeginInv(cap: nat)
    ensures Inv(cap, BEGIN)
  {
    hide Run;
    DrainNothing(START, Step(cap));
  }

  lemma {:induction false} EveryRun(cap: nat, w: World, es: seq<Event>)
    requires Inv(cap, w) && AfterAll(cap, w, es).Some?
    ensures Inv(cap, AfterAll(cap, w, es).value)
    decreases |es|
  {
    hide Inv, Next;
    if es != [] {
      NextKeeps(cap, w, es[0], Next(cap, w, es[0]).value);
      EveryRun(cap, Next(cap, w, es[0]).value, es[1..]);
    }
  }

  /** Some run leads from one world to another. */
  ghost predicate Leads(cap: nat, w: World, w': World) { exists es :: AfterAll(cap, w, es) == Some(w') }

  ghost predicate Reached(cap: nat, w: World) { Leads(cap, BEGIN, w) }

  lemma ReachedInv(cap: nat, w: World)
    requires Reached(cap, w)
    ensures Inv(cap, w)
  {
    hide Inv, AfterAll;
    BeginInv(cap);
    var es :| AfterAll(cap, BEGIN, es) == Some(w);
    EveryRun(cap, BEGIN, es);
  }

  // ---- the slave and the master, whatever the traffic ----

  /** The writes that the master has executed since the snapshot. */
  ghost function Since(w: World): seq<Command>
    requires w.sync <= |w.chunks|
  {
    CommandsPrefix(w.chunks, w.sync);
    Writes(CommandsOf(w.chunks)[|CommandsOf(w.chunks[..w.sync])|..])
  }

  /** They lead from the snapshot to the master's store. */
  lemma SinceLeads(w: World)
    requires w.sync <= |w.chunks|
    ensures Master(w) == Run(Snapshot(w), Since(w))
  {
    hide Run, CommandsOf, Writes;
    CommandsPrefix(w.chunks, w.sync);
    var all, n := CommandsOf(w.chunks), |CommandsOf(w.chunks[..w.sync])|;
    assert all == CommandsOf(w.chunks[..w.sync]) + all[n..];
    RunConcat(EMPTY, CommandsOf(w.chunks[..w.sync]), all[n..]);
    RunWrites(Snapshot(w), all[n..]);
  }

  /** Everything that the agent sends when it has handled all the traffic. */
  ghost function Sends(cap: nat, w: World): seq<Str> { Drain(Stream(w.chunks), START, Step(cap)).state.sent }

  /** The agent handled all it will, and the slave is registered and executed what it will. */
  ghost predicate Settled(w: World) {
    && w.registered && (w.seen == |w.chunks| || w.agent.dead)
    && (w.cut || w.reg + w.applied == |w.agent.state.sent|)
  }

  /** How many frames come before the first that is refused. */
  ghost function FirstRefused(fs: seq<Str>): (n: nat)
    ensures n <= |fs| && Accepted(fs[..n]) && (n < |fs| ==> CommandOf(fs[n]).None?)
  {
    if fs == [] || CommandOf(fs[0]).None? then 0
    else
      var n := FirstRefused(fs[1..]);
      assert forall i :: 0 < i < n + 1 ==> fs[i] == fs[1..][i - 1];
      n + 1
  }

  lemma FirstRefusedIs(fs: seq<Str>, n: nat)
    requires n <= |fs| && Accepted(fs[..n]) && (n < |fs| ==> CommandOf(fs[n]).None?)
    ensures FirstRefused(fs) == n
  {
    hide CommandOf, FirstRefused;
    assert forall i :: 0 <= i < n ==> CommandOf(fs[..n][i]).Some? && fs[i] == fs[..n][i];
    assert forall i :: 0 <= i < FirstRefused(fs) ==> CommandOf(fs[..FirstRefused(fs)][i]).Some? && fs[i] == fs[..FirstRefused(fs)][i];
  }

  lemma FirstRefusedBound(fs: seq<Str>)
    ensures var n := FirstRefused(fs);
      n <= |fs| && Accepted(fs[..n]) && (n < |fs| ==> CommandOf(fs[n]).None?) && (n == |fs| <==> Accepted(fs))
  {
    hide CommandOf;
    if FirstRefused(fs) == |fs| {
      assert fs[..|fs|] == fs;
    }
  }

  /** The frames for the slave. */
  ghost function ForSlave(cap: nat, w: World): seq<Str>
    requires w.reg <= |Sends(cap, w)|
  {
    Sends(cap, w)[w.reg..]
  }

  /** What the slave executes of them: all up to the first that is refused. */
  ghost function Executes(cap: nat, w: World): seq<Command>
    requires w.reg <= |Sends(cap, w)|
  {
    Cmds(ForSlave(cap, w)[..FirstRefused(ForSlave(cap, w))])
  }

  lemma AllSent(cap: nat, w: World)
    requires Inv(cap, w)
    ensures w.agent.state.sent <= Sends(cap, w)
    ensures w.seen == |w.chunks| || w.agent.dead ==> w.agent.state.sent == Sends(cap, w)
  {
    hide Drain, SlaveOk, SnapshotOk;
    var s := Stream(w.chunks[..w.seen]);
    var t := StreamRest(w.chunks, w.seen);
    DrainAppend(s, t, START, Step(cap));
    AgentCuts(cap, w.agent.rest + t, w.agent.state);
    if w.seen == |w.chunks| {
      assert w.chunks[..w.seen] == w.chunks;
    }
  }

  /** A settled slave: it closed the connection exactly if a frame for it is refused. */
  lemma SettledState(cap: nat, w: World)
    requires Reached(cap, w) && Settled(w)
    ensures w.sync <= |w.chunks| && w.reg <= |Sends(cap, w)|
    ensures w.cut <==> !Accepted(ForSlave(cap, w))
    ensures w.slave == Run(Snapshot(w), Executes(cap, w)) && Master(w) == Run(Snapshot(w), Since(w))
  {
    hide SnapshotOk, AgentOk, Run, Cmds, Leads, CommandOf, FirstRefused, Sends, Snapshot, Since, Accepted, Master, Stream, CommandsOf;
    ReachedInv(cap, w);
    AllSent(cap, w);
    var fs := ForSlave(cap, w);
    assert fs[..w.applied] == w.agent.state.sent[w.reg..w.reg + w.applied];
    FirstRefusedIs(fs, w.applied);
    FirstRefusedBound(fs);
    SinceLeads(w);
  }

  /**
   * Exactly when a settled slave has what the master has, whatever the traffic and the time of its
   * registration. What it executes and what the master executed since the snapshot begin with the same
   * commands p and end with the same t, which may be none; in between, the slave executed a and the master
   * b. The condition is that under each key, what a and what b make of the value after p agrees under t.
   */
  lemma SettledExactly(cap: nat, w: World, p: seq<Command>, a: seq<Command>, b: seq<Command>, t: seq<Command>)
    requires Reached(cap, w) && Settled(w) && w.sync <= |w.chunks| && w.reg <= |Sends(cap, w)|
    requires Executes(cap, w) == p + a + t && Since(w) == p + b + t
    ensures w.slave == Master(w) <==> forall e, k ::
      var x := At(Run(Snapshot(w), p), e, k); Agree(t, e, k, Fate(a, e, k, x), Fate(b, e, k, x))
  {
    hide Run, Leads, Settled, Fate, Agree, At, Snapshot, Master, Executes, Since, Sends;
    SettledState(cap, w);
    var db := Run(Snapshot(w), p);
    RunParts(Snapshot(w), p, a, t);
    RunParts(Snapshot(w), p, b, t);
    RunsAgree(Run(db, a), Run(db, b), t);
    forall e, k ensures At(Run(db, a), e, k) == Fate(a, e, k, At(db, e, k)) && At(Run(db, b), e, k) == Fate(b, e, k, At(db, e, k)) {
      AtRun(db, a, e, k);
      AtRun(db, b, e, k);
    }
  }

  lemma RunParts(db: Db, p: seq<Command>, a: seq<Command>, t: seq<Command>)
    ensures Run(db, p + a + t) == Run(Run(Run(db, p), a), t)
  {
    hide Run;
    RunConcat(db, p + a, t);
    RunConcat(db, p, a);
  }

  /** In particular, it has what the master has if it executes just what the master executed. */
  lemma SlaveConverges(cap: nat, w: World)
    requires Reached(cap, w) && Settled(w) && w.sync <= |w.chunks| && w.reg <= |Sends(cap, w)|
    requires Executes(cap, w) == Since(w)
    ensures w.slave == Master(w)
  {
    hide Run, Leads, Settled, Snapshot, Master, Executes, Since, Sends;
    SettledState(cap, w);
  }

  /** If it misses the end, exactly if what it missed restores each key. */
  lemma CutExactly(cap: nat, w: World, missed: seq<Command>)
    requires Reached(cap, w) && Settled(w) && w.sync <= |w.chunks| && w.reg <= |Sends(cap, w)|
    requires Since(w) == Executes(cap, w) + missed
    ensures w.slave == Master(w) <==> forall e, k :: Restored(missed, e, k, At(w.slave, e, k))
  {
    hide Run, Leads, Settled, Restored, At, Snapshot, Master, Executes, Since, Sends;
    SettledState(cap, w);
    RunConcat(Snapshot(w), Executes(cap, w), missed);
    RunRestores(w.slave, missed);
  }

  /** Once the slave has closed the connection, its store never changes again. */
  lemma {:induction false} CutForGood(cap: nat, w: World, es: seq<Event>)
    requires w.cut && w.registered && w.phase == Connected && AfterAll(cap, w, es).Some?
    ensures var w' := AfterAll(cap, w, es).value; w'.cut && w'.slave == w.slave
    decreases |es|
  {
    hide Feed, Saved, StorableDb, Master, FrameOf, Loading, CanArrive;
    if es != [] {
      CutForGood(cap, Next(cap, w, es[0]).value, es[1..]);
    }
  }

  // ---- traffic that the agent hears ----

  /** All frames of the traffic that the agent forwards, and how many of them come before the snapshot. */
  ghost function Forwarded(w: World): seq<Str> { Changing(Cut(Stream(w.chunks))) }

  ghost function InSnapshot(w: World): nat
    requires w.sync <= |w.chunks|
  {
    |Changing(Cut(Stream(w.chunks[..w.sync])))|
  }

  /** The agent sends the slave exactly what comes behind the snapshot. */
  ghost predicate InTime(w: World) {
    w.sync <= |w.chunks| && (w.registered ==> w.reg == InSnapshot(w))
  }

  /** The agent has sent everything that it forwards. */
  ghost predicate SentAll(w: World) { w.seen == |w.chunks| && !w.agent.dead && w.agent.state.cached == [] }

  lemma SentIsForwarded(cap: nat, w: World)
    requires Inv(cap, w)
    ensures InOrder(w.agent.state) && w.agent.state.writes <= Changing(Cut(Stream(w.chunks[..w.seen])))
    ensures SentAll(w) ==> w.agent.state.sent == Sends(cap, w) == Forwarded(w)
  {
    hide SlaveOk, SnapshotOk, Drain, Changing, Cut;
    AllSent(cap, w);
    AgentCuts(cap, Stream(w.chunks[..w.seen]), START);
    RunInOrder(Stream(w.chunks[..w.seen]), START, cap);
    assert [] + Changing(Cut(Stream(w.chunks[..w.seen]))) == Changing(Cut(Stream(w.chunks[..w.seen])));
    if SentAll(w) {
      assert w.chunks[..w.seen] == w.chunks;
      assert w.agent.state.sent + [] == w.agent.state.sent;
    }
  }

  /** The agent heard what the master executed, when the snapshot was taken and now. */
  ghost predicate HeardAll(w: World) {
    w.sync <= |w.chunks| && Heard(w.chunks[..w.sync]) && Heard(w.chunks)
  }

  /** It is so at all times in orderly traffic, and so if clients take turns. */
  lemma OrderlyIsHeard(w: World)
    requires Orderly(w.chunks) && w.sync <= |w.chunks|
    ensures HeardAll(w)
  {
    hide Orderly, Cutting, Stream, Writes, CommandsOf, Cmds;
    OrderlyPrefix(w.chunks, w.sync);
    OrderlyHeard(w.chunks[..w.sync]);
    OrderlyHeard(w.chunks);
  }

  /** Cutting goes on where it stopped. */
  lemma ForwardedParts(cs: seq<Chunk>, n: nat)
    requires n <= |cs| && !Cutting(Stream(cs)).dead
    ensures Changing(Cut(Stream(cs[..n]))) <= Changing(Cut(Stream(cs)))
  {
    hide Changing, Cut, Cutting, Stream;
    var s := Stream(cs[..n]);
    var t := StreamRest(cs, n);
    var more := CutGoesOn(s, t);
    ChangingConcat(Cut(s), more);
  }

  lemma CutGoesOn(s: Str, t: Str) returns (more: seq<Str>)
    requires !Cutting(s + t).dead
    ensures Cut(s + t) == Cut(s) + more
  {
    assert !Cutting(s).dead by { DeadStays(s, t); }
    hide Cutting;
    CutMore(s, t);
    more := Cut(Cutting(s).rest + t);
  }

  lemma DeadStays(s: Str, t: Str)
    ensures Cutting(s).dead ==> Cutting(s + t).dead
  {
    hide Drain;
    DrainAppend(s, t, [], Collect);
  }

  /** Then the master's writes since the snapshot are those of the frames behind it. */
  lemma SinceIsForwarded(w: World)
    requires HeardAll(w)
    ensures InSnapshot(w) <= |Forwarded(w)| && Since(w) == Writes(Cmds(Forwarded(w)[InSnapshot(w)..]))
  {
    hide Changing, Cut, Cutting, Writes, Cmds, CommandsOf, Stream, Accepted;
    var cs, pre := w.chunks, w.chunks[..w.sync];
    ForwardedParts(cs, w.sync);
    WritesOfFrames(Cut(Stream(cs)));
    WritesOfFrames(Cut(Stream(pre)));
    var f, k := Forwarded(w), InSnapshot(w);
    CmdsSplit(f, k);
    WritesConcat(Cmds(f[..k]), Cmds(f[k..]));
    CommandsPrefix(cs, w.sync);
    var all, n := CommandsOf(cs), |CommandsOf(pre)|;
    assert all == CommandsOf(pre) + all[n..];
    WritesConcat(CommandsOf(pre), all[n..]);
    assert f[..k] == Changing(Cut(Stream(pre)));
    Cancel(Writes(CommandsOf(pre)), Writes(all[n..]), Writes(Cmds(f[k..])));
  }

  /** Frames that the agent forwards, and that are not refused, are writes. */
  lemma ForwardedAreWrites(w: World, lo: nat, hi: nat)
    requires lo <= hi <= |Forwarded(w)| && Accepted(Forwarded(w)[lo..hi])
    ensures Writes(Cmds(Forwarded(w)[lo..hi])) == Cmds(Forwarded(w)[lo..hi])
  {
    hide CommandOf;
    SliceOfChanging(Cut(Stream(w.chunks)), lo, hi);
    WritesOfFrames(Forwarded(w)[lo..hi]);
  }

  /** All that the agent forwards of forwarded frames is themselves. */
  lemma {:induction false} AllChange(fs: seq<Str>)
    requires forall i :: 0 <= i < |fs| ==> Changes(fs[i])
    ensures Changing(fs) == fs
  {
    hide Changes;
    if fs != [] {
      AllChange(fs[1..]);
    }
  }

  lemma {:induction false} ChangingChange(fs: seq<Str>)
    ensures forall i :: 0 <= i < |Changing(fs)| ==> Changes(Changing(fs)[i])
  {
    hide Changes;
    if fs != [] {
      ChangingChange(fs[1..]);
    }
  }

  lemma SliceOfChanging(fs: seq<Str>, lo: nat, hi: nat)
    requires lo <= hi <= |Changing(fs)|
    ensures Changing(Changing(fs)[lo..hi]) == Changing(fs)[lo..hi]
  {
    hide Changes;
    ChangingChange(fs);
    AllChange(Changing(fs)[lo..hi]);
  }

  /** A SYNC, and then nothing that ends the full sync: the agent sends nothing. */
  lemma SyncQuiet(cap: nat, st: AgentState, u: Str)
    requires forall f :: f in Cut(u) ==> !EndsSync(f)
    ensures Drain(FrameOf([SYNC]) + u, st, Step(cap)).state.sent == st.sent
  {
    hide FrameOf, Parse, CommandWord, Drain;
    SyncFrame(u);
    var s, n := FrameOf([SYNC]) + u, |FrameOf([SYNC])|;
    DrainOne(s, st, Step(cap));
    assert s[..n] == FrameOf([SYNC]) && s[n..] == u;
    if Handle(cap, st, FrameOf([SYNC])).Some? {
      HandleByKind(cap, st, FrameOf([SYNC]));
      FullSyncQuiet(cap, u, st.(mode := FullSync));
    }
  }

  lemma SyncFrame(u: Str)
    ensures var f := FrameOf([SYNC]); f != [] && Parse(f + u) == Frame(|Head(|Body([SYNC])|)|, |f|)
    ensures CommandWord(FrameOf([SYNC])) == Some(SYNC)
  {
    assert FrameOf([SYNC]) != [];
    var c: Command := [SYNC];
    assert c[1..] == [];
    assert Dec(4) == [52] && Encode(c) == EncodeToken(SYNC) + Encode([]) == EncodeToken(SYNC);
    assert |Body(c)| == 9 && Dec(9) == [57];
    hide Dec, Parse;
    FrameCommand(c, u);
    FrameParsed(c, u);
    WordOfCommand(FrameOf(c));
  }

  /** What the agent sees from the SYNC on, up to chunk n. */
  lemma QuietUpTo(cap: nat, w: World, n: nat, u: Str)
    requires Inv(cap, w) && w.phase != Idle && w.sync < n <= |w.chunks|
    requires Stream(w.chunks[..n]) == Stream(w.chunks[..w.sync]) + (FrameOf([SYNC]) + u) && forall f :: f in Cut(u) ==> !EndsSync(f)
    requires var at := Drain(Stream(w.chunks[..w.sync]), START, Step(cap)); !at.dead && at.rest == []
    ensures Drain(Stream(w.chunks[..n]), START, Step(cap)).state.sent == Drain(Stream(w.chunks[..w.sync]), START, Step(cap)).state.sent
  {
    hide Drain, FrameOf, Stream, Inv, Cut;
    var s, t := Stream(w.chunks[..w.sync]), FrameOf([SYNC]) + u;
    DrainAppend(s, t, START, Step(cap));
    assert [] + t == t;
    SyncQuiet(cap, Drain(s, START, Step(cap)).state, u);
  }

  /** The bytes of the chunks between two. */
  ghost function BytesOf(cs: seq<Chunk>, lo: nat, hi: nat): Str
    requires lo <= hi <= |cs|
  {
    Stream(cs[lo..hi])
  }

  lemma {:induction false} StreamConcat(a: seq<Chunk>, b: seq<Chunk>)
    ensures Stream(a + b) == Stream(a) + Stream(b)
    decreases |b|
  {
    if b == [] {
      assert a + b == a;
    } else {
      var init, c := b[..|b| - 1], b[|b| - 1];
      assert (a + b)[..|a + b| - 1] == a + init && (a + b)[|a + b| - 1] == c;
      StreamConcat(a, init);
    }
  }

  lemma FromSync(cs: seq<Chunk>, sync: nat, n: nat)
    requires sync < n <= |cs|
    ensures Stream(cs[..n]) == Stream(cs[..sync]) + (cs[sync].bytes + BytesOf(cs, sync + 1, n))
  {
    hide Stream;
    var c := cs[sync];
    assert cs[..n] == cs[..sync] + ([c] + cs[sync + 1..n]);
    StreamConcat(cs[..sync], [c] + cs[sync + 1..n]);
    StreamConcat([c], cs[sync + 1..n]);
    assert Stream([c]) == c.bytes by { StreamMore([], c); assert [] + [c] == [c]; StreamNothing(); }
  }

  lemma StreamNothing()
    ensures Stream([]) == []
  {}

  /** What is cut from fewer chunks is cut from more. */
  lemma FewerFrames(cs: seq<Chunk>, lo: nat, mid: nat, hi: nat)
    requires lo <= mid <= hi <= |cs|
    ensures forall f :: f in Cut(BytesOf(cs, lo, mid)) ==> f in Cut(BytesOf(cs, lo, hi))
  {
    hide Stream, Drain;
    assert cs[lo..hi] == cs[lo..mid] + cs[mid..hi];
    StreamConcat(cs[lo..mid], cs[mid..hi]);
    var s, t := Stream(cs[lo..mid]), Stream(cs[mid..hi]);
    DrainAppend(s, t, [], Collect);
    if !Cutting(s).dead {
      CollectAfter(Cutting(s).rest + t, Cut(s));
    }
  }

  /**
   * A slave gets exactly what comes behind its snapshot if the agent was between frames and in no full sync
   * when the slave's SYNC arrived, has handled the SYNC, and has seen nothing that ends the full sync yet.
   */
  lemma RegisteredInTime(cap: nat, w: World, reg: nat, w': World)
    requires Reached(cap, w) && Next(cap, w, Register(reg)) == Some(w') && w.sync < w.seen <= |w.chunks|
    requires var at := Drain(Stream(w.chunks[..w.sync]), START, Step(cap));
      !at.dead && at.rest == [] && at.state.mode != FullSync
    requires forall f :: f in Cut(BytesOf(w.chunks, w.sync + 1, w.seen)) ==> !EndsSync(f)
    ensures InTime(w')
  {
    hide Drain, Changing, Cut, Stream, Leads, FrameOf, BytesOf, SnapshotOk, SlaveOk, InOrder;
    ReachedInv(cap, w);
    SyncChunk(w);
    var s, n := Stream(w.chunks[..w.sync]), w.seen;
    FromSync(w.chunks, w.sync, n);
    QuietUpTo(cap, w, n, BytesOf(w.chunks, w.sync + 1, n));
    if n - 1 > w.sync {
      FromSync(w.chunks, w.sync, n - 1);
      FewerFrames(w.chunks, w.sync + 1, n - 1, n);
      QuietUpTo(cap, w, n - 1, BytesOf(w.chunks, w.sync + 1, n - 1));
    }
    SentBySync(cap, s);
  }

  lemma SyncChunk(w: World)
    requires SlaveOk(w) && w.phase != Idle
    ensures w.sync < |w.chunks| && w.chunks[w.sync].bytes == FrameOf([SYNC])
  {}

  /** Outside of a full sync the agent has sent all that it forwards. */
  lemma SentBySync(cap: nat, s: Str)
    requires var at := Drain(s, START, Step(cap)); !at.dead && at.state.mode != FullSync
    ensures Drain(s, START, Step(cap)).state.sent == Changing(Cut(s))
  {
    hide Drain, Changing, Cut;
    RunInOrder(s, START, cap);
    AgentCuts(cap, s, START);
    var st := Drain(s, START, Step(cap)).state;
    assert [] + Changing(Cut(s)) == Changing(Cut(s)) && st.sent + [] == st.sent;
  }

  /** If the slave executed what the master executed first, it has the master's store after some command. */
  lemma FollowsPrefix(w: World, done: seq<Command>) returns (p: nat)
    requires w.sync <= |w.chunks| && done <= Since(w)
    ensures |CommandsOf(w.chunks[..w.sync])| <= p <= |CommandsOf(w.chunks)|
    ensures Run(Snapshot(w), done) == Run(EMPTY, CommandsOf(w.chunks)[..p])
  {
    hide Run, CommandsOf, Writes;
    CommandsPrefix(w.chunks, w.sync);
    var all, pre := CommandsOf(w.chunks), CommandsOf(w.chunks[..w.sync]);
    var tail := all[|pre|..];
    assert Since(w) == Writes(tail) && done == Writes(tail)[..|done|];
    var q := WritesPrefix(tail, |done|);
    p := |pre| + q;
    RunWrites(Snapshot(w), tail[..q]);
    assert all[..p] == pre + tail[..q];
    RunConcat(EMPTY, pre, tail[..q]);
  }

  /** What a slave in time has executed is what the master executed first. */
  lemma ExecutedFirst(cap: nat, w: World)
    requires Inv(cap, w) && HeardAll(w) && InTime(w) && w.registered
    ensures w.reg + w.applied <= |w.agent.state.sent| && Cmds(w.agent.state.sent[w.reg..w.reg + w.applied]) <= Since(w)
  {
    hide AgentOk, SnapshotOk, Drain, Changing, Cut, Stream, HeardAll, Cmds, Writes, Run, Accepted, CommandOf, CommandsOf, StoreAt;
    SentIsForwarded(cap, w);
    assert w.seen <= |w.chunks| by { SeenBound(cap, w); }
    assert !Cutting(Stream(w.chunks)).dead by { HeardAlive(w); }
    ForwardedParts(w.chunks, w.seen);
    SinceIsForwarded(w);
    var f, k, n := Forwarded(w), InSnapshot(w), w.applied;
    assert w.agent.state.sent <= w.agent.state.writes <= f;
    assert w.agent.state.sent[w.reg..w.reg + n] == f[k..k + n];
    ForwardedAreWrites(w, k, k + n);
    CmdsSplit(f[k..], n);
    assert f[k..][..n] == f[k..k + n];
    WritesConcat(Cmds(f[k..k + n]), Cmds(f[k..][n..]));
  }

  lemma HeardAlive(w: World)
    requires HeardAll(w)
    ensures !Cutting(Stream(w.chunks)).dead
  {}

  lemma SeenBound(cap: nat, w: World)
    requires AgentOk(cap, w)
    ensures w.seen <= |w.chunks|
  {}

  /** From loading the snapshot on, a slave in time has the master's store after some prefix of its commands. */
  lemma SlaveFollows(cap: nat, w: World) returns (p: nat)
    requires Reached(cap, w) && w.phase in {Loaded, Connected} && HeardAll(w) && InTime(w)
    ensures |CommandsOf(w.chunks[..w.sync])| <= p <= |CommandsOf(w.chunks)| && w.slave == Run(EMPTY, CommandsOf(w.chunks)[..p])
  {
    hide AgentOk, SnapshotOk, HeardAll, InTime, Cmds, Since, Run, Accepted, CommandOf, CommandsOf, StoreAt, Leads;
    ReachedInv(cap, w);
    var done: seq<Command> := [];
    if w.registered {
      ExecutedFirst(cap, w);
      done := Cmds(w.agent.state.sent[w.reg..w.reg + w.applied]);
    } else {
      RunNothing(w.slave);
    }
    p := FollowsPrefix(w, done);
  }

  /** The frames behind the snapshot. */
  ghost function Behind(w: World): seq<Str>
    requires w.sync <= |w.chunks| && InSnapshot(w) <= |Forwarded(w)|
  {
    Forwarded(w)[InSnapshot(w)..]
  }

  lemma HeardSends(cap: nat, w: World)
    requires Reached(cap, w) && Settled(w) && SentAll(w) && HeardAll(w)
    ensures w.sync <= |w.chunks| && InSnapshot(w) <= |Forwarded(w)|
    ensures w.reg <= |Sends(cap, w)| && Sends(cap, w) == Forwarded(w) && Since(w) == Writes(Cmds(Behind(w)))
  {
    hide Inv, HeardAll, Settled, Cmds, Run, Leads, Forwarded, Sends, Writes, InSnapshot, Since, SentAll, Accepted, Executes, Snapshot, Master;
    ReachedInv(cap, w);
    SentIsForwarded(cap, w);
    SettledState(cap, w);
    SinceIsForwarded(w);
  }

  /** In time: the slave executes what the master executed, up to the first frame that is refused. */
  lemma InTimeLists(cap: nat, w: World)
    requires w.sync <= |w.chunks| && w.reg == InSnapshot(w) <= |Forwarded(w)| && Sends(cap, w) == Forwarded(w)
    ensures ForSlave(cap, w) == Behind(w)
    ensures Writes(Cmds(Behind(w))) == Executes(cap, w) + Writes(Cmds(Behind(w)[FirstRefused(Behind(w))..]))
  {
    hide Cmds, Accepted, CommandOf, FirstRefused, Forwarded, Sends, Writes, InSnapshot;
    var fs, k := Behind(w), InSnapshot(w);
    var n := FirstRefused(fs);
    FirstRefusedBound(fs);
    CmdsSplit(fs, n);
    WritesConcat(Cmds(fs[..n]), Cmds(fs[n..]));
    assert fs[..n] == Forwarded(w)[k..k + n];
    ForwardedAreWrites(w, k, k + n);
  }

  /**
   * If the agent heard all, with everything sent, a slave in time is cut off exactly if a forwarded frame is
   * refused; it has the master's store if none is, and in any case exactly if the writes from the
   * refused frame on restore each key.
   */
  lemma InTimeExactly(cap: nat, w: World)
    requires Reached(cap, w) && Settled(w) && SentAll(w) && HeardAll(w) && InTime(w)
    ensures InSnapshot(w) <= |Forwarded(w)|
    ensures w.cut <==> !Accepted(Behind(w))
    ensures Accepted(Behind(w)) ==> w.slave == Master(w)
    ensures var missed := Writes(Cmds(Behind(w)[FirstRefused(Behind(w))..]));
      w.slave == Master(w) <==> forall e, k :: Restored(missed, e, k, At(w.slave, e, k))
  {
    hide HeardAll, Cmds, Since, Run, Accepted, CommandOf, Restored, At, Master, FirstRefused, Leads, Forwarded, Sends, Writes,
      InSnapshot, Executes, SentAll, Snapshot, ForSlave, Behind;
    HeardSends(cap, w);
    InTimeLists(cap, w);
    SettledState(cap, w);
    var fs := Behind(w);
    var n := FirstRefused(fs);
    CutExactly(cap, w, Writes(Cmds(fs[n..])));
    if Accepted(fs) {
      FirstRefusedBound(fs);
      assert fs[n..] == [];
      NoWrites();
      assert Executes(cap, w) + [] == Executes(cap, w);
      SlaveConverges(cap, w);
    }
  }

  /** In particular: clients take turns, the slave is in time, and no frame behind its snapshot is refused. */
  lemma TurnsConverge(cap: nat, w: World)
    requires Reached(cap, w) && Settled(w) && SentAll(w) && InTime(w) && Turns(w.chunks)
    ensures InSnapshot(w) <= |Forwarded(w)| && (Accepted(Behind(w)) ==> !w.cut && w.slave == Master(w))
  {
    hide Turns, Orderly, HeardAll, Leads, Settled, SentAll, Master, Accepted, Forwarded, InSnapshot, Behind, Restored;
    var j := TurnsAreOrderly(w.chunks);
    OrderlyIsHeard(w);
    InTimeExactly(cap, w);
  }

  lemma AllAccepted(fs: seq<Str>)
    requires Accepted(fs)
    ensures FirstRefused(fs) == |fs| && fs[..|fs|] == fs
  {
    hide CommandOf;
    FirstRefusedBound(fs);
  }

  /** Early: it first executes again what the snapshot has already. */
  lemma EarlyLists(cap: nat, w: World)
    requires w.sync <= |w.chunks| && w.reg <= InSnapshot(w) <= |Forwarded(w)| && Sends(cap, w) == Forwarded(w)
    requires Accepted(ForSlave(cap, w))
    ensures Executes(cap, w) == Cmds(Forwarded(w)[w.reg..InSnapshot(w)]) + Writes(Cmds(Behind(w)))
  {
    hide Cmds, Accepted, CommandOf, FirstRefused, Forwarded, Sends, Writes, InSnapshot;
    var f, k := Forwarded(w), InSnapshot(w);
    var fs, n := ForSlave(cap, w), k - w.reg;
    AllAccepted(fs);
    assert fs[n..] == f[k..] == f[k..|f|] && fs[..n] == f[w.reg..k] && fs[..n] + fs[n..] == fs;
    AcceptedConcat(fs[..n], fs[n..]);
    ForwardedAreWrites(w, k, |f|);
    CmdsSplit(fs, n);
  }

  /**
   * Registered too early: the slave executes again what its snapshot has already. It converges exactly if,
   * under each key, what the repeated commands make of the snapshot's value agrees with the value.
   */
  lemma EarlyExactly(cap: nat, w: World)
    requires Reached(cap, w) && Settled(w) && SentAll(w) && !w.cut && HeardAll(w)
    requires w.sync <= |w.chunks| && w.reg <= InSnapshot(w)
    ensures InSnapshot(w) <= |Forwarded(w)|
    ensures var again := Cmds(Forwarded(w)[w.reg..InSnapshot(w)]);
      w.slave == Master(w) <==> forall e, k ::
        var x := At(Snapshot(w), e, k); Agree(Since(w), e, k, Fate(again, e, k, x), x)
  {
    hide HeardAll, Cmds, Since, Run, Accepted, CommandOf, Agree, Fate, At, Master, FirstRefused, Leads, Forwarded, Sends, Writes,
      InSnapshot, Executes, SentAll, Snapshot, ForSlave, Behind;
    HeardSends(cap, w);
    SettledState(cap, w);
    EarlyLists(cap, w);
    var again := Cmds(Forwarded(w)[w.reg..InSnapshot(w)]);
    assert [] + again + Since(w) == again + Since(w) && [] + [] + Since(w) == Since(w);
    SettledExactly(cap, w, [], again, [], Since(w));
    RunNothing(Snapshot(w));
    forall e, k ensures Fate([], e, k, At(Snapshot(w), e, k)) == At(Snapshot(w), e, k) { NoFate(e, k, At(Snapshot(w), e, k)); }
  }

  /** Late: it misses the first of what the master executed. */
  lemma LateLists(cap: nat, w: World)
    requires w.sync <= |w.chunks| && InSnapshot(w) <= w.reg <= |Forwarded(w)| && Sends(cap, w) == Forwarded(w)
    requires Accepted(ForSlave(cap, w))
    ensures Executes(cap, w) == Cmds(Forwarded(w)[w.reg..])
    ensures Writes(Cmds(Behind(w))) == Writes(Cmds(Forwarded(w)[InSnapshot(w)..w.reg])) + Cmds(Forwarded(w)[w.reg..])
  {
    hide Cmds, Accepted, CommandOf, FirstRefused, Forwarded, Sends, Writes, InSnapshot;
    var f, k := Forwarded(w), InSnapshot(w);
    AllAccepted(ForSlave(cap, w));
    assert ForSlave(cap, w) == f[w.reg..] == f[w.reg..|f|];
    ForwardedAreWrites(w, w.reg, |f|);
    CmdsSplit(f[k..], w.reg - k);
    assert f[k..][..w.reg - k] == f[k..w.reg] && f[k..][w.reg - k..] == f[w.reg..];
    WritesConcat(Cmds(f[k..w.reg]), Cmds(f[w.reg..]));
  }

  /**
   * Registered too late: the slave misses what was sent between its snapshot and its registration. It
   * converges exactly if, under each key, the snapshot's value agrees with what the missed commands make of it.
   */
  lemma LateExactly(cap: nat, w: World)
    requires Reached(cap, w) && Settled(w) && SentAll(w) && !w.cut && HeardAll(w)
    requires w.sync <= |w.chunks| && InSnapshot(w) <= w.reg
    ensures w.reg <= |Forwarded(w)|
    ensures var missed, rest := Writes(Cmds(Forwarded(w)[InSnapshot(w)..w.reg])), Cmds(Forwarded(w)[w.reg..]);
      w.slave == Master(w) <==> forall e, k ::
        var x := At(Snapshot(w), e, k); Agree(rest, e, k, x, Fate(missed, e, k, x))
  {
    hide HeardAll, Cmds, Since, Run, Accepted, CommandOf, Agree, Fate, At, Master, FirstRefused, Leads, Forwarded, Sends, Writes,
      InSnapshot, Executes, SentAll, Snapshot, ForSlave, Behind, Settled;
    HeardSends(cap, w);
    SettledState(cap, w);
    LateLists(cap, w);
    var missed, rest := Writes(Cmds(Forwarded(w)[InSnapshot(w)..w.reg])), Cmds(Forwarded(w)[w.reg..]);
    assert [] + missed + rest == missed + rest && [] + [] + rest == rest;
    SettledExactly(cap, w, [], [], missed, rest);
    RunNothing(Snapshot(w));
    forall e, k ensures Fate([], e, k, At(Snapshot(w), e, k)) == At(Snapshot(w), e, k) { NoFate(e, k, At(Snapshot(w), e, k)); }
  }

  /** In particular, an early slave converges if the repeated commands had all succeeded on the master. */
  lemma EarlySlaveConverges(cap: nat, w: World)
    requires Reached(cap, w) && Settled(w) && SentAll(w) && !w.cut && HeardAll(w)
    requires w.sync <= |w.chunks| && w.reg <= InSnapshot(w) <= |Forwarded(w)|
    requires Honest(Run(EMPTY, Cmds(Forwarded(w)[..w.reg])), Cmds(Forwarded(w)[w.reg..InSnapshot(w)]))
    ensures w.slave == Master(w)
  {
    hide HeardAll, Cmds, Since, Run, Honest, Master, Executes, Leads, Forwarded, Sends, InSnapshot, Snapshot, Settled, Accepted,
      Writes, ForSlave, Behind, SentAll;
    HeardSends(cap, w);
    SettledState(cap, w);
    EarlyLists(cap, w);
    var f, k := Forwarded(w), InSnapshot(w);
    var due, again := Run(EMPTY, Cmds(f[..w.reg])), Cmds(f[w.reg..k]);
    SnapshotIs(w);
    CmdsSplit(f[..k], w.reg);
    assert f[..k][..w.reg] == f[..w.reg] && f[..k][w.reg..] == f[w.reg..k];
    RunConcat(EMPTY, Cmds(f[..w.reg]), again);
    LogIdempotent(due, again);
    RunConcat(Snapshot(w), again, Since(w));
  }

  /** The snapshot is what the forwarded frames before it make. */
  lemma SnapshotIs(w: World)
    requires HeardAll(w)
    ensures InSnapshot(w) <= |Forwarded(w)| && Snapshot(w) == Run(EMPTY, Cmds(Forwarded(w)[..InSnapshot(w)]))
  {
    hide Cmds, Run, CommandsOf, Changing, Cut, Cutting, Stream, Writes, Accepted;
    ForwardedParts(w.chunks, w.sync);
    var pre := w.chunks[..w.sync];
    var fs := Cut(Stream(pre));
    assert Forwarded(w)[..InSnapshot(w)] == Changing(fs);
    WritesOfFrames(fs);
    RunWrites(EMPTY, CommandsOf(pre));
    RunWrites(EMPTY, Cmds(fs));
    RunWrites(EMPTY, Cmds(Changing(fs)));
  }

  /** And a late slave converges if the missed commands had all failed on the master. */
  lemma LateSlaveConverges(cap: nat, w: World)
    requires Reached(cap, w) && Settled(w) && SentAll(w) && !w.cut && HeardAll(w)
    requires w.sync <= |w.chunks| && InSnapshot(w) <= w.reg <= |Forwarded(w)|
    requires LogOf(Snapshot(w), Writes(Cmds(Forwarded(w)[InSnapshot(w)..w.reg]))) == []
    ensures w.slave == Master(w)
  {
    hide HeardAll, Cmds, Since, Run, LogOf, Agree, Fate, At, Master, Leads, Forwarded, InSnapshot, StoreAt, Settled, Writes;
    LateExactly(cap, w);
    var db, missed := Snapshot(w), Writes(Cmds(Forwarded(w)[InSnapshot(w)..w.reg]));
    var rest := Cmds(Forwarded(w)[w.reg..]);
    LogReplays(db, missed);
    assert Run(db, []) == db by { RunNothing(db); }
    forall e, k ensures Agree(rest, e, k, At(db, e, k), Fate(missed, e, k, At(db, e, k))) {
      AtRun(db, missed, e, k);
      AgreeSame(rest, e, k, At(db, e, k));
    }
  }

  lemma AgreeSame(cs: seq<Command>, e: Engine, k: Str, x: Option<Str>)
    ensures Agree(cs, e, k, x, x)
  {}
}
