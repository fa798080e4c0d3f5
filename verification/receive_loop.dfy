/** The receive loop of a connection: receive, grow, parse, split in place, execute, consume. */
module ReceiveLoop {
  import opened Bytes
  import opened Kv
  import opened Commands
  import opened Database
  import opened Kvsp
  import opened KvspCode
  import opened Framing
  import opened ServerReader
  import opened Recovery
  import Persistence
  import Server
  import SkipLevels

  const BUFFER_SIZE: nat := 4096

  /** The commands of a stream, frame by frame; a frame without one ends the connection. */
  ghost function Deliver(done: seq<Command>, frame: Str): Option<seq<Command>> {
    var c := CommandOf(frame);
    if c.None? then None else Some(done + [c.value])
  }

  /** Since the store was db and the log was log, cs were executed. */
  ghost predicate Executed(db: Db, log: seq<Command>, cs: seq<Command>, db': Db, log': seq<Command>) {
    db' == Run(db, cs) && log' == log + LogOf(db, cs)
  }

  lemma ExecutedMore(db: Db, log: seq<Command>, cs: seq<Command>, db': Db, log': seq<Command>, c: Command)
    requires Executed(db, log, cs, db', log')
    ensures Executed(db, log, cs + [c], Exec(db', c), if Logged(db', c) then log' + [c] else log')
  {
    var one: seq<Command> := [c];
    assert one[1..] == [];
    assert LogOf(db', one) == (if Logged(db', c) then [c] else []) + LogOf(Exec(db', c), []);
    hide Exec, Logged;
    RunConcat(db, cs, one);
    RunOne(db', c);
    LogOfConcat(db, cs, one);
  }

  lemma ExecutedNothing(db: Db, log: seq<Command>)
    ensures Executed(db, log, [], db, log)
  {}

  lemma ExecutedThen(db: Db, log: seq<Command>, a: seq<Command>, db': Db, log': seq<Command>, b: seq<Command>, db'': Db, log'': seq<Command>)
    requires Executed(db, log, a, db', log') && Executed(db', log', b, db'', log'')
    ensures Executed(db, log, a + b, db'', log'')
  {
    RunConcat(db, a, b);
    LogOfConcat(db, a, b);
  }

  /** Each command that the stream brings has a meaning on the store that it meets. */
  ghost predicate Meaningful(s: Str, db: Db) { Persistence.AllDefined(Persistence.Protocol, s, db) }

  /** The command of a stream's first frame can be executed, logged and sent on. */
  lemma FirstCommand(s: Str, db: Db)
    requires s != [] && Parse(s).Frame? && Meaningful(s, db)
    ensures var n := Parse(s).total; var c := CommandOf(s[..n]);
      c.Some? ==> Framed(c.value) && DefinedOn(db, c.value) && Meaningful(s[n..], Exec(db, c.value))
  {
    hide DefinedOn, Exec, CommandOf, Framed, Parse;
    var n := Parse(s).total;
    FrameAlone(s, Parse(s).head, n);
    if CommandOf(s[..n]).Some? {
      Reframed(s[..n], CommandOf(s[..n]).value);
    }
  }

  /** The first frame of a stream is that of every longer one. */
  lemma FirstFrame(s: Str, t: Str, db: Db)
    requires s != [] && Parse(s).Frame? && Meaningful(s + t, db)
    ensures var n := Parse(s).total; var c := CommandOf(s[..n]);
      0 < n <= |s| && (c.Some? ==> DefinedOn(db, c.value) && Meaningful(s[n..] + t, Exec(db, c.value)))
  {
    VerdictStable(s, t);
    hide Parse, DefinedOn, Exec, CommandOf;
    var n := Parse(s).total;
    assert (s + t)[..n] == s[..n] && (s + t)[n..] == s[n..] + t;
  }

  /** What is true of a stream is true of each prefix, */
  lemma {:induction false} MeaningfulPrefix(s: Str, t: Str, db: Db)
    requires Meaningful(s + t, db)
    ensures Meaningful(s, db)
    decreases |s|
  {
    hide DefinedOn, Exec, CommandOf, Parse;
    if s != [] && Parse(s).Frame? {
      FirstFrame(s, t, db);
      var n := Parse(s).total;
      if CommandOf(s[..n]).Some? {
        MeaningfulPrefix(s[n..], t, Exec(db, CommandOf(s[..n]).value));
      }
    }
  }

  /** and of what follows one. */
  lemma {:induction false} MeaningfulRest(s: Str, t: Str, db: Db, done: seq<Command>)
    requires Meaningful(s + t, db)
    ensures var d := Drain(s, done, Deliver); !d.dead ==> |done| <= |d.state| && Meaningful(d.rest + t, Run(db, d.state[|done|..]))
    decreases |s|
  {
    hide DefinedOn, Exec, CommandOf, Parse, Meaningful, Drain;
    if s == [] {
      DrainNothing(done, Deliver);
      assert done[|done|..] == [];
    } else {
      DrainOne(s, done, Deliver);
      if Parse(s).Frame? {
        FirstFrame(s, t, db);
        var c := CommandOf(s[..Parse(s).total]);
        if c.Some? {
          var rest, more := s[Parse(s).total..], done + [c.value];
          MeaningfulRest(rest, t, Exec(db, c.value), more);
          DeliverAfter(rest, more);
          RunFrom(db, c.value, Drain(rest, more, Deliver).state, |done|);
        }
      } else {
        assert done[|done|..] == [];
      }
    }
  }

  lemma RunFrom(db: Db, c: Command, cs: seq<Command>, n: nat)
    requires n < |cs| && cs[n] == c
    ensures Run(db, cs[n..]) == Run(Exec(db, c), cs[n + 1..])
  {
    assert cs[n..][1..] == cs[n + 1..];
  }

  /** What was handed over before stays, and makes no difference to the rest. */
  lemma {:induction false} DeliverAfter(s: Str, done: seq<Command>)
    ensures Drain(s, done, Deliver) == Drain(s, [], Deliver).(state := done + Drain(s, [], Deliver).state)
    decreases |s|
  {
    hide CommandOf, Parse, Drain;
    assert done + [] == done;
    if s == [] {
      DrainNothing(done, Deliver);
      DrainNothing<seq<Command>>([], Deliver);
    } else {
      DrainOne(s, done, Deliver);
      DrainOne(s, [], Deliver);
      if Parse(s).Frame? && CommandOf(s[..Parse(s).total]).Some? {
        var c, rest := CommandOf(s[..Parse(s).total]).value, s[Parse(s).total..];
        assert [] + [c] == [c];
        DeliverAfter(rest, done + [c]);
        DeliverAfter(rest, [c]);
        var later := Drain(rest, [], Deliver).state;
        assert (done + [c]) + later == done + ([c] + later);
      }
    }
  }

  datatype Protocol = Unknown | Resp | Kvsp

  class Connection {
    const server: Server.Server
    var rbuf: array<byte>
    var rCap: nat
    var rPos: nat
    var closed: bool
    var protocol: Protocol
    /** The commands executed for this connection, and every byte received so far. */
    ghost var done: seq<Command>
    ghost var received: Str

    ghost predicate Valid()
      reads this
    {
      rbuf.Length == rCap + 1 && rPos < rCap && BUFFER_SIZE <= rCap
    }

    /** The server is in order, and shares no memory with the connection. */
    ghost predicate Serving()
      reads this, server, server.db, server.db.repr
    {
      server.Consistent() && server.db.Valid() && rbuf !in server.db.repr && this !in server.db.repr
    }

    /** The bytes received and not consumed. */
    ghost function Pending(): Str
      reads this, rbuf
      requires Valid()
    {
      rbuf[..rPos]
    }

    ghost function State(): Drained<seq<Command>>
      reads this, rbuf
      requires Valid()
    {
      Drained(done, Pending(), closed)
    }

    /** What was executed and what is left depends on the bytes received, not on how they were cut. */
    ghost predicate Faithful()
      reads this, rbuf
    {
      && Valid() && (protocol == Unknown <==> received == []) && (received == [] ==> !closed)
      && (protocol != Resp ==> SameOutcome(State(), Drain(received, [], Deliver)))
    }

    constructor (server: Server.Server)
      requires server.Consistent()
      ensures Faithful() && Serving() && fresh(rbuf) && this.server == server
      ensures received == [] && done == [] && !closed && protocol == Unknown
    {
      hide Engines.Valid, Engines.State, LogBytes, AllFramed, Honest;
      this.server := server;
      rbuf := new byte[BUFFER_SIZE + 1];
      rCap, rPos, closed, protocol, done, received := BUFFER_SIZE, 0, false, Unknown, [], [];
    }

    /** Append what was received; one doubling of the buffer always makes room. */
    method Append(chunk: Str)
      requires Valid() && 0 < |chunk| <= BUFFER_SIZE
      modifies `rbuf, `rCap, `rPos, rbuf
      ensures Valid() && (rbuf == old(rbuf) || fresh(rbuf))
      ensures Pending() == old(Pending()) + chunk
      ensures rCap == if old(rPos) + |chunk| >= old(rCap) then 2 * old(rCap) else old(rCap)
    {
      if rPos + |chunk| >= rCap {
        var grown := new byte[2 * rCap + 1];
        forall i | 0 <= i < rPos {
          grown[i] := rbuf[i];
        }
        assert grown[..rPos] == rbuf[..rPos];
        rbuf := grown;
        rCap := 2 * rCap;
      }
      ghost var before := rbuf[..rPos];
      forall i | 0 <= i < |chunk| {
        rbuf[rPos + i] := chunk[i];
      }
      assert rbuf[..rPos + |chunk|] == before + chunk;
      rPos := rPos + |chunk|;
    }

    /** Drop the first n bytes. */
    method Consume(n: nat)
      requires Valid() && n <= rPos
      modifies `rPos, rbuf
      ensures Valid() && rPos == old(rPos) - n
      ensures Pending() == old(Pending()[n..])
    {
      ghost var rest := rbuf[n..rPos];
      rPos := rPos - n;
      forall i | 0 <= i < rPos {
        rbuf[i] := rbuf[i + n];
      }
      assert rbuf[..rPos] == rest;
    }

    /** Split the frame at the front; the byte after it is NUL meanwhile, and put back. */
    method SplitFrame(head: nat, total: nat) returns (c: Option<Command>)
      requires Valid() && 0 < total <= rPos && Parse(Pending()) == Frame(head, total)
      modifies rbuf
      ensures rbuf[total..rPos] == old(rbuf[total..rPos])
      ensures c == CommandOf(old(rbuf[..total]))
    {
      ghost var frame := rbuf[..total];
      FrameAlone(Pending(), head, total);
      assert Pending()[..total] == frame;
      var temp := rbuf[total];
      rbuf[total] := 0;
      assert rbuf[..total] == frame;
      c := ReadCommand(rbuf, head, total);
      rbuf[total] := temp;
    }

    /** Execute the command of the frame at the front; level is what the skip list would draw. */
    method HandleFrame(head: nat, total: nat, level: nat) returns (ok: bool)
      requires Valid() && 0 < total <= rPos && Parse(Pending()) == Frame(head, total)
      requires Serving() && Meaningful(Pending(), server.db.State()) && level < SkipLevels.MAX_LEVEL
      modifies `done, rbuf, server, server.db.repr
      ensures Serving() && fresh(server.db.repr - old(server.db.repr))
      ensures rbuf[total..rPos] == old(rbuf[total..rPos])
      ensures var c := CommandOf(old(rbuf[..total])); ok == c.Some? && done == if ok then old(done) + [c.value] else old(done)
      ensures if ok then
        var c := CommandOf(old(rbuf[..total])).value; var db := old(server.db.State());
        && server.db.State() == Exec(db, c) && server.log == (if Logged(db, c) then old(server.log) + [c] else old(server.log))
        && Meaningful(rbuf[total..rPos], server.db.State())
        else server.db.State() == old(server.db.State()) && server.log == old(server.log)
    {
      hide CommandOf, Parse, Meaningful, Exec, Logged, DefinedOn, Framed, Server.Server.Valid, Server.Server.Consistent, Engines.Valid, Engines.State;
      ghost var s := Pending();
      FirstCommand(s, server.db.State());
      assert s[..total] == rbuf[..total] && s[total..] == rbuf[total..rPos];
      var c := SplitFrame(head, total);
      if c.Some? {
        var reply := server.Execute(c.value, level);
        done := done + [c.value];
      }
      ok := c.Some?;
    }

    /** Execute and consume the frame at the front: 1 if there was one, 0 if more bytes are needed, -1 to give up. */
    method NextFrame(level: nat) returns (ret: int)
      requires Valid() && rPos > 0 && Serving() && Meaningful(Pending(), server.db.State()) && level < SkipLevels.MAX_LEVEL
      modifies `rPos, `done, rbuf, server, server.db.repr
      ensures Valid() && Serving() && fresh(server.db.repr - old(server.db.repr)) && -1 <= ret <= 1
      ensures ret <= 0 ==> done == old(done) && server.db.State() == old(server.db.State()) && server.log == old(server.log)
      ensures ret <= 0 ==> SameOutcome(Drained(done, Pending(), ret < 0), old(Drain(Pending(), done, Deliver)))
      ensures ret == 1 ==> rPos < old(rPos) && Drain(Pending(), done, Deliver) == old(Drain(Pending(), done, Deliver))
      ensures ret == 1 ==> Meaningful(Pending(), server.db.State()) && |done| == |old(done)| + 1 && old(done) <= done
      ensures ret == 1 ==> var c, db := done[|old(done)|], old(server.db.State());
        server.db.State() == Exec(db, c) && server.log == if Logged(db, c) then old(server.log) + [c] else old(server.log)
    {
      hide Drain, Parse, Deliver, CommandOf, Meaningful, Exec, Logged, Server.Server.Valid, Server.Server.Consistent, Engines.Valid, Engines.State;
      ghost var s, before := Pending(), done;
      DrainOne(s, done, Deliver);
      assert s == rbuf[0..rPos];
      var total, head := ParseBulkSize(rbuf, 0, rPos);
      if total <= 0 {
        return if total < 0 then -1 else 0;
      }
      assert s[..total] == rbuf[..total] && s[total..] == rbuf[total..rPos];
      var ok := HandleFrame(head, total, level);
      Delivered(before, s[..total]);
      if !ok {
        return -1;
      }
      assert Pending()[total..] == s[total..];
      Consume(total);
      return 1;
    }

    /** Execute every complete frame in the buffer; give up at a malformed or refused one. */
    method Process(level: nat -> nat)
      requires Valid() && !closed && Serving() && Meaningful(Pending(), server.db.State())
      requires forall i :: level(i) < SkipLevels.MAX_LEVEL
      modifies `rPos, `done, `closed, rbuf, server, server.db.repr
      ensures Valid() && Serving() && fresh(server.db.repr - old(server.db.repr))
      ensures SameOutcome(State(), old(Drain(Pending(), done, Deliver))) && old(done) <= done
      ensures Executed(old(server.db.State()), old(server.log), done[|old(done)|..], server.db.State(), server.log)
    {
      hide Drain, Parse, Deliver, Meaningful, Executed, Exec, Logged, Server.Server.Valid, Server.Server.Consistent, Engines.Valid, Engines.State;
      ghost var d, n := Drain(Pending(), done, Deliver), |done|;
      ghost var db, log := server.db.State(), server.log;
      ExecutedNothing(db, log);
      assert done[n..] == [];
      while rPos > 0
        invariant Valid() && !closed && Serving() && fresh(server.db.repr - old(server.db.repr))
        invariant Drain(Pending(), done, Deliver) == d && Meaningful(Pending(), server.db.State())
        invariant old(done) <= done && Executed(db, log, done[n..], server.db.State(), server.log)
        decreases rPos
      {
        ghost var before, db', log' := done, server.db.State(), server.log;
        var ret := NextFrame(level(rPos));
        if ret == 0 {
          return;
        }
        if ret < 0 {
          closed := true;
          return;
        }
        ExecutedMore(db, log, before[n..], db', log', done[|before|]);
        assert done[n..] == before[n..] + [done[|before|]];
      }
      assert Pending() == [];
      DrainNothing(done, Deliver);
    }

    /** The first byte of a connection tells the protocol. */
    method Recognise()
      requires Valid() && rPos > 0
      modifies `protocol, `closed
      ensures protocol == if old(protocol) != Unknown then old(protocol) else if rbuf[0] == 42 then Resp else Kvsp
      ensures closed <==> old(closed) || (old(protocol) == Unknown && rbuf[0] != 42 && rbuf[0] != HASH)
    {
      if protocol == Unknown {
        if rbuf[0] == 42 {
          protocol := Resp;
        } else if rbuf[0] == HASH {
          protocol := Kvsp;
        } else {
          protocol := Kvsp;
          closed := true;
        }
      }
    }

    /**
     * One pass of the receive loop, with what `recv` returned: the server goes from the store and the log
     * that it had to those that the commands of the chunk make of them.
     */
    method Receive(chunk: Str, level: nat -> nat)
      requires Faithful() && Serving() && !closed && 0 < |chunk| <= 4096
      requires Meaningful(Pending() + chunk, server.db.State()) && forall i :: level(i) < SkipLevels.MAX_LEVEL
      modifies this, rbuf, server, server.db.repr
      ensures Valid() && Faithful() && (rbuf == old(rbuf) || fresh(rbuf)) && received == old(received) + chunk
      ensures Serving() && fresh(server.db.repr - old(server.db.repr))
      ensures protocol == Resp <==> old(protocol) == Resp || (old(received) == [] && chunk[0] == 42)
      ensures old(done) <= done
      ensures Executed(old(server.db.State()), old(server.log), done[|old(done)|..], server.db.State(), server.log)
      ensures protocol != Resp ==> SameOutcome(State(), old(Drain(Pending() + chunk, done, Deliver)))
    {
      hide Drain, Deliver, Meaningful, Executed, Server.Server.Valid, Server.Server.Consistent, Engines.Valid, Engines.State;
      ghost var before := received;
      if protocol != Resp {
        Continues(before, chunk, State());
      }
      FirstByte(before, chunk);
      ExecutedNothing(server.db.State(), server.log);
      assert done[|done|..] == [];
      Append(chunk);
      received := received + chunk;
      Recognise();
      if protocol == Kvsp && !closed {
        Process(level);
      }
    }
  }

  /** Before the next chunk: the stream so far was executed, and its continuation has a meaning. */
  lemma NextChunk(stream: Str, received: Str, chunk: Str, later: Str, db: Db)
    requires stream == received + (chunk + later) && Meaningful(stream, db)
    ensures var d := Drain(received, [], Deliver); !d.dead ==> Meaningful(d.rest + chunk, Run(db, d.state))
  {
    hide Meaningful, Deliver, Drain, Run;
    MeaningfulRest(received, chunk + later, db, []);
    var d := Drain(received, [], Deliver);
    if !d.dead {
      assert d.state[0..] == d.state;
      assert d.rest + (chunk + later) == (d.rest + chunk) + later;
      MeaningfulPrefix(d.rest + chunk, later, Run(db, d.state));
    }
  }

  /**
   * A connection's whole life, for any stream in KVSP and however it is cut: the server's store becomes
   * what the stream's commands make of it, and its log grows by those of them that are logged.
   */
  method Serve(conn: Connection, chunks: seq<Str>, level: (nat, nat) -> nat)
    requires conn.Faithful() && conn.Serving() && conn.received == [] && conn.done == []
    requires forall i :: 0 <= i < |chunks| ==> 0 < |chunks[i]| <= 4096
    requires (chunks != [] ==> chunks[0][0] != 42) && Meaningful(Concat(chunks), conn.server.db.State())
    requires forall i, j :: level(i, j) < SkipLevels.MAX_LEVEL
    modifies conn, conn.rbuf, conn.server, conn.server.db.repr
    ensures conn.Faithful() && conn.Serving()
    ensures var d := Drain(Concat(chunks), [], Deliver);
      && conn.closed == d.dead && (!d.dead ==> conn.Pending() == d.rest)
      && Executed(old(conn.server.db.State()), old(conn.server.log), d.state, conn.server.db.State(), conn.server.log)
  {
    hide Drain, Deliver, Meaningful, Executed, Server.Server.Valid, Server.Server.Consistent, Engines.Valid, Engines.State;
    ghost var stream, db, log := Concat(chunks), conn.server.db.State(), conn.server.log;
    ExecutedNothing(db, log);
    var i := 0;
    while i < |chunks| && !conn.closed
      invariant i <= |chunks| && conn.Faithful() && conn.Serving() && conn.protocol != Resp
      invariant conn.received == [] ==> i == 0
      invariant fresh(conn.server.db.repr - old(conn.server.db.repr)) && (conn.rbuf == old(conn.rbuf) || fresh(conn.rbuf))
      invariant stream == conn.received + Concat(chunks[i..])
      invariant Executed(db, log, conn.done, conn.server.db.State(), conn.server.log)
    {
      ghost var done, db', log' := conn.done, conn.server.db.State(), conn.server.log;
      ghost var received, later := conn.received, Concat(chunks[i + 1..]);
      assert chunks[i..][1..] == chunks[i + 1..];
      NextChunk(stream, received, chunks[i], later, db);
      ExecutedIs(db, log, done, db', log');
      conn.Receive(chunks[i], j => level(i, j));
      ExecutedThen(db, log, done, db', log', conn.done[|done|..], conn.server.db.State(), conn.server.log);
      assert done + conn.done[|done|..] == conn.done;
      assert received + (chunks[i] + later) == (received + chunks[i]) + later;
      i := i + 1;
    }
    DrainAppend(conn.received, Concat(chunks[i..]), [], Deliver);
    if !conn.closed {
      assert chunks[i..] == [];
      assert conn.received + [] == conn.received;
    }
  }

  lemma ExecutedIs(db: Db, log: seq<Command>, cs: seq<Command>, db': Db, log': seq<Command>)
    requires Executed(db, log, cs, db', log')
    ensures db' == Run(db, cs)
  {}

  lemma Delivered(done: seq<Command>, frame: Str)
    ensures Deliver(done, frame) == if CommandOf(frame).None? then None else Some(done + [CommandOf(frame).value])
  {}

  /** A longer stream goes on from where the reader stands. */
  lemma Continues(before: Str, chunk: Str, d: Drained<seq<Command>>)
    requires SameOutcome(d, Drain(before, [], Deliver)) && !d.dead
    ensures Drain(before + chunk, [], Deliver) == Drain(d.rest + chunk, d.state, Deliver)
  {
    hide Drain, Deliver;
    DrainAppend(before, chunk, [], Deliver);
  }

  /** A stream that does not start like a frame is given up at once; an empty one leaves nothing. */
  lemma FirstByte(before: Str, chunk: Str)
    requires |chunk| > 0
    ensures before == [] ==> before + chunk == chunk && Drain(before, [], Deliver) == Drained([], [], false)
    ensures before == [] && chunk[0] != HASH ==> Drain(before + chunk, [], Deliver) == Drained([], chunk, true)
  {
    if before == [] {
      assert before + chunk == chunk;
    }
  }
}
