/** Several connections on one server, whose chunks arrive in any order. */
module Several {
  import opened Commands
  import opened Database
  import opened Framing
  import opened ReceiveLoop
  import opened Traffic
  import Server
  import SkipLevels

  /** What a connection has to do with the chunks received so far. */
  ghost predicate InStep(conn: Connection, i: nat, net: Net)
    reads conn, conn.rbuf
  {
    && conn.Valid() && conn.Faithful() && conn.protocol != Resp && (conn.received == [] <==> i !in net.rests)
    && (conn.closed <==> i in net.closed) && (!conn.closed ==> conn.Pending() == Rest(net, i))
  }

  /** No connection is another's, or part of the server. */
  ghost predicate Apart(conns: seq<Connection>, server: Server.Server)
    reads conns, server.db
  {
    && (forall i :: 0 <= i < |conns| ==> conns[i].server == server && conns[i].rbuf !in server.db.repr && conns[i] !in server.db.repr)
    && forall i, j :: 0 <= i < j < |conns| ==> conns[i] != conns[j] && conns[i].rbuf != conns[j].rbuf
  }

  ghost predicate AllInStep(conns: seq<Connection>, server: Server.Server, net: Net)
    reads conns, set c | c in conns :: c.rbuf
    reads server, server.db, server.db.repr
  {
    && server.Consistent() && server.db.Valid() && Apart(conns, server)
    && forall i :: 0 <= i < |conns| ==> InStep(conns[i], i, net)
  }

  /** Each chunk can be received in its turn, and its commands have a meaning. */
  ghost predicate AllReceivable(chunks: seq<Chunk>, conns: nat, db: Db) {
    forall n :: 0 <= n < |chunks| ==>
      var net := NetOf(chunks[..n]);
      && chunks[n].conn < conns && Receivable(net, chunks[n])
      && Meaningful(Rest(net, chunks[n].conn) + chunks[n].bytes, Run(db, CommandsOf(chunks[..n])))
  }

  /** One chunk on its connection. */
  method ReceiveHere(conn: Connection, server: Server.Server, c: Chunk, level: nat -> nat, ghost before: seq<Chunk>)
    requires conn.server == server && conn.Serving() && InStep(conn, c.conn, NetOf(before)) && Receivable(NetOf(before), c)
    requires Meaningful(Rest(NetOf(before), c.conn) + c.bytes, server.db.State()) && forall i :: level(i) < SkipLevels.MAX_LEVEL
    modifies conn, conn.rbuf, server, server.db.repr
    ensures InStep(conn, c.conn, NetOf(before + [c])) && conn.Serving() && fresh(server.db.repr - old(server.db.repr))
    ensures conn.rbuf == old(conn.rbuf) || fresh(conn.rbuf)
    ensures Executed(old(server.db.State()), old(server.log), Got(NetOf(before), c).state, server.db.State(), server.log)
  {
    hide Drain, NetOf, Meaningful, Executed, Connection.Faithful, Server.Server.Valid, Server.Server.Consistent, Engines.Valid, Engines.State;
    ghost var net, s, done := NetOf(before), conn.Pending(), conn.done;
    assert s == Rest(net, c.conn);
    DeliverAfter(s + c.bytes, done);
    conn.Receive(c.bytes, level);
    assert conn.done == done + Got(net, c).state;
    assert conn.done[|done|..] == Got(net, c).state;
    OneChunk(before, c);
  }

  /** A chunk makes no difference to other connections. */
  lemma Elsewhere(conn: Connection, i: nat, cs: seq<Chunk>, c: Chunk)
    requires InStep(conn, i, NetOf(cs)) && i != c.conn
    ensures InStep(conn, i, NetOf(cs + [c]))
  {
    hide NetOf, Got, Drain;
    OneChunk(cs, c);
  }

  /** The other connections are not touched. */
  method ReceiveOn(conns: seq<Connection>, server: Server.Server, c: Chunk, level: nat -> nat, ghost before: seq<Chunk>)
    requires AllInStep(conns, server, NetOf(before)) && c.conn < |conns| && Receivable(NetOf(before), c)
    requires Meaningful(Rest(NetOf(before), c.conn) + c.bytes, server.db.State()) && forall i :: level(i) < SkipLevels.MAX_LEVEL
    modifies conns[c.conn], conns[c.conn].rbuf, server, server.db.repr
    ensures AllInStep(conns, server, NetOf(before + [c])) && fresh(server.db.repr - old(server.db.repr))
    ensures forall i :: 0 <= i < |conns| ==> conns[i].rbuf == old(conns[i].rbuf) || fresh(conns[i].rbuf)
    ensures Executed(old(server.db.State()), old(server.log), Got(NetOf(before), c).state, server.db.State(), server.log)
  {
    hide InStep, NetOf, Rest, Meaningful, Executed, Got, Receivable, Server.Server.Valid, Server.Server.Consistent,
      Engines.Valid, Engines.State;
    ReceiveHere(conns[c.conn], server, c, level, before);
    forall i | 0 <= i < |conns| && i != c.conn ensures InStep(conns[i], i, NetOf(before + [c])) {
      Elsewhere(conns[i], i, before, c);
    }
  }

  /**
   * Any number of connections, all new, and any order in which their chunks arrive: the server's store
   * becomes the run of `CommandsOf(chunks)`, its log grows by the log of that run, and each connection has
   * left over what `NetOf(chunks)` says.
   */
  method ServeAll(conns: seq<Connection>, server: Server.Server, chunks: seq<Chunk>, level: (nat, nat) -> nat)
    requires AllInStep(conns, server, NetOf([])) && AllReceivable(chunks, |conns|, server.db.State())
    requires forall i, j :: level(i, j) < SkipLevels.MAX_LEVEL
    modifies conns, set c | c in conns :: c.rbuf
    modifies server, server.db.repr
    ensures AllInStep(conns, server, NetOf(chunks))
    ensures Executed(old(server.db.State()), old(server.log), CommandsOf(chunks), server.db.State(), server.log)
  {
    hide Drain, NetOf, CommandsOf, Meaningful, Executed, Got, Server.Server.Valid, Server.Server.Consistent, Engines.Valid, Engines.State,
      InStep, Receivable;
    ghost var db, log := server.db.State(), server.log;
    ExecutedNothing(db, log);
    NothingReceived();
    assert chunks[..0] == [];
    for n := 0 to |chunks|
      invariant AllInStep(conns, server, NetOf(chunks[..n])) && fresh(server.db.repr - old(server.db.repr))
      invariant forall i :: 0 <= i < |conns| ==> conns[i].rbuf == old(conns[i].rbuf) || fresh(conns[i].rbuf)
      invariant Executed(db, log, CommandsOf(chunks[..n]), server.db.State(), server.log)
    {
      ghost var db', log' := server.db.State(), server.log;
      ExecutedIs(db, log, CommandsOf(chunks[..n]), db', log');
      ReceiveOn(conns, server, chunks[n], j => level(n, j), chunks[..n]);
      OneChunk(chunks[..n], chunks[n]);
      ExecutedThen(db, log, CommandsOf(chunks[..n]), db', log', Got(NetOf(chunks[..n]), chunks[n]).state, server.db.State(), server.log);
      assert chunks[..n + 1] == chunks[..n] + [chunks[n]];
    }
    assert chunks[..|chunks|] == chunks;
  }

  lemma NothingReceived()
    ensures CommandsOf([]) == []
  {}
}
