/** What a server makes of chunks from several connections, and what an agent makes of the same bytes. */
module Traffic {
  import opened Bytes
  import opened Kv
  import opened Kvsp
  import opened Commands
  import opened Framing
  import opened ServerReader
  import opened ReceiveLoop
  import opened Agent

  /** What one call of `recv` returned, on one of the connections. */
  datatype Chunk = Chunk(conn: nat, bytes: Str)

  // ---- the server: each connection has its buffer ----

  /** The bytes left over on each connection that has received any, and the connections that were closed. */
  datatype Net = Net(rests: map<nat, Str>, closed: set<nat>)

  function Rest(net: Net, i: nat): Str { if i in net.rests then net.rests[i] else [] }

  /** What becomes of a chunk: the commands executed, the bytes left over, and whether the connection was given up. */
  ghost function Got(net: Net, c: Chunk): Drained<seq<Command>> {
    Drain(Rest(net, c.conn) + c.bytes, [], Deliver)
  }

  ghost function NetOf(cs: seq<Chunk>): Net
    decreases |cs|
  {
    if cs == [] then Net(map[], {})
    else
      var net, c := NetOf(cs[..|cs| - 1]), cs[|cs| - 1];
      var d := Got(net, c);
      Net(net.rests[c.conn := if d.dead then [] else d.rest], if d.dead then net.closed + {c.conn} else net.closed)
  }

  /** The commands that the server executes, in order; what stands behind a refused frame is dropped. */
  ghost function CommandsOf(cs: seq<Chunk>): seq<Command>
    decreases |cs|
  {
    if cs == [] then [] else CommandsOf(cs[..|cs| - 1]) + Got(NetOf(cs[..|cs| - 1]), cs[|cs| - 1]).state
  }

  /** A chunk that can be received, on an open or a new connection; one that starts with `*` would be RESP. */
  ghost predicate Receivable(net: Net, c: Chunk) {
    0 < |c.bytes| <= BUFFER_SIZE && c.conn !in net.closed && (c.conn !in net.rests ==> c.bytes[0] != 42)
  }

  lemma OneChunk(cs: seq<Chunk>, c: Chunk)
    ensures var net, d := NetOf(cs), Got(NetOf(cs), c);
      && NetOf(cs + [c]) == Net(net.rests[c.conn := if d.dead then [] else d.rest], if d.dead then net.closed + {c.conn} else net.closed)
      && CommandsOf(cs + [c]) == CommandsOf(cs) + d.state
  {
    hide Got;
    assert (cs + [c])[..|cs|] == cs;
  }

  lemma {:induction false} CommandsPrefix(cs: seq<Chunk>, n: nat)
    requires n <= |cs|
    ensures CommandsOf(cs[..n]) <= CommandsOf(cs)
    decreases |cs|
  {
    hide Got;
    if n < |cs| {
      var init := cs[..|cs| - 1];
      assert init[..n] == cs[..n];
      CommandsPrefix(init, n);
    } else {
      assert cs[..n] == cs;
    }
  }

  // ---- the agent: one buffer for all ----

  /** All bytes in the order of their arrival. */
  ghost function Stream(cs: seq<Chunk>): Str
    decreases |cs|
  {
    if cs == [] then [] else Stream(cs[..|cs| - 1]) + cs[|cs| - 1].bytes
  }

  lemma StreamMore(cs: seq<Chunk>, c: Chunk)
    ensures Stream(cs + [c]) == Stream(cs) + c.bytes
  {
    assert (cs + [c])[..|cs|] == cs;
  }

  lemma {:induction false} StreamPrefix(cs: seq<Chunk>, n: nat)
    requires n <= |cs|
    ensures Stream(cs[..n]) <= Stream(cs)
    decreases |cs|
  {
    if n < |cs| {
      var init := cs[..|cs| - 1];
      assert init[..n] == cs[..n];
      StreamPrefix(init, n);
    } else {
      assert cs[..n] == cs;
    }
  }

  lemma StreamRest(cs: seq<Chunk>, n: nat) returns (t: Str)
    requires n <= |cs|
    ensures Stream(cs) == Stream(cs[..n]) + t
  {
    hide Stream;
    StreamPrefix(cs, n);
    t := Stream(cs)[|Stream(cs[..n])|..];
  }

  ghost function Collect(fs: seq<Str>, f: Str): Option<seq<Str>> { Some(fs + [f]) }

  /** A stream cut into frames: the frames, the bytes left over, and whether they can become no frame. */
  ghost function Cutting(s: Str): Drained<seq<Str>> { Drain(s, [], Collect) }

  ghost function Cut(s: Str): seq<Str> { Cutting(s).state }

  lemma {:induction false} CollectAfter(s: Str, fs: seq<Str>)
    ensures Drain(s, fs, Collect) == Cutting(s).(state := fs + Cut(s))
    decreases |s|
  {
    hide Parse, Drain;
    assert fs + [] == fs;
    if s == [] {
      DrainNothing(fs, Collect);
      DrainNothing<seq<Str>>([], Collect);
    } else {
      DrainOne(s, fs, Collect);
      DrainOne(s, [], Collect);
      if Parse(s).Frame? {
        var n := Parse(s).total;
        assert [] + [s[..n]] == [s[..n]];
        CollectAfter(s[n..], fs + [s[..n]]);
        CollectAfter(s[n..], [s[..n]]);
        assert (fs + [s[..n]]) + Cut(s[n..]) == fs + ([s[..n]] + Cut(s[n..]));
      }
    }
  }

  /** A longer stream is cut where the shorter one was, and goes on from what was left over. */
  lemma CutMore(s: Str, t: Str)
    requires !Cutting(s).dead
    ensures Cutting(s + t) == Cutting(Cutting(s).rest + t).(state := Cut(s) + Cut(Cutting(s).rest + t))
  {
    hide Drain;
    DrainAppend(s, t, [], Collect);
    CollectAfter(Cutting(s).rest + t, Cut(s));
  }

  // ---- a frame to the server, to the agent and to a slave ----

  /** The command in a frame, and the empty one, which does nothing, for a frame that is refused. */
  function Cmd(f: Str): Command { if CommandOf(f).None? then [] else CommandOf(f).value }

  function Cmds(fs: seq<Str>): (cs: seq<Command>)
    ensures |cs| == |fs| && forall i :: 0 <= i < |fs| ==> cs[i] == Cmd(fs[i])
  {
    seq(|fs|, i requires 0 <= i < |fs| => Cmd(fs[i]))
  }

  lemma CmdsConcat(a: seq<Str>, b: seq<Str>)
    ensures Cmds(a + b) == Cmds(a) + Cmds(b)
  {
    hide Cmd;
  }

  lemma CmdsSplit(fs: seq<Str>, n: nat)
    requires n <= |fs|
    ensures Cmds(fs) == Cmds(fs[..n]) + Cmds(fs[n..])
  {
    hide Cmd;
  }

  lemma CmdsOne(f: Str)
    ensures Cmds([f]) == [Cmd(f)]
  {}

  /** None of the frames is refused. */
  predicate Accepted(fs: seq<Str>) { forall i :: 0 <= i < |fs| ==> CommandOf(fs[i]).Some? }

  /** A complete frame, and nothing else. */
  predicate Alone(f: Str) { f != [] && Parse(f).Frame? && Parse(f).total == |f| }

  /**
   * As long as no frame is refused, a connection's commands are those of the frames in its bytes; a refused
   * frame does no harm if it comes last.
   */
  lemma {:induction false} DeliverCuts(s: Str)
    ensures var d := Drain(s, [], Deliver);
      && (!d.dead ==> d.state == Cmds(Cut(s)) && d.rest == Cutting(s).rest && !Cutting(s).dead)
      && (d.dead && Alone(d.rest) ==> d.state + [[]] == Cmds(Cut(s)) && Cutting(s).rest == [] && !Cutting(s).dead)
    decreases |s|
  {
    hide Parse, CommandOf, Drain;
    if s == [] {
      DrainNothing<seq<Command>>([], Deliver);
      DrainNothing<seq<Str>>([], Collect);
    } else {
      DrainOne(s, [], Deliver);
      DrainOne(s, [], Collect);
      if Parse(s).Frame? {
        var n := Parse(s).total;
        var f := s[..n];
        assert [] + [f] == [f] && [] + [Cmd(f)] == [Cmd(f)];
        CollectAfter(s[n..], [f]);
        if CommandOf(f).Some? {
          DeliverCuts(s[n..]);
          DeliverAfter(s[n..], [Cmd(f)]);
          CmdsConcat([f], Cut(s[n..]));
          CmdsOne(f);
        } else if Alone(s) {
          assert f == s && s[n..] == [];
          DrainNothing<seq<Str>>([], Collect);
          CmdsOne(f);
          assert [f] + [] == [f];
        }
      } else {
        assert !Alone(s);
      }
    }
  }

  // ---- writes ----

  /** The agent reads only the first token; where there is a command, that is its word. */
  lemma WordOfCommand(f: Str)
    requires CommandOf(f).Some?
    ensures CommandOf(f).value != [] && CommandWord(f) == Some(CommandOf(f).value[0])
  {
    hide Parse, FirstToken;
  }

  /** The frames that the agent forwards. */
  predicate Changes(f: Str) { CommandWord(f).Some? && IsWrite(CommandWord(f).value) }

  ghost function Changing(fs: seq<Str>): seq<Str> {
    if fs == [] then [] else (if Changes(fs[0]) then [fs[0]] else []) + Changing(fs[1..])
  }

  /** The commands that can change something. */
  ghost function Writes(cs: seq<Command>): seq<Command> {
    if cs == [] then [] else (if cs[0] != [] && IsWrite(cs[0][0]) then [cs[0]] else []) + Writes(cs[1..])
  }

  /** A command of another kind changes nothing. */
  lemma OnlyWritesCount(db: Db, c: Command)
    requires c == [] || !IsWrite(c[0])
    ensures Exec(db, c) == db
  {
    if c != [] && Named(c[0]).Some? {
      assert c[0] == [c[0][0]] + c[0][1..];
    }
  }

  lemma {:induction false} RunWrites(db: Db, cs: seq<Command>)
    ensures Run(db, Writes(cs)) == Run(db, cs)
    decreases |cs|
  {
    hide Exec, IsWrite;
    if cs != [] {
      RunWrites(Exec(db, cs[0]), cs[1..]);
      var rest := Writes(cs[1..]);
      if cs[0] != [] && IsWrite(cs[0][0]) {
        assert ([cs[0]] + rest)[1..] == rest;
      } else {
        OnlyWritesCount(db, cs[0]);
        assert [] + rest == rest;
      }
    }
  }

  lemma {:induction false} WritesConcat(a: seq<Command>, b: seq<Command>)
    ensures Writes(a + b) == Writes(a) + Writes(b)
  {
    hide IsWrite;
    if a == [] {
      assert a + b == b;
    } else {
      assert (a + b)[1..] == a[1..] + b;
      WritesConcat(a[1..], b);
    }
  }

  lemma {:induction false} ChangingConcat(a: seq<Str>, b: seq<Str>)
    ensures Changing(a + b) == Changing(a) + Changing(b)
  {
    hide Changes;
    if a == [] {
      assert a + b == b;
    } else {
      assert (a + b)[1..] == a[1..] + b;
      ChangingConcat(a[1..], b);
    }
  }

  /** The first j writes of a run are the writes of one of its prefixes. */
  lemma {:induction false} WritesPrefix(cs: seq<Command>, j: nat) returns (p: nat)
    requires j <= |Writes(cs)|
    ensures p <= |cs| && Writes(cs[..p]) == Writes(cs)[..j]
    decreases |cs|
  {
    hide IsWrite;
    if j == 0 {
      p := 0;
      assert cs[..0] == [];
    } else {
      var first := if cs[0] != [] && IsWrite(cs[0][0]) then 1 else 0;
      p := WritesPrefix(cs[1..], j - first);
      assert cs[..p + 1][1..] == cs[1..][..p] && cs[..p + 1][0] == cs[0];
      p := p + 1;
    }
  }

  /** The writes among the commands of frames are those of the frames that the agent forwards. */
  lemma {:induction false} WritesOfFrames(fs: seq<Str>)
    ensures Writes(Cmds(Changing(fs))) == Writes(Cmds(fs))
    ensures Accepted(Changing(fs)) ==> Writes(Cmds(fs)) == Cmds(Changing(fs))
    decreases |fs|
  {
    hide IsWrite, CommandOf, CommandWord, Cmds, Writes, Accepted;
    if fs == [] {
      NoWrites();
    } else {
      var f, rest := fs[0], fs[1..];
      WritesOfFrames(rest);
      assert fs == [f] + rest;
      CmdsConcat([f], rest);
      WritesConcat(Cmds([f]), Cmds(rest));
      WriteOfFrame(f);
      if Changes(f) {
        CmdsConcat([f], Changing(rest));
        WritesConcat(Cmds([f]), Cmds(Changing(rest)));
        AcceptedConcat([f], Changing(rest));
      } else {
        assert Changing(fs) == [] + Changing(rest) == Changing(rest);
      }
    }
  }

  lemma NoWrites()
    ensures Cmds([]) == [] && Writes([]) == [] && Accepted([])
  {}

  lemma AcceptedConcat(a: seq<Str>, b: seq<Str>)
    ensures Accepted(a + b) <==> Accepted(a) && Accepted(b)
  {
    hide CommandOf;
    assert forall i :: 0 <= i < |a| ==> (a + b)[i] == a[i];
    assert forall i :: 0 <= i < |b| ==> (a + b)[|a| + i] == b[i];
  }

  lemma WriteOfFrame(f: Str)
    ensures !Changes(f) ==> Writes(Cmds([f])) == []
    ensures Changes(f) && Accepted([f]) ==> Writes(Cmds([f])) == Cmds([f])
  {
    hide CommandOf, CommandWord, IsWrite;
    CmdsOne(f);
    var one: seq<Command> := [Cmd(f)];
    assert one[1..] == [] && Writes([]) == [];
    if CommandOf(f).Some? {
      WordOfCommand(f);
    }
  }

  // ---- the agent's view of the traffic ----

  /** What the agent sends and keeps is what it forwards of the frames in the stream. */
  lemma {:induction false} AgentCuts(cap: nat, s: Str, st: AgentState)
    ensures var d := Drain(s, st, Step(cap));
      && st.sent <= d.state.sent && d.state.writes <= st.writes + Changing(Cut(s))
      && (!d.dead ==> d.state.writes == st.writes + Changing(Cut(s)) && d.rest == Cutting(s).rest && !Cutting(s).dead)
    decreases |s|
  {
    hide Parse, Drain, Handle, Changes, KindOf, Changing;
    NoChanges();
    assert st.writes + [] == st.writes;
    if s == [] {
      DrainNothing(st, Step(cap));
      DrainNothing<seq<Str>>([], Collect);
    } else {
      DrainOne(s, st, Step(cap));
      DrainOne(s, [], Collect);
      if Parse(s).Frame? {
        var n := Parse(s).total;
        var f, rest := s[..n], s[n..];
        assert [] + [f] == [f];
        CollectAfter(rest, [f]);
        if Handle(cap, st, f).Some? {
          var st' := Handle(cap, st, f).value;
          HandleGrows(cap, st, f);
          AgentCuts(cap, rest, st');
          ChangingOne(f, Cut(rest));
          var more := if Changes(f) then [f] else [];
          assert (st.writes + more) + Changing(Cut(rest)) == st.writes + (more + Changing(Cut(rest)));
        }
      }
    }
  }

  lemma NoChanges()
    ensures Changing([]) == []
  {}

  lemma HandleGrows(cap: nat, st: AgentState, f: Str)
    requires Handle(cap, st, f).Some?
    ensures var st' := Handle(cap, st, f).value;
      st.sent <= st'.sent && st'.writes == st.writes + if Changes(f) then [f] else []
  {
    hide Handle, Changes, InOrder, KindOf, CommandWord;
    HandleByKind(cap, st, f);
    assert st.writes + [] == st.writes;
  }

  lemma ChangingOne(f: Str, fs: seq<Str>)
    ensures Changing([f] + fs) == (if Changes(f) then [f] else []) + Changing(fs)
  {
    hide Changes;
    assert ([f] + fs)[1..] == fs;
  }

  /** What the agent does with a frame depends on its first token. */
  lemma HandleByKind(cap: nat, st: AgentState, f: Str)
    requires Handle(cap, st, f).Some?
    ensures CommandWord(f).Some?
    ensures var st' := Handle(cap, st, f).value;
      && (InOrder(st) ==> InOrder(st'))
      && match KindOf(CommandWord(f).value)
        case Change =>
          Changes(f) && st'.writes == st.writes + [f] && st'.mode == st.mode
          && st'.sent == (if st.mode == FullSync then st.sent else st.sent + [f])
          && st'.cached == (if st.mode == FullSync then st.cached + [f] else st.cached)
        case Sync => !Changes(f) && st' == st.(mode := FullSync)
        case Other => !Changes(f) && st' == st
        case _ => !Changes(f) && st' == Flush(st)
  {
    hide CommandWord, IsWrite, InOrder;
    if InOrder(st) {
      HandleInOrder(cap, st, f);
    }
  }

  /** A frame that ends a full sync. */
  predicate EndsSync(f: Str) { CommandWord(f).Some? && KindOf(CommandWord(f).value) in {Finished, Failed} }

  /** During a full sync the agent sends nothing. */
  lemma {:induction false} FullSyncQuiet(cap: nat, s: Str, st: AgentState)
    requires st.mode == FullSync && forall f :: f in Cut(s) ==> !EndsSync(f)
    ensures Drain(s, st, Step(cap)).state.sent == st.sent
    decreases |s|
  {
    hide Parse, Drain, Handle, Changes, KindOf, CommandWord;
    if s == [] {
      DrainNothing(st, Step(cap));
    } else {
      DrainOne(s, st, Step(cap));
      DrainOne(s, [], Collect);
      if Parse(s).Frame? {
        var n := Parse(s).total;
        var f, rest := s[..n], s[n..];
        assert [] + [f] == [f];
        CollectAfter(rest, [f]);
        assert f in Cut(s) && forall g :: g in Cut(rest) ==> g in Cut(s);
        if Handle(cap, st, f).Some? {
          HandleByKind(cap, st, f);
          FullSyncQuiet(cap, rest, Handle(cap, st, f).value);
        }
      }
    }
  }

  /** The agent can cut the traffic into frames, and the server executed exactly the writes among them. */
  ghost predicate Heard(cs: seq<Chunk>) {
    !Cutting(Stream(cs)).dead && Writes(CommandsOf(cs)) == Writes(Cmds(Cut(Stream(cs))))
  }

  /**
   * In orderly traffic, what the server executes of each chunk writes the same as the frames that the agent
   * then finds behind what was left over in its one buffer.
   */
  ghost predicate Orderly(cs: seq<Chunk>)
    decreases |cs|
  {
    cs == [] ||
    (var init, c := cs[..|cs| - 1], cs[|cs| - 1];
     && Orderly(init) && !Cutting(Stream(cs)).dead
     && Writes(Got(NetOf(init), c).state) == Writes(Cmds(Cut(Cutting(Stream(init)).rest + c.bytes))))
  }

  /** One more chunk, to the server and to the agent. */
  lemma OneMore(init: seq<Chunk>, c: Chunk)
    requires !Cutting(Stream(init)).dead
    ensures var more := Cut(Cutting(Stream(init)).rest + c.bytes);
      && Writes(CommandsOf(init + [c])) == Writes(CommandsOf(init)) + Writes(Got(NetOf(init), c).state)
      && Writes(Cmds(Cut(Stream(init + [c])))) == Writes(Cmds(Cut(Stream(init)))) + Writes(Cmds(more))
  {
    hide Drain, NetOf, Got, Writes, Cmds, Cutting, CommandsOf, Stream;
    var s := Stream(init);
    var more := Cut(Cutting(s).rest + c.bytes);
    OneChunk(init, c);
    StreamMore(init, c);
    CutMore(s, c.bytes);
    WritesConcat(CommandsOf(init), Got(NetOf(init), c).state);
    CmdsConcat(Cut(s), more);
    WritesConcat(Cmds(Cut(s)), Cmds(more));
  }

  lemma Cancel(a: seq<Command>, b: seq<Command>, c: seq<Command>)
    ensures a + b == a + c <==> b == c
  {
    assert (a + b)[|a|..] == b && (a + c)[|a|..] == c;
  }

  lemma {:induction false} OrderlyHeard(cs: seq<Chunk>)
    requires Orderly(cs)
    ensures Heard(cs)
    decreases |cs|
  {
    hide Drain, NetOf, Got, Writes, Cmds, Cutting, Stream, CommandsOf;
    if cs == [] {
      NothingHeard();
    } else {
      var init, c := cs[..|cs| - 1], cs[|cs| - 1];
      OrderlyHeard(init);
      assert cs == init + [c];
      OneMore(init, c);
    }
  }

  lemma NothingHeard()
    ensures Heard([])
  {
    CutNothing();
    NoWrites();
  }

  /** Traffic is orderly exactly if at all times the server had executed what the agent heard. */
  lemma {:induction false} OrderlyExactly(cs: seq<Chunk>)
    ensures Orderly(cs) <==> forall n :: 0 <= n <= |cs| ==> Heard(cs[..n])
    decreases |cs|
  {
    hide Drain, NetOf, Got, Writes, Cmds, Cutting, Stream, CommandsOf, Heard;
    if Orderly(cs) {
      forall n | 0 <= n <= |cs| ensures Heard(cs[..n]) {
        OrderlyPrefix(cs, n);
        OrderlyHeard(cs[..n]);
      }
    }
    if cs != [] && forall n :: 0 <= n <= |cs| ==> Heard(cs[..n]) {
      var init := cs[..|cs| - 1];
      forall n | 0 <= n <= |init| ensures Heard(init[..n]) {
        assert init[..n] == cs[..n];
        assert Heard(cs[..n]);
      }
      OrderlyExactly(init);
      assert cs[..|cs|] == cs && Heard(cs) && Heard(cs[..|cs| - 1]);
      HeardBoth(init, cs[|cs| - 1], cs);
    }
  }

  lemma HeardBoth(init: seq<Chunk>, c: Chunk, cs: seq<Chunk>)
    requires Heard(init) && Heard(cs) && cs == init + [c]
    ensures !Cutting(Stream(cs)).dead
    ensures Writes(Got(NetOf(init), c).state) == Writes(Cmds(Cut(Cutting(Stream(init)).rest + c.bytes)))
  {
    hide Drain, NetOf, Got, Writes, Cmds, Cutting, Stream, CommandsOf;
    OneMore(init, c);
    Cancel(Writes(CommandsOf(init)), Writes(Got(NetOf(init), c).state), Writes(Cmds(Cut(Cutting(Stream(init)).rest + c.bytes))));
  }

  lemma {:induction false} OrderlyPrefix(cs: seq<Chunk>, n: nat)
    requires Orderly(cs) && n <= |cs|
    ensures Orderly(cs[..n])
    decreases |cs|
  {
    hide NetOf, Got, Cutting, Stream, Writes, Cmds;
    if n < |cs| {
      var init := cs[..|cs| - 1];
      assert init[..n] == cs[..n];
      OrderlyPrefix(init, n);
    } else {
      assert cs[..n] == cs;
    }
  }

  lemma CutNothing()
    ensures Cutting([]) == Drained([], [], false)
  {}

  /**
   * Clients that take turns: no chunk arrives in the middle of another connection's frame, and nothing
   * stands behind a refused frame in its chunk.
   */
  ghost predicate Turns(cs: seq<Chunk>)
    decreases |cs|
  {
    cs == [] ||
    (var init, c := cs[..|cs| - 1], cs[|cs| - 1];
     && Turns(init) && (forall i :: i != c.conn ==> Rest(NetOf(init), i) == [])
     && (var d := Got(NetOf(init), c); d.dead ==> Alone(d.rest)))
  }

  /** Their traffic is orderly; all that is left over is left over on one connection. */
  lemma {:induction false} TurnsAreOrderly(cs: seq<Chunk>) returns (j: nat)
    requires Turns(cs)
    ensures Orderly(cs) && !Cutting(Stream(cs)).dead
    ensures Rest(NetOf(cs), j) == Cutting(Stream(cs)).rest && forall i :: i != j ==> Rest(NetOf(cs), i) == []
    decreases |cs|
  {
    hide Drain, Writes, Cmds, Cutting, Alone;
    if cs == [] {
      CutNothing();
      j := 0;
    } else {
      var init, c := cs[..|cs| - 1], cs[|cs| - 1];
      var i := TurnsAreOrderly(init);
      assert Rest(NetOf(init), c.conn) == Cutting(Stream(init)).rest;
      var s := Rest(NetOf(init), c.conn) + c.bytes;
      CutMore(Stream(init), c.bytes);
      DeliverCuts(s);
      var d := Got(NetOf(init), c);
      if d.dead {
        WritesConcat(d.state, [[]]);
        NoWrite();
        assert Writes(d.state) + [] == Writes(d.state);
      }
      j := c.conn;
      forall i | i != j ensures Rest(NetOf(cs), i) == [] {
        assert Rest(NetOf(init), i) == [];
      }
    }
  }

  lemma NoWrite()
    ensures Writes([[]]) == []
  {
    var one: seq<Command> := [[]];
    assert one[1..] == [] && Writes([]) == [];
  }
}
