/** Runs in which a slave differs from its master for good. */
module DivergingRuns {
  import opened Bytes
  import opened Kv
  import opened Pairs
  import opened Kvsp
  import opened Commands
  import opened Framing
  import opened ServerReader
  import opened ReceiveLoop
  import opened Persistence
  import opened Recovery
  import opened Dump
  import opened Traversal
  import opened Agent
  import opened Ring
  import opened Traffic
  import opened Convergence

  const KEY: Str := [107]
  const OLD_VALUE: Str := [120]
  const NEW_VALUE: Str := [118]
  const RMOD_KEY: Command := [[R] + MOD, KEY, OLD_VALUE]
  const RSET_KEY: Command := [[R] + SET, KEY, NEW_VALUE]
  const RDEL_KEY: Command := [[R] + DEL, KEY]

  // ---- frames that are built ----

  /** A built frame stands alone, is accepted, and carries its command's word. */
  lemma Built(c: Command)
    requires Framed(c)
    ensures var f := FrameOf(c); Alone(f) && f[0] == HASH && CommandOf(f) == Some(c) && Cmd(f) == c && CommandWord(f) == Some(c[0])
  {
    FrameStarts(c);
    hide FrameOf, Parse, CommandOf, CommandWord;
    FrameCommand(c, []);
    assert FrameOf(c) + [] == FrameOf(c);
    WordOfCommand(FrameOf(c));
  }

  lemma FrameStarts(c: Command)
    ensures FrameOf(c) != [] && FrameOf(c)[0] == HASH
  {}

  lemma ShortDec(n: nat)
    requires n < 100
    ensures |Dec(n)| <= 2
  {
    assert n >= 10 ==> Dec(n / 10) == [48 + n / 10];
  }

  lemma {:induction false} ShortEncoded(c: Command)
    requires |c| <= 3 && forall i :: 0 <= i < |c| ==> |c[i]| <= 20
    ensures |Encode(c)| <= 24 * |c|
  {
    if c != [] {
      ShortDec(|c[0]|);
      ShortEncoded(c[1..]);
    }
  }

  lemma ShortFramed(c: Command)
    requires 0 < |c| <= 3 && forall i :: 0 <= i < |c| ==> |c[i]| <= 20 && 0 !in c[i]
    ensures Framed(c) && |FrameOf(c)| <= 100
  {
    hide Encode, Dec;
    ShortEncoded(c);
    ShortDec(|Body(c)|);
  }

  /** The commands of the runs below. */
  ghost predicate Sample(c: Command) { Framed(c) && |FrameOf(c)| <= 100 && Complete(c) }

  lemma Samples()
    ensures Sample(RMOD_KEY) && Sample(RSET_KEY) && Sample(RDEL_KEY) && Sample([SYNC]) && Sample([FULLSYNC_FINISHED])
    ensures KindOf(RMOD_KEY[0]) == KindOf(RSET_KEY[0]) == KindOf(RDEL_KEY[0]) == Change
    ensures KindOf(SYNC) == Sync && KindOf(FULLSYNC_FINISHED) == Agent.Finished
  {
    hide Framed, FrameOf;
    ShortFramed(RMOD_KEY);
    ShortFramed(RSET_KEY);
    ShortFramed(RDEL_KEY);
    ShortFramed([SYNC]);
    ShortFramed([FULLSYNC_FINISHED]);
    assert ([R] + MOD)[1..] == MOD && ([R] + SET)[1..] == SET && ([R] + DEL)[1..] == DEL;
  }

  lemma SampleWrites()
    ensures WriteOf(RMOD_KEY) == Some(ModTo(Rbtree, KEY, OLD_VALUE))
    ensures WriteOf(RSET_KEY) == Some(SetTo(Rbtree, KEY, NEW_VALUE))
    ensures WriteOf(RDEL_KEY) == Some(DelOf(Rbtree, KEY))
    ensures WriteOf([SYNC]).None? && WriteOf([FULLSYNC_FINISHED]).None?
  {
    assert ([R] + MOD)[1..] == MOD && ([R] + SET)[1..] == SET && ([R] + DEL)[1..] == DEL;
  }

  // ---- steps ----

  lemma {:induction false} AfterSnoc(cap: nat, w: World, es: seq<Event>, e: Event)
    requires AfterAll(cap, w, es).Some?
    ensures AfterAll(cap, w, es + [e]) == Next(cap, AfterAll(cap, w, es).value, e)
    decreases |es|
  {
    hide Next;
    if es == [] {
      assert ([] + [e])[1..] == [];
    } else {
      assert (es + [e])[1..] == es[1..] + [e];
      AfterSnoc(cap, Next(cap, w, es[0]).value, es[1..], e);
    }
  }

  /** Continue a run. */
  lemma Take(cap: nat, b: World, w: World, e: Event) returns (w': World)
    requires Leads(cap, b, w) && Next(cap, w, e).Some?
    ensures Leads(cap, b, w') && Next(cap, w, e) == Some(w')
  {
    hide Next, AfterAll;
    w' := Next(cap, w, e).value;
    var es :| AfterAll(cap, b, es) == Some(w);
    AfterSnoc(cap, b, es, e);
  }

  lemma Stays(cap: nat, w: World)
    ensures Leads(cap, w, w)
  {
    assert AfterAll(cap, w, []) == Some(w);
  }

  /** What the agent becomes when it takes a frame. */
  function Taken(st: AgentState, kind: Kind, frame: Str): AgentState {
    match kind
    case Change =>
      if st.mode == FullSync then st.(cached := st.cached + [frame], writes := st.writes + [frame])
      else st.(sent := st.sent + [frame], writes := st.writes + [frame])
    case Sync => st.(mode := FullSync)
    case Other => st
    case _ => Flush(st)
  }

  /** The connections in use, none of which has bytes left over, and those that are closed. */
  ghost predicate Tidy(cs: seq<Chunk>, used: set<nat>, shut: set<nat>) {
    && NetOf(cs).rests.Keys == used && NetOf(cs).closed == shut
    && forall i :: i in NetOf(cs).rests ==> NetOf(cs).rests[i] == []
  }

  /** A chunk that is one built frame. */
  lemma FrameChunk(w: World, used: set<nat>, shut: set<nat>, conn: nat, c: Command)
    requires Tidy(w.chunks, used, shut) && conn !in shut && Sample(c)
    ensures var chunk := Chunk(conn, FrameOf(c));
      && CanArrive(w, chunk) && Tidy(w.chunks + [chunk], used + {conn}, shut)
      && CommandsOf(w.chunks + [chunk]) == CommandsOf(w.chunks) + [c]
  {
    hide FrameOf, CommandsOf, Master, Framed, NetOf, Meaningful, Drain, Complete, Alone, CommandOf, CommandWord;
    var f := FrameOf(c);
    Built(c);
    assert f != [] by { FrameStarts(c); }
    assert Rest(NetOf(w.chunks), conn) + f == f;
    OneCommand(c);
    FrameMeaningful(c, Master(w));
    OneChunk(w.chunks, Chunk(conn, f));
  }

  lemma FrameMeaningful(c: Command, db: Db)
    requires Framed(c) && Complete(c)
    ensures Meaningful(FrameOf(c), db)
  {
    hide FrameOf, Framed, Complete, AllDefined, Drain;
    ReplayFrame(c, [], db);
    NothingUndefined(Exec(db, c));
    assert FrameOf(c) + [] == FrameOf(c);
  }

  lemma NothingUndefined(db: Db)
    ensures AllDefined(Persistence.Protocol, [], db)
  {}

  lemma OneCommand(c: Command)
    requires Framed(c)
    ensures Drain(FrameOf(c), [], Deliver) == Drained([c], [], false)
  {
    hide FrameOf, CommandOf, Parse, Drain;
    var f := FrameOf(c);
    Built(c);
    DrainOne(f, [], Deliver);
    assert f[..|f|] == f && f[|f|..] == [] && [] + [c] == [c];
    DrainNothing([c], Deliver);
  }

  /** A built frame arrives. */
  lemma Arrives(cap: nat, b: World, w: World, used: set<nat>, shut: set<nat>, conn: nat, c: Command) returns (w': World)
    requires Leads(cap, b, w) && Tidy(w.chunks, used, shut) && conn !in shut && Sample(c)
    ensures Leads(cap, b, w') && w' == w.(chunks := w.chunks + [Chunk(conn, FrameOf(c))])
    ensures Tidy(w'.chunks, used + {conn}, shut) && CommandsOf(w'.chunks) == CommandsOf(w.chunks) + [c]
  {
    hide Leads, CanArrive, FrameOf, Sample, CommandsOf, Tidy;
    FrameChunk(w, used, shut, conn, c);
    w' := Take(cap, b, w, Arrive(Chunk(conn, FrameOf(c))));
  }

  /** The agent handles a frame that stands alone. */
  lemma AgentTakes(cap: nat, st: AgentState, f: Str)
    requires Alone(f) && CommandWord(f).Some?
    requires KindOf(CommandWord(f).value) == Change && st.mode == FullSync ==>
      |f| <= SIZE_MAX - SIZE_OF_LEN && |PackedAll(st.cached)| + SIZE_OF_LEN + |f| <= cap
    ensures Drain(f, st, Step(cap)) == Drained(Taken(st, KindOf(CommandWord(f).value), f), [], false)
  {
    hide CommandWord, PackedAll, KindOf, Parse, Drain;
    DrainOne(f, st, Step(cap));
    assert f[..|f|] == f && f[|f|..] == [];
    DrainNothing(Taken(st, KindOf(CommandWord(f).value), f), Step(cap));
  }

  /** The agent takes a chunk that is one frame, if it need not cache it. */
  lemma Taking(cap: nat, b: World, w: World, f: Str) returns (w': World)
    requires Leads(cap, b, w) && w.seen < |w.chunks| && w.chunks[w.seen].bytes == f && Alone(f) && CommandWord(f).Some?
    requires w.agent.rest == [] && !w.agent.dead && (KindOf(CommandWord(f).value) == Change ==> w.agent.state.mode != FullSync)
    ensures Leads(cap, b, w')
    ensures w' == w.(agent := Drained(Taken(w.agent.state, KindOf(CommandWord(f).value), f), [], false), seen := w.seen + 1,
      before := |w.agent.state.sent|)
  {
    hide Leads, CommandWord, KindOf, Taken, Drain, Alone;
    AgentTakes(cap, w.agent.state, f);
    assert [] + f == f;
    w' := Take(cap, b, w, AgentStep);
  }

  /** A slave asks for a snapshot on a new connection, loads it and connects to the agent. */
  lemma Joins(cap: nat, b: World, w: World, used: set<nat>, conn: nat, file: Str) returns (w': World)
    requires Leads(cap, b, w) && w.phase == Idle && Tidy(w.chunks, used, {}) && conn !in used
    requires Saved(file, Master(w)) && StorableDb(Master(w))
    ensures Leads(cap, b, w')
    ensures w' == w.(chunks := w.chunks + [Chunk(conn, FrameOf([SYNC]))], phase := Connected, sync := |w.chunks|, snapshot := file,
      slave := Master(w))
    ensures Tidy(w'.chunks, used + {conn}, {}) && CommandsOf(w'.chunks) == CommandsOf(w.chunks) + [[SYNC]]
  {
    hide Leads, Master, Saved, StorableDb, Loading, FrameOf, CanArrive, Sample, CommandsOf, NetOf;
    Samples();
    FrameChunk(w, used, {}, conn, [SYNC]);
    LoadingIs(file, Master(w));
    w' := Take(cap, b, w, TakeSnapshot(conn, file));
    w' := Take(cap, b, w', LoadSnapshot);
    w' := Take(cap, b, w', Connect);
  }

  /** A file of the empty store, and of one with a single binding. */
  lemma EmptySaved()
    ensures Saved([], EMPTY) && StorableDb(EMPTY)
  {
    NoneSaved(Rbtree, []);
    NoneSaved(Hash, []);
    NoneSaved(Skiplist, []);
    assert Lists([], map[]);
    assert [] == SaveBytes(Rbtree, []) + SaveBytes(Hash, []) + SaveBytes(Skiplist, []);
  }

  lemma OneSaved(p: Pair) returns (file: Str)
    requires |p.key| < 10 && |p.value| < 10 && 0 !in p.key && 0 !in p.value
    ensures var db := EMPTY.(rb := map[p.key := p.value]); Saved(file, db) && StorableDb(db)
  {
    hide SaveBytes, FrameOf;
    ShortFramed(Record(Rbtree, p));
    var s := [p];
    assert MapOf(s) == map[p.key := p.value] by { assert s[1..] == []; }
    assert Lists(s, map[p.key := p.value]) && Lists([], map[]);
    file := SaveBytes(Rbtree, s) + SaveBytes(Hash, []) + SaveBytes(Skiplist, []);
    var db := EMPTY.(rb := map[p.key := p.value]);
    forall e, k | k in Of(db, e) ensures Storable(e, Pair(k, Of(db, e)[k])) {
      assert e == Rbtree && Pair(k, Of(db, e)[k]) == p;
    }
  }

  // ---- registered too late ----

  const WITH_NEW: Db := EMPTY.(rb := map[KEY := NEW_VALUE])
  const WITH_OLD: Db := EMPTY.(rb := map[KEY := OLD_VALUE])

  /** What the commands of the runs below do. */
  lemma SampleEffects()
    ensures forall db :: Exec(db, [SYNC]) == Exec(db, [FULLSYNC_FINISHED]) == db
    ensures Exec(EMPTY, RSET_KEY) == Exec(WITH_NEW, RSET_KEY) == WITH_NEW && Exec(EMPTY, RMOD_KEY) == EMPTY
    ensures Exec(WITH_NEW, RMOD_KEY) == WITH_OLD && Exec(WITH_OLD, RSET_KEY) == WITH_OLD
  {
    SampleWrites();
    hide WriteOf;
  }

  lemma NothingPacked()
    ensures PackedAll([]) == []
  {}

  lemma NoChunks()
    ensures Tidy([], {}, {}) && CommandsOf([]) == [] && Master(BEGIN) == EMPTY
  {}

  /** A slave of an empty master, on connection 1. */
  lemma JoinsEmpty(cap: nat) returns (w: World)
    ensures Leads(cap, BEGIN, w) && w == BEGIN.(chunks := [Chunk(1, FrameOf([SYNC]))], phase := Connected)
    ensures Tidy(w.chunks, {1}, {}) && CommandsOf(w.chunks) == [[SYNC]]
  {
    hide FrameOf, Leads, Saved, StorableDb, Tidy, CommandsOf, Master;
    Stays(cap, BEGIN);
    EmptySaved();
    NoChunks();
    w := Joins(cap, BEGIN, BEGIN, {}, 1, []);
    assert {} + {1} == {1};
  }

  /** Registered after the end of the full sync: a change made meanwhile is lost. */
  lemma LateSlaveDiffers(cap: nat) returns (w: World)
    requires SIZE_OF_LEN + 100 <= cap
    ensures Reached(cap, w) && Settled(w) && !w.cut && w.slave == EMPTY && Master(w) == WITH_NEW
  {
    hide FrameOf, Framed, Leads, PackedAll, KindOf, CommandWord, CommandOf, Alone, Run, Tidy, CommandsOf, Complete, Exec, Drain;
    var set', fin := FrameOf(RSET_KEY), FrameOf([FULLSYNC_FINISHED]);
    Samples();
    Built([SYNC]);
    Built(RSET_KEY);
    Built([FULLSYNC_FINISHED]);
    w := JoinsEmpty(cap);
    w := Arrives(cap, BEGIN, w, {1}, {}, 0, RSET_KEY);
    w := Arrives(cap, BEGIN, w, {1} + {0}, {}, 1, [FULLSYNC_FINISHED]);
    w := Taking(cap, BEGIN, w, FrameOf([SYNC]));
    NothingPacked();
    AgentTakes(cap, w.agent.state, set');
    assert [] + set' == set';
    w := Take(cap, BEGIN, w, AgentStep);
    w := Taking(cap, BEGIN, w, fin);
    w := Take(cap, BEGIN, w, Register(1));
    assert CommandsOf(w.chunks) == [[SYNC], RSET_KEY, [FULLSYNC_FINISHED]];
    RunThree(EMPTY, [SYNC], RSET_KEY, [FULLSYNC_FINISHED]);
    SampleEffects();
  }

  lemma RunThree(db: Db, a: Command, b: Command, c: Command)
    ensures Run(db, [a, b, c]) == Exec(Exec(Exec(db, a), b), c)
  {
    hide Exec;
    assert [a, b, c][1..] == [b, c];
    RunTwo(Exec(db, a), b, c);
  }

  lemma RunFour(db: Db, a: Command, b: Command, c: Command, d: Command)
    ensures Run(db, [a, b, c, d]) == Exec(Exec(Exec(Exec(db, a), b), c), d)
  {
    hide Exec;
    assert [a, b, c, d][1..] == [b, c, d];
    RunThree(Exec(db, a), b, c, d);
  }

  // ---- registered too early ----

  /**
   * Registered before the agent had handled the SYNC: a write that failed on the master before the
   * snapshot was taken succeeds on the slave after it.
   */
  lemma EarlySlaveDiffers(cap: nat) returns (w: World)
    ensures Reached(cap, w) && Settled(w) && !w.cut && w.slave == WITH_OLD && Master(w) == WITH_NEW
  {
    hide FrameOf, Framed, Leads, KindOf, CommandWord, CommandOf, Alone, Run, CommandsOf, Exec, Drain, DefinedOn, Sample;
    Samples();
    assert Framed(RMOD_KEY) && Framed(RSET_KEY) by { SampleFramed(RMOD_KEY); SampleFramed(RSET_KEY); }
    Built(RMOD_KEY);
    Built(RSET_KEY);
    SampleEffects();
    SampleDefined();
    w := EarlyAgent(cap);
    w := Take(cap, BEGIN, w, SlaveStep);
    w := Take(cap, BEGIN, w, SlaveStep);
    RunFour(EMPTY, RMOD_KEY, RSET_KEY, [SYNC], [FULLSYNC_FINISHED]);
  }

  lemma SampleFramed(c: Command)
    requires Sample(c)
    ensures Framed(c)
  {}

  /** The slave is registered, and then the agent handles everything. */
  lemma EarlyAgent(cap: nat) returns (w: World)
    ensures Leads(cap, BEGIN, w) && w.registered && !w.cut && w.phase == Connected && w.seen == |w.chunks|
    ensures w.reg == 0 == w.applied && w.slave == WITH_NEW && w.agent.state.sent == [FrameOf(RMOD_KEY), FrameOf(RSET_KEY)]
    ensures CommandsOf(w.chunks) == [RMOD_KEY, RSET_KEY, [SYNC], [FULLSYNC_FINISHED]]
  {
    hide FrameOf, Framed, Leads, KindOf, CommandWord, CommandOf, Alone, Run, Tidy, CommandsOf, Complete, Exec, Drain;
    Samples();
    Built([SYNC]);
    Built(RMOD_KEY);
    Built(RSET_KEY);
    Built([FULLSYNC_FINISHED]);
    w := EarlyStart(cap);
    w := Arrives(cap, BEGIN, w, {0, 1}, {}, 1, [FULLSYNC_FINISHED]);
    w := Take(cap, BEGIN, w, Register(0));
    w := Taking(cap, BEGIN, w, FrameOf(RMOD_KEY));
    w := Taking(cap, BEGIN, w, FrameOf(RSET_KEY));
    w := Taking(cap, BEGIN, w, FrameOf([SYNC]));
    w := Taking(cap, BEGIN, w, FrameOf([FULLSYNC_FINISHED]));
  }

  lemma SampleDefined()
    ensures forall db :: DefinedOn(db, RMOD_KEY) && DefinedOn(db, RSET_KEY)
  {
    assert ([R] + MOD)[1..] == MOD && ([R] + SET)[1..] == SET;
  }

  lemma EarlyStart(cap: nat) returns (w: World)
    ensures Leads(cap, BEGIN, w)
    ensures w == BEGIN.(chunks := [Chunk(0, FrameOf(RMOD_KEY)), Chunk(0, FrameOf(RSET_KEY)), Chunk(1, FrameOf([SYNC]))],
      phase := Connected, sync := 2, snapshot := w.snapshot, slave := WITH_NEW)
    ensures Tidy(w.chunks, {0, 1}, {}) && CommandsOf(w.chunks) == [RMOD_KEY, RSET_KEY, [SYNC]]
  {
    hide FrameOf, Leads, Run, Exec, Saved, StorableDb, Tidy, CommandsOf, Sample;
    Samples();
    SampleEffects();
    Stays(cap, BEGIN);
    NoChunks();
    w := Arrives(cap, BEGIN, BEGIN, {}, {}, 0, RMOD_KEY);
    w := Arrives(cap, BEGIN, w, {} + {0}, {}, 0, RSET_KEY);
    assert CommandsOf(w.chunks) == [RMOD_KEY, RSET_KEY];
    RunTwo(EMPTY, RMOD_KEY, RSET_KEY);
    var file := OneSaved(Pair(KEY, NEW_VALUE));
    assert {} + {0} + {0} == {0} && {0} + {1} == {0, 1};
    w := Joins(cap, BEGIN, w, {0}, 1, file);
  }

  // ---- a frame that is refused ----

  /** A frame with the tokens RSET and k, and a third that claims more bytes than there are. */
  const REFUSED: Str := [HASH, 49, 55, CR, LF] + REFUSED_BODY + [CR, LF]
  const REFUSED_BODY: Str := [CARET, 52, AMP, R, 83, 69, 84] + REFUSED_TOKENS
  const REFUSED_TOKENS: Str := [CARET, 49, AMP, 107] + REFUSED_TOKEN
  const REFUSED_TOKEN: Str := [CARET, 57, AMP, 118]

  /** The master refuses it, and the agent forwards it. */
  lemma RefusedFrame()
    ensures Alone(REFUSED) && CommandOf(REFUSED).None? && CommandWord(REFUSED) == Some([R] + SET) && KindOf([R] + SET) == Change
  {
    RefusedTokens();
    RefusedParsed();
    hide Parse, FirstToken, TokensOf;
    var body := REFUSED[5..];
    assert body == REFUSED_BODY + [CR, LF];
    assert body[..|body| - 2] == REFUSED_BODY && body[|body| - 2..] == [CR, LF];
    CStrWhole([R] + SET);
    assert ([R] + SET)[1..] == SET;
  }

  lemma RefusedParsed()
    ensures Parse(REFUSED) == Frame(5, |REFUSED|)
  {
    var ds: Str, body := [49, 55], REFUSED_BODY + [CR, LF];
    assert REFUSED == [HASH] + ds + [CR, LF] + body + [];
    assert ds[..1] == [49] && [49][..0] == [];
    assert Value([49]) == 1;
    assert Value(ds) == 17 == |body|;
    FrameParses(REFUSED, ds, body, []);
  }

  lemma RefusedTokens()
    ensures FirstToken(REFUSED_BODY) == Some(([R] + SET, 7)) && TokensOf(REFUSED_BODY, MAX_TOKENS).None?
  {
    RefusedEncoded();
    ShortToken(118);
    hide FirstToken;
    assert REFUSED_BODY[7..] == REFUSED_TOKENS && REFUSED_TOKENS[4..] == REFUSED_TOKEN;
    assert TokensOf(REFUSED_TOKEN, MAX_TOKENS - 2).None?;
    assert TokensOf(REFUSED_TOKENS, MAX_TOKENS - 1).None?;
  }

  lemma RefusedEncoded()
    ensures FirstToken(REFUSED_BODY) == Some(([R] + SET, 7)) && FirstToken(REFUSED_TOKENS) == Some(([107], 4))
  {
    hide FirstToken;
    assert Dec(4) == [52] && Dec(1) == [49];
    assert EncodeToken([R] + SET) == [CARET, 52, AMP, R, 83, 69, 84] && EncodeToken([107]) == [CARET, 49, AMP, 107];
    FirstTokenEncoded([R] + SET, REFUSED_TOKENS);
    FirstTokenEncoded([107], REFUSED_TOKEN);
  }

  /** A token that claims nine bytes, of which there is one. */
  lemma ShortToken(v: byte)
    ensures FirstToken([CARET, 57, AMP, v]).None?
  {
    var s: Str := [CARET, 57, AMP, v];
    assert s[1..] == [57] + [AMP, v];
    DigitRunIs([57], [AMP, v]);
    assert LengthDigits(s) == [57] && [57][..0] == [];
    assert Value([57]) == 9;
  }

  /** A chunk that a connection's reader gives up at once. */
  lemma LostChunk(w: World, used: set<nat>, conn: nat, f: Str, t: Str)
    requires Tidy(w.chunks, used, {}) && Alone(f) && f[0] == HASH && CommandOf(f).None? && |f + t| <= ReceiveLoop.BUFFER_SIZE
    ensures var chunk := Chunk(conn, f + t);
      && CanArrive(w, chunk) && Tidy(w.chunks + [chunk], used + {conn}, {conn})
      && CommandsOf(w.chunks + [chunk]) == CommandsOf(w.chunks)
  {
    hide CommandsOf, Master, NetOf, Drain, CommandOf, Meaningful, Alone;
    var s := f + t;
    assert |s| <= ReceiveLoop.BUFFER_SIZE;
    GivenUp(f, t, Master(w));
    assert Rest(NetOf(w.chunks), conn) + s == s;
    assert Got(NetOf(w.chunks), Chunk(conn, s)) == Drained([], s, true);
    hide Got;
    OneChunk(w.chunks, Chunk(conn, s));
    assert CommandsOf(w.chunks) + [] == CommandsOf(w.chunks) && {} + {conn} == {conn};
  }

  lemma GivenUp(f: Str, t: Str, db: Db)
    requires Alone(f) && CommandOf(f).None?
    ensures f + t != [] && (f + t)[0] == f[0]
    ensures Drain(f + t, [], Deliver) == Drained([], f + t, true) && Meaningful(f + t, db)
  {
    hide CommandOf, Drain;
    VerdictStable(f, t);
    hide Parse;
    assert (f + t)[..|f|] == f;
    DrainOne(f + t, [], Deliver);
  }

  /** A slave in time: the full sync that its SYNC began is over, and nothing was sent. */
  lemma InTimeStart(cap: nat) returns (w: World)
    ensures Leads(cap, BEGIN, w) && Tidy(w.chunks, {1}, {}) && CommandsOf(w.chunks) == [[SYNC], [FULLSYNC_FINISHED]]
    ensures w == BEGIN.(chunks := [Chunk(1, FrameOf([SYNC])), Chunk(1, FrameOf([FULLSYNC_FINISHED]))], phase := Connected,
      seen := 2, agent := Drained(START.(mode := IncrSync), [], false), registered := true)
    ensures InTime(w)
  {
    hide FrameOf, Framed, Leads, KindOf, CommandWord, CommandOf, Alone, Run, Tidy, CommandsOf, Complete, Drain;
    Samples();
    Built([SYNC]);
    Built([FULLSYNC_FINISHED]);
    w := JoinsEmpty(cap);
    w := Taking(cap, BEGIN, w, FrameOf([SYNC]));
    w := Take(cap, BEGIN, w, Register(0));
    w := Arrives(cap, BEGIN, w, {1}, {}, 1, [FULLSYNC_FINISHED]);
    w := Taking(cap, BEGIN, w, FrameOf([FULLSYNC_FINISHED]));
    assert {1} + {1} == {1};
    var none: seq<Str> := [];
    assert none + none == none;
    FirstSnapshot(w);
  }

  /** Nothing comes before a snapshot that is the first of all. */
  lemma FirstSnapshot(w: World)
    requires w.sync == 0 == w.reg
    ensures InTime(w)
  {
    assert w.chunks[..0] == [] && Cut([]) == [];
  }

  /** A slave in time closes its connection at such a frame, and misses every later change. */
  lemma RefusedSlaveDiffers(cap: nat) returns (w: World)
    ensures Reached(cap, w) && Settled(w) && InTime(w) && w.cut && w.slave == EMPTY && Master(w) == WITH_NEW
  {
    hide FrameOf, Framed, Leads, KindOf, CommandWord, CommandOf, Alone, Run, Tidy, CommandsOf, Complete, Exec, Drain, REFUSED, CanArrive;
    Samples();
    RefusedFrame();
    RefusedSize();
    Built(RSET_KEY);
    w := InTimeStart(cap);
    LostChunk(w, {1}, 2, REFUSED, []);
    assert REFUSED + [] == REFUSED;
    w := Take(cap, BEGIN, w, Arrive(Chunk(2, REFUSED)));
    w := Taking(cap, BEGIN, w, REFUSED);
    w := Arrives(cap, BEGIN, w, {1} + {2}, {2}, 0, RSET_KEY);
    w := Taking(cap, BEGIN, w, FrameOf(RSET_KEY));
    w := Take(cap, BEGIN, w, SlaveStep);
    assert CommandsOf(w.chunks) == [[SYNC], [FULLSYNC_FINISHED], RSET_KEY];
    RunThree(EMPTY, [SYNC], [FULLSYNC_FINISHED], RSET_KEY);
    SampleEffects();
    FirstSnapshot(w);
  }

  lemma RefusedSize()
    ensures 0 < |REFUSED| <= ReceiveLoop.BUFFER_SIZE && REFUSED[0] == HASH
  {}

  // ---- what stands behind a refused frame ----

  /** A frame with the token RGET, and a second that claims more bytes than there are. */
  const BAD: Str := [HASH, 49, 51, CR, LF] + BAD_BODY + [CR, LF]
  const BAD_BODY: Str := [CARET, 52, AMP, R, 71, 69, 84] + [CARET, 57, AMP, 107]

  /** The master refuses it, and the agent does not forward it. */
  lemma BadFrame()
    ensures Alone(BAD) && CommandOf(BAD).None? && CommandWord(BAD) == Some([R] + GET) && KindOf([R] + GET) == Other
    ensures |BAD| <= 100 && BAD[0] == HASH
  {
    BadTokens();
    BadParsed();
    hide Parse, FirstToken, TokensOf;
    var body := BAD[5..];
    assert body == BAD_BODY + [CR, LF];
    assert body[..|body| - 2] == BAD_BODY && body[|body| - 2..] == [CR, LF];
    CStrWhole([R] + GET);
    assert ([R] + GET)[1..] == GET;
  }

  lemma BadParsed()
    ensures Parse(BAD) == Frame(5, |BAD|)
  {
    var ds: Str, body := [49, 51], BAD_BODY + [CR, LF];
    assert BAD == [HASH] + ds + [CR, LF] + body + [];
    assert ds[..1] == [49] && [49][..0] == [];
    assert Value([49]) == 1;
    assert Value(ds) == 13 == |body|;
    FrameParses(BAD, ds, body, []);
  }

  lemma BadTokens()
    ensures FirstToken(BAD_BODY) == Some(([R] + GET, 7)) && TokensOf(BAD_BODY, MAX_TOKENS).None?
  {
    hide FirstToken;
    var last: Str := [CARET, 57, AMP, 107];
    assert Dec(4) == [52];
    assert EncodeToken([R] + GET) == [CARET, 52, AMP, R, 71, 69, 84];
    FirstTokenEncoded([R] + GET, last);
    ShortToken(107);
    assert BAD_BODY[7..] == last;
    assert TokensOf(last, MAX_TOKENS - 1).None?;
  }

  /** In one chunk with a write behind it: the agent forwards what the master drops. */
  lemma AgentGoesOn(cap: nat, st: AgentState, f: Str)
    requires Alone(f) && CommandWord(f).Some? && KindOf(CommandWord(f).value) == Change && st.mode != FullSync
    ensures Drain(BAD + f, st, Step(cap)) == Drained(Taken(st, Change, f), [], false)
  {
    hide BAD, CommandWord, KindOf, Drain, Parse, CommandOf;
    BadFrame();
    var s := BAD + f;
    VerdictStable(BAD, f);
    assert s[..|BAD|] == BAD && s[|BAD|..] == f;
    DrainOne(s, st, Step(cap));
    AgentTakes(cap, st, f);
  }

  /** A slave in time, which is not cut off, has a write that the master does not have. */
  lemma DroppedSlaveDiffers(cap: nat) returns (w: World)
    ensures Reached(cap, w) && Settled(w) && SentAll(w) && InTime(w) && !w.cut && w.slave == WITH_NEW && Master(w) == EMPTY
  {
    hide FrameOf, Framed, Leads, KindOf, CommandWord, CommandOf, Alone, Run, Tidy, CommandsOf, Complete, Exec, Drain, BAD, CanArrive, DefinedOn;
    Samples();
    BadFrame();
    Built(RSET_KEY);
    var f := FrameOf(RSET_KEY);
    w := InTimeStart(cap);
    LostChunk(w, {1}, 2, BAD, f);
    w := Take(cap, BEGIN, w, Arrive(Chunk(2, BAD + f)));
    AgentGoesOn(cap, w.agent.state, f);
    assert [] + (BAD + f) == BAD + f;
    w := Take(cap, BEGIN, w, AgentStep);
    SampleDefined();
    SampleEffects();
    w := Take(cap, BEGIN, w, SlaveStep);
    RunTwo(EMPTY, [SYNC], [FULLSYNC_FINISHED]);
    FirstSnapshot(w);
  }

  // ---- two connections at once ----

  /** A second connection's chunk in the middle of a frame: the agent, which has one buffer, gives up. */
  lemma InterleavedSlaveDiffers(cap: nat) returns (w: World)
    ensures Reached(cap, w) && Settled(w) && InTime(w) && !w.cut && w.slave == EMPTY && Master(w) == WITH_NEW
  {
    hide FrameOf, Framed, Leads, KindOf, CommandWord, CommandOf, Alone, Run, Tidy, CommandsOf, Complete, Exec, Drain, CanArrive;
    Samples();
    Built(RSET_KEY);
    var f := FrameOf(RSET_KEY);
    w := InTimeStart(cap);
    HashChunk(w, {1}, 2, RSET_KEY);
    w := Take(cap, BEGIN, w, Arrive(Chunk(2, [HASH])));
    w := Take(cap, BEGIN, w, Arrive(Chunk(0, f)));
    FrameStarts(RSET_KEY);
    AgentHash(cap, w.agent.state, f);
    assert [] + [HASH] == [HASH];
    w := Take(cap, BEGIN, w, AgentStep);
    w := Take(cap, BEGIN, w, AgentStep);
    assert CommandsOf(w.chunks) == [[SYNC], [FULLSYNC_FINISHED], RSET_KEY];
    RunThree(EMPTY, [SYNC], [FULLSYNC_FINISHED], RSET_KEY);
    SampleEffects();
    FirstSnapshot(w);
  }

  /** The first byte of a frame on one connection, and then a frame on connection 0. */
  lemma HashChunk(w: World, used: set<nat>, conn: nat, c: Command)
    requires Tidy(w.chunks, used, {}) && conn != 0 && Sample(c)
    ensures var one, two := Chunk(conn, [HASH]), Chunk(0, FrameOf(c)); var w' := w.(chunks := w.chunks + [one]);
      && CanArrive(w, one) && CanArrive(w', two)
      && CommandsOf(w.chunks + [one] + [two]) == CommandsOf(w.chunks) + [c]
  {
    hide FrameOf, CommandsOf, Master, Framed, NetOf, Drain, Complete, Alone, CommandOf, CommandWord, Meaningful;
    var one, f := Chunk(conn, [HASH]), FrameOf(c);
    HashAlone(Master(w));
    assert Rest(NetOf(w.chunks), conn) + [HASH] == [HASH];
    OneChunk(w.chunks, one);
    var w' := w.(chunks := w.chunks + [one]);
    Built(c);
    assert f != [] by { FrameStarts(c); }
    assert Rest(NetOf(w'.chunks), 0) + f == f;
    OneCommand(c);
    FrameMeaningful(c, Master(w'));
    OneChunk(w'.chunks, Chunk(0, f));
    assert CommandsOf(w.chunks) + [] == CommandsOf(w.chunks);
  }

  lemma HashAlone(db: Db)
    ensures Meaningful([HASH], db) && Drain([HASH], [], Deliver) == Drained([], [HASH], false)
  {
    var s: Str := [HASH];
    assert s[1..] == [];
    assert Parse(s) == NeedMore;
    hide Parse;
    DrainOne(s, [], Deliver);
  }

  lemma AgentHash(cap: nat, st: AgentState, f: Str)
    requires f != [] && f[0] == HASH
    ensures Drain([HASH], st, Step(cap)) == Drained(st, [HASH], false)
    ensures Drain([HASH] + f, st, Step(cap)) == Drained(st, [HASH] + f, true)
  {
    var s: Str := [HASH];
    assert s[1..] == [];
    assert Parse(s) == NeedMore;
    assert ([HASH] + f)[1..] == f;
    assert Parse([HASH] + f) == Bad;
    hide Parse, Drain;
    DrainOne(s, st, Step(cap));
    DrainOne([HASH] + f, st, Step(cap));
  }

  // ---- cut off ----

  /** From every world in which the slave was cut off, a run leads to one in which it differs. */
  lemma CutDiffers(cap: nat, b: World) returns (w: World)
    requires Reached(cap, b) && Settled(b) && b.cut
    ensures Leads(cap, b, w) && Settled(w) && w.slave == b.slave && w.slave != Master(w)
  {
    hide FrameOf, Leads, Run, CommandsOf, Exec, CanArrive, Sample, Drain, NetOf;
    Samples();
    w := b;
    Stays(cap, b);
    if w.slave == Master(w) {
      var c := if KEY in Master(w).rb then RDEL_KEY else RSET_KEY;
      var conn := Unused(NetOf(w.chunks));
      FreshChunk(w, conn, c);
      w := Take(cap, b, w, Arrive(Chunk(conn, FrameOf(c))));
      Toggles(Master(b));
      if !w.agent.dead {
        w := Take(cap, b, w, AgentStep);
        AgentSends(cap, b, w);
      }
    }
  }

  /** Whatever the agent makes of a chunk, it only sends more. */
  lemma AgentSends(cap: nat, b: World, w: World)
    requires Settled(b) && b.cut && !b.agent.dead
    requires w == b.(chunks := w.chunks, seen := |w.chunks|, agent := w.agent, before := w.before)
    ensures Settled(w)
  {}

  lemma Unused(net: Net) returns (conn: nat)
    ensures conn !in net.rests && conn !in net.closed
  {
    var used := net.rests.Keys + net.closed;
    conn := Above(used);
  }

  lemma {:induction false} Above(s: set<nat>) returns (n: nat)
    ensures forall i :: i in s ==> i < n
    decreases |s|
  {
    if s == {} {
      n := 0;
    } else {
      var i :| i in s;
      var m := Above(s - {i});
      n := if i < m then m else i + 1;
      forall j | j in s ensures j < n {
        if j != i {
          assert j in s - {i};
        }
      }
    }
  }

  lemma FreshChunk(w: World, conn: nat, c: Command)
    requires conn !in NetOf(w.chunks).rests && conn !in NetOf(w.chunks).closed && Sample(c)
    ensures var chunk := Chunk(conn, FrameOf(c));
      CanArrive(w, chunk) && Run(EMPTY, CommandsOf(w.chunks + [chunk])) == Exec(Master(w), c)
  {
    hide FrameOf, CommandsOf, Framed, NetOf, Drain, Complete, Alone, CommandOf, CommandWord, Meaningful, Run, Exec;
    var f := FrameOf(c);
    Built(c);
    assert f != [] by { FrameStarts(c); }
    assert Rest(NetOf(w.chunks), conn) + f == f;
    OneCommand(c);
    FrameMeaningful(c, Master(w));
    OneChunk(w.chunks, Chunk(conn, f));
    RunConcat(EMPTY, CommandsOf(w.chunks), [c]);
    RunOne(Master(w), c);
  }

  lemma Toggles(db: Db)
    ensures Exec(db, if KEY in db.rb then RDEL_KEY else RSET_KEY) != db
  {
    SampleWrites();
    hide WriteOf;
    var db' := Exec(db, if KEY in db.rb then RDEL_KEY else RSET_KEY);
    assert KEY in db'.rb <==> KEY !in db.rb;
  }
}
