/** The replication agent: it watches the master's traffic and forwards the write frames to the slaves. */
module Agent {
  import opened Bytes
  import opened Kv
  import opened Commands
  import opened Kvsp
  import opened KvspCode
  import opened Framing
  import opened Ring

  datatype Mode = Unknown | FullSync | IncrSync

  datatype Kind = Change | Sync | Finished | Failed | Other

  const SYNC: Str := [83, 89, 78, 67]
  const FULLSYNC: Str := [70, 85, 76, 76, 83, 89, 78, 67, 32]
  const FULLSYNC_FINISHED: Str := FULLSYNC + [70, 73, 78, 73, 83, 72, 69, 68]
  const FULLSYNC_ERROR: Str := FULLSYNC + [69, 82, 82, 79, 82]
  /** SET, DEL or MOD, alone or for one of the other engines. */
  predicate IsWrite(c: Str) {
    c in [SET, DEL, MOD] || (|c| == 4 && c[0] in [R, H, L] && c[1..] in [SET, DEL, MOD])
  }

  function KindOf(c: Str): Kind {
    if IsWrite(c) then Change
    else if c == SYNC then Sync
    else if c == FULLSYNC_FINISHED then Finished
    else if c == FULLSYNC_ERROR then Failed
    else Other
  }

  /** The command word of a frame: its first token, as a C string. */
  function CommandWord(frame: Str): (r: Option<Str>) {
    if frame == [] || !Parse(frame).Frame? then None
    else
      var body := frame[Parse(frame).head..];
      var n := |body| - 2;
      if n < 0 || body[n..] != [CR, LF] || FirstToken(body[..n]).None? then None
      else Some(CStr(FirstToken(body[..n]).value.0))
  }

  /** The agent between two frames; `writes` are the write frames handled so far. */
  datatype AgentState = AgentState(mode: Mode, cached: seq<Str>, sent: seq<Str>, writes: seq<Str>)

  const START: AgentState := AgentState(Unknown, [], [], [])

  /** What the agent does with one frame, given the capacity of its full-sync cache. */
  function Handle(cap: nat, st: AgentState, frame: Str): (r: Option<AgentState>) {
    var c := CommandWord(frame);
    if c.None? then None
    else match KindOf(c.value)
      case Sync => Some(st.(mode := FullSync))
      case Finished => Some(Flush(st))
      case Failed => Some(Flush(st))
      case Other => Some(st)
      case Change =>
        var st' := st.(writes := st.writes + [frame]);
        if st.mode != FullSync then Some(st'.(sent := st.sent + [frame]))
        else if |frame| > SIZE_MAX - SIZE_OF_LEN || |PackedAll(st.cached)| + SIZE_OF_LEN + |frame| > cap then None
        else Some(st'.(cached := st.cached + [frame]))
  }

  function Flush(st: AgentState): AgentState {
    if st.mode != FullSync then st else st.(mode := IncrSync, cached := [], sent := st.sent + st.cached)
  }

  /** Nothing is lost, reordered or repeated, and only a full sync holds anything back. */
  ghost predicate InOrder(st: AgentState) {
    st.sent + st.cached == st.writes && (st.cached != [] ==> st.mode == FullSync)
  }

  lemma HandleInOrder(cap: nat, st: AgentState, frame: Str)
    requires InOrder(st) && Handle(cap, st, frame).Some?
    ensures InOrder(Handle(cap, st, frame).value)
  {
    assert (st.sent + st.cached) + [frame] == st.sent + (st.cached + [frame]);
    assert st.sent + [] == st.sent && (st.sent + st.cached) + [] == st.sent + st.cached;
    if st.cached == [] {
      assert (st.sent + [frame]) + st.cached == (st.sent + st.cached) + [frame];
    }
  }

  ghost function Step(cap: nat): (AgentState, Str) -> Option<AgentState> {
    (st: AgentState, frame: Str) => Handle(cap, st, frame)
  }

  /** In every run, over every stream of bytes. */
  lemma {:induction false} RunInOrder(s: Str, st: AgentState, cap: nat)
    requires InOrder(st)
    ensures InOrder(Drain(s, st, Step(cap)).state)
    decreases |s|
  {
    if s != [] && Parse(s).Frame? {
      var n := Parse(s).total;
      if Handle(cap, st, s[..n]).Some? {
        HandleInOrder(cap, st, s[..n]);
        RunInOrder(s[n..], Handle(cap, st, s[..n]).value, cap);
      }
    }
  }

  class ReplicationAgent {
    var buf: array<byte>
    var bufPos: nat
    var mode: Mode
    const cache: AgentCache
    /** The frames sent to the slaves. */
    var sent: seq<Str>
    /** Whether an error ended the agent. */
    var dead: bool
    /** The write frames handled, and every byte of traffic seen. */
    ghost var writes: seq<Str>
    ghost var received: Str

    ghost predicate Valid()
      reads this, cache, cache.cache
    {
      bufPos <= buf.Length && cache.Valid() && buf != cache.cache
    }

    ghost function State(): AgentState
      reads this, cache
    {
      AgentState(mode, cache.msgs, sent, writes)
    }

    ghost function Whole(): Drained<AgentState>
      requires bufPos <= buf.Length
      reads this, cache, buf
    {
      Drained(State(), buf[..bufPos], dead)
    }

    /** What the agent did depends on the bytes it saw, not on how they were cut into events. */
    ghost predicate Faithful()
      reads this, cache, cache.cache, buf
    {
      Valid() && SameOutcome(Whole(), Drain(received, START, Step(cache.cache.Length)))
    }

    constructor (bufSize: nat, cacheSize: nat)
      requires 0 < cacheSize <= SIZE_MAX
      ensures Faithful() && received == [] && !dead && fresh(buf) && fresh(cache) && fresh(cache.cache)
    {
      cache := new AgentCache(cacheSize);
      buf := new byte[bufSize];
      bufPos, mode, sent, dead, writes, received := 0, Unknown, [], false, [], [];
    }

    /** The command word of the frame at the front of the buffer. */
    method ParseCommand(hl: nat, tl: nat) returns (word: Option<Str>)
      requires tl <= buf.Length && 0 < tl && Parse(buf[..tl]) == Frame(hl, tl)
      ensures word == CommandWord(buf[..tl])
    {
      hide Parse, FirstToken, CStr;
      ghost var body := buf[..tl][hl..];
      assert body == buf[hl..tl];
      if tl - hl < 2 {
        return None;
      }
      var end := tl - 2;
      assert body[|body| - 2..] == [buf[end], buf[end + 1]];
      if buf[end] != CR || buf[end + 1] != LF {
        return None;
      }
      ghost var s := body[..|body| - 2];
      assert s == buf[hl..end];
      NoCaret(s);
      if buf[hl] != CARET || hl == end {
        return None;
      }
      assert s[1..] == buf[hl + 1..end];
      var ok, ptr, len := ReadToken(buf, hl, end, s);
      if !ok {
        return None;
      }
      var token := buf[ptr..ptr + len];
      return Some(CStr(token));
    }

    /** Send everything in the full-sync cache. */
    method SendCache() returns (ret: int)
      requires cache.Valid()
      modifies `sent, cache
      ensures ret == 0 && cache.Valid() && cache.msgs == [] && sent == old(sent) + old(cache.msgs)
      ensures cache.cache == old(cache.cache)
    {
      ghost var all := cache.msgs;
      while cache.used > 0
        invariant cache.Valid() && cache.cache == old(cache.cache)
        invariant sent + cache.msgs == old(sent) + all
        decreases cache.used
      {
        var m := cache.Read();
        if m.None? {
          assert false;
        }
        sent := sent + [m.value];
      }
      assert cache.msgs == [] by {
        if cache.msgs != [] { PackedShort(cache.msgs); }
      }
      return 0;
    }

    /** The three-state machine, on the frame at the front of the buffer. */
    method HandleFrame(hl: nat, tl: nat) returns (ret: int)
      requires Valid() && 0 < tl <= bufPos && Parse(buf[..tl]) == Frame(hl, tl)
      modifies `mode, `sent, `writes, cache, cache.cache
      ensures Valid() && cache.cache == old(cache.cache)
      ensures var r := Handle(cache.cache.Length, old(State()), buf[..tl]);
        ret == 0 <==> r.Some? && State() == r.value
      ensures ret != 0 ==> State() == old(State()) && Handle(cache.cache.Length, State(), buf[..tl]) == None
    {
      var frame := buf[..tl];
      var word := ParseCommand(hl, tl);
      if word.None? {
        return -2;
      }
      match KindOf(word.value)
      case Sync =>
        mode := FullSync;
        return 0;
      case Finished =>
        ret := LeaveFullSync();
      case Failed =>
        ret := LeaveFullSync();
      case Other =>
        return 0;
      case Change =>
        if mode == FullSync {
          ret := cache.Write(frame);
          if ret == 0 {
            writes := writes + [frame];
          }
        } else {
          sent, writes := sent + [frame], writes + [frame];
          ret := 0;
        }
    }

    method LeaveFullSync() returns (ret: int)
      requires Valid()
      modifies `mode, `sent, cache
      ensures Valid() && ret == 0 && State() == Flush(old(State())) && cache.cache == old(cache.cache)
    {
      ret := 0;
      if mode == FullSync {
        mode := IncrSync;
        ret := SendCache();
      }
    }

    /** Append an event's bytes to the buffer, which grows to the exact size when it is too small. */
    method Append(chunk: Str)
      requires bufPos <= buf.Length
      modifies `buf, `bufPos, buf
      ensures bufPos <= buf.Length && (buf == old(buf) || fresh(buf)) && buf[..bufPos] == old(buf[..bufPos]) + chunk
    {
      if bufPos + |chunk| > buf.Length {
        var grown := new byte[bufPos + |chunk|];
        forall i | 0 <= i < bufPos {
          grown[i] := buf[i];
        }
        assert grown[..bufPos] == buf[..bufPos];
        buf := grown;
      }
      ghost var before := buf[..bufPos];
      forall i | 0 <= i < |chunk| {
        buf[bufPos + i] := chunk[i];
      }
      assert buf[..bufPos + |chunk|] == before + chunk;
      bufPos := bufPos + |chunk|;
    }

    /** Drop the first n bytes. */
    method Consume(n: nat)
      requires n <= bufPos <= buf.Length
      modifies `bufPos, buf
      ensures bufPos == old(bufPos) - n && buf[..bufPos] == old(buf[n..bufPos])
    {
      ghost var rest := buf[n..bufPos];
      bufPos := bufPos - n;
      forall i | 0 <= i < bufPos {
        buf[i] := buf[i + n];
      }
      assert buf[..bufPos] == rest;
    }

    /** Handle every complete frame in the buffer. */
    method Process()
      requires Valid() && !dead
      modifies `bufPos, `mode, `sent, `writes, `dead, buf, cache, cache.cache
      ensures Valid() && cache.cache == old(cache.cache)
      ensures SameOutcome(Whole(), old(Drain(buf[..bufPos], State(), Step(cache.cache.Length))))
    {
      hide Drain, Parse, Handle;
      ghost var step := Step(cache.cache.Length);
      ghost var d := Drain(buf[..bufPos], State(), step);
      while bufPos > 0
        invariant Valid() && !dead && cache.cache == old(cache.cache)
        invariant Drain(buf[..bufPos], State(), step) == d
        decreases bufPos
      {
        ghost var s := buf[..bufPos];
        DrainOne(s, State(), step);
        assert s == buf[0..bufPos];
        var total, head := ParseBulkSize(buf, 0, bufPos);
        if total == 0 {
          return;
        }
        if total < 0 {
          dead := true;
          return;
        }
        FrameAlone(s, head, total);
        assert s[..total] == buf[..total] && s[total..] == buf[total..bufPos];
        var ret := HandleFrame(head, total);
        if ret != 0 {
          dead := true;
          return;
        }
        Consume(total);
      }
      assert buf[..bufPos] == [];
      DrainNothing(State(), step);
    }

    /** One event of observed traffic. */
    method SendToSlave(chunk: Str) returns (ret: int)
      requires Faithful() && !dead
      modifies this, buf, cache, cache.cache
      ensures Faithful() && cache.cache == old(cache.cache) && (buf == old(buf) || fresh(buf))
      ensures |chunk| == 0 ==> ret == -1 && received == old(received)
      ensures |chunk| > 0 ==> received == old(received) + chunk && ret == if dead then -2 else 0
    {
      if |chunk| == 0 {
        return -1;
      }
      DrainAppend(received, chunk, START, Step(cache.cache.Length));
      Append(chunk);
      received := received + chunk;
      Process();
      return if dead then -2 else 0;
    }

    /** In every run: what was sent, then what the full-sync cache still holds, is every write in order. */
    lemma NothingLost()
      requires Faithful()
      ensures sent + cache.msgs == writes && (cache.msgs != [] ==> mode == FullSync)
    {
      RunInOrder(received, START, cache.cache.Length);
    }
  }
}
