/** What the log and the dump hold, and what reading them back gives. */
module Recovery {
  import opened Bytes
  import opened Kv
  import opened Kvsp
  import opened Framing
  import opened Commands
  import opened ServerReader
  import opened Persistence

  /** A command that fits into one frame. */
  ghost predicate Framed(c: Command) {
    0 < |c| <= MAX_TOKENS && |FrameOf(c)| <= INT_MAX && forall i :: 0 <= i < |c| ==> 0 !in c[i]
  }

  ghost predicate AllFramed(log: seq<Command>) {
    forall i :: 0 <= i < |log| ==> Framed(log[i]) && Complete(log[i])
  }

  ghost function LogBytes(log: seq<Command>): Str {
    if log == [] then [] else FrameOf(log[0]) + LogBytes(log[1..])
  }

  /** Splitting a built frame gives the command back. */
  lemma FrameCommand(c: Command, rest: Str)
    requires Framed(c)
    ensures var s := FrameOf(c) + rest;
      Parse(s).Frame? && Parse(s).total == |FrameOf(c)| && s[..|FrameOf(c)|] == FrameOf(c) && CommandOf(FrameOf(c)) == Some(c)
  {
    var f := FrameOf(c);
    FrameParsed(c, rest);
    FrameRoundTrip(c, []);
    assert f + [] == f;
    assert CStrs(c) == c by {
      forall i | 0 <= i < |c| ensures CStr(c[i]) == c[i] { CStrWhole(c[i]); }
    }
    hide FrameOf, Parse, SplitBody;
    assert (f + rest)[..|f|] == f;
  }

  /** A frame that is cut short is not taken for a frame. */
  lemma TornFrame(c: Command, n: nat)
    requires Framed(c) && 0 < n < |FrameOf(c)|
    ensures Parse(FrameOf(c)[..n]) == NeedMore
  {
    var f := FrameOf(c);
    var p, q := f[..n], f[n..];
    assert p + q == f == f + [];
    FrameCommand(c, []);
    if Parse(p) != NeedMore {
      VerdictStable(p, q);
    }
  }

  lemma Stopped(s: Str, db: Db)
    requires s == [] || Parse(s) == NeedMore
    ensures Drain(s, db, StepOf(Protocol)).state == db && AllDefined(Protocol, s, db)
  {}

  /** One frame of a log, and what follows it. */
  lemma ReplayFrame(c: Command, rest: Str, db: Db)
    requires Framed(c)
    ensures Drain(FrameOf(c) + rest, db, StepOf(Protocol)) == Drain(rest, Exec(db, c), StepOf(Protocol))
    ensures Complete(c) && AllDefined(Protocol, rest, Exec(db, c)) ==> AllDefined(Protocol, FrameOf(c) + rest, db)
  {
    FrameCommand(c, rest);
    CompleteDefined(db, c);
    hide FrameOf, Parse, CommandOf, Exec, Complete, DefinedOn;
    assert (FrameOf(c) + rest)[|FrameOf(c)|..] == rest;
  }

  /** The number of whole frames among the first n bytes of a log. */
  ghost function Whole(log: seq<Command>, n: nat): (m: nat)
    ensures m <= |log| && |LogBytes(log[..m])| <= n
    ensures m < |log| ==> n < |LogBytes(log[..m + 1])|
  {
    if log == [] || n < |FrameOf(log[0])| then
      (if log == [] then 0 else assert log[..1][1..] == []; 0)
    else
      var m := Whole(log[1..], n - |FrameOf(log[0])|);
      assert log[..m + 1][1..] == log[1..][..m];
      assert m + 1 < |log| ==> log[..m + 2][1..] == log[1..][..m + 1];
      m + 1
  }

  /**
   * Replaying the first n bytes of a log, wherever a crash cut it off, executes exactly the commands
   * whose frames are whole, and no part of the torn one.
   */
  lemma {:induction false} CrashTruncation(log: seq<Command>, n: nat, db: Db)
    requires AllFramed(log) && n <= |LogBytes(log)|
    ensures Drain(LogBytes(log)[..n], db, StepOf(Protocol)).state == Run(db, log[..Whole(log, n)])
    ensures AllDefined(Protocol, LogBytes(log)[..n], db)
    decreases |log|
  {
    hide FrameOf, Drain, AllDefined, Exec, Framed, Complete;
    var s := LogBytes(log)[..n];
    if log == [] {
      Stopped(s, db);
    } else {
      var f, rest := FrameOf(log[0]), LogBytes(log[1..]);
      if n < |f| {
        assert s == f[..n];
        if n > 0 {
          TornFrame(log[0], n);
        }
        Stopped(s, db);
      } else {
        assert s == f + rest[..n - |f|];
        CrashTruncation(log[1..], n - |f|, Exec(db, log[0]));
        ReplayFrame(log[0], rest[..n - |f|], db);
        var m := Whole(log[1..], n - |f|);
        assert log[..m + 1][1..] == log[1..][..m];
      }
    }
  }

  /** In particular, the whole log replays as a whole. */
  lemma ReplayLog(log: seq<Command>, db: Db)
    requires AllFramed(log)
    ensures Drain(LogBytes(log), db, StepOf(Protocol)).state == Run(db, log) && AllDefined(Protocol, LogBytes(log), db)
  {
    hide LogBytes, AllDefined, Drain, Run, AllFramed;
    var n := |LogBytes(log)|;
    CrashTruncation(log, n, db);
    assert LogBytes(log)[..n] == LogBytes(log);
    var m := Whole(log, n);
    if m < |log| {
      LogPrefix(log, m + 1);
    }
    assert log[..|log|] == log;
  }

  lemma {:induction false} LogPrefix(log: seq<Command>, m: nat)
    requires m <= |log|
    ensures |LogBytes(log[..m])| <= |LogBytes(log)|
    decreases m
  {
    if m > 0 {
      assert log[..m][1..] == log[1..][..m - 1];
      LogPrefix(log[1..], m - 1);
    }
  }

  // ---- whatever came in a frame fits into a frame again ----

  /** No string of digits is a shorter notation. */
  lemma {:induction false} DecShortest(ds: Str)
    requires |ds| > 0 && forall i :: 0 <= i < |ds| ==> IsDigit(ds[i])
    ensures |Dec(Value(ds))| <= |ds|
    decreases |ds|
  {
    var init, n := ds[..|ds| - 1], Value(ds);
    if |ds| == 1 {
      assert Value(init) == 0;
    } else {
      DecShortest(init);
      assert n / 10 == Value(init);
    }
  }

  lemma {:induction false} DecMonotone(m: nat, n: nat)
    requires m <= n
    ensures |Dec(m)| <= |Dec(n)|
    decreases n
  {
    if m >= 10 {
      DecMonotone(m / 10, n / 10);
    }
  }

  lemma TokenShort(s: Str)
    requires FirstToken(s).Some?
    ensures var (t, used) := FirstToken(s).value; |EncodeToken(t)| <= used
  {
    DecShortest(LengthDigits(s));
  }

  lemma {:induction false} TokensShort(s: Str, room: nat)
    requires TokensOf(s, room).Some?
    ensures var ts := TokensOf(s, room).value; |ts| <= room && |Encode(ts)| <= |s|
    decreases |s|
  {
    hide EncodeToken, FirstToken;
    if s != [] {
      var (t, used) := FirstToken(s).value;
      TokenShort(s);
      assert 3 <= used <= |s| by { FirstTokenUses(s); }
      TokensShort(s[used..], room - 1);
      var rest := TokensOf(s[used..], room - 1).value;
      assert ([t] + rest)[1..] == rest;
    }
  }

  lemma FirstTokenUses(s: Str)
    requires FirstToken(s).Some?
    ensures 3 <= FirstToken(s).value.1 <= |s|
  {}

  lemma {:induction false} CStrShorter(t: Str)
    ensures |CStr(t)| <= |t| && 0 !in CStr(t)
  {
    if t != [] && t[0] != 0 {
      CStrShorter(t[1..]);
    }
  }

  lemma {:induction false} EncodeCStrs(ts: seq<Str>)
    ensures |Encode(CStrs(ts))| <= |Encode(ts)|
    decreases |ts|
  {
    if ts != [] {
      assert CStrs(ts)[1..] == CStrs(ts[1..]);
      EncodeCStrs(ts[1..]);
      CStrShorter(ts[0]);
      DecMonotone(|CStr(ts[0])|, |ts[0]|);
    }
  }

  /** Every command that a frame brought can be logged and sent on: its own frame is no longer. */
  lemma Reframed(frame: Str, c: Command)
    requires CommandOf(frame) == Some(c) && Parse(frame).total == |frame|
    ensures Framed(c)
  {
    hide Encode, TokensOf, Value, Dec;
    var h, body := Parse(frame).head, frame[Parse(frame).head..];
    var ts := SplitBody(body).value;
    TokensShort(body[..|body| - 2], MAX_TOKENS);
    EncodeCStrs(ts);
    forall i | 0 <= i < |c| ensures 0 !in c[i] { CStrShorter(ts[i]); }
    ParsedIsFrame(frame);
    var ds := LengthDigits(frame);
    DecShortest(ds);
    DecMonotone(|Body(c)|, |body|);
  }
}
