/** The server with its log: executing commands, and coming back after a crash. */
module Server {
  import opened Bytes
  import opened Kv
  import opened Kvsp
  import opened KvspCode
  import opened Framing
  import opened Commands
  import opened Meeting
  import opened Database
  import opened Persistence
  import opened Recovery
  import opened Dump
  import opened Traversal
  import SkipLevels

  /** A write to a file at an offset. */
  function WriteAt(file: Str, offset: nat, buf: Str): Str
    requires offset <= |file|
  {
    file[..offset] + buf + if offset + |buf| <= |file| then file[offset + |buf|..] else []
  }

  lemma AtTheEnd(file: Str, buf: Str)
    ensures WriteAt(file, |file|, buf) == file + buf
  {}

  /** The engines after a start: first the dump is loaded, then the log is replayed on top. */
  ghost function Recovered(dump: Str, log: Str): Db {
    Drain(log, Drain(dump, EMPTY, StepOf(Save)).state, StepOf(Protocol)).state
  }

  /** What a crash leaves: a dump taken after t logged commands, and the first n bytes of the log. */
  ghost predicate Crashed(dump: Str, log: seq<Command>, t: nat, n: nat) {
    && AllFramed(log) && Honest(EMPTY, log) && t <= |log| && n <= |LogBytes(log)|
    && Saved(dump, Run(EMPTY, log[..t])) && StorableDb(Run(EMPTY, log[..t]))
  }

  /**
   * If the log that survived reaches back to the dump, the server comes back in exactly the state after
   * the last whole frame. Otherwise each key is as in the dump or as in that state, and the whole store
   * is the log's, or the dump's, exactly if for each key the log's value counts, or the dump's.
   */
  lemma CrashRecovery(dump: Str, log: seq<Command>, t: nat, n: nat)
    requires Crashed(dump, log, t, n)
    ensures var m := Whole(log, n); var db := Recovered(dump, LogBytes(log)[..n]);
      var s, r := Run(EMPTY, log[..t]), Run(EMPTY, log[..m]);
      if t <= m then db == r
      else
        && Between(r, s, db)
        && (db == r <==> LogWins(s, r, log[..m]))
        && (db == s <==> DumpWins(s, r, log[..m]))
  {
    hide Drain, AllFramed, Honest, LogBytes, Saved, StorableDb, Between, LogWins, DumpWins, Run, Whole;
    var m := Whole(log, n);
    SaveLoad(dump, Run(EMPTY, log[..t]));
    CrashTruncation(log, n, Run(EMPTY, log[..t]));
    HonestPrefix(EMPTY, log, m);
    if t <= m {
      DumpThenLog(EMPTY, log[..m], t);
      assert log[..m][..t] == log[..t];
    } else {
      DumpThenShortLog(EMPTY, log, t, m);
      LogOnStore(Run(EMPTY, log[..t]), log[..m]);
    }
  }

  /** Without a dump, the log alone counts. */
  lemma LogRecovery(log: seq<Command>, n: nat)
    requires AllFramed(log) && n <= |LogBytes(log)|
    ensures Recovered([], LogBytes(log)[..n]) == Run(EMPTY, log[..Whole(log, n)])
  {
    hide AllFramed, LogBytes, Run, Whole;
    NothingLeft(EMPTY);
    CrashTruncation(log, n, EMPTY);
  }

  /** What a stop leaves if nothing is torn: the whole log, and no dump or one taken after t logged commands. */
  ghost predicate Intact(dump: Str, file: Str, log: seq<Command>, t: nat) {
    && file == LogBytes(log) && AllFramed(log) && Honest(EMPTY, log)
    && (dump == [] || (t <= |log| && Saved(dump, Run(EMPTY, log[..t])) && StorableDb(Run(EMPTY, log[..t]))))
  }

  lemma RecoveredIs(dump: Str, log: Str)
    ensures Recovered(dump, log) == Drain(log, Drain(dump, EMPTY, StepOf(Save)).state, StepOf(Protocol)).state
  {}

  /** Then the server comes back with the store it had. */
  lemma Restart(dump: Str, file: Str, log: seq<Command>, t: nat)
    requires Intact(dump, file, log, t)
    ensures Recovered(dump, file) == Run(EMPTY, log)
    ensures file == LogBytes(log) && AllFramed(log) && Honest(EMPTY, log)
  {
    hide Drain, AllFramed, Honest, LogBytes, Saved, StorableDb, Run;
    if dump == [] {
      NothingLeft(EMPTY);
      ReplayLog(log, EMPTY);
    } else {
      SaveLoad(dump, Run(EMPTY, log[..t]));
      ReplayLog(log, Run(EMPTY, log[..t]));
      DumpThenLog(EMPTY, log, t);
    }
  }

  class Server {
    const db: Engines
    var recovering: bool
    /** The contents of the log file, and where the next frame goes. */
    var logFile: Str
    var logOffset: nat
    /** The commands logged since the log was begun. */
    ghost var log: seq<Command>

    ghost predicate Valid()
      reads this, db, db.repr
    {
      db.Valid() && this !in db.repr
    }

    /** The log is what was executed, and the engines hold what it says. */
    ghost predicate Consistent()
      reads this, db, db.repr
    {
      && Valid() && !recovering && logOffset == |logFile| && logFile == LogBytes(log)
      && AllFramed(log) && Honest(EMPTY, log) && db.State() == Run(EMPTY, log)
    }

    /** Start: an empty store, the dump, the log. After a stop that left both whole, all is as it was. */
    constructor (xxh: Str -> nat, dump: array<byte>, file: array<byte>, level: nat -> nat, ghost logged: seq<Command>, ghost t: nat)
      requires AllDefined(Protocol, file[..], Drain(dump[..], EMPTY, StepOf(Save)).state) && forall i :: level(i) < SkipLevels.MAX_LEVEL
      ensures Valid() && !recovering && fresh(db.repr) && logFile == file[..] && logOffset == |logFile|
      ensures db.State() == Recovered(dump[..], file[..])
      ensures Intact(dump[..], file[..], logged, t) ==> Consistent() && log == logged
    {
      hide AllDefined, Drain, Engines.Valid, Engines.State, Recovered, Intact, LogBytes, AllFramed, Honest, Run;
      db := new Engines(xxh);
      recovering, logFile, logOffset, log := true, file[..], file.Length, logged;
      new;
      LoadingDefined(dump[..], EMPTY);
      var ret := FileRead(db, Save, dump, level);
      ret := FileRead(db, Protocol, file, level);
      recovering := false;
      RecoveredIs(dump[..], file[..]);
      if Intact(dump[..], file[..], logged, t) {
        Restart(dump[..], file[..], logged, t);
      }
    }

    method WriteLog(c: Command)
      requires logOffset == |logFile| && |c| > 0 && |FrameOf(c)| <= INT_MAX
      modifies `logFile, `logOffset
      ensures logFile == old(logFile) + FrameOf(c) && logOffset == |logFile|
    {
      hide FrameOf, WriteAt;
      var buf, len := BuildFrame(c);
      AtTheEnd(logFile, buf.value[..len]);
      logFile := WriteAt(logFile, logOffset, buf.value[..len]);
      logOffset := logOffset + len;
    }

    /** Execute a command, and log it if it was a write that succeeded. */
    method Execute(c: Command, level: nat) returns (reply: Option<Reply>)
      requires Consistent() && Framed(c) && DefinedOn(db.State(), c) && level < SkipLevels.MAX_LEVEL
      modifies this, db.repr
      ensures Consistent() && db.Valid() && fresh(db.repr - old(db.repr))
      ensures db.State() == Exec(old(db.State()), c) && reply == AnswerTo(old(db.State()), c)
      ensures log == if Logged(old(db.State()), c) then old(log) + [c] else old(log)
    {
      hide Engines.Valid, Engines.State, Exec, Logged, DefinedOn, AnswerTo, LogBytes, AllFramed, Honest, Run, FrameOf, Complete;
      ghost var before := db.State();
      CompleteDefined(before, c);
      var logged;
      reply, logged := db.Execute(c, level);
      if logged && !recovering {
        WriteLog(c);
        LogGrows(log, c);
        log := log + [c];
      } else {
        NotLogged(before, c);
      }
    }
  }

  lemma {:induction false} HonestSnoc(db: Db, log: seq<Command>, c: Command)
    requires Honest(db, log) && Logged(Run(db, log), c)
    ensures Honest(db, log + [c])
    decreases |log|
  {
    if log == [] {
      assert ([] + [c])[1..] == [];
    } else {
      assert (log + [c])[1..] == log[1..] + [c];
      HonestSnoc(Exec(db, log[0]), log[1..], c);
    }
  }

  lemma LogGrows(log: seq<Command>, c: Command)
    requires AllFramed(log) && Honest(EMPTY, log) && Framed(c) && Complete(c) && Logged(Run(EMPTY, log), c)
    ensures AllFramed(log + [c]) && Honest(EMPTY, log + [c]) && Run(EMPTY, log + [c]) == Exec(Run(EMPTY, log), c)
    ensures LogBytes(log + [c]) == LogBytes(log) + FrameOf(c)
  {
    hide FrameOf, Framed, Complete, Exec, Logged;
    HonestSnoc(EMPTY, log, c);
    RunConcat(EMPTY, log, [c]);
    LogConcat(log, [c]);
    var one: seq<Command> := [c];
    assert one[1..] == [];
    assert Run(Run(EMPTY, log), one) == Run(Exec(Run(EMPTY, log), c), []);
    assert LogBytes(one) == FrameOf(c) + LogBytes([]) == FrameOf(c);
  }

  lemma NotLogged(db: Db, c: Command)
    requires !Logged(db, c)
    ensures Exec(db, c) == db
  {
    if WriteOf(c).Some? {
      FailedChangesNothing(db, WriteOf(c).value);
    }
  }
}
