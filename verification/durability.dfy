/** A run with SAVEs, then a crash: what was acknowledged and what comes back. */
module Durability {
  import opened Bytes
  import opened Commands
  import opened Meeting
  import opened Recovery
  import opened Traversal
  import opened SaveControl
  import opened Server

  /** The first k logged commands of a run are those of one of its prefixes. */
  lemma {:induction false} LoggedPrefix(db: Db, cs: seq<Command>, k: nat) returns (p: nat)
    requires k <= |LogOf(db, cs)|
    ensures p <= |cs| && LogOf(db, cs[..p]) == LogOf(db, cs)[..k]
    decreases |cs|
  {
    hide Exec, Logged;
    if k == 0 {
      p := 0;
      assert cs[..0] == [];
    } else {
      var first := if Logged(db, cs[0]) then 1 else 0;
      var q := LoggedPrefix(Exec(db, cs[0]), cs[1..], k - first);
      p := q + 1;
      assert cs[..p][1..] == cs[1..][..q] && cs[..p][0] == cs[0];
    }
  }

  /** How many commands were logged before the dump that a child forked after d commands wrote. */
  ghost function LoggedBefore(history: seq<Command>, d: nat): nat
    requires d <= |history|
  {
    |LogOf(EMPTY, history[..d])|
  }

  /** A dump of the run is a dump of its log. */
  lemma DumpInLog(history: seq<Command>, d: nat)
    requires d <= |history|
    ensures var log, t := LogOf(EMPTY, history), LoggedBefore(history, d);
      && t <= |log| && Honest(EMPTY, log)
      && log[..t] == LogOf(EMPTY, history[..d]) && Run(EMPTY, log[..t]) == Run(EMPTY, history[..d])
  {
    hide LogOf, Run, Honest;
    assert history == history[..d] + history[d..];
    LogOfConcat(EMPTY, history[..d], history[d..]);
    LogReplays(EMPTY, history[..d]);
    LogReplays(EMPTY, history);
  }

  /** What a log that reaches back to the dump leads to is the store after some command from the dump on. */
  lemma LaterPrefix(history: seq<Command>, d: nat, m: nat) returns (j: nat)
    requires d <= |history| && LoggedBefore(history, d) <= m <= |LogOf(EMPTY, history)|
    ensures d <= j <= |history| && Run(EMPTY, LogOf(EMPTY, history)[..m]) == Run(EMPTY, history[..j])
  {
    hide LogOf, Run;
    var a, b, db := history[..d], history[d..], Run(EMPTY, history[..d]);
    assert history == a + b;
    LogOfConcat(EMPTY, a, b);
    var k := m - |LogOf(EMPTY, a)|;
    var p := LoggedPrefix(db, b, k);
    j := d + p;
    assert history[..j] == a + b[..p];
    LogOfConcat(EMPTY, a, b[..p]);
    assert LogOf(EMPTY, history)[..m] == LogOf(EMPTY, a) + LogOf(db, b)[..k];
    LogReplays(EMPTY, history[..j]);
  }

  /**
   * The server ran history, its last dump holds the store after d commands, and a crash left the first
   * n bytes of its log. If they reach back to the dump, it comes back with its store after some command
   * not before the dump; otherwise each key is as in the dump or as in the log, and all keys are as in one
   * of them exactly if its value counts for each key.
   */
  lemma CrashAfterRun(history: seq<Command>, d: nat, file: Str, n: nat) returns (j: nat)
    requires d <= |history| && AllFramed(LogOf(EMPTY, history)) && n <= |LogBytes(LogOf(EMPTY, history))|
    requires Saved(file, Run(EMPTY, history[..d])) && StorableDb(Run(EMPTY, history[..d]))
    ensures var log, t := LogOf(EMPTY, history), LoggedBefore(history, d);
      var m := Whole(log, n); var db := Recovered(file, LogBytes(log)[..n]);
      var s, r := Run(EMPTY, history[..d]), Run(EMPTY, log[..m]);
      if t <= m then d <= j <= |history| && db == Run(EMPTY, history[..j])
      else Between(r, s, db) && (db == r <==> LogWins(s, r, log[..m])) && (db == s <==> DumpWins(s, r, log[..m]))
  {
    hide LogOf, Run, Honest, AllFramed, LogBytes, Saved, StorableDb, Recovered, Between, LogWins, DumpWins, Whole;
    var log, t := LogOf(EMPTY, history), LoggedBefore(history, d);
    DumpInLog(history, d);
    CrashRecovery(file, log, t, n);
    j := d;
    if t <= Whole(log, n) {
      WholeFits(log, n);
      j := LaterPrefix(history, d, Whole(log, n));
    }
  }

  lemma WholeFits(log: seq<Command>, n: nat)
    ensures Whole(log, n) <= |log|
  {}

  /**
   * In particular: no child is running, no merged SAVE was dropped, and the log reaches back to the last
   * dump. Then nothing that was executed before the last acknowledged SAVE is lost.
   */
  lemma AcknowledgedSurvives(s: Saver, file: Str, n: nat) returns (j: nat)
    requires s.Valid() && s.status == Idle && !s.dropped && Saved(file, s.dump) && StorableDb(s.dump)
    requires AllFramed(LogOf(EMPTY, s.history)) && n <= |LogBytes(LogOf(EMPTY, s.history))|
    requires LoggedBefore(s.history, s.dumped) <= Whole(LogOf(EMPTY, s.history), n)
    ensures s.acked <= j <= |s.history|
    ensures Recovered(file, LogBytes(LogOf(EMPTY, s.history))[..n]) == Run(EMPTY, s.history[..j])
  {
    hide LogOf, Run, AllFramed, LogBytes, Saved, StorableDb, Recovered, Whole, LoggedBefore, Between, LogWins, DumpWins;
    j := CrashAfterRun(s.history, s.dumped, file, n);
  }
}
