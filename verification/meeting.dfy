/** The same commands on two stores: exactly when both end up the same. */
module Meeting {
  import opened Bytes
  import opened Kv
  import opened Commands

  /** What a write makes of the value, if any, under one key of an engine. */
  ghost function Touch(w: Write, e: Engine, k: Str, x: Option<Str>): Option<Str> {
    if w.engine != e || w.key != k then x
    else match w
      case SetTo(_, _, v) => if x.Some? then x else Some(v)
      case ModTo(_, _, v) => if x.Some? then Some(v) else None
      case DelOf(_, _) => None
  }

  /** What a run makes of it. */
  ghost function Fate(cs: seq<Command>, e: Engine, k: Str, x: Option<Str>): Option<Str>
    decreases |cs|
  {
    if cs == [] then x else Fate(cs[1..], e, k, if WriteOf(cs[0]).None? then x else Touch(WriteOf(cs[0]).value, e, k, x))
  }

  /** Keys do not depend on each other. */
  lemma {:induction false} AtRun(db: Db, cs: seq<Command>, e: Engine, k: Str)
    ensures At(Run(db, cs), e, k) == Fate(cs, e, k, At(db, e, k))
    decreases |cs|
  {
    hide At, Apply, WriteOf;
    if cs != [] {
      if WriteOf(cs[0]).Some? {
        ApplyAt(db, WriteOf(cs[0]).value, e, k);
      }
      AtRun(Exec(db, cs[0]), cs[1..], e, k);
    }
  }

  /**
   * One store has p under a key; the other has nothing, or another value q. A scan of the commands
   * for the one that makes them equal: DEL always does; MOD does if both have the key, and else
   * replaces p; SET does if it gives the missing key the value p, and else gives it another value.
   */
  ghost predicate Meets(cs: seq<Command>, e: Engine, k: Str, p: Str, q: Option<Str>)
    decreases |cs|
  {
    if cs == [] then false
    else if WriteOf(cs[0]).None? || WriteOf(cs[0]).value.engine != e || WriteOf(cs[0]).value.key != k then Meets(cs[1..], e, k, p, q)
    else match WriteOf(cs[0]).value
      case DelOf(_, _) => true
      case ModTo(_, _, v) => q.Some? || Meets(cs[1..], e, k, v, None)
      case SetTo(_, _, v) => if q.Some? then Meets(cs[1..], e, k, p, q) else v == p || Meets(cs[1..], e, k, p, Some(v))
  }

  lemma {:induction false} MeetsIs(cs: seq<Command>, e: Engine, k: Str, p: Str, q: Option<Str>)
    requires q != Some(p)
    ensures Meets(cs, e, k, p, q) <==> Fate(cs, e, k, Some(p)) == Fate(cs, e, k, q)
    decreases |cs|
  {
    hide WriteOf;
    if cs != [] {
      var w, rest := WriteOf(cs[0]), cs[1..];
      if w.None? || w.value.engine != e || w.value.key != k {
        MeetsIs(rest, e, k, p, q);
      } else {
        match w.value
        case DelOf(_, _) =>
        case ModTo(_, _, v) => if q.None? { MeetsIs(rest, e, k, v, None); }
        case SetTo(_, _, v) =>
          if q.Some? {
            MeetsIs(rest, e, k, p, q);
          } else if v != p {
            MeetsIs(rest, e, k, p, Some(v));
          }
      }
    }
  }

  /** The two values under a key are equal, or become equal. */
  ghost predicate Agree(cs: seq<Command>, e: Engine, k: Str, x: Option<Str>, y: Option<Str>) {
    x == y || if x.Some? then Meets(cs, e, k, x.value, y) else y.Some? && Meets(cs, e, k, y.value, x)
  }

  lemma AgreeIs(cs: seq<Command>, e: Engine, k: Str, x: Option<Str>, y: Option<Str>)
    ensures Agree(cs, e, k, x, y) <==> Fate(cs, e, k, x) == Fate(cs, e, k, y)
  {
    hide Meets, Fate;
    if x != y {
      if x.Some? {
        MeetsIs(cs, e, k, x.value, y);
      } else {
        MeetsIs(cs, e, k, y.value, x);
      }
    }
  }

  /** Two stores are the same if they have the same under each key of each engine. */
  lemma SameStores(a: Db, b: Db)
    ensures a == b <==> forall e, k :: At(a, e, k) == At(b, e, k)
  {
    if forall e, k :: At(a, e, k) == At(b, e, k) {
      BetweenSame(a, b);
    }
  }

  /** Two stores that run the same commands end up the same exactly if each key is the same in both, or meets. */
  lemma RunsAgree(a: Db, b: Db, cs: seq<Command>)
    ensures Run(a, cs) == Run(b, cs) <==> forall e, k :: Agree(cs, e, k, At(a, e, k), At(b, e, k))
  {
    hide At, Run, Agree, Fate;
    SameStores(Run(a, cs), Run(b, cs));
    forall e, k ensures Agree(cs, e, k, At(a, e, k), At(b, e, k)) <==> At(Run(a, cs), e, k) == At(Run(b, cs), e, k) {
      AtRun(a, cs, e, k);
      AtRun(b, cs, e, k);
      AgreeIs(cs, e, k, At(a, e, k), At(b, e, k));
    }
  }

  // ---- a store after commands that it missed ----

  ghost predicate Touches(c: Command, e: Engine, k: Str) {
    WriteOf(c).Some? && WriteOf(c).value.engine == e && WriteOf(c).value.key == k
  }

  /** Whether the key is there after the commands: a scan back for the last SET or DEL. */
  ghost predicate Present(cs: seq<Command>, e: Engine, k: Str, before: bool)
    decreases |cs|
  {
    if cs == [] then before
    else
      var init, c := cs[..|cs| - 1], cs[|cs| - 1];
      if !Touches(c, e, k) || WriteOf(c).value.ModTo? then Present(init, e, k, before) else WriteOf(c).value.SetTo?
  }

  /**
   * Whether the commands lead back to x: a scan back for the last one that has an effect. A missing key
   * needs a DEL behind every SET; a value must be what the last SET of a missing key or the last MOD gave.
   */
  ghost predicate Restored(cs: seq<Command>, e: Engine, k: Str, x: Option<Str>)
    decreases |cs|
  {
    if cs == [] then true
    else
      var init, c := cs[..|cs| - 1], cs[|cs| - 1];
      if !Touches(c, e, k) then Restored(init, e, k, x)
      else match WriteOf(c).value
        case DelOf(_, _) => x.None?
        case ModTo(_, _, v) => if Present(init, e, k, x.Some?) then x == Some(v) else x.None?
        case SetTo(_, _, v) => if Present(init, e, k, x.Some?) then Restored(init, e, k, x) else x == Some(v)
  }

  lemma {:induction false} FateConcat(a: seq<Command>, b: seq<Command>, e: Engine, k: Str, x: Option<Str>)
    ensures Fate(a + b, e, k, x) == Fate(b, e, k, Fate(a, e, k, x))
    decreases |a|
  {
    hide Touch, WriteOf;
    if a == [] {
      assert a + b == b;
    } else {
      assert (a + b)[1..] == a[1..] + b;
      FateConcat(a[1..], b, e, k, if WriteOf(a[0]).None? then x else Touch(WriteOf(a[0]).value, e, k, x));
    }
  }

  lemma FateLast(cs: seq<Command>, e: Engine, k: Str, x: Option<Str>)
    requires cs != []
    ensures var init, c := cs[..|cs| - 1], cs[|cs| - 1];
      Fate(cs, e, k, x) == if WriteOf(c).None? then Fate(init, e, k, x) else Touch(WriteOf(c).value, e, k, Fate(init, e, k, x))
  {
    hide Touch, WriteOf;
    var init, c := cs[..|cs| - 1], cs[|cs| - 1];
    var one: seq<Command> := [c];
    assert cs == init + one && one[1..] == [];
    FateConcat(init, one, e, k, x);
  }

  lemma {:induction false} RestoredIs(cs: seq<Command>, e: Engine, k: Str, x: Option<Str>)
    ensures Present(cs, e, k, x.Some?) <==> Fate(cs, e, k, x).Some?
    ensures Restored(cs, e, k, x) <==> Fate(cs, e, k, x) == x
    decreases |cs|
  {
    hide WriteOf, Fate;
    if cs == [] {
      NoFate(e, k, x);
    } else {
      FateLast(cs, e, k, x);
      RestoredIs(cs[..|cs| - 1], e, k, x);
    }
  }

  lemma NoFate(e: Engine, k: Str, x: Option<Str>)
    ensures Fate([], e, k, x) == x
  {}

  /** Commands leave a store as it is exactly if each key is restored. */
  lemma RunRestores(db: Db, cs: seq<Command>)
    ensures Run(db, cs) == db <==> forall e, k :: Restored(cs, e, k, At(db, e, k))
  {
    hide At, Run, Restored, Fate, Present;
    SameStores(Run(db, cs), db);
    forall e, k ensures Restored(cs, e, k, At(db, e, k)) <==> At(Run(db, cs), e, k) == At(db, e, k) {
      AtRun(db, cs, e, k);
      RestoredIs(cs, e, k, At(db, e, k));
    }
  }

  // ---- a log on a store that is ahead of it ----

  /** A command that changes or removes the key, if it is there. */
  ghost predicate Rewrites(c: Command, e: Engine, k: Str) {
    WriteOf(c).Some? && !WriteOf(c).value.SetTo? && WriteOf(c).value.engine == e && WriteOf(c).value.key == k
  }

  ghost predicate Rewritten(log: seq<Command>, e: Engine, k: Str) {
    exists i :: 0 <= i < |log| && Rewrites(log[i], e, k)
  }

  lemma RewrittenStep(log: seq<Command>, e: Engine, k: Str)
    requires log != []
    ensures Rewritten(log, e, k) <==> Rewrites(log[0], e, k) || Rewritten(log[1..], e, k)
  {
    hide Rewrites;
    if Rewritten(log, e, k) && !Rewrites(log[0], e, k) {
      var i :| 0 <= i < |log| && Rewrites(log[i], e, k);
      assert log[1..][i - 1] == log[i];
    }
    if Rewritten(log[1..], e, k) {
      var i :| 0 <= i < |log| - 1 && Rewrites(log[1..][i], e, k);
      assert log[i + 1] == log[1..][i];
    }
  }

  /**
   * The commands of a log succeeded on a. Where y is there whenever a has the key, they leave y as it is,
   * unless y is missing or one of them rewrites it: then they lead to what the log says.
   */
  lemma {:induction false} HonestFate(a: Db, log: seq<Command>, e: Engine, k: Str, y: Option<Str>)
    requires Honest(a, log) && (At(a, e, k).Some? ==> y.Some?)
    ensures Fate(log, e, k, y) == if y.None? || Rewritten(log, e, k) then Fate(log, e, k, At(a, e, k)) else y
    decreases |log|
  {
    if log != [] {
      var w := WriteOf(log[0]).value;
      assert Succeeds(a, w) <==> (At(a, w.engine, w.key).Some? <==> !w.SetTo?);
      hide At, Succeeds, Apply, WriteOf, Rewritten;
      ApplyAt(a, w, e, k);
      RewrittenStep(log, e, k);
      HonestFate(Exec(a, log[0]), log[1..], e, k, Touch(w, e, k, y));
    }
  }

  /** The log's value of each key counts: the dump has none, or the same, or the log rewrites it. */
  ghost predicate LogWins(s: Db, r: Db, log: seq<Command>) {
    forall e, k :: At(s, e, k).None? || At(s, e, k) == At(r, e, k) || Rewritten(log, e, k)
  }

  /** The dump's value of each key counts: the log leads to the same, or leaves what is there. */
  ghost predicate DumpWins(s: Db, r: Db, log: seq<Command>) {
    forall e, k :: At(s, e, k) == At(r, e, k) || (At(s, e, k).Some? && !Rewritten(log, e, k))
  }

  /** An honest log on any store s: exactly when it leads to its own store r, and exactly when it leaves s. */
  lemma LogOnStore(s: Db, log: seq<Command>)
    requires Honest(EMPTY, log)
    ensures var r := Run(EMPTY, log);
      (Run(s, log) == r <==> LogWins(s, r, log)) && (Run(s, log) == s <==> DumpWins(s, r, log))
  {
    var r, db := Run(EMPTY, log), Run(s, log);
    forall e, k ensures At(EMPTY, e, k) == None {}
    hide At, Run, Fate, Rewritten, Honest;
    SameStores(db, r);
    SameStores(db, s);
    forall e, k ensures At(db, e, k) == if At(s, e, k).None? || Rewritten(log, e, k) then At(r, e, k) else At(s, e, k) {
      AtRun(EMPTY, log, e, k);
      AtRun(s, log, e, k);
      HonestFate(EMPTY, log, e, k, At(s, e, k));
    }
  }
}
