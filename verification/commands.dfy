/** The commands of the three unbounded engines: what each does to the store, and what it answers. */
module Commands {
  import opened Bytes
  import opened Kv

  datatype Engine = Rbtree | Hash | Skiplist

  datatype Verb = Set | Get | Del | Mod | Exist

  /** A command: its tokens as C strings. */
  type Command = seq<Str>

  const SET: Str := [83, 69, 84]
  const GET: Str := [71, 69, 84]
  const DEL: Str := [68, 69, 76]
  const MOD: Str := [77, 79, 68]
  const EXIST: Str := [69, 88, 73, 83, 84]
  /** The letters that stand before a verb for the engines other than the array. */
  const R: byte := 82
  const H: byte := 72
  const L: byte := 76

  function VerbOf(s: Str): Option<Verb> {
    if s == SET then Some(Set) else if s == GET then Some(Get) else if s == DEL then Some(Del)
    else if s == MOD then Some(Mod) else if s == EXIST then Some(Exist) else None
  }

  function EngineOf(b: byte): Option<Engine> {
    if b == R then Some(Rbtree) else if b == H then Some(Hash) else if b == L then Some(Skiplist) else None
  }

  /** The engine and the verb that a command word names. */
  function Named(word: Str): Option<(Engine, Verb)> {
    if word == [] || EngineOf(word[0]).None? || VerbOf(word[1..]).None? then None
    else Some((EngineOf(word[0]).value, VerbOf(word[1..]).value))
  }

  /** The contents of the engines. */
  datatype Db = Db(rb: Store, hash: Store, skip: Store)

  const EMPTY: Db := Db(map[], map[], map[])

  function Of(db: Db, e: Engine): Store {
    match e case Rbtree => db.rb case Hash => db.hash case Skiplist => db.skip
  }

  function Put(db: Db, e: Engine, s: Store): Db {
    match e case Rbtree => db.(rb := s) case Hash => db.(hash := s) case Skiplist => db.(skip := s)
  }

  datatype Write = SetTo(engine: Engine, key: Str, value: Str) | ModTo(engine: Engine, key: Str, value: Str) | DelOf(engine: Engine, key: Str)

  function Token(c: Command, i: nat): Option<Str> {
    if i < |c| then Some(c[i]) else None
  }

  /** The write that a command asks for: none for a read or another command, or if a token is missing. */
  function WriteOf(c: Command): Option<Write> {
    if c == [] || Named(c[0]).None? || |c| < 2 then None
    else
      var (e, verb) := Named(c[0]).value;
      match verb
      case Set => if |c| < 3 then None else Some(SetTo(e, c[1], c[2]))
      case Mod => if |c| < 3 then None else Some(ModTo(e, c[1], c[2]))
      case Del => Some(DelOf(e, c[1]))
      case _ => None
  }

  function Apply(db: Db, w: Write): Db {
    var s := Of(db, w.engine);
    match w
    case SetTo(e, k, v) => Put(db, e, AfterSet(s, k, v))
    case ModTo(e, k, v) => Put(db, e, AfterMod(s, k, v))
    case DelOf(e, k) => Put(db, e, AfterDel(s, k))
  }

  /** Whether a write is answered by OK, and so logged. */
  predicate Succeeds(db: Db, w: Write) {
    w.key in Of(db, w.engine) <==> !w.SetTo?
  }

  /** A write that fails changes nothing. */
  lemma FailedChangesNothing(db: Db, w: Write)
    requires !Succeeds(db, w)
    ensures Apply(db, w) == db
  {
    assert w.DelOf? ==> Of(db, w.engine) - {w.key} == Of(db, w.engine);
  }

  function Exec(db: Db, c: Command): Db {
    if WriteOf(c).None? then db else Apply(db, WriteOf(c).value)
  }

  predicate Logged(db: Db, c: Command) {
    WriteOf(c).Some? && Succeeds(db, WriteOf(c).value)
  }

  function Run(db: Db, cs: seq<Command>): Db
    decreases |cs|
  {
    if cs == [] then db else Run(Exec(db, cs[0]), cs[1..])
  }

  /** The part of a run that is logged. */
  function LogOf(db: Db, cs: seq<Command>): seq<Command>
    decreases |cs|
  {
    if cs == [] then [] else (if Logged(db, cs[0]) then [cs[0]] else []) + LogOf(Exec(db, cs[0]), cs[1..])
  }

  /** Every command of a log succeeded when it was logged. */
  ghost predicate Honest(db: Db, log: seq<Command>)
    decreases |log|
  {
    log == [] || (Logged(db, log[0]) && Honest(Exec(db, log[0]), log[1..]))
  }

  lemma {:induction false} RunConcat(db: Db, a: seq<Command>, b: seq<Command>)
    ensures Run(db, a + b) == Run(Run(db, a), b)
    decreases |a|
  {
    if a == [] {
      assert a + b == b;
    } else {
      assert (a + b)[1..] == a[1..] + b;
      RunConcat(Exec(db, a[0]), a[1..], b);
    }
  }

  /** Replaying the log of a run has the effect of the run, and the log is honest. */
  lemma {:induction false} LogReplays(db: Db, cs: seq<Command>)
    ensures Run(db, LogOf(db, cs)) == Run(db, cs) && Honest(db, LogOf(db, cs))
    decreases |cs|
  {
    if cs != [] {
      LogReplays(Exec(db, cs[0]), cs[1..]);
      var rest := LogOf(Exec(db, cs[0]), cs[1..]);
      if Logged(db, cs[0]) {
        assert ([cs[0]] + rest)[1..] == rest;
      } else {
        if WriteOf(cs[0]).Some? {
          FailedChangesNothing(db, WriteOf(cs[0]).value);
        }
        assert [] + rest == rest;
      }
    }
  }

  lemma {:induction false} LogOfConcat(db: Db, a: seq<Command>, b: seq<Command>)
    ensures LogOf(db, a + b) == LogOf(db, a) + LogOf(Run(db, a), b)
    decreases |a|
  {
    hide Exec, Logged;
    if a == [] {
      assert a + b == b;
    } else {
      assert (a + b)[1..] == a[1..] + b;
      LogOfConcat(Exec(db, a[0]), a[1..], b);
    }
  }

  lemma {:induction false} HonestPrefix(db: Db, log: seq<Command>, t: nat)
    requires Honest(db, log) && t <= |log|
    ensures Honest(db, log[..t])
    decreases t
  {
    if t > 0 {
      assert log[..t][1..] == log[1..][..t - 1];
      HonestPrefix(Exec(db, log[0]), log[1..], t - 1);
    }
  }

  // ---- what the server answers ----

  datatype Reply = Ok | Error | Exists | NoExist | Bulk(value: Str)

  /** The answer to a command of an engine; only the hash table takes a missing key of DEL for an error. */
  function Answer(e: Engine, verb: Verb, s: Store, key: Option<Str>, value: Option<Str>): Reply {
    var found := Lookup(s, key);
    match verb
    case Set => if key.None? || value.None? then Error else if found.Some? then Exists else Ok
    case Get => if found.Some? then Bulk(found.value) else NoExist
    case Del => if found.Some? then Ok else if key.None? || e == Hash then Error else NoExist
    case Mod =>
      if key.None? || (value.None? && e != Hash) then Error else if found.Some? then Ok else NoExist
    case Exist => if found.Some? then Exists else NoExist
  }

  /** The answer to a command of one of the engines. */
  function AnswerTo(db: Db, c: Command): Option<Reply> {
    if c == [] || Named(c[0]).None? then None
    else
      var (e, verb) := Named(c[0]).value;
      Some(Answer(e, verb, Of(db, e), Token(c, 1), Token(c, 2)))
  }

  /** What a command of an engine leaves there. */
  function After(verb: Verb, s: Store, key: Option<Str>, value: Option<Str>): Store {
    if key.None? then s
    else match verb
      case Set => if value.None? then s else AfterSet(s, key.value, value.value)
      case Mod => if value.None? then s else AfterMod(s, key.value, value.value)
      case Del => AfterDel(s, key.value)
      case _ => s
  }

  /** A command named e and verb goes to e, and is logged exactly if it is a write answered by OK. */
  lemma ExecIs(db: Db, c: Command, e: Engine, verb: Verb)
    requires c != [] && Named(c[0]) == Some((e, verb))
    requires Defined(e, verb, Of(db, e), Token(c, 1), Token(c, 2))
    ensures Exec(db, c) == Put(db, e, After(verb, Of(db, e), Token(c, 1), Token(c, 2)))
    ensures Logged(db, c) <==> verb in {Set, Del, Mod} && Answer(e, verb, Of(db, e), Token(c, 1), Token(c, 2)) == Ok
  {
    assert Put(db, e, Of(db, e)) == db;
  }

  /** HMOD of a present key without a value has no defined meaning. */
  predicate Defined(e: Engine, verb: Verb, s: Store, key: Option<Str>, value: Option<Str>) {
    e == Hash && verb == Mod && Lookup(s, key).Some? ==> value.Some?
  }

  predicate DefinedOn(db: Db, c: Command) {
    c != [] && Named(c[0]).Some? ==>
      var (e, verb) := Named(c[0]).value; Defined(e, verb, Of(db, e), Token(c, 1), Token(c, 2))
  }

  // ---- a dump, and the whole log on top of it ----

  /** The value under a key of an engine. */
  ghost function At(db: Db, e: Engine, k: Str): Option<Str> { Lookup(Of(db, e), Some(k)) }

  lemma ApplyAt(db: Db, w: Write, e: Engine, k: Str)
    ensures At(Apply(db, w), e, k) ==
      if e != w.engine || k != w.key then At(db, e, k)
      else match w
        case SetTo(_, _, v) => if At(db, e, k).Some? then At(db, e, k) else Some(v)
        case ModTo(_, _, v) => if At(db, e, k).Some? then Some(v) else None
        case DelOf(_, _) => None
  {
    assert Of(Put(db, w.engine, map[]), e) == if e == w.engine then map[] else Of(db, e);
  }

  /** For each key, b has what a has or what s has. */
  ghost predicate Between(a: Db, s: Db, b: Db) {
    forall e, k :: At(b, e, k) == At(a, e, k) || At(b, e, k) == At(s, e, k)
  }

  /** A write that succeeded on a, done on b: each key still agrees with a or with s. */
  lemma BetweenStep(a: Db, s: Db, b: Db, w: Write)
    requires Between(a, s, b) && Succeeds(a, w)
    ensures Between(Apply(a, w), s, Apply(b, w))
  {
    assert Succeeds(a, w) <==> (At(a, w.engine, w.key).Some? <==> !w.SetTo?);
    hide Apply, At, Succeeds;
    forall e, k ensures At(Apply(b, w), e, k) == At(Apply(a, w), e, k) || At(Apply(b, w), e, k) == At(s, e, k) {
      ApplyAt(a, w, e, k);
      ApplyAt(b, w, e, k);
      assert At(b, e, k) == At(a, e, k) || At(b, e, k) == At(s, e, k);
    }
  }

  lemma {:induction false} BetweenRun(a: Db, s: Db, b: Db, log: seq<Command>)
    requires Between(a, s, b) && Honest(a, log)
    ensures Between(Run(a, log), s, Run(b, log))
    decreases |log|
  {
    if log != [] {
      BetweenStep(a, s, b, WriteOf(log[0]).value);
      BetweenRun(Exec(a, log[0]), s, Exec(b, log[0]), log[1..]);
    }
  }

  lemma BetweenSame(a: Db, b: Db)
    requires Between(a, a, b)
    ensures b == a
  {
    forall e ensures Of(b, e) == Of(a, e) {
      forall k ensures Lookup(Of(b, e), Some(k)) == Lookup(Of(a, e), Some(k)) {
        assert At(b, e, k) == At(a, e, k);
      }
      SameLookups(Of(a, e), Of(b, e));
    }
    assert Of(b, Rbtree) == Of(a, Rbtree) && Of(b, Hash) == Of(a, Hash) && Of(b, Skiplist) == Of(a, Skiplist);
  }

  lemma SameLookups(a: Store, b: Store)
    requires forall k :: Lookup(b, Some(k)) == Lookup(a, Some(k))
    ensures a == b
  {
    forall k ensures (k in a <==> k in b) && (k in a ==> a[k] == b[k]) {
      assert Lookup(b, Some(k)) == Lookup(a, Some(k));
    }
  }

  /** An honest log has no further effect on the state that it led to. */
  lemma LogIdempotent(db: Db, log: seq<Command>)
    requires Honest(db, log)
    ensures Run(Run(db, log), log) == Run(db, log)
  {
    var s := Run(db, log);
    BetweenRun(db, s, s, log);
    BetweenSame(s, Run(s, log));
  }

  /** A dump taken at any time, and then the whole log, give what the log alone gives. */
  lemma DumpThenLog(db: Db, log: seq<Command>, t: nat)
    requires Honest(db, log) && t <= |log|
    ensures Run(Run(db, log[..t]), log) == Run(db, log)
  {
    var a, b := log[..t], log[t..];
    assert log == a + b;
    HonestPrefix(db, log, t);
    LogIdempotent(db, a);
    RunConcat(db, a, b);
    RunConcat(Run(db, a), a, b);
  }

  /** If the log lost its end before the dump was taken, each key is as in the dump or as in the log. */
  lemma DumpThenShortLog(db: Db, log: seq<Command>, t: nat, m: nat)
    requires Honest(db, log) && m <= t <= |log|
    ensures Between(Run(db, log[..m]), Run(db, log[..t]), Run(Run(db, log[..t]), log[..m]))
  {
    HonestPrefix(db, log, m);
    var s := Run(db, log[..t]);
    BetweenRun(db, s, s, log[..m]);
  }

  /** Were failed writes logged too, replaying the log on the dump could bring back a value that never was. */
  lemma FailedWritesMustNotBeLogged()
    ensures var log := [[[R] + MOD, [107], [120]], [[R] + SET, [107], [118]]];
      Run(EMPTY, log) == EMPTY.(rb := map[[107] := [118]]) && Run(Run(EMPTY, log), log) == EMPTY.(rb := map[[107] := [120]])
  {
    var mod, set': Command := [[R] + MOD, [107], [120]], [[R] + SET, [107], [118]];
    assert WriteOf(mod) == Some(ModTo(Rbtree, [107], [120])) by { assert ([R] + MOD)[1..] == MOD; }
    assert WriteOf(set') == Some(SetTo(Rbtree, [107], [118])) by { assert ([R] + SET)[1..] == SET; }
    RunTwo(EMPTY, mod, set');
    RunTwo(Run(EMPTY, [mod, set']), mod, set');
  }

  lemma RunTwo(db: Db, c: Command, d: Command)
    ensures Run(db, [c, d]) == Exec(Exec(db, c), d)
  {
    assert [c, d][1..] == [d] && [d][1..] == [];
    assert Run(Exec(Exec(db, c), d), []) == Exec(Exec(db, c), d);
  }

  /** A log that lost its end before the dump was taken can lead to a store that never was. */
  lemma ShortLogMixes()
    ensures var log := [[[R] + SET, [97], []], [[R] + DEL, [97]], [[R] + SET, [98], []]];
      && Honest(EMPTY, log)
      && Run(Run(EMPTY, log), log[..1]) == EMPTY.(rb := map[[97] := [], [98] := []])
      && forall t :: 0 <= t <= 3 ==> Run(EMPTY, log[..t]) != EMPTY.(rb := map[[97] := [], [98] := []])
  {
    var a, b, c: Command := [[R] + SET, [97], []], [[R] + DEL, [97]], [[R] + SET, [98], []];
    assert WriteOf(a) == Some(SetTo(Rbtree, [97], [])) && WriteOf(c) == Some(SetTo(Rbtree, [98], [])) by { assert ([R] + SET)[1..] == SET; }
    assert WriteOf(b) == Some(DelOf(Rbtree, [97])) by { assert ([R] + DEL)[1..] == DEL; }
    hide WriteOf;
    var d1, d2, d3 := EMPTY.(rb := map[[97] := []]), EMPTY, EMPTY.(rb := map[[98] := []]);
    assert Exec(EMPTY, a) == d1 && Exec(d1, b) == d2 && Exec(d2, c) == d3;
    assert Exec(d3, a) == EMPTY.(rb := map[[97] := [], [98] := []]);
    assert Logged(EMPTY, a) && Logged(d1, b) && Logged(d2, c);
    hide Exec, Logged;
    Prefixes(a, b, c, d1, d2, d3);
    var log := [a, b, c];
    assert log[..1] == [a];
    RunOne(d3, a);
    var both := EMPTY.(rb := map[[97] := [], [98] := []]);
    assert [97] in both.rb && [98] in both.rb && [98] !in d1.rb && [97] !in d3.rb;
    forall t | 0 <= t <= 3 ensures Run(EMPTY, log[..t]) != both {}
  }

  lemma RunOne(db: Db, c: Command)
    ensures Run(db, [c]) == Exec(db, c)
  {
    var one: seq<Command> := [c];
    assert one[1..] == [];
    assert Run(Exec(db, c), []) == Exec(db, c);
  }

  lemma Prefixes(a: Command, b: Command, c: Command, d1: Db, d2: Db, d3: Db)
    requires Exec(EMPTY, a) == d1 && Exec(d1, b) == d2 && Exec(d2, c) == d3
    requires Logged(EMPTY, a) && Logged(d1, b) && Logged(d2, c)
    ensures var log := [a, b, c];
      && Honest(EMPTY, log) && Run(EMPTY, log) == d3
      && forall t :: 0 <= t <= 3 ==> Run(EMPTY, log[..t]) == if t == 0 then EMPTY else if t == 1 then d1 else if t == 2 then d2 else d3
  {
    hide Exec, Logged;
    var log := [a, b, c];
    assert log[1..] == [b, c] && [b, c][1..] == [c] && [c][1..] == [];
    assert log[..0] == [] && log[..1] == [a] && log[..2] == [a, b] && log[..3] == log;
    RunOne(EMPTY, a);
    RunTwo(EMPTY, a, b);
    RunTwo(d1, b, c);
    assert Honest(d3, []);
    assert Honest(d2, [c]);
    assert Honest(d1, [b, c]);
  }

  // ---- the engines agree ----

  /** A command's verb and tokens, whatever the engine. */
  datatype Op = Op(verb: Verb, key: Option<Str>, value: Option<Str>)

  function Letter(e: Engine): byte { match e case Rbtree => R case Hash => H case Skiplist => L }

  function Word(verb: Verb): Str {
    match verb case Set => SET case Get => GET case Del => DEL case Mod => MOD case Exist => EXIST
  }

  /** The command for an engine; a value without a key cannot be sent. */
  function CommandFor(e: Engine, op: Op): Command {
    [[Letter(e)] + Word(op.verb)] + (if op.key.None? then [] else [op.key.value] + if op.value.None? then [] else [op.value.value])
  }

  /** Each operation, sent to all three engines. */
  function Mirrored(ops: seq<Op>): seq<Command> {
    if ops == [] then [] else [CommandFor(Rbtree, ops[0]), CommandFor(Hash, ops[0]), CommandFor(Skiplist, ops[0])] + Mirrored(ops[1..])
  }

  lemma CommandForIs(e: Engine, op: Op, db: Db)
    ensures var s := Of(db, e); Exec(db, CommandFor(e, op)) == Put(db, e, After(op.verb, s, op.key, op.value))
  {
    var word := [Letter(e)] + Word(op.verb);
    assert word[1..] == Word(op.verb);
    assert Named(word) == Some((e, op.verb));
    assert Put(db, e, Of(db, e)) == db;
  }

  /** After any operations sent to all engines, they hold the same map. */
  lemma {:induction false} EnginesAgree(db: Db, ops: seq<Op>)
    requires db.rb == db.hash == db.skip
    ensures var db' := Run(db, Mirrored(ops)); db'.rb == db'.hash == db'.skip
    decreases |ops|
  {
    hide Exec, After, CommandFor;
    if ops != [] {
      var op := ops[0];
      var s := After(op.verb, db.rb, op.key, op.value);
      var a, b, c := CommandFor(Rbtree, op), CommandFor(Hash, op), CommandFor(Skiplist, op);
      CommandForIs(Rbtree, op, db);
      CommandForIs(Hash, op, db.(rb := s));
      CommandForIs(Skiplist, op, db.(rb := s, hash := s));
      RunConcat(db, [a, b, c], Mirrored(ops[1..]));
      RunTwo(Exec(db, a), b, c);
      assert [a, b, c][1..] == [b, c];
      EnginesAgree(Db(s, s, s), ops[1..]);
    }
  }

  /** Their answers differ exactly where the hash table takes a missing key of DEL for an error, or MOD has no value. */
  lemma AnswersAgree(verb: Verb, s: Store, key: Option<Str>, value: Option<Str>)
    requires Defined(Hash, verb, s, key, value)
    ensures Answer(Rbtree, verb, s, key, value) == Answer(Skiplist, verb, s, key, value)
    ensures Answer(Hash, verb, s, key, value) != Answer(Rbtree, verb, s, key, value) <==>
      key.Some? && key.value !in s && (verb == Del || (verb == Mod && value.None?))
  {}
}
