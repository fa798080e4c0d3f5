/** The same operations, sent to all three engines. */
module Mirror {
  import opened Kv
  import opened Commands
  import opened Database
  import opened SkipLevels

  /** The three answers to an operation. */
  datatype Answers = Answers(rb: Reply, hash: Reply, skip: Reply)

  /** An operation of a key that is missing, where the hash table's answer differs. */
  predicate Odd(op: Op, s: Store) {
    op.key.Some? && op.key.value !in s && (op.verb == Del || (op.verb == Mod && op.value.None?))
  }

  ghost predicate Same(db: Db) { db.rb == db.hash == db.skip }

  lemma {:induction false} MirroredConcat(a: seq<Op>, b: seq<Op>)
    ensures Mirrored(a + b) == Mirrored(a) + Mirrored(b)
  {
    hide CommandFor;
    if a == [] {
      assert a + b == b;
    } else {
      assert (a + b)[1..] == a[1..] + b;
      MirroredConcat(a[1..], b);
    }
  }

  /** One more operation. */
  lemma MirroredMore(db: Db, ops: seq<Op>, op: Op)
    ensures var a, b, c := CommandFor(Rbtree, op), CommandFor(Hash, op), CommandFor(Skiplist, op);
      Run(db, Mirrored(ops + [op])) == Exec(Exec(Exec(Run(db, Mirrored(ops)), a), b), c)
  {
    hide Exec, CommandFor;
    var a, b, c := CommandFor(Rbtree, op), CommandFor(Hash, op), CommandFor(Skiplist, op);
    var one: seq<Op> := [op];
    assert one[1..] == [];
    assert Mirrored(one) == [a, b, c] + Mirrored([]);
    assert [a, b, c] + [] == [a, b, c] && [a, b, c][1..] == [b, c];
    MirroredConcat(ops, one);
    var db' := Run(db, Mirrored(ops));
    RunConcat(db, Mirrored(ops), Mirrored(one));
    RunTwo(Exec(db', a), b, c);
  }

  /** What an engine answers to its command of an operation, and when the command has a meaning. */
  lemma AnswerFor(e: Engine, op: Op, db: Db)
    requires op.key.None? ==> op.value.None?
    ensures CommandFor(e, op) != [] && AnswerTo(db, CommandFor(e, op)) == Some(Answer(e, op.verb, Of(db, e), op.key, op.value))
    ensures DefinedOn(db, CommandFor(e, op)) <==> Defined(e, op.verb, Of(db, e), op.key, op.value)
  {
    var word := [Letter(e)] + Word(op.verb);
    assert word[1..] == Word(op.verb);
    assert Named(word) == Some((e, op.verb));
    hide Answer, Named, Defined;
  }

  /** The three commands of one operation. */
  method Send(db: Engines, op: Op, level: nat) returns (r: Answers)
    requires db.Valid() && Same(db.State()) && level < MAX_LEVEL && (op.key.None? ==> op.value.None?)
    requires Defined(Hash, op.verb, db.State().hash, op.key, op.value)
    modifies db.repr
    ensures db.Valid() && fresh(db.repr - old(db.repr))
    ensures var a, b, c := CommandFor(Rbtree, op), CommandFor(Hash, op), CommandFor(Skiplist, op);
      db.State() == Exec(Exec(Exec(old(db.State()), a), b), c)
    ensures r.rb == r.skip && (r.hash != r.rb <==> Odd(op, old(db.State()).rb))
  {
    hide Engines.Valid, Engines.State, Exec, Logged, DefinedOn, CommandFor, AnswerTo, Answer, After;
    ghost var s := db.State().rb;
    CommandForIs(Rbtree, op, db.State());
    AnswerFor(Rbtree, op, db.State());
    var rb, _ := db.Execute(CommandFor(Rbtree, op), level);
    CommandForIs(Hash, op, db.State());
    AnswerFor(Hash, op, db.State());
    var hash, _ := db.Execute(CommandFor(Hash, op), level);
    AnswerFor(Skiplist, op, db.State());
    var skip, _ := db.Execute(CommandFor(Skiplist, op), level);
    AnswersAgree(op.verb, s, op.key, op.value);
    r := Answers(rb.value, hash.value, skip.value);
  }

  /** Each operation has a meaning on the store that it meets. */
  ghost predicate AllDefined(db: Db, ops: seq<Op>) {
    forall i :: 0 <= i < |ops| ==>
      && (ops[i].key.None? ==> ops[i].value.None?)
      && Defined(Hash, ops[i].verb, Run(db, Mirrored(ops[..i])).hash, ops[i].key, ops[i].value)
  }

  /**
   * After any operations, the three engines hold the same map; the tree and the skip list answered the
   * same, and the hash table something else exactly where a missing key of DEL is an error to it, or MOD
   * of a missing key came without a value.
   */
  method SendAll(db: Engines, ops: seq<Op>, level: nat -> nat) returns (rs: seq<Answers>)
    requires db.Valid() && Same(db.State()) && AllDefined(db.State(), ops) && forall i :: level(i) < MAX_LEVEL
    modifies db.repr
    ensures db.Valid() && fresh(db.repr - old(db.repr))
    ensures Same(db.State()) && db.State() == Run(old(db.State()), Mirrored(ops))
    ensures |rs| == |ops|
    ensures forall i :: 0 <= i < |ops| ==> rs[i].rb == rs[i].skip
    ensures forall i :: 0 <= i < |ops| ==>
      (rs[i].hash != rs[i].rb <==> Odd(ops[i], Run(old(db.State()), Mirrored(ops[..i])).rb))
  {
    hide Engines.Valid, Engines.State, Exec, CommandFor, Run, Mirrored, Odd, Defined;
    ghost var start := db.State();
    rs := [];
    assert ops[..0] == [];
    SentNothing(start);
    for i := 0 to |ops|
      invariant db.Valid() && fresh(db.repr - old(db.repr))
      invariant Same(db.State()) && db.State() == Run(start, Mirrored(ops[..i]))
      invariant |rs| == i && forall j :: 0 <= j < i ==> rs[j].rb == rs[j].skip
      invariant forall j :: 0 <= j < i ==> (rs[j].hash != rs[j].rb <==> Odd(ops[j], Run(start, Mirrored(ops[..j])).rb))
    {
      MirroredMore(start, ops[..i], ops[i]);
      assert ops[..i] + [ops[i]] == ops[..i + 1];
      EnginesAgree(start, ops[..i + 1]);
      var r := Send(db, ops[i], level(i));
      rs := rs + [r];
    }
    assert ops[..|ops|] == ops;
  }

  lemma SentNothing(db: Db)
    ensures Run(db, Mirrored([])) == db
  {}
}
