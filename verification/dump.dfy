/** Saving: the traversals that write a dump, and what loading it gives. */
module Dump {
  import opened Bytes
  import opened Kv
  import opened Pairs
  import opened Kvsp
  import opened Framing
  import opened Commands
  import opened ServerReader
  import opened Persistence
  import opened Recovery

  const RBTREE: Str := [82, 66, 84, 82, 69, 69]
  const HASHTABLE: Str := [72, 65, 83, 72]
  const SKIPLIST: Str := [83, 75, 73, 80, 76, 73, 83, 84]

  function NameOf(e: Engine): Str {
    match e case Rbtree => RBTREE case Hash => HASHTABLE case Skiplist => SKIPLIST
  }

  /** The record of a binding. */
  function Record(e: Engine, p: Pair): Command { [NameOf(e), p.key, p.value] }

  function Records(e: Engine, s: seq<Pair>): (r: seq<Command>)
    ensures |r| == |s| && forall i :: 0 <= i < |s| ==> r[i] == Record(e, s[i])
  {
    seq(|s|, i requires 0 <= i < |s| => Record(e, s[i]))
  }

  ghost function SaveBytes(e: Engine, s: seq<Pair>): Str { LogBytes(Records(e, s)) }

  lemma {:induction false} LogConcat(a: seq<Command>, b: seq<Command>)
    ensures LogBytes(a + b) == LogBytes(a) + LogBytes(b)
  {
    if a == [] {
      assert a + b == b;
    } else {
      assert (a + b)[1..] == a[1..] + b;
      LogConcat(a[1..], b);
    }
  }

  lemma SaveConcat(e: Engine, a: seq<Pair>, b: seq<Pair>)
    ensures SaveBytes(e, a + b) == SaveBytes(e, a) + SaveBytes(e, b)
  {
    assert Records(e, a + b) == Records(e, a) + Records(e, b);
    LogConcat(Records(e, a), Records(e, b));
  }

  lemma SaveOne(e: Engine, p: Pair)
    ensures SaveBytes(e, [p]) == FrameOf(Record(e, p))
  {
    assert Records(e, [p]) == [Record(e, p)];
    var c: Command := Record(e, p);
    var one: seq<Command> := [c];
    assert one[1..] == [];
    assert LogBytes([c]) == FrameOf(c) + LogBytes([]) == FrameOf(c);
  }

  /** The record of one binding, as the format string of the dump writes it. */
  method BuildRecord(e: Engine, key: Str, value: Str) returns (buf: Str)
    ensures buf == FrameOf(Record(e, Pair(key, value)))
  {
    var name := NameOf(e);
    var body := [CARET] + Dec(|name|) + [AMP] + name + [CARET] + Dec(|key|) + [AMP] + key + [CARET] + Dec(|value|) + [AMP] + value + [CR, LF];
    RecordBody(name, key, value);
    hide Dec, NameOf, Encode;
    buf := [HASH] + Dec(|body|) + [CR, LF] + body;
  }

  lemma RecordBody(a: Str, b: Str, c: Str)
    ensures Body([a, b, c]) ==
      [CARET] + Dec(|a|) + [AMP] + a + [CARET] + Dec(|b|) + [AMP] + b + [CARET] + Dec(|c|) + [AMP] + c + [CR, LF]
  {
    hide Dec, Encode;
    EncodeThree(a, b, c);
  }

  lemma EncodeThree(a: Str, b: Str, c: Str)
    ensures Encode([a, b, c]) == EncodeToken(a) + (EncodeToken(b) + EncodeToken(c))
  {
    assert [a, b, c][1..] == [b, c] && [b, c][1..] == [c] && [c][1..] == [];
    hide EncodeToken;
    assert Encode([c]) == EncodeToken(c) + Encode([]) == EncodeToken(c);
  }

  // ---- loading ----

  /** A binding whose record fits into one frame. */
  ghost predicate Storable(e: Engine, p: Pair) {
    0 !in p.key && 0 !in p.value && |FrameOf(Record(e, p))| <= INT_MAX
  }

  ghost predicate AllStorable(e: Engine, s: seq<Pair>) {
    forall i :: 0 <= i < |s| ==> Storable(e, s[i])
  }

  lemma RecordLoads(e: Engine, p: Pair, db: Db)
    requires Storable(e, p)
    ensures Framed(Record(e, p))
    ensures Load(db, Record(e, p)) == Some(Put(db, e, AfterSet(Of(db, e), p.key, p.value)))
  {}

  /** One record, and what follows it. */
  lemma LoadRecord(e: Engine, p: Pair, rest: Str, db: Db)
    requires Storable(e, p)
    ensures var db' := Put(db, e, AfterSet(Of(db, e), p.key, p.value)); var s := FrameOf(Record(e, p)) + rest;
      Drain(s, db, StepOf(Save)) == Drain(rest, db', StepOf(Save))
  {
    hide FrameOf, Parse, CommandOf, Load, Record, Storable, Framed;
    var c := Record(e, p);
    RecordLoads(e, p, db);
    FrameCommand(c, rest);
    assert (FrameOf(c) + rest)[|FrameOf(c)|..] == rest;
  }

  lemma SaveFirst(e: Engine, s: seq<Pair>, rest: Str)
    requires s != []
    ensures SaveBytes(e, s) + rest == FrameOf(Record(e, s[0])) + (SaveBytes(e, s[1..]) + rest)
  {
    hide SaveBytes, FrameOf, Record;
    SaveConcat(e, [s[0]], s[1..]);
    SaveOne(e, s[0]);
    assert [s[0]] + s[1..] == s;
  }

  lemma AfterFirst(s: seq<Pair>, m: Store)
    requires s != []
    ensures MapOf(s[1..]) + AfterSet(m, s[0].key, s[0].value) == MapOf(s) + m
  {}

  /** Loading an engine's records adds the bindings whose keys are not there yet. */
  lemma {:induction false} LoadRecords(e: Engine, s: seq<Pair>, rest: Str, db: Db)
    requires AllStorable(e, s)
    ensures Drain(SaveBytes(e, s) + rest, db, StepOf(Save)) == Drain(rest, Put(db, e, MapOf(s) + Of(db, e)), StepOf(Save))
    decreases |s|
  {
    hide Drain, FrameOf, Record, Storable, AfterSet;
    if s == [] {
      assert SaveBytes(e, s) + rest == rest && MapOf(s) + Of(db, e) == Of(db, e) && Put(db, e, Of(db, e)) == db;
    } else {
      hide SaveBytes, MapOf;
      var p, t, m := s[0], s[1..], Of(db, e);
      var db' := Put(db, e, AfterSet(m, p.key, p.value));
      SaveFirst(e, s, rest);
      LoadRecord(e, p, SaveBytes(e, t) + rest, db);
      LoadRecords(e, t, rest, db');
      AfterFirst(s, m);
      assert Put(db', e, MapOf(t) + Of(db', e)) == Put(db, e, MapOf(s) + m);
    }
  }

  /** Loading a dump into empty engines gives the bindings that were saved. */
  lemma LoadDump(rbs: seq<Pair>, hs: seq<Pair>, ss: seq<Pair>)
    requires AllStorable(Rbtree, rbs) && AllStorable(Hash, hs) && AllStorable(Skiplist, ss)
    ensures var bytes := SaveBytes(Rbtree, rbs) + SaveBytes(Hash, hs) + SaveBytes(Skiplist, ss);
      Drain(bytes, EMPTY, StepOf(Save)).state == Db(MapOf(rbs), MapOf(hs), MapOf(ss))
  {
    hide Drain, SaveBytes, MapOf, AllStorable;
    var a, b, c := SaveBytes(Rbtree, rbs), SaveBytes(Hash, hs), SaveBytes(Skiplist, ss);
    assert a + b + c == a + (b + (c + []));
    LoadRecords(Rbtree, rbs, b + (c + []), EMPTY);
    assert MapOf(rbs) + map[] == MapOf(rbs) && MapOf(hs) + map[] == MapOf(hs) && MapOf(ss) + map[] == MapOf(ss);
    var db1 := Db(MapOf(rbs), map[], map[]);
    LoadRecords(Hash, hs, c + [], db1);
    LoadRecords(Skiplist, ss, [], db1.(hash := MapOf(hs)));
    NothingLeft(Db(MapOf(rbs), MapOf(hs), MapOf(ss)));
  }

  lemma NothingLeft(db: Db)
    ensures Drain([], db, StepOf(Save)).state == db
  {}
}
