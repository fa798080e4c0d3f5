/** Recovery: replaying a log or loading a dump, byte by byte. */
module Persistence {
  import opened Bytes
  import opened Kv
  import opened Kvsp
  import opened KvspCode
  import opened Framing
  import opened Commands
  import opened ServerReader
  import opened Database
  import opened RbTree
  import opened HashEngine
  import opened SkipListEngine
  import opened SkipLevels

  const BUFFER_SIZE: nat := 1024

  /** The two handlers of a file's frames: one executes commands, the other loads saved bindings. */
  datatype Handler = Protocol | Save

  /** The engine that a dump's record names by the first letter of its first token. */
  function SavedIn(t: Str): Option<Engine> {
    if t == [] then None
    else if t[0] == 72 then Some(Hash) else if t[0] == 82 then Some(Rbtree) else if t[0] == 83 then Some(Skiplist) else None
  }

  function Load(db: Db, c: Command): Option<Db> {
    if |c| != 3 then None
    else if SavedIn(c[0]).None? then Some(db)
    else
      var e := SavedIn(c[0]).value;
      Some(Put(db, e, AfterSet(Of(db, e), c[1], c[2])))
  }

  /** What a handler does with a frame. */
  ghost function Handled(h: Handler, db: Db, frame: Str): Option<Db> {
    var c := CommandOf(frame);
    if c.None? then None else match h
      case Protocol => Some(Exec(db, c.value))
      case Save => Load(db, c.value)
  }

  ghost function StepOf(h: Handler): (Db, Str) -> Option<Db> {
    (db: Db, frame: Str) => Handled(h, db, frame)
  }

  /** HMOD comes with a value. */
  ghost predicate Complete(c: Command) {
    c != [] && Named(c[0]) == Some((Hash, Mod)) ==> |c| > 2
  }

  /** Such a command is defined on every store, and no other is ever logged. */
  lemma CompleteDefined(db: Db, c: Command)
    ensures Complete(c) ==> DefinedOn(db, c)
    ensures Logged(db, c) ==> Complete(c)
  {}

  /** Every command that is executed has a meaning on the store that it meets. */
  ghost predicate AllDefined(h: Handler, s: Str, db: Db)
    decreases |s|
  {
    h == Save || s == [] || !Parse(s).Frame? ||
    (var n := Parse(s).total; var c := CommandOf(s[..n]);
     c.Some? ==> DefinedOn(db, c.value) && AllDefined(h, s[n..], Exec(db, c.value)))
  }

  lemma LoadingDefined(s: Str, db: Db)
    ensures AllDefined(Save, s, db)
  {}

  /** Handle the command of a frame; level is what the skip list would draw. */
  method Handle(db: Engines, h: Handler, ghost frame: Str, c: Option<Command>, level: nat) returns (ret: int)
    requires db.Valid() && level < MAX_LEVEL && c == CommandOf(frame)
    requires h == Protocol && c.Some? ==> DefinedOn(db.State(), c.value)
    modifies db.repr
    ensures db.Valid() && fresh(db.repr - old(db.repr))
    ensures var r := Handled(h, old(db.State()), frame);
      (ret >= 0 <==> r.Some?) && db.State() == if r.Some? then r.value else old(db.State())
  {
    hide Exec, DefinedOn, Engines.Valid, Engines.State;
    if c.None? || c.value == [] {
      return -1;
    }
    match h
    case Protocol =>
      var reply, logged := db.Execute(c.value, level);
      return 0;
    case Save =>
      ret := HandleSave(db, c.value, level);
  }

  method HandleSave(db: Engines, c: Command, level: nat) returns (ret: int)
    requires db.Valid() && level < MAX_LEVEL
    modifies db.repr
    ensures db.Valid() && fresh(db.repr - old(db.repr))
    ensures var r := Load(old(db.State()), c);
      (ret >= 0 <==> r.Some?) && db.State() == if r.Some? then r.value else old(db.State())
  {
    hide RedBlackTree.Valid, RedBlackTree.Contents, HashTable.Valid, HashTable.Contents, SkipList.Valid, SkipList.Contents;
    if |c| != 3 {
      return -2;
    }
    if SavedIn(c[0]).None? {
      return 0;
    }
    var reply;
    match SavedIn(c[0]).value {
      case Hash => reply := db.OnHash(Set, Some(c[1]), Some(c[2]));
      case Rbtree => reply := db.OnRbtree(Set, Some(c[1]), Some(c[2]));
      case Skiplist => reply := db.OnSkiplist(Set, Some(c[1]), Some(c[2]), level);
    }
    return 0;
  }

  /** Copy a frame of the file into the read buffer, which grows if it must. */
  method Fill(rbuf: array<byte>, file: array<byte>, pos: nat, total: nat) returns (buf: array<byte>)
    requires pos + total <= file.Length && rbuf != file
    modifies rbuf
    ensures (buf == rbuf || fresh(buf)) && buf != file && total < buf.Length && buf[..total] == file[pos..pos + total]
  {
    buf := rbuf;
    if total + 1 > rbuf.Length {
      buf := new byte[total + 1];
    }
    forall i | 0 <= i < total {
      buf[i] := file[pos + i];
    }
    buf[total] := 0;
  }

  method ReadFrame(rbuf: array<byte>, file: array<byte>, pos: nat, head: nat, total: nat) returns (buf: array<byte>,
      c: Option<Command>)
    requires 0 < total && pos + total <= file.Length && rbuf != file
    requires Parse(file[pos..pos + total]) == Frame(head, total)
    modifies rbuf
    ensures (buf == rbuf || fresh(buf)) && buf != file && c == CommandOf(file[pos..pos + total])
  {
    hide Parse, CommandOf;
    ghost var frame := file[pos..pos + total];
    buf := Fill(rbuf, file, pos, total);
    assert buf[..total] == frame;
    c := ReadCommand(buf, head, total);
    assert file[pos..pos + total] == frame;
  }

  /** The state that reading a file from pos on leads to. */
  ghost function Outcome(file: Str, pos: nat, db: Db, h: Handler): Db
    requires pos <= |file|
  {
    Drain(file[pos..], db, StepOf(h)).state
  }

  /** The length of the frame at pos, or 0. */
  ghost function FrameAt(file: Str, pos: nat): (n: nat)
    requires pos < |file|
    ensures pos + n <= |file|
  {
    if Parse(file[pos..]).Frame? then Parse(file[pos..]).total else 0
  }

  lemma CutAt(file: Str, pos: nat, n: nat)
    requires pos + n <= |file|
    ensures file[pos..][..n] == file[pos..pos + n] && file[pos..][n..] == file[pos + n..]
  {}

  /** What one frame means for the rest of the file. */
  lemma OneFrame(file: Str, pos: nat, db: Db, h: Handler)
    requires pos < |file| && AllDefined(h, file[pos..], db)
    ensures var n := FrameAt(file, pos);
      if n == 0 then Outcome(file, pos, db, h) == db
      else
        var c, r := CommandOf(file[pos..pos + n]), Handled(h, db, file[pos..pos + n]);
        && (h == Protocol && c.Some? ==> DefinedOn(db, c.value))
        && (r.Some? ==> AllDefined(h, file[pos + n..], r.value))
        && Outcome(file, pos, db, h) == if r.None? then db else Outcome(file, pos + n, r.value, h)
  {
    hide Parse, CommandOf, DefinedOn, Exec, Load;
    CutAt(file, pos, FrameAt(file, pos));
    if Parse(file[pos..]).Frame? {
      ParsedSize(file[pos..]);
    }
  }

  lemma ParsedSize(s: Str)
    requires |s| > 0 && Parse(s).Frame?
    ensures 4 <= Parse(s).total <= |s|
  {}

  /** The frame at pos, read into the buffer and split there. */
  method NextFrame(file: array<byte>, pos: nat, rbuf: array<byte>, ghost bytes: Str) returns (buf: array<byte>,
      total: nat, c: Option<Command>)
    requires pos < file.Length && bytes == file[..] && rbuf != file
    modifies rbuf
    ensures (buf == rbuf || fresh(buf)) && buf != file && file[..] == bytes && total == FrameAt(bytes, pos)
    ensures total > 0 ==> c == CommandOf(bytes[pos..pos + total])
  {
    hide Parse, CommandOf;
    ghost var s := bytes[pos..];
    FileSlice(file, pos, file.Length);
    var len, head := ParseBulkSize(file, pos, file.Length - pos);
    buf, c := rbuf, None;
    if len <= 0 {
      return buf, 0, c;
    }
    ParsedSize(s);
    FrameAlone(s, head, len);
    CutAt(bytes, pos, len);
    FileSlice(file, pos, pos + len);
    buf, c := ReadFrame(rbuf, file, pos, head, len);
    return buf, len, c;
  }

  lemma FileSlice(file: array<byte>, lo: nat, hi: nat)
    requires lo <= hi <= file.Length
    ensures file[..][lo..hi] == file[lo..hi] && (hi == file.Length ==> file[..][lo..] == file[lo..hi])
  {}

  /** From before to after, total bytes of the file were read at pos; 0 if there was nothing more to read. */
  ghost predicate Advanced(file: Str, pos: nat, total: nat, before: Db, after: Db, h: Handler)
    requires pos <= |file|
  {
    if total == 0 then after == Outcome(file, pos, before, h)
    else pos + total <= |file| && AllDefined(h, file[pos + total..], after) && Outcome(file, pos + total, after, h) == Outcome(file, pos, before, h)
  }

  /** Read the frame at pos, if there is a whole one. */
  method ReadOne(db: Engines, h: Handler, file: array<byte>, pos: nat, rbuf: array<byte>, level: nat, ghost bytes: Str)
    returns (buf: array<byte>, total: nat)
    requires db.Valid() && level < MAX_LEVEL && rbuf !in db.repr && file !in db.repr && rbuf != file
    requires pos < file.Length && bytes == file[..] && AllDefined(h, bytes[pos..], db.State())
    modifies rbuf, db.repr
    ensures db.Valid() && fresh(db.repr - old(db.repr)) && file[..] == bytes
    ensures (buf == rbuf || fresh(buf)) && buf !in db.repr && buf != file
    ensures Advanced(bytes, pos, total, old(db.State()), db.State(), h)
  {
    hide Engines.Valid, Engines.State, FrameAt, Outcome, AllDefined, Handled, CommandOf, DefinedOn;
    OneFrame(bytes, pos, db.State(), h);
    var c;
    buf, total, c := NextFrame(file, pos, rbuf, bytes);
    if total > 0 {
      var ret := Handle(db, h, bytes[pos..pos + total], c, level);
      if ret < 0 {
        total := 0;
      }
    }
  }

  /** Read a file frame by frame, up to the first that is torn, malformed or refused. */
  method FileRead(db: Engines, h: Handler, file: array<byte>, level: nat -> nat) returns (ret: int)
    requires db.Valid() && file !in db.repr && AllDefined(h, file[..], db.State()) && forall i :: level(i) < MAX_LEVEL
    modifies db.repr
    ensures db.Valid() && fresh(db.repr - old(db.repr))
    ensures ret == if file.Length == 0 then -1 else 0
    ensures db.State() == Drain(file[..], old(db.State()), StepOf(h)).state
  {
    hide Engines.Valid, Engines.State, Drain, AllDefined;
    if file.Length == 0 {
      assert file[..] == [];
      EmptyFile(db.State(), h);
      return -1;
    }
    var rbuf := new byte[BUFFER_SIZE + 1];
    var pos := 0;
    ghost var bytes := file[..];
    assert bytes[0..] == bytes;
    while pos < file.Length
      invariant pos <= file.Length && db.Valid() && fresh(db.repr - old(db.repr))
      invariant fresh(rbuf) && rbuf !in db.repr && rbuf != file && file[..] == bytes && file !in db.repr
      invariant AllDefined(h, bytes[pos..], db.State()) && Outcome(bytes, pos, db.State(), h) == Outcome(bytes, 0, old(db.State()), h)
    {
      var total;
      rbuf, total := ReadOne(db, h, file, pos, rbuf, level(pos), bytes);
      if total == 0 {
        return 0;
      }
      pos := pos + total;
    }
    assert bytes[pos..] == [];
    EmptyFile(db.State(), h);
    return 0;
  }

  lemma EmptyFile(db: Db, h: Handler)
    ensures Drain([], db, StepOf(h)).state == db
  {}
}
