/** The words and the notation of the protocol, in plain text, and what clients can rely on. */
module WireText {
  import opened Bytes
  import opened Kv
  import opened Kvsp
  import opened Framing
  import opened Commands
  import opened Meeting
  import opened ServerReader
  import opened Persistence
  import opened Recovery
  import opened ReceiveLoop
  import opened Dump
  import opened Agent
  import opened Traffic

  /** The bytes of an ASCII text. */
  function Ascii(s: string): (r: Str)
    ensures |r| == |s| && forall i :: 0 <= i < |s| ==> r[i] == s[i] as int % 256
  {
    seq(|s|, i requires 0 <= i < |s| => s[i] as int % 256)
  }

  lemma AsciiConcat(a: string, b: string)
    ensures Ascii(a + b) == Ascii(a) + Ascii(b)
  {}

  // ---- the words of the commands ----

  function Text(e: Engine, verb: Verb): string {
    match e
    case Rbtree =>
      (match verb case Set => "RSET" case Get => "RGET" case Del => "RDEL" case Mod => "RMOD" case Exist => "REXIST")
    case Hash =>
      (match verb case Set => "HSET" case Get => "HGET" case Del => "HDEL" case Mod => "HMOD" case Exist => "HEXIST")
    case Skiplist =>
      (match verb case Set => "LSET" case Get => "LGET" case Del => "LDEL" case Mod => "LMOD" case Exist => "LEXIST")
  }

  lemma VerbText()
    ensures Ascii("SET") == SET && Ascii("GET") == GET && Ascii("DEL") == DEL && Ascii("MOD") == MOD && Ascii("EXIST") == EXIST
    ensures Ascii("R") == [R] && Ascii("H") == [H] && Ascii("L") == [L]
  {}

  lemma TextIs(e: Engine, verb: Verb)
    ensures Ascii(Text(e, verb)) == [Letter(e)] + Word(verb)
  {
    VerbText();
    var letter := match e case Rbtree => "R" case Hash => "H" case Skiplist => "L";
    var word := match verb case Set => "SET" case Get => "GET" case Del => "DEL" case Mod => "MOD" case Exist => "EXIST";
    hide Ascii;
    AsciiConcat(letter, word);
    assert Text(e, verb) == letter + word;
  }

  lemma LetterOf(b: byte, e: Engine)
    ensures EngineOf(b) == Some(e) <==> b == Letter(e)
  {}

  lemma WordOf(s: Str, verb: Verb)
    ensures VerbOf(s) == Some(verb) <==> s == Word(verb)
  {}

  /** Each of the fifteen words names its engine and its verb, and no other word does. */
  lemma NamedExactly(w: Str, e: Engine, verb: Verb)
    ensures Named(w) == Some((e, verb)) <==> w == Ascii(Text(e, verb))
  {
    hide Ascii, Text, Letter, Word, EngineOf, VerbOf;
    TextIs(e, verb);
    if w != [] {
      assert w == [w[0]] + w[1..];
      LetterOf(w[0], e);
      WordOf(w[1..], verb);
      assert w == [Letter(e)] + Word(verb) <==> w[0] == Letter(e) && w[1..] == Word(verb);
    }
  }

  // ---- what is answered ----

  /** A command of an engine with the given tokens behind its word. */
  function Say(e: Engine, verb: Verb, tokens: seq<Str>): Command { [Ascii(Text(e, verb))] + tokens }

  lemma AnswerToSay(db: Db, e: Engine, verb: Verb, tokens: seq<Str>)
    ensures AnswerTo(db, Say(e, verb, tokens)) ==
      Some(Answer(e, verb, Of(db, e), Token(tokens, 0), Token(tokens, 1)))
  {
    hide Ascii, Text, Answer, Named;
    NamedExactly(Ascii(Text(e, verb)), e, verb);
  }

  /** After any commands, the answers tell what the key holds then. */
  lemma AnswersAfter(db: Db, cs: seq<Command>, e: Engine, k: Str, v: Str)
    ensures var now := Run(db, cs); var x := Fate(cs, e, k, At(db, e, k));
      && AnswerTo(now, Say(e, Get, [k])) == Some(if x.Some? then Bulk(x.value) else NoExist)
      && AnswerTo(now, Say(e, Exist, [k])) == Some(if x.Some? then Exists else NoExist)
      && AnswerTo(now, Say(e, Set, [k, v])) == Some(if x.Some? then Exists else Ok)
      && AnswerTo(now, Say(e, Mod, [k, v])) == Some(if x.Some? then Ok else NoExist)
      && AnswerTo(now, Say(e, Del, [k])) == Some(if x.Some? then Ok else if e == Hash then Error else NoExist)
  {
    hide Say, Run, Fate;
    AtRun(db, cs, e, k);
    var now := Run(db, cs);
    AnswerToSay(now, e, Get, [k]);
    AnswerToSay(now, e, Exist, [k]);
    AnswerToSay(now, e, Set, [k, v]);
    AnswerToSay(now, e, Mod, [k, v]);
    AnswerToSay(now, e, Del, [k]);
  }

  /** The answers to commands that lack a token. */
  lemma AnswersWithout(db: Db, e: Engine, k: Str)
    ensures AnswerTo(db, Say(e, Get, [])) == AnswerTo(db, Say(e, Exist, [])) == Some(NoExist)
    ensures AnswerTo(db, Say(e, Set, [])) == AnswerTo(db, Say(e, Mod, [])) == AnswerTo(db, Say(e, Del, [])) == Some(Error)
    ensures AnswerTo(db, Say(e, Set, [k])) == Some(Error)
    ensures e != Hash ==> AnswerTo(db, Say(e, Mod, [k])) == Some(Error)
    ensures At(db, Hash, k).None? ==> AnswerTo(db, Say(Hash, Mod, [k])) == Some(NoExist)
  {
    hide Say;
    AnswerToSay(db, e, Get, []);
    AnswerToSay(db, e, Exist, []);
    AnswerToSay(db, e, Set, []);
    AnswerToSay(db, e, Mod, []);
    AnswerToSay(db, e, Del, []);
    AnswerToSay(db, e, Set, [k]);
    AnswerToSay(db, e, Mod, [k]);
    AnswerToSay(db, Hash, Mod, [k]);
  }

  /** What the writes of an engine ask for. */
  lemma WriteOfSay(e: Engine, k: Str, v: Str)
    ensures WriteOf(Say(e, Set, [k, v])) == Some(SetTo(e, k, v))
    ensures WriteOf(Say(e, Mod, [k, v])) == Some(ModTo(e, k, v))
    ensures WriteOf(Say(e, Del, [k])) == Some(DelOf(e, k))
  {
    hide Ascii, Text, Named;
    NamedExactly(Ascii(Text(e, Set)), e, Set);
    NamedExactly(Ascii(Text(e, Mod)), e, Mod);
    NamedExactly(Ascii(Text(e, Del)), e, Del);
  }

  /** A command that sets the key, if it is missing. */
  ghost predicate Sets(c: Command, e: Engine, k: Str) { Touches(c, e, k) && WriteOf(c).value.SetTo? }

  lemma {:induction false} KeptFate(cs: seq<Command>, e: Engine, k: Str, v: Str)
    requires !Rewritten(cs, e, k)
    ensures Fate(cs, e, k, Some(v)) == Some(v)
    decreases |cs|
  {
    hide Rewritten, WriteOf;
    if cs != [] {
      RewrittenStep(cs, e, k);
      KeptFate(cs[1..], e, k, v);
    }
  }

  lemma {:induction false} MissingFate(cs: seq<Command>, e: Engine, k: Str)
    requires forall i :: 0 <= i < |cs| ==> !Sets(cs[i], e, k)
    ensures Fate(cs, e, k, None) == None
    decreases |cs|
  {
    if cs != [] {
      assert !Sets(cs[0], e, k);
      hide WriteOf;
      MissingFate(cs[1..], e, k);
    }
  }

  /**
   * What a client wrote it can read: after a SET or a MOD that was answered by OK, and any commands of any
   * clients that do not change or remove the key, GET answers the value; and after a DEL answered by OK,
   * and any commands that do not set the key, it answers that there is none.
   */
  lemma ReadsWhatWasWritten(db: Db, cs: seq<Command>, e: Engine, k: Str, v: Str)
    ensures AnswerTo(db, Say(e, Set, [k, v])) == Some(Ok) && !Rewritten(cs, e, k) ==>
      AnswerTo(Run(Exec(db, Say(e, Set, [k, v])), cs), Say(e, Get, [k])) == Some(Bulk(v))
    ensures AnswerTo(db, Say(e, Mod, [k, v])) == Some(Ok) && !Rewritten(cs, e, k) ==>
      AnswerTo(Run(Exec(db, Say(e, Mod, [k, v])), cs), Say(e, Get, [k])) == Some(Bulk(v))
    ensures AnswerTo(db, Say(e, Del, [k])) == Some(Ok) && (forall i :: 0 <= i < |cs| ==> !Sets(cs[i], e, k)) ==>
      AnswerTo(Run(Exec(db, Say(e, Del, [k])), cs), Say(e, Get, [k])) == Some(NoExist)
  {
    hide Say, Run, Fate, At, Rewritten, AnswerTo, Apply, WriteOf, Sets;
    WriteOfSay(e, k, v);
    AnswersAfter(db, [], e, k, v);
    assert Fate([], e, k, At(db, e, k)) == At(db, e, k) by { NoFate(e, k, At(db, e, k)); }
    assert Run(db, []) == db by { RunNone(db); }
    ApplyAt(db, SetTo(e, k, v), e, k);
    ApplyAt(db, ModTo(e, k, v), e, k);
    ApplyAt(db, DelOf(e, k), e, k);
    AnswersAfter(Exec(db, Say(e, Set, [k, v])), cs, e, k, v);
    AnswersAfter(Exec(db, Say(e, Mod, [k, v])), cs, e, k, v);
    AnswersAfter(Exec(db, Say(e, Del, [k])), cs, e, k, v);
    if !Rewritten(cs, e, k) {
      KeptFate(cs, e, k, v);
    }
    if forall i :: 0 <= i < |cs| ==> !Sets(cs[i], e, k) {
      MissingFate(cs, e, k);
    }
  }

  lemma RunNone(db: Db)
    ensures Run(db, []) == db
  {}

  // ---- the notation ----

  /** A frame in text: `#`, the length of the body, CR LF, the body. */
  lemma FrameText(ts: seq<Str>)
    ensures FrameOf(ts) == Ascii("#") + Dec(|Encode(ts)| + 2) + Ascii("\r\n") + Encode(ts) + Ascii("\r\n")
    ensures forall t :: EncodeToken(t) == Ascii("^") + Dec(|t|) + Ascii("&") + t
  {
    MarksText();
    hide Ascii, Encode, Dec;
  }

  lemma MarksText()
    ensures Ascii("#") == [HASH] && Ascii("\r\n") == [CR, LF] && Ascii("^") == [CARET] && Ascii("&") == [AMP]
  {}

  /** A number in decimal: no leading zero, and each digit is a character from `0` to `9`. */
  lemma {:induction false} DecText(n: nat)
    ensures n < 10 ==> Dec(n) == [Ascii("0123456789")[n]]
    ensures n >= 10 ==> Dec(n) == Dec(n / 10) + [Ascii("0123456789")[n % 10]]
  {
    var digits := "0123456789";
    assert forall i :: 0 <= i < 10 ==> digits[i] as int == 48 + i;
  }

  const RSET_TEXT := "#17\r\n^4&RSET^1&k^1&v\r\n"
  const RDEL_TEXT := "#13\r\n^4&RDEL^1&k\r\n"

  /** Tokens of one digit's length. */
  lemma ShortToken(t: string)
    requires |t| < 10
    ensures EncodeToken(Ascii(t)) == Ascii("^") + [48 + |t|] + Ascii("&") + Ascii(t)
  {
    MarksText();
    hide Ascii;
  }

  lemma RsetPieces()
    ensures Ascii("^") + [52] + Ascii("&") + Ascii("RSET") == Ascii("^4&RSET")
    ensures Ascii("^") + [49] + Ascii("&") + Ascii("k") == Ascii("^1&k")
    ensures Ascii("^") + [49] + Ascii("&") + Ascii("v") == Ascii("^1&v")
    ensures Ascii("#") + [49, 55] + Ascii("\r\n") == Ascii("#17\r\n")
  {}

  lemma RsetFrame()
    ensures Ascii(RSET_TEXT) == FrameOf(Say(Rbtree, Set, [Ascii("k"), Ascii("v")]))
  {
    ShortToken("RSET");
    ShortToken("k");
    ShortToken("v");
    hide EncodeToken, Encode, Dec, Ascii;
    EncodeThree(Ascii("RSET"), Ascii("k"), Ascii("v"));
    RsetPieces();
    Glued("^4&RSET", "^1&k", "^1&v", "#17\r\n", RSET_TEXT);
    var c := Say(Rbtree, Set, [Ascii("k"), Ascii("v")]);
    assert c == [Ascii("RSET"), Ascii("k"), Ascii("v")];
    Seventeen();
    FrameText(c);
  }

  lemma RdelPieces()
    ensures Ascii("^") + [52] + Ascii("&") + Ascii("RDEL") == Ascii("^4&RDEL")
    ensures Ascii("^") + [49] + Ascii("&") + Ascii("k") == Ascii("^1&k")
    ensures Ascii("#") + [49, 51] + Ascii("\r\n") == Ascii("#13\r\n") && Ascii("") == []
  {}

  lemma RdelFrame()
    ensures Ascii(RDEL_TEXT) == FrameOf(Say(Rbtree, Del, [Ascii("k")]))
  {
    ShortToken("RDEL");
    ShortToken("k");
    hide EncodeToken, Dec, Ascii;
    RdelPieces();
    Glued("^4&RDEL", "^1&k", "", "#13\r\n", RDEL_TEXT);
    var c := Say(Rbtree, Del, [Ascii("k")]);
    var last: Command := [Ascii("k")];
    assert c == [Ascii("RDEL"), Ascii("k")] && c[1..] == last && last[1..] == [];
    assert Encode(c) == EncodeToken(Ascii("RDEL")) + (EncodeToken(Ascii("k")) + Encode([]));
    Seventeen();
    FrameText(c);
  }

  lemma Seventeen()
    ensures Dec(17) == [49, 55] && Dec(13) == [49, 51]
  {
    assert Dec(1) == [49];
  }

  lemma Glued(a: string, b: string, c: string, head: string, whole: string)
    requires whole == head + a + b + c + "\r\n"
    ensures Ascii(whole) == Ascii(head) + (Ascii(a) + (Ascii(b) + Ascii(c))) + Ascii("\r\n")
  {
    hide Ascii;
    AsciiConcat(head + a + b + c, "\r\n");
    AsciiConcat(head + a + b, c);
    AsciiConcat(head + a, b);
    AsciiConcat(head, a);
  }

  /** Two commands as bytes on the wire: the first sets a key, the second removes it. */
  lemma TwoCommands()
    ensures var set', del := Say(Rbtree, Set, [Ascii("k"), Ascii("v")]), Say(Rbtree, Del, [Ascii("k")]);
      var one := Drain(Ascii(RSET_TEXT), [], Deliver); var both := Drain(Ascii(RSET_TEXT + RDEL_TEXT), [], Deliver);
      && one == Drained([set'], [], false) && Run(EMPTY, one.state) == EMPTY.(rb := map[Ascii("k") := Ascii("v")])
      && both == Drained([set', del], [], false) && Run(EMPTY, both.state) == EMPTY && LogOf(EMPTY, both.state) == [set', del]
  {
    var set', del := Say(Rbtree, Set, [Ascii("k"), Ascii("v")]), Say(Rbtree, Del, [Ascii("k")]);
    RsetFrame();
    RdelFrame();
    SmallFramed(set');
    SmallFramed(del);
    WriteOfSay(Rbtree, Ascii("k"), Ascii("v"));
    AsciiConcat(RSET_TEXT, RDEL_TEXT);
    TwoEffects(set', del, Ascii("k"), Ascii("v"));
    hide Ascii, FrameOf, Drain, Framed, WriteOf, Exec, Run, LogOf, Deliver;
    DeliverFrame(set', [], []);
    DeliverFrame(set', FrameOf(del), []);
    DeliverFrame(del, [], [set']);
    assert FrameOf(set') + [] == FrameOf(set') && FrameOf(del) + [] == FrameOf(del);
    assert [] + [set'] == [set'] && [set'] + [del] == [set', del];
    DrainNothing([set'], Deliver);
    DrainNothing([set', del], Deliver);
  }

  lemma SmallFramed(c: Command)
    requires 0 < |c| <= 3 && |FrameOf(c)| <= 100 && forall i :: 0 <= i < |c| ==> 0 !in c[i]
    ensures Framed(c)
  {}

  /** One frame at the front of a stream. */
  lemma DeliverFrame(c: Command, rest: Str, done: seq<Command>)
    requires Framed(c)
    ensures Drain(FrameOf(c) + rest, done, Deliver) == Drain(rest, done + [c], Deliver)
  {
    FrameCommand(c, rest);
    hide FrameOf, Parse, CommandOf, Drain, Framed;
    var s := FrameOf(c) + rest;
    assert s != [];
    DrainOne(s, done, Deliver);
    assert s[|FrameOf(c)|..] == rest;
  }

  lemma TwoEffects(a: Command, b: Command, k: Str, v: Str)
    requires WriteOf(a) == Some(SetTo(Rbtree, k, v)) && WriteOf(b) == Some(DelOf(Rbtree, k))
    ensures Run(EMPTY, [a]) == EMPTY.(rb := map[k := v]) && Run(EMPTY, [a, b]) == EMPTY && LogOf(EMPTY, [a, b]) == [a, b]
  {
    hide WriteOf;
    var db := EMPTY.(rb := map[k := v]);
    assert Exec(EMPTY, a) == db && Exec(db, b) == EMPTY && Logged(EMPTY, a) && Logged(db, b);
    hide Exec, Logged;
    RunOne(EMPTY, a);
    RunTwo(EMPTY, a, b);
    assert [a, b][1..] == [b] && [b][1..] == [];
    assert LogOf(EMPTY, []) == [];
    assert LogOf(db, [b]) == [b] + LogOf(EMPTY, []);
  }

  // ---- what the agent forwards ----

  /** The words of the commands that the agent forwards. */
  function WriteWords(): seq<Str> {
    [Ascii("SET"), Ascii("DEL"), Ascii("MOD"), Ascii("RSET"), Ascii("RDEL"), Ascii("RMOD"),
     Ascii("HSET"), Ascii("HDEL"), Ascii("HMOD"), Ascii("LSET"), Ascii("LDEL"), Ascii("LMOD")]
  }

  lemma ForwardedWords(w: Str)
    ensures IsWrite(w) <==> w in WriteWords()
  {
    VerbText();
    TextIs(Rbtree, Set);
    TextIs(Rbtree, Del);
    TextIs(Rbtree, Mod);
    TextIs(Hash, Set);
    TextIs(Hash, Del);
    TextIs(Hash, Mod);
    TextIs(Skiplist, Set);
    TextIs(Skiplist, Del);
    TextIs(Skiplist, Mod);
    hide Ascii;
    if IsWrite(w) && w !in [SET, DEL, MOD] {
      assert w == [w[0]] + w[1..];
    }
  }

  /** The words of the handshake. */
  lemma HandshakeWords(w: Str)
    ensures KindOf(w) == Change <==> w in WriteWords()
    ensures KindOf(w) == Sync <==> w == Ascii("SYNC")
    ensures KindOf(w) == Agent.Finished <==> w == Ascii("FULLSYNC FINISHED")
    ensures KindOf(w) == Agent.Failed <==> w == Ascii("FULLSYNC ERROR")
  {
    ForwardedWords(w);
    HandshakeText();
    hide Ascii;
    assert !IsWrite(SYNC) && !IsWrite(FULLSYNC_FINISHED) && !IsWrite(FULLSYNC_ERROR);
  }

  lemma HandshakeText()
    ensures Ascii("SYNC") == SYNC && Ascii("FULLSYNC FINISHED") == FULLSYNC_FINISHED && Ascii("FULLSYNC ERROR") == FULLSYNC_ERROR
  {}

  /** The agent forwards a command of the three engines exactly if such a command can change a store. */
  lemma ForwardsWhatChanges(w: Str)
    requires Named(w).Some?
    ensures IsWrite(w) <==> exists db, c: Command :: c != [] && c[0] == w && Exec(db, c) != db
  {
    var (e, verb) := Named(w).value;
    assert w == [w[0]] + w[1..];
    hide Named;
    if IsWrite(w) {
      var k: Str, v: Str := [], [1];
      var db := if verb == Set then EMPTY else Put(EMPTY, e, map[k := []]);
      var c: Command := [w, k, v];
      assert WriteOf(c) == Some(match verb case Set => SetTo(e, k, v) case Mod => ModTo(e, k, v) case _ => DelOf(e, k));
      var x := match verb case Set => None case _ => Some([]);
      assert At(db, e, k) == x;
      ApplyAt(db, WriteOf(c).value, e, k);
      assert At(Exec(db, c), e, k) != At(db, e, k);
    } else {
      forall db, c: Command | c != [] && c[0] == w ensures Exec(db, c) == db {
        OnlyWritesCount(db, c);
      }
    }
  }

  /** What the agent sent and holds back is what it saw, frame by frame, of the frames whose first token is such a word. */
  lemma ForwardsExactly(cap: nat, s: Str)
    requires !Drain(s, START, Step(cap)).dead
    ensures var st := Drain(s, START, Step(cap)).state; st.sent + st.cached == Changing(Cut(s))
    ensures forall f :: Changes(f) <==> CommandWord(f).Some? && CommandWord(f).value in WriteWords()
  {
    hide Drain, Changing, Cut, CommandWord, WriteWords;
    AgentCuts(cap, s, START);
    RunInOrder(s, START, cap);
    assert [] + Changing(Cut(s)) == Changing(Cut(s));
    forall f ensures Changes(f) <==> CommandWord(f).Some? && CommandWord(f).value in WriteWords() {
      if CommandWord(f).Some? {
        ForwardedWords(CommandWord(f).value);
      }
    }
  }

  // ---- the records of a dump ----

  lemma RecordNames()
    ensures NameOf(Rbtree) == Ascii("RBTREE") && NameOf(Hash) == Ascii("HASH") && NameOf(Skiplist) == Ascii("SKIPLIST")
  {}

  /** A record is loaded by the first letter of its name; one of another engine is passed over, and one of another form ends the loading. */
  lemma LoadsByLetter(db: Db, c: Command, e: Engine, k: Str)
    ensures Load(db, c).None? <==> |c| != 3
    ensures |c| == 3 ==>
      var letter := match e case Rbtree => Ascii("R") case Hash => Ascii("H") case Skiplist => Ascii("S");
      At(Load(db, c).value, e, k) ==
        if letter <= c[0] && k == c[1] && At(db, e, k).None? then Some(c[2]) else At(db, e, k)
  {
    assert Ascii("R") == [82] && Ascii("H") == [72] && Ascii("S") == [83];
  }
}
