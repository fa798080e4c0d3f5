/** The KVSP wire format: `#<body length>\r\n`, tokens `^<length>&<bytes>`, `\r\n`. */
module Kvsp {
  import opened Bytes
  import opened Kv

  const INT_MAX: int := 2147483647
  const HASH: byte := 35
  const CARET: byte := 94
  const AMP: byte := 38
  const CR: byte := 13
  const LF: byte := 10
  const MAX_TOKENS: nat := 128

  predicate IsDigit(b: byte) { 48 <= b <= 57 }

  /** How many digits s starts with. */
  function DigitRun(s: Str): (n: nat)
    ensures n <= |s|
  {
    if s == [] || !IsDigit(s[0]) then 0 else 1 + DigitRun(s[1..])
  }

  /** The number that a string of digits denotes. */
  function Value(s: Str): nat
    requires forall i :: 0 <= i < |s| ==> IsDigit(s[i])
  {
    if s == [] then 0 else assert IsDigit(s[|s| - 1]); 10 * Value(s[..|s| - 1]) + (s[|s| - 1] - 48)
  }

  /** Decimal notation without leading zeros, as printf writes it. */
  function Dec(n: nat): (s: Str)
    ensures |s| > 0 && forall i :: 0 <= i < |s| ==> IsDigit(s[i])
  {
    if n < 10 then [48 + n] else Dec(n / 10) + [48 + n % 10]
  }

  lemma {:induction false} ValueDec(n: nat)
    ensures Value(Dec(n)) == n
  {
    if n >= 10 {
      ValueDec(n / 10);
      var s := Dec(n);
      assert s[..|s| - 1] == Dec(n / 10);
    } else {
      assert Dec(n)[..0] == [];
    }
  }

  lemma {:induction false} DigitRunIs(ds: Str, s: Str)
    requires forall i :: 0 <= i < |ds| ==> IsDigit(ds[i])
    requires s == [] || !IsDigit(s[0])
    ensures DigitRun(ds + s) == |ds|
  {
    if ds == [] {
      assert ds + s == s;
    } else {
      assert (ds + s)[1..] == ds[1..] + s;
      DigitRunIs(ds[1..], s);
    }
  }

  lemma {:induction false} DigitRunDigits(s: Str)
    ensures forall i :: 0 <= i < DigitRun(s) ==> IsDigit(s[i])
    ensures DigitRun(s) < |s| ==> !IsDigit(s[DigitRun(s)])
  {
    if s != [] && IsDigit(s[0]) {
      DigitRunDigits(s[1..]);
      assert forall i :: 0 < i < |s| ==> s[i] == s[1..][i - 1];
    }
  }

  /** A run that ends inside s is the run of every extension of s. */
  lemma {:induction false} DigitRunExtends(s: Str, t: Str)
    ensures DigitRun(s) <= DigitRun(s + t)
    ensures DigitRun(s) < |s| ==> DigitRun(s + t) == DigitRun(s)
  {
    if s != [] && IsDigit(s[0]) {
      assert (s + t)[1..] == s[1..] + t;
      DigitRunExtends(s[1..], t);
    }
  }

  /** More digits never make the number smaller. */
  lemma {:induction false} ValueGrows(s: Str, t: Str)
    requires forall i :: 0 <= i < |s + t| ==> IsDigit((s + t)[i])
    ensures (forall i :: 0 <= i < |s| ==> IsDigit(s[i])) && Value(s) <= Value(s + t)
  {
    assert forall i :: 0 <= i < |s| ==> s[i] == (s + t)[i];
    if t == [] {
      assert s + t == s;
    } else {
      var u := t[..|t| - 1];
      assert (s + t)[..|s + t| - 1] == s + u;
      ValueGrows(s, u);
    }
  }

  /** The verdict on a received prefix: malformed, incomplete, or a frame of the given lengths. */
  datatype Verdict = Bad | NeedMore | Frame(head: nat, total: nat)

  /** The digits after the leading `#`. */
  function LengthDigits(s: Str): (ds: Str)
    requires |s| > 0
    ensures |ds| == DigitRun(s[1..]) && forall i :: 0 <= i < |ds| ==> IsDigit(ds[i])
  {
    DigitRunDigits(s[1..]);
    s[1..1 + DigitRun(s[1..])]
  }

  function Parse(s: Str): (v: Verdict)
    requires |s| > 0
    ensures v.Frame? ==> 4 <= v.head <= v.total <= |s| && v.total <= INT_MAX
  {
    var ds := LengthDigits(s);
    var pos := 1 + |ds|;
    if s[0] != HASH || Value(ds) > INT_MAX then Bad
    else if ds == [] then (if |s| == 1 then NeedMore else Bad)
    else if |s| - pos < 2 then NeedMore
    else if s[pos] != CR || s[pos + 1] != LF || Value(ds) > INT_MAX - (pos + 2) then Bad
    else if pos + 2 + Value(ds) > |s| then NeedMore
    else Frame(pos + 2, pos + 2 + Value(ds))
  }

  /** More bytes can only make the run of digits longer, and not at all once it has ended. */
  lemma DigitsExtend(s: Str, t: Str)
    requires |s| > 0
    ensures |LengthDigits(s)| <= |LengthDigits(s + t)| && Value(LengthDigits(s)) <= Value(LengthDigits(s + t))
    ensures |LengthDigits(s)| < |s| - 1 ==> LengthDigits(s + t) == LengthDigits(s)
  {
    hide Value, DigitRun;
    assert (s + t)[1..] == s[1..] + t;
    DigitRunExtends(s[1..], t);
    var n := |LengthDigits(s)|;
    assert LengthDigits(s + t)[..n] == LengthDigits(s);
    ValueGrows(LengthDigits(s), LengthDigits(s + t)[n..]);
    assert LengthDigits(s) + LengthDigits(s + t)[n..] == LengthDigits(s + t);
  }

  /** A verdict, once given, never changes when more bytes arrive. */
  lemma VerdictStable(s: Str, t: Str)
    requires |s| > 0 && Parse(s) != NeedMore
    ensures Parse(s + t) == Parse(s)
  {
    hide Value, LengthDigits;
    DigitsExtend(s, t);
    assert (s + t)[0] == s[0];
    DigitsInside(s);
    assert forall i :: 0 <= i < |s| ==> (s + t)[i] == s[i];
  }

  lemma DigitsInside(s: Str)
    requires |s| > 0
    ensures |LengthDigits(s)| <= |s| - 1
  {}

  ghost predicate StartsWithFrame(s: Str, ds: Str, body: Str, rest: Str) {
    && s == [HASH] + ds + [CR, LF] + body + rest
    && ds != [] && (forall i :: 0 <= i < |ds| ==> IsDigit(ds[i])) && Value(ds) == |body|
    && 3 + |ds| + |body| <= INT_MAX
  }

  lemma FrameParses(s: Str, ds: Str, body: Str, rest: Str)
    requires StartsWithFrame(s, ds, body, rest)
    ensures Parse(s) == Frame(3 + |ds|, 3 + |ds| + |body|)
  {
    var tail := [CR, LF] + body + rest;
    assert s[1..] == ds + tail;
    DigitRunIs(ds, tail);
    assert LengthDigits(s) == ds;
    assert s[1 + |ds|] == CR && s[2 + |ds|] == LF;
  }

  lemma ParsedIsFrame(s: Str)
    requires |s| > 0 && Parse(s).Frame?
    ensures var v := Parse(s);
      && v.head == 3 + |LengthDigits(s)|
      && StartsWithFrame(s, LengthDigits(s), s[v.head..v.total], s[v.total..])
  {
    var ds, v := LengthDigits(s), Parse(s);
    assert s[..1] == [HASH] && s[1..1 + |ds|] == ds && s[1 + |ds|..v.head] == [CR, LF];
    assert s == s[..1] + s[1..1 + |ds|] + s[1 + |ds|..v.head] + s[v.head..v.total] + s[v.total..];
  }

  /** The parser recognises exactly the complete frames, with exactly their lengths. */
  lemma ParseExact(s: Str, h: nat, n: nat)
    requires |s| > 0
    ensures Parse(s) == Frame(h, n) <==>
            exists ds, body, rest :: StartsWithFrame(s, ds, body, rest) && h == 3 + |ds| && n == h + |body|
  {
    hide Parse, StartsWithFrame, LengthDigits;
    if Parse(s) == Frame(h, n) {
      ParsedIsFrame(s);
    }
    forall ds, body, rest | StartsWithFrame(s, ds, body, rest)
      ensures Parse(s) == Frame(3 + |ds|, 3 + |ds| + |body|)
    {
      FrameParses(s, ds, body, rest);
    }
  }

  /** A malformed prefix has no well-formed continuation. */
  lemma BadIsHopeless(s: Str, t: Str)
    requires |s| > 0 && Parse(s) == Bad
    ensures !Parse(s + t).Frame?
  {
    VerdictStable(s, t);
  }

  // ---- the writer ----

  function EncodeToken(t: Str): Str { [CARET] + Dec(|t|) + [AMP] + t }

  function Encode(ts: seq<Str>): Str {
    if ts == [] then [] else EncodeToken(ts[0]) + Encode(ts[1..])
  }

  function Body(ts: seq<Str>): Str { Encode(ts) + [CR, LF] }

  function Head(n: nat): Str { [HASH] + Dec(n) + [CR, LF] }

  function FrameOf(ts: seq<Str>): Str { Head(|Body(ts)|) + Body(ts) }

  // ---- the reader of a body ----

  /** The token at the front of s, and the length of its notation. */
  function FirstToken(s: Str): (r: Option<(Str, nat)>)
    ensures r.Some? ==> 3 <= r.value.1 <= |s|
  {
    if s == [] || s[0] != CARET then None
    else
      var ds := LengthDigits(s);
      var pos := 2 + |ds|;
      if ds == [] || Value(ds) > INT_MAX || pos > |s| || s[pos - 1] != AMP || Value(ds) > |s| - pos then None
      else Some((s[pos..pos + Value(ds)], pos + Value(ds)))
  }

  /** All tokens of s, at most room of them, or None if s is not made up of tokens. */
  function TokensOf(s: Str, room: nat): (r: Option<seq<Str>>) {
    if s == [] then Some([])
    else
      var f := FirstToken(s);
      if f.None? || room == 0 then None
      else
        var rest := TokensOf(s[f.value.1..], room - 1);
        if rest.None? then None else Some([f.value.0] + rest.value)
  }

  function SplitBody(body: Str): (r: Option<seq<Str>>) {
    var n := |body| - 2;
    if n < 0 || body[n..] != [CR, LF] then None else TokensOf(body[..n], MAX_TOKENS)
  }

  lemma FirstTokenEncoded(t: Str, rest: Str)
    requires |t| <= INT_MAX
    ensures FirstToken(EncodeToken(t) + rest) == Some((t, |EncodeToken(t)|))
  {
    var ds, s := Dec(|t|), EncodeToken(t) + rest;
    assert s[1..] == ds + ([AMP] + t + rest);
    DigitRunIs(ds, [AMP] + t + rest);
    assert LengthDigits(s) == ds;
    ValueDec(|t|);
    assert s[2 + |ds|..2 + |ds| + |t|] == t;
  }

  /** One token more at the front. */
  lemma TokensStep(t: Str, ts: seq<Str>, rest: Str, room: nat)
    requires |t| <= INT_MAX && TokensOf(rest, room) == Some(ts)
    ensures TokensOf(EncodeToken(t) + rest, room + 1) == Some([t] + ts)
  {
    var s, n := EncodeToken(t) + rest, |EncodeToken(t)|;
    FirstTokenEncoded(t, rest);
    assert s[n..] == rest;
  }

  lemma {:induction false} TokensRoundTrip(ts: seq<Str>, room: nat)
    requires |ts| <= room && forall i :: 0 <= i < |ts| ==> |ts[i]| <= INT_MAX
    ensures TokensOf(Encode(ts), room) == Some(ts)
  {
    if ts != [] {
      TokensRoundTrip(ts[1..], room - 1);
      TokensStep(ts[0], ts[1..], Encode(ts[1..]), room - 1);
      assert [ts[0]] + ts[1..] == ts;
    }
  }

  lemma {:induction false} TokenFits(ts: seq<Str>, i: nat)
    requires i < |ts|
    ensures |ts[i]| <= |Encode(ts)|
  {
    if i > 0 {
      TokenFits(ts[1..], i - 1);
    }
  }

  /** Whatever follows it, a frame is recognised with its exact lengths. */
  lemma FrameParsed(ts: seq<Str>, rest: Str)
    requires |FrameOf(ts)| <= INT_MAX
    ensures Parse(FrameOf(ts) + rest) == Frame(|Head(|Body(ts)|)|, |FrameOf(ts)|)
  {
    var body := Body(ts);
    var ds := Dec(|body|);
    ValueDec(|body|);
    assert FrameOf(ts) + rest == [HASH] + ds + [CR, LF] + body + rest;
    FrameParses(FrameOf(ts) + rest, ds, body, rest);
  }

  /** The round trip: a frame of at most 128 tokens, whatever bytes they hold, gives back those tokens. */
  lemma FrameRoundTrip(ts: seq<Str>, rest: Str)
    requires |ts| <= 128 && |FrameOf(ts)| <= 2147483647
    ensures var v := Parse(FrameOf(ts) + rest);
      && v.Frame? && v.total == |FrameOf(ts)|
      && SplitBody((FrameOf(ts) + rest)[v.head..v.total]) == Some(ts)
  {
    FrameParsed(ts, rest);
    var h := |Head(|Body(ts)|)|;
    assert (FrameOf(ts) + rest)[h..|FrameOf(ts)|] == Body(ts);
    assert Body(ts)[..|Body(ts)| - 2] == Encode(ts);
    forall i | 0 <= i < |ts| ensures |ts[i]| <= INT_MAX { TokenFits(ts, i); }
    TokensRoundTrip(ts, MAX_TOKENS);
  }

  /** A frame cut off from what follows it parses as before. */
  lemma FrameAlone(s: Str, h: nat, n: nat)
    requires |s| > 0 && Parse(s) == Frame(h, n)
    ensures Parse(s[..n]) == Frame(h, n)
  {
    ParsedIsFrame(s);
    var ds, body := LengthDigits(s), s[h..n];
    assert s[..n] == [HASH] + ds + [CR, LF] + body + [];
    FrameParses(s[..n], ds, body, []);
  }
}
