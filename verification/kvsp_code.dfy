/** The KVSP parser, splitter and writer, on buffers. */
module KvspCode {
  import opened Bytes
  import opened Kv
  import opened Kvsp

  lemma ValueStep(ds: Str, i: nat)
    requires i < |ds| && forall k :: 0 <= k < |ds| ==> IsDigit(ds[k])
    ensures Value(ds[..i + 1]) == 10 * Value(ds[..i]) + (ds[i] - 48) && Value(ds[..i + 1]) <= Value(ds)
  {
    assert ds[..i + 1][..i] == ds[..i];
    assert ds == ds[..i + 1] + ds[i + 1..];
    ValueGrows(ds[..i + 1], ds[i + 1..]);
  }

  /** Read digits from pos on; an int that would overflow stops the loop. */
  method ScanNumber(buf: array<byte>, start: nat, end: nat) returns (n: int, pos: nat, overflow: bool)
    requires start <= end <= buf.Length
    ensures start <= pos <= end && 0 <= n <= INT_MAX
    ensures var ds := buf[start..end][..DigitRun(buf[start..end])];
      && (forall i :: 0 <= i < |ds| ==> IsDigit(ds[i]))
      && overflow == (Value(ds) > INT_MAX)
      && (!overflow ==> n == Value(ds) && pos == start + |ds|)
  {
    hide Value, DigitRun;
    n, pos, overflow := 0, start, false;
    ghost var s := buf[start..end];
    ghost var ds := s[..DigitRun(s)];
    DigitRunDigits(s);
    assert ds[..0] == [] && Value([]) == 0 by { NoDigits(); }
    while pos < end && 48 <= buf[pos] <= 57
      invariant start <= pos <= start + |ds| && 0 <= n <= INT_MAX && n == Value(ds[..pos - start])
    {
      var digit := buf[pos] - 48;
      ghost var i := pos - start;
      assert s[i] == buf[pos];
      assert i < |ds| && ds[i] == buf[pos];
      ValueStep(ds, i);
      if n > (INT_MAX - digit) / 10 {
        overflow := true;
        return;
      }
      n := 10 * n + digit;
      pos := pos + 1;
    }
    assert ds[..|ds|] == ds;
  }

  lemma NoDigits()
    ensures Value([]) == 0
  {}

  /** The total length of the frame at buf[p..]; 0 if bytes are missing, negative if malformed. */
  method ParseBulkSize(buf: array<byte>, p: nat, size: nat) returns (total: int, head: int)
    requires p + size <= buf.Length
    ensures size == 0 ==> total == -1
    ensures size > 0 ==>
      match Parse(buf[p..p + size])
      case Bad => total == -2
      case NeedMore => total == 0
      case Frame(h, n) => head == h && total == n
  {
    head := 0;
    if size == 0 { return -1, head; }
    ghost var s := buf[p..p + size];
    assert buf[p + 1..p + size] == s[1..] && s[1..][..DigitRun(s[1..])] == LengthDigits(s);
    if buf[p] != HASH { return -2, head; }
    var n, end, overflow := ScanNumber(buf, p + 1, p + size);
    if overflow { return -2, head; }
    var pos := end - p;
    if pos == 1 {
      return if pos >= size then 0 else -2, head;
    }
    if size - pos < 2 { return 0, head; }
    if buf[p + pos] != CR || buf[p + pos + 1] != LF { return -2, head; }
    pos := pos + 2;
    if n > INT_MAX - pos { return -2, head; }
    head := pos;
    return if n + pos > size then 0 else n + pos, head;
  }

  // ---- splitting a body in place ----

  /** The token t lies at p in the buffer b, and a NUL follows it. */
  ghost predicate Placed(b: Str, p: nat, t: Str) { p + |t| <= |b| && b[p..p + |t|] == t }
  ghost predicate Ended(b: Str, p: nat, t: Str) { Placed(b, p, t) && p + |t| < |b| && b[p + |t|] == 0 }

  /** All tokens lie, ended, between lo and pos. */
  ghost predicate AllEnded(b: Str, lo: nat, ptrs: seq<nat>, ts: seq<Str>, pos: nat) {
    |ptrs| == |ts| && forall i :: 0 <= i < |ts| ==> lo <= ptrs[i] && ptrs[i] + |ts[i]| < pos && Ended(b, ptrs[i], ts[i])
  }

  /** The same, but the last token ends at pos without a NUL yet. */
  ghost predicate LastOpen(b: Str, lo: nat, ptrs: seq<nat>, ts: seq<Str>, pos: nat) {
    && |ptrs| == |ts| > 0
    && AllEnded(b, lo, ptrs[..|ts| - 1], ts[..|ts| - 1], pos)
    && lo <= ptrs[|ts| - 1] && ptrs[|ts| - 1] + |ts[|ts| - 1]| == pos && Placed(b, ptrs[|ts| - 1], ts[|ts| - 1])
  }

  lemma CloseLast(b: Str, lo: nat, ptrs: seq<nat>, ts: seq<Str>, pos: nat)
    requires LastOpen(b, lo, ptrs, ts, pos) && pos < |b|
    ensures AllEnded(b[pos := 0], lo, ptrs, ts, pos + 1)
  {
    var n, b' := |ts| - 1, b[pos := 0];
    forall i | 0 <= i < |ts| ensures lo <= ptrs[i] && ptrs[i] + |ts[i]| < pos + 1 && Ended(b', ptrs[i], ts[i]) {
      if i < n {
        assert ptrs[..n][i] == ptrs[i] && ts[..n][i] == ts[i];
        assert Ended(b, ptrs[i], ts[i]);
      }
      assert b'[ptrs[i]..ptrs[i] + |ts[i]|] == b[ptrs[i]..ptrs[i] + |ts[i]|];
    }
  }

  lemma OpenNext(b: Str, lo: nat, ptrs: seq<nat>, ts: seq<Str>, pos: nat, p: nat, t: Str)
    requires AllEnded(b, lo, ptrs, ts, pos) && lo <= p && pos <= p && Placed(b, p, t)
    ensures LastOpen(b, lo, ptrs + [p], ts + [t], p + |t|)
  {
    assert (ptrs + [p])[..|ts|] == ptrs && (ts + [t])[..|ts|] == ts;
  }

  lemma EndedIsCStr(b: Str, p: nat, t: Str)
    requires Ended(b, p, t)
    ensures CStr(b[p..]) == CStr(t)
  {
    assert b[p..] == t + [0] + b[p + |t| + 1..];
    CStrEnds(t, b[p + |t| + 1..]);
  }

  ghost function Join(ts: seq<Str>, rest: Option<seq<Str>>): Option<seq<Str>> {
    if rest.None? then None else Some(ts + rest.value)
  }

  /** What the token at the front of s is, given its digits. */
  lemma FirstTokenIs(s: Str)
    requires |s| > 0 && s[0] == CARET
    ensures var ds := LengthDigits(s); var d, n := 1 + |ds|, Value(ds);
      FirstToken(s) ==
        if ds == [] || n > INT_MAX || d >= |s| || s[d] != AMP || n > |s| - d - 1 then None else Some((s[d + 1..d + 1 + n], d + 1 + n))
    ensures LengthDigits(s) == s[1..][..DigitRun(s[1..])]
  {}

  /** The length and the place of the token at pos, if there is one before end; the `^` may be overwritten by now. */
  method ReadToken(buf: array<byte>, pos: nat, end: nat, ghost s: Str) returns (ok: bool, ptr: nat, len: nat)
    requires pos < end <= buf.Length && |s| == end - pos && s[0] == CARET && s[1..] == buf[pos + 1..end]
    ensures ok == FirstToken(s).Some?
    ensures ok ==> pos + 3 <= ptr <= ptr + len <= end && FirstToken(s) == Some((buf[ptr..ptr + len], ptr + len - pos))
  {
    hide FirstToken, LengthDigits, Value, DigitRun;
    ok, ptr, len := false, pos, 0;
    FirstTokenIs(s);
    var n, p, overflow := ScanNumber(buf, pos + 1, end);
    if overflow || p == pos + 1 || p >= end {
      return;
    }
    ghost var d := p - pos;
    assert s[d] == s[1..][d - 1];
    assert s[1..][d - 1] == buf[pos + 1..end][d - 1] == buf[p];
    if buf[p] != AMP || n > end - (p + 1) {
      return;
    }
    ok, ptr, len := true, p + 1, n;
    TailSlice(buf, pos, end, s, d + 1, d + 1 + len);
  }

  lemma TailSlice(buf: array<byte>, pos: nat, end: nat, s: Str, i: nat, j: nat)
    requires pos < end <= buf.Length && |s| == end - pos && s[1..] == buf[pos + 1..end] && 1 <= i <= j <= |s|
    ensures s[i..j] == buf[pos + i..pos + j]
  {
    forall k | i <= k < j ensures s[k] == buf[pos + k] {
      assert s[1..][k - 1] == buf[pos + 1..end][k - 1];
    }
  }

  /** The token at pos, and all tokens from pos on, in the body b as it was received. */
  ghost function TokenAt(b: Str, pos: nat, end: nat): Option<(Str, nat)>
    requires pos <= end <= |b|
  {
    FirstToken(b[pos..end])
  }

  ghost function TokensAt(b: Str, pos: nat, end: nat, room: nat): Option<seq<Str>>
    requires pos <= end <= |b|
  {
    TokensOf(b[pos..end], room)
  }

  /** A token begins with a caret. */
  lemma NoCaret(s: Str)
    ensures s == [] || s[0] != CARET ==> FirstToken(s).None?
  {}

  /** The NUL that ends the token before pos, if there is one. */
  method EndLast(buf: array<byte>, hl: nat, pos: nat, ptrs: seq<nat>, ghost ts: seq<Str>)
    requires hl <= pos < buf.Length && |ptrs| == |ts| && (ptrs == [] || LastOpen(buf[..], hl, ptrs, ts, pos))
    modifies buf
    ensures AllEnded(buf[..], hl, ptrs, ts, pos + 1)
    ensures forall i :: 0 <= i < buf.Length && i != pos ==> buf[i] == old(buf[i])
    ensures ptrs == [] ==> buf[pos] == old(buf[pos])
  {
    if |ptrs| > 0 {
      ghost var was := buf[..];
      CloseLast(was, hl, ptrs, ts, pos);
      buf[pos] := 0;
      assert buf[..] == was[pos := 0];
    }
  }

  /** One round of the splitting loop: the token t at pos, after the NUL that ends the previous one. */
  method SplitStep(buf: array<byte>, hl: nat, end: nat, pos: nat, ptrs: seq<nat>, ghost ts: seq<Str>, ghost b: Str)
    returns (ok: bool, pos': nat, ptr: nat, ghost t: Str)
    requires hl <= pos < end < buf.Length == |b| && |ptrs| == |ts| <= MAX_TOKENS
    requires if ptrs == [] then pos == hl else LastOpen(buf[..], hl, ptrs, ts, pos)
    requires forall i :: 0 <= i < buf.Length && !(hl <= i < pos) ==> buf[i] == b[i]
    modifies buf
    ensures pos <= pos' <= end
    ensures forall i :: 0 <= i < buf.Length && !(hl <= i < pos') ==> buf[i] == b[i]
    ensures ok <==> TokenAt(b, pos, end).Some? && |ptrs| < MAX_TOKENS
    ensures ok ==>
      && TokenAt(b, pos, end) == Some((t, pos' - pos)) && pos < pos'
      && LastOpen(buf[..], hl, ptrs + [ptr], ts + [t], pos')
  {
    hide FirstToken, AllEnded, LastOpen;
    ok, pos', ptr, t := false, pos, pos, [];
    ghost var s := b[pos..end];
    assert buf[pos] == s[0];
    NoCaret(s);
    if buf[pos] != CARET {
      return;
    }
    EndLast(buf, hl, pos, ptrs, ts);
    pos' := pos + 1;
    var found, len;
    assert s[1..] == b[pos + 1..end] == buf[pos + 1..end];
    found, ptr, len := ReadToken(buf, pos, end, s);
    if !found || |ptrs| >= MAX_TOKENS {
      return;
    }
    t := buf[ptr..ptr + len];
    ok, pos' := true, ptr + len;
    OpenNext(buf[..], hl, ptrs, ts, pos + 1, ptr, t);
  }

  /** The tokens found so far, followed by what the rest of the body holds, are all its tokens. */
  ghost predicate SplitSoFar(b: Str, hl: nat, pos: nat, end: nat, ts: seq<Str>)
    requires hl <= pos <= end <= |b| && |ts| <= MAX_TOKENS
  {
    TokensAt(b, hl, end, MAX_TOKENS) == Join(ts, TokensAt(b, pos, end, MAX_TOKENS - |ts|))
  }

  lemma SplitStarts(b: Str, hl: nat, end: nat)
    requires hl <= end <= |b|
    ensures SplitSoFar(b, hl, hl, end, [])
  {
    var r := TokensAt(b, hl, end, MAX_TOKENS);
    if r.Some? {
      assert [] + r.value == r.value;
    }
  }

  lemma TokensAtStep(b: Str, pos: nat, end: nat, t: Str, pos': nat, room: nat)
    requires pos < pos' <= end <= |b| && room > 0 && TokenAt(b, pos, end) == Some((t, pos' - pos))
    ensures TokensAt(b, pos, end, room) == Join([t], TokensAt(b, pos', end, room - 1))
  {
    assert b[pos..end][pos' - pos..] == b[pos'..end];
  }

  lemma JoinJoin(ts: seq<Str>, t: Str, r: Option<seq<Str>>)
    ensures Join(ts, Join([t], r)) == Join(ts + [t], r)
  {
    if r.Some? {
      assert ts + ([t] + r.value) == (ts + [t]) + r.value;
    }
  }

  lemma SplitGoesOn(b: Str, hl: nat, pos: nat, end: nat, ts: seq<Str>, t: Str, pos': nat)
    requires hl <= pos < pos' <= end <= |b| && |ts| < MAX_TOKENS && SplitSoFar(b, hl, pos, end, ts)
    requires TokenAt(b, pos, end) == Some((t, pos' - pos))
    ensures SplitSoFar(b, hl, pos', end, ts + [t])
  {
    hide TokenAt, TokensAt, Join;
    TokensAtStep(b, pos, end, t, pos', MAX_TOKENS - |ts|);
    JoinJoin(ts, t, TokensAt(b, pos', end, MAX_TOKENS - |ts| - 1));
  }

  lemma SplitEnds(b: Str, hl: nat, pos: nat, end: nat, ts: seq<Str>)
    requires hl <= pos <= end <= |b| && |ts| <= MAX_TOKENS && SplitSoFar(b, hl, pos, end, ts)
    ensures pos == end ==> TokensAt(b, hl, end, MAX_TOKENS) == Some(ts)
    ensures pos < end && (TokenAt(b, pos, end).None? || |ts| == MAX_TOKENS) ==> TokensAt(b, hl, end, MAX_TOKENS) == None
  {
    assert ts + [] == ts;
  }

  /** The loop over the tokens of buf[hl..end]. */
  method SplitLoop(buf: array<byte>, hl: nat, end: nat, ghost b: Str) returns (ok: bool, ptrs: seq<nat>,
      ghost ts: seq<Str>)
    requires hl <= end < buf.Length && b == buf[..]
    modifies buf
    ensures forall i :: 0 <= i < buf.Length && !(hl <= i < end) ==> buf[i] == b[i]
    ensures TokensAt(b, hl, end, MAX_TOKENS) == if ok then Some(ts) else None
    ensures ok ==> if ptrs == [] then ts == [] else LastOpen(buf[..], hl, ptrs, ts, end)
  {
    ok, ptrs, ts := false, [], [];
    var pos := hl;
    SplitStarts(b, hl, end);
    hide TokenAt, TokensAt, LastOpen, SplitSoFar;
    while pos < end
      invariant hl <= pos <= end && |ptrs| == |ts| <= MAX_TOKENS
      invariant if ptrs == [] then pos == hl else LastOpen(buf[..], hl, ptrs, ts, pos)
      invariant forall i :: 0 <= i < buf.Length && !(hl <= i < pos) ==> buf[i] == b[i]
      invariant SplitSoFar(b, hl, pos, end, ts)
    {
      SplitEnds(b, hl, pos, end, ts);
      var found, pos', ptr, t := SplitStep(buf, hl, end, pos, ptrs, ts, b);
      if !found {
        return;
      }
      SplitGoesOn(b, hl, pos, end, ts, t, pos');
      pos, ptrs, ts := pos', ptrs + [ptr], ts + [t];
    }
    SplitEnds(b, hl, pos, end, ts);
    ok := true;
  }

  lemma SplitBodyIs(s: Str)
    ensures |s| >= 2 && s[|s| - 2] == CR && s[|s| - 1] == LF ==> SplitBody(s) == TokensOf(s[..|s| - 2], MAX_TOKENS)
    ensures !(|s| >= 2 && s[|s| - 2] == CR && s[|s| - 1] == LF) ==> SplitBody(s) == None
  {
    if |s| >= 2 {
      assert s[|s| - 2..] == [s[|s| - 2], s[|s| - 1]];
    }
  }

  /** The tokens of the body buf[hl..tl], as pointers to NUL-terminated strings inside it, or -2. */
  method SplitTokens(buf: array<byte>, hl: nat, tl: nat) returns (count: int, ptrs: seq<nat>)
    requires hl <= tl <= buf.Length
    modifies buf
    ensures forall i :: 0 <= i < buf.Length && !(hl <= i < tl) ==> buf[i] == old(buf[i])
    ensures match SplitBody(old(buf[hl..tl]))
      case None => count == -2
      case Some(ts) =>
        && count == |ts| == |ptrs|
        && forall i :: 0 <= i < |ts| ==> hl <= ptrs[i] < tl && CStr(buf[ptrs[i]..]) == CStr(ts[i])
  {
    hide SplitBody, TokensOf, LastOpen, AllEnded, CStr;
    ptrs := [];
    SplitBodyIs(buf[hl..tl]);
    if tl - hl < 2 {
      return -2, ptrs;
    }
    var end := tl - 2;
    if buf[end] != CR || buf[end + 1] != LF {
      return -2, ptrs;
    }
    assert buf[hl..tl][..tl - hl - 2] == buf[..][hl..end];
    var ok, ptrs', ts := SplitLoop(buf, hl, end, buf[..]);
    if !ok {
      return -2, ptrs;
    }
    ghost var b := buf[..];
    buf[end] := 0;
    assert buf[..] == b[end := 0];
    ptrs := ptrs';
    if ptrs != [] {
      CloseLast(b, hl, ptrs, ts, end);
      forall i | 0 <= i < |ts| ensures hl <= ptrs[i] < tl && CStr(buf[ptrs[i]..]) == CStr(ts[i]) {
        EndedIsCStr(buf[..], ptrs[i], ts[i]);
        assert buf[..][ptrs[i]..] == buf[ptrs[i]..];
      }
    }
    return |ptrs|, ptrs;
  }

  // ---- writing a frame ----

  lemma {:induction false} EncodeSnoc(ts: seq<Str>, i: nat)
    requires i < |ts|
    ensures Encode(ts[..i + 1]) == Encode(ts[..i]) + EncodeToken(ts[i])
  {
    if i == 0 {
      assert ts[..1] == [ts[0]] && ts[..1][1..] == [];
    } else {
      EncodeSnoc(ts[1..], i - 1);
      assert ts[..i + 1][1..] == ts[1..][..i] && ts[..i][1..] == ts[1..][..i - 1];
    }
  }

  /** `snprintf` into the buffer: the bytes of s, and a NUL after them. */
  method Print(buf: array<byte>, offset: nat, s: Str)
    requires offset + |s| < buf.Length
    modifies buf
    ensures buf[..offset + |s|] == old(buf[..offset]) + s
  {
    var i := 0;
    while i < |s|
      invariant 0 <= i <= |s|
      invariant buf[..offset + i] == old(buf[..offset]) + s[..i]
    {
      buf[offset + i] := s[i];
      assert s[..i + 1] == s[..i] + [s[i]];
      i := i + 1;
    }
    assert s[..i] == s;
    buf[offset + |s|] := 0;
  }

  /** The length of the body that holds the given tokens. */
  method BodyLength(argv: seq<Str>) returns (n: nat)
    ensures n == |Body(argv)|
  {
    n := 0;
    for i := 0 to |argv|
      invariant n == |Encode(argv[..i])|
    {
      EncodeSnoc(argv, i);
      n := n + |EncodeToken(argv[i])|;
    }
    assert argv[..|argv|] == argv;
    n := n + 2;
  }

  lemma EncodeNothing()
    ensures Encode([]) == []
  {}

  /** Print all tokens from the given offset on. */
  method PrintTokens(buf: array<byte>, start: nat, argv: seq<Str>) returns (offset: nat)
    requires start + |Encode(argv)| < buf.Length
    modifies buf
    ensures offset == start + |Encode(argv)| && buf[..offset] == old(buf[..start]) + Encode(argv)
  {
    hide Encode, EncodeToken;
    offset := start;
    ghost var pre := buf[..start];
    EncodeNothing();
    assert argv[..0] == [] && pre + [] == pre;
    for i := 0 to |argv|
      invariant offset == start + |Encode(argv[..i])|
      invariant offset <= start + |Encode(argv)| && buf[..offset] == pre + Encode(argv[..i])
    {
      EncodeSnoc(argv, i);
      EncodePrefix(argv, i + 1);
      Print(buf, offset, EncodeToken(argv[i]));
      offset := offset + |EncodeToken(argv[i])|;
    }
    assert argv[..|argv|] == argv;
  }

  /** The frame that holds the given tokens, in a new buffer; none without tokens. */
  method BuildFrame(argv: seq<Str>) returns (frame: Option<array<byte>>, len: nat)
    requires |FrameOf(argv)| <= INT_MAX
    ensures argv == [] <==> frame == None
    ensures frame.Some? ==>
      fresh(frame.value) && len == |FrameOf(argv)| < frame.value.Length && frame.value[..len] == FrameOf(argv)
  {
    hide Encode, Head;
    len := 0;
    if |argv| == 0 {
      return None, len;
    }
    var bodyLen := BodyLength(argv);
    var head := Head(bodyLen);
    var total := |head| + bodyLen;
    var buf := new byte[total + 1];
    Print(buf, 0, head);
    assert buf[..|head|] == head;
    var offset := PrintTokens(buf, |head|, argv);
    ghost var b := buf[..offset];
    buf[offset] := CR;
    buf[offset + 1] := LF;
    assert buf[..offset + 2] == b + [CR, LF];
    offset := offset + 2;
    return Some(buf), offset;
  }

  lemma {:induction false} EncodePrefix(ts: seq<Str>, i: nat)
    requires i <= |ts|
    ensures |Encode(ts[..i])| <= |Encode(ts)|
  {
    if i > 0 {
      EncodePrefix(ts[1..], i - 1);
      assert ts[..i][1..] == ts[1..][..i - 1];
    }
  }
}
