/** The wire format exactly: when a prefix can still become a frame, and which bodies have tokens. */
module KvspExact {
  import opened Bytes
  import opened Kv
  import opened Kvsp

  /** Some continuation of s starts with a frame. */
  ghost predicate Hopeful(s: Str) {
    exists t, ds, body, rest :: StartsWithFrame(s + t, ds, body, rest)
  }

  /** What a prefix for which more bytes are needed must be like, so that they can help. */
  ghost predicate CanGrow(s: Str)
    requires |s| > 0
  {
    var ds := LengthDigits(s);
    Value(ds) + |ds| + 3 <= INT_MAX && (|s| == 2 + |ds| ==> s[1 + |ds|] == CR)
  }

  function Zeros(n: nat): Str { seq(n, _ => 0) }

  /** More bytes that make it a frame. */
  lemma Completed(s: Str)
    requires |s| > 0 && Parse(s) == NeedMore && CanGrow(s)
    ensures Hopeful(s)
  {
    var ds := LengthDigits(s);
    DigitsInside(s);
    assert s[..1] == [HASH] && s[1..1 + |ds|] == ds;
    if ds == [] {
      var zero: Str := [48];
      assert zero[..0] == [] && Value(zero) == 0;
      assert s + (zero + [CR, LF]) == [HASH] + zero + [CR, LF] + [] + [];
      assert StartsWithFrame(s + (zero + [CR, LF]), zero, [], []);
    } else {
      hide Value;
      var head := [HASH] + ds + [CR, LF];
      var n := Value(ds);
      if |s| < |head| {
        var t := head[|s|..] + Zeros(n);
        assert s == head[..|s|];
        assert s + t == head + Zeros(n) + [];
        assert StartsWithFrame(s + t, ds, Zeros(n), []);
      } else {
        assert s[..|head|] == head;
        var part := s[|head|..];
        var t := Zeros(n - |part|);
        assert s + t == head + (part + t) + [];
        assert StartsWithFrame(s + t, ds, part + t, []);
      }
    }
  }

  lemma HopefulGrows(s: Str)
    requires |s| > 0 && Parse(s) == NeedMore && Hopeful(s)
    ensures CanGrow(s)
  {
    var t, ds, body, rest :| StartsWithFrame(s + t, ds, body, rest);
    FrameParses(s + t, ds, body, rest);
    hide Value, LengthDigits;
    DigitsExtend(s, t);
    assert forall i :: 0 <= i < |s| ==> (s + t)[i] == s[i];
  }

  /** More bytes are asked for; they can help exactly if the length leaves room and what stands behind it is CR. */
  lemma NeedMoreExactly(s: Str)
    requires |s| > 0 && Parse(s) == NeedMore
    ensures Hopeful(s) <==> CanGrow(s)
  {
    hide Parse, Hopeful, CanGrow;
    if CanGrow(s) {
      Completed(s);
    }
    if Hopeful(s) {
      HopefulGrows(s);
    }
  }

  /**
   * A prefix without digits, or with a whole head, is called malformed exactly if no continuation of it
   * starts with a frame: nothing is waited for that cannot come.
   */
  lemma BadExactly(s: Str)
    requires |s| > 1 && (LengthDigits(s) == [] || |s| >= 3 + |LengthDigits(s)|)
    ensures Parse(s) == Bad <==> !Hopeful(s)
  {
    if Parse(s) == NeedMore {
      assert CanGrow(s);
      NeedMoreExactly(s);
    } else if Parse(s) == Bad {
      forall t, ds, body, rest ensures !StartsWithFrame(s + t, ds, body, rest) {
        VerdictStable(s, t);
        if StartsWithFrame(s + t, ds, body, rest) {
          FrameParses(s + t, ds, body, rest);
        }
      }
    } else {
      ParsedIsFrame(s);
      assert s + [] == s;
    }
  }

  // ---- the tokens of a body ----

  /** s starts with one token t: a caret, its length in decimal, an ampersand, its bytes. */
  ghost predicate OneToken(s: Str, ds: Str, t: Str, rest: Str) {
    && s == [CARET] + ds + [AMP] + t + rest
    && ds != [] && (forall i :: 0 <= i < |ds| ==> IsDigit(ds[i])) && Value(ds) == |t|
  }

  /** s is the notation of the tokens ts, and of nothing else. */
  ghost predicate Notation(s: Str, ts: seq<Str>)
    decreases |ts|
  {
    if ts == [] then s == [] else exists ds, rest :: OneToken(s, ds, ts[0], rest) && Notation(rest, ts[1..])
  }

  lemma TokenRead(s: Str, ds: Str, t: Str, rest: Str)
    requires OneToken(s, ds, t, rest) && |s| <= INT_MAX
    ensures FirstToken(s) == Some((t, |s| - |rest|)) && s[|s| - |rest|..] == rest
  {
    assert s[1..] == ds + ([AMP] + t + rest);
    DigitRunIs(ds, [AMP] + t + rest);
    assert LengthDigits(s) == ds;
    assert s[2 + |ds|..2 + |ds| + |t|] == t;
  }

  lemma TokenIs(s: Str)
    requires FirstToken(s).Some?
    ensures var (t, n) := FirstToken(s).value; 3 <= n <= |s| && OneToken(s, LengthDigits(s), t, s[n..])
  {
    var ds, n := LengthDigits(s), FirstToken(s).value.1;
    assert s == s[..1] + s[1..1 + |ds|] + s[1 + |ds|..2 + |ds|] + s[2 + |ds|..n] + s[n..];
  }

  /** The reader finds exactly the tokens that the bytes denote, if there is room for them. */
  lemma {:induction false} TokensExactly(s: Str, room: nat, ts: seq<Str>)
    requires |s| <= INT_MAX
    ensures TokensOf(s, room) == Some(ts) <==> Notation(s, ts) && |ts| <= room
    decreases |s|
  {
    hide FirstToken, OneToken;
    if s != [] && ts != [] {
      if room > 0 && FirstToken(s).Some? {
        var (t, n) := FirstToken(s).value;
        TokenIs(s);
        TokensExactly(s[n..], room - 1, ts[1..]);
        if TokensOf(s, room) == Some(ts) {
          var more := TokensOf(s[n..], room - 1).value;
          assert ts == [t] + more && ts[1..] == more;
          assert OneToken(s, LengthDigits(s), ts[0], s[n..]);
        }
        if Notation(s, ts) {
          var ds, rest :| OneToken(s, ds, ts[0], rest) && Notation(rest, ts[1..]);
          TokenRead(s, ds, ts[0], rest);
          assert ts == [ts[0]] + ts[1..];
        }
      } else if Notation(s, ts) {
        var ds, rest :| OneToken(s, ds, ts[0], rest) && Notation(rest, ts[1..]);
        TokenRead(s, ds, ts[0], rest);
      }
    } else if s == [] && ts != [] {
      NoTokenInNothing(ts);
    }
  }

  lemma NoTokenInNothing(ts: seq<Str>)
    requires ts != []
    ensures !Notation([], ts)
  {}

  /** A body is split exactly if it is the notation of at most 128 tokens, followed by CR LF. */
  lemma BodyExactly(body: Str, ts: seq<Str>)
    requires |body| <= 2147483647
    ensures SplitBody(body) == Some(ts) <==>
      |ts| <= 128 && |body| >= 2 && body[|body| - 2..] == [13, 10] && Notation(body[..|body| - 2], ts)
  {
    hide TokensOf, Notation;
    if |body| >= 2 {
      TokensExactly(body[..|body| - 2], MAX_TOKENS, ts);
    }
  }
}
