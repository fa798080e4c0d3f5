/** Cutting a byte stream into frames as it arrives, for any handler of frames. */
module Framing {
  import opened Bytes
  import opened Kv
  import opened Kvsp

  /** The handler's state, the bytes not consumed yet, and whether the stream was given up. */
  datatype Drained<S> = Drained(state: S, rest: Str, dead: bool)

  /**
   * Hand over all complete frames of s, one by one. A malformed frame, or one that the handler
   * refuses, ends the stream.
   */
  ghost function Drain<S>(s: Str, st: S, step: (S, Str) -> Option<S>): Drained<S> {
    if s == [] then Drained(st, s, false)
    else match Parse(s)
      case NeedMore => Drained(st, s, false)
      case Bad => Drained(st, s, true)
      case Frame(_, n) =>
        var st' := step(st, s[..n]);
        if st'.None? then Drained(st, s, true) else Drain(s[n..], st'.value, step)
  }

  /** What becomes of the first frame. */
  lemma DrainOne<S>(s: Str, st: S, step: (S, Str) -> Option<S>)
    requires s != []
    ensures Parse(s) == NeedMore ==> Drain(s, st, step) == Drained(st, s, false)
    ensures Parse(s) == Bad ==> Drain(s, st, step) == Drained(st, s, true)
    ensures Parse(s).Frame? ==> 0 < Parse(s).total <= |s|
    ensures Parse(s).Frame? && step(st, s[..Parse(s).total]).None? ==> Drain(s, st, step) == Drained(st, s, true)
    ensures Parse(s).Frame? && step(st, s[..Parse(s).total]).Some? ==>
      Drain(s, st, step) == Drain(s[Parse(s).total..], step(st, s[..Parse(s).total]).value, step)
  {}

  lemma DrainNothing<S>(st: S, step: (S, Str) -> Option<S>)
    ensures Drain([], st, step) == Drained(st, [], false)
  {}

  /** One more chunk arrives. */
  ghost function Feed<S>(d: Drained<S>, chunk: Str, step: (S, Str) -> Option<S>): Drained<S> {
    if d.dead then d else Drain(d.rest + chunk, d.state, step)
  }

  ghost function FeedAll<S>(d: Drained<S>, chunks: seq<Str>, step: (S, Str) -> Option<S>): Drained<S>
    decreases |chunks|
  {
    if chunks == [] then d else FeedAll(Feed(d, chunks[0], step), chunks[1..], step)
  }

  ghost function Concat(chunks: seq<Str>): Str {
    if chunks == [] then [] else chunks[0] + Concat(chunks[1..])
  }

  /** What is left over holds no complete frame. */
  lemma {:induction false} RestIsStuck<S>(s: Str, st: S, step: (S, Str) -> Option<S>)
    ensures var d := Drain(s, st, step); !d.dead ==> Drain(d.rest, d.state, step) == d
    decreases |s|
  {
    if s != [] && Parse(s).Frame? {
      var n := Parse(s).total;
      var st' := step(st, s[..n]);
      if st'.Some? {
        RestIsStuck(s[n..], st'.value, step);
      }
    }
  }

  /** Draining a longer stream continues where the shorter one stopped. */
  lemma {:induction false} DrainAppend<S>(s: Str, t: Str, st: S, step: (S, Str) -> Option<S>)
    ensures var d := Drain(s, st, step);
      Drain(s + t, st, step) == if d.dead then Drained(d.state, d.rest + t, true) else Drain(d.rest + t, d.state, step)
    decreases |s|
  {
    if s == [] {
      assert s + t == t;
    } else if Parse(s) != NeedMore {
      VerdictStable(s, t);
      if Parse(s).Frame? {
        var n := Parse(s).total;
        assert (s + t)[..n] == s[..n] && (s + t)[n..] == s[n..] + t;
        var st' := step(st, s[..n]);
        if st'.Some? {
          DrainAppend(s[n..], t, st'.value, step);
        }
      }
    }
  }

  /** Up to the end of the stream, two readers did the same. */
  ghost predicate SameOutcome<S>(a: Drained<S>, b: Drained<S>) {
    a.state == b.state && a.dead == b.dead && (!a.dead ==> a.rest == b.rest)
  }

  lemma {:induction false} FeedAllDrains<S>(s: Str, chunks: seq<Str>, st: S, step: (S, Str) -> Option<S>)
    ensures SameOutcome(FeedAll(Drain(s, st, step), chunks, step), Drain(s + Concat(chunks), st, step))
    decreases |chunks|
  {
    var d := Drain(s, st, step);
    if chunks == [] {
      assert s + Concat(chunks) == s;
    } else {
      var c, rest := chunks[0], chunks[1..];
      assert s + Concat(chunks) == (s + c) + Concat(rest);
      DrainAppend(s, c, st, step);
      hide Drain;
      if d.dead {
        FeedDead(d, rest, step);
        DrainAppend(s, Concat(chunks), st, step);
      } else {
        FeedAllDrains(s + c, rest, st, step);
      }
    }
  }

  lemma {:induction false} FeedDead<S>(d: Drained<S>, chunks: seq<Str>, step: (S, Str) -> Option<S>)
    requires d.dead
    ensures FeedAll(d, chunks, step) == d
  {
    if chunks != [] {
      FeedDead(d, chunks[1..], step);
    }
  }

  /** However the stream is cut into chunks, the same frames are handed over and the same bytes remain. */
  lemma ChunkingIndependence<S>(a: seq<Str>, b: seq<Str>, st: S, step: (S, Str) -> Option<S>)
    requires Concat(a) == Concat(b)
    ensures var start := Drained(st, [], false);
      SameOutcome(FeedAll(start, a, step), FeedAll(start, b, step))
  {
    FeedAllDrains([], a, st, step);
    FeedAllDrains([], b, st, step);
    assert Drain([], st, step) == Drained(st, [], false);
  }
}
