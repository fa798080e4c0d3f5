/** The byte ring that holds messages between threads: each is its length in eight bytes, then its bytes. */
module Ring {
  import opened Bytes
  import opened Kv

  const SIZE_OF_LEN: nat := 8
  const SIZE_MAX: nat := 0xffff_ffff_ffff_ffff

  // ---- a length in memory: little endian ----

  function Le(n: nat, k: nat): (s: Str)
    ensures |s| == k
  {
    if k == 0 then [] else [n % 256] + Le(n / 256, k - 1)
  }

  function UnLe(s: Str): nat {
    if s == [] then 0 else s[0] + 256 * UnLe(s[1..])
  }

  function Pow256(k: nat): nat { if k == 0 then 1 else 256 * Pow256(k - 1) }

  lemma {:induction false} UnLeLe(n: nat, k: nat)
    requires n < Pow256(k)
    ensures UnLe(Le(n, k)) == n
  {
    if k > 0 {
      UnLeLe(n / 256, k - 1);
      assert Le(n, k)[1..] == Le(n / 256, k - 1);
    }
  }

  lemma LengthRoundTrip(n: nat)
    requires n <= SIZE_MAX
    ensures UnLe(Le(n, SIZE_OF_LEN)) == n
  {
    assert Pow256(8) == SIZE_MAX + 1 by {
      assert Pow256(2) == 65536 && Pow256(4) == 65536 * Pow256(2) && Pow256(6) == 65536 * Pow256(4) && Pow256(8) == 65536 * Pow256(6);
    }
    UnLeLe(n, SIZE_OF_LEN);
  }

  /** A length is eight bytes, the lowest first. */
  lemma LowestFirst(a: byte, b: byte)
    ensures Le(a + 256 * b, SIZE_OF_LEN) == [a, b, 0, 0, 0, 0, 0, 0]
  {
    assert Le(0, 2) == [0, 0] && Le(0, 4) == [0, 0] + Le(0, 2) && Le(0, 6) == [0, 0] + Le(0, 4);
    assert Le(b, 7) == [b] + Le(0, 6);
  }

  // ---- messages as bytes ----

  ghost predicate Fits(m: Str) { 0 < |m| <= SIZE_MAX }

  function Packed(m: Str): Str { Le(|m|, SIZE_OF_LEN) + m }

  function PackedAll(ms: seq<Str>): Str {
    if ms == [] then [] else Packed(ms[0]) + PackedAll(ms[1..])
  }

  lemma {:induction false} PackedSnoc(ms: seq<Str>, m: Str)
    ensures PackedAll(ms + [m]) == PackedAll(ms) + Packed(m)
  {
    if ms == [] {
      assert ([m])[1..] == [] && ms + [m] == [m];
    } else {
      PackedSnoc(ms[1..], m);
      assert (ms + [m])[1..] == ms[1..] + [m];
    }
  }

  /** The first message can be read off the front. */
  lemma PackedFront(ms: seq<Str>)
    requires ms != [] && Fits(ms[0])
    ensures var s, n := PackedAll(ms), |ms[0]|;
      && |s| >= SIZE_OF_LEN + n && UnLe(s[..SIZE_OF_LEN]) == n
      && s[SIZE_OF_LEN..SIZE_OF_LEN + n] == ms[0] && s[SIZE_OF_LEN + n..] == PackedAll(ms[1..])
  {
    var s, n := PackedAll(ms), |ms[0]|;
    assert s[..SIZE_OF_LEN] == Le(n, SIZE_OF_LEN);
    LengthRoundTrip(n);
  }

  lemma PackedShort(ms: seq<Str>)
    requires ms != []
    ensures |PackedAll(ms)| >= SIZE_OF_LEN
  {
  }

  // ---- the ring ----

  /** The byte i places after start, in a ring. */
  function At(start: nat, i: nat, cap: nat): nat { if start + i < cap then start + i else start + i - cap }

  /** The place p is among the n places from start on. */
  predicate InArc(start: nat, n: nat, p: nat, cap: nat) {
    if start + n <= cap then start <= p < start + n else start <= p || p < start + n - cap
  }

  lemma Wraps(a: nat, cap: nat)
    requires 0 < cap && a < 2 * cap
    ensures a % cap == if a < cap then a else a - cap
  {
    var q, r := a / cap, a % cap;
    Quotient(a, cap, q, r);
  }

  /** The quotient of a number below 2 * cap is 0 or 1. */
  lemma Quotient(a: nat, cap: nat, q: nat, r: nat)
    requires a == q * cap + r && r < cap && a < 2 * cap
    ensures r == if a < cap then a else a - cap
  {
    if q >= 2 {
      assert q * cap == 2 * cap + (q - 2) * cap;
    }
  }

  function Advance(pos: nat, n: nat, cap: nat): (r: nat)
    requires 0 < cap && pos + n < 2 * cap
    ensures r == At(pos, n, cap)
  {
    Wraps(pos + n, cap);
    (pos + n) % cap
  }

  class AgentCache {
    var cache: array<byte>
    var readPos: nat
    var writePos: nat
    var used: nat
    /** The messages written and not read yet. */
    ghost var msgs: seq<Str>

    ghost predicate Shape()
      reads this
    {
      && 0 < cache.Length <= SIZE_MAX && readPos < cache.Length && used <= cache.Length
      && writePos == At(readPos, used, cache.Length)
    }

    ghost function Content(): (s: Str)
      requires Shape()
      reads this, cache
      ensures |s| == used
    {
      seq(used, i requires Shape() && 0 <= i < used reads this, cache => cache[At(readPos, i, cache.Length)])
    }

    ghost predicate Valid()
      reads this, cache
    {
      Shape() && Content() == PackedAll(msgs) && forall i :: 0 <= i < |msgs| ==> Fits(msgs[i])
    }

    constructor (size: nat)
      requires 0 < size <= SIZE_MAX
      ensures Valid() && fresh(cache) && msgs == [] && cache.Length == size
    {
      cache := new byte[size];
      readPos, writePos, used, msgs := 0, 0, 0, [];
    }

    /** `memcpy` of buf[from..from+n] to the given place. */
    method CopyIn(pos: nat, buf: Str, from: nat, n: nat)
      requires pos + n <= cache.Length && from + n <= |buf|
      modifies cache
      ensures forall p :: 0 <= p < cache.Length ==>
        cache[p] == if pos <= p < pos + n then buf[from + p - pos] else old(cache[p])
    {
      forall i | 0 <= i < n {
        cache[pos + i] := buf[from + i];
      }
    }

    /** Copy bytes in from writePos on, in one piece or around the end. */
    method PutBytes(buf: Str)
      requires Shape() && 0 < |buf| <= cache.Length
      modifies `writePos, cache
      ensures writePos == At(old(writePos), |buf|, cache.Length)
      ensures forall j :: 0 <= j < |buf| ==> cache[At(old(writePos), j, cache.Length)] == buf[j]
      ensures forall p :: 0 <= p < cache.Length && !InArc(old(writePos), |buf|, p, cache.Length) ==> cache[p] == old(cache[p])
    {
      var cap, n := cache.Length, |buf|;
      hide Advance;
      if cap - writePos >= n {
        CopyIn(writePos, buf, 0, n);
        writePos := Advance(writePos, n, cap);
      } else {
        var k := cap - writePos;
        CopyIn(writePos, buf, 0, k);
        writePos := Advance(writePos, k, cap);
        CopyIn(writePos, buf, k, n - k);
        writePos := Advance(writePos, n - k, cap);
      }
    }

    /** Append bytes behind the used ones. */
    method WriteBytes(buf: Str) returns (ret: int)
      requires Shape()
      modifies `writePos, `used, cache
      ensures Shape()
      ensures ret == if |buf| == 0 then -1 else if cache.Length - old(used) < |buf| then -2 else 0
      ensures ret == 0 ==> Content() == old(Content()) + buf
      ensures ret != 0 ==> unchanged(this) && unchanged(cache)
    {
      if |buf| == 0 { return -1; }
      if cache.Length - used < |buf| { return -2; }
      ghost var was := Content();
      PutBytes(buf);
      forall i | 0 <= i < used ensures !InArc(old(writePos), |buf|, At(readPos, i, cache.Length), cache.Length) {}
      forall j | 0 <= j < |buf|
        ensures At(readPos, used + j, cache.Length) == At(old(writePos), j, cache.Length) {}
      used := used + |buf|;
      assert Content() == was + buf;
      return 0;
    }
  
    /** The n bytes from start on, in one piece or around the end. */
    method CopyOut(start: nat, n: nat) returns (buf: Str)
      requires start < cache.Length && n <= cache.Length
      ensures |buf| == n && forall j :: 0 <= j < n ==> buf[j] == cache[At(start, j, cache.Length)]
    {
      if cache.Length - start >= n {
        buf := cache[start..start + n];
      } else {
        var k := cache.Length - start;
        buf := cache[start..] + cache[..n - k];
      }
    }

    /** Take bytes off the front. */
    method ReadBytes(n: nat) returns (ret: int, buf: Str)
      requires Shape()
      modifies `readPos, `used
      ensures Shape()
      ensures ret == if n == 0 then -1 else if old(used) < n then -2 else 0
      ensures ret == 0 ==> buf == old(Content())[..n] && Content() == old(Content())[n..]
      ensures ret != 0 ==> unchanged(this)
    {
      buf := [];
      if n == 0 { return -1, buf; }
      if used < n { return -2, buf; }
      ghost var was := Content();
      buf := CopyOut(readPos, n);
      Skip(n);
      assert buf == was[..n];
      return 0, buf;
    }

    /** Drop bytes off the front. */
    method Skip(n: nat)
      requires Shape() && n <= used
      modifies `readPos, `used
      ensures Shape() && used == old(used) - n && Content() == old(Content())[n..]
    {
      ghost var was := Content();
      forall i | n <= i < used
        ensures At(At(readPos, n, cache.Length), i - n, cache.Length) == At(readPos, i, cache.Length) {}
      readPos := Advance(readPos, n, cache.Length);
      used := used - n;
      assert Content() == was[n..];
    }

    /** The length of the first message. */
    method PeekLen() returns (ret: int, buf: Str)
      requires Shape()
      ensures ret == if used < SIZE_OF_LEN then -2 else 0
      ensures ret == 0 ==> buf == Content()[..SIZE_OF_LEN]
    {
      buf := [];
      if used < SIZE_OF_LEN { return -2, buf; }
      buf := CopyOut(readPos, SIZE_OF_LEN);
      assert buf == Content()[..SIZE_OF_LEN];
      return 0, buf;
    }

    /** Append a message; one that does not fit is rejected and changes nothing. */
    method Write(buf: Str) returns (ret: int)
      requires Valid()
      modifies this, cache
      ensures Valid() && cache == old(cache)
      ensures ret ==
        if |buf| == 0 then -1
        else if |buf| > SIZE_MAX - SIZE_OF_LEN || cache.Length - old(used) < SIZE_OF_LEN + |buf| then -2
        else 0
      ensures ret == 0 ==> msgs == old(msgs) + [buf] && used == old(used) + SIZE_OF_LEN + |buf|
      ensures ret != 0 ==> unchanged(this) && unchanged(cache)
    {
      if |buf| == 0 { return -1; }
      if |buf| > SIZE_MAX - SIZE_OF_LEN { return -2; }
      if cache.Length - used < SIZE_OF_LEN + |buf| { return -2; }
      ghost var was, len := Content(), Le(|buf|, SIZE_OF_LEN);
      ret := WriteBytes(Le(|buf|, SIZE_OF_LEN));
      ret := WriteBytes(buf);
      assert Content() == was + Packed(buf) by {
        assert (was + len) + buf == was + (len + buf);
      }
      PackedSnoc(msgs, buf);
      msgs := msgs + [buf];
    }

    /** Take the oldest message. */
    method Read() returns (r: Option<Str>)
      requires Valid()
      modifies this
      ensures Valid() && cache == old(cache)
      ensures old(msgs) == [] ==> r == None && unchanged(this)
      ensures old(msgs) != [] ==>
        && r == Some(old(msgs)[0]) && msgs == old(msgs)[1..]
        && used == old(used) - SIZE_OF_LEN - |old(msgs)[0]|
    {
      if used < SIZE_OF_LEN {
        if msgs != [] { PackedShort(msgs); }
        return None;
      }
      var ret, len := PeekLen();
      if msgs == [] { assert false; }
      PackedFront(msgs);
      var n := UnLe(len);
      if n > used - SIZE_OF_LEN || n == 0 {
        return None;
      }
      ghost var s, m := Content(), msgs[0];
      Skip(SIZE_OF_LEN);
      var buf;
      ret, buf := ReadBytes(n);
      if ret != 0 {
        return None;
      }
      assert s[SIZE_OF_LEN..][n..] == s[SIZE_OF_LEN + n..] && s[SIZE_OF_LEN..][..n] == s[SIZE_OF_LEN..SIZE_OF_LEN + n];
      msgs := msgs[1..];
      return Some(buf);
    }
  }
}
