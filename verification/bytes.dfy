/** Bytes, C strings and the order that `strcmp` puts on them. */
module Bytes {
  type byte = x: int | 0 <= x < 256

  /** A NUL-terminated string, as its bytes before the terminator. */
  type Str = seq<byte>

  /** The sign of C's `strcmp`: bytes compared as unsigned, a proper prefix comes first. */
  function StrCmp(a: Str, b: Str): int
  {
    if a == [] then (if b == [] then 0 else -1)
    else if b == [] then 1
    else if a[0] < b[0] then -1
    else if a[0] > b[0] then 1
    else StrCmp(a[1..], b[1..])
  }

  ghost predicate Less(a: Str, b: Str) {
    StrCmp(a, b) < 0
  }

  /** The order of the first byte that differs, as an unsigned number; a proper prefix comes first. */
  lemma {:induction false} LessExactly(a: Str, b: Str)
    ensures Less(a, b) <==> exists i :: 0 <= i <= |a| && i < |b| && a[..i] == b[..i] && (i == |a| || a[i] < b[i])
  {
    if a != [] && b != [] {
      var a', b' := a[1..], b[1..];
      LessExactly(a', b');
      if a[0] == b[0] {
        if Less(a, b) {
          var i :| 0 <= i <= |a'| && i < |b'| && a'[..i] == b'[..i] && (i == |a'| || a'[i] < b'[i]);
          assert a[..i + 1] == [a[0]] + a'[..i] && b[..i + 1] == [b[0]] + b'[..i];
        }
        forall i | 0 <= i <= |a| && i < |b| && a[..i] == b[..i] && (i == |a| || a[i] < b[i]) ensures Less(a, b) {
          assert i > 0;
          assert a'[..i - 1] == a[..i][1..] && b'[..i - 1] == b[..i][1..];
        }
      } else {
        assert a[..0] == b[..0];
        forall i | 0 < i <= |a| && i < |b| ensures a[..i] != b[..i] {
          assert a[..i][0] == a[0] && b[..i][0] == b[0];
        }
      }
    } else if b != [] {
      assert a[..0] == b[..0];
    }
  }

  lemma {:induction false} StrCmpEqual(a: Str, b: Str)
    ensures StrCmp(a, b) == 0 <==> a == b
  {
    if a != [] && b != [] && a[0] == b[0] {
      StrCmpEqual(a[1..], b[1..]);
      assert a == [a[0]] + a[1..] && b == [b[0]] + b[1..];
    }
  }

  lemma {:induction false} StrCmpFlip(a: Str, b: Str)
    ensures StrCmp(b, a) == -StrCmp(a, b)
  {
    if a != [] && b != [] && a[0] == b[0] {
      StrCmpFlip(a[1..], b[1..]);
    }
  }

  lemma {:induction false} LessTransitive(a: Str, b: Str, c: Str)
    requires Less(a, b) && Less(b, c)
    ensures Less(a, c)
  {
    if a != [] && a[0] == b[0] && b[0] == c[0] {
      LessTransitive(a[1..], b[1..], c[1..]);
    }
  }

  /** The C string that starts at the front of s: everything before the first NUL. */
  function CStr(s: Str): Str {
    if s == [] || s[0] == 0 then [] else [s[0]] + CStr(s[1..])
  }

  lemma {:induction false} CStrEnds(t: Str, r: Str)
    ensures CStr(t + [0] + r) == CStr(t)
  {
    if t != [] && t[0] != 0 {
      assert (t + [0] + r)[1..] == t[1..] + [0] + r;
      CStrEnds(t[1..], r);
    }
  }

  lemma {:induction false} CStrWhole(t: Str)
    requires 0 !in t
    ensures CStr(t) == t
  {
    if t != [] {
      CStrWhole(t[1..]);
      assert t == [t[0]] + t[1..];
    }
  }
}
