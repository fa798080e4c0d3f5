/** The abstract store: association lists and the finite map they stand for. */
module Pairs {
  import opened Bytes

  datatype Pair = Pair(key: Str, value: Str)

  /** The map an association list stands for; an earlier entry hides a later one. */
  ghost function MapOf(s: seq<Pair>): map<Str, Str> {
    if s == [] then map[] else MapOf(s[1..])[s[0].key := s[0].value]
  }

  ghost predicate HasKey(s: seq<Pair>, k: Str) {
    exists i :: 0 <= i < |s| && s[i].key == k
  }

  ghost predicate UniqueKeys(s: seq<Pair>) {
    forall i, j :: 0 <= i < j < |s| ==> s[i].key != s[j].key
  }

  ghost predicate Sorted(s: seq<Pair>) {
    forall i, j :: 0 <= i < j < |s| ==> Less(s[i].key, s[j].key)
  }

  ghost predicate Below(s: seq<Pair>, k: Str) {
    forall i :: 0 <= i < |s| ==> Less(s[i].key, k)
  }

  ghost predicate Above(s: seq<Pair>, k: Str) {
    forall i :: 0 <= i < |s| ==> Less(k, s[i].key)
  }

  lemma {:induction false} MapKeys(s: seq<Pair>, k: Str)
    ensures k in MapOf(s) <==> HasKey(s, k)
  {
    if s != [] {
      MapKeys(s[1..], k);
      assert forall i :: 0 < i < |s| ==> s[1..][i - 1] == s[i];
      assert HasKey(s, k) <==> s[0].key == k || HasKey(s[1..], k) by {
        if HasKey(s[1..], k) {
          var i :| 0 <= i < |s[1..]| && s[1..][i].key == k;
          assert s[i + 1].key == k;
        }
      }
    }
  }

  lemma {:induction false} MapConcat(a: seq<Pair>, b: seq<Pair>)
    ensures MapOf(a + b) == MapOf(b) + MapOf(a)
  {
    if a == [] {
      assert a + b == b;
    } else {
      assert (a + b)[1..] == a[1..] + b;
      MapConcat(a[1..], b);
    }
  }

  lemma PutBetween(a: map<Str, Str>, k: Str, v: Str, b: map<Str, Str>)
    requires k !in a && k !in b
    ensures b + (map[k := v] + a) == (b + a)[k := v]
    ensures (b + a)[k := v] - {k} == b + a
  {}

  lemma PutBack(m: map<Str, Str>, k: Str)
    requires k in m
    ensures (m - {k})[k := m[k]] == m
  {}

  /** What the entry p contributes between a and b, given that no other entry has its key. */
  lemma MapAround(a: seq<Pair>, p: Pair, b: seq<Pair>)
    requires !HasKey(a, p.key) && !HasKey(b, p.key)
    ensures p.key !in MapOf(a + b)
    ensures MapOf(a + [p] + b) == MapOf(a + b)[p.key := p.value]
    ensures MapOf(a + b) == MapOf(a + [p] + b) - {p.key}
  {
    MapKeys(a, p.key);
    MapKeys(b, p.key);
    MapConcat(a, b);
    MapConcat(a, [p]);
    MapConcat(a + [p], b);
    assert MapOf([p]) == map[p.key := p.value] by { assert [p][1..] == []; }
    hide MapOf;
    PutBetween(MapOf(a), p.key, p.value, MapOf(b));
  }

  /** In a strictly sorted list everything before an entry is below its key, everything after above. */
  lemma SortedAround(a: seq<Pair>, p: Pair, b: seq<Pair>)
    requires Sorted(a + [p] + b)
    ensures Sorted(a) && Sorted(b) && Below(a, p.key) && Above(b, p.key) && Sorted(a + b)
    ensures !HasKey(a, p.key) && !HasKey(b, p.key)
  {
    var s := a + [p] + b;
    var n := |a|;
    assert s[n] == p;
    StrCmpEqual(p.key, p.key);
    assert !Less(p.key, p.key);
    hide Less;
    forall i | 0 <= i < |a| ensures a[i] == s[i] && Less(a[i].key, p.key) && a[i].key != p.key {}
    forall i | 0 <= i < |b| ensures b[i] == s[n + 1 + i] && Less(p.key, b[i].key) && b[i].key != p.key {}
  }

  lemma SortedInsert(a: seq<Pair>, p: Pair, b: seq<Pair>)
    requires Sorted(a + b) && Below(a, p.key) && Above(b, p.key)
    ensures Sorted(a + [p] + b)
  {
    var s, t := a + [p] + b, a + b;
    forall i, j | 0 <= i < j < |s| ensures Less(s[i].key, s[j].key) {
      var i', j' := if i <= |a| then i else i - 1, if j <= |a| then j else j - 1;
      if i != |a| && j != |a| {
        assert s[i] == t[i'] && s[j] == t[j'];
      }
    }
  }

  /** A key below the list's pivot is below everything after it, and the mirror image. */
  lemma BelowRest(k: Str, p: Pair, b: seq<Pair>)
    requires Less(k, p.key) && Above(b, p.key)
    ensures Above([p] + b, k)
  {
    forall i | 0 <= i < |b| ensures Less(k, b[i].key) {
      LessTransitive(k, p.key, b[i].key);
    }
  }

  lemma AboveRest(k: Str, p: Pair, a: seq<Pair>)
    requires Less(p.key, k) && Below(a, p.key)
    ensures Below(a + [p], k)
  {
    forall i | 0 <= i < |a| ensures Less(a[i].key, k) {
      LessTransitive(a[i].key, p.key, k);
    }
  }

  lemma SortedUnique(s: seq<Pair>)
    requires Sorted(s)
    ensures UniqueKeys(s)
  {
    forall i, j | 0 <= i < j < |s| ensures s[i].key != s[j].key {
      StrCmpEqual(s[i].key, s[j].key);
    }
  }

  lemma {:induction false} MapSize(s: seq<Pair>)
    requires UniqueKeys(s)
    ensures |MapOf(s)| == |s|
  {
    if s != [] {
      var k := s[0].key;
      assert !HasKey(s[1..], k) by {
        forall i | 0 <= i < |s[1..]| ensures s[1..][i].key != k { assert s[1..][i] == s[i + 1]; }
      }
      MapKeys(s[1..], k);
      MapSize(s[1..]);
    }
  }

  lemma NotBetween(a: seq<Pair>, b: seq<Pair>, k: Str)
    requires Below(a, k) && Above(b, k)
    ensures k !in MapOf(a + b)
  {
    StrCmpEqual(k, k);
    MapKeys(a + b, k);
  }

  /** s' is s without one entry p. */
  ghost predicate Removed(s: seq<Pair>, p: Pair, s': seq<Pair>) {
    exists a, b :: s == a + [p] + b && s' == a + b
  }

  lemma RemovedMap(s: seq<Pair>, p: Pair, s': seq<Pair>)
    requires Sorted(s) && Removed(s, p, s')
    ensures Sorted(s') && p.key in MapOf(s) && MapOf(s') == MapOf(s) - {p.key}
  {
    var a, b :| s == a + [p] + b && s' == a + b;
    SortedAround(a, p, b);
    MapAround(a, p, b);
  }

  /** Another value under the same key. */
  lemma Revalue(a: seq<Pair>, p: Pair, b: seq<Pair>, v: Str)
    requires Sorted(a + [p] + b)
    ensures var s := a + [Pair(p.key, v)] + b;
      Sorted(s) && MapOf(s) == MapOf(a + [p] + b)[p.key := v] && p.key in MapOf(a + [p] + b)
  {
    var q := Pair(p.key, v);
    SortedAround(a, p, b);
    SortedInsert(a, q, b);
    MapAround(a, p, b);
    MapAround(a, q, b);
  }

  /** Every entry is a binding of the map. */
  ghost predicate AllBound(s: seq<Pair>, m: map<Str, Str>) {
    forall p :: p in s ==> p.key in m && m[p.key] == p.value
  }

  lemma {:induction false} UniqueBound(s: seq<Pair>)
    requires UniqueKeys(s)
    ensures AllBound(s, MapOf(s))
  {
    if s != [] {
      var t := s[1..];
      assert UniqueKeys(t) by {
        forall i, j | 0 <= i < j < |t| ensures t[i].key != t[j].key { assert s[i + 1].key != s[j + 1].key; }
      }
      UniqueBound(t);
      forall p | p in s ensures p.key in MapOf(s) && MapOf(s)[p.key] == p.value {
        var i :| 0 <= i < |s| && s[i] == p;
        if i > 0 {
          assert t[i - 1] == p && s[0].key != s[i].key;
        }
      }
    }
  }

  lemma UniqueConcat(a: seq<Pair>, b: seq<Pair>)
    requires UniqueKeys(a) && UniqueKeys(b) && forall i, j :: 0 <= i < |a| && 0 <= j < |b| ==> a[i].key != b[j].key
    ensures UniqueKeys(a + b)
  {}
}
