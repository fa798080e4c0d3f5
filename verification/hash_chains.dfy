/** A chained hash table as it lies in memory: one list of nodes per slot. */
module HashChains {
  import opened Bytes
  import opened Pairs

  class Node {
    var key: Str
    var value: Str
    var next: Node?

    constructor (k: Str, v: Str)
      ensures key == k && value == v && next == null
    {
      key, value, next := k, v, null;
    }
  }

  datatype Rec = Rec(key: Str, value: Str, next: Node?)

  type Mem = map<Node, Rec>

  ghost function Entry(m: Mem, n: Node): Pair {
    if n in m then Pair(m[n].key, m[n].value) else Pair([], [])
  }

  ghost function Entries(m: Mem, l: seq<Node>): seq<Pair> {
    seq(|l|, p requires 0 <= p < |l| => Entry(m, l[p]))
  }

  /** The node at position k of a chain, or null behind its end. */
  ghost function At(c: seq<Node>, k: nat): Node? {
    if k < |c| then c[k] else null
  }

  ghost predicate Link(m: Mem, c: seq<Node>, k: nat, i: nat, slot: Str -> nat)
    requires k < |c|
  {
    c[k] in m && m[c[k]].next == At(c, k + 1) && slot(m[c[k]].key) == i
  }

  /** c is the list of slot i: linked from its head on, with distinct keys that all belong to i. */
  ghost predicate Chain(m: Mem, head: Node?, c: seq<Node>, i: nat, slot: Str -> nat) {
    head == At(c, 0) && (forall k :: 0 <= k < |c| ==> Link(m, c, k, i, slot)) && UniqueKeys(Entries(m, c))
  }

  ghost function Join(chains: seq<seq<Node>>): seq<Node> {
    if chains == [] then [] else chains[0] + Join(chains[1..])
  }

  ghost predicate Table(m: Mem, heads: seq<Node?>, chains: seq<seq<Node>>, slot: Str -> nat) {
    && |heads| == |chains| && (forall i :: 0 <= i < |chains| ==> Chain(m, heads[i], chains[i], i, slot))
    && forall n :: n in m ==> slot(m[n].key) < |chains| && n in chains[slot(m[n].key)]
  }

  /** A table of the given size with count nodes. */
  ghost predicate Sized(m: Mem, heads: seq<Node?>, chains: seq<seq<Node>>, slot: Str -> nat, size: nat, count: int) {
    Table(m, heads, chains, slot) && |chains| == size && count == |Join(chains)|
  }

  /** What the table holds, in the order of the slots. */
  ghost function Bindings(m: Mem, chains: seq<seq<Node>>): seq<Pair> {
    Entries(m, Join(chains))
  }

  lemma {:induction false} JoinConcat(a: seq<seq<Node>>, b: seq<seq<Node>>)
    ensures Join(a + b) == Join(a) + Join(b)
  {
    if a == [] {
      assert a + b == b;
    } else {
      assert (a + b)[1..] == a[1..] + b;
      JoinConcat(a[1..], b);
    }
  }

  lemma JoinAt(chains: seq<seq<Node>>, i: nat, c: seq<Node>)
    requires i < |chains|
    ensures Join(chains[i := c]) == Join(chains[..i]) + c + Join(chains[i + 1..])
    ensures Join(chains) == Join(chains[..i]) + chains[i] + Join(chains[i + 1..])
  {
    JoinMiddle(chains[..i], c, chains[i + 1..]);
    JoinMiddle(chains[..i], chains[i], chains[i + 1..]);
    assert chains[i := c] == chains[..i] + [c] + chains[i + 1..];
    assert chains == chains[..i] + [chains[i]] + chains[i + 1..];
  }

  lemma JoinMiddle(a: seq<seq<Node>>, c: seq<Node>, b: seq<seq<Node>>)
    ensures Join(a + [c] + b) == Join(a) + c + Join(b)
  {
    JoinConcat(a, [c]);
    JoinConcat(a + [c], b);
    assert [c][1..] == [];
    assert Join([c]) == c + Join([]) == c;
  }

  lemma {:induction false} InJoin(chains: seq<seq<Node>>, n: Node) returns (j: nat)
    requires n in Join(chains)
    ensures j < |chains| && n in chains[j]
  {
    if n in chains[0] {
      j := 0;
    } else {
      j := InJoin(chains[1..], n);
      j := j + 1;
    }
  }

  lemma EntriesConcat(m: Mem, a: seq<Node>, b: seq<Node>)
    ensures Entries(m, a + b) == Entries(m, a) + Entries(m, b)
  {}

  lemma SameEntries(m: Mem, m': Mem, l: seq<Node>)
    requires forall n :: n in l ==> Entry(m', n) == Entry(m, n)
    ensures Entries(m', l) == Entries(m, l)
  {}

  /** The nodes before and behind slot i. */
  ghost function Others(chains: seq<seq<Node>>, i: nat): (seq<Node>, seq<Node>)
    requires i < |chains|
  {
    (Join(chains[..i]), Join(chains[i + 1..]))
  }

  /** No other slot has a key that belongs to this one. */
  lemma OthersLack(m: Mem, heads: seq<Node?>, chains: seq<seq<Node>>, slot: Str -> nat, i: nat, key: Str)
    requires Table(m, heads, chains, slot) && i < |chains| && slot(key) == i
    ensures !HasKey(Entries(m, Others(chains, i).0), key) && !HasKey(Entries(m, Others(chains, i).1), key)
  {
    var (a, b) := Others(chains, i);
    forall p | 0 <= p < |a| ensures Entries(m, a)[p].key != key {
      assert a[p] in a;
      var j := InJoin(chains[..i], a[p]);
      ChainSlot(m, heads, chains, slot, j, a[p]);
    }
    forall p | 0 <= p < |b| ensures Entries(m, b)[p].key != key {
      assert b[p] in b;
      var j := InJoin(chains[i + 1..], b[p]);
      ChainSlot(m, heads, chains, slot, i + 1 + j, b[p]);
    }
  }

  lemma ChainSlot(m: Mem, heads: seq<Node?>, chains: seq<seq<Node>>, slot: Str -> nat, j: nat, n: Node)
    requires Table(m, heads, chains, slot) && j < |chains| && n in chains[j]
    ensures n in m && slot(Entry(m, n).key) == j
  {
    var k :| 0 <= k < |chains[j]| && chains[j][k] == n;
    assert Chain(m, heads[j], chains[j], j, slot) && Link(m, chains[j], k, j, slot);
  }

  lemma BindingsAt(m: Mem, chains: seq<seq<Node>>, i: nat, c: seq<Node>)
    requires i < |chains|
    ensures Bindings(m, chains[i := c]) == Entries(m, Others(chains, i).0) + Entries(m, c) + Entries(m, Others(chains, i).1)
    ensures Bindings(m, chains) == Entries(m, Others(chains, i).0) + Entries(m, chains[i]) + Entries(m, Others(chains, i).1)
  {
    JoinAt(chains, i, c);
    var (a, b) := Others(chains, i);
    EntriesConcat(m, a, c);
    EntriesConcat(m, a + c, b);
    EntriesConcat(m, a, chains[i]);
    EntriesConcat(m, a + chains[i], b);
  }

  lemma HasKeyConcat(a: seq<Pair>, b: seq<Pair>, k: Str)
    ensures HasKey(a + b, k) <==> HasKey(a, k) || HasKey(b, k)
  {
    if HasKey(a, k) {
      var i :| 0 <= i < |a| && a[i].key == k;
      assert (a + b)[i].key == k;
    }
    if HasKey(b, k) {
      var i :| 0 <= i < |b| && b[i].key == k;
      assert (a + b)[|a| + i].key == k;
    }
  }

  /** The table holds a key exactly if the key's chain does. */
  lemma InChain(m: Mem, heads: seq<Node?>, chains: seq<seq<Node>>, slot: Str -> nat, key: Str)
    requires Table(m, heads, chains, slot) && slot(key) < |chains|
    ensures key in MapOf(Bindings(m, chains)) <==> HasKey(Entries(m, chains[slot(key)]), key)
  {
    var i := slot(key);
    var (a, b) := Others(chains, i);
    OthersLack(m, heads, chains, slot, i, key);
    BindingsAt(m, chains, i, chains[i]);
    HasKeyConcat(Entries(m, a), Entries(m, chains[i]), key);
    HasKeyConcat(Entries(m, a) + Entries(m, chains[i]), Entries(m, b), key);
    MapKeys(Bindings(m, chains), key);
  }

  /** The part of the table before and behind the node k of slot i. */
  ghost function Around(m: Mem, chains: seq<seq<Node>>, i: nat, k: nat): (seq<Pair>, seq<Pair>)
    requires i < |chains| && k < |chains[i]|
  {
    var (a, b) := Others(chains, i);
    (Entries(m, a) + Entries(m, chains[i][..k]), Entries(m, chains[i][k + 1..]) + Entries(m, b))
  }

  /** The node k of slot i is the only one with its key. */
  lemma AroundNode(m: Mem, heads: seq<Node?>, chains: seq<seq<Node>>, slot: Str -> nat, i: nat, k: nat)
    requires Table(m, heads, chains, slot) && i < |chains| && k < |chains[i]|
    ensures var (a, b) := Around(m, chains, i, k); var p := Entry(m, chains[i][k]);
      Bindings(m, chains) == a + [p] + b && !HasKey(a, p.key) && !HasKey(b, p.key)
  {
    var c, n := chains[i], chains[i][k];
    assert Chain(m, heads[i], c, i, slot) && n in c;
    ChainSlot(m, heads, chains, slot, i, n);
    OthersLack(m, heads, chains, slot, i, Entry(m, n).key);
    BindingsAt(m, chains, i, c);
    ChainAround(m, c, k);
    var (oa, ob) := Others(chains, i);
    HasKeyConcat(Entries(m, oa), Entries(m, c[..k]), Entry(m, n).key);
    HasKeyConcat(Entries(m, c[k + 1..]), Entries(m, ob), Entry(m, n).key);
    hide Entries, Bindings, HasKey, Chain, Table;
    var x, y, z, p := Entries(m, oa), Entries(m, c[..k]), Entries(m, c[k + 1..]), Entry(m, n);
    assert x + (y + [p] + z) + Entries(m, ob) == (x + y) + [p] + (z + Entries(m, ob));
  }

  lemma ChainAround(m: Mem, c: seq<Node>, k: nat)
    requires k < |c| && UniqueKeys(Entries(m, c))
    ensures var a, p, b := Entries(m, c[..k]), Entry(m, c[k]), Entries(m, c[k + 1..]);
      Entries(m, c) == a + [p] + b && !HasKey(a, p.key) && !HasKey(b, p.key)
  {
    var s := Entries(m, c);
    forall j | 0 <= j < k ensures Entries(m, c[..k])[j].key != Entry(m, c[k]).key {
      assert s[j].key != s[k].key;
    }
    var b := Entries(m, c[k + 1..]);
    forall j | 0 <= j < |b| ensures b[j].key != Entry(m, c[k]).key {
      assert s[k].key != s[k + 1 + j].key;
    }
  }

  // ---- changing one slot ----

  /** Slot i without its node k. */
  ghost function Cut(chains: seq<seq<Node>>, i: nat, k: nat): seq<seq<Node>>
    requires i < |chains| && k < |chains[i]|
  {
    chains[i := chains[i][..k] + chains[i][k + 1..]]
  }

  lemma OtherChain(m: Mem, m': Mem, head: Node?, c: seq<Node>, j: nat, slot: Str -> nat)
    requires Chain(m, head, c, j, slot) && forall n :: n in c ==> n in m && n in m' && m'[n] == m[n]
    ensures Chain(m', head, c, j, slot)
  {
    SameEntries(m, m', c);
    forall k | 0 <= k < |c| ensures Link(m', c, k, j, slot) {
      assert Link(m, c, k, j, slot) && c[k] in c;
    }
  }

  /** Slot i got a new chain; all other nodes are as they were. */
  lemma SlotChanged(m: Mem, m': Mem, heads: seq<Node?>, chains: seq<seq<Node>>, slot: Str -> nat, i: nat, head: Node?,
      c: seq<Node>)
    requires Table(m, heads, chains, slot) && i < |chains| && Chain(m', head, c, i, slot)
    requires forall n :: n in m && slot(m[n].key) != i ==> n in m' && m'[n] == m[n]
    requires forall n :: n in m' && n !in c ==> n in m && m'[n] == m[n] && slot(m[n].key) != i
    ensures Table(m', heads[i := head], chains[i := c], slot)
  {
    forall j | 0 <= j < |chains| && j != i ensures Chain(m', heads[j], chains[j], j, slot) {
      forall n | n in chains[j] ensures n in m && n in m' && m'[n] == m[n] {
        ChainSlot(m, heads, chains, slot, j, n);
      }
      OtherChain(m, m', heads[j], chains[j], j, slot);
    }
    forall n | n in m' && n in c ensures slot(m'[n].key) == i {
      var k :| 0 <= k < |c| && c[k] == n;
      assert Link(m', c, k, i, slot);
    }
    hide Chain;
  }

  ghost function Pushed(m: Mem, z: Node, r: Rec, head: Node?): Mem { m[z := r.(next := head)] }

  lemma PushedTable(m: Mem, heads: seq<Node?>, chains: seq<seq<Node>>, slot: Str -> nat, z: Node, r: Rec)
    requires Table(m, heads, chains, slot) && z !in m && slot(r.key) < |chains|
    requires r.key !in MapOf(Bindings(m, chains))
    ensures var i := slot(r.key);
      Table(Pushed(m, z, r, heads[i]), heads[i := z], PushedOn(chains, i, z), slot)
  {
    var i := slot(r.key);
    var c := chains[i];
    InChain(m, heads, chains, slot, r.key);
    assert Chain(m, heads[i], c, i, slot);
    forall n | n in c ensures n in m && n != z { ChainSlot(m, heads, chains, slot, i, n); }
    PushedChain(m, heads[i], c, i, slot, z, r);
    SlotChanged(m, Pushed(m, z, r, heads[i]), heads, chains, slot, i, z, [z] + c);
  }

  ghost function PushedOn(chains: seq<seq<Node>>, i: nat, z: Node): seq<seq<Node>>
    requires i < |chains|
  {
    chains[i := [z] + chains[i]]
  }

  lemma SizedLengths(m: Mem, heads: seq<Node?>, chains: seq<seq<Node>>, slot: Str -> nat, size: nat, count: int)
    requires Sized(m, heads, chains, slot, size, count)
    ensures |heads| == |chains| == size
  {}

  lemma PushedAll(m: Mem, heads: seq<Node?>, chains: seq<seq<Node>>, slot: Str -> nat, size: nat, count: int, z: Node,
      r: Rec)
    requires Sized(m, heads, chains, slot, size, count) && z !in m && slot(r.key) < size
    requires r.key !in MapOf(Bindings(m, chains))
    ensures var i := slot(r.key); var m', chains' := Pushed(m, z, r, heads[i]), PushedOn(chains, i, z);
      && Sized(m', heads[i := z], chains', slot, size, count + 1)
      && MapOf(Bindings(m', chains')) == MapOf(Bindings(m, chains))[r.key := r.value]
  {
    assert |heads| == |chains|;
    hide Table, Bindings, Join, MapOf;
    var i := slot(r.key);
    var m', chains' := Pushed(m, z, r, heads[i]), PushedOn(chains, i, z);
    PushedTable(m, heads, chains, slot, z, r);
    PushedCut(chains, i, z);
    assert i < |chains'| && |chains'[i]| > 0 && chains'[i][0] == z;
    assert forall n :: n != z ==> Entry(m', n) == Entry(m, n);
    hide Cut, PushedOn;
    TakenOut(m', m, heads[i := z], chains', slot, i, 0);
    PutBack(MapOf(Bindings(m', chains')), r.key);
  }

  lemma PushedCut(chains: seq<seq<Node>>, i: nat, z: Node)
    requires i < |chains|
    ensures Cut(PushedOn(chains, i, z), i, 0) == chains
  {
    var c := [z] + chains[i];
    assert c[..0] + c[1..] == chains[i];
  }

  lemma PushedChain(m: Mem, head: Node?, c: seq<Node>, i: nat, slot: Str -> nat, z: Node, r: Rec)
    requires Chain(m, head, c, i, slot) && z !in c && slot(r.key) == i && !HasKey(Entries(m, c), r.key)
    ensures Chain(Pushed(m, z, r, head), z, [z] + c, i, slot)
  {
    var m', c' := Pushed(m, z, r, head), [z] + c;
    forall k | 0 <= k < |c'| ensures Link(m', c', k, i, slot) {
      if k > 0 {
        assert Link(m, c, k - 1, i, slot) && c[k - 1] in c;
      }
    }
    var s, s' := Entries(m, c), Entries(m', c');
    forall p | 0 < p < |s'| ensures s'[p] == s[p - 1] { assert c[p - 1] in c; }
    forall p, q | 0 <= p < q < |s'| ensures s'[p].key != s'[q].key {
      assert s'[q] == s[q - 1];
    }
  }

  /** The map and the number of nodes, after the node k of slot i was taken out. */
  lemma TakenOut(m: Mem, m': Mem, heads: seq<Node?>, chains: seq<seq<Node>>, slot: Str -> nat, i: nat, k: nat)
    requires Table(m, heads, chains, slot) && i < |chains| && k < |chains[i]|
    requires forall n :: n != chains[i][k] ==> Entry(m', n) == Entry(m, n)
    ensures var p := Entry(m, chains[i][k]); var chains' := Cut(chains, i, k);
      && p.key in MapOf(Bindings(m, chains)) && MapOf(Bindings(m, chains))[p.key] == p.value
      && MapOf(Bindings(m', chains')) == MapOf(Bindings(m, chains)) - {p.key}
      && |Join(chains')| == |Join(chains)| - 1
  {
    hide Entries, Bindings, HasKey, Table, Join, MapOf;
    var c, z := chains[i], chains[i][k];
    var c1, c2 := c[..k], c[k + 1..];
    var (oa, ob) := Others(chains, i);
    var (a, b) := Around(m, chains, i, k);
    AroundNode(m, heads, chains, slot, i, k);
    BindingsAt(m', chains, i, c1 + c2);
    EntriesConcat(m', c1, c2);
    JoinAt(chains, i, c1 + c2);
    Lacks(m, m', oa, z);
    Lacks(m, m', ob, z);
    Lacks(m, m', c1, z);
    Lacks(m, m', c2, z);
    HasKeyConcat(Entries(m, oa), Entries(m, c1), Entry(m, z).key);
    HasKeyConcat(Entries(m, c2), Entries(m, ob), Entry(m, z).key);
    assert Entries(m, oa) + (Entries(m, c1) + Entries(m, c2)) + Entries(m, ob) == a + b;
    MapAround(a, Entry(m, z), b);
  }

  lemma Lacks(m: Mem, m': Mem, l: seq<Node>, z: Node)
    requires forall n :: n != z ==> Entry(m', n) == Entry(m, n)
    ensures !HasKey(Entries(m, l), Entry(m, z).key) ==> Entries(m', l) == Entries(m, l)
  {
    if !HasKey(Entries(m, l), Entry(m, z).key) {
      forall n | n in l ensures n != z {
        var p :| 0 <= p < |l| && l[p] == n;
        assert Entries(m, l)[p] == Entry(m, n);
      }
      SameEntries(m, m', l);
    }
  }

  /** The memory after the node k of a chain was unlinked and freed. */
  ghost function Unlinked(m: Mem, c: seq<Node>, k: nat): Mem
    requires k < |c| && c[k] in m && (k > 0 ==> c[k - 1] in m)
  {
    (if k == 0 then m else m[c[k - 1] := m[c[k - 1]].(next := m[c[k]].next)]) - {c[k]}
  }

  lemma UnlinkedChain(m: Mem, head: Node?, c: seq<Node>, i: nat, slot: Str -> nat, k: nat)
    requires Chain(m, head, c, i, slot) && k < |c|
    ensures Link(m, c, k, i, slot) && (k > 0 ==> Link(m, c, k - 1, i, slot))
    ensures Chain(Unlinked(m, c, k), if k == 0 then m[c[0]].next else head, c[..k] + c[k + 1..], i, slot)
    ensures c[k] !in c[..k] + c[k + 1..]
  {
    assert Link(m, c, k, i, slot) && (k > 0 ==> Link(m, c, k - 1, i, slot));
    var m', c' := Unlinked(m, c, k), c[..k] + c[k + 1..];
    var s, s' := Entries(m, c), Entries(m', c');
    forall p | 0 <= p < |c'| ensures Link(m', c', p, i, slot) && s'[p] == s[if p < k then p else p + 1] && c'[p] != c[k] {
      var q := if p < k then p else p + 1;
      assert c'[p] == c[q] && Link(m, c, q, i, slot) && s[q].key != s[k].key;
      if k > 0 && q != k - 1 {
        assert s[q].key != s[k - 1].key;
      }
    }
  }

  lemma UnlinkedTable(m: Mem, heads: seq<Node?>, chains: seq<seq<Node>>, slot: Str -> nat, i: nat, k: nat)
    requires Table(m, heads, chains, slot) && i < |chains| && k < |chains[i]|
    ensures chains[i][k] in m && (k > 0 ==> chains[i][k - 1] in m)
    ensures var c := chains[i];
      Table(Unlinked(m, c, k), heads[i := if k == 0 then m[c[0]].next else heads[i]], Cut(chains, i, k), slot)
  {
    var c := chains[i];
    assert Chain(m, heads[i], c, i, slot);
    UnlinkedChain(m, heads[i], c, i, slot, k);
    forall n | n in m && slot(m[n].key) == i ensures n == c[k] || n in c[..k] + c[k + 1..] {
      assert n in c && c == c[..k] + [c[k]] + c[k + 1..];
    }
    SlotChanged(m, Unlinked(m, c, k), heads, chains, slot, i, if k == 0 then m[c[0]].next else heads[i], c[..k] + c[k + 1..]);
  }

  /** Everything about a node's removal. */
  lemma UnlinkedAll(m: Mem, heads: seq<Node?>, chains: seq<seq<Node>>, slot: Str -> nat, size: nat, count: int,
      i: nat, k: nat)
    requires Sized(m, heads, chains, slot, size, count) && i < size && k < |chains[i]|
    ensures chains[i][k] in m && (k > 0 ==> chains[i][k - 1] in m)
    ensures var c := chains[i]; var m', chains' := Unlinked(m, c, k), Cut(chains, i, k);
      && Sized(m', heads[i := if k == 0 then m[c[0]].next else heads[i]], chains', slot, size, count - 1)
      && m[c[k]].key in MapOf(Bindings(m, chains))
      && MapOf(Bindings(m', chains')) == MapOf(Bindings(m, chains)) - {m[c[k]].key}
  {
    UnlinkedTable(m, heads, chains, slot, i, k);
    hide Table, Bindings, Join, MapOf;
    TakenOut(m, Unlinked(m, chains[i], k), heads, chains, slot, i, k);
  }

  ghost function Revalued(m: Mem, n: Node, v: Str): Mem
    requires n in m
  {
    m[n := m[n].(value := v)]
  }

  lemma RevaluedTable(m: Mem, heads: seq<Node?>, chains: seq<seq<Node>>, slot: Str -> nat, n: Node, v: Str)
    requires Table(m, heads, chains, slot) && n in m
    ensures Table(Revalued(m, n, v), heads, chains, slot)
  {
    var m' := Revalued(m, n, v);
    forall i | 0 <= i < |chains| ensures Chain(m', heads[i], chains[i], i, slot) {
      var c := chains[i];
      assert Chain(m, heads[i], c, i, slot);
      var s, s' := Entries(m, c), Entries(m', c);
      forall p | 0 <= p < |c| ensures Link(m', c, p, i, slot) && s'[p].key == s[p].key {
        assert Link(m, c, p, i, slot);
      }
    }
    hide Chain;
  }

  lemma RevaluedMap(m: Mem, heads: seq<Node?>, chains: seq<seq<Node>>, slot: Str -> nat, i: nat, k: nat, v: Str)
    requires Table(m, heads, chains, slot) && i < |chains| && k < |chains[i]| && chains[i][k] in m
    ensures var n := chains[i][k];
      && m[n].key in MapOf(Bindings(m, chains))
      && MapOf(Bindings(Revalued(m, n, v), chains)) == MapOf(Bindings(m, chains))[m[n].key := v]
  {
    hide Table, Bindings, Join, MapOf, Cut;
    var n := chains[i][k];
    var m' := Revalued(m, n, v);
    RevaluedTable(m, heads, chains, slot, n, v);
    assert forall x :: x != n ==> Entry(m', x) == Entry(m, x);
    TakenOut(m, m', heads, chains, slot, i, k);
    TakenOut(m', m', heads, chains, slot, i, k);
    PutBack(MapOf(Bindings(m', chains)), m[n].key);
  }

  lemma RevaluedAll(m: Mem, heads: seq<Node?>, chains: seq<seq<Node>>, slot: Str -> nat, size: nat, count: int,
      i: nat, k: nat, v: Str)
    requires Sized(m, heads, chains, slot, size, count) && i < size && k < |chains[i]| && chains[i][k] in m
    ensures var n := chains[i][k]; var m' := Revalued(m, n, v);
      && Sized(m', heads, chains, slot, size, count) && m[n].key in MapOf(Bindings(m, chains))
      && MapOf(Bindings(m', chains)) == MapOf(Bindings(m, chains))[m[n].key := v]
  {
    hide Table, Bindings, Join, MapOf;
    RevaluedTable(m, heads, chains, slot, chains[i][k], v);
    RevaluedMap(m, heads, chains, slot, i, k, v);
  }

  // ---- no key twice ----

  lemma {:induction false} FirstSlotsUnique(m: Mem, heads: seq<Node?>, chains: seq<seq<Node>>, slot: Str -> nat, i: nat)
    requires Table(m, heads, chains, slot) && i <= |chains|
    ensures UniqueKeys(Entries(m, Join(chains[..i])))
  {
    if i > 0 {
      var before, c := chains[..i - 1], chains[i - 1];
      FirstSlotsUnique(m, heads, chains, slot, i - 1);
      assert Chain(m, heads[i - 1], c, i - 1, slot);
      assert chains[..i] == before + [c] + [];
      JoinMiddle(before, c, []);
      assert Join(before) + c + [] == Join(before) + c;
      EntriesConcat(m, Join(before), c);
      var a, b := Entries(m, Join(before)), Entries(m, c);
      forall p, q | 0 <= p < |a| && 0 <= q < |b| ensures a[p].key != b[q].key {
        assert Join(before)[p] in Join(before) && c[q] in c;
        var j := InJoin(before, Join(before)[p]);
        ChainSlot(m, heads, chains, slot, j, Join(before)[p]);
        ChainSlot(m, heads, chains, slot, i - 1, c[q]);
      }
      UniqueConcat(a, b);
    }
  }

  lemma BindingsUnique(m: Mem, heads: seq<Node?>, chains: seq<seq<Node>>, slot: Str -> nat)
    requires Table(m, heads, chains, slot)
    ensures UniqueKeys(Bindings(m, chains))
  {
    FirstSlotsUnique(m, heads, chains, slot, |chains|);
    assert chains[..|chains|] == chains;
  }
}
