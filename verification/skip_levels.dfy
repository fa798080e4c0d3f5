/** A skip list as it lies in memory: one ascending chain of nodes per level. */
module SkipLevels {
  import opened Bytes
  import opened Pairs

  const MAX_LEVEL := 32

  class Node {
    var key: Str
    var value: Str
    var forward: seq<Node?>

    /** A node on the levels 0 to level, not linked yet. */
    constructor (level: nat, k: Str, v: Str)
      ensures key == k && value == v && forward == seq(level + 1, _ => null)
    {
      key, value, forward := k, v, seq(level + 1, _ => null);
    }
  }

  /** The fields of a node. */
  datatype Rec = Rec(key: Str, value: Str, forward: seq<Node?>)

  type Mem = map<Node, Rec>

  ghost function Entry(m: Mem, n: Node): Pair {
    if n in m then Pair(m[n].key, m[n].value) else Pair([], [])
  }

  /** The bindings of a run of nodes. */
  ghost function Entries(m: Mem, l: seq<Node>): seq<Pair> {
    seq(|l|, p requires 0 <= p < |l| => Entry(m, l[p]))
  }

  ghost function Next(l: seq<Node>, k: nat): Node? {
    if k + 1 < |l| then l[k + 1] else null
  }

  /** l, headed by h, is the chain of the forward[i] links. */
  ghost predicate Chain(m: Mem, l: seq<Node>, i: nat, h: Node) {
    |l| > 0 && l[0] == h && Distinct(l) && forall k :: 0 <= k < |l| ==> Link(m, l, k, i)
  }

  ghost predicate Link(m: Mem, l: seq<Node>, k: nat, i: nat)
    requires k < |l|
  {
    l[k] in m && i < |m[l[k]].forward| && m[l[k]].forward[i] == Next(l, k)
  }

  ghost predicate Distinct(l: seq<Node>) {
    forall p, q :: 0 <= p < q < |l| ==> l[p] != l[q]
  }

  /** The bindings of a level; the header has none. */
  ghost function Bindings(m: Mem, l: seq<Node>): seq<Pair>
    requires |l| > 0
  {
    Entries(m, l[1..])
  }

  ghost predicate Level(m: Mem, l: seq<Node>, i: nat, h: Node) {
    Chain(m, l, i, h) && Sorted(Bindings(m, l))
  }

  ghost predicate Linked(m: Mem, levels: seq<seq<Node>>, h: Node) {
    |levels| == MAX_LEVEL + 1 && forall i :: 0 <= i < |levels| ==> Level(m, levels[i], i, h)
  }

  /** Every node, but for one, is on exactly the levels that it has links for. */
  ghost predicate Members(m: Mem, levels: seq<seq<Node>>, but: Node?) {
    forall i, n :: 0 <= i < |levels| && n in m && n != but ==> (n in levels[i] <==> i < |m[n].forward|)
  }

  /** The last node of l before the key, counting the header, is number k. */
  ghost predicate Place(m: Mem, l: seq<Node>, k: nat, key: Str)
  {
    && k < |l| && (k > 0 ==> Less(Entry(m, l[k]).key, key))
    && (k + 1 < |l| ==> !Less(Entry(m, l[k + 1]).key, key))
  }

  lemma EntriesConcat(m: Mem, a: seq<Node>, b: seq<Node>)
    ensures Entries(m, a + b) == Entries(m, a) + Entries(m, b)
  {}

  lemma EntriesOne(m: Mem, n: Node)
    ensures Entries(m, [n]) == [Entry(m, n)]
  {}

  /** The bindings up to the node number k, and those behind it. */
  ghost function Upto(m: Mem, l: seq<Node>, k: nat): seq<Pair>
    requires k < |l|
  {
    Entries(m, l[1..k + 1])
  }

  ghost function Behind(m: Mem, l: seq<Node>, k: nat): seq<Pair>
    requires k < |l|
  {
    Entries(m, l[k + 1..])
  }

  lemma SplitAt(m: Mem, l: seq<Node>, k: nat)
    requires k < |l|
    ensures Bindings(m, l) == Upto(m, l, k) + Behind(m, l, k)
    ensures k > 0 ==> Upto(m, l, k) == Upto(m, l, k - 1) + [Entry(m, l[k])]
    ensures k + 1 < |l| ==> Behind(m, l, k) == [Entry(m, l[k + 1])] + Behind(m, l, k + 1)
  {
    assert l[1..] == l[1..k + 1] + l[k + 1..];
    EntriesConcat(m, l[1..k + 1], l[k + 1..]);
    if k > 0 {
      assert l[1..k + 1] == l[1..k] + [l[k]];
      EntriesConcat(m, l[1..k], [l[k]]);
      EntriesOne(m, l[k]);
    }
    if k + 1 < |l| {
      assert l[k + 1..] == [l[k + 1]] + l[k + 2..];
      EntriesConcat(m, [l[k + 1]], l[k + 2..]);
      EntriesOne(m, l[k + 1]);
    }
  }

  lemma UptoBelow(m: Mem, l: seq<Node>, k: nat, key: Str)
    requires k < |l| && Sorted(Bindings(m, l)) && (k > 0 ==> Less(Entry(m, l[k]).key, key))
    ensures Below(Upto(m, l, k), key)
  {
    SplitAt(m, l, k);
    hide Upto, Behind, Bindings, Entry;
    if k > 0 {
      var a, p := Upto(m, l, k - 1), Entry(m, l[k]);
      SortedAround(a, p, Behind(m, l, k));
      AboveRest(key, p, a);
    } else {
      assert Upto(m, l, 0) == [] by { EmptyUpto(m, l); }
    }
  }

  lemma EmptyUpto(m: Mem, l: seq<Node>)
    requires |l| > 0
    ensures Upto(m, l, 0) == [] && Behind(m, l, |l| - 1) == []
  {}

  lemma BehindAbove(m: Mem, l: seq<Node>, k: nat, key: Str)
    requires k < |l| && Sorted(Bindings(m, l)) && (k + 1 < |l| ==> Less(key, Entry(m, l[k + 1]).key))
    ensures Above(Behind(m, l, k), key)
  {
    SplitAt(m, l, k);
    hide Upto, Behind, Bindings, Entry;
    if k + 1 < |l| {
      var p, b := Entry(m, l[k + 1]), Behind(m, l, k + 1);
      assert Upto(m, l, k) + Behind(m, l, k) == Upto(m, l, k) + [p] + b;
      SortedAround(Upto(m, l, k), p, b);
      BelowRest(key, p, b);
    } else {
      EmptyUpto(m, l);
    }
  }

  /** All before the place is below the key; all after is above it, if the next node has another key. */
  lemma PlaceSplits(m: Mem, l: seq<Node>, k: nat, key: Str, i: nat, h: Node)
    requires Level(m, l, i, h) && Place(m, l, k, key)
    ensures Below(Upto(m, l, k), key)
    ensures (k + 1 < |l| ==> Entry(m, l[k + 1]).key != key) ==> Above(Behind(m, l, k), key)
  {
    UptoBelow(m, l, k, key);
    if k + 1 < |l| && Entry(m, l[k + 1]).key != key {
      StrCmpEqual(Entry(m, l[k + 1]).key, key);
      StrCmpFlip(Entry(m, l[k + 1]).key, key);
    }
    if k + 1 < |l| ==> Entry(m, l[k + 1]).key != key {
      BehindAbove(m, l, k, key);
    }
  }

  /** What a search for the key finds: the node after the place, or nothing. */
  lemma Found(m: Mem, l: seq<Node>, k: nat, key: Str, h: Node)
    requires Level(m, l, 0, h) && Place(m, l, k, key)
    ensures var s := MapOf(Bindings(m, l));
      if k + 1 < |l| && Entry(m, l[k + 1]).key == key then key in s && s[key] == Entry(m, l[k + 1]).value else key !in s
  {
    PlaceSplits(m, l, k, key, 0, h);
    SplitAt(m, l, k);
    var a, b := Upto(m, l, k), Behind(m, l, k);
    if k + 1 < |l| && Entry(m, l[k + 1]).key == key {
      var p, b' := Entry(m, l[k + 1]), Behind(m, l, k + 1);
      assert a + b == a + [p] + b';
      hide Upto, Behind, Bindings;
      SortedAround(a, p, b');
      MapAround(a, p, b');
    } else {
      NotBetween(a, b, key);
    }
  }

  /** Write one link. */
  ghost function Relinked(m: Mem, n: Node, i: nat, x: Node?): Mem
    requires n in m && i < |m[n].forward|
  {
    m[n := m[n].(forward := m[n].forward[i := x])]
  }

  lemma SameEntries(m: Mem, m': Mem, l: seq<Node>)
    requires forall n :: n in l ==> Entry(m', n) == Entry(m, n)
    ensures Entries(m', l) == Entries(m, l)
  {}

  /** The links of one level are no part of another. */
  lemma OtherLevel(m: Mem, l: seq<Node>, j: nat, h: Node, n: Node, i: nat, x: Node?)
    requires Level(m, l, j, h) && i != j && n in m && i < |m[n].forward|
    ensures Level(Relinked(m, n, i, x), l, j, h)
  {
    SameEntries(m, Relinked(m, n, i, x), l[1..]);
    forall k | 0 <= k < |l| ensures Link(Relinked(m, n, i, x), l, k, j) {
      assert Link(m, l, k, j);
    }
  }

  ghost function Inserted(l: seq<Node>, k: nat, z: Node): (r: seq<Node>)
    requires k < |l|
    ensures |r| == |l| + 1
    ensures forall p :: 0 <= p < |r| ==> r[p] == if p <= k then l[p] else if p == k + 1 then z else l[p - 1]
  {
    l[..k + 1] + [z] + l[k + 1..]
  }

  /** Splicing z in after node number k. */
  ghost function Spliced(m: Mem, l: seq<Node>, k: nat, i: nat, z: Node): Mem
    requires k < |l| && l[k] in m && i < |m[l[k]].forward| && z in m && i < |m[z].forward| && z !in l
  {
    Relinked(Relinked(m, z, i, m[l[k]].forward[i]), l[k], i, z)
  }

  lemma InsertedBindings(m: Mem, l: seq<Node>, k: nat, z: Node)
    requires k < |l|
    ensures Bindings(m, Inserted(l, k, z)) == Upto(m, l, k) + [Entry(m, z)] + Behind(m, l, k)
  {
    assert Inserted(l, k, z)[1..] == l[1..k + 1] + [z] + l[k + 1..];
    EntriesConcat(m, l[1..k + 1], [z]);
    EntriesConcat(m, l[1..k + 1] + [z], l[k + 1..]);
    EntriesOne(m, z);
  }

  lemma SplicedLevel(m: Mem, l: seq<Node>, k: nat, i: nat, z: Node, h: Node)
    requires Level(m, l, i, h) && z in m && z !in l && i < |m[z].forward|
    requires Place(m, l, k, m[z].key) && Link(m, l, k, i) && (k + 1 < |l| ==> Entry(m, l[k + 1]).key != m[z].key)
    ensures Level(Spliced(m, l, k, i, z), Inserted(l, k, z), i, h)
  {
    var l', m' := Inserted(l, k, z), Spliced(m, l, k, i, z);
    SplicedChain(m, l, k, i, z, h);
    PlaceSplits(m, l, k, m[z].key, i, h);
    SplitAt(m, l, k);
    InsertedBindings(m, l, k, z);
    SameEntries(m, m', l'[1..]);
    SortedInsert(Upto(m, l, k), Entry(m, z), Behind(m, l, k));
    hide Upto, Behind, Entries, Sorted, Chain, Inserted;
  }

  lemma SplicedChain(m: Mem, l: seq<Node>, k: nat, i: nat, z: Node, h: Node)
    requires Chain(m, l, i, h) && z in m && z !in l && i < |m[z].forward| && k < |l| && Link(m, l, k, i)
    ensures Chain(Spliced(m, l, k, i, z), Inserted(l, k, z), i, h)
  {
    var l', m' := Inserted(l, k, z), Spliced(m, l, k, i, z);
    InsertedDistinct(l, k, z);
    hide Inserted, Distinct;
    forall p | 0 <= p < |l'| ensures Link(m', l', p, i) {
      assert Link(m, l, k, i);
      if p != k && p != k + 1 {
        var q := if p <= k then p else p - 1;
        assert Link(m, l, q, i) && l'[p] == l[q];
        Apart(l, q, k);
      }
    }
  }

  lemma Apart(l: seq<Node>, p: nat, q: nat)
    requires Distinct(l) && p < |l| && q < |l| && p != q
    ensures l[p] != l[q]
  {}

  lemma InsertedDistinct(l: seq<Node>, k: nat, z: Node)
    requires Distinct(l) && k < |l| && z !in l
    ensures Distinct(Inserted(l, k, z))
  {
    var r := Inserted(l, k, z);
    hide Inserted;
    forall p, q | 0 <= p < q < |r| ensures r[p] != r[q] {}
  }

  ghost function Without(l: seq<Node>, k: nat): (r: seq<Node>)
    requires k + 1 < |l|
    ensures |r| == |l| - 1
    ensures forall p :: 0 <= p < |r| ==> r[p] == if p <= k then l[p] else l[p + 1]
  {
    l[..k + 1] + l[k + 2..]
  }

  /** Unlinking the node after number k. */
  lemma UnlinkedLevel(m: Mem, l: seq<Node>, k: nat, i: nat, h: Node)
    requires Level(m, l, i, h) && k + 1 < |l|
    ensures Link(m, l, k, i) && Link(m, l, k + 1, i)
    ensures Level(Relinked(m, l[k], i, m[l[k + 1]].forward[i]), Without(l, k), i, h)
  {
    assert Link(m, l, k, i) && Link(m, l, k + 1, i);
    var l', m' := Without(l, k), Relinked(m, l[k], i, m[l[k + 1]].forward[i]);
    WithoutBindings(m, l, k);
    RemovedMap(Bindings(m, l), Entry(m, l[k + 1]), Bindings(m, l'));
    SameEntries(m, m', l'[1..]);
    WithoutDistinct(l, k);
    hide Entries, Sorted, Without, Removed, Distinct;
    forall q | 0 <= q < |l'| ensures Link(m', l', q, i) {
      var o := if q <= k then q else q + 1;
      assert Link(m, l, k, i) && Link(m, l, k + 1, i) && Link(m, l, o, i) && l'[q] == l[o];
      if q != k {
        Apart(l, o, k);
      }
    }
  }

  lemma WithoutDistinct(l: seq<Node>, k: nat)
    requires Distinct(l) && k + 1 < |l|
    ensures Distinct(Without(l, k)) && l[k + 1] !in Without(l, k)
  {
    var r := Without(l, k);
    hide Without;
    forall p | 0 <= p < |r| ensures r[p] != l[k + 1] {}
    forall p, q | 0 <= p < q < |r| ensures r[p] != r[q] {}
  }

  lemma WithoutTail(l: seq<Node>, k: nat)
    requires k + 1 < |l|
    ensures Without(l, k)[1..] == l[1..k + 1] + l[k + 2..]
  {}

  lemma WithoutBindings(m: Mem, l: seq<Node>, k: nat)
    requires k + 1 < |l|
    ensures Removed(Bindings(m, l), Entry(m, l[k + 1]), Bindings(m, Without(l, k)))
  {
    hide Entries, Entry, Without;
    SplitAt(m, l, k);
    WithoutTail(l, k);
    EntriesConcat(m, l[1..k + 1], l[k + 2..]);
    var a, p, b := Upto(m, l, k), Entry(m, l[k + 1]), Behind(m, l, k + 1);
    assert a + ([p] + b) == a + [p] + b;
  }

  // ---- all levels together ----

  /** The levels are in order, but for one node that may be on too few of them. */
  ghost predicate Sound(m: Mem, levels: seq<seq<Node>>, h: Node, but: Node?) {
    && Linked(m, levels, h) && Members(m, levels, but)
    && h in m && h != but && |m[h].forward| == MAX_LEVEL + 1
    && forall n :: n in m ==> |m[n].forward| > 0
  }

  /** Nothing but links differs. */
  ghost predicate SameNodes(m: Mem, m': Mem) {
    m'.Keys == m.Keys && forall n :: n in m ==> Entry(m', n) == Entry(m, n) && |m'[n].forward| == |m[n].forward|
  }

  /** One level changed, and the others did not. */
  lemma LevelChanged(m: Mem, m': Mem, levels: seq<seq<Node>>, h: Node, z: Node, i: nat, l': seq<Node>)
    requires Sound(m, levels, h, z) && SameNodes(m, m') && i < |levels| && Level(m', l', i, h)
    requires forall j :: 0 <= j < |levels| && j != i ==> Level(m', levels[j], j, h)
    requires forall n :: n != z ==> (n in l' <==> n in levels[i])
    ensures Sound(m', levels[i := l'], h, z)
  {
    hide Level, Entry;
  }

  /** z can be spliced into level i after node number k. */
  ghost predicate CanSplice(m: Mem, levels: seq<seq<Node>>, h: Node, z: Node, i: nat, k: nat) {
    && Sound(m, levels, h, z) && i < MAX_LEVEL && z in m && z !in levels[i] && i < |m[z].forward|
    && Place(m, levels[i], k, m[z].key) && Link(m, levels[i], k, i)
    && (k + 1 < |levels[i]| ==> Entry(m, levels[i][k + 1]).key != m[z].key)
  }

  lemma SplicedSound(m: Mem, levels: seq<seq<Node>>, h: Node, z: Node, i: nat, k: nat)
    requires CanSplice(m, levels, h, z, i, k)
    ensures k < |levels[i]|
    ensures var m', l' := Spliced(m, levels[i], k, i, z), Inserted(levels[i], k, z);
      Sound(m', levels[i := l'], h, z) && SameNodes(m, m')
  {
    hide Level, Inserted, Members, SameNodes, Spliced;
    var l := levels[i];
    assert Level(m, l, i, h);
    var m' := Spliced(m, l, k, i, z);
    SplicedLevel(m, l, k, i, z, h);
    InsertedNodes(l, k, z);
    SplicedNodes(m, l, k, i, z);
    forall j | 0 <= j < |levels| && j != i ensures Level(m', levels[j], j, h) {
      SplicedOther(m, levels, h, z, i, k, j);
    }
    LevelChanged(m, m', levels, h, z, i, Inserted(l, k, z));
  }

  lemma SplicedNodes(m: Mem, l: seq<Node>, k: nat, i: nat, z: Node)
    requires k < |l| && l[k] in m && i < |m[l[k]].forward| && z in m && i < |m[z].forward| && z !in l
    ensures SameNodes(m, Spliced(m, l, k, i, z))
  {}

  lemma SplicedOther(m: Mem, levels: seq<seq<Node>>, h: Node, z: Node, i: nat, k: nat, j: nat)
    requires Sound(m, levels, h, z) && i < MAX_LEVEL && z in m && z !in levels[i] && i < |m[z].forward|
    requires k < |levels[i]| && Link(m, levels[i], k, i) && j < |levels| && j != i
    ensures Level(Spliced(m, levels[i], k, i, z), levels[j], j, h)
  {
    var l := levels[i];
    assert Level(m, levels[j], j, h);
    hide Level;
    OtherLevel(m, levels[j], j, h, z, i, m[l[k]].forward[i]);
    OtherLevel(Relinked(m, z, i, m[l[k]].forward[i]), levels[j], j, h, l[k], i, z);
  }

  lemma InsertedNodes(l: seq<Node>, k: nat, z: Node)
    requires k < |l|
    ensures z in Inserted(l, k, z) && forall n :: n != z ==> (n in Inserted(l, k, z) <==> n in l)
  {
    assert l == l[..k + 1] + l[k + 1..];
  }

  // ---- the search path and the linking of a new node along it ----

  /** The step of the search path on level i: the node number at[i] of the level. */
  ghost predicate Step(m: Mem, levels: seq<seq<Node>>, update: seq<Node>, at: seq<nat>, key: Str, i: nat)
    requires |update| == |at| == MAX_LEVEL && i < MAX_LEVEL && |levels| == MAX_LEVEL + 1
  {
    at[i] < |levels[i]| && update[i] == levels[i][at[i]] && Place(m, levels[i], at[i], key)
  }

  ghost predicate Path(m: Mem, levels: seq<seq<Node>>, update: seq<Node>, at: seq<nat>, key: Str, lo: int, hi: int) {
    && |update| == |at| == MAX_LEVEL && |levels| == MAX_LEVEL + 1 && hi < MAX_LEVEL
    && forall i :: 0 <= lo <= i <= hi ==> Step(m, levels, update, at, key, i)
  }

  /** While z is being linked, from the top down: it is on the levels above i, up to lvl. */
  ghost predicate Linking(m: Mem, levels: seq<seq<Node>>, h: Node, z: Node, update: seq<Node>, at: seq<nat>, i: int,
      lvl: nat) {
    && Sound(m, levels, h, z) && z in m && |m[z].forward| == lvl + 1 && -1 <= i <= lvl < MAX_LEVEL
    && Path(m, levels, update, at, m[z].key, 0, i)
    && (forall j :: 0 <= j < |levels| ==> (z in levels[j] <==> i < j <= lvl))
    && forall n :: n in m && n != z && n != h ==> Entry(m, n).key != m[z].key
  }

  lemma LinkingSplice(m: Mem, levels: seq<seq<Node>>, h: Node, z: Node, update: seq<Node>, at: seq<nat>, i: nat,
      lvl: nat)
    requires Linking(m, levels, h, z, update, at, i, lvl)
    ensures |levels| == MAX_LEVEL + 1 && |update| == |at| == MAX_LEVEL && i < MAX_LEVEL
    ensures CanSplice(m, levels, h, z, i, at[i]) && at[i] < |levels[i]| && update[i] == levels[i][at[i]]
    ensures update[i] in m && z in m
  {
    var l, k := levels[i], at[i];
    assert Step(m, levels, update, at, m[z].key, i);
    assert Level(m, l, i, h) && Link(m, l, k, i);
    if k + 1 < |l| {
      assert Link(m, l, k + 1, i) && l[k + 1] in l;
      Apart(l, 0, k + 1);
    }
  }

  lemma LinkingOn(m: Mem, m': Mem, levels: seq<seq<Node>>, h: Node, z: Node, update: seq<Node>, at: seq<nat>, i: nat,
      lvl: nat)
    requires Linking(m, levels, h, z, update, at, i, lvl) && SameNodes(m, m') && at[i] < |levels[i]|
    requires Sound(m', levels[i := Inserted(levels[i], at[i], z)], h, z)
    ensures Linking(m', levels[i := Inserted(levels[i], at[i], z)], h, z, update, at, i - 1, lvl)
  {
    InsertedNodes(levels[i], at[i], z);
    var levels' := levels[i := Inserted(levels[i], at[i], z)];
    hide Inserted, Sound, Less;
    assert m'[z].key == Entry(m', z).key == Entry(m, z).key;
    forall j | 0 <= j < i ensures Step(m', levels', update, at, m[z].key, j) {
      assert Step(m, levels, update, at, m[z].key, j);
      SamePlace(m, m', levels[j], at[j], m[z].key);
    }
  }

  /** The levels after z was linked on those above i, up to lvl. */
  ghost predicate LinkedAbove(levels: seq<seq<Node>>, levels': seq<seq<Node>>, z: Node, at: seq<nat>, i: int,
      lvl: nat) {
    && |levels'| == |levels| == MAX_LEVEL + 1 && |at| == MAX_LEVEL && -1 <= i <= lvl < MAX_LEVEL
    && (forall j :: 0 <= j < |levels| && !(i < j <= lvl) ==> levels'[j] == levels[j])
    && forall j :: i < j <= lvl ==> at[j] < |levels[j]| && levels'[j] == Inserted(levels[j], at[j], z)
  }

  /** A node with a new key joins the nodes, on no level yet. */
  lemma LinkingStarts(m: Mem, levels: seq<seq<Node>>, h: Node, z: Node, r: Rec, update: seq<Node>, at: seq<nat>,
      lvl: nat)
    requires Sound(m, levels, h, null) && z !in m && lvl < MAX_LEVEL && |r.forward| == lvl + 1
    requires Path(m, levels, update, at, r.key, 0, lvl) && r.key !in MapOf(Bindings(m, levels[0]))
    ensures Linking(m[z := r], levels, h, z, update, at, lvl, lvl)
  {
    var m' := m[z := r];
    forall j | 0 <= j < |levels| ensures Level(m', levels[j], j, h) && z !in levels[j] {
      var l := levels[j];
      assert Level(m, l, j, h);
      forall k | 0 <= k < |l| ensures Link(m', l, k, j) && l[k] != z {
        assert Link(m, l, k, j);
      }
      SameEntries(m, m', l[1..]);
    }
    forall j | 0 <= j <= lvl ensures Step(m', levels, update, at, r.key, j) {
      assert Step(m, levels, update, at, r.key, j);
    }
    forall n | n in m && n != h ensures Entry(m, n).key != r.key {
      OnLowest(m, levels, h, n);
      var p :| 0 <= p < |Bindings(m, levels[0])| && Bindings(m, levels[0])[p] == Entry(m, n);
      MapKeys(Bindings(m, levels[0]), r.key);
    }
    hide Level;
  }

  lemma OnLowest(m: Mem, levels: seq<seq<Node>>, h: Node, n: Node)
    requires Sound(m, levels, h, null) && n in m && n != h
    ensures |levels| > 0 && |levels[0]| > 0 && Entry(m, n) in Bindings(m, levels[0])
  {
    assert Level(m, levels[0], 0, h) && n in levels[0];
    var p :| 0 <= p < |levels[0]| && levels[0][p] == n;
    assert Bindings(m, levels[0])[p - 1] == Entry(m, n);
  }

  lemma LinkedAboveStep(levels: seq<seq<Node>>, levels': seq<seq<Node>>, z: Node, at: seq<nat>, i: nat, lvl: nat)
    requires LinkedAbove(levels, levels', z, at, i, lvl) && at[i] < |levels'[i]|
    ensures LinkedAbove(levels, levels'[i := Inserted(levels'[i], at[i], z)], z, at, i - 1, lvl)
  {
    hide Inserted;
  }

  lemma LinkingEnds(m: Mem, levels: seq<seq<Node>>, h: Node, z: Node, update: seq<Node>, at: seq<nat>, lvl: nat)
    requires Linking(m, levels, h, z, update, at, -1, lvl)
    ensures Sound(m, levels, h, null)
  {
    hide Level, Path;
  }

  lemma SameNodesTrans(a: Mem, b: Mem, c: Mem)
    requires SameNodes(a, b) && SameNodes(b, c)
    ensures SameNodes(a, c)
  {
    hide Entry;
  }

  /** No level above the current one is in use, and the current one is, unless it is the lowest. */
  ghost predicate Tight(levels: seq<seq<Node>>, h: Node, level: nat) {
    && |levels| == MAX_LEVEL + 1 && level < MAX_LEVEL && (level > 0 ==> |levels[level]| > 1)
    && forall j :: level < j < |levels| ==> levels[j] == [h]
  }

  lemma TightLinked(levels: seq<seq<Node>>, levels': seq<seq<Node>>, h: Node, z: Node, at: seq<nat>, level: nat,
      lvl: nat)
    requires Tight(levels, h, level) && LinkedAbove(levels, levels', z, at, -1, lvl)
    ensures Tight(levels', h, if lvl > level then lvl else level)
  {
    hide Inserted;
  }

  /** The map after a new node r was linked. */
  lemma LinkedMap(m: Mem, m': Mem, levels: seq<seq<Node>>, levels': seq<seq<Node>>, h: Node, z: Node, r: Rec,
      update: seq<Node>, at: seq<nat>, lvl: nat)
    requires Sound(m, levels, h, null) && z !in m && SameNodes(m[z := r], m')
    requires Path(m, levels, update, at, r.key, 0, lvl) && LinkedAbove(levels, levels', z, at, -1, lvl)
    requires r.key !in MapOf(Bindings(m, levels[0]))
    ensures |levels'[0]| > 0 && MapOf(Bindings(m', levels'[0])) == MapOf(Bindings(m, levels[0]))[r.key := r.value]
  {
    var l, k := levels[0], at[0];
    assert Level(m, l, 0, h) && Step(m, levels, update, at, r.key, 0);
    Found(m, l, k, r.key, h);
    forall n | n in l ensures Entry(m', n) == Entry(m, n) {
      var p :| 0 <= p < |l| && l[p] == n;
      assert Link(m, l, p, 0);
      assert Entry(m', n) == Entry(m[z := r], n);
    }
    assert Entry(m', z) == Entry(m[z := r], z);
    hide Level, Inserted, MapOf, Bindings;
    Gained(m, m', l, k, z, r.key, h);
  }

  lemma SamePlace(m: Mem, m': Mem, l: seq<Node>, k: nat, key: Str)
    requires SameNodes(m, m') && Place(m, l, k, key)
    ensures Place(m', l, k, key)
  {
    assert forall n :: Entry(m', n) == Entry(m, n);
  }

  /** The map after z was spliced into the lowest level. */
  lemma Gained(m: Mem, m': Mem, l: seq<Node>, k: nat, z: Node, key: Str, h: Node)
    requires Level(m, l, 0, h) && Place(m, l, k, key) && (k + 1 < |l| ==> Entry(m, l[k + 1]).key != key)
    requires Entry(m', z).key == key && forall n :: n in l ==> Entry(m', n) == Entry(m, n)
    ensures MapOf(Bindings(m', Inserted(l, k, z))) == MapOf(Bindings(m, l))[key := Entry(m', z).value]
  {
    PlaceSplits(m, l, k, key, 0, h);
    SplitAt(m, l, k);
    InsertedBindings(m', l, k, z);
    SameEntries(m, m', l[1..k + 1]);
    SameEntries(m, m', l[k + 1..]);
    hide Entries, Bindings, Sorted, Level, Inserted, Place;
    StrCmpEqual(key, key);
    MapAround(Upto(m, l, k), Entry(m', z), Behind(m, l, k));
  }

  /** On a level that has the key, the node after the place is the one with the key. */
  lemma NextIs(m: Mem, l: seq<Node>, i: nat, h: Node, k: nat, n: Node)
    requires Level(m, l, i, h) && n in l && n != h && Place(m, l, k, Entry(m, n).key)
    ensures k + 1 < |l| && l[k + 1] == n
  {
    var s, key := Bindings(m, l), Entry(m, n).key;
    var p :| 0 <= p < |l| && l[p] == n;
    assert forall q :: 1 <= q < |l| ==> s[q - 1] == Entry(m, l[q]);
    StrCmpEqual(key, key);
    if k > p {
      assert Less(s[p - 1].key, s[k - 1].key);
      LessTransitive(key, Entry(m, l[k]).key, key);
    }
  }

  lemma OtherLevels(m: Mem, levels: seq<seq<Node>>, h: Node, but: Node?, u: Node, i: nat, x: Node?)
    requires Sound(m, levels, h, but) && u in m && i < |m[u].forward|
    ensures forall j :: 0 <= j < |levels| && j != i ==> Level(Relinked(m, u, i, x), levels[j], j, h)
  {
    hide Level, Relinked;
    forall j | 0 <= j < |levels| && j != i ensures Level(Relinked(m, u, i, x), levels[j], j, h) {
      assert Level(m, levels[j], j, h);
      OtherLevel(m, levels[j], j, h, u, i, x);
    }
  }

  lemma LinksAt(m: Mem, levels: seq<seq<Node>>, h: Node, z: Node, i: nat, k: nat)
    requires Sound(m, levels, h, z) && i < MAX_LEVEL && k + 1 < |levels[i]| && levels[i][k + 1] == z
    ensures |levels| == MAX_LEVEL + 1
    ensures var l := levels[i];
      && Level(m, l, i, h) && Link(m, l, k, i) && Link(m, l, k + 1, i) && Distinct(l)
      && l[k] in m && z in m && i < |m[l[k]].forward| && i < |m[z].forward|
  {
    var l := levels[i];
    assert Level(m, l, i, h) && Link(m, l, k, i) && Link(m, l, k + 1, i);
  }

  lemma UnlinkedSound(m: Mem, levels: seq<seq<Node>>, h: Node, z: Node, i: nat, k: nat)
    requires Sound(m, levels, h, z) && i < MAX_LEVEL && k + 1 < |levels[i]| && levels[i][k + 1] == z
    ensures Link(m, levels[i], k, i) && Link(m, levels[i], k + 1, i)
    ensures var m', l' := Relinked(m, levels[i][k], i, m[z].forward[i]), Without(levels[i], k);
      Sound(m', levels[i := l'], h, z) && SameNodes(m, m')
      && z !in l' && forall n :: n != z ==> (n in l' <==> n in levels[i])
  {
    hide Level, Sound, Without, Link, Distinct;
    LinksAt(m, levels, h, z, i, k);
    var l := levels[i];
    var m', l' := Relinked(m, l[k], i, m[z].forward[i]), Without(l, k);
    UnlinkedLevel(m, l, k, i, h);
    OtherLevels(m, levels, h, z, l[k], i, m[z].forward[i]);
    WithoutDistinct(l, k);
    WithoutNodes(l, k);
    LevelChanged(m, m', levels, h, z, i, l');
  }

  lemma WithoutNodes(l: seq<Node>, k: nat)
    requires k + 1 < |l|
    ensures forall n :: n != l[k + 1] ==> (n in Without(l, k) <==> n in l)
  {
    assert l == l[..k + 1] + [l[k + 1]] + l[k + 2..];
  }

  /** The map after the node behind number k was taken off the lowest level. */
  lemma Lost(m: Mem, m': Mem, l: seq<Node>, k: nat, h: Node)
    requires Level(m, l, 0, h) && k + 1 < |l|
    requires forall n :: n in Without(l, k) ==> Entry(m', n) == Entry(m, n)
    ensures MapOf(Bindings(m', Without(l, k))) == MapOf(Bindings(m, l)) - {Entry(m, l[k + 1]).key}
  {
    WithoutBindings(m, l, k);
    RemovedMap(Bindings(m, l), Entry(m, l[k + 1]), Bindings(m, Without(l, k)));
    SameEntries(m, m', Without(l, k)[1..]);
  }

  /** While z is being unlinked, from the bottom up: it is on the levels from i on. */
  ghost predicate Unlinking(m: Mem, levels: seq<seq<Node>>, h: Node, z: Node, update: seq<Node>, at: seq<nat>, i: nat,
      level: nat) {
    && Sound(m, levels, h, z) && z in m && i <= level + 1 <= MAX_LEVEL
    && Path(m, levels, update, at, m[z].key, i, level)
    && (forall j :: 0 <= j < |levels| ==> (z in levels[j] <==> i <= j < |m[z].forward|))
    && forall j :: level < j < |levels| ==> levels[j] == [h]
  }

  lemma UnlinkingStarts(m: Mem, levels: seq<seq<Node>>, h: Node, z: Node, update: seq<Node>, at: seq<nat>, level: nat)
    requires Sound(m, levels, h, null) && Tight(levels, h, level) && z in m && z != h
    requires Path(m, levels, update, at, m[z].key, 0, level)
    ensures Unlinking(m, levels, h, z, update, at, 0, level)
  {
    hide Level;
  }

  /** The link found on the path leads to z exactly on the levels that z has. */
  /** One more level of the path is known, from the top. */
  lemma PathGrows(m: Mem, levels: seq<seq<Node>>, update0: seq<Node>, at0: seq<nat>, update: seq<Node>, at: seq<nat>, key: Str,
      i: nat, hi: nat)
    requires Path(m, levels, update0, at0, key, i + 1, hi) && |update| == |at| == MAX_LEVEL && i <= hi
    requires forall j :: i < j < MAX_LEVEL ==> update[j] == update0[j] && at[j] == at0[j]
    requires Step(m, levels, update, at, key, i)
    ensures Path(m, levels, update, at, key, i, hi)
  {
    forall j | i <= j <= hi ensures Step(m, levels, update, at, key, j) {
      if j > i {
        assert Step(m, levels, update0, at0, key, j);
      }
    }
  }

  /** A node is on as many levels as it has links. */
  lemma OnItsLevels(m: Mem, m': Mem, levels: seq<seq<Node>>, h: Node, z: Node)
    requires SameNodes(m, m') && Sound(m', levels, h, null) && z in m
    ensures |levels| == MAX_LEVEL + 1 && forall j :: 0 <= j < |levels| ==> (z in levels[j] <==> j < |m[z].forward|)
  {}

  lemma LowestLevel(m: Mem, levels: seq<seq<Node>>, h: Node)
    requires Sound(m, levels, h, null)
    ensures |levels| > 0 && Level(m, levels[0], 0, h) && |levels[0]| > 0
  {}

  lemma UnlinkingNode(m: Mem, levels: seq<seq<Node>>, h: Node, z: Node, update: seq<Node>, at: seq<nat>, level: nat)
    requires Unlinking(m, levels, h, z, update, at, 0, level)
    ensures z in m && |m[z].forward| > 0 && SameNodes(m, m) && level < MAX_LEVEL
  {}

  lemma UnlinkingTest(m: Mem, levels: seq<seq<Node>>, h: Node, z: Node, update: seq<Node>, at: seq<nat>, i: nat,
      level: nat)
    requires Unlinking(m, levels, h, z, update, at, i, level) && i <= level
    ensures |update| == |at| == MAX_LEVEL && |levels| == MAX_LEVEL + 1
    ensures update[i] in m && i < |m[update[i]].forward|
    ensures m[update[i]].forward[i] == z <==> i < |m[z].forward|
    ensures i < |m[z].forward| ==> at[i] + 1 < |levels[i]| && levels[i][at[i] + 1] == z && levels[i][at[i]] == update[i]
  {
    var l, k := levels[i], at[i];
    assert Step(m, levels, update, at, m[z].key, i);
    assert Level(m, l, i, h) && Link(m, l, k, i);
    if z in l {
      NextIs(m, l, i, h, k, z);
    } else if k + 1 < |l| {
      assert l[k + 1] in l;
    }
  }

  lemma UnlinkingOn(m: Mem, m': Mem, levels: seq<seq<Node>>, h: Node, z: Node, update: seq<Node>, at: seq<nat>,
      i: nat, level: nat)
    requires Unlinking(m, levels, h, z, update, at, i, level) && i <= level && SameNodes(m, m')
    requires at[i] + 1 < |levels[i]| && levels[i][at[i] + 1] == z
    requires Sound(m', levels[i := Without(levels[i], at[i])], h, z) && z !in Without(levels[i], at[i])
    ensures Unlinking(m', levels[i := Without(levels[i], at[i])], h, z, update, at, i + 1, level)
  {
    var levels' := levels[i := Without(levels[i], at[i])];
    hide Without, Sound, Less;
    assert m'[z].key == Entry(m', z).key == Entry(m, z).key;
    forall j | i < j <= level ensures Step(m', levels', update, at, m[z].key, j) {
      assert Step(m, levels, update, at, m[z].key, j);
      SamePlace(m, m', levels[j], at[j], m[z].key);
    }
  }

  /** The loop over the levels stops when z is on none. */
  lemma UnlinkingEnds(m: Mem, levels: seq<seq<Node>>, h: Node, z: Node, update: seq<Node>, at: seq<nat>, i: nat,
      level: nat)
    requires Unlinking(m, levels, h, z, update, at, i, level) && (i == level + 1 || i >= |m[z].forward|)
    ensures Sound(m - {z}, levels, h, null) && forall j :: level < j < |levels| ==> levels[j] == [h]
  {
    forall j | 0 <= j < |levels| ensures z !in levels[j] {
      if j > level {
        assert levels[j] == [h];
      }
    }
    hide Sound;
    Dropped(m, levels, h, z);
  }

  /** The map after z was unlinked and freed. */
  lemma UnlinkedMap(m: Mem, m': Mem, l: seq<Node>, k: nat, z: Node, h: Node)
    requires Level(m, l, 0, h) && k + 1 < |l| && l[k + 1] == z && SameNodes(m, m')
    ensures MapOf(Bindings(m' - {z}, Without(l, k))) == MapOf(Bindings(m, l)) - {Entry(m, z).key}
  {
    WithoutDistinct(l, k);
    assert forall n :: n != z ==> Entry(m' - {z}, n) == Entry(m', n) == Entry(m, n);
    hide Level, Without, Entry, SameNodes, Bindings, MapOf;
    Lost(m, m' - {z}, l, k, h);
  }

  /** The header's link shows whether a level is in use. */
  lemma HeaderLink(m: Mem, levels: seq<seq<Node>>, h: Node, i: nat)
    requires Linked(m, levels, h) && i < |levels|
    ensures h in m && |m[h].forward| > i && |levels[i]| > 0
    ensures m[h].forward[i] == null <==> levels[i] == [h]
  {
    assert Level(m, levels[i], i, h) && Link(m, levels[i], 0, i);
  }

  /** A node that is on no level can be freed. */
  lemma Dropped(m: Mem, levels: seq<seq<Node>>, h: Node, z: Node)
    requires Sound(m, levels, h, z) && forall i :: 0 <= i < |levels| ==> z !in levels[i]
    ensures Sound(m - {z}, levels, h, null)
  {
    var m' := m - {z};
    forall i | 0 <= i < |levels| ensures Level(m', levels[i], i, h) {
      var l := levels[i];
      assert Level(m, l, i, h);
      SameEntries(m, m', l[1..]);
      forall k | 0 <= k < |l| ensures Link(m', l, k, i) {
        assert Link(m, l, k, i) && l[k] in l;
      }
    }
    hide Level;
  }

  /** Another value in one node. */
  lemma RevaluedSound(m: Mem, levels: seq<seq<Node>>, h: Node, n: Node, v: Str)
    requires Sound(m, levels, h, null) && n in m
    ensures Sound(m[n := m[n].(value := v)], levels, h, null)
  {
    var m' := m[n := m[n].(value := v)];
    forall i | 0 <= i < |levels| ensures Level(m', levels[i], i, h) {
      var l := levels[i];
      assert Level(m, l, i, h);
      var s, s' := Bindings(m, l), Bindings(m', l);
      forall p | 0 <= p < |s| ensures s'[p].key == s[p].key {}
      forall k | 0 <= k < |l| ensures Link(m', l, k, i) {
        assert Link(m, l, k, i);
      }
    }
    hide Level;
  }

  lemma RevaluedMap(m: Mem, l: seq<Node>, k: nat, h: Node, v: Str)
    requires Level(m, l, 0, h) && k + 1 < |l| && l[k + 1] in m
    ensures var n := l[k + 1];
      MapOf(Bindings(m[n := m[n].(value := v)], l)) == MapOf(Bindings(m, l))[m[n].key := v]
  {
    var n := l[k + 1];
    var m' := m[n := m[n].(value := v)];
    SplitAt(m, l, k);
    SplitAt(m', l, k);
    var a, p, b := Upto(m, l, k), Entry(m, n), Behind(m, l, k + 1);
    forall q | 0 <= q < |l| && q != k + 1 ensures l[q] != n { Apart(l, q, k + 1); }
    SameEntries(m, m', l[1..k + 1]);
    SameEntries(m, m', l[k + 2..]);
    assert a + ([p] + b) == a + [p] + b;
    assert a + ([Pair(p.key, v)] + b) == a + [Pair(p.key, v)] + b;
    hide Entries, Bindings, Sorted;
    Revalue(a, p, b, v);
  }

  // ---- every level is a subsequence of the one below ----

  ghost predicate Subsequence(a: seq<Node>, b: seq<Node>) {
    a == [] || (b != [] && if a[0] == b[0] then Subsequence(a[1..], b[1..]) else Subsequence(a, b[1..]))
  }

  lemma {:induction false} SortedSubsequence(m: Mem, a: seq<Node>, b: seq<Node>)
    requires Sorted(Entries(m, a)) && Sorted(Entries(m, b))
    requires forall n :: n in a ==> n in b
    ensures Subsequence(a, b)
    decreases |b|
  {
    if a != [] {
      var sa, sb := Entries(m, a), Entries(m, b);
      assert a[0] in b;
      assert Entries(m, b[1..]) == sb[1..] && Entries(m, a[1..]) == sa[1..];
      StrCmpEqual(Entry(m, b[0]).key, Entry(m, b[0]).key);
      var rest := if a[0] == b[0] then a[1..] else a;
      assert forall p :: 0 <= p < |a| ==> sa[p] == Entry(m, a[p]);
      forall n | n in rest ensures n in b[1..] {
        assert n in b && b == [b[0]] + b[1..];
        if n == b[0] {
          var p :| 0 <= p < |rest| && rest[p] == n;
          if a[0] != b[0] {
            var q :| 0 <= q < |b| && b[q] == a[0];
            assert Less(sb[0].key, sb[q].key) && Less(sa[0].key, sa[p].key);
            LessTransitive(sb[0].key, sa[0].key, sb[0].key);
          }
          assert false;
        }
      }
      SortedSubsequence(m, rest, b[1..]);
    }
  }

  /** Level i+1 is a subsequence of level i. */
  lemma LevelsNest(m: Mem, levels: seq<seq<Node>>, h: Node, i: nat)
    requires Linked(m, levels, h) && Members(m, levels, null) && i < MAX_LEVEL
    ensures Subsequence(levels[i + 1], levels[i])
  {
    var a, b := levels[i + 1], levels[i];
    forall n | n in a[1..] ensures n in b[1..] {
      var p :| 1 <= p < |a| && a[p] == n;
      assert Link(m, a, p, i + 1);
      Apart(a, 0, p);
      assert n in levels[i];
      assert b == [h] + b[1..];
    }
    SortedSubsequence(m, a[1..], b[1..]);
  }
}
