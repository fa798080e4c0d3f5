/** The lists of all size classes together: each slab is on exactly one, as its free count says. */
module SlabBoard {
  import opened Kv
  import opened SlabLists

  const CLASS_COUNT := 35

  datatype Pool = Pool(blockSize: nat, emptyCount: int, empty: Slab?, partial: Slab?, full: Slab?)

  type Lists = map<Place, seq<Slab>>

  ghost predicate Exists(p: Place) { p.cls < CLASS_COUNT }

  function Head(pools: seq<Pool>, p: Place): Slab?
    requires p.cls < |pools|
  {
    match p.kind case Empty => pools[p.cls].empty case Partial => pools[p.cls].partial case Full => pools[p.cls].full
  }

  function WithHead(pools: seq<Pool>, p: Place, s: Slab?): (r: seq<Pool>)
    requires p.cls < |pools|
    ensures |r| == |pools| && Head(r, p) == s
    ensures forall q: Place :: q.cls < |pools| && q != p ==> Head(r, q) == Head(pools, q)
    ensures forall i :: 0 <= i < |r| ==> r[i].emptyCount == pools[i].emptyCount && r[i].blockSize == pools[i].blockSize
  {
    var pool := pools[p.cls];
    pools[p.cls := match p.kind case Empty => pool.(empty := s) case Partial => pool.(partial := s) case Full => pool.(full := s)]
  }

  ghost predicate ListAt(m: Mem, pools: seq<Pool>, lists: Lists, p: Place) {
    p.cls < |pools| && p in lists && Chain(m, Head(pools, p), lists[p])
  }

  /** The slab z is exactly where it is said to be: on the list at, or on none. */
  ghost predicate Located(lists: Lists, z: Slab, at: Option<Place>) {
    forall p :: Exists(p) && p in lists ==> (z in lists[p] <==> at == Some(p))
  }

  /** Every list is in order, and every slab but one is at home. */
  ghost predicate Board(m: Mem, pools: seq<Pool>, lists: Lists, but: Slab?) {
    && |pools| == CLASS_COUNT
    && (forall p :: Exists(p) ==> ListAt(m, pools, lists, p))
    && forall s :: s in m && s != but ==> Exists(Home(m[s])) && Located(lists, s, Some(Home(m[s])))
  }

  lemma ChainMembers(m: Mem, head: Slab?, l: seq<Slab>, s: Slab)
    requires Chain(m, head, l) && s in l
    ensures s in m
  {
    var k :| 0 <= k < |l| && l[k] == s;
    assert Link(m, l, k);
  }

  /** A list is as it was if the links of its slabs are. */
  lemma OtherList(m: Mem, m': Mem, head: Slab?, l: seq<Slab>)
    requires Chain(m, head, l) && forall s :: s in l ==> s in m && s in m' && m'[s].prev == m[s].prev && m'[s].next == m[s].next
    ensures Chain(m', head, l)
  {
    forall k | 0 <= k < |l| ensures Link(m', l, k) {
      assert Link(m, l, k) && l[k] in l;
    }
  }

  /** No slab is on two lists. */
  lemma OneList(m: Mem, pools: seq<Pool>, lists: Lists, but: Slab?, at: Option<Place>, p: Place, q: Place, s: Slab)
    requires Board(m, pools, lists, but) && (but != null ==> Located(lists, but, at)) && Exists(p) && Exists(q) && p != q
    requires p in lists && q in lists && s in lists[p]
    ensures s !in lists[q] && s in m
  {
    assert ListAt(m, pools, lists, p);
    ChainMembers(m, Head(pools, p), lists[p], s);
    if s != but {
      assert Located(lists, s, Some(Home(m[s])));
    }
  }

  /** Only the links of slabs on list q, and of z, changed; list q is the new l. */
  lemma ListChanged(m: Mem, m': Mem, pools: seq<Pool>, lists: Lists, z: Slab, at: Option<Place>, at': Option<Place>,
      q: Place, head: Slab?, l: seq<Slab>)
    requires Board(m, pools, lists, z) && Located(lists, z, at) && Exists(q) && m'.Keys == m.Keys
    requires at in {None, Some(q)} && at' in {None, Some(q)} && (z in l <==> at' == Some(q))
    requires forall s :: s in m && s != z && s !in lists[q] ==> m'[s] == m[s]
    requires forall s :: s in m && s != z ==> Home(m'[s]) == Home(m[s])
    requires forall s :: s != z ==> (s in l <==> s in lists[q])
    requires Chain(m', head, l)
    ensures Board(m', WithHead(pools, q, head), lists[q := l], z) && Located(lists[q := l], z, at')
  {
    hide Chain, Home;
    var pools', lists' := WithHead(pools, q, head), lists[q := l];
    hide WithHead;
    forall p | Exists(p) ensures ListAt(m', pools', lists', p) {
      assert ListAt(m, pools, lists, p) && ListAt(m, pools, lists, q);
      if p != q {
        forall s | s in lists[p] ensures s in m && m'[s] == m[s] {
          OneList(m, pools, lists, z, at, p, q, s);
          assert s != z by { assert z in lists[p] <==> at == Some(p); }
        }
        OtherList(m, m', Head(pools, p), lists[p]);
      }
    }
    forall s | s in m' && s != z ensures Exists(Home(m'[s])) && Located(lists', s, Some(Home(m'[s]))) {
      assert Located(lists, s, Some(Home(m[s])));
    }
  }

  lemma InsertKeeps(m: Mem, pools: seq<Pool>, lists: Lists, z: Slab, q: Place)
    requires Board(m, pools, lists, z) && Located(lists, z, None) && z in m && Exists(q)
    ensures q in lists && (Head(pools, q) != null ==> Head(pools, q) in m)
    ensures var lists' := lists[q := [z] + lists[q]];
      Board(Inserted(m, Head(pools, q), z), WithHead(pools, q, z), lists', z) && Located(lists', z, Some(q))
  {
    assert ListAt(m, pools, lists, q);
    var l := lists[q];
    assert z !in l by { assert z in lists[q] <==> None == Some(q); }
    InsertedChain(m, Head(pools, q), l, z);
    if |l| > 0 {
      assert Head(pools, q) in l;
    }
    hide Chain, Board, Located;
    ListChanged(m, Inserted(m, Head(pools, q), z), pools, lists, z, None, Some(q), q, z, [z] + l);
  }

  lemma RemoveKeeps(m: Mem, pools: seq<Pool>, lists: Lists, z: Slab, q: Place, k: nat)
    requires Board(m, pools, lists, z) && Located(lists, z, Some(q)) && z in m && Exists(q)
    requires q in lists && k < |lists[q]| && lists[q][k] == z
    ensures (m[z].next != null ==> m[z].next in m) && (m[z].prev != null ==> m[z].prev in m)
    ensures var head := Head(pools, q); var lists' := lists[q := Without(lists[q], k)];
      && Board(Removed(m, z), WithHead(pools, q, if head == z then m[z].next else head), lists', z)
      && Located(lists', z, None)
  {
    assert ListAt(m, pools, lists, q);
    var l, head := lists[q], Head(pools, q);
    RemovedChain(m, head, l, k);
    WithoutMembers(l, k);
    assert k > 0 ==> m[z].prev in l;
    assert k + 1 < |l| ==> m[z].next in l;
    hide Chain, Board, Located, Without;
    ListChanged(m, Removed(m, z), pools, lists, z, Some(q), None, q, if head == z then m[z].next else head, Without(l, k));
  }

  /** A slab may be set aside, and put back where its free count says it belongs. */
  lemma Aside(m: Mem, pools: seq<Pool>, lists: Lists, z: Slab)
    requires Board(m, pools, lists, null) && z in m
    ensures Board(m, pools, lists, z) && Located(lists, z, Some(Home(m[z]))) && Exists(Home(m[z]))
  {
    hide ListAt, Located;
  }

  lemma Settled(m: Mem, pools: seq<Pool>, lists: Lists, z: Slab)
    requires Board(m, pools, lists, z) && z in m && Exists(Home(m[z])) && Located(lists, z, Some(Home(m[z])))
    ensures Board(m, pools, lists, null)
  {
    hide ListAt, Located;
  }

  /** While a slab is set aside, all but its links may change. */
  lemma Touched(m: Mem, pools: seq<Pool>, lists: Lists, z: Slab, r: Rec)
    requires Board(m, pools, lists, z) && z in m && r.prev == m[z].prev && r.next == m[z].next
    ensures Board(m[z := r], pools, lists, z)
  {
    var m' := m[z := r];
    forall p | Exists(p) ensures ListAt(m', pools, lists, p) {
      assert ListAt(m, pools, lists, p);
      forall s | s in lists[p] ensures s in m { ChainMembers(m, Head(pools, p), lists[p], s); }
      OtherList(m, m', Head(pools, p), lists[p]);
    }
    hide ListAt, Located;
  }

  /** A new slab joins, on no list. */
  lemma Joined(m: Mem, pools: seq<Pool>, lists: Lists, z: Slab, r: Rec)
    requires Board(m, pools, lists, null) && z !in m
    ensures Board(m[z := r], pools, lists, z) && Located(lists, z, None)
  {
    var m' := m[z := r];
    forall p | Exists(p) ensures ListAt(m', pools, lists, p) && z !in lists[p] {
      assert ListAt(m, pools, lists, p);
      forall s | s in lists[p] ensures s in m { ChainMembers(m, Head(pools, p), lists[p], s); }
      OtherList(m, m', Head(pools, p), lists[p]);
    }
    hide ListAt;
  }

  /** A slab on no list can go. */
  lemma Gone(m: Mem, pools: seq<Pool>, lists: Lists, z: Slab)
    requires Board(m, pools, lists, z) && Located(lists, z, None)
    ensures Board(m - {z}, pools, lists, null)
  {
    var m' := m - {z};
    forall p | Exists(p) ensures ListAt(m', pools, lists, p) {
      assert ListAt(m, pools, lists, p);
      assert z !in lists[p] by { assert z in lists[p] <==> None == Some(p); }
      forall s | s in lists[p] ensures s in m { ChainMembers(m, Head(pools, p), lists[p], s); }
      OtherList(m, m', Head(pools, p), lists[p]);
    }
    hide ListAt, Located;
  }
}
