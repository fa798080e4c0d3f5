/** Slabs on doubly linked lists: one list of empty, one of partial and one of full slabs per size class. */
module SlabLists {
  class Slab {
    var prev: Slab?
    var next: Slab?
    /** The address of its memory. */
    var mem: nat
    var freeBlocks: int
    var totalBlocks: int
    /** The address of its first free block, or 0. */
    var freeList: nat
    /** Whether its blocks have no headers, so that it lies at the front of its own memory. */
    var headerless: bool
    var classId: nat

    constructor (base: nat, total: int, first: nat, noHeader: bool, cls: nat)
      ensures mem == base && freeBlocks == totalBlocks == total && freeList == first && headerless == noHeader
      ensures classId == cls
      ensures prev == null && next == null
    {
      prev, next := null, null;
      mem, freeBlocks, totalBlocks, freeList, headerless, classId := base, total, total, first, noHeader, cls;
    }
  }

  /** The fields of a slab. */
  datatype Rec = Rec(prev: Slab?, next: Slab?, base: nat, free: int, total: int, list: nat, headerless: bool, cls: nat)

  type Mem = map<Slab, Rec>

  datatype Kind = Empty | Partial | Full

  /** The list that a slab belongs on. */
  datatype Place = Place(cls: nat, kind: Kind)

  function KindOf(free: int, total: int): Kind {
    if free == total then Empty else if free == 0 then Full else Partial
  }

  ghost function Home(r: Rec): Place { Place(r.cls, KindOf(r.free, r.total)) }

  // ---- one list ----

  ghost function At(l: seq<Slab>, k: int): Slab? {
    if 0 <= k < |l| then l[k] else null
  }

  ghost predicate Link(m: Mem, l: seq<Slab>, k: nat)
    requires k < |l|
  {
    l[k] in m && m[l[k]].prev == At(l, k - 1) && m[l[k]].next == At(l, k + 1)
  }

  ghost predicate Distinct(l: seq<Slab>) {
    forall p, q :: 0 <= p < q < |l| ==> l[p] != l[q]
  }

  ghost predicate Chain(m: Mem, head: Slab?, l: seq<Slab>) {
    head == At(l, 0) && Distinct(l) && forall k :: 0 <= k < |l| ==> Link(m, l, k)
  }

  lemma Apart(l: seq<Slab>, p: nat, q: nat)
    requires Distinct(l) && p < |l| && q < |l| && p != q
    ensures l[p] != l[q]
  {}

  ghost function SetPrev(m: Mem, s: Slab?, x: Slab?): Mem
    requires s != null ==> s in m
  {
    if s == null then m else m[s := m[s].(prev := x)]
  }

  ghost function SetNext(m: Mem, s: Slab?, x: Slab?): Mem
    requires s != null ==> s in m
  {
    if s == null then m else m[s := m[s].(next := x)]
  }

  /** z in front of the list. */
  ghost function Inserted(m: Mem, head: Slab?, z: Slab): Mem
    requires z in m && (head != null ==> head in m)
  {
    SetNext(SetPrev(SetPrev(m, head, z), z, null), z, head)
  }

  lemma InsertedChain(m: Mem, head: Slab?, l: seq<Slab>, z: Slab)
    requires Chain(m, head, l) && z in m && z !in l
    ensures head != null ==> head in m
    ensures Chain(Inserted(m, head, z), z, [z] + l)
  {
    if |l| > 0 {
      assert Link(m, l, 0);
    }
    var m', l' := Inserted(m, head, z), [z] + l;
    forall k | 0 <= k < |l'| ensures Link(m', l', k) {
      if k > 0 {
        assert Link(m, l, k - 1) && l[k - 1] in l;
        if k > 1 {
          Apart(l, 0, k - 1);
        }
      }
    }
  }

  ghost function Without(l: seq<Slab>, k: nat): (r: seq<Slab>)
    requires k < |l|
    ensures |r| == |l| - 1
    ensures forall p :: 0 <= p < |r| ==> r[p] == if p < k then l[p] else l[p + 1]
  {
    l[..k] + l[k + 1..]
  }

  /** z out of its list. */
  ghost function Removed(m: Mem, z: Slab): Mem
    requires z in m && (m[z].next != null ==> m[z].next in m) && (m[z].prev != null ==> m[z].prev in m)
  {
    var a := SetPrev(m, m[z].next, m[z].prev);
    var b := SetNext(a, m[z].prev, m[z].next);
    SetNext(SetPrev(b, z, null), z, null)
  }

  lemma RemovedChain(m: Mem, head: Slab?, l: seq<Slab>, k: nat)
    requires Chain(m, head, l) && k < |l|
    ensures var z := l[k];
      && z in m && m[z].prev == At(l, k - 1) && m[z].next == At(l, k + 1)
      && (m[z].next != null ==> m[z].next in m) && (m[z].prev != null ==> m[z].prev in m)
      && Chain(Removed(m, z), if head == z then m[z].next else head, Without(l, k))
      && z !in Without(l, k)
  {
    var z := l[k];
    assert Link(m, l, k);
    if k > 0 {
      assert Link(m, l, k - 1);
      Apart(l, 0, k);
      Apart(l, k - 1, k);
    }
    if k + 1 < |l| {
      assert Link(m, l, k + 1);
      Apart(l, k, k + 1);
      if k > 0 {
        Apart(l, k - 1, k + 1);
      }
    }
    RemovedLinks(m, head, l, k);
    WithoutDistinct(l, k);
  }

  lemma WithoutDistinct(l: seq<Slab>, k: nat)
    requires Distinct(l) && k < |l|
    ensures Distinct(Without(l, k)) && l[k] !in Without(l, k)
  {
    var r := Without(l, k);
    hide Without;
    forall p | 0 <= p < |r| ensures r[p] != l[k] {}
    forall p, q | 0 <= p < q < |r| ensures r[p] != r[q] {}
  }

  lemma RemovedLinks(m: Mem, head: Slab?, l: seq<Slab>, k: nat)
    requires Chain(m, head, l) && k < |l|
    requires var z := l[k]; z in m && (m[z].next != null ==> m[z].next in m) && (m[z].prev != null ==> m[z].prev in m)
    ensures forall p :: 0 <= p < |Without(l, k)| ==> Link(Removed(m, l[k]), Without(l, k), p)
  {
    var l', m' := Without(l, k), Removed(m, l[k]);
    hide Without, Distinct;
    assert Link(m, l, k);
    forall p | 0 <= p < |l'| ensures Link(m', l', p) {
      var q := if p < k then p else p + 1;
      assert l'[p] == l[q] && Link(m, l, q);
      Apart(l, q, k);
      if k > 0 && q != k - 1 {
        Apart(l, q, k - 1);
      }
      if k + 1 < |l| && q != k + 1 {
        Apart(l, q, k + 1);
      }
    }
  }

  lemma WithoutMembers(l: seq<Slab>, k: nat)
    requires k < |l|
    ensures forall s :: s != l[k] ==> (s in Without(l, k) <==> s in l)
  {
    assert l == l[..k] + [l[k]] + l[k + 1..];
  }
}
