/** The blocks of a slab: where they lie, and the list of the free ones, linked through their first words. */
module SlabBlocks {
  import opened SlabLists
  import opened SlabBoard

  const ALIGN_SIZE := 8
  const ALIGNMENT_THRESHOLD := 128
  const SLAB_SIZE_ALIGNMENT := 131072
  const LARGE_THRESHOLD := 8192
  /** The sizes of a slab's own record and of a block's header. */
  const SLAB_RECORD := 48
  const BLOCK_HEADER := 24

  const SIZE_CLASSES: seq<nat> := [
    8, 16, 32, 48, 56, 64, 72, 80,
    96, 112, 128,
    160, 192, 224, 256,
    320, 384, 448, 512,
    640, 768, 896, 1024,
    1280, 1536, 1792, 2048,
    2560, 3072, 3584, 4096,
    5120, 6144, 7168, 8192]

  const SLAB_CLASSES: seq<nat> := [
    8 * 1024, 16 * 1024, 32 * 1024, 48 * 1024, 56 * 1024, 64 * 1024, 72 * 1024, 80 * 1024,
    96 * 512, 112 * 512, 128 * 512,
    160 * 256, 192 * 256, 224 * 256, 256 * 256,
    320 * 128, 384 * 128, 448 * 128, 512 * 128,
    640 * 64, 768 * 64, 896 * 64, 1024 * 64,
    1280 * 32, 1536 * 32, 1792 * 32, 2048 * 32,
    2560 * 16, 3072 * 16, 3584 * 16, 4096 * 16,
    5120 * 8, 6144 * 8, 7168 * 8, 8192 * 8]

  function SizeOf(cls: nat): (n: nat)
    requires cls < CLASS_COUNT
    ensures 8 <= n <= LARGE_THRESHOLD && n % ALIGN_SIZE == 0
  {
    SIZE_CLASSES[cls]
  }

  predicate IsHeaderless(cls: nat)
    requires cls < CLASS_COUNT
  {
    SizeOf(cls) <= ALIGNMENT_THRESHOLD
  }

  /** The size of a slab's memory, and of what stands in it before the blocks. */
  function Extent(cls: nat): (n: nat)
    requires cls < CLASS_COUNT
    ensures 8 * SizeOf(cls) + Lead(cls) <= n <= SLAB_SIZE_ALIGNMENT
  {
    if IsHeaderless(cls) then SLAB_SIZE_ALIGNMENT else SLAB_CLASSES[cls]
  }

  function Lead(cls: nat): nat
    requires cls < CLASS_COUNT
  {
    if IsHeaderless(cls) then SLAB_RECORD else 0
  }

  function Total(cls: nat): nat
    requires cls < CLASS_COUNT
  {
    (Extent(cls) - Lead(cls)) / SizeOf(cls)
  }

  /** The address of block i. */
  function Addr(base: nat, cls: nat, i: nat): nat
    requires cls < CLASS_COUNT
  {
    base + Lead(cls) + i * SizeOf(cls)
  }

  /** Where the blocks of a slab lie, and how many small ones there are. */
  lemma Layout(base: nat, cls: nat, i: nat)
    requires cls < CLASS_COUNT
    ensures SizeOf(cls) <= 128 ==> Addr(base, cls, i) == base + 48 + i * SizeOf(cls) && Total(cls) == (131072 - 48) / SizeOf(cls)
    ensures SizeOf(cls) > 128 ==> Addr(base, cls, i) == base + i * SizeOf(cls)
  {
    hide SizeOf;
  }

  /** The classes above 128 bytes: four steps to the next power of two, and then the same again with half as many blocks. */
  lemma ClassSteps(cls: nat)
    requires 11 <= cls < CLASS_COUNT
    ensures cls < 15 ==> SizeOf(cls) == 32 * (cls - 6) && Extent(cls) == 256 * SizeOf(cls)
    ensures cls >= 15 ==> SizeOf(cls) == 2 * SizeOf(cls - 4) && Extent(cls) == Extent(cls - 4)
  {}

  lemma Divides(n: nat, d: nat, i: nat)
    requires d > 0 && i < n / d
    ensures (i + 1) * d <= n
  {
    assert n == n / d * d + n % d;
    Scale(i + 1, n / d, d);
  }

  lemma Scale(a: nat, b: nat, d: nat)
    requires a <= b
    ensures a * d <= b * d
  {}

  lemma BlockInside(base: nat, cls: nat, i: nat)
    requires cls < CLASS_COUNT && i < Total(cls)
    ensures base + Lead(cls) <= Addr(base, cls, i) && Addr(base, cls, i) + SizeOf(cls) <= base + Extent(cls)
  {
    hide SizeOf, Extent;
    Divides(Extent(cls) - Lead(cls), SizeOf(cls), i);
    assert (i + 1) * SizeOf(cls) == i * SizeOf(cls) + SizeOf(cls);
  }

  /** Two stretches of memory have no byte in common. */
  predicate Disjoint(a: nat, n: nat, b: nat, k: nat) { a + n <= b || b + k <= a }

  lemma BlocksApart(base: nat, cls: nat, i: nat, j: nat)
    requires cls < CLASS_COUNT && i != j
    ensures Disjoint(Addr(base, cls, i), SizeOf(cls), Addr(base, cls, j), SizeOf(cls))
  {
    hide SizeOf;
    var lo, hi := if i < j then i else j, if i < j then j else i;
    Scale(lo + 1, hi, SizeOf(cls));
    assert (lo + 1) * SizeOf(cls) == lo * SizeOf(cls) + SizeOf(cls);
  }

  // ---- the free list ----

  type Words = map<nat, nat>

  /** The address of the free block number k, or 0 behind the last. */
  ghost function FreeAt(base: nat, cls: nat, f: seq<nat>, k: nat): nat
    requires cls < CLASS_COUNT
  {
    if k < |f| then Addr(base, cls, f[k]) else 0
  }

  ghost predicate FreeLink(word: Words, base: nat, cls: nat, f: seq<nat>, k: nat)
    requires cls < CLASS_COUNT && k < |f|
  {
    Addr(base, cls, f[k]) in word && word[Addr(base, cls, f[k])] == FreeAt(base, cls, f, k + 1)
  }

  ghost predicate Once(f: seq<nat>) { forall p, q :: 0 <= p < q < |f| ==> f[p] != f[q] }

  ghost predicate FreeChain(word: Words, base: nat, cls: nat, head: nat, f: seq<nat>)
    requires cls < CLASS_COUNT
  {
    head == FreeAt(base, cls, f, 0) && Once(f) && forall k :: 0 <= k < |f| ==> FreeLink(word, base, cls, f, k)
  }

  /** Each block is free or live, and not both. */
  ghost predicate Parted(total: nat, f: seq<nat>, live: set<nat>) {
    forall i :: (i in f || i in live <==> 0 <= i < total) && !(i in f && i in live)
  }

  ghost predicate SlabOk(word: Words, r: Rec, f: seq<nat>, live: set<nat>) {
    && r.cls < CLASS_COUNT && r.base > 0 && r.headerless == IsHeaderless(r.cls)
    && (r.headerless ==> r.base % SLAB_SIZE_ALIGNMENT == 0) && r.total == Total(r.cls) && r.free == |f|
    && FreeChain(word, r.base, r.cls, r.list, f) && Parted(Total(r.cls), f, live)
  }

  /** The size of a word. */
  const WORD := 8

  /** From m to m', some bytes of the n at address a may have changed; len is the size of what m holds. */
  ghost predicate Stored<T>(m: map<nat, T>, m': map<nat, T>, len: nat, a: nat, n: nat) {
    forall x :: x in m && Disjoint(x, len, a, n) ==> x in m' && m'[x] == m[x]
  }

  /** Words outside of the slab's memory do not matter to it. */
  lemma ForeignWrite(word: Words, word': Words, r: Rec, f: seq<nat>, live: set<nat>)
    requires SlabOk(word, r, f, live)
    requires forall a :: a in word && r.base <= a && a + WORD <= r.base + Extent(r.cls) ==> a in word' && word'[a] == word[a]
    ensures SlabOk(word', r, f, live)
  {
    hide Extent, SizeOf, Addr;
    forall k | 0 <= k < |f| ensures FreeLink(word', r.base, r.cls, f, k) {
      assert FreeLink(word, r.base, r.cls, f, k) && f[k] in f;
      BlockInside(r.base, r.cls, f[k]);
      SizePositive(r.cls);
    }
  }

  /** Nor do words that overlap its live blocks. */
  lemma LiveWrite(word: Words, word': Words, r: Rec, f: seq<nat>, live: set<nat>, i: nat)
    requires SlabOk(word, r, f, live) && i in live
    requires Stored(word, word', WORD, Addr(r.base, r.cls, i), SizeOf(r.cls))
    ensures SlabOk(word', r, f, live)
  {
    hide Extent, SizeOf, Addr;
    SizePositive(r.cls);
    forall k | 0 <= k < |f| ensures FreeLink(word', r.base, r.cls, f, k) {
      assert FreeLink(word, r.base, r.cls, f, k) && f[k] in f;
      BlocksApart(r.base, r.cls, f[k], i);
    }
  }

  ghost function Popped(word: Words, r: Rec): Rec
    requires r.list in word
  {
    r.(free := r.free - 1, list := word[r.list])
  }

  /** Taking the first free block. */
  lemma PoppedOk(word: Words, r: Rec, f: seq<nat>, live: set<nat>)
    requires SlabOk(word, r, f, live) && |f| > 0
    ensures r.list == Addr(r.base, r.cls, f[0]) && r.list in word
    ensures SlabOk(word, Popped(word, r), f[1..], live + {f[0]})
  {
    hide Extent, SizeOf, Addr, Total, IsHeaderless;
    assert FreeLink(word, r.base, r.cls, f, 0);
    forall k | 0 <= k < |f[1..]| ensures FreeLink(word, r.base, r.cls, f[1..], k) {
      assert FreeLink(word, r.base, r.cls, f, k + 1);
    }
    assert f == [f[0]] + f[1..] && f[0] !in f[1..];
    forall i ensures i in f <==> i == f[0] || i in f[1..] {}
    assert FreeAt(r.base, r.cls, f[1..], 0) == FreeAt(r.base, r.cls, f, 1);
    forall p, q | 0 <= p < q < |f[1..]| ensures f[1..][p] != f[1..][q] {
      assert f[p + 1] != f[q + 1];
    }
  }

  ghost function Pushed(r: Rec, a: nat): Rec { r.(free := r.free + 1, list := a) }

  /** Giving back a live block. */
  lemma PushedOk(word: Words, r: Rec, f: seq<nat>, live: set<nat>, i: nat)
    requires SlabOk(word, r, f, live) && i in live
    ensures var a := Addr(r.base, r.cls, i);
      SlabOk(word[a := r.list], Pushed(r, a), [i] + f, live - {i})
  {
    hide Extent, SizeOf, Addr, Total, IsHeaderless;
    var a := Addr(r.base, r.cls, i);
    var word', f' := word[a := r.list], [i] + f;
    forall k | 0 <= k < |f'| ensures FreeLink(word', r.base, r.cls, f', k) {
      if k > 0 {
        assert FreeLink(word, r.base, r.cls, f, k - 1) && f[k - 1] in f;
        BlocksApart(r.base, r.cls, f[k - 1], i);
        SizePositive(r.cls);
      }
    }
  }

  lemma SizePositive(cls: nat)
    requires cls < CLASS_COUNT
    ensures SizeOf(cls) >= WORD
  {}

  // ---- all slabs together ----

  ghost predicate Blocks(word: Words, m: Mem, frees: map<Slab, seq<nat>>, lives: map<Slab, set<nat>>) {
    && frees.Keys == m.Keys && lives.Keys == m.Keys
    && (forall s :: s in m ==> SlabOk(word, m[s], frees[s], lives[s]))
    && forall s, t :: s in m && t in m && s != t ==> Separate(m[s], m[t])
  }

  ghost predicate Separate(r: Rec, q: Rec) {
    r.cls < CLASS_COUNT && q.cls < CLASS_COUNT && Disjoint(r.base, Extent(r.cls), q.base, Extent(q.cls))
  }

  /** Two live blocks never overlap. */
  lemma LiveBlocksApart(word: Words, m: Mem, frees: map<Slab, seq<nat>>, lives: map<Slab, set<nat>>, s: Slab, i: nat,
      t: Slab, j: nat)
    requires Blocks(word, m, frees, lives) && s in m && t in m && i in lives[s] && j in lives[t] && (s != t || i != j)
    ensures m[s].cls < CLASS_COUNT && m[t].cls < CLASS_COUNT
    ensures Disjoint(Addr(m[s].base, m[s].cls, i), SizeOf(m[s].cls), Addr(m[t].base, m[t].cls, j), SizeOf(m[t].cls))
  {
    hide Extent, SizeOf, Addr;
    assert SlabOk(word, m[s], frees[s], lives[s]) && SlabOk(word, m[t], frees[t], lives[t]);
    if s == t {
      BlocksApart(m[s].base, m[s].cls, i, j);
    } else {
      assert Separate(m[s], m[t]);
      BlockInside(m[s].base, m[s].cls, i);
      BlockInside(m[t].base, m[t].cls, j);
    }
  }

  lemma PopKeeps(word: Words, m: Mem, frees: map<Slab, seq<nat>>, lives: map<Slab, set<nat>>, s: Slab)
    requires Blocks(word, m, frees, lives) && s in m && |frees[s]| > 0
    ensures m[s].cls < CLASS_COUNT && m[s].list == Addr(m[s].base, m[s].cls, frees[s][0]) && m[s].list in word
    ensures Blocks(word, m[s := Popped(word, m[s])], frees[s := frees[s][1..]], lives[s := lives[s] + {frees[s][0]}])
  {
    hide SlabOk, Separate, Addr;
    PoppedOk(word, m[s], frees[s], lives[s]);
    assert m[s].cls < CLASS_COUNT by { InClass(word, m[s], frees[s], lives[s]); }
    SameRegions(m, m[s := Popped(word, m[s])]);
  }

  lemma InClass(word: Words, r: Rec, f: seq<nat>, live: set<nat>)
    requires SlabOk(word, r, f, live)
    ensures r.cls < CLASS_COUNT && r.free == |f| && r.total == Total(r.cls) && r.base > 0
  {}

  lemma SameRegions(m: Mem, m': Mem)
    requires forall s :: s in m' ==> s in m && m'[s].base == m[s].base && m'[s].cls == m[s].cls
    requires forall s, t :: s in m && t in m && s != t ==> Separate(m[s], m[t])
    ensures forall s, t :: s in m' && t in m' && s != t ==> Separate(m'[s], m'[t])
  {
    hide Disjoint, Extent;
    forall s, t | s in m' && t in m' && s != t ensures Separate(m'[s], m'[t]) {
      assert Separate(m[s], m[t]);
    }
  }

  lemma PushKeeps(word: Words, m: Mem, frees: map<Slab, seq<nat>>, lives: map<Slab, set<nat>>, s: Slab, i: nat)
    requires Blocks(word, m, frees, lives) && s in m && i in lives[s]
    ensures m[s].cls < CLASS_COUNT
    ensures var a := Addr(m[s].base, m[s].cls, i);
      Blocks(word[a := m[s].list], m[s := Pushed(m[s], a)], frees[s := [i] + frees[s]], lives[s := lives[s] - {i}])
  {
    hide SlabOk, Separate, Addr, Extent;
    InClass(word, m[s], frees[s], lives[s]);
    var a := Addr(m[s].base, m[s].cls, i);
    var word' := word[a := m[s].list];
    PushedOk(word, m[s], frees[s], lives[s], i);
    forall t | t in m && t != s ensures SlabOk(word', m[t], frees[t], lives[t]) {
      OtherSlab(word, word', m, frees, lives, s, i, t);
    }
    SameRegions(m, m[s := Pushed(m[s], a)]);
  }

  /** A word that overlaps a block of s is no word of another slab. */
  lemma OtherSlab(word: Words, word': Words, m: Mem, frees: map<Slab, seq<nat>>, lives: map<Slab, set<nat>>, s: Slab,
      i: nat, t: Slab)
    requires Blocks(word, m, frees, lives) && s in m && t in m && s != t && m[s].cls < CLASS_COUNT && i in lives[s]
    requires Stored(word, word', WORD, Addr(m[s].base, m[s].cls, i), SizeOf(m[s].cls))
    ensures SlabOk(word', m[t], frees[t], lives[t])
  {
    hide Extent, SizeOf, Addr, FreeChain;
    assert SlabOk(word, m[s], frees[s], lives[s]) && SlabOk(word, m[t], frees[t], lives[t]) && Separate(m[s], m[t]);
    BlockInside(m[s].base, m[s].cls, i);
    ForeignWrite(word, word', m[t], frees[t], lives[t]);
  }

  /** Whatever a caller writes into its own block. */
  lemma UserWriteKeeps(word: Words, m: Mem, frees: map<Slab, seq<nat>>, lives: map<Slab, set<nat>>, s: Slab, i: nat,
      word': Words)
    requires Blocks(word, m, frees, lives) && s in m && i in lives[s] && m[s].cls < CLASS_COUNT
    requires Stored(word, word', WORD, Addr(m[s].base, m[s].cls, i), SizeOf(m[s].cls))
    ensures Blocks(word', m, frees, lives)
  {
    hide SlabOk, Separate, Addr, Extent;
    LiveWrite(word, word', m[s], frees[s], lives[s], i);
    forall t | t in m && t != s ensures SlabOk(word', m[t], frees[t], lives[t]) {
      OtherSlab(word, word', m, frees, lives, s, i, t);
    }
  }

  /** A new slab, in memory that no other has. */
  lemma AddKeeps(word: Words, word': Words, m: Mem, frees: map<Slab, seq<nat>>, lives: map<Slab, set<nat>>, z: Slab,
      r: Rec, f: seq<nat>)
    requires Blocks(word, m, frees, lives) && z !in m && SlabOk(word', r, f, {})
    requires forall s :: s in m ==> Separate(m[s], r)
    requires forall a :: a in word && !(r.base <= a < r.base + Extent(r.cls)) ==> a in word' && word'[a] == word[a]
    ensures Blocks(word', m[z := r], frees[z := f], lives[z := {}])
  {
    hide SlabOk, Extent;
    forall s | s in m ensures SlabOk(word', m[s], frees[s], lives[s]) {
      InClass(word, m[s], frees[s], lives[s]);
      assert Separate(m[s], r);
      ForeignWrite(word, word', m[s], frees[s], lives[s]);
    }
    var m' := m[z := r];
    forall s, t | s in m' && t in m' && s != t ensures Separate(m'[s], m'[t]) {
      if s != z && t != z {
        assert Separate(m[s], m[t]);
      } else if s == z {
        assert Separate(m[t], r);
      }
    }
  }

  lemma DropKeeps(word: Words, m: Mem, frees: map<Slab, seq<nat>>, lives: map<Slab, set<nat>>, z: Slab)
    requires Blocks(word, m, frees, lives)
    ensures Blocks(word, m - {z}, frees - {z}, lives - {z})
  {
    hide SlabOk, Separate;
    SameRegions(m, m - {z});
  }

  /** The links between slabs do not matter here. */
  lemma RelinkKeeps(word: Words, m: Mem, m': Mem, frees: map<Slab, seq<nat>>, lives: map<Slab, set<nat>>)
    requires Blocks(word, m, frees, lives) && m'.Keys == m.Keys
    requires forall s :: s in m ==> m'[s].(prev := null, next := null) == m[s].(prev := null, next := null)
    ensures Blocks(word, m', frees, lives)
  {
    hide Separate, FreeChain, Parted;
    forall s | s in m' ensures SlabOk(word, m'[s], frees[s], lives[s]) {
      assert SlabOk(word, m[s], frees[s], lives[s]);
      assert m'[s] == m[s].(prev := m'[s].prev, next := m'[s].next);
    }
    forall s | s in m' ensures m'[s].base == m[s].base && m'[s].cls == m[s].cls {
      assert m'[s].(prev := null, next := null) == m[s].(prev := null, next := null);
    }
    SameRegions(m, m');
  }
}
