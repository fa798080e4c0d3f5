/** The traversals of the engines that write a dump. */
module Traversal {
  import opened Bytes
  import opened Kv
  import opened Pairs
  import opened Kvsp
  import opened Commands
  import opened Dump
  import opened Database
  import opened RbTree
  import opened HashEngine
  import opened SkipListEngine
  import Persistence
  import Framing
  import RbShape
  import RbBalance
  import HashChains
  import SkipLevels

  /** Append the record of a binding to the dump, which was written up to its end. */
  method WriteRecord(file: Str, e: Engine, key: Str, value: Str, ghost done: seq<Pair>,
      ghost start: Str) returns (out: Str)
    requires file == start + SaveBytes(e, done)
    ensures out == start + SaveBytes(e, done + [Pair(key, value)])
  {
    hide SaveBytes, FrameOf, Record;
    var buf := BuildRecord(e, key, value);
    SaveConcat(e, done, [Pair(key, value)]);
    SaveOne(e, Pair(key, value));
    out := file + buf;
  }

  // ---- the red-black tree: a node before its subtrees ----

  ghost function PreOrder(t: RbShape.Tree): seq<Pair> {
    if t.Leaf? then [] else [RbBalance.PairOf(t.cell)] + PreOrder(t.left) + PreOrder(t.right)
  }

  lemma FirstInMap(a: seq<Pair>, p: Pair, b: seq<Pair>, l: seq<Pair>, r: seq<Pair>)
    requires Sorted(a + [p] + b) && MapOf(l) == MapOf(a) && MapOf(r) == MapOf(b)
    ensures MapOf([p] + l + r) == MapOf(a + [p] + b)
  {
    hide Sorted, MapOf;
    SortedAround(a, p, b);
    MapAround(a, p, b);
    MapConcat(a, b);
    MapConcat(l, r);
    assert [p] + l + r == [] + [p] + (l + r);
    assert [] + (l + r) == l + r;
    assert !HasKey([], p.key) && !HasKey(l + r, p.key) by {
      MapKeys(l + r, p.key);
    }
    MapAround([], p, l + r);
  }

  /** The order in which a tree is walked makes no difference to the map. */
  lemma {:induction false} PreOrderMap(t: RbShape.Tree)
    requires Sorted(RbBalance.InOrder(t))
    ensures MapOf(PreOrder(t)) == MapOf(RbBalance.InOrder(t))
  {
    hide Sorted, MapOf;
    if t.N? {
      var a, p, b := RbBalance.InOrder(t.left), RbBalance.PairOf(t.cell), RbBalance.InOrder(t.right);
      SortedAround(a, p, b);
      PreOrderMap(t.left);
      PreOrderMap(t.right);
      FirstInMap(a, p, b, PreOrder(t.left), PreOrder(t.right));
    }
  }

  method WriteRbtree(T: RedBlackTree, node: RbShape.Node, file: Str, ghost t: RbShape.Tree, ghost c: RbShape.Ctx,
    ghost done: seq<Pair>, ghost start: Str) returns (out: Str)
    requires T.Holds(t, c) && node == RbShape.Top(t, T.nil) && file == start + SaveBytes(Rbtree, done)
    ensures out == start + SaveBytes(Rbtree, done + PreOrder(t))
    decreases t
  {
    hide RedBlackTree.Holds, SaveBytes;
    T.Reads(t, c);
    out := file;
    if node != T.nil {
      ghost var p := RbBalance.PairOf(t.cell);
      out := WriteRecord(file, Rbtree, node.key, node.value, done, start);
      ghost var l, r := RbShape.In(RbShape.Lft, t.cell, t.right, c), RbShape.In(RbShape.Rgt, t.cell, t.left, c);
      assert RbBalance.Lift(t.left, l) == t && RbBalance.Lift(t.right, r) == t;
      T.LiftHolds(t.left, l);
      T.LiftHolds(t.right, r);
      out := WriteRbtree(T, node.left, out, t.left, l, done + [p], start);
      out := WriteRbtree(T, node.right, out, t.right, r, done + [p] + PreOrder(t.left), start);
      assert done + [p] + PreOrder(t.left) + PreOrder(t.right) == done + PreOrder(t);
    } else {
      assert done + PreOrder(t) == done;
    }
  }

  // ---- the hash table: slot by slot, until as many records are out as there are nodes ----

  method WriteChain(T: HashTable, i: nat, file: Str, ghost done: seq<Pair>, ghost start: Str) returns (out: Str, n: nat)
    requires T.Valid() && i < T.nodes.Length && file == start + SaveBytes(Hash, done)
    ensures out == start + SaveBytes(Hash, done + HashChains.Entries(T.mem, T.chains[i])) && n == |T.chains[i]|
  {
    hide SaveBytes, HashTable.Slot;
    ghost var c := T.chains[i];
    assert HashChains.Chain(T.mem, T.nodes[i], c, i, T.Slot());
    hide HashChains.Table;
    var node := T.nodes[i];
    out, n := file, 0;
    assert done + HashChains.Entries(T.mem, c[..0]) == done;
    while node != null
      invariant n <= |c| && node == HashChains.At(c, n)
      invariant out == start + SaveBytes(Hash, done + HashChains.Entries(T.mem, c[..n]))
      decreases |c| - n
    {
      assert HashChains.Link(T.mem, c, n, i, T.Slot());
      out := WriteRecord(out, Hash, node.key, node.value, done + HashChains.Entries(T.mem, c[..n]), start);
      assert done + HashChains.Entries(T.mem, c[..n]) + [HashChains.Entry(T.mem, c[n])] == done + HashChains.Entries(T.mem, c[..n + 1]);
      node, n := node.next, n + 1;
    }
    assert c[..n] == c;
  }

  /** The bindings of the slots before i. */
  ghost function FirstSlots(T: HashTable, i: nat): seq<Pair>
    requires i <= |T.chains|
    reads T
  {
    HashChains.Entries(T.mem, HashChains.Join(T.chains[..i]))
  }

  lemma NextSlot(T: HashTable, i: nat)
    requires i < |T.chains|
    ensures FirstSlots(T, i + 1) == FirstSlots(T, i) + HashChains.Entries(T.mem, T.chains[i])
    ensures |FirstSlots(T, i + 1)| <= |HashChains.Bindings(T.mem, T.chains)|
    ensures |FirstSlots(T, i + 1)| == |HashChains.Bindings(T.mem, T.chains)| ==> FirstSlots(T, i + 1) == HashChains.Bindings(T.mem, T.chains)
  {
    var a, b := T.chains[..i + 1], T.chains[i + 1..];
    assert T.chains == a + b;
    HashChains.JoinConcat(a, b);
    HashChains.JoinMiddle(T.chains[..i], T.chains[i], []);
    assert a == T.chains[..i] + [T.chains[i]] + [];
    assert HashChains.Join(a) == HashChains.Join(T.chains[..i]) + T.chains[i];
    HashChains.EntriesConcat(T.mem, HashChains.Join(T.chains[..i]), T.chains[i]);
    HashChains.EntriesConcat(T.mem, HashChains.Join(a), HashChains.Join(b));
  }

  method WriteHash(T: HashTable, file: Str) returns (out: Str)
    requires T.Valid()
    ensures out == file + SaveBytes(Hash, HashChains.Bindings(T.mem, T.chains))
  {
    hide SaveBytes, FirstSlots, HashTable.Slot, HashChains.Table;
    Sizes(T);
    NoneSaved(Hash, file);
    out := file;
    if T.count > 0 {
      var count := T.count;
      var i := 0;
      while i < T.nodes.Length
        invariant i <= T.nodes.Length && count == T.count - |FirstSlots(T, i)| && count > 0
        invariant out == file + SaveBytes(Hash, FirstSlots(T, i))
      {
        var n;
        NextSlot(T, i);
        out, n := WriteChain(T, i, out, FirstSlots(T, i), file);
        count := count - n;
        i := i + 1;
        if count <= 0 {
          return;
        }
      }
      AllSlots(T);
    }
  }

  lemma NoneSaved(e: Engine, file: Str)
    ensures file + SaveBytes(e, []) == file
  {}

  lemma Sizes(T: HashTable)
    requires T.Valid()
    ensures |T.chains| == T.nodes.Length && |HashChains.Bindings(T.mem, T.chains)| == T.count && FirstSlots(T, 0) == []
  {}

  lemma AllSlots(T: HashTable)
    ensures FirstSlots(T, |T.chains|) == HashChains.Bindings(T.mem, T.chains)
  {
    assert T.chains[..|T.chains|] == T.chains;
  }

  // ---- the skip list: along the lowest level ----

  method WriteSkiplist(T: SkipList, file: Str) returns (out: Str)
    requires T.Valid()
    ensures out == file + SaveBytes(Skiplist, SkipLevels.Bindings(T.mem, T.levels[0]))
  {
    hide SaveBytes;
    ghost var l := T.levels[0];
    assert SkipLevels.Level(T.mem, l, 0, T.header) && SkipLevels.Link(T.mem, l, 0, 0);
    NoneSaved(Skiplist, file);
    SkipLevels.EmptyUpto(T.mem, l);
    out := file;
    var current := T.header.forward[0];
    ghost var k := 0;
    while current != null
      invariant k < |l| && current == SkipLevels.Next(l, k)
      invariant out == file + SaveBytes(Skiplist, SkipLevels.Upto(T.mem, l, k))
      decreases |l| - k
    {
      assert SkipLevels.Link(T.mem, l, k + 1, 0);
      SkipLevels.SplitAt(T.mem, l, k + 1);
      out := WriteRecord(out, Skiplist, current.key, current.value, SkipLevels.Upto(T.mem, l, k), file);
      current, k := current.forward[0], k + 1;
    }
    SkipLevels.SplitAt(T.mem, l, k);
    assert SkipLevels.Upto(T.mem, l, k) + [] == SkipLevels.Upto(T.mem, l, k);
  }

  // ---- a whole dump ----

  /** The list holds the store: all of its bindings and no others. */
  ghost predicate Lists(s: seq<Pair>, m: Store) { MapOf(s) == m && AllBound(s, m) }

  /** The file holds the store. */
  ghost predicate Saved(file: Str, db: Db) {
    exists a, b, c :: Lists(a, db.rb) && Lists(b, db.hash) && Lists(c, db.skip)
      && file == SaveBytes(Rbtree, a) + SaveBytes(Hash, b) + SaveBytes(Skiplist, c)
  }

  lemma {:induction false} PreOrderIn(t: RbShape.Tree, p: Pair)
    requires p in PreOrder(t)
    ensures p in RbBalance.InOrder(t)
  {
    if p != RbBalance.PairOf(t.cell) {
      if p in PreOrder(t.left) {
        PreOrderIn(t.left, p);
      } else {
        PreOrderIn(t.right, p);
      }
    }
  }

  lemma ListsRbtree(T: RedBlackTree)
    requires T.Valid()
    ensures Lists(PreOrder(T.tree), T.Contents())
  {
    hide MapOf, RedBlackTree.Holds, RbBalance.RedBlack;
    PreOrderMap(T.tree);
    SortedUnique(RbBalance.InOrder(T.tree));
    UniqueBound(RbBalance.InOrder(T.tree));
    forall p | p in PreOrder(T.tree) ensures p in RbBalance.InOrder(T.tree) { PreOrderIn(T.tree, p); }
  }

  lemma ListsHash(T: HashTable)
    requires T.Valid()
    ensures Lists(HashChains.Bindings(T.mem, T.chains), T.Contents())
  {
    T.CountIsSize();
    UniqueBound(HashChains.Bindings(T.mem, T.chains));
  }

  lemma ListsSkiplist(T: SkipList)
    requires T.Valid()
    ensures Lists(SkipLevels.Bindings(T.mem, T.levels[0]), T.Contents())
  {
    T.Shape(0);
    SortedUnique(SkipLevels.Bindings(T.mem, T.levels[0]));
    UniqueBound(SkipLevels.Bindings(T.mem, T.levels[0]));
  }

  method WriteDump(db: Engines) returns (file: Str)
    requires db.Valid()
    ensures Saved(file, db.State())
  {
    hide RedBlackTree.Valid, RedBlackTree.Contents, HashTable.Valid, HashTable.Contents, SkipList.Valid, SkipList.Contents,
      Lists, SaveBytes, PreOrder, HashChains.Bindings, SkipLevels.Bindings;
    ghost var a, b := PreOrder(db.rb.tree), HashChains.Bindings(db.hash.mem, db.hash.chains);
    ListsRbtree(db.rb);
    ListsHash(db.hash);
    ListsSkiplist(db.skip);
    file := WriteRoot(db.rb);
    file := WriteHash(db.hash, file);
    file := WriteSkiplist(db.skip, file);
  }

  method WriteRoot(T: RedBlackTree) returns (file: Str)
    requires T.Valid()
    ensures file == SaveBytes(Rbtree, PreOrder(T.tree))
  {
    hide MapOf, RbBalance.RedBlack, RedBlackTree.Holds;
    T.Reads(T.tree, RbShape.Root);
    NoneSaved(Rbtree, []);
    file := WriteRbtree(T, T.root, [], T.tree, RbShape.Root, [], []);
    assert [] + PreOrder(T.tree) == PreOrder(T.tree);
  }

  /** Every binding of the store fits into a record. */
  ghost predicate StorableDb(db: Db) {
    forall e, k :: k in Of(db, e) ==> Storable(e, Pair(k, Of(db, e)[k]))
  }

  lemma ListStorable(e: Engine, s: seq<Pair>, db: Db)
    requires Lists(s, Of(db, e)) && StorableDb(db)
    ensures AllStorable(e, s)
  {
    hide Storable, MapOf;
    forall i | 0 <= i < |s| ensures Storable(e, s[i]) {
      assert s[i] in s;
      assert s[i] == Pair(s[i].key, Of(db, e)[s[i].key]);
    }
  }

  /** Saving and loading give the store back. */
  lemma SaveLoad(file: Str, db: Db)
    requires Saved(file, db) && StorableDb(db)
    ensures Framing.Drain(file, EMPTY, Persistence.StepOf(Persistence.Save)).state == db
  {
    hide SaveBytes, MapOf, AllBound, StorableDb, AllStorable, Framing.Drain;
    var a, b, c :| Lists(a, db.rb) && Lists(b, db.hash) && Lists(c, db.skip)
      && file == SaveBytes(Rbtree, a) + SaveBytes(Hash, b) + SaveBytes(Skiplist, c);
    ListStorable(Rbtree, a, db);
    ListStorable(Hash, b, db);
    ListStorable(Skiplist, c, db);
    LoadDump(a, b, c);
  }
}
