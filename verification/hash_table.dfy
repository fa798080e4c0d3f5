/** The hash-table engine. */
module HashEngine {
  import opened Bytes
  import opened Kv
  import opened Pairs
  import opened HashChains

  const MAX_TABLE_SIZE := 1000000

  class HashTable {
    /** The 64-bit hash of a string; any fixed function will do. */
    const xxh: Str -> nat
    const nodes: array<Node?>
    var count: int
    ghost var mem: Mem
    ghost var chains: seq<seq<Node>>

    function Slot(): (slot: Str -> nat)
      ensures forall key :: slot(key) < MAX_TABLE_SIZE && slot(key) == xxh(key) % 1000000
    {
      (key: Str) => xxh(key) % MAX_TABLE_SIZE
    }

    ghost predicate Valid()
      reads this, nodes, mem.Keys
    {
      Coupled() && Sized(mem, nodes[..], chains, Slot(), MAX_TABLE_SIZE, count)
    }

    ghost predicate Coupled()
      reads `mem, mem.Keys
    {
      forall n :: n in mem ==> mem[n] == Rec(n.key, n.value, n.next)
    }

    ghost function Contents(): map<Str, Str>
      reads this
    {
      MapOf(Bindings(mem, chains))
    }

    constructor (hash: Str -> nat)
      ensures Valid() && Contents() == map[] && fresh(nodes) && mem == map[] && xxh == hash
    {
      xxh := hash;
      nodes := new Node?[MAX_TABLE_SIZE](_ => null);
      count := 0;
      mem := map[];
      chains := seq(MAX_TABLE_SIZE, _ => []);
      new;
      EmptyJoin(chains);
    }

    static lemma {:induction false} EmptyJoin(cs: seq<seq<Node>>)
      requires forall i :: 0 <= i < |cs| ==> cs[i] == []
      ensures Join(cs) == []
    {
      if cs != [] {
        EmptyJoin(cs[1..]);
      }
    }

    /** Walk the key's chain to the node with the key. */
    method Find(key: Str, idx: nat) returns (node: Node?, ghost k: nat)
      requires Valid() && idx == Slot()(key)
      ensures node == null <==> key !in Contents()
      ensures node != null ==> k < |chains[idx]| && node == chains[idx][k] && node in mem && mem[node].key == key
      ensures node != null ==> Contents()[key] == mem[node].value
    {
      ghost var c := chains[idx];
      assert Chain(mem, nodes[idx], c, idx, Slot());
      InChain(mem, nodes[..], chains, Slot(), key);
      node, k := nodes[idx], 0;
      while node != null
        invariant k <= |c| && node == At(c, k)
        invariant forall j :: 0 <= j < k ==> Entry(mem, c[j]).key != key
        decreases |c| - k
      {
        assert Link(mem, c, k, idx, Slot());
        StrCmpEqual(node.key, key);
        if StrCmp(node.key, key) == 0 {
          TakenOut(mem, mem, nodes[..], chains, Slot(), idx, k);
          return;
        }
        node, k := node.next, k + 1;
      }
    }

    method Get(key: Option<Str>) returns (value: Option<Str>)
      requires Valid()
      ensures value == Lookup(Contents(), key)
    {
      hide Slot;
      if key.None? {
        return None;
      }
      var idx := Slot()(key.value);
      var node, k := Find(key.value, idx);
      if node == null {
        return None;
      }
      return Some(node.value);
    }

    method Set(key: Option<Str>, value: Option<Str>) returns (ret: int)
      requires Valid()
      modifies this, nodes
      ensures Valid() && fresh(mem.Keys - old(mem.Keys))
      ensures key.None? || value.None? ==> ret == -1 && Contents() == old(Contents())
      ensures key.Some? && value.Some? ==>
        && ret == (if key.value in old(Contents()) then 1 else 0)
        && Contents() == AfterSet(old(Contents()), key.value, value.value)
    {
      if key.None? || value.None? {
        return -1;
      }
      var idx := Slot()(key.value);
      var node, k := Find(key.value, idx);
      if node != null {
        return 1;
      }
      var z := new Node(key.value, value.value);
      Push(z, idx);
      return 0;
    }

    /** Put a new node at the head of its chain. */
    method Push(z: Node, idx: nat)
      requires Valid() && z !in mem && idx == Slot()(z.key) && z.key !in Contents()
      modifies this, nodes, z`next
      ensures Valid() && mem.Keys == old(mem.Keys) + {z} && Contents() == old(Contents())[z.key := z.value]
    {
      hide Slot, Sized, Bindings, MapOf, PushedOn;
      SizedLengths(mem, nodes[..], chains, Slot(), MAX_TABLE_SIZE, count);
      ghost var r, heads, m, cs := Rec(z.key, z.value, null), nodes[..], mem, chains;
      PushedAll(m, heads, cs, Slot(), MAX_TABLE_SIZE, count, z, r);
      z.next := nodes[idx];
      nodes[idx] := z;
      count := count + 1;
      mem := Pushed(m, z, r, heads[idx]);
      chains := PushedOn(cs, idx, z);
      assert nodes[..] == heads[idx := z];
    }

    /** The value is not looked at unless the key is found; then there must be one. */
    method Mod(key: Option<Str>, value: Option<Str>) returns (ret: int)
      requires Valid() && (Lookup(Contents(), key).Some? ==> value.Some?)
      modifies `mem, mem.Keys`value
      ensures Valid() && mem.Keys == old(mem.Keys)
      ensures key.None? ==> ret == -1
      ensures key.Some? ==> ret == if key.value in old(Contents()) then 0 else 1
      ensures Contents() == if key.Some? && value.Some? then AfterMod(old(Contents()), key.value, value.value) else old(Contents())
    {
      hide Slot;
      if key.None? {
        return -1;
      }
      var idx := Slot()(key.value);
      var node, k := Find(key.value, idx);
      if node == null {
        return 1;
      }
      PutValue(idx, k, node, value.value);
      return 0;
    }

    method PutValue(idx: nat, ghost k: nat, node: Node, value: Str)
      requires Valid() && idx < nodes.Length && k < |chains[idx]| && node == chains[idx][k] && node in mem
      modifies `mem, node`value
      ensures Valid() && mem.Keys == old(mem.Keys)
      ensures old(mem)[node].key in old(Contents()) && Contents() == old(Contents())[old(mem)[node].key := value]
    {
      hide Slot, Sized, Bindings, MapOf;
      SizedLengths(mem, nodes[..], chains, Slot(), MAX_TABLE_SIZE, count);
      RevaluedAll(mem, nodes[..], chains, Slot(), MAX_TABLE_SIZE, count, idx, k, value);
      node.value := value;
      mem := Revalued(mem, node, value);
    }

    /** A missing key is reported by -1, where the other engines report 1. */
    method Del(key: Option<Str>) returns (ret: int)
      requires Valid()
      modifies this, nodes, mem.Keys`next
      ensures Valid() && mem.Keys <= old(mem.Keys)
      ensures key.None? ==> ret == -2 && Contents() == old(Contents())
      ensures key.Some? ==>
        && ret == (if key.value in old(Contents()) then 0 else -1)
        && Contents() == AfterDel(old(Contents()), key.value)
    {
      hide Slot;
      if key.None? {
        return -2;
      }
      var idx := Slot()(key.value);
      var head := nodes[idx];
      if head == null {
        Absent(key.value, idx);
        return -1;
      }
      HeadOf(idx);
      StrCmpEqual(head.key, key.value);
      if StrCmp(head.key, key.value) == 0 {
        DropHead(idx, head);
        return 0;
      }
      var cur, k := FindBefore(key.value, idx, head);
      if cur.next == null {
        return -1;
      }
      DropNext(idx, k, cur, cur.next);
      return 0;
    }

    lemma HeadOf(idx: nat)
      requires Valid() && idx < nodes.Length && nodes[idx] != null
      ensures |chains[idx]| > 0 && chains[idx][0] == nodes[idx] && nodes[idx] in mem
    {
      assert Chain(mem, nodes[idx], chains[idx], idx, Slot());
      assert Link(mem, chains[idx], 0, idx, Slot());
    }

    lemma Absent(key: Str, idx: nat)
      requires Valid() && idx == Slot()(key) && nodes[idx] == null
      ensures key !in Contents()
    {
      assert Chain(mem, nodes[idx], chains[idx], idx, Slot());
      InChain(mem, nodes[..], chains, Slot(), key);
    }

    /** Walk the chain to the node before the one with the key, or to the last one. */
    method FindBefore(key: Str, idx: nat, head: Node) returns (cur: Node, ghost k: nat)
      requires Valid() && idx == Slot()(key) && head == nodes[idx] && head.key != key
      ensures k < |chains[idx]| && cur == chains[idx][k] && cur in mem
      ensures cur.next == null ==> key !in Contents()
      ensures cur.next != null ==> k + 1 < |chains[idx]| && cur.next == chains[idx][k + 1] && cur.next in mem && cur.next.key == key
    {
      hide Slot;
      ghost var c := chains[idx];
      assert Chain(mem, head, c, idx, Slot());
      InChain(mem, nodes[..], chains, Slot(), key);
      assert Link(mem, c, 0, idx, Slot());
      cur, k := head, 0;
      while cur.next != null
        invariant k < |c| && cur == c[k] && Link(mem, c, k, idx, Slot())
        invariant forall j :: 0 <= j <= k ==> Entry(mem, c[j]).key != key
        decreases |c| - k
      {
        assert Link(mem, c, k + 1, idx, Slot());
        StrCmpEqual(cur.next.key, key);
        if StrCmp(cur.next.key, key) == 0 {
          return;
        }
        cur, k := cur.next, k + 1;
      }
    }

    /** Unlink and free the first node of a slot. */
    method DropHead(idx: nat, head: Node)
      requires Valid() && idx < nodes.Length && |chains[idx]| > 0 && head == chains[idx][0]
      modifies this, nodes
      ensures Valid() && mem.Keys <= old(mem.Keys) && head in old(mem)
      ensures Contents() == AfterDel(old(Contents()), old(mem)[head].key) && old(mem)[head].key in old(Contents())
    {
      hide Slot, Sized, Bindings, MapOf, Cut;
      SizedLengths(mem, nodes[..], chains, Slot(), MAX_TABLE_SIZE, count);
      ghost var c, heads, m := chains[idx], nodes[..], mem;
      UnlinkedAll(m, heads, chains, Slot(), MAX_TABLE_SIZE, count, idx, 0);
      nodes[idx] := head.next;
      count := count - 1;
      mem := Unlinked(m, c, 0);
      chains := Cut(chains, idx, 0);
      assert nodes[..] == heads[idx := m[head].next];
    }

    /** Unlink and free the node after cur. */
    method DropNext(idx: nat, ghost k: nat, cur: Node, node: Node)
      requires Valid() && idx < nodes.Length && k + 1 < |chains[idx]| && cur == chains[idx][k]
      requires node == cur.next == chains[idx][k + 1]
      modifies this, cur`next
      ensures Valid() && mem.Keys <= old(mem.Keys) && node in old(mem)
      ensures Contents() == AfterDel(old(Contents()), old(mem)[node].key) && old(mem)[node].key in old(Contents())
    {
      hide Slot, Sized, Bindings, MapOf, Cut;
      SizedLengths(mem, nodes[..], chains, Slot(), MAX_TABLE_SIZE, count);
      ghost var heads, m := nodes[..], mem;
      UnlinkedAll(m, heads, chains, Slot(), MAX_TABLE_SIZE, count, idx, k + 1);
      assert heads == heads[idx := heads[idx]];
      cur.next := node.next;
      count := count - 1;
      mem := Unlinked(m, chains[idx], k + 1);
      chains := Cut(chains, idx, k + 1);
      assert nodes[..] == heads;
    }

    method Exist(key: Option<Str>) returns (ret: int)
      requires Valid()
      ensures ret == if Lookup(Contents(), key).None? then 1 else 0
    {
      var value := Get(key);
      return if value.None? then 1 else 0;
    }
  
    /** Each node is chained in the slot that the hash of its key gives, and in no other. */
    lemma InItsSlot(n: Node, i: nat)
      requires Valid() && n in mem && i < 1000000
      ensures |chains| == 1000000 && (n in chains[i] <==> i == xxh(mem[n].key) % 1000000)
    {
      if n in chains[i] {
        ChainSlot(mem, nodes[..], chains, Slot(), i, n);
      }
    }

    /** The count field is the number of keys. */
    lemma CountIsSize()
      requires Valid()
      ensures count == |Contents()| && UniqueKeys(Bindings(mem, chains))
    {
      BindingsUnique(mem, nodes[..], chains, Slot());
      MapSize(Bindings(mem, chains));
    }
  }
}
