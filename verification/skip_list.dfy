/** The skip-list engine. */
module SkipListEngine {
  import opened Bytes
  import opened Kv
  import opened Pairs
  import opened SkipLevels

  /** Whether strcmp finds the two equal. */
  predicate Same(a: Str, b: Str)
    ensures Same(a, b) <==> a == b
  {
    StrCmpEqual(a, b);
    StrCmp(a, b) == 0
  }

  class SkipList {
    const header: Node
    var level: nat
    ghost var mem: Mem
    /** The nodes on each level, the header first. */
    ghost var levels: seq<seq<Node>>

    ghost predicate Valid()
      reads this, mem.Keys
    {
      Coupled() && Sound(mem, levels, header, null) && Tight(levels, header, level)
    }

    ghost predicate Coupled()
      reads `mem, mem.Keys
    {
      forall n :: n in mem ==> mem[n] == Rec(n.key, n.value, n.forward)
    }

    ghost function Contents(): map<Str, Str>
      requires |levels| > 0 && |levels[0]| > 0
      reads this
    {
      MapOf(Bindings(mem, levels[0]))
    }

    constructor ()
      ensures Valid() && fresh(mem.Keys) && Contents() == map[] && level == 0 && |header.forward| == 33
    {
      header := new Node(MAX_LEVEL, [], []);
      level := 0;
      new;
      mem := map[header := Rec([], [], header.forward)];
      levels := seq(MAX_LEVEL + 1, _ => [header]);
    }

    /** One level of the search: on from current to the last node before the key. */
    method Advance(start: Node, key: Str, i: nat) returns (current: Node, ghost k: nat)
      requires Valid() && i <= level && start in levels[i]
      requires start == header || Less(Entry(mem, start).key, key)
      ensures k < |levels[i]| && current == levels[i][k] && Place(mem, levels[i], k, key)
      ensures current in mem && |mem[current].forward| > i && mem[current].forward[i] == Next(levels[i], k)
      ensures current == header || Less(Entry(mem, current).key, key)
    {
      ghost var l := levels[i];
      assert Level(mem, l, i, header);
      current := start;
      k :| 0 <= k < |l| && l[k] == start;
      assert Link(mem, l, k, i);
      while current.forward[i] != null && StrCmp(current.forward[i].key, key) < 0
        invariant k < |l| && current == l[k] && Link(mem, l, k, i)
        invariant current == header || Less(Entry(mem, current).key, key)
        decreases |l| - k
      {
        assert Link(mem, l, k + 1, i);
        current := current.forward[i];
        k := k + 1;
      }
      if k + 1 < |l| {
        assert Link(mem, l, k + 1, i);
      }
      if k > 0 {
        Apart(l, 0, k);
      }
    }

    method FindPath(key: Str) returns (current: Node?, update: seq<Node>, ghost at: seq<nat>)
      requires Valid()
      ensures Path(mem, levels, update, at, key, 0, level) && current == Next(levels[0], at[0])
      ensures current != null ==> current in mem && current != header
      ensures key in Contents() <==> current != null && current.key == key
      ensures key in Contents() ==> Contents()[key] == current.value
    {
      var cur := header;
      update := seq(MAX_LEVEL, _ => header);
      at := seq(MAX_LEVEL, _ => 0);
      var i: int := level;
      HeaderOn(level);
      while i >= 0
        invariant -1 <= i <= level
        invariant i >= 0 ==> cur in levels[i]
        invariant cur == header || Less(Entry(mem, cur).key, key)
        invariant Path(mem, levels, update, at, key, i + 1, level)
        invariant i < 0 ==> cur in mem && |mem[cur].forward| > 0 && mem[cur].forward[0] == Next(levels[0], at[0])
      {
        ghost var k;
        cur, k := Advance(cur, key, i);
        ghost var update0, at0 := update, at;
        update := update[i := cur];
        at := at[i := k];
        PathGrows(mem, levels, update0, at0, update, at, key, i, level);
        if i > 0 {
          assert cur in levels[i - 1];
        }
        i := i - 1;
      }
      current := cur.forward[0];
      PathFound(current, update, at, key);
    }

    lemma HeaderOn(i: nat)
      requires Valid() && i <= MAX_LEVEL
      ensures header in levels[i]
    {
      assert Level(mem, levels[i], i, header);
    }

    /** What the path leads to. */
    lemma PathFound(current: Node?, update: seq<Node>, at: seq<nat>, key: Str)
      requires Valid() && Path(mem, levels, update, at, key, 0, level) && current == Next(levels[0], at[0])
      ensures current != null ==> current in mem && current != header
      ensures current != null && current.key == key ==> key in Contents() && Contents()[key] == current.value
      ensures (current == null || current.key != key) ==> key !in Contents()
    {
      assert Level(mem, levels[0], 0, header) && Step(mem, levels, update, at, key, 0);
      Found(mem, levels[0], at[0], key, header);
      if current != null {
        assert Link(mem, levels[0], at[0] + 1, 0);
        Apart(levels[0], 0, at[0] + 1);
      }
    }

    method Get(key: Option<Str>) returns (value: Option<Str>)
      requires Valid()
      ensures value == Lookup(Contents(), key)
    {
      if key.None? {
        return None;
      }
      var current, update, at := FindPath(key.value);
      if current == null || !Same(current.key, key.value) {
        return None;
      }
      return Some(current.value);
    }

    // ---- SET ----

    function Forward(n: Node, i: nat): (r: Node?)
      requires Coupled() && n in mem && i < |mem[n].forward|
      reads this, mem.Keys, n
      ensures r == mem[n].forward[i]
    {
      n.forward[i]
    }

    method SetForward(n: Node, i: nat, x: Node?)
      requires Coupled() && n in mem && i < |mem[n].forward|
      modifies `mem, n`forward
      ensures Coupled() && mem == Relinked(old(mem), n, i, x) && mem.Keys == old(mem.Keys)
    {
      n.forward := n.forward[i := x];
      mem := Relinked(mem, n, i, x);
    }

    /** Splice z into level i, after the node u. */
    method Splice(z: Node, u: Node, i: nat, ghost k: nat)
      requires Coupled() && CanSplice(mem, levels, header, z, i, k) && u == levels[i][k]
      modifies `mem, `levels, z`forward, u`forward
      ensures Coupled() && Sound(mem, levels, header, z) && SameNodes(old(mem), mem) && mem.Keys == old(mem.Keys)
      ensures levels == old(levels)[i := Inserted(old(levels)[i], k, z)]
    {
      SplicedSound(mem, levels, header, z, i, k);
      ghost var l := levels[i];
      hide Sound, Place, Inserted, SameNodes;
      SetForward(z, i, u.forward[i]);
      SetForward(u, i, z);
      levels := levels[i := Inserted(l, k, z)];
    }

    method LinkStep(z: Node, u: Node, ghost update: seq<Node>, ghost at: seq<nat>, i: nat, ghost lvl: nat)
      requires Coupled() && Linking(mem, levels, header, z, update, at, i, lvl) && u == update[i]
      modifies `mem, `levels, z`forward, u`forward
      ensures Coupled() && Linking(mem, levels, header, z, update, at, i - 1, lvl)
      ensures SameNodes(old(mem), mem) && mem.Keys == old(mem.Keys)
      ensures at[i] < |old(levels)[i]| && levels == old(levels)[i := Inserted(old(levels)[i], at[i], z)]
    {
      ghost var m, ls := mem, levels;
      LinkingSplice(mem, levels, header, z, update, at, i, lvl);
      hide Linking, CanSplice, Sound, Inserted, SameNodes;
      Splice(z, u, i, at[i]);
      LinkingOn(m, mem, ls, header, z, update, at, i, lvl);
    }

    /** Link z on the levels 0 to lvl, from the top down. */
    method LinkAll(z: Node, update: seq<Node>, ghost at: seq<nat>, lvl: nat)
      requires Coupled() && Linking(mem, levels, header, z, update, at, lvl, lvl)
      modifies `mem, `levels, mem.Keys`forward
      ensures Coupled() && Sound(mem, levels, header, null) && mem.Keys == old(mem.Keys)
      ensures SameNodes(old(mem), mem) && LinkedAbove(old(levels), levels, z, at, -1, lvl)
    {
      assert SameNodes(mem, mem) && LinkedAbove(levels, levels, z, at, lvl, lvl);
      hide Linking, LinkedAbove, CanSplice, SameNodes, Sound, Inserted;
      var i: int := lvl;
      while i >= 0
        invariant -1 <= i <= lvl && Coupled() && Linking(mem, levels, header, z, update, at, i, lvl)
        invariant mem.Keys == old(mem.Keys) && SameNodes(old(mem), mem)
        invariant LinkedAbove(old(levels), levels, z, at, i, lvl)
      {
        ghost var m, ls := mem, levels;
        LinkingSplice(mem, levels, header, z, update, at, i, lvl);
        LinkStep(z, update[i], update, at, i, lvl);
        LinkedAboveStep(old(levels), ls, z, at, i, lvl);
        SameNodesTrans(old(mem), m, mem);
        i := i - 1;
      }
      LinkingEnds(mem, levels, header, z, update, at, lvl);
    }

    method Set(key: Option<Str>, value: Option<Str>, lvl: nat) returns (ret: int)
      requires Valid() && lvl < 32
      modifies this, mem.Keys
      ensures Valid() && fresh(mem.Keys - old(mem.Keys))
      ensures key.None? || value.None? ==> ret == -1 && Contents() == old(Contents())
      ensures key.Some? && value.Some? ==>
        && ret == (if key.value in old(Contents()) then 1 else 0)
        && Contents() == AfterSet(old(Contents()), key.value, value.value)
      ensures ret != 0 ==> mem == old(mem) && levels == old(levels) && level == old(level)
      ensures ret == 0 ==> |mem| == |old(mem)| + 1 && level == if lvl > old(level) then lvl else old(level)
      ensures forall n :: n in mem && n !in old(mem) ==> OnLevels(n, lvl)
    {
      hide Valid, Contents, Path, OnLevels;
      if key.None? || value.None? {
        return -1;
      }
      var current, update, at := FindPath(key.value);
      if current != null && Same(current.key, key.value) {
        return 1;
      }
      var z := new Node(lvl, key.value, value.value);
      Add(z, update, at, lvl);
      return 0;
    }

    /** The node is on the levels 0 to lvl, and on no other. */
    ghost predicate OnLevels(n: Node, lvl: nat)
      reads this
    {
      lvl < |levels| && forall j :: 0 <= j < |levels| ==> (n in levels[j] <==> j <= lvl)
    }

    /** Link a new node along the path to its key. */
    method Add(z: Node, path: seq<Node>, ghost at0: seq<nat>, lvl: nat)
      requires Valid() && z !in mem && lvl < MAX_LEVEL && |z.forward| == lvl + 1 && z.key !in Contents()
      requires Path(mem, levels, path, at0, z.key, 0, level)
      modifies this, mem.Keys, z`forward
      ensures Valid() && mem.Keys == old(mem.Keys) + {z} && Contents() == old(Contents())[z.key := z.value]
      ensures OnLevels(z, lvl) && level == if lvl > old(level) then lvl else old(level)
    {
      hide Linking, LinkedAbove, SameNodes, Sound, Path, MapOf;
      var update, at := Raise(path, at0, z.key, lvl);
      ghost var m, ls, r := mem, levels, Rec(z.key, z.value, z.forward);
      LinkingStarts(m, ls, header, z, r, update, at, lvl);
      mem := mem[z := r];
      LinkAll(z, update, at, lvl);
      LinkedMap(m, mem, ls, levels, header, z, r, update, at, lvl);
      TightLinked(ls, levels, header, z, at, old(level), lvl);
      OnItsLevels(m[z := r], mem, levels, header, z);
    }

    /** Above the current level, the path goes through the header. */
    method Raise(path: seq<Node>, ghost at0: seq<nat>, ghost key: Str, lvl: nat) returns (update: seq<Node>,
        ghost at: seq<nat>)
      requires Valid() && lvl < MAX_LEVEL && Path(mem, levels, path, at0, key, 0, level)
      modifies `level
      ensures level == (if lvl > old(level) then lvl else old(level)) && Path(mem, levels, update, at, key, 0, level)
      ensures Path(mem, levels, update, at, key, 0, lvl)
    {
      update, at := path, at0;
      if lvl > level {
        var i := level + 1;
        while i <= lvl
          invariant level < i <= lvl + 1 && Path(mem, levels, update, at, key, 0, i - 1)
        {
          ghost var update0, at1 := update, at;
          update := update[i := header];
          at := at[i := 0];
          assert forall j :: 0 <= j < i ==> Step(mem, levels, update0, at1, key, j) ==> Step(mem, levels, update, at, key, j);
          i := i + 1;
        }
        level := lvl;
      }
    }

    // ---- DEL ----

    /** Take z off level i, where it comes after the node u. */
    method Unlink(z: Node, u: Node, i: nat, ghost k: nat)
      requires Coupled() && Sound(mem, levels, header, z) && i < MAX_LEVEL
      requires k + 1 < |levels[i]| && levels[i][k + 1] == z && levels[i][k] == u
      modifies `mem, `levels, u`forward
      ensures Coupled() && Sound(mem, levels, header, z) && SameNodes(old(mem), mem) && mem.Keys == old(mem.Keys)
      ensures levels == old(levels)[i := Without(old(levels)[i], k)] && z !in Without(old(levels)[i], k)
    {
      UnlinkedSound(mem, levels, header, z, i, k);
      ghost var l := levels[i];
      hide Sound, Without, SameNodes;
      SetForward(u, i, z.forward[i]);
      levels := levels[i := Without(l, k)];
    }

    method UnlinkStep(z: Node, u: Node, ghost update: seq<Node>, ghost at: seq<nat>, i: nat)
      requires Coupled() && Unlinking(mem, levels, header, z, update, at, i, level) && i <= level && u == update[i]
      requires |levels| == MAX_LEVEL + 1 && |at| == MAX_LEVEL
      requires at[i] + 1 < |levels[i]| && levels[i][at[i] + 1] == z && levels[i][at[i]] == u
      modifies `mem, `levels, u`forward
      ensures Coupled() && Unlinking(mem, levels, header, z, update, at, i + 1, level)
      ensures SameNodes(old(mem), mem) && mem.Keys == old(mem.Keys)
      ensures levels == old(levels)[i := Without(old(levels)[i], at[i])]
    {
      hide SameNodes, Sound, Without, Step, Path;
      ghost var m, ls := mem, levels;
      Unlink(z, u, i, at[i]);
      UnlinkingOn(m, mem, ls, header, z, update, at, i, level);
    }

    /** Take z off every level, from the bottom up, until one does not have it. */
    method UnlinkAll(z: Node, update: seq<Node>, ghost at: seq<nat>)
      requires Coupled() && Unlinking(mem, levels, header, z, update, at, 0, level)
      modifies `mem, `levels, mem.Keys`forward
      ensures Coupled() && Sound(mem - {z}, levels, header, null) && SameNodes(old(mem), mem) && mem.Keys == old(mem.Keys)
      ensures |at| > 0 && at[0] + 1 < |old(levels)[0]| && old(levels)[0][at[0] + 1] == z
      ensures levels[0] == Without(old(levels)[0], at[0])
      ensures forall j :: level < j < |levels| ==> levels[j] == [header]
    {
      hide SameNodes, Unlinking, Without, Coupled, Forward, Sound;
      UnlinkingTest(mem, levels, header, z, update, at, 0, level);
      UnlinkingNode(mem, levels, header, z, update, at, level);
      ghost var all := levels;
      var i := 0;
      while i <= level
        invariant |levels| == MAX_LEVEL + 1 && |update| == |at| == MAX_LEVEL
        invariant i <= level + 1 <= MAX_LEVEL && Coupled() && Unlinking(mem, levels, header, z, update, at, i, level)
        invariant mem.Keys == old(mem.Keys) && SameNodes(old(mem), mem) && (i == 0 ==> mem == old(mem))
        invariant levels[0] == if i == 0 then all[0] else Without(all[0], at[0])
      {
        UnlinkingTest(mem, levels, header, z, update, at, i, level);
        if Forward(update[i], i) != z {
          break;
        }
        ghost var m := mem;
        UnlinkStep(z, update[i], update, at, i);
        SameNodesTrans(old(mem), m, mem);
        i := i + 1;
      }
      UnlinkingEnds(mem, levels, header, z, update, at, i, level);
    }

    method Del(key: Option<Str>) returns (ret: int)
      requires Valid()
      modifies this, mem.Keys
      ensures Valid() && mem.Keys <= old(mem.Keys)
      ensures key.None? ==> ret == -1 && Contents() == old(Contents())
      ensures key.Some? ==>
        && ret == (if key.value in old(Contents()) then 0 else 1)
        && Contents() == AfterDel(old(Contents()), key.value)
    {
      if key.None? {
        return -1;
      }
      var current, update, at := FindPath(key.value);
      if current == null || !Same(current.key, key.value) {
        return 1;
      }
      Remove(current, update, at);
      Shrink();
      return 0;
    }

    /** Unlink and free a node that the path leads to. */
    method Remove(z: Node, update: seq<Node>, ghost at: seq<nat>)
      requires Valid() && z in mem && z != header && Path(mem, levels, update, at, mem[z].key, 0, level)
      modifies `mem, `levels, mem.Keys`forward
      ensures Coupled() && Sound(mem, levels, header, null) && mem.Keys <= old(mem.Keys)
      ensures |levels[0]| > 0 && Contents() == old(Contents()) - {old(mem)[z].key}
      ensures forall j :: level < j < |levels| ==> levels[j] == [header]
    {
      hide Sound, Tight, Path, Unlinking, SameNodes, Without, Level, MapOf, Bindings;
      ghost var m, ls := mem, levels;
      LowestLevel(m, ls, header);
      UnlinkingStarts(mem, levels, header, z, update, at, level);
      UnlinkAll(z, update, at);
      UnlinkedMap(m, mem, ls[0], at[0], z, header);
      mem := mem - {z};
    }

    /** Lower the current level to the highest one in use. */
    method Shrink()
      requires Coupled() && Sound(mem, levels, header, null) && level < MAX_LEVEL
      requires forall j :: level < j < |levels| ==> levels[j] == [header]
      modifies `level
      ensures Valid()
    {
      HeaderLink(mem, levels, header, level);
      while level > 0 && header.forward[level] == null
        invariant level < MAX_LEVEL
        invariant forall j :: level < j < |levels| ==> levels[j] == [header]
      {
        HeaderLink(mem, levels, header, level);
        level := level - 1;
      }
      HeaderLink(mem, levels, header, level);
    }

    // ---- MOD, EXIST ----

    method Mod(key: Option<Str>, value: Option<Str>) returns (ret: int)
      requires Valid()
      modifies this, mem.Keys
      ensures Valid() && mem.Keys == old(mem.Keys)
      ensures key.None? || value.None? ==> ret == -1 && Contents() == old(Contents())
      ensures key.Some? && value.Some? ==>
        && ret == (if key.value in old(Contents()) then 0 else 1)
        && Contents() == AfterMod(old(Contents()), key.value, value.value)
    {
      if key.None? || value.None? {
        return -1;
      }
      var current, update, at := FindPath(key.value);
      if current == null || !Same(current.key, key.value) {
        return 1;
      }
      assert Step(mem, levels, update, at, key.value, 0);
      PutValue(current, at[0], value.value);
      return 0;
    }

    /** Another value for the node after number k of the lowest level. */
    method PutValue(n: Node, ghost k: nat, v: Str)
      requires Valid() && n in mem && k + 1 < |levels[0]| && n == levels[0][k + 1]
      modifies `mem, n`value
      ensures Valid() && mem.Keys == old(mem.Keys) && Contents() == old(Contents())[old(mem)[n].key := v]
    {
      hide Tight, Level, MapOf;
      assert Level(mem, levels[0], 0, header);
      RevaluedSound(mem, levels, header, n, v);
      RevaluedMap(mem, levels[0], k, header, v);
      n.value := v;
      mem := mem[n := mem[n].(value := v)];
    }

    method Exist(key: Option<Str>) returns (ret: int)
      requires Valid()
      ensures ret == if key.None? then -1 else if key.value in Contents() then 0 else 1
    {
      if key.None? {
        return -1;
      }
      var value := Get(key);
      return if value.None? then 1 else 0;
    }

    /** What the engine keeps: an ascending lowest level, each level part of the one below, none in use above. */
    lemma Shape(i: nat)
      requires Valid() && i < MAX_LEVEL
      ensures Sorted(Bindings(mem, levels[0])) && Subsequence(levels[i + 1], levels[i])
      ensures i > level ==> header.forward[i] == null
      ensures level > 0 ==> header.forward[level] != null
    {
      assert Level(mem, levels[0], 0, header);
      LevelsNest(mem, levels, header, i);
      HeaderLink(mem, levels, header, i);
      HeaderLink(mem, levels, header, level);
    }
  }
}
