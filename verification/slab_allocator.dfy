/** The slab allocator. */
module SlabAllocator {
  import opened Kv
  import opened SlabLists
  import opened SlabBoard
  import opened SlabBlocks

  const MAX_EMPTY_SLABS := 1
  const SIZE_MAX: nat := 0xFFFF_FFFF_FFFF_FFFF

  function AlignUp(x: nat): nat { (x + ALIGN_SIZE - 1) / ALIGN_SIZE * ALIGN_SIZE }

  /** Clearing the low bits of an address. */
  function PtrToSlab(ptr: nat): nat { ptr / SLAB_SIZE_ALIGNMENT * SLAB_SIZE_ALIGNMENT }

  /** The header of a block: its class and its slab. */
  datatype Header = Header(cls: nat, slab: Slab)

  ghost function RecOf(s: Slab): Rec
    reads s
  {
    Rec(s.prev, s.next, s.mem, s.freeBlocks, s.totalBlocks, s.freeList, s.headerless, s.classId)
  }

  /** The live blocks, by slab and number. */
  ghost function LiveBlocks(lives: map<Slab, set<nat>>): set<(Slab, nat)> {
    set s, i | s in lives && i in lives[s] :: (s, i)
  }

  /** All but the links between slabs is as it was. */
  ghost predicate SameSlabs(m: Mem, m': Mem) {
    m'.Keys == m.Keys && forall s :: s in m ==> m'[s].(prev := null, next := null) == m[s].(prev := null, next := null)
  }

  /** Some slab belongs on that list. */
  ghost predicate HasSlab(m: Mem, p: Place) { exists s :: s in m && Home(m[s]) == p }

  /** Some slab of the class has a free block. */
  ghost predicate HasRoom(m: Mem, cls: nat) { exists s :: s in m && m[s].cls == cls && m[s].free > 0 }

  /** The slabs after a block of z was given back: z goes if that was its last live block and another slab is spare. */
  ghost function LeftOver(m: Mem, z: Slab): set<Slab>
    requires z in m
  {
    if m[z].free + 1 == m[z].total && HasSpare(m, m[z].cls, z) then m.Keys - {z} else m.Keys
  }

  /** Some slab of the class other than z has no live block. */
  ghost predicate HasSpare(m: Mem, cls: nat, z: Slab) {
    exists s :: s in m && s != z && m[s].cls == cls && m[s].free == m[s].total
  }

  /** A slab for a block: a partial one if there is any, else an empty one, and a new one only if there is neither. */
  ghost predicate Picked(m: Mem, m': Mem, cls: nat, z: Slab) {
    if HasSlab(m, Place(cls, Partial)) then m'.Keys == m.Keys && z in m && Home(m[z]) == Place(cls, Partial)
    else if HasSlab(m, Place(cls, Empty)) then m'.Keys == m.Keys && z in m && Home(m[z]) == Place(cls, Empty)
    else m'.Keys == m.Keys + {z} && z !in m
  }

  class Allocator {
    const classes: array<Pool>
    /** The words of memory that the allocator wrote. */
    var word: Words
    /** The headers in memory, by address, and the slab records in memory, by address. */
    var header: map<nat, Header>
    var record: map<nat, Slab>
    ghost var mem: Mem
    ghost var lists: Lists
    /** The free blocks of each slab in the order of its list, and its live blocks. */
    ghost var frees: map<Slab, seq<nat>>
    ghost var lives: map<Slab, set<nat>>

    ghost predicate Coupled()
      reads `mem, mem.Keys
    {
      forall s :: s in mem ==> mem[s] == RecOf(s)
    }

    ghost predicate Valid()
      reads this, classes, mem.Keys
    {
      && Coupled() && Board(mem, classes[..], lists, null) && Blocks(word, mem, frees, lives)
      && Counts(classes[..], lists) && Findable(mem, lives, header, record)
    }

    /** All is in order but that z is on the list at, or on none, whatever its free count. */
    ghost predicate Mid(z: Slab, at: Option<Place>)
      reads this, classes, mem.Keys
    {
      Coupled() && z in mem && Board(mem, classes[..], lists, z) && Located(lists, z, at) && Blocks(word, mem, frees, lives)
    }

    function NextOf(s: Slab): (r: Slab?)
      requires Coupled() && s in mem
      reads this, mem.Keys, s
      ensures r == mem[s].next
    {
      s.next
    }

    function PrevOf(s: Slab): (r: Slab?)
      requires Coupled() && s in mem
      reads this, mem.Keys, s
      ensures r == mem[s].prev
    {
      s.prev
    }

    function FreeListOf(s: Slab): (r: nat)
      requires Coupled() && s in mem
      reads this, mem.Keys, s
      ensures r == mem[s].list
    {
      s.freeList
    }

    function FreeBlocksOf(s: Slab): (r: int)
      requires Coupled() && s in mem
      reads this, mem.Keys, s
      ensures r == mem[s].free
    {
      s.freeBlocks
    }

    function TotalBlocksOf(s: Slab): (r: int)
      requires Coupled() && s in mem
      reads this, mem.Keys, s
      ensures r == mem[s].total
    {
      s.totalBlocks
    }

    method SetFree(s: Slab, blocks: int, first: nat)
      requires Coupled() && s in mem
      modifies `mem, s`freeBlocks, s`freeList
      ensures Coupled() && mem == old(mem)[s := old(mem)[s].(free := blocks, list := first)]
      ensures mem.Keys == old(mem.Keys)
    {
      s.freeList := first;
      s.freeBlocks := blocks;
      mem := mem[s := mem[s].(free := blocks, list := first)];
    }

    method SetPrevOf(s: Slab, x: Slab?)
      requires Coupled() && s in mem
      modifies `mem, s`prev
      ensures Coupled() && mem == SetPrev(old(mem), s, x) && mem.Keys == old(mem.Keys)
    {
      s.prev := x;
      mem := mem[s := mem[s].(prev := x)];
    }

    method SetNextOf(s: Slab, x: Slab?)
      requires Coupled() && s in mem
      modifies `mem, s`next
      ensures Coupled() && mem == SetNext(old(mem), s, x) && mem.Keys == old(mem.Keys)
    {
      s.next := x;
      mem := mem[s := mem[s].(next := x)];
    }

    /** The pointer writes that put z in front of head. */
    method LinkFront(z: Slab, head: Slab?)
      requires Coupled() && z in mem && (head != null ==> head in mem)
      modifies `mem, mem.Keys`prev, mem.Keys`next
      ensures Coupled() && mem == Inserted(old(mem), head, z) && mem.Keys == old(mem.Keys)
    {
      hide Coupled;
      if head != null {
        SetPrevOf(head, z);
      }
      SetPrevOf(z, null);
      SetNextOf(z, head);
    }

    /** Put z in front of a list. */
    method Insert(p: Place, z: Slab)
      requires Mid(z, None) && Exists(p)
      modifies classes, `mem, `lists, mem.Keys`prev, mem.Keys`next
      ensures Mid(z, Some(p)) && SameSlabs(old(mem), mem) && mem.Keys == old(mem.Keys)
      ensures p in old(lists) && lists == old(lists)[p := [z] + old(lists)[p]]
      ensures SameCounts(classes[..], old(classes[..]))
    {
      hide Board, Located, Blocks, WithHead, Coupled, Inserted, SameSlabs, Head;
      ghost var m, pools := mem, classes[..];
      InsertKeeps(m, pools, lists, z, p);
      BoardSize(m, pools, lists, z);
      var head := Head(classes[..], p);
      InsertedSame(m, head, z);
      LinkFront(z, head);
      SameSlabsKeep(word, m, mem, frees, lives);
      PutHead(p, z);
      WithHeadCounts(pools, p, z);
      lists := lists[p := [z] + lists[p]];
    }

    method PutHead(p: Place, s: Slab?)
      requires p.cls < classes.Length
      modifies classes
      ensures classes[..] == WithHead(old(classes[..]), p, s)
    {
      var pool := classes[p.cls];
      classes[p.cls] := match p.kind case Empty => pool.(empty := s) case Partial => pool.(partial := s) case Full => pool.(full := s);
    }

    /** The pointer writes that take z from between its neighbours. */
    method Unlink(z: Slab)
      requires Coupled() && z in mem
      requires (mem[z].next != null ==> mem[z].next in mem) && (mem[z].prev != null ==> mem[z].prev in mem)
      modifies `mem, mem.Keys`prev, mem.Keys`next
      ensures Coupled() && mem == Removed(old(mem), z) && mem.Keys == old(mem.Keys)
    {
      hide Coupled, NextOf, PrevOf;
      var prev, next := PrevOf(z), NextOf(z);
      if next != null {
        SetPrevOf(next, prev);
      }
      if prev != null {
        SetNextOf(prev, next);
      }
      SetPrevOf(z, null);
      SetNextOf(z, null);
    }

    /** Take z, the slab number k of a list, off that list. */
    method Remove(p: Place, z: Slab, ghost k: nat)
      requires Mid(z, Some(p)) && Exists(p) && p in lists && k < |lists[p]| && lists[p][k] == z
      modifies classes, `mem, `lists, mem.Keys`prev, mem.Keys`next
      ensures Mid(z, None) && SameSlabs(old(mem), mem) && mem.Keys == old(mem.Keys)
      ensures lists == old(lists)[p := Without(old(lists)[p], k)] && SameCounts(classes[..], old(classes[..]))
    {
      hide Board, Located, Blocks, WithHead, Coupled, Removed, SameSlabs, Head, Without, NextOf;
      ghost var m, pools := mem, classes[..];
      RemoveKeeps(m, pools, lists, z, p, k);
      BoardSize(m, pools, lists, z);
      var head := Head(classes[..], p);
      RemovedSame(m, z);
      var rest := if head == z then NextOf(z) else head;
      Unlink(z);
      SameSlabsKeep(word, m, mem, frees, lives);
      PutHead(p, rest);
      WithHeadCounts(pools, p, rest);
      lists := lists[p := Without(lists[p], k)];
    }

    // ---- taking and giving back a block ----

    /** Take the first free block of z. */
    method Pop(z: Slab, ghost at: Option<Place>) returns (a: nat)
      requires Mid(z, at) && z in frees && |frees[z]| > 0
      modifies `mem, `frees, `lives, z`freeBlocks, z`freeList
      ensures Mid(z, at) && mem.Keys == old(mem.Keys) && old(mem)[z].list in word
      ensures mem == old(mem)[z := Popped(word, old(mem)[z])]
      ensures z in old(lives) && frees == old(frees)[z := old(frees)[z][1..]]
      ensures lives == old(lives)[z := old(lives)[z] + {old(frees)[z][0]}]
      ensures mem[z].cls < CLASS_COUNT && a == Addr(mem[z].base, mem[z].cls, old(frees)[z][0])
    {
      hide Board, Located, Blocks, Addr, Coupled, FreeListOf, FreeBlocksOf;
      PopKeeps(word, mem, frees, lives, z);
      SlabKeys(word, mem, frees, lives);
      Touched(mem, classes[..], lists, z, Popped(word, mem[z]));
      a := FreeListOf(z);
      SetFree(z, FreeBlocksOf(z) - 1, word[a]);
      lives := lives[z := lives[z] + {frees[z][0]}];
      frees := frees[z := frees[z][1..]];
    }

    /** Put the live block i of z, at address a, on its free list. */
    method Push(z: Slab, ghost at: Option<Place>, ghost i: nat, a: nat)
      requires Mid(z, at) && z in lives && i in lives[z] && mem[z].cls < CLASS_COUNT
      requires a == Addr(mem[z].base, mem[z].cls, i)
      modifies `mem, `frees, `lives, `word, z`freeBlocks, z`freeList
      ensures Mid(z, at) && mem.Keys == old(mem.Keys) && mem == old(mem)[z := Pushed(old(mem)[z], a)]
      ensures z in old(frees) && frees == old(frees)[z := [i] + old(frees)[z]]
      ensures lives == old(lives)[z := old(lives)[z] - {i}]
    {
      hide Board, Located, Blocks, Addr, Coupled, FreeListOf, FreeBlocksOf;
      PushKeeps(word, mem, frees, lives, z, i);
      SlabKeys(word, mem, frees, lives);
      Touched(mem, classes[..], lists, z, Pushed(mem[z], a));
      word := word[a := FreeListOf(z)];
      SetFree(z, FreeBlocksOf(z) + 1, a);
      lives := lives[z := lives[z] - {i}];
      frees := frees[z := [i] + frees[z]];
    }

    // ---- new slabs ----

    /** Link all blocks of a new slab into its free list, in order. */
    method BuildFreeList(base: nat, cls: nat) returns (first: nat)
      requires cls < CLASS_COUNT
      modifies `word
      ensures first == Addr(base, cls, 0) && FreeChain(word, base, cls, first, Iota(Total(cls)))
      ensures forall a :: a in old(word) && !(base <= a < base + Extent(cls)) ==> a in word && word[a] == old(word)[a]
    {
      hide Extent, SizeOf, Lead;
      TotalPositive(cls);
      var size, total := SizeOf(cls), Total(cls);
      first := base + Lead(cls);
      var curr := first;
      var j := 0;
      assert curr == Addr(base, cls, 0);
      while j < total - 1
        invariant 0 <= j <= total - 1 && curr == Addr(base, cls, j)
        invariant forall k :: 0 <= k < j ==> Addr(base, cls, k) in word && word[Addr(base, cls, k)] == Addr(base, cls, k + 1)
        invariant forall a :: a in old(word) && !(base <= a < base + Extent(cls)) ==> a in word && word[a] == old(word)[a]
      {
        NextBlock(base, cls, j);
        BlockInside(base, cls, j);
        forall k | 0 <= k < j ensures Addr(base, cls, k) != curr { BlocksApart(base, cls, k, j); SizePositive(cls); }
        word := word[curr := curr + size];
        curr := curr + size;
        j := j + 1;
      }
      BlockInside(base, cls, j);
      SizePositive(cls);
      forall k | 0 <= k < j ensures Addr(base, cls, k) != curr { BlocksApart(base, cls, k, j); }
      word := word[curr := 0];
      ghost var f := Iota(total);
      forall k | 0 <= k < |f| ensures FreeLink(word, base, cls, f, k) {}
    }

    /** A new slab of a class, in memory from the system, on no list yet. */
    method NewSlab(cls: nat, region: nat) returns (z: Slab)
      requires Valid() && cls < CLASS_COUNT && FreeRegion(mem, region)
      modifies `word, `record, `mem, `frees, `lives
      ensures fresh(z) && Mid(z, None) && mem.Keys == old(mem.Keys) + {z} && LiveBlocks(lives) == LiveBlocks(old(lives))
      ensures Findable(mem, lives, header, record)
      ensures mem[z] == NewRec(region, cls) && mem[z].cls == cls && z in frees && |frees[z]| > 1
    {
      hide Board, Located, Blocks, FreeChain, Extent, Addr, Findable, FreeRegion, BaseIn, IsHeaderless, Total, LiveBlocks;
      ghost var word0 := word;
      var base := BaseIn(region, cls);
      var first := BuildFreeList(base, cls);
      z := new Slab(base, Total(cls), first, IsHeaderless(cls), cls);
      NewSlabKeeps(word0, word, mem, frees, lives, region, cls, z);
      NewFindable(word0, mem, frees, lives, header, record, region, cls, z);
      if IsHeaderless(cls) {
        record := record[base := z];
      }
      Adopt(z, region, cls);
    }

    /** Count a new slab among the others. */
    ghost method Adopt(z: Slab, region: nat, cls: nat)
      requires Coupled() && z !in mem && cls < CLASS_COUNT && RecOf(z) == NewRec(region, cls)
      requires Board(mem, classes[..], lists, null)
      requires Blocks(word, mem[z := NewRec(region, cls)], frees[z := Iota(Total(cls))], lives[z := {}])
      requires z in lives ==> lives[z] == {}
      modifies `mem, `frees, `lives
      ensures Mid(z, None) && mem == old(mem)[z := NewRec(region, cls)] && mem.Keys == old(mem.Keys) + {z}
      ensures frees == old(frees)[z := Iota(Total(cls))] && lives == old(lives)[z := {}]
      ensures LiveBlocks(lives) == LiveBlocks(old(lives))
      ensures z in frees && |frees[z]| > 1
    {
      hide Board, Located, Blocks, NewRec, LiveBlocks, Total;
      Joined(mem, classes[..], lists, z, NewRec(region, cls));
      NoneLive(lives, z);
      TotalPositive(cls);
      mem, frees, lives := mem[z := NewRec(region, cls)], frees[z := Iota(Total(cls))], lives[z := {}];
    }

    method AddCount(cls: nat, d: int, ghost z: Slab, ghost at: Option<Place>)
      requires Mid(z, at) && cls < CLASS_COUNT && classes.Length == CLASS_COUNT
      modifies classes
      ensures Mid(z, at) && CountAdded(old(classes[..]), classes[..], cls, d)
    {
      hide Board, Located, Blocks, Coupled;
      ghost var pools := classes[..];
      classes[cls] := classes[cls].(emptyCount := classes[cls].emptyCount + d);
      SameHeads(mem, pools, classes[..], lists, z);
    }

    /** Move the slab number k of a class's empty slabs to the partial ones. */
    method StartUsing(cls: nat, z: Slab, ghost k: nat)
      requires cls < CLASS_COUNT && Mid(z, Some(Place(cls, Empty))) && Counts(classes[..], lists)
      requires Place(cls, Empty) in lists && k < |lists[Place(cls, Empty)]| && lists[Place(cls, Empty)][k] == z
      modifies classes, `mem, `lists, mem.Keys`prev, mem.Keys`next
      ensures Mid(z, Some(Place(cls, Partial))) && Counts(classes[..], lists)
      ensures SameSlabs(old(mem), mem) && mem.Keys == old(mem.Keys)
    {
      hide Board, Located, Blocks, Coupled, SameSlabs;
      ghost var m0, pools, ls := mem, classes[..], lists;
      Remove(Place(cls, Empty), z, k);
      ghost var m1, ls1 := mem, lists;
      Insert(Place(cls, Partial), z);
      SameSlabsTrans(m0, m1, mem);
      ghost var pools1 := classes[..];
      AddCount(cls, -1, z, Some(Place(cls, Partial)));
      CountsMoved(pools, ls, ls1, pools1, lists, classes[..], cls, k);
    }

    /** A slab of the class with a free block, on the list of partial slabs. */
    method TakeSlab(cls: nat, region: nat) returns (z: Slab)
      requires Valid() && cls < CLASS_COUNT && FreeRegion(mem, region)
      modifies classes, `word, `record, `mem, `frees, `lives, `lists, mem.Keys`prev, mem.Keys`next
      ensures Mid(z, Some(Place(cls, Partial))) && Counts(classes[..], lists) && Findable(mem, lives, header, record)
      ensures mem[z].cls == cls && z in frees && |frees[z]| > 0
      ensures LiveBlocks(lives) == LiveBlocks(old(lives)) && fresh(mem.Keys - old(mem.Keys)) && Picked(old(mem), mem, cls, z)
      ensures z in old(mem) ==> frees == old(frees)
    {
      hide Board, Located, Blocks, Coupled, SameSlabs, Findable, FreeRegion, LiveBlocks, NewRec, HasSlab;
      BoardSize(mem, classes[..], lists, null);
      ListedExactly(mem, classes[..], lists, Place(cls, Partial));
      ListedExactly(mem, classes[..], lists, Place(cls, Empty));
      if classes[cls].partial != null {
        z := classes[cls].partial;
        HeadAside(mem, classes[..], lists, Place(cls, Partial), z);
        HasFree(word, mem, frees, lives, z);
      } else if classes[cls].empty != null {
        z := classes[cls].empty;
        HeadAside(mem, classes[..], lists, Place(cls, Empty), z);
        HasFree(word, mem, frees, lives, z);
        ghost var m := mem;
        StartUsing(cls, z, 0);
        SameFindable(m, mem, lives, header, record);
        SameSlabsAt(m, mem, z);
      } else {
        z := TakeNew(cls, region);
      }
    }

    method TakeNew(cls: nat, region: nat) returns (z: Slab)
      requires Valid() && cls < CLASS_COUNT && FreeRegion(mem, region) && classes.Length == CLASS_COUNT
      requires classes[cls].empty == null
      modifies classes, `word, `record, `mem, `frees, `lives, `lists, mem.Keys`prev, mem.Keys`next
      ensures Mid(z, Some(Place(cls, Partial))) && Counts(classes[..], lists) && Findable(mem, lives, header, record)
      ensures mem[z].cls == cls && z in frees && |frees[z]| > 0
      ensures LiveBlocks(lives) == LiveBlocks(old(lives)) && fresh(mem.Keys - old(mem.Keys))
      ensures mem.Keys == old(mem.Keys) + {z} && z !in old(mem)
    {
      hide Board, Located, Blocks, Coupled, SameSlabs, Findable, FreeRegion, LiveBlocks, NewRec, Counts, Allocator.Mid, SameCounts, CountAdded;
      ghost var pools, ls := classes[..], lists;
      NoEmpty(mem, pools, ls, cls);
      z := NewSlab(cls, region);
      ghost var m := mem;
      Insert(Place(cls, Empty), z);
      ghost var pools1 := classes[..];
      AddCount(cls, 1, z, Some(Place(cls, Empty)));
      CountsGrown(pools, ls, pools1, lists, classes[..], cls, z);
      ghost var m1 := mem;
      StartUsing(cls, z, 0);
      SameSlabsTrans(m, m1, mem);
      SameFindable(m, mem, lives, header, record);
      SameSlabsAt(m, mem, z);
    }

    /** After a block was taken: write its header if the class has one, and move a slab that ran full. */
    method FinishTaking(cls: nat, z: Slab, ghost i: nat, a: nat)
      requires cls < CLASS_COUNT && Mid(z, Some(Place(cls, Partial))) && Counts(classes[..], lists) && mem[z].cls == cls
      requires Taken(mem, lives, header, record, z, i) && a == Addr(mem[z].base, cls, i) && mem[z].free < mem[z].total
      modifies classes, `header, `mem, `lists, mem.Keys`prev, mem.Keys`next
      ensures Valid() && SameSlabs(old(mem), mem) && mem.Keys == old(mem.Keys)
    {
      hide Board, Located, Blocks, Coupled, SameSlabs, Findable, Counts, Taken, Addr, IsHeaderless, FreeBlocksOf, HasHeader;
      ghost var m0 := mem;
      TakenFindable(word, mem, frees, lives, header, record, z, i);
      if !IsHeaderless(cls) {
        header := header[a := Header(cls, z)];
      }
      SameSlabsSelf(mem);
      if FreeBlocksOf(z) == 0 {
        Move(z, Place(cls, Partial), Place(cls, Full));
        SameFindable(m0, mem, lives, header, record);
        SameSlabsAt(m0, mem, z);
      }
      Settled(mem, classes[..], lists, z);
    }

    /** Take a block of a class. */
    method Allocate(cls: nat, region: nat) returns (a: nat, ghost z: Slab, ghost i: nat)
      requires Valid() && cls < CLASS_COUNT && FreeRegion(mem, region)
      modifies this, classes, mem.Keys
      ensures Valid() && fresh(mem.Keys - old(mem.Keys))
      ensures Picked(old(mem), mem, cls, z) && (z in old(mem) ==> z in old(frees) && |old(frees)[z]| > 0 && i == old(frees)[z][0])
      ensures z in mem && mem[z].cls == cls && a == Addr(mem[z].base, cls, i)
      ensures (z, i) !in LiveBlocks(old(lives)) && LiveBlocks(lives) == LiveBlocks(old(lives)) + {(z, i)}
    {
      hide Board, Located, Blocks, Coupled, SameSlabs, Findable, Counts, Taken, Addr, FreeRegion, LiveBlocks, HasSlab, Home;
      var slab := TakeSlab(cls, region);
      z := slab;
      i := frees[z][0];
      ghost var m, ls := mem, lives;
      FirstIsFree(word, mem, frees, lives, z);
      a := Pop(slab, Some(Place(cls, Partial)));
      OneMoreLive(ls, z, i);
      PopTaken(m, mem, ls, lives, header, record, z, i);
      ghost var m1 := mem;
      FinishTaking(cls, slab, i, a);
      SameSlabsAt(m1, mem, z);
    }

    // ---- giving a block back ----

    /** Move the slab from one list to another. */
    method Move(z: Slab, from: Place, to: Place)
      requires Exists(from) && Exists(to) && from != to && from.kind != Empty && to.kind != Empty
      requires Mid(z, Some(from)) && Counts(classes[..], lists)
      modifies classes, `mem, `lists, mem.Keys`prev, mem.Keys`next
      ensures Mid(z, Some(to)) && Counts(classes[..], lists) && SameSlabs(old(mem), mem) && mem.Keys == old(mem.Keys)
    {
      hide Board, Located, Blocks, Coupled, SameSlabs, Counts;
      ghost var m0, pools, ls := mem, classes[..], lists;
      ghost var k := IndexOn(mem, classes[..], lists, z, from);
      Remove(from, z, k);
      ghost var m1, pools1 := mem, classes[..];
      Insert(to, z);
      SameSlabsTrans(m0, m1, mem);
      CountsSame(pools, ls, pools1, classes[..], lists);
    }

    /** Keep an empty slab, on the list of empty ones. */
    method KeepEmpty(cls: nat, z: Slab)
      requires cls < CLASS_COUNT && Mid(z, Some(Place(cls, Partial))) && Counts(classes[..], lists)
      requires classes.Length == CLASS_COUNT && classes[cls].emptyCount < MAX_EMPTY_SLABS
      modifies classes, `mem, `lists, mem.Keys`prev, mem.Keys`next
      ensures Mid(z, Some(Place(cls, Empty))) && Counts(classes[..], lists) && SameSlabs(old(mem), mem)
      ensures mem.Keys == old(mem.Keys)
    {
      hide Board, Located, Blocks, Coupled, SameSlabs;
      ghost var m0, pools, ls := mem, classes[..], lists;
      ghost var k := IndexOn(mem, classes[..], lists, z, Place(cls, Partial));
      Remove(Place(cls, Partial), z, k);
      ghost var m1, pools1, ls1 := mem, classes[..], lists;
      Insert(Place(cls, Empty), z);
      SameSlabsTrans(m0, m1, mem);
      ghost var pools2 := classes[..];
      AddCount(cls, 1, z, Some(Place(cls, Empty)));
      CountsKept(pools, ls, pools1, ls1, pools2, lists, classes[..], cls, z);
    }

    /** Give an empty slab back to the system. */
    method Release(cls: nat, z: Slab)
      requires cls < CLASS_COUNT && Mid(z, Some(Place(cls, Partial))) && Counts(classes[..], lists)
      requires Findable(mem, lives, header, record) && mem[z].free == mem[z].total
      modifies classes, `mem, `lists, `frees, `lives, mem.Keys`prev, mem.Keys`next
      ensures Valid() && mem.Keys == old(mem.Keys) - {z} && LiveBlocks(lives) == LiveBlocks(old(lives))
    {
      hide Board, Located, Blocks, Coupled, SameSlabs, Counts, Findable, LiveBlocks;
      ghost var m0, pools, ls := mem, classes[..], lists;
      ghost var k := IndexOn(mem, classes[..], lists, z, Place(cls, Partial));
      Remove(Place(cls, Partial), z, k);
      SameCountsSelf(classes[..]);
      CountsSame(pools, ls, classes[..], classes[..], lists);
      SameFindable(m0, mem, lives, header, record);
      SameSlabsAt(m0, mem, z);
      Forget(z);
    }

    /** An empty slab on no list is no more. */
    ghost method Forget(z: Slab)
      requires Mid(z, None) && Counts(classes[..], lists) && Findable(mem, lives, header, record)
      requires mem[z].free == mem[z].total
      modifies `mem, `frees, `lives
      ensures Valid() && mem.Keys == old(mem.Keys) - {z} && LiveBlocks(lives) == LiveBlocks(old(lives))
    {
      hide Board, Located, Blocks, Counts, Findable, LiveBlocks;
      Gone(mem, classes[..], lists, z);
      DropKeeps(word, mem, frees, lives, z);
      AllFree(word, mem, frees, lives, z);
      DropFindable(mem, lives, header, record, z);
      DropLive(lives, z);
      mem, frees, lives := mem - {z}, frees - {z}, lives - {z};
    }

    /** After a block was given back: put its slab where it belongs now. */
    method SlabFree(cls: nat, z: Slab)
      requires cls < CLASS_COUNT && mem.Keys >= {z} && Mid(z, Some(Place(cls, if mem[z].free == 1 then Full else Partial)))
      requires Counts(classes[..], lists) && Findable(mem, lives, header, record) && mem[z].cls == cls
      requires mem[z].free > 0
      modifies classes, `mem, `lists, `frees, `lives, mem.Keys`prev, mem.Keys`next
      ensures Valid() && LiveBlocks(lives) == LiveBlocks(old(lives))
      ensures mem.Keys == if old(mem)[z].free == old(mem)[z].total && HasSpare(old(mem), cls, z) then old(mem.Keys) - {z} else old(mem.Keys)
    {
      hide Board, Located, Blocks, Coupled, SameSlabs, Counts, Findable, LiveBlocks, FreeBlocksOf, TotalBlocksOf, HasSpare;
      ghost var m0 := mem;
      SameSlabsSelf(mem);
      BoardSize(mem, classes[..], lists, z);
      if FreeBlocksOf(z) == 1 {
        Move(z, Place(cls, Full), Place(cls, Partial));
      }
      SameFindable(m0, mem, lives, header, record);
      SameSlabsAt(m0, mem, z);
      if FreeBlocksOf(z) == TotalBlocksOf(z) {
        SameSpare(m0, mem, cls, z);
        SpareExactly(mem, classes[..], lists, z, cls);
        if classes[cls].emptyCount >= MAX_EMPTY_SLABS {
          Release(cls, z);
          return;
        }
        ghost var m1 := mem;
        KeepEmpty(cls, z);
        SameFindable(m1, mem, lives, header, record);
        SameSlabsAt(m1, mem, z);
      }
      Settled(mem, classes[..], lists, z);
    }

    /** Put the live block i of z, at address a, back; its header is overwritten. */
    method GiveBack(cls: nat, z: Slab, ghost i: nat, a: nat)
      requires Valid() && z in mem && (z, i) in LiveBlocks(lives) && cls == mem[z].cls < CLASS_COUNT
      requires a == Addr(mem[z].base, cls, i)
      modifies this, classes, mem.Keys
      ensures Valid() && LiveBlocks(lives) == LiveBlocks(old(lives)) - {(z, i)} && mem.Keys == LeftOver(old(mem), z)
    {
      hide Board, Located, Blocks, Coupled, SameSlabs, Counts, Findable, LiveBlocks, Addr;
      IsLive(lives, z, i);
      Aside(mem, classes[..], lists, z);
      NotFullyFree(word, mem, frees, lives, z, i);
      GivenFindable(word, mem, frees, lives, header, record, z, i);
      OneFewerLive(lives, z, i);
      header := header - {a};
      ghost var m, ls := mem, lives;
      Push(z, Some(Home(mem[z])), i, a);
      PushFindable(m, mem, ls[z := ls[z] - {i}], header, record);
      PushedSpare(m, mem, cls, z);
      SlabFree(cls, z);
    }

    method FreeWithHeader(ptr: nat, ghost z: Slab, ghost i: nat)
      requires Valid() && z in mem && mem[z].cls < CLASS_COUNT && !mem[z].headerless && (z, i) in LiveBlocks(lives)
      requires ptr == Addr(mem[z].base, mem[z].cls, i) + BLOCK_HEADER
      modifies this, classes, mem.Keys
      ensures Valid() && LiveBlocks(lives) == LiveBlocks(old(lives)) - {(z, i)} && mem.Keys == LeftOver(old(mem), z)
    {
      hide Board, Blocks, Coupled, Counts, LiveBlocks, Addr;
      IsLive(lives, z, i);
      var a := ptr - BLOCK_HEADER;
      assert HasHeader(mem[z], i, z, header);
      var h := header[a];
      GiveBack(h.cls, h.slab, i, a);
    }

    method FreeWithoutHeader(ptr: nat, ghost z: Slab, ghost i: nat)
      requires Valid() && z in mem && mem[z].cls < CLASS_COUNT && mem[z].headerless && (z, i) in LiveBlocks(lives)
      requires ptr == Addr(mem[z].base, mem[z].cls, i)
      modifies this, classes, mem.Keys
      ensures Valid() && LiveBlocks(lives) == LiveBlocks(old(lives)) - {(z, i)} && mem.Keys == LeftOver(old(mem), z)
    {
      hide Board, Blocks, LiveBlocks, Addr, Counts, PtrToSlab;
      IsLive(lives, z, i);
      Masked(word, mem, frees, lives, z, i);
      var slab := record[PtrToSlab(ptr)];
      GiveBack(slab.classId, slab, i, ptr);
    }

    // ---- the interface ----

    constructor ()
      ensures Valid() && mem == map[] && LiveBlocks(lives) == {} && fresh(classes)
    {
      classes := new Pool[CLASS_COUNT](i requires 0 <= i < CLASS_COUNT => Pool(SizeOf(i), 0, null, null, null));
      word, header, record := map[], map[], map[];
      mem, frees, lives := map[], map[], map[];
      lists := map p: Place | p in AllPlaces() :: [];
      new;
      hide SizeOf;
      forall p | Exists(p) ensures ListAt(mem, classes[..], lists, p) {
        PlaceListed(p);
      }
      forall c | 0 <= c < CLASS_COUNT ensures Place(c, Empty) in lists { PlaceListed(Place(c, Empty)); }
    }

    /** A block for size bytes; region is the memory that the system would give. */
    method Malloc(size: nat, region: nat) returns (ptr: nat, ghost block: Option<(Slab, nat)>)
      requires Valid() && FreeRegion(mem, region) && size + BLOCK_HEADER + ALIGN_SIZE <= SIZE_MAX
      modifies this, classes, mem.Keys
      ensures Valid() && fresh(mem.Keys - old(mem.Keys))
      ensures block.None? ==> mem == old(mem) && LiveBlocks(lives) == LiveBlocks(old(lives)) && ptr == if size == 0 then 0 else region + BLOCK_HEADER
      ensures block.None? <==> size == 0 || IsLarge(size)
      ensures block.Some? ==> var (z, i) := block.value;
        && z in mem && (z, i) !in LiveBlocks(old(lives)) && LiveBlocks(lives) == LiveBlocks(old(lives)) + {(z, i)}
        && mem[z].cls < CLASS_COUNT && Serves(mem[z], i, ptr, size) && mem[z].headerless == IsSmall(size)
        && forall j :: 0 <= j < mem[z].cls ==> SizeOf(j) < Needed(size)
      ensures block.Some? ==> var (z, _) := block.value;
        && z in mem && Picked(old(mem), mem, mem[z].cls, z)
        && mem.Keys == if HasRoom(old(mem), mem[z].cls) then old(mem.Keys) else old(mem.Keys) + {z}
    {
      hide Board, Blocks, Coupled, Counts, Findable, LiveBlocks, FreeRegion, Addr, IsHeaderless, AlignUp, Picked, HasRoom, SizeOf;
      block := None;
      ghost var word0, mem0, frees0, lives0 := word, mem, frees, lives;
      if size == 0 {
        return 0, block;
      }
      AlignedUp(size);
      AlignedUp(size + BLOCK_HEADER);
      if AlignUp(size) <= ALIGNMENT_THRESHOLD {
        var cls := GetClassId(AlignUp(size));
        SmallClass(AlignUp(size), cls);
        var a, z, i := Allocate(cls, region);
        HeaderlessIs(word, mem, frees, lives, z);
        PickedByRoom(word0, mem0, frees0, lives0, mem, cls, z);
        return a, Some((z, i));
      }
      var actual := AlignUp(size + BLOCK_HEADER);
      if actual > LARGE_THRESHOLD {
        return region + BLOCK_HEADER, block;
      }
      var cls := GetClassId(actual);
      BigClass(actual, cls);
      var a, z, i := Allocate(cls, region);
      HeaderlessIs(word, mem, frees, lives, z);
      PickedByRoom(word0, mem0, frees0, lives0, mem, cls, z);
      return a + BLOCK_HEADER, Some((z, i));
    }

    /** Give back a block of a slab; its kind is known to the caller. */
    method Free(ptr: nat, headerless: bool, ghost z: Slab, ghost i: nat)
      requires Valid() && z in mem && mem[z].cls < CLASS_COUNT && (z, i) in LiveBlocks(lives)
      requires headerless == mem[z].headerless && ptr == UserPtr(mem[z], i)
      modifies this, classes, mem.Keys
      ensures Valid() && LiveBlocks(lives) == LiveBlocks(old(lives)) - {(z, i)} && mem.Keys == LeftOver(old(mem), z)
    {
      hide Valid, LiveBlocks, Addr, LeftOver;
      if headerless {
        FreeWithoutHeader(ptr, z, i);
      } else {
        FreeWithHeader(ptr, z, i);
      }
    }

    /**
     * A caller writes n bytes at address a of its own block. Whatever that makes of the words, headers and
     * records that overlap those bytes, the allocator is not disturbed.
     */
    method Write(ghost z: Slab, ghost i: nat, ghost ptr: nat, ghost size: nat, a: nat, n: nat, words: Words,
        headers: map<nat, Header>, records: map<nat, Slab>)
      requires Valid() && z in mem && mem[z].cls < CLASS_COUNT && (z, i) in LiveBlocks(lives)
      requires Serves(mem[z], i, ptr, size) && ptr <= a && a + n <= ptr + size
      requires Stored(word, words, WORD, a, n) && Stored(header, headers, BLOCK_HEADER, a, n)
      requires Stored(record, records, SLAB_RECORD, a, n)
      modifies `word, `header, `record
      ensures Valid() && word == words && header == headers && record == records
    {
      hide Board, Blocks, Counts, Findable, LiveBlocks, Addr;
      IsLive(lives, z, i);
      WithinBlock(word, words, WORD, a, n, Addr(mem[z].base, mem[z].cls, i), SizeOf(mem[z].cls));
      UserWriteKeeps(word, mem, frees, lives, z, i, words);
      WriteFindable(words, mem, frees, lives, header, headers, record, records, z, i, ptr, size, a, n);
      word, header, record := words, headers, records;
    }

    /** In every reachable state, no two live blocks overlap. */
    lemma NoOverlap(s: Slab, i: nat, ptr: nat, size: nat, t: Slab, j: nat, ptr': nat, size': nat)
      requires Valid() && (s, i) in LiveBlocks(lives) && (t, j) in LiveBlocks(lives) && (s, i) != (t, j)
      requires s in mem && t in mem
      requires mem[s].cls < CLASS_COUNT && mem[t].cls < CLASS_COUNT && Serves(mem[s], i, ptr, size)
      requires Serves(mem[t], j, ptr', size')
      ensures Disjoint(ptr, size, ptr', size')
    {
      hide Board, Blocks, Counts, Findable, LiveBlocks, Addr;
      IsLive(lives, s, i);
      IsLive(lives, t, j);
      LiveBlocksApart(word, mem, frees, lives, s, i, t, j);
    }

    /** In every reachable state, a slab is on exactly one list, and its blocks are free or live, and not both. */
    lemma Partition(s: Slab)
      requires Valid() && s in mem
      ensures s in frees && s in lives && mem[s].cls < CLASS_COUNT
      ensures forall p :: Exists(p) && p in lists ==> (s in lists[p] <==> p == Place(mem[s].cls, KindOf(mem[s].free, mem[s].total)))
      ensures mem[s].free == |frees[s]| && Once(frees[s]) && mem[s].total == Total(mem[s].cls)
      ensures forall i :: (i in frees[s] || i in lives[s] <==> 0 <= i < Total(mem[s].cls)) && !(i in frees[s] && i in lives[s])
    {
      hide FreeLink, Counts, Findable, Total, ListAt;
      assert SlabOk(word, mem[s], frees[s], lives[s]);
      assert Located(lists, s, Some(Home(mem[s])));
    }
  }

  /** The bytes that a block needs for a request. */
  function Needed(size: nat): nat { if IsSmall(size) then AlignUp(size) else AlignUp(size + BLOCK_HEADER) }

  /** Served without a header; served by the C library. */
  predicate IsSmall(size: nat) { AlignUp(size) <= ALIGNMENT_THRESHOLD }

  predicate IsLarge(size: nat) { !IsSmall(size) && AlignUp(size + BLOCK_HEADER) > LARGE_THRESHOLD }

  /** The pointer that the caller of a block gets. */
  ghost function UserPtr(r: Rec, i: nat): nat
    requires r.cls < CLASS_COUNT
  {
    Addr(r.base, r.cls, i) + if r.headerless then 0 else BLOCK_HEADER
  }

  /** The block has room for size bytes from ptr on. */
  ghost predicate Serves(r: Rec, i: nat, ptr: nat, size: nat)
    requires r.cls < CLASS_COUNT
  {
    ptr == UserPtr(r, i) && ptr + size <= Addr(r.base, r.cls, i) + SizeOf(r.cls)
  }

  /** Which requests are served how, by their size. */
  lemma KindsBySize(size: nat)
    ensures IsSmall(size) <==> size <= 128
    ensures IsLarge(size) <==> size > 8168
    ensures size > 0 && !IsLarge(size) ==> size <= Needed(size) < size + if size <= 128 then 8 else 32
  {}

  /** From the second class on, no block is twice as large as what it is needed for; above 128 bytes, a quarter more at most. */
  lemma LittleWaste(need: nat, cls: nat)
    requires 0 < need && cls < CLASS_COUNT && need <= SizeOf(cls) && forall j :: 0 <= j < cls ==> SizeOf(j) < need
    ensures SizeOf(cls) == 8 || SizeOf(cls) < 2 * need
    ensures need > 128 ==> 4 * SizeOf(cls) < 5 * need
  {
    if cls > 0 {
      assert SizeOf(cls - 1) < need;
      NextClass(cls);
    }
  }

  lemma NextClass(cls: nat)
    requires 0 < cls < CLASS_COUNT
    ensures SizeOf(cls - 1) < SizeOf(cls) <= 2 * SizeOf(cls - 1)
    ensures SizeOf(cls) > 128 ==> 4 * SizeOf(cls) <= 5 * SizeOf(cls - 1)
  {}

  lemma AlignedUp(x: nat)
    ensures x <= AlignUp(x) < x + ALIGN_SIZE && AlignUp(x) % ALIGN_SIZE == 0
  {}

  /** The first class whose blocks are large enough. */
  method GetClassId(size: nat) returns (id: int)
    ensures size > LARGE_THRESHOLD ==> id == -1
    ensures size <= LARGE_THRESHOLD ==> 0 <= id < CLASS_COUNT && size <= SizeOf(id) && forall j :: 0 <= j < id ==> SizeOf(j) < size
  {
    for i := 0 to CLASS_COUNT
      invariant forall j :: 0 <= j < i ==> SizeOf(j) < size
    {
      if size <= SizeOf(i) {
        return i;
      }
    }
    assert SizeOf(CLASS_COUNT - 1) == LARGE_THRESHOLD;
    return -1;
  }

  /** Requests without and with a header never share a class. */
  lemma SmallClass(size: nat, cls: nat)
    requires size <= ALIGNMENT_THRESHOLD && cls < CLASS_COUNT && forall j :: 0 <= j < cls ==> SizeOf(j) < size
    ensures IsHeaderless(cls)
  {
    assert SizeOf(10) == ALIGNMENT_THRESHOLD;
    if cls <= 10 {
      Ascending(cls, 10);
    }
  }

  lemma BigClass(size: nat, cls: nat)
    requires size > ALIGNMENT_THRESHOLD && cls < CLASS_COUNT && size <= SizeOf(cls)
    ensures !IsHeaderless(cls)
  {}

  lemma Ascending(a: nat, b: nat)
    requires a <= b <= 10
    ensures SizeOf(a) <= SizeOf(b)
  {}

  lemma HeaderlessIs(word: Words, m: Mem, frees: map<Slab, seq<nat>>, lives: map<Slab, set<nat>>, z: Slab)
    requires Blocks(word, m, frees, lives) && z in m
    ensures m[z].cls < CLASS_COUNT && m[z].headerless == IsHeaderless(m[z].cls)
  {
    hide FreeChain, Parted;
    assert SlabOk(word, m[z], frees[z], lives[z]);
  }

  ghost function AllPlaces(): set<Place> {
    set c, k | 0 <= c < CLASS_COUNT && k in {Empty, Partial, Full} :: Place(c, k)
  }

  lemma PlaceListed(p: Place)
    requires Exists(p)
    ensures p in AllPlaces()
  {
    assert p.kind == Empty || p.kind == Partial || p.kind == Full;
    assert p == Place(p.cls, p.kind);
  }

  /** The heads of the lists aside, the pools are the same. */
  ghost predicate SameCounts(a: seq<Pool>, b: seq<Pool>) {
    |a| == |b| && forall i :: 0 <= i < |a| ==> a[i].emptyCount == b[i].emptyCount && a[i].blockSize == b[i].blockSize
  }

  lemma WithHeadCounts(pools: seq<Pool>, p: Place, s: Slab?)
    requires p.cls < |pools|
    ensures SameCounts(WithHead(pools, p, s), pools)
  {}

  lemma RemovedSame(m: Mem, z: Slab)
    requires z in m && (m[z].next != null ==> m[z].next in m) && (m[z].prev != null ==> m[z].prev in m)
    ensures SameSlabs(m, Removed(m, z))
  {
    hide SetPrev, SetNext, SameSlabs;
    var a := SetPrev(m, m[z].next, m[z].prev);
    RelinkedSame(m, m[z].next, m[z].prev);
    assert a.Keys == m.Keys by { SameKeys(m, a); }
    var b := SetNext(a, m[z].prev, m[z].next);
    RelinkedSame(a, m[z].prev, m[z].next);
    assert b.Keys == m.Keys by { SameKeys(a, b); }
    SameSlabsTrans(m, a, b);
    var c := SetPrev(b, z, null);
    RelinkedSame(b, z, null);
    assert c.Keys == m.Keys by { SameKeys(b, c); }
    SameSlabsTrans(m, b, c);
    RelinkedSame(c, z, null);
    SameSlabsTrans(m, c, SetNext(c, z, null));
  }

  lemma SameKeys(m: Mem, m': Mem)
    requires SameSlabs(m, m')
    ensures m'.Keys == m.Keys
  {}

  lemma RelinkedSame(m: Mem, s: Slab?, x: Slab?)
    requires s != null ==> s in m
    ensures SameSlabs(m, SetPrev(m, s, x)) && SameSlabs(m, SetNext(m, s, x))
  {}

  lemma BoardSize(m: Mem, pools: seq<Pool>, lists: Lists, z: Slab?)
    requires Board(m, pools, lists, z)
    ensures |pools| == CLASS_COUNT
  {}

  lemma InsertedSame(m: Mem, head: Slab?, z: Slab)
    requires z in m && (head != null ==> head in m)
    ensures SameSlabs(m, Inserted(m, head, z))
  {}

  lemma SameSlabsKeep(word: Words, m: Mem, m': Mem, frees: map<Slab, seq<nat>>, lives: map<Slab, set<nat>>)
    requires SameSlabs(m, m') && Blocks(word, m, frees, lives)
    ensures Blocks(word, m', frees, lives)
  {
    hide Blocks;
    RelinkKeeps(word, m, m', frees, lives);
  }

  lemma SlabKeys(word: Words, m: Mem, frees: map<Slab, seq<nat>>, lives: map<Slab, set<nat>>)
    requires Blocks(word, m, frees, lives)
    ensures frees.Keys == m.Keys && lives.Keys == m.Keys
  {}

  ghost function Iota(n: nat): (s: seq<nat>)
    ensures |s| == n && forall i :: 0 <= i < n ==> s[i] == i
  {
    seq(n, i => i)
  }

  lemma NextBlock(base: nat, cls: nat, i: nat)
    requires cls < CLASS_COUNT
    ensures Addr(base, cls, i + 1) == Addr(base, cls, i) + SizeOf(cls)
  {
    hide SizeOf;
    assert (i + 1) * SizeOf(cls) == i * SizeOf(cls) + SizeOf(cls);
  }

  lemma TotalPositive(cls: nat)
    requires cls < CLASS_COUNT
    ensures Total(cls) > 1
  {
    AtLeast(Extent(cls) - Lead(cls), SizeOf(cls), 8);
  }

  lemma AtLeast(n: nat, d: nat, k: nat)
    requires d > 0 && k * d <= n
    ensures n / d >= k
  {
    assert n == n / d * d + n % d;
    if n / d < k {
      Scale(n / d + 1, k, d);
    }
  }

  ghost predicate Counts(pools: seq<Pool>, lists: Lists) {
    |pools| == CLASS_COUNT && forall c :: 0 <= c < CLASS_COUNT ==>
      && Place(c, Empty) in lists && pools[c].emptyCount == |lists[Place(c, Empty)]| <= MAX_EMPTY_SLABS
      && pools[c].blockSize == SizeOf(c)
  }

  /** The slab of a block can be found: from its header, or at the front of its memory. */
  ghost predicate Findable(m: Mem, lives: map<Slab, set<nat>>, header: map<nat, Header>, record: map<nat, Slab>) {
    forall s :: s in m && s in lives && m[s].cls < CLASS_COUNT ==>
      if m[s].headerless then m[s].base in record && record[m[s].base] == s
      else forall i :: i in lives[s] ==> HasHeader(m[s], i, s, header)
  }

  ghost predicate HasHeader(r: Rec, i: nat, s: Slab, header: map<nat, Header>)
    requires r.cls < CLASS_COUNT
  {
    var a := Addr(r.base, r.cls, i);
    a in header && header[a] == Header(r.cls, s)
  }

  /** The next address that is a multiple of a slab's size. */
  function AlignToSlabSize(raw: nat): nat { (raw + SLAB_SIZE_ALIGNMENT - 1) / SLAB_SIZE_ALIGNMENT * SLAB_SIZE_ALIGNMENT }

  /** An aligned slab fits into a mapping of twice its size; what is cut off before and behind it is the rest. */
  lemma AlignedInside(raw: nat)
    ensures var a := AlignToSlabSize(raw);
      a % SLAB_SIZE_ALIGNMENT == 0 && raw <= a && a + SLAB_SIZE_ALIGNMENT <= raw + 2 * SLAB_SIZE_ALIGNMENT
  {}

  lemma ExtentSmall(cls: nat)
    requires cls < CLASS_COUNT
    ensures Extent(cls) <= SLAB_SIZE_ALIGNMENT
  {}

  lemma AddFindable(m: Mem, lives: map<Slab, set<nat>>, header: map<nat, Header>, record: map<nat, Slab>, z: Slab,
      r: Rec)
    requires Findable(m, lives, header, record) && z !in m && r.cls < CLASS_COUNT
    requires forall s :: s in m ==> Separate(m[s], r)
    ensures Findable(m[z := r], lives[z := {}], header, if r.headerless then record[r.base := z] else record)
  {
    hide HasHeader;
    forall s | s in m ensures m[s].base != r.base {
      assert Separate(m[s], r);
    }
  }

  /** Where a new slab of a class lies in memory from the system. */
  function BaseIn(region: nat, cls: nat): nat
    requires cls < CLASS_COUNT
  {
    if IsHeaderless(cls) then AlignToSlabSize(region) else region
  }

  lemma NewSlabOk(word: Words, region: nat, cls: nat)
    requires cls < CLASS_COUNT && region > 0
    requires FreeChain(word, BaseIn(region, cls), cls, Addr(BaseIn(region, cls), cls, 0), Iota(Total(cls)))
    ensures var base, total := BaseIn(region, cls), Total(cls);
      SlabOk(word, Rec(null, null, base, total, total, Addr(base, cls, 0), IsHeaderless(cls), cls), Iota(total), {})
  {
    hide FreeChain, Extent, Addr, Total, SizeOf, AlignToSlabSize, IsHeaderless;
    AlignedInside(region);
    var f := Iota(Total(cls));
    forall i ensures i in f <==> 0 <= i < Total(cls) {
      if 0 <= i < Total(cls) {
        assert f[i] == i;
      }
    }
  }

  /** Memory from the system: no slab has it. */
  ghost predicate FreeRegion(m: Mem, region: nat) {
    region > 0 && forall s :: s in m && m[s].cls < CLASS_COUNT ==>
      Disjoint(region, 2 * SLAB_SIZE_ALIGNMENT, m[s].base, Extent(m[s].cls))
  }

  ghost function NewRec(region: nat, cls: nat): Rec
    requires cls < CLASS_COUNT
  {
    var base := BaseIn(region, cls);
    Rec(null, null, base, Total(cls), Total(cls), Addr(base, cls, 0), IsHeaderless(cls), cls)
  }

  lemma NewSeparate(word: Words, m: Mem, frees: map<Slab, seq<nat>>, lives: map<Slab, set<nat>>, region: nat, cls: nat)
    requires FreeRegion(m, region) && cls < CLASS_COUNT && Blocks(word, m, frees, lives)
    ensures forall s :: s in m ==> Separate(m[s], NewRec(region, cls))
  {
    hide Extent, AlignToSlabSize, FreeChain, Parted, IsHeaderless, Total, Addr;
    AlignedInside(region);
    ExtentSmall(cls);
    forall s | s in m ensures Separate(m[s], NewRec(region, cls)) {
      InClass(word, m[s], frees[s], lives[s]);
    }
  }

  lemma NewSlabKeeps(word: Words, word': Words, m: Mem, frees: map<Slab, seq<nat>>, lives: map<Slab, set<nat>>,
      region: nat, cls: nat, z: Slab)
    requires Blocks(word, m, frees, lives) && FreeRegion(m, region) && cls < CLASS_COUNT && z !in m
    requires FreeChain(word', BaseIn(region, cls), cls, Addr(BaseIn(region, cls), cls, 0), Iota(Total(cls)))
    requires var base := BaseIn(region, cls);
      forall a :: a in word && !(base <= a < base + Extent(cls)) ==> a in word' && word'[a] == word[a]
    ensures Blocks(word', m[z := NewRec(region, cls)], frees[z := Iota(Total(cls))], lives[z := {}])
    ensures z !in lives
  {
    SlabKeys(word, m, frees, lives);
    hide Blocks, FreeChain, SlabOk, Extent, Addr, Total, IsHeaderless, AlignToSlabSize, Separate;
    NewSlabOk(word', region, cls);
    NewSeparate(word, m, frees, lives, region, cls);
    AddKeeps(word, word', m, frees, lives, z, NewRec(region, cls), Iota(Total(cls)));
  }

  lemma NewFindable(word: Words, m: Mem, frees: map<Slab, seq<nat>>, lives: map<Slab, set<nat>>, header: map<nat,
      Header>, record: map<nat, Slab>, region: nat, cls: nat, z: Slab)
    requires Blocks(word, m, frees, lives) && FreeRegion(m, region) && cls < CLASS_COUNT && z !in m
    requires Findable(m, lives, header, record)
    ensures Findable(m[z := NewRec(region, cls)], lives[z := {}], header, if IsHeaderless(cls) then record[BaseIn(region, cls) := z] else record)
  {
    hide Blocks, Findable, Addr, Total, Separate, IsHeaderless, BaseIn;
    NewSeparate(word, m, frees, lives, region, cls);
    AddFindable(m, lives, header, record, z, NewRec(region, cls));
  }

  lemma NoneLive(lives: map<Slab, set<nat>>, z: Slab)
    requires z in lives ==> lives[z] == {}
    ensures LiveBlocks(lives[z := {}]) == LiveBlocks(lives)
  {}

  /** One class's count of empty slabs changed. */
  ghost predicate CountAdded(a: seq<Pool>, b: seq<Pool>, cls: nat, d: int) {
    |a| == |b| && forall i :: 0 <= i < |a| ==>
      && b[i].emptyCount == a[i].emptyCount + (if i == cls then d else 0) && b[i].blockSize == a[i].blockSize
  }

  lemma SameHeads(m: Mem, pools: seq<Pool>, pools': seq<Pool>, lists: Lists, but: Slab?)
    requires Board(m, pools, lists, but) && |pools'| == |pools| && forall p: Place :: p.cls < |pools| ==> Head(pools', p) == Head(pools, p)
    ensures Board(m, pools', lists, but)
  {
    hide Chain, Located;
    forall p | Exists(p) ensures ListAt(m, pools', lists, p) {
      assert ListAt(m, pools, lists, p);
    }
  }

  lemma SameSlabsTrans(a: Mem, b: Mem, c: Mem)
    requires SameSlabs(a, b) && SameSlabs(b, c)
    ensures SameSlabs(a, c)
  {
    forall s | s in a ensures c[s].(prev := null, next := null) == a[s].(prev := null, next := null) {
      assert b[s].(prev := null, next := null) == a[s].(prev := null, next := null);
    }
  }

  lemma SameSlabsAt(a: Mem, b: Mem, s: Slab)
    requires SameSlabs(a, b) && s in a
    ensures b[s] == a[s].(prev := b[s].prev, next := b[s].next)
  {
    assert b[s].(prev := null, next := null) == a[s].(prev := null, next := null);
  }

  lemma SameFindable(a: Mem, b: Mem, lives: map<Slab, set<nat>>, header: map<nat, Header>, record: map<nat, Slab>)
    requires SameSlabs(a, b) && Findable(a, lives, header, record)
    ensures Findable(b, lives, header, record)
  {
    hide Addr;
    forall s | s in b ensures b[s] == a[s].(prev := b[s].prev, next := b[s].next) { SameSlabsAt(a, b, s); }
  }

  lemma CountsMoved(pools: seq<Pool>, lists: Lists, lists1: Lists, pools1: seq<Pool>, lists2: Lists,
      pools2: seq<Pool>, cls: nat, k: nat)
    requires Counts(pools, lists) && cls < CLASS_COUNT && k < |lists[Place(cls, Empty)]|
    requires lists1 == lists[Place(cls, Empty) := Without(lists[Place(cls, Empty)], k)]
    requires lists2.Keys >= lists1.Keys && forall c :: Place(c, Empty) in lists1 ==> lists2[Place(c, Empty)] == lists1[Place(c, Empty)]
    requires SameCounts(pools1, pools) && CountAdded(pools1, pools2, cls, -1)
    ensures Counts(pools2, lists2)
  {
    hide SizeOf, Without;
  }

  lemma CountsGrown(pools: seq<Pool>, lists: Lists, pools1: seq<Pool>, lists1: Lists, pools2: seq<Pool>, cls: nat,
      z: Slab)
    requires Counts(pools, lists) && cls < CLASS_COUNT && lists[Place(cls, Empty)] == []
    requires lists1 == lists[Place(cls, Empty) := [z] + lists[Place(cls, Empty)]]
    requires SameCounts(pools1, pools) && CountAdded(pools1, pools2, cls, 1)
    ensures Counts(pools2, lists1)
  {
    hide SizeOf;
  }

  /** The first slab of a list is at home there. */
  lemma HeadAside(m: Mem, pools: seq<Pool>, lists: Lists, p: Place, z: Slab)
    requires Board(m, pools, lists, null) && Exists(p) && Head(pools, p) == z
    ensures z in m && Home(m[z]) == p && p in lists && |lists[p]| > 0 && lists[p][0] == z
    ensures Board(m, pools, lists, z) && Located(lists, z, Some(p))
  {
    assert ListAt(m, pools, lists, p);
    assert z in lists[p];
    ChainMembers(m, Head(pools, p), lists[p], z);
    assert Located(lists, z, Some(Home(m[z])));
    Aside(m, pools, lists, z);
  }

  lemma NoEmpty(m: Mem, pools: seq<Pool>, lists: Lists, cls: nat)
    requires Board(m, pools, lists, null) && cls < CLASS_COUNT && pools[cls].empty == null
    ensures Place(cls, Empty) in lists && lists[Place(cls, Empty)] == []
  {
    assert ListAt(m, pools, lists, Place(cls, Empty));
  }

  /** A list's head tells whether any slab belongs there. */
  lemma ListedExactly(m: Mem, pools: seq<Pool>, lists: Lists, p: Place)
    requires Board(m, pools, lists, null) && Exists(p)
    ensures Head(pools, p) != null <==> HasSlab(m, p)
  {
    assert ListAt(m, pools, lists, p);
    var l := lists[p];
    if Head(pools, p) != null {
      HeadAside(m, pools, lists, p, Head(pools, p));
    }
    if HasSlab(m, p) {
      var s :| s in m && Home(m[s]) == p;
      assert Located(lists, s, Some(Home(m[s])));
      assert s in l;
    }
  }

  /** So a new slab is made exactly if no slab of the class has a free block. */
  lemma PickedByRoom(word: Words, m: Mem, frees: map<Slab, seq<nat>>, lives: map<Slab, set<nat>>, m': Mem, cls: nat, z: Slab)
    requires Blocks(word, m, frees, lives) && Picked(m, m', cls, z)
    ensures m'.Keys == if HasRoom(m, cls) then m.Keys else m.Keys + {z}
  {
    hide SlabOk, Separate;
    forall s | s in m ensures m[s].total > 0 && m[s].free >= 0 {
      assert SlabOk(word, m[s], frees[s], lives[s]);
      SlabTotals(word, m[s], frees[s], lives[s]);
    }
    forall s | s in m ensures m[s].cls == cls && m[s].free > 0 <==> Home(m[s]) in {Place(cls, Partial), Place(cls, Empty)} {}
  }

  lemma SlabTotals(word: Words, r: Rec, f: seq<nat>, live: set<nat>)
    requires SlabOk(word, r, f, live)
    ensures r.total > 0 && r.free >= 0
  {
    TotalPositive(r.cls);
  }

  /** The count of empty slabs tells whether another slab of the class is spare. */
  lemma SpareExactly(m: Mem, pools: seq<Pool>, lists: Lists, z: Slab, cls: nat)
    requires Board(m, pools, lists, z) && Located(lists, z, Some(Place(cls, Partial))) && cls < CLASS_COUNT && Counts(pools, lists)
    ensures pools[cls].emptyCount >= MAX_EMPTY_SLABS <==> HasSpare(m, cls, z)
  {
    var p := Place(cls, Empty);
    assert ListAt(m, pools, lists, p) && pools[cls].emptyCount == |lists[p]|;
    assert z !in lists[p];
    if |lists[p]| > 0 {
      var s := lists[p][0];
      ChainMembers(m, Head(pools, p), lists[p], s);
      assert s != z && Located(lists, s, Some(Home(m[s])));
      assert Home(m[s]) == p;
    }
    if HasSpare(m, cls, z) {
      var s :| s in m && s != z && m[s].cls == cls && m[s].free == m[s].total;
      assert Located(lists, s, Some(Home(m[s])));
      assert s in lists[p];
    }
  }

  lemma PushedSpare(m: Mem, m': Mem, cls: nat, z: Slab)
    requires z in m && m'.Keys == m.Keys && forall s :: s in m && s != z ==> m'[s] == m[s]
    ensures HasSpare(m, cls, z) <==> HasSpare(m', cls, z)
  {}

  lemma SameSpare(a: Mem, b: Mem, cls: nat, z: Slab)
    requires SameSlabs(a, b)
    ensures HasSpare(a, cls, z) <==> HasSpare(b, cls, z)
  {
    forall s | s in a ensures b[s] == a[s].(prev := b[s].prev, next := b[s].next) { SameSlabsAt(a, b, s); }
  }

  /** A slab that is empty or partial has a free block. */
  lemma HasFree(word: Words, m: Mem, frees: map<Slab, seq<nat>>, lives: map<Slab, set<nat>>, z: Slab)
    requires Blocks(word, m, frees, lives) && z in m && Home(m[z]).kind != Full
    ensures z in frees && |frees[z]| > 0
  {
    hide FreeChain, Parted;
    InClass(word, m[z], frees[z], lives[z]);
    TotalPositive(m[z].cls);
  }

  /** Every block can be found but the block i of z, which was just taken. */
  ghost predicate Taken(m: Mem, lives: map<Slab, set<nat>>, header: map<nat, Header>, record: map<nat, Slab>, z: Slab,
      i: nat) {
    && z in m && z in lives && i in lives[z] && Findable(m, lives[z := lives[z] - {i}], header, record)
  }

  lemma PopTaken(m: Mem, m': Mem, lives: map<Slab, set<nat>>, lives': map<Slab, set<nat>>, header: map<nat, Header>,
      record: map<nat, Slab>, z: Slab, i: nat)
    requires Findable(m, lives, header, record) && z in m && z in lives && i !in lives[z]
    requires lives' == lives[z := lives[z] + {i}]
    requires m'.Keys == m.Keys && forall s :: s in m ==> m'[s].base == m[s].base && m'[s].cls == m[s].cls && m'[s].headerless == m[s].headerless
    ensures Taken(m', lives', header, record, z, i)
  {
    hide Addr;
    assert lives'[z] - {i} == lives[z];
    assert lives'[z := lives'[z] - {i}] == lives;
  }

  lemma TakenFindable(word: Words, m: Mem, frees: map<Slab, seq<nat>>, lives: map<Slab, set<nat>>, header: map<nat,
      Header>, record: map<nat, Slab>, z: Slab, i: nat)
    requires Blocks(word, m, frees, lives) && Taken(m, lives, header, record, z, i) && m[z].cls < CLASS_COUNT
    ensures var a := Addr(m[z].base, m[z].cls, i);
      Findable(m, lives, if IsHeaderless(m[z].cls) then header else header[a := Header(m[z].cls, z)], record)
  {
    hide Addr, FreeChain, Extent, SizeOf, Separate, IsHeaderless;
    var a := Addr(m[z].base, m[z].cls, i);
    var header' := header[a := Header(m[z].cls, z)];
    assert SlabOk(word, m[z], frees[z], lives[z]);
    var before := lives[z := lives[z] - {i}];
    forall s, j | s in m && s in lives && m[s].cls < CLASS_COUNT && !m[s].headerless && j in lives[s] && (s != z || j != i)
      ensures HasHeader(m[s], j, s, header')
    {
      LiveBlocksApart(word, m, frees, lives, s, j, z, i);
      SizePositive(m[s].cls);
      SizePositive(m[z].cls);
      assert j in before[s];
      assert HasHeader(m[s], j, s, header);
    }
    assert HasHeader(m[z], i, z, header');
  }

  lemma SameSlabsSelf(m: Mem)
    ensures SameSlabs(m, m)
  {}

  lemma IndexOn(m: Mem, pools: seq<Pool>, lists: Lists, z: Slab, p: Place) returns (k: nat)
    requires Board(m, pools, lists, z) && Located(lists, z, Some(p)) && Exists(p)
    ensures p in lists && k < |lists[p]| && lists[p][k] == z
  {
    assert ListAt(m, pools, lists, p);
    assert z in lists[p];
    k :| 0 <= k < |lists[p]| && lists[p][k] == z;
  }

  lemma CountsSame(pools: seq<Pool>, lists: Lists, pools1: seq<Pool>, pools2: seq<Pool>, lists2: Lists)
    requires Counts(pools, lists) && SameCounts(pools1, pools) && SameCounts(pools2, pools1)
    requires lists2.Keys >= lists.Keys && forall c :: Place(c, Empty) in lists ==> lists2[Place(c, Empty)] == lists[Place(c, Empty)]
    ensures Counts(pools2, lists2)
  {
    hide SizeOf;
  }

  lemma FirstIsFree(word: Words, m: Mem, frees: map<Slab, seq<nat>>, lives: map<Slab, set<nat>>, z: Slab)
    requires Blocks(word, m, frees, lives) && z in m && |frees[z]| > 0
    ensures z in lives && frees[z][0] !in lives[z] && m[z].free <= m[z].total
  {
    hide FreeChain;
    assert SlabOk(word, m[z], frees[z], lives[z]) && frees[z][0] in frees[z];
    FewFree(word, m[z], frees[z], lives[z]);
  }

  lemma FewFree(word: Words, r: Rec, f: seq<nat>, live: set<nat>)
    requires SlabOk(word, r, f, live)
    ensures |f| <= Total(r.cls) && r.free <= r.total
  {
    hide FreeLink, Extent, Addr, Total;
    forall i | 0 <= i < |f| ensures 0 <= f[i] < Total(r.cls) { assert f[i] in f; }
    Pigeonhole(f, Total(r.cls));
  }

  /** Distinct numbers below n are at most n. */
  lemma {:induction false} Pigeonhole(f: seq<nat>, n: nat)
    requires Once(f) && forall i :: 0 <= i < |f| ==> f[i] < n
    ensures |f| <= n
    decreases n
  {
    if |f| > 0 {
      assert f[0] < n;
      if k :| 0 <= k < |f| && f[k] == n - 1 {
        var g := f[..k] + f[k + 1..];
        assert forall i :: 0 <= i < |g| ==> g[i] == if i < k then f[i] else f[i + 1];
        Pigeonhole(g, n - 1);
      } else {
        Pigeonhole(f, n - 1);
      }
    }
  }

  lemma OneMoreLive(lives: map<Slab, set<nat>>, z: Slab, i: nat)
    requires z in lives && i !in lives[z]
    ensures (z, i) !in LiveBlocks(lives) && LiveBlocks(lives[z := lives[z] + {i}]) == LiveBlocks(lives) + {(z, i)}
  {}

  lemma CountsKept(pools: seq<Pool>, lists: Lists, pools1: seq<Pool>, lists1: Lists, pools2: seq<Pool>, lists2: Lists,
      pools3: seq<Pool>, cls: nat, z: Slab)
    requires Counts(pools, lists) && cls < CLASS_COUNT && pools[cls].emptyCount < MAX_EMPTY_SLABS
    requires SameCounts(pools1, pools) && SameCounts(pools2, pools1) && CountAdded(pools2, pools3, cls, 1)
    requires lists1.Keys >= lists.Keys && forall c :: Place(c, Empty) in lists ==> lists1[Place(c, Empty)] == lists[Place(c, Empty)]
    requires Place(cls, Empty) in lists1 && lists2 == lists1[Place(cls, Empty) := [z] + lists1[Place(cls, Empty)]]
    ensures Counts(pools3, lists2)
  {
    hide SizeOf;
  }

  lemma SameCountsSelf(pools: seq<Pool>)
    ensures SameCounts(pools, pools)
  {}

  /** A slab with as many free blocks as blocks has no live one. */
  lemma AllFree(word: Words, m: Mem, frees: map<Slab, seq<nat>>, lives: map<Slab, set<nat>>, z: Slab)
    requires Blocks(word, m, frees, lives) && z in m && m[z].free == m[z].total
    ensures z in lives && lives[z] == {}
  {
    hide FreeChain, Total, Extent;
    assert SlabOk(word, m[z], frees[z], lives[z]);
    if i :| i in lives[z] {
      NotAllFree(word, m[z], frees[z], lives[z], i);
    }
  }

  lemma NotAllFree(word: Words, r: Rec, f: seq<nat>, live: set<nat>, i: nat)
    requires SlabOk(word, r, f, live) && i in live
    ensures r.free < r.total
  {
    hide FreeLink, Extent, Addr, Total;
    var g := f + [i];
    forall k | 0 <= k < |g| ensures 0 <= g[k] < Total(r.cls) {
      assert g[k] in f || g[k] in live;
    }
    forall p, q | 0 <= p < q < |g| ensures g[p] != g[q] {
      assert g[p] in f;
    }
    Pigeonhole(g, Total(r.cls));
  }

  lemma DropFindable(m: Mem, lives: map<Slab, set<nat>>, header: map<nat, Header>, record: map<nat, Slab>, z: Slab)
    requires Findable(m, lives, header, record)
    ensures Findable(m - {z}, lives - {z}, header, record)
  {
    hide HasHeader;
  }

  lemma DropLive(lives: map<Slab, set<nat>>, z: Slab)
    requires z in lives && lives[z] == {}
    ensures LiveBlocks(lives - {z}) == LiveBlocks(lives)
  {}

  lemma IsLive(lives: map<Slab, set<nat>>, z: Slab, i: nat)
    ensures (z, i) in LiveBlocks(lives) <==> z in lives && i in lives[z]
  {}

  lemma NotFullyFree(word: Words, m: Mem, frees: map<Slab, seq<nat>>, lives: map<Slab, set<nat>>, z: Slab, i: nat)
    requires Blocks(word, m, frees, lives) && z in m && i in lives[z]
    ensures 0 <= m[z].free < m[z].total
  {
    hide FreeChain, Parted;
    assert SlabOk(word, m[z], frees[z], lives[z]);
    NotAllFree(word, m[z], frees[z], lives[z], i);
  }

  /** The header of a block that is given back is no other block's. */
  lemma GivenFindable(word: Words, m: Mem, frees: map<Slab, seq<nat>>, lives: map<Slab, set<nat>>, header: map<nat,
      Header>, record: map<nat, Slab>, z: Slab, i: nat)
    requires Blocks(word, m, frees, lives) && Findable(m, lives, header, record) && z in m && i in lives[z]
    requires m[z].cls < CLASS_COUNT
    ensures Findable(m, lives[z := lives[z] - {i}], header - {Addr(m[z].base, m[z].cls, i)}, record)
  {
    hide Addr, FreeChain, Extent, SizeOf, Separate, SlabOk;
    var a := Addr(m[z].base, m[z].cls, i);
    forall s, j | s in m && s in lives && m[s].cls < CLASS_COUNT && !m[s].headerless && j in lives[s] && (s != z || j != i)
      ensures HasHeader(m[s], j, s, header - {a})
    {
      LiveBlocksApart(word, m, frees, lives, s, j, z, i);
      SizePositive(m[s].cls);
      SizePositive(m[z].cls);
      assert HasHeader(m[s], j, s, header);
    }
  }

  lemma WithinBlock<T>(m: map<nat, T>, m': map<nat, T>, len: nat, a: nat, n: nat, b: nat, k: nat)
    requires Stored(m, m', len, a, n) && b <= a && a + n <= b + k
    ensures Stored(m, m', len, b, k)
  {}

  /** The bytes that a caller may write overlap no header and no record. */
  lemma WriteFindable(word: Words, m: Mem, frees: map<Slab, seq<nat>>, lives: map<Slab, set<nat>>, header: map<nat, Header>,
      header': map<nat, Header>, record: map<nat, Slab>, record': map<nat, Slab>, z: Slab, i: nat, ptr: nat, size: nat,
      a: nat, n: nat)
    requires Blocks(word, m, frees, lives) && Findable(m, lives, header, record) && z in m && i in lives[z]
    requires m[z].cls < CLASS_COUNT && Serves(m[z], i, ptr, size) && ptr <= a && a + n <= ptr + size
    requires Stored(header, header', BLOCK_HEADER, a, n) && Stored(record, record', SLAB_RECORD, a, n)
    ensures Findable(m, lives, header', record')
  {
    hide Addr, FreeChain, Extent, SizeOf, Separate, Parted;
    forall s, j | s in m && s in lives && m[s].cls < CLASS_COUNT && !m[s].headerless && j in lives[s]
      ensures HasHeader(m[s], j, s, header')
    {
      assert HasHeader(m[s], j, s, header);
      if s != z || j != i {
        LiveBlocksApart(word, m, frees, lives, s, j, z, i);
        assert SlabOk(word, m[s], frees[s], lives[s]);
        RoomForHeader(m[s].cls);
      }
    }
    forall s | s in m && m[s].cls < CLASS_COUNT && m[s].headerless ensures m[s].base in record' && record'[m[s].base] == s {
      RecordApart(word, m, frees, lives, s, z, i);
    }
  }

  lemma RoomForHeader(cls: nat)
    requires cls < CLASS_COUNT && !IsHeaderless(cls)
    ensures SizeOf(cls) >= BLOCK_HEADER
  {}

  /** The record of a headerless slab overlaps no block. */
  lemma RecordApart(word: Words, m: Mem, frees: map<Slab, seq<nat>>, lives: map<Slab, set<nat>>, s: Slab, z: Slab, i: nat)
    requires Blocks(word, m, frees, lives) && s in m && z in m && i in lives[z] && m[s].cls < CLASS_COUNT && m[s].headerless
    ensures m[z].cls < CLASS_COUNT && Disjoint(m[s].base, SLAB_RECORD, Addr(m[z].base, m[z].cls, i), SizeOf(m[z].cls))
  {
    hide FreeChain, SizeOf, Addr;
    assert SlabOk(word, m[s], frees[s], lives[s]) && SlabOk(word, m[z], frees[z], lives[z]);
    BlockInside(m[z].base, m[z].cls, i);
    if s != z {
      assert Separate(m[s], m[z]);
    }
  }

  lemma PushFindable(m: Mem, m': Mem, lives: map<Slab, set<nat>>, header: map<nat, Header>, record: map<nat, Slab>)
    requires Findable(m, lives, header, record) && m'.Keys == m.Keys
    requires forall s :: s in m ==> m'[s].base == m[s].base && m'[s].cls == m[s].cls && m'[s].headerless == m[s].headerless
    ensures Findable(m', lives, header, record)
  {
    hide Addr;
  }

  lemma OneFewerLive(lives: map<Slab, set<nat>>, z: Slab, i: nat)
    requires z in lives && i in lives[z]
    ensures LiveBlocks(lives[z := lives[z] - {i}]) == LiveBlocks(lives) - {(z, i)}
  {}

  /** Clearing the low bits of a headerless block's address gives the address of its slab. */
  lemma Masked(word: Words, m: Mem, frees: map<Slab, seq<nat>>, lives: map<Slab, set<nat>>, z: Slab, i: nat)
    requires Blocks(word, m, frees, lives) && z in m && z in lives && i in lives[z] && m[z].headerless
    ensures m[z].cls < CLASS_COUNT && PtrToSlab(Addr(m[z].base, m[z].cls, i)) == m[z].base
  {
    hide FreeChain, SizeOf;
    assert SlabOk(word, m[z], frees[z], lives[z]);
    BlockInside(m[z].base, m[z].cls, i);
    SizePositive(m[z].cls);
    RoundDown(m[z].base, Addr(m[z].base, m[z].cls, i));
  }

  lemma RoundDown(base: nat, ptr: nat)
    requires base % SLAB_SIZE_ALIGNMENT == 0 && base <= ptr < base + SLAB_SIZE_ALIGNMENT
    ensures PtrToSlab(ptr) == base
  {}
}
