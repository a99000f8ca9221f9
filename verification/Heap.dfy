/** The buddy heap of src/mm/mm_heap.c, over headers in memory. */
module Heaps {
  import opened Words
  import opened Dyadic
  import opened Tiling
  import opened Buddies
  import opened FreeLists
  import opened Lists
  import opened Paging
  import opened HeapFrames

  /** The heap and what it can grow from. */
  datatype World = World(heap: State, supply: Supply)

  /** A block of class `c` is listed, or a chunk can be backed. */
  ghost predicate Serves(w: World, c: nat)
    requires |w.heap.lists| == CLASSES
  {
    MustGrow(w.heap, c) ==> Enough(w.supply, w.heap.end)
  }

  ghost function SupplyAfter(w: World, c: nat): Supply
    requires |w.heap.lists| == CLASSES
  {
    if MustGrow(w.heap, c) then Spent(w.supply, w.heap.end) else w.supply
  }

  /** After a block of class `c` has been handed out. */
  ghost function Granted(w: World, c: nat): World
    requires c < CLASSES == |w.heap.lists|
  {
    World(Buddies.Alloc(w.heap, c).0, SupplyAfter(w, c))
  }

  /** `mm_heap_alloc` of `len` bytes stops the kernel: the size check fails on the sum with the header, a
      chunk is needed and cannot be backed, or, in a debug kernel, nothing is asked for or the sum has
      wrapped and the block is too small. */
  ghost predicate Stops(w: World, len: nat, debug: bool)
    requires |w.heap.lists| == CLASSES
  {
    var total := Add(len, HEADER);
    || total > Size(TOP) || !Serves(w, ClassFor(total))
    || (debug && (len == 0 || len + HEADER >= WORD))
  }

  /** A call either returns a block or stops the kernel: an assertion of the source has failed. */
  datatype Outcome = Halted | Block(ptr: nat, len: nat)

  class Heap {
    /** Block headers, by address. Addresses inside a taken block hold whatever its owner wrote. */
    var mem: Memory
    /** `_free_list` */
    const freeList: array<nat>
    /** `_heap_end` */
    var heapEnd: nat
    /** The page tables and free frames a chunk is backed from. */
    const mmu: Mmu
    /** Whether the kernel is a debug build, in which the `_d` assertions are live. */
    const debug: bool
    /** The abstract heap. */
    ghost var state: State

    ghost predicate Represented()
      reads this, freeList
    {
      && freeList.Length == CLASSES
      && state.end == heapEnd && heapEnd < WORD
      && Linked(mem, freeList[..], state.lists)
      && HeadersAgree(mem, state.tiles)
    }

    ghost predicate Valid()
      reads this, freeList
    {
      Represented() && Ok(state)
    }

    /** Of the pages from the heap's start on exactly those below its end are mapped. */
    ghost predicate Mapped()
      reads this`heapEnd, mmu
    {
      mmu.Valid() && HeapPages(Seen(mmu.State()), heapEnd)
    }

    ghost function Whole(): World
      reads this, mmu
    {
      World(state, SupplyOf(mmu.State()))
    }

    /** `mm_heap_bootstrap`. */
    constructor (mmu: Mmu, debug: bool)
      ensures Valid() && fresh(freeList)
      ensures state == Initial() && heapEnd == HEAP && this.mmu == mmu && this.debug == debug
    {
      freeList := new nat[CLASSES](_ => NONE);
      heapEnd := HEAP;
      mem := map[];
      this.mmu, this.debug := mmu, debug;
      state := Initial();
      InitialOk();
      new;
    }

    /** The owner of a taken block writes anywhere in it past the header. */
    method ClientStore(t: nat, a: nat, h: Header)
      requires Valid()
      requires t in Taken(state.tiles) && t < a < t + Size(state.tiles[t].cls)
      modifies this`mem
      ensures Valid()
    {
      forall s | s in state.tiles ensures s != a {
        assert Apart(state.tiles, s, t) && Apart(state.tiles, t, s);
      }
      forall k | 0 <= k < CLASSES ensures a !in state.lists[k] {
        assert ListOk(state.tiles, state.lists[k], k, NONE);
      }
      LinkedFrame(mem, freeList[..], state.lists, a, h);
      HeadersFrame(mem, state.tiles, a, h);
      mem := mem[a := h];
    }

    /** `_free_list_dequeue`. */
    method Dequeue(k: nat) returns (blk: nat)
      requires k < CLASSES && Represented() && Shape(state, NONE)
      modifies this`state, freeList
      ensures Represented()
      ensures if old(state).lists[k] == [] then blk == NONE && state == old(state)
              else blk == old(state).lists[k][0] && blk != NONE
                   && state == old(state).(lists := old(state).lists[k := old(state).lists[k][1..]])
      ensures k < CLASSES && forall j :: 0 <= j < CLASSES && j != k ==> freeList[j] == old(freeList[j])
    {
      blk := freeList[k];
      assert Chain(mem, freeList[..][k], state.lists[k]);
      if blk != NONE {
        HeadIsFree(state, k);
        assert HeaderAgrees(mem, state.tiles, blk);
        assert mem[blk].magic == MAGIC && mem[blk].cls == k;
        LinkedPop(mem, freeList[..], state.lists, k);
        ghost var heads := freeList[..][k := mem[blk].next];
        freeList[k] := mem[blk].next;
        assert freeList[..] == heads;
        state := state.(lists := state.lists[k := state.lists[k][1..]]);
      }
    }

    /** `_free_list_enqueue`: the header is written in full. The live blocks are the caller's to
        restate. */
    method Enqueue(a: nat, k: nat)
      requires k < CLASSES && a != NONE
      requires freeList.Length == CLASSES && Linked(mem, freeList[..], state.lists)
      requires Unlisted(state.lists, a)
      modifies this`mem, this`state, freeList
      ensures Linked(mem, freeList[..], state.lists)
      ensures state == old(state).(lists := old(state).lists[k := [a] + old(state).lists[k]])
      ensures a in mem && mem == old(mem)[a := mem[a]]
      ensures mem[a].cls == k && mem[a].isFree && mem[a].magic == MAGIC
    {
      ghost var h := Header(k, true, freeList[k], MAGIC);
      LinkedPush(mem, freeList[..], state.lists, k, a, h);
      ghost var heads := freeList[..][k := a];
      mem := mem[a := Header(k, true, freeList[k], MAGIC)];
      freeList[k] := a;
      assert freeList[..] == heads;
      state := state.(lists := state.lists[k := [a] + state.lists[k]]);
    }

    /** `_free_list_dequeue_block`: the list is searched for the block, which is then unlinked. */
    method DequeueBlock(block: nat, ghost hand: nat)
      requires Represented() && Shape(state, hand)
      requires block in state.tiles && state.tiles[block].free && block != hand
      modifies this`mem, this`state, freeList
      ensures Represented()
      ensures var k := old(state).tiles[block].cls;
              k < CLASSES && state == old(state).(lists := old(state).lists[k := Remove(old(state).lists[k], block)])
    {
      ghost var ts := state.tiles;
      assert HeaderAgrees(mem, ts, block) && Placed(ts, state.end, block);
      var k := mem[block].cls;
      ghost var lists := state.lists;
      ghost var xs := lists[k];
      assert ListOk(ts, xs, k, hand);
      assert block in xs;
      assert Chain(mem, freeList[..][k], xs);
      ghost var j: nat :| j < |xs| && xs[j] == block;
      ghost var i: nat := 0;
      var free := freeList[k];
      var found := false;
      while free != NONE
        invariant !found ==> i <= j && free == xs[i] && (i > 0 ==> i < j || xs[j - 1] != block)
        invariant !found ==> unchanged(this) && unchanged(freeList)
        invariant !found ==> i == 0 || i < j
        invariant !found
        decreases j - i
      {
        if free == block {
          NoDupAt(xs, i, j);
          assert i == j == 0;
          assert free == freeList[k];
          RemoveAt(xs, 0);
          LinkedPop(mem, freeList[..], lists, k);
          ghost var heads := freeList[..][k := mem[block].next];
          freeList[k] := mem[block].next;
          assert freeList[..] == heads;
          assert Remove(xs, block) == xs[1..];
          found := true;
          break;
        } else if mem[free].next == block {
          NextIs(mem, freeList[..], lists, k, i, j);
          forall l, a | 0 <= l < CLASSES && l != k && a in lists[l] ensures a !in lists[k] {
            assert ListOk(ts, lists[l], l, hand);
          }
          LinkedUnlink(mem, freeList[..], lists, k, j);
          assert free in ts ==> HeaderAgrees(mem, ts, free);
          HeadersFrame(mem, ts, free, mem[free].(next := mem[block].next));
          mem := mem[free := mem[free].(next := mem[block].next)];
          found := true;
          break;
        } else {
          assert mem[free].next == First(xs[i + 1..]);
          free := mem[free].next;
          i := i + 1;
        }
      }
      assert found;
      state := state.(lists := lists[k := Remove(xs, block)]);
    }

    /** `_expand_heap`: every page of a new chunk is mapped to a frame of its own. Where the frames do not
        last, its assertions stop a debug kernel; what a release kernel goes on to leave unmapped is stated
        of the loop. */
    method ExpandHeap() returns (ok: bool)
      requires Valid() && Mapped() && state.lists[TOP] == []
      modifies this, freeList, mmu
      ensures ok <==> Enough(old(Whole()).supply, old(heapEnd))
      ensures ok ==> Represented() && Mapped()
      ensures ok ==> Whole() == World(Grow(old(state)), Spent(old(Whole()).supply, old(heapEnd)))
    {
      hide Shape, Canonical, Grow, HeapPages, SupplyOf, Spent;
      EndInside(state);
      ok := heapEnd + Size(TOP) < WORD;
      if ok {
        ok := BackChunk();
      }
      if ok {
        ListChunk();
      }
    }

    /** The new chunk becomes one free block. */
    method ListChunk()
      requires Valid() && heapEnd + Size(TOP) < WORD
      modifies this`mem, this`state, this`heapEnd, freeList
      ensures Represented() && state == Grow(old(state)) && heapEnd == old(heapEnd) + Size(TOP)
    {
      ghost var s := state;
      GrowKeeps(state);
      GrowTiled(state.tiles, heapEnd);
      ghost var m := mem;
      NotListed(state, heapEnd, NONE);
      Enqueue(heapEnd, TOP);
      state := Grow(s);
      GrowHeaders(m, mem, s.tiles, heapEnd);
      heapEnd := heapEnd + Size(TOP);
    }

    /** The loop of `_expand_heap`, for the chunk at the heap's end. */
    method BackChunk() returns (ok: bool)
      requires Mapped() && HEAP <= heapEnd && heapEnd % 4096 == 0 && heapEnd + Size(TOP) < WORD
      modifies mmu
      ensures ok <==> Enough(SupplyOf(old(mmu.State())), heapEnd)
      ensures ok ==> mmu.Valid() && HeapPages(Seen(mmu.State()), heapEnd + Size(TOP))
      ensures ok ==> SupplyOf(mmu.State()) == Spent(SupplyOf(old(mmu.State())), heapEnd)
    {
      hide Backing, SoFar, HeapPages, Mmu.Base, Spent, RangeNeed;
      ghost var p := mmu.State();
      ChunkPagesAre();
      NextChunkFaults(Seen(p), heapEnd, ChunkPages());
      ghost var mapped;
      ok, mapped := MapChunk(mmu, heapEnd, ChunkPages(), debug);
      if ok {
        ChunkDone(p, mmu.State(), heapEnd, Backing(p.free, p.tabs.Keys, heapEnd, ChunkPages()), mapped);
      }
    }

    lemma SixteenLists()
      requires Valid()
      ensures |state.lists| == CLASSES
    {
    }

    /** The opening of both `_split_from` and `mm_heap_alloc`: a block from list `c`, which is
        refilled from above, or by growing the heap, when it is empty. */
    method Fetch(c: nat) returns (ok: bool, free: nat)
      requires Valid() && Mapped() && c < CLASSES
      modifies this, freeList, mmu
      ensures ok <==> Serves(old(Whole()), c)
      ensures ok ==> Represented() && Mapped() && free == Refill(old(state), c).lists[c][0]
      ensures ok ==> var q := Refill(old(state), c);
        Whole() == World(q.(lists := q.lists[c := q.lists[c][1..]]), SupplyAfter(old(Whole()), c))
      decreases CLASSES - c, 0
    {
      hide Shape, Canonical, Enough, Heap.Mapped, Heap.Represented, SupplyOf, Spent, Refill, Halve, Grow, MustGrow;
      SixteenLists();
      RefillCases(state, c);
      RefillOk(state, c);
      ghost var q := Refill(state, c);
      free := Dequeue(c);
      if free == NONE {
        if c < TOP {
          ok := SplitFrom(c + 1);
        } else {
          ok := ExpandHeap();
        }
        if ok {
          assert state == q;
          free := Dequeue(c);
          assert free != NONE;
        }
      } else {
        ok := true;
      }
    }

    /** `_split_from`: a block of class `c` is cut into two of the class below, whose list is empty. */
    method SplitFrom(c: nat) returns (ok: bool)
      requires Valid() && Mapped() && 0 < c < CLASSES && state.lists[c - 1] == []
      modifies this, freeList, mmu
      ensures ok <==> Serves(old(Whole()), c)
      ensures ok ==> Represented() && Mapped()
      ensures ok ==> Whole() == World(Halve(Refill(old(state), c), c), SupplyAfter(old(Whole()), c))
      decreases CLASSES - c, 1
    {
      hide Shape, Canonical, Enough, Heap.Mapped, Heap.Represented, SupplyOf, Spent;
      SixteenLists();
      RefillOk(state, c);
      ghost var r := Refill(state, c);
      var free;
      ok, free := Fetch(c);
      if ok {
        PutHalves(free, c, r);
      }
    }

    /** The tail of `_split_from`: both halves are enqueued one class down. */
    method PutHalves(free: nat, c: nat, ghost r: State)
      requires 0 < c < CLASSES && Shape(r, NONE) && HeadIs(r, c) && free == r.lists[c][0]
      requires r.lists[c - 1] == []
      requires Represented() && state == r.(lists := r.lists[c := r.lists[c][1..]])
      modifies this`mem, this`state, freeList
      ensures Represented() && state == Halve(r, c)
    {
      ghost var m := mem;
      HeadIsFree(r, c);
      SplitTiled(r.tiles, r.end, free, c - 1);
      NotListed(r, free + Size(c - 1), NONE);
      HeadNotListed(r, c);
      var nextSize := Size(c - 1);
      Enqueue(free, c - 1);
      Enqueue(free + nextSize, c - 1);
      SplitHeaders(m, mem, r.tiles, free);
      assert [free + nextSize] + ([free] + r.lists[c - 1]) == [free + nextSize, free] + r.lists[c - 1];
      assert state.lists == Halve(r, c).lists;
      state := Halve(r, c);
    }

    /** `mm_heap_alloc`: a block of the least class that holds the request with its header. The sum is a
        machine word, and the block has room exactly if it does not wrap. */
    method Alloc(len: nat) returns (r: Outcome)
      requires Valid() && Mapped() && len < WORD
      modifies this, freeList, mmu
      ensures r == Halted <==> Stops(old(Whole()), len, debug)
      ensures r.Block? ==>
        var c := ClassFor(Add(len, HEADER));
        && c < CLASSES && Valid() && Mapped()
        && Whole() == Granted(old(Whole()), c) && r.ptr == Buddies.Alloc(old(state), c).1 + HEADER
        && r.len == Size(c) - HEADER && (r.len >= len <==> len + HEADER < WORD)
    {
      hide Shape, Canonical, Heap.Mapped, SupplyOf, Spent, Buddies.Alloc;
      if debug && len == 0 {
        return Halted;
      }
      var total := Add(len, HEADER);
      ClassForBound(total);
      if total > Size(TOP) {
        return Halted;
      }
      var freeClass := RequestClass(total);
      ghost var s := state;
      var ok, free := Fetch(freeClass);
      if !ok {
        return Halted;
      }
      RoomFor(len);
      var ptr, allLen := CheckOut(free, freeClass, s);
      if debug && allLen < len {
        return Halted;
      }
      return Block(ptr, allLen);
    }

    /** `mm_heap_alloc_minimum`. */
    method AllocMinimum() returns (r: Outcome)
      requires Valid() && Mapped()
      modifies this, freeList, mmu
      ensures r == Halted <==> !Serves(old(Whole()), 0)
      ensures r.Block? ==>
        && Valid() && Mapped()
        && Whole() == Granted(old(Whole()), 0) && r.ptr == Buddies.Alloc(old(state), 0).1 + HEADER
        && r.len == 4096 - HEADER
    {
      TopSize();
      assert Log2Up(25) == 5;
      assert ClassFor(25) == 0;
      r := Alloc(1);
    }

    /** The class computation of `mm_heap_alloc`. */
    static method RequestClass(total: nat) returns (c: nat)
      requires total < WORD
      ensures c == ClassFor(total)
    {
      c := MathLog2Up(total);
      c := if c <= 12 then 0 else c - 12;
    }

    /** `_block_check_out` of the block just dequeued for class `c`. */
    method CheckOut(block: nat, c: nat, ghost s: State) returns (ptr: nat, len: nat)
      requires c < CLASSES && Ok(s)
      requires Represented() && block == Refill(s, c).lists[c][0]
      requires var q := Refill(s, c); state == q.(lists := q.lists[c := q.lists[c][1..]])
      modifies this`mem, this`state
      ensures Valid() && (state, block) == Buddies.Alloc(s, c)
      ensures ptr == block + HEADER && len == Size(c) - HEADER
    {
      AllocOk(s, c);
      RefillOk(s, c);
      assert HeaderAgrees(mem, state.tiles, block);
      LinkedFrame(mem, freeList[..], state.lists, block, mem[block].(isFree := false));
      HeadersMark(mem, state.tiles, block, false);
      mem := mem[block := mem[block].(isFree := false)];
      state := state.(tiles := state.tiles[block := Tile(c, false)]);
      ptr, len := block + HEADER, Size(mem[block].cls) - HEADER;
    }

    /** `_block_check_in`. */
    method CheckIn(ptr: nat) returns (block: nat)
      requires Represented() && ptr >= HEADER
      requires ptr - HEADER in state.tiles && !state.tiles[ptr - HEADER].free
      modifies this`mem, this`state
      ensures block == ptr - HEADER
      ensures Represented() && state == Mark(old(state), block)
    {
      block := ptr - HEADER;
      assert HeaderAgrees(mem, state.tiles, block);
      assert mem[block].magic == MAGIC && !mem[block].isFree;
      LinkedFrame(mem, freeList[..], state.lists, block, mem[block].(isFree := true));
      HeadersMark(mem, state.tiles, block, true);
      mem := mem[block := mem[block].(isFree := true)];
      state := Mark(state, block);
    }

    /** `_block_find_buddy`: its two checks hold whatever the live block. */
    method FindBuddy(blk: nat) returns (buddy: nat)
      requires Represented() && Tiled(state.tiles, state.end)
      requires blk in state.tiles && state.tiles[blk].cls < TOP
      ensures buddy in state.tiles && buddy == Buddy(blk, state.tiles[blk].cls)
      ensures buddy in mem && mem[buddy].cls == state.tiles[buddy].cls <= state.tiles[blk].cls
      ensures mem[buddy].isFree == state.tiles[buddy].free
    {
      ghost var c := state.tiles[blk].cls;
      assert HeaderAgrees(mem, state.tiles, blk) && Placed(state.tiles, state.end, blk);
      BuddyAddressIsBuddy(blk, c);
      BuddyIsLive(state.tiles, state.end, blk);
      buddy := BuddyAddress(blk, mem[blk].cls);
      assert HeaderAgrees(mem, state.tiles, buddy);
      assert mem[buddy].magic == MAGIC;
    }

    /** `_coalescing_block`. */
    method CoalescingBlock(block: nat) returns (r: nat)
      requires Represented() && Shape(state, block) && CanonicalBut(state.tiles, block)
      requires state.tiles[block].free
      modifies this`mem, this`state, freeList
      ensures Represented() && (state, r) == Coalesce(old(state), block)
      decreases TOP - state.tiles[block].cls
    {
      assert HeaderAgrees(mem, state.tiles, block) && Placed(state.tiles, state.end, block);
      r := block;
      if mem[block].cls < TOP {
        var buddy := FindBuddy(block);
        if mem[buddy].cls == mem[block].cls && mem[buddy].isFree {
          assert Mergeable(state.tiles, block);
          MergeKeeps(state, block);
          r := Absorb(block, buddy);
          r := CoalescingBlock(r);
        }
      }
    }

    /** One round of coalescing: the buddy leaves its list, the upper header is wiped, and the lower
        one becomes the header of the joint block. */
    method Absorb(block: nat, buddy: nat) returns (r: nat)
      requires Represented() && Shape(state, block) && Mergeable(state.tiles, block)
      requires buddy == Buddy(block, state.tiles[block].cls)
      modifies this`mem, this`state, freeList
      ensures Represented() && state == MergeStep(old(state), block) && r == Lower(old(state), block)
    {
      ghost var s := state;
      assert Placed(s.tiles, s.end, block);
      BuddyFacts(block, s.tiles[block].cls);
      DequeueBlock(buddy, block);
      ghost var lists := state.lists;
      MergeNotListed(s, block);
      assert HeaderAgrees(mem, s.tiles, block);
      var cls := mem[block].cls;
      ghost var m := mem;
      if buddy < block {
        LinkedFrame(mem, freeList[..], lists, block, WIPED);
        mem := mem[block := WIPED];
        r := buddy;
      } else {
        LinkedFrame(mem, freeList[..], lists, buddy, WIPED);
        mem := mem[buddy := WIPED];
        r := block;
      }
      LinkedFrame(mem, freeList[..], lists, r, Header(cls + 1, true, NONE, MAGIC));
      mem := mem[r := Header(cls + 1, true, NONE, MAGIC)];
      state := MergeStep(s, block);
      MergeHeaders(m, mem, s.tiles, block);
    }

    /** `mm_heap_free`. */
    method Free(ptr: nat)
      requires Valid()
      requires ptr >= HEADER && ptr - HEADER in Taken(state.tiles)
      modifies this`mem, this`state, freeList
      ensures Valid()
      ensures old(state).tiles[ptr - HEADER].cls < CLASSES
      ensures state == Buddies.Free(old(state), ptr - HEADER)
    {
      ghost var s := state;
      var block := CheckIn(ptr);
      MarkKeeps(s, block);
      FreeOk(s, block);
      CoalesceOk(state, block);
      block := CoalescingBlock(block);
      ghost var q := state;
      PushKeeps(q, block);
      NotListed(q, block, block);
      assert Placed(q.tiles, q.end, block) && HeaderAgrees(mem, q.tiles, block);
      ghost var m := mem;
      Enqueue(block, mem[block].cls);
      SameHeaders(m, mem, q.tiles, block);
    }
  }

  /** Where the block for list `c` comes from. */
  lemma RefillCases(s: State, c: nat)
    requires c < CLASSES == |s.lists|
    ensures s.lists[c] != [] ==> Refill(s, c) == s && !MustGrow(s, c)
    ensures s.lists[c] == [] && c < TOP ==>
      Refill(s, c) == Halve(Refill(s, c + 1), c + 1) && (MustGrow(s, c) <==> MustGrow(s, c + 1))
    ensures s.lists[c] == [] && c == TOP ==> Refill(s, c) == Grow(s) && MustGrow(s, c)
  {
  }

  lemma EndInside(s: State)
    requires Ok(s)
    ensures s.end >= HEAP && s.end % 4096 == 0
  {
    DivDown(s.end - HEAP, TOP, 0);
  }

  /** The block of a request has room for it exactly if the sum with the header does not wrap. */
  lemma RoomFor(len: nat)
    requires len < WORD && ClassFor(Add(len, HEADER)) < CLASSES
    ensures Size(ClassFor(Add(len, HEADER))) - HEADER >= len <==> len + HEADER < WORD
  {
    AddIs(len, HEADER);
    ClassForIsLeast(Add(len, HEADER));
    SizeGrows(ClassFor(Add(len, HEADER)), TOP);
    TopSize();
  }

  lemma NotListed(s: State, a: nat, hand: nat)
    requires Shape(s, hand) && (a !in s.tiles || a == hand)
    ensures Unlisted(s.lists, a)
  {
    forall k | 0 <= k < CLASSES ensures a !in s.lists[k] {
      assert ListOk(s.tiles, s.lists[k], k, hand);
    }
  }

  lemma HeadNotListed(r: State, c: nat)
    requires c < CLASSES && Shape(r, NONE) && HeadIs(r, c)
    ensures Unlisted(r.lists[c := r.lists[c][1..]], r.lists[c][0])
  {
    HeadIsFree(r, c);
    forall k | 0 <= k < CLASSES && k != c ensures r.lists[c][0] !in r.lists[k] {
      assert ListOk(r.tiles, r.lists[k], k, NONE);
    }
  }

  lemma MergeNotListed(s: State, a: nat)
    requires Shape(s, a) && Mergeable(s.tiles, a)
    ensures Unlisted(MergeStep(s, a).lists, a)
    ensures Unlisted(MergeStep(s, a).lists, Buddy(a, s.tiles[a].cls))
  {
    var c := s.tiles[a].cls;
    RemoveFacts(s.lists[c], Buddy(a, c)) by { assert ListOk(s.tiles, s.lists[c], c, a); }
    forall k | 0 <= k < CLASSES
      ensures a !in MergeStep(s, a).lists[k] && Buddy(a, c) !in MergeStep(s, a).lists[k]
    {
      assert ListOk(s.tiles, s.lists[k], k, a);
    }
  }

  lemma GrowHeaders(m: Memory, m': Memory, ts: Tiles, end: nat)
    requires HeadersAgree(m, ts) && end in m' && m' == m[end := m'[end]]
    requires m'[end].cls == TOP && m'[end].isFree && m'[end].magic == MAGIC
    ensures HeadersAgree(m', ts[end := Tile(TOP, true)])
  {
    forall a | a in ts ensures a == end || HeaderAgrees(m', ts, a) {
      assert HeaderAgrees(m, ts, a);
    }
  }

  lemma SplitHeaders(m: Memory, m': Memory, ts: Tiles, a: nat)
    requires a in ts && ts[a].cls > 0 && HeadersAgree(m, ts)
    requires var c := ts[a].cls - 1; var b := a + Size(c);
      && a in m' && b in m' && m' == m[a := m'[a]][b := m'[b]]
      && m'[a].cls == c && m'[a].isFree && m'[a].magic == MAGIC
      && m'[b].cls == c && m'[b].isFree && m'[b].magic == MAGIC
    ensures HeadersAgree(m', Split(ts, a, ts[a].cls - 1))
  {
    forall t | t in ts ensures HeaderAgrees(m, ts, t) {
    }
  }

  lemma MergeHeaders(m: Memory, m': Memory, ts: Tiles, a: nat)
    requires Mergeable(ts, a) && HeadersAgree(m, ts)
    requires var c := ts[a].cls; var b := Buddy(a, c); var lo := if b < a then b else a;
      && lo in m' && m'[lo].cls == c + 1 && m'[lo].isFree && m'[lo].magic == MAGIC
      && forall t :: t in m && t != a && t != b ==> t in m' && m'[t] == m[t]
    ensures HeadersAgree(m', Merge(ts, a))
  {
    var c := ts[a].cls;
    var lo := if Buddy(a, c) < a then Buddy(a, c) else a;
    forall t | t in Merge(ts, a) ensures HeaderAgrees(m', Merge(ts, a), t) {
      if t != lo {
        assert HeaderAgrees(m, ts, t);
      }
    }
  }

  lemma SameHeaders(m: Memory, m': Memory, ts: Tiles, a: nat)
    requires HeadersAgree(m, ts) && a in ts && a in m' && m' == m[a := m'[a]]
    requires m'[a].cls == ts[a].cls && m'[a].isFree == ts[a].free && m'[a].magic == MAGIC
    ensures HeadersAgree(m', ts)
  {
    forall t | t in ts ensures HeaderAgrees(m', ts, t) {
      assert HeaderAgrees(m, ts, t);
    }
  }

  /** Along a list without repetition, the block whose link is `xs[j]` is the one before it. */
  lemma NextIs(mem: Memory, heads: seq<nat>, lists: seq<seq<nat>>, k: nat, i: nat, j: nat)
    requires Linked(mem, heads, lists) && k < CLASSES && NoDup(lists[k])
    requires i < |lists[k]| && j < |lists[k]|
    requires lists[k][i] in mem && mem[lists[k][i]].next == lists[k][j]
    ensures j == i + 1
  {
    var xs := lists[k];
    assert Chain(mem, heads[k], xs);
    assert mem[xs[i]].next == First(xs[i + 1..]);
    assert xs[j] != NONE;
    NoDupAt(xs, i + 1, j);
  }
}
