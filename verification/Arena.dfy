/** The arena allocator of src/mm/mm_allocator.c, over the buddy heap. */
module ArenaAllocator {
  import opened Words
  import opened Dyadic
  import opened Tiling
  import opened Buddies
  import opened FreeLists
  import opened Lists
  import opened Heaps
  import opened HeapFrames
  import opened ArenaLayout
  import opened ArenaSpec
  import HeapRuns

  /** An allocation, or a kernel stopped by an assertion of the source. */
  datatype Grant = Stopped | At(ptr: nat)

  class Allocators {
    /** `mm_heap` */
    const heap: Heap
    /** Whether the kernel is a debug build. */
    const debug: bool
    /** The areas, guard words and allocator records in memory, by address. */
    var areas: map<nat, Area>
    var guards: map<nat, nat>
    var records: map<nat, Record>
    /** `_free_alls` */
    var freeAlls: nat
    ghost var owner: map<nat, nat>
    ghost var chains: map<nat, seq<nat>>
    ghost var idle: seq<nat>
    ghost var pools: set<nat>
    ghost var parcels: map<nat, seq<Parcel>>

    ghost function Contents(): Arenas
      reads this
    {
      Arenas(areas, guards, records, freeAlls, owner, chains, idle, pools, parcels)
    }

    ghost function TakenBlocks(): Tiles
      reads this, heap
    {
      Taken(heap.state.tiles)
    }

    /** The heap is sound and backed, and can be asked for blocks. */
    ghost predicate Ready()
      reads heap, heap.freeList, heap.mmu
    {
      heap.Valid() && heap.Mapped() && heap.debug == debug
    }

    ghost predicate Valid()
      reads this, heap, heap.freeList, heap.mmu
    {
      Ready() && Good(TakenBlocks(), Contents(), debug) && SlotsKept(pools, chains.Keys, idle)
    }

    /** But for the records of a block that is being carved. */
    ghost predicate Carving()
      reads this, heap, heap.freeList, heap.mmu
    {
      Ready() && Good(TakenBlocks(), Contents(), debug)
    }

    /** `mm_allocator_bootstrap` */
    constructor (heap: Heap)
      requires heap.Valid() && heap.Mapped()
      ensures Valid() && this.heap == heap && debug == heap.debug
      ensures chains == map[] && parcels == map[]
    {
      this.heap, debug := heap, heap.debug;
      areas, guards, records, freeAlls := map[], map[], map[], 0;
      owner, chains, idle, pools, parcels := map[], map[], [], {}, map[];
    }

    /** What a heap block just allocated for class `c` is. */
    lemma BlockTaken(s: State, c: nat)
      requires Ok(s) && c < CLASSES
      ensures var (r, t) := Buddies.Alloc(s, c);
              && Ok(r) && t !in Taken(s.tiles) && Taken(r.tiles) == Taken(s.tiles)[t := Tile(c, false)]
              && t in r.tiles && Aligned(t, c) && t % 4096 == 0
    {
      AllocOk(s, c);
      var (r, t) := Buddies.Alloc(s, c);
      assert t in Taken(r.tiles);
      assert Placed(r.tiles, r.end, t);
      DivDown(t - HEAP, c, 0);
    }

    /** `mm_allocator_new`: the first recycled record; if there is none, the last of the sixteen in a fresh
        block, the others being recycled from the last to the first. */
    method New() returns (ok: bool, all: nat)
      requires Valid()
      modifies this, heap, heap.freeList, heap.mmu
      ensures ok && old(freeAlls) != 0 ==>
        old(idle) != [] && all == old(idle)[0] && idle == old(idle)[1..] && pools == old(pools)
      ensures ok && old(freeAlls) == 0 ==>
        var p := NewBlock(old(heap.Whole()));
        && pools == old(pools) + {p} && all == p + STRIDE * 15
        && |idle| == 15 && forall i :: 0 <= i < 15 ==> idle[i] == p + STRIDE * (14 - i)
      ensures ok ==> Valid() && all !in old(chains) && chains == old(chains)[all := []]
      ensures ok ==> owner == old(owner) && parcels == old(parcels) && areas == old(areas)
      ensures ok ==> heap.Whole() == if old(freeAlls) == 0 then Granted(old(heap.Whole()), 0) else old(heap.Whole())
      ensures ok <==> old(freeAlls) != 0 || Serves(old(heap.Whole()), 0)
    {
      hide Allocators.Valid, Granted, Serves, Carved;
      ghost var w := heap.Whole();
      ok := true;
      Asked();
      if freeAlls == 0 {
        ok := Carve();
        if !ok {
          return false, 0;
        }
        CarvedFirst(NewBlock(w), idle);
      }
      all := TakeRecord();
    }

    lemma Asked()
      requires Valid()
      ensures |heap.state.lists| == CLASSES && (idle == [] <==> freeAlls == 0)
    {
      heap.SixteenLists();
      IdleEmpty(TakenBlocks(), Contents());
    }

    /** The end of `mm_allocator_new`: the first recycled record becomes an allocator without areas. */
    method TakeRecord() returns (all: nat)
      requires Valid() && freeAlls != 0
      modifies this`records, this`freeAlls, this`chains, this`idle
      ensures Valid() && old(idle) != [] && all == old(idle)[0] && idle == old(idle)[1..]
      ensures all !in old(chains) && chains == old(chains)[all := []]
    {
      hide Good, Allocators.Ready, SlotsKept;
      ghost var st := Contents();
      NewReady(TakenBlocks(), st);
      PoppedKept(st.pools, st.chains.Keys, st.idle);
      all := PopRecord();
      assert chains.Keys == st.chains.Keys + {all};
    }

    /** The payload of the block the heap hands out for records. */
    ghost function NewBlock(w: World): nat
      requires |w.heap.lists| == CLASSES
    {
      Buddies.Alloc(w.heap, 0).1 + HEADER
    }

    /** It is taken off the list. */
    method PopRecord() returns (all: nat)
      requires idle != [] && freeAlls == idle[0] && freeAlls in records && records[freeAlls].nextFree == First(idle[1..])
      modifies this`records, this`freeAlls, this`chains, this`idle
      ensures all == old(freeAlls) && Contents() == WithAllocator(old(Contents()))
    {
      all := freeAlls;
      freeAlls := records[all].nextFree;
      records := records[all := Record(0, 0)];
      chains := chains[all := []];
      idle := idle[1..];
    }

    /** The first recycled record belongs to no live allocator, and may become one. */
    lemma NewReady(taken: Tiles, st: Arenas)
      requires Good(taken, st, debug) && st.freeAlls != 0
      ensures st.idle != [] && st.freeAlls == st.idle[0] && st.freeAlls !in st.chains
      ensures st.freeAlls in st.records && st.records[st.freeAlls].nextFree == First(st.idle[1..])
      ensures Good(taken, WithAllocator(st), debug)
    {
      IdleHead(st);
      AllocatorAdded(taken, st, debug);
      if st.freeAlls in st.chains {
        LiveRecord(st, st.freeAlls);
      }
    }

    /** The block of records of `mm_allocator_new`. */
    method Carve() returns (ok: bool)
      requires Valid() && freeAlls == 0
      modifies this, heap, heap.freeList, heap.mmu
      ensures ok <==> Serves(old(heap.Whole()), 0)
      ensures ok ==> Valid() && freeAlls != 0 && heap.Whole() == Granted(old(heap.Whole()), 0)
      ensures ok ==> var p := NewBlock(old(heap.Whole())); pools == old(pools) + {p} && Carved(p, SLOTS, idle)
      ensures ok ==> chains == old(chains) && owner == old(owner) && parcels == old(parcels) && areas == old(areas)
    {
      hide Good, Heap.Mapped, Heap.Represented, Granted, Buddies.Alloc, Serves, Taken, SlotsKept, Carved;
      ghost var w, st := heap.Whole(), Contents();
      HeapOk();
      IdleEmpty(TakenBlocks(), st);
      var r := heap.AllocMinimum();
      if r == Halted {
        return false;
      }
      var p, len := r.ptr, r.len;
      PoolTaken(w, st);
      HeapOk();
      pools := pools + {p};
      CarveSlots(p, len, st);
      PoolKept(st.pools, chains.Keys, p, idle);
      return true;
    }

    lemma IdleEmpty(taken: Tiles, st: Arenas)
      requires Good(taken, st, debug)
      ensures st.idle == [] <==> st.freeAlls == 0
    {
      IdleHead(st);
    }

    lemma PoolTaken(w: World, st: Arenas)
      requires Ok(w.heap) && Good(Taken(w.heap.tiles), st, debug)
      ensures var r, t := Granted(w, 0).heap, Buddies.Alloc(w.heap, 0).1;
              && t >= HEAP && t % 4096 == 0 && t + HEADER !in st.pools
              && Good(Taken(r.tiles), st, debug)
              && Good(Taken(r.tiles), st.(pools := st.pools + {t + HEADER}), debug)
              && t + 4096 <= r.end
    {
      BlockTaken(w.heap, 0);
      var (r, t) := Buddies.Alloc(w.heap, 0);
      NewBlockIsFresh(Taken(w.heap.tiles), st, debug, t);
      MoreTaken(Taken(w.heap.tiles), st, debug, t, Tile(0, false));
      PoolAdded(Taken(r.tiles), st, debug, t + HEADER);
      assert Placed(r.tiles, r.end, t);
    }

    /** The carving loop: records at every stride, each in front of the last on the free list. */
    method CarveSlots(p: nat, len: nat, ghost was: Arenas)
      requires Carving() && Good(TakenBlocks(), was, debug) && p !in was.pools && pools == was.pools + {p}
      requires chains == was.chains && idle == [] && len == 4096 - HEADER
      requires p >= HEADER && (p - HEADER) % 4096 == 0 && p + 4096 < WORD
      modifies this
      ensures Carving() && freeAlls != 0 && Carved(p, SLOTS, idle)
      ensures pools == old(pools) && chains == old(chains)
      ensures owner == old(owner) && parcels == old(parcels) && areas == old(areas)
    {
      hide Good, Allocators.Ready, Carved;
      NoneCarved(p);
      SlotAligned(p, 0);
      var all := AlignToWord(p);
      ghost var i := 0;
      while all + RECORD - p <= len
        invariant 0 <= i <= 16 && all == p + STRIDE * i
        invariant Carving() && pools == was.pools + {p} && (i > 0 ==> freeAlls != 0) && Carved(p, i, idle)
        invariant forall x :: x in idle ==> x < all
        invariant chains == old(chains) && owner == old(owner) && parcels == old(parcels) && areas == old(areas)
        decreases len + p - all
      {
        CarvedMore(p, i, idle);
        CarveOne(all, p, i, was);
        SlotAligned(p, i + 1);
        all := AlignToWord(all + STRIDE);
        i := i + 1;
      }
    }

    method CarveOne(all: nat, ghost p: nat, ghost i: nat, ghost was: Arenas)
      requires Carving() && Good(TakenBlocks(), was, debug) && chains == was.chains
      requires p in pools && p !in was.pools && p >= HEADER && (p - HEADER) % 4096 == 0 && i < 16
      requires all == p + STRIDE * i && forall x :: x in idle ==> x < all
      modifies this`records, this`freeAlls, this`idle
      ensures Carving() && freeAlls == all && idle == [all] + old(idle)
    {
      hide Good, Allocators.Ready;
      ghost var st := Contents();
      var list := if all in records then records[all].list else 0;
      SlotReady(TakenBlocks(), st, was, p, i, list);
      records := records[all := Record(list, freeAlls)];
      freeAlls := all;
      idle := [all] + idle;
      assert Contents() == WithSlot(st, all, list);
    }

    /** A slot of a new block is no live allocator's record, and may be recycled. */
    lemma SlotReady(taken: Tiles, st: Arenas, was: Arenas, p: nat, i: nat, list: nat)
      requires Good(taken, st, debug) && Good(taken, was, debug) && st.chains == was.chains
      requires p in st.pools && p !in was.pools && p >= HEADER && (p - HEADER) % 4096 == 0 && i < 16
      requires forall x :: x in st.idle ==> x < p + STRIDE * i
      ensures Good(taken, WithSlot(st, p + STRIDE * i, list), debug)
    {
      var all := p + STRIDE * i;
      SlotPlace(st, p, i);
      if all in st.chains {
        LiveRecord(was, all);
      }
      SlotAdded(taken, st, debug, all, list);
    }

    /** `mm_align_up` to the size of a pointer, of an address that is aligned already. */
    static method AlignToWord(p: nat) returns (r: nat)
      requires p % PTR == 0 && p + PTR < WORD
      ensures r == p
    {
      assert Pow2(3) == 8;
      assert IsPow2(8);
      AlignUpIsLeast(p, PTR);
      r := AlignUp(p, PTR);
    }

    // -------------------------------------------------------------------------------------------
    // Areas
    // -------------------------------------------------------------------------------------------

    /** The newest area of an allocator. */
    ghost function NewestOf(all: nat): Newest
      reads this
    {
      if all in chains && chains[all] != [] && chains[all][0] in areas then Newest(areas[chains[all][0]]) else NoArea
    }

    /** `_allocator_new_area`: a fresh heap block with room for `blockMin` bytes between its record and
        its guard, in front of the areas of `all`. Its size check stops the kernel where the sum has
        wrapped. */
    method NewArea(all: nat, blockMin: nat) returns (ok: bool, area: nat)
      requires Valid() && all in chains && blockMin < WORD
      modifies this, heap, heap.freeList, heap.mmu
      ensures var xs := old(chains)[all];
              var p := NewPlace(old(heap.Whole()), if xs == [] then 0 else xs[0], blockMin, debug);
              && (ok <==> p.Place?)
              && (ok ==> Valid() && heap.Whole() == p.world && area in areas && areas[area] == p.area)
      ensures ok ==> Extended(old(Contents()), old(TakenBlocks()), Contents(), TakenBlocks(), all)
      ensures ok ==> all in chains && chains[all] != [] && area == chains[all][0]
      ensures ok ==> areas[area].blockLen >= blockMin && areas[area].block == area + AREA
    {
      hide Good, ChainOk, Heap.Valid, Heap.Mapped, Stops, Granted, BlockAdded, Taken, Buddies.Alloc, SupplyOf, Ok;
      hide WithArea, Extended, SlotsKept;
      ghost var w, st := heap.Whole(), Contents();
      HeapOk();
      LiveChain(st, all);
      var needSize := Add(Add(blockMin, AREA), PTR);
      ClassForBound(Add(needSize, HEADER));
      var r := heap.Alloc(needSize);
      if r == Halted {
        return false, 0;
      }
      ghost var c := ClassFor(Add(needSize, HEADER));
      area := r.ptr;
      AreaMade(w, st, all, c);
      if r.len - AREA - PTR < blockMin {
        return false, 0;
      }
      FillArea(all, area, r.len);
      ExtendedBy(st, Taken(w.heap.tiles), TakenBlocks(), all, area, r.len);
      ok := true;
    }

    lemma HeapOk()
      requires heap.Valid()
      ensures Ok(heap.state) && heap.state.end < WORD
    {
    }

    /** The block just handed out is a sound place for a new area. */
    lemma AreaMade(w: World, st: Arenas, all: nat, c: nat)
      requires Ok(w.heap) && c < CLASSES && Good(Taken(w.heap.tiles), st, debug) && all in st.chains
      ensures all in st.records && Size(c) > HEADER + AREA + PTR
      ensures var w', x := Granted(w, c), Buddies.Alloc(w.heap, c).1 + HEADER;
              && x !in st.owner && BlockAdded(Taken(w.heap.tiles), Taken(w'.heap.tiles), x)
              && Good(Taken(w'.heap.tiles), WithArea(st, all, x, Size(c) - HEADER), debug)
              && (x + (Size(c) - HEADER)) % PTR == 0
    {
      hide Good, Buddies.Alloc, SupplyAfter, WithArea, Taken;
      BlockTaken(w.heap, c);
      var (r, t) := Buddies.Alloc(w.heap, c);
      AreaAdded(r.tiles, r.end, Taken(w.heap.tiles), st, debug, all, t, c);
      GuardAligned(t, c);
    }

    /** The record, the guard and the list entry of a new area. */
    method FillArea(all: nat, area: nat, blockSize: nat)
      requires all in records && all in chains && blockSize > AREA + PTR
      requires (area + blockSize) % PTR == 0
      modifies this`areas, this`guards, this`records, this`owner, this`chains, this`parcels
      ensures Contents() == WithArea(old(Contents()), all, area, blockSize)
      ensures area in areas && areas[area] == Area(area + AREA, blockSize - AREA - PTR, 0, old(records)[all].list)
      ensures all in chains && chains[all] == [area] + old(chains)[all]
      ensures pools == old(pools) && idle == old(idle) && chains.Keys == old(chains).Keys
    {
      var block := area + AREA;
      var guard := area + blockSize - PTR;
      assert AlignCheck(guard, PTR);
      guards := guards[guard := all];
      areas := areas[area := Area(block, guard - block, 0, records[all].list)];
      records := records[all := records[all].(list := area)];
      owner := owner[area := all];
      chains := chains[all := [area] + chains[all]];
      parcels := parcels[area := []];
    }

    lemma LiveChain(st: Arenas, all: nat)
      requires Good(TakenBlocks(), st, debug) && all in st.chains
      ensures ChainOk(st, all) && all in st.records && st.records[all].list == First(st.chains[all])
    {
      assert ChainOk(st, all);
    }

    lemma GuardAligned(t: nat, c: nat)
      requires t % 4096 == 0
      ensures (t + Size(c)) % PTR == 0
    {
      DivDownSize(c);
      var p, q := t / 4096, Size(c) / 4096;
      assert t + Size(c) == 8 * (512 * p + 512 * q);
      ModIs(t + Size(c), 8, 512 * p + 512 * q, 0);
    }

    // -------------------------------------------------------------------------------------------
    // Allocation
    // -------------------------------------------------------------------------------------------

    /** The first `if` of `mm_allocate`. */
    method Open(all: nat, blockMin: nat) returns (ok: bool, area: nat)
      requires Valid() && all in chains && blockMin < WORD
      modifies this, heap, heap.freeList, heap.mmu
      ensures var p := ArenaSpec.Open(old(heap.Whole()), old(NewestOf(all)), blockMin, debug);
              && (ok <==> p.Place?)
              && (ok ==> Valid() && heap.Whole() == p.world && area in areas && areas[area] == p.area)
      ensures ok ==> all in old(records) && all in chains && chains[all] != [] && area == chains[all][0]
      ensures ok ==> if old(chains)[all] != [] then Contents() == old(Contents()) && TakenBlocks() == old(TakenBlocks())
              else Extended(old(Contents()), old(TakenBlocks()), Contents(), TakenBlocks(), all)
    {
      hide Allocators.Valid, NewPlace;
      HeadOf(all);
      area := records[all].list;
      ok := true;
      if area == 0 {
        ok, area := NewArea(all, blockMin);
      }
    }

    /** The first half of `mm_allocate`. */
    method Settle(all: nat, size: nat, align: nat) returns (ok: bool, area: nat)
      requires Valid() && all in chains && size < WORD && 0 < align < WORD
      modifies this, heap, heap.freeList, heap.mmu
      ensures var p := ArenaSpec.Settle(old(heap.Whole()), old(NewestOf(all)), size, align, debug);
              && (ok <==> p.Place?)
              && (ok ==> Valid() && heap.Whole() == p.world && area in areas && areas[area] == p.area)
      ensures ok ==> all in chains && chains[all] != [] && area == chains[all][0]
      ensures ok ==> OthersSame(old(Contents()), Contents(), all)
      ensures ok && size + align < WORD ==> area in areas && !TooFull(areas[area], size, align)
      ensures ok && size + align < WORD ==>
        SettledTo(old(Contents()), old(TakenBlocks()), Contents(), TakenBlocks(), all, size, align)
    {
      hide Allocators.Valid, NewPlace, TooFull, Extended, SettledTo, OthersSame, ArenaSpec.Open;
      ghost var st, taken := Contents(), TakenBlocks();
      HeadOf(all);
      OpenFits(heap.Whole(), NewestOf(all), size, align, debug);
      SettleFits(heap.Whole(), NewestOf(all), size, align, debug);
      ok, area := Open(all, Add(size, align));
      if !ok {
        return;
      }
      ghost var mid, taken1 := Contents(), TakenBlocks();
      if TooFull(areas[area], size, align) {
        HeadOf(all);
        ok, area := NewArea(all, Add(size, align));
      }
      if ok {
        SettledBy(st, taken, mid, taken1, Contents(), TakenBlocks(), all, size, align);
      }
    }

    /** `mm_allocate`, as its specification says in machine words. What it grants keeps the arenas sound
        exactly if the sum of size and alignment does not wrap. */
    method Allocate(all: nat, size: nat, align: nat) returns (r: Grant)
      requires Valid() && all in chains && size < WORD && 0 < align < WORD
      modifies this, heap, heap.freeList, heap.mmu
      ensures var o := Serve(old(heap.Whole()), old(NewestOf(all)), size, align, debug);
              && (r == Stopped <==> o.Refused?)
              && (r.At? ==> Ready() && heap.Whole() == o.world && NewestOf(all) == Newest(o.area) && r.ptr == o.ptr)
      ensures r.At? ==> (Valid() <==> size + align < WORD)
      ensures r.At? ==> all in chains && chains[all] != [] && OthersSame(old(Contents()), Contents(), all)
      ensures r.At? && size + align < WORD ==>
        && r.ptr % align == 0
        && Allocated(old(Contents()), old(TakenBlocks()), Contents(), TakenBlocks(), all, size, align, r.ptr)
    {
      hide Allocators.Valid, SettledTo, Passes, TooFull, PtrIn, UsedBehind, ArenaSpec.Settle;
      var ok, area := Settle(all, size, align);
      if !ok {
        return Stopped;
      }
      ghost var mid := Contents();
      HeadOf(all);
      r := Bump(area, size, align);
      assert r.At? ==> Given(mid, Contents(), all, size, align, r.ptr);
    }

    /** The list of an allocator starts at its newest area. */
    lemma HeadOf(all: nat)
      requires Valid() && all in chains
      ensures Whole(heap.Whole())
      ensures all in records && records[all].list == First(chains[all])
      ensures chains[all] == [] <==> records[all].list == 0
      ensures chains[all] != [] ==> var x := chains[all][0];
              x in owner && x in areas && x in parcels && areas[x].block == x + AREA
    {
      ChainHead(Contents(), all);
    }

    lemma ChainHead(st: Arenas, all: nat)
      requires Good(TakenBlocks(), st, debug) && all in st.chains
      ensures all in st.records && st.records[all].list == First(st.chains[all])
      ensures st.chains[all] == [] <==> st.records[all].list == 0
      ensures st.chains[all] != [] ==> var x := st.chains[all][0]; 
              x in st.owner && x in st.areas && x in st.parcels && st.areas[x].block == x + AREA
    {
      assert ChainOk(st, all);
      if st.chains[all] != [] {
        assert st.chains[all][0] in st.chains[all];
        assert AreaOk(TakenBlocks(), st, st.chains[all][0], debug);
      }
    }

    lemma AreaInMemory(x: nat)
      requires Valid() && x in owner
      ensures x in areas && InMemory(areas[x]) && (debug ==> FreeLen(areas[x]) > 0)
    {
      assert AreaOk(TakenBlocks(), Contents(), x, debug);
      assert Placed(heap.state.tiles, heap.state.end, x - HEADER);
    }

    method PutParcel(x: nat, used: nat, ghost p: Parcel)
      requires x in areas && x in parcels
      modifies this`areas, this`parcels
      ensures Contents() == WithParcel(old(Contents()), x, used, p)
    {
      areas := areas[x := areas[x].(useLen := used)];
      parcels := parcels[x := parcels[x] + [p]];
    }

    /** The end of `mm_allocate`: the least aligned address in the free part of the area. */
    method Bump(x: nat, size: nat, align: nat) returns (r: Grant)
      requires Valid() && x in owner && x in areas && x in parcels && size < WORD && 0 < align < WORD
      modifies this`areas, this`parcels
      ensures Ready()
      ensures r == Stopped <==> debug && !Passes(old(areas)[x], size, align)
      ensures r.At? ==> r.ptr == PtrIn(old(areas)[x], align)
      ensures r.At? ==>
        Contents() == WithParcel(old(Contents()), x, UsedBehind(old(areas)[x], size, align), Parcel(r.ptr, size))
      ensures r.At? && size + align >= WORD ==> !Valid()
      ensures r.At? && size + align < WORD && !TooFull(old(areas)[x], size, align) ==> Valid() && r.ptr % align == 0
    {
      hide Good, Allocators.Ready, PtrIn, UsedBehind, Passes, TooFull, Takes, Slop, InMemory, Add, WithParcel;
      ghost var st := Contents();
      AreaInMemory(x);
      Computes(areas[x], size, align);
      var a := areas[x];
      assert debug ==> FreeLen(a) > 0;
      var start := a.block + a.useLen;
      var slop := start % align;
      if slop > 0 {
        slop := align - slop;
      }
      var need := Add(size, slop);
      var ptr := Add(start, slop);
      var used := Add(a.useLen, need);
      if debug && !(FreeLen(a) >= need && used < a.blockLen && AlignCheck(ptr, align)) {
        return Stopped;
      }
      KeepsSound(TakenBlocks(), st, debug, x, size, align);
      PutParcel(x, used, Parcel(ptr, size));
      return At(ptr);
    }

    // -------------------------------------------------------------------------------------------
    // Release
    // -------------------------------------------------------------------------------------------

    /** `mm_allocator_free`: every guard is intact, every area goes back to the heap, and the record is
        recycled. */
    method FreeAll(all: nat)
      requires Valid() && all in chains
      modifies this, heap, heap.freeList
      ensures all in old(records)
      ensures Valid() && Contents() == Without(old(Contents()), all)
      ensures chains == old(chains) - {all} && idle == [all] + old(idle) && freeAlls == all && pools == old(pools)
      ensures HeapRuns.Runs(old(heap.state), HeapRuns.Frees(old(chains)[all], 0), heap.state)
      ensures heap.state.end == old(heap.state.end)
      ensures var xs := old(chains)[all]; TakenBlocks() == old(TakenBlocks()) - Heads(xs, |xs|)
    {
      hide Good, ChainOk, Heap.Mapped, Heap.Represented, Buddies.Free, Ok, Taken, SlotsKept, HeapRuns.Continues, HeapRuns.Runs;
      ghost var st, taken, xs, s := Contents(), TakenBlocks(), chains[all], heap.state;
      HeapOk();
      HeapRuns.ContinuesFirst(s, xs);
      LiveChain(st, all);
      var a := records[all].list;
      ghost var i := 0;
      assert xs[0..] == xs && Heads(xs, 0) == {};
      while a != 0
        invariant 0 <= i <= |xs| && a == First(xs[i..])
        invariant Contents() == st && Ready() && HeapRuns.Continues(s, xs, heap.state, i)
        invariant TakenBlocks() == taken - Heads(xs, i) && heap.state.end == old(heap.state.end)
        decreases |xs| - i
      {
        ListedArea(taken, st, all, i);
        BlockAligned(heap.state, a - HEADER);
        AreaGuardAligned(taken, st, a);
        var guard := GuardAt(areas[a]);
        assert AlignCheck(guard, PTR);
        assert guards[guard] == all;
        var freePtr := a;
        a := areas[a].prev;
        FreeOk(heap.state, freePtr - HEADER);
        heap.SixteenLists();
        HeapRuns.ContinuesOn(s, xs, heap.state, i);
        heap.Free(freePtr);
        i := i + 1;
      }
      assert i == |xs| by {
        ListEnds(taken, st, all, i);
      }
      HeapRuns.ContinuesLast(s, xs, heap.state);
      AllocatorDropped(taken, TakenBlocks(), st, debug, all);
      PushedKept(pools, chains.Keys, idle, all);
      Recycle(all);
      assert chains.Keys == st.chains.Keys - {all};
    }

    lemma BlockAligned(s: State, t: nat)
      requires Ok(s) && t in Taken(s.tiles)
      ensures (t + HEADER) % PTR == 0
    {
      assert Placed(s.tiles, s.end, t);
      DivDown(t - HEAP, s.tiles[t].cls, 0);
      var p := (t - HEAP) / 4096;
      ModIs(t + HEADER, PTR, 512 * p + (HEAP + HEADER) / PTR, 0);
    }

    /** What the loop finds at position `i` of the list: an area of `all`, its guard intact, in a heap
        block not yet given back. */
    lemma ListedArea(taken: Tiles, st: Arenas, all: nat, i: nat)
      requires Good(taken, st, debug) && all in st.chains && i <= |st.chains[all]|
      requires First(st.chains[all][i..]) != 0
      ensures i < |st.chains[all]|
      ensures var xs := st.chains[all]; var x := xs[i];
              && x >= HEADER && x in st.owner && x in st.areas && x - HEADER in taken && x - HEADER !in Heads(xs, i)
              && First(xs[i..]) == x && st.areas[x].prev == First(xs[i + 1..])
              && Heads(xs, i + 1) == Heads(xs, i) + {x - HEADER}
              && GuardAt(st.areas[x]) in st.guards && st.guards[GuardAt(st.areas[x])] == all
    {
      assert ChainOk(st, all);
      var xs := st.chains[all];
      assert xs[i..] != [];
      var x := xs[i];
      assert PrevAt(st.areas, xs, i) && x in xs;
      assert AreaOk(taken, st, x, debug);
      forall l: nat | l < i ensures xs[l] != x {
        assert !Clash(xs, l, i);
      }
    }

    /** The guard of an area is aligned where the area's record is. */
    lemma AreaGuardAligned(taken: Tiles, st: Arenas, x: nat)
      requires Good(taken, st, debug) && x in st.owner && x % PTR == 0
      ensures x in st.areas && GuardAt(st.areas[x]) % PTR == 0
    {
      assert AreaOk(taken, st, x, debug);
      var c := taken[x - HEADER].cls;
      GuardAligned(0, c);
      assert GuardAt(st.areas[x]) == x + Size(c) - HEADER - PTR;
      var p, q := x / PTR, Size(c) / PTR;
      ModIs(GuardAt(st.areas[x]), PTR, p + q - 4, 0);
    }

    lemma ListedNotNull(taken: Tiles, st: Arenas, all: nat, i: nat)
      requires Good(taken, st, debug) && all in st.chains && i < |st.chains[all]|
      ensures st.chains[all][i] >= HEADER
    {
      assert ChainOk(st, all);
      assert st.chains[all][i] in st.chains[all];
      assert AreaOk(taken, st, st.chains[all][i], debug);
    }

    lemma ListEnds(taken: Tiles, st: Arenas, all: nat, i: nat)
      requires Good(taken, st, debug) && all in st.chains && i <= |st.chains[all]|
      requires First(st.chains[all][i..]) == 0
      ensures i == |st.chains[all]|
    {
      if i < |st.chains[all]| {
        ListedNotNull(taken, st, all, i);
      }
    }

    /** The end of `mm_allocator_free`: the record becomes the first recycled one. */
    method Recycle(all: nat)
      requires all in chains && all in records
      modifies this`records, this`freeAlls, this`owner, this`chains, this`idle, this`parcels
      ensures Contents() == Without(old(Contents()), all)
    {
      records := records[all := Record(0, freeAlls)];
      freeAlls := all;
      parcels := map x | x in parcels && !(x in owner && owner[x] == all) :: parcels[x];
      owner := map x | x in owner && owner[x] != all :: owner[x];
      chains := chains - {all};
      idle := [all] + idle;
    }
  }
}
