/** What `mm_allocate` of src/mm/mm_allocator.c decides and computes, in machine words. */
module ArenaSpec {
  import opened Words
  import opened Dyadic
  import opened Tiling
  import opened Buddies
  import opened HeapFrames
  import opened Heaps
  import opened ArenaLayout

  /** The newest area of an allocator, if it has one. */
  datatype Newest = NoArea | Newest(area: Area)

  /** An area to serve from, and the heap behind it; or the kernel has stopped. */
  datatype Place = Nowhere | Place(world: World, area: Area)

  /** An allocation, with the area it left and the heap; or the kernel has stopped. */
  datatype Service = Refused | Served(world: World, area: Area, ptr: nat)

  ghost predicate Whole(w: World) {
    |w.heap.lists| == CLASSES
  }

  /** `_allocator_new_area`: a heap block with a record and a guard around at least `blockMin` bytes. */
  ghost function NewPlace(w: World, prev: nat, blockMin: nat, debug: bool): (p: Place)
    requires Whole(w)
    ensures p.Place? ==> Whole(p.world)
  {
    var need := Add(Add(blockMin, AREA), PTR);
    if Stops(w, need, debug) then Nowhere
    else
      ClassForBound(Add(need, HEADER));
      var c := ClassFor(Add(need, HEADER));
      var len := Size(c) - HEADER - AREA - PTR;
      if len < blockMin then Nowhere
      else Place(Granted(w, c), Area(Buddies.Alloc(w.heap, c).1 + HEADER + AREA, len, 0, prev))
  }

  /** The record of an area, which lies before its block. */
  function RecordAt(a: Area): nat {
    if a.block >= AREA then a.block - AREA else 0
  }

  /** The area cannot hold the allocation, as far as the source's sum tells. */
  predicate TooFull(a: Area, size: nat, align: nat)
    requires align > 0
  {
    FreeLen(a) < Takes(a, size, align)
  }

  /** An area to start with: the newest, or a new one if there is none. */
  ghost function Open(w: World, cur: Newest, blockMin: nat, debug: bool): (p: Place)
    requires Whole(w)
    ensures p.Place? ==> Whole(p.world)
  {
    if cur.NoArea? then NewPlace(w, 0, blockMin, debug) else Place(w, cur.area)
  }

  /** The first half of `mm_allocate`: that area, or a new one for want of room. */
  ghost function Settle(w: World, cur: Newest, size: nat, align: nat, debug: bool): (p: Place)
    requires Whole(w) && align > 0
    ensures p.Place? ==> Whole(p.world)
  {
    var p := Open(w, cur, Add(size, align), debug);
    if p.Place? && TooFull(p.area, size, align)
    then NewPlace(p.world, RecordAt(p.area), Add(size, align), debug)
    else p
  }

  /** The address of the allocation in the area, and the bytes used behind it. */
  function PtrIn(a: Area, align: nat): nat
    requires align > 0
  {
    Add(a.block + a.useLen, Slop(a.block + a.useLen, align))
  }

  function UsedBehind(a: Area, size: nat, align: nat): nat
    requires align > 0
  {
    Add(a.useLen, Takes(a, size, align))
  }

  /** The assertions at the end of `mm_allocate`, live in a debug kernel. */
  predicate Passes(a: Area, size: nat, align: nat)
    requires align > 0
  {
    !TooFull(a, size, align) && UsedBehind(a, size, align) < a.blockLen && AlignCheck(PtrIn(a, align), align)
  }

  /** What the source computes, step by step. */
  lemma Computes(a: Area, size: nat, align: nat)
    requires align > 0
    ensures var start := a.block + a.useLen;
            var slop := if start % align > 0 then align - start % align else 0;
            var need := Add(size, slop);
            && Takes(a, size, align) == need && PtrIn(a, align) == Add(start, slop)
            && UsedBehind(a, size, align) == Add(a.useLen, need)
            && (Passes(a, size, align) <==>
                  FreeLen(a) >= need && Add(a.useLen, need) < a.blockLen && AlignCheck(Add(start, slop), align))
  {
  }

  /** `mm_allocate`. */
  ghost function Serve(w: World, cur: Newest, size: nat, align: nat, debug: bool): (r: Service)
    requires Whole(w) && align > 0
    ensures r.Served? ==> Whole(r.world)
  {
    var p := Settle(w, cur, size, align, debug);
    if p.Nowhere? || (debug && !Passes(p.area, size, align)) then Refused
    else Served(p.world, p.area.(useLen := UsedBehind(p.area, size, align)), PtrIn(p.area, align))
  }

  // ---------------------------------------------------------------------------------------------
  // Requests whose sums do not wrap
  // ---------------------------------------------------------------------------------------------

  /** An area in memory: its block lies in the address space. */
  predicate InMemory(a: Area) {
    a.useLen <= a.blockLen && 0 < a.block && a.block + a.blockLen < WORD
  }

  /** The heap between operations. */
  ghost predicate Steady(w: World) {
    Ok(w.heap) && w.heap.end < WORD
  }

  lemma GrantedSteady(w: World, c: nat)
    requires Steady(w) && c < CLASSES && Serves(w, c)
    ensures Steady(Granted(w, c))
    ensures var (r, t) := Buddies.Alloc(w.heap, c); t + Size(c) < WORD && t !in Taken(w.heap.tiles)
  {
    AllocOk(w.heap, c);
    var (r, t) := Buddies.Alloc(w.heap, c);
    assert t in Taken(r.tiles);
    assert Tiling.Placed(r.tiles, r.end, t);
  }

  lemma NewPlaceSteady(w: World, prev: nat, blockMin: nat, debug: bool)
    requires Steady(w)
    ensures var p := NewPlace(w, prev, blockMin, debug); p.Place? ==> Steady(p.world) && InMemory(p.area)
  {
    var need := Add(Add(blockMin, AREA), PTR);
    ClassForBound(Add(need, HEADER));
    if !Stops(w, need, debug) {
      GrantedSteady(w, ClassFor(Add(need, HEADER)));
    }
  }

  /** A request that fits an area is served in it, at the least aligned address. */
  lemma FitsIn(a: Area, size: nat, align: nat)
    requires InMemory(a) && 0 < align && size < WORD && align < WORD && size + align < WORD && !TooFull(a, size, align)
    ensures var slop := Slop(a.block + a.useLen, align);
            && PtrIn(a, align) == a.block + a.useLen + slop && PtrIn(a, align) % align == 0
            && UsedBehind(a, size, align) == a.useLen + size + slop <= a.blockLen
  {
    var start := a.block + a.useLen;
    SlopAligns(start, align);
    AddIs(size, Slop(start, align));
    AddIs(start, Slop(start, align));
    AddIs(a.useLen, size + Slop(start, align));
  }

  /** `p` is an aligned place for the allocation in the part of the area that is not used. */
  ghost predicate PlaceIn(a: Area, size: nat, align: nat, p: nat)
    requires align > 0
  {
    a.block + a.useLen <= p && p % align == 0 && p + size <= a.block + a.blockLen
  }

  /** An area is too full exactly if there is no such place in it. */
  lemma TooFullExactly(a: Area, size: nat, align: nat)
    requires InMemory(a) && 0 < align && size + align < WORD
    ensures TooFull(a, size, align) <==> forall p: nat :: !PlaceIn(a, size, align, p)
  {
    hide Slop;
    var start := a.block + a.useLen;
    SlopAligns(start, align);
    AddIs(size, Slop(start, align));
    if !TooFull(a, size, align) {
      assert PlaceIn(a, size, align, start + Slop(start, align));
    }
    forall p: nat | PlaceIn(a, size, align, p) ensures !TooFull(a, size, align) {
      assert p >= start + Slop(start, align);
    }
  }

  /** A new area always has room for the request it was made for. */
  lemma NewPlaceFits(w: World, prev: nat, size: nat, align: nat, debug: bool)
    requires Whole(w) && 0 < align && size + align < WORD
    ensures var p := NewPlace(w, prev, Add(size, align), debug);
            p.Place? ==> !TooFull(p.area, size, align) && size + align <= p.area.blockLen && p.area.useLen == 0
  {
    var p := NewPlace(w, prev, Add(size, align), debug);
    if p.Place? {
      SlopAligns(p.area.block, align);
      AddIs(size, align);
      AddIs(size, Slop(p.area.block, align));
    }
  }

  /** A new area is made exactly if the heap serves the whole sum. */
  lemma NewPlaceExactly(w: World, prev: nat, blockMin: nat, debug: bool)
    requires Whole(w) && blockMin < WORD
    ensures NewPlace(w, prev, blockMin, debug).Place? <==>
              blockMin + AREA + PTR + HEADER <= Size(TOP) && Serves(w, ClassFor(blockMin + AREA + PTR + HEADER))
  {
    TopSize();
    AddIs(blockMin, AREA);
    AddIs(Add(blockMin, AREA), PTR);
    var need := Add(Add(blockMin, AREA), PTR);
    AddIs(need, HEADER);
    ClassForBound(Add(need, HEADER));
    ClassForIsLeast(Add(need, HEADER));
    SizeGrows(ClassFor(Add(need, HEADER)), if ClassFor(Add(need, HEADER)) < TOP then TOP else ClassFor(Add(need, HEADER)));
  }

  /** The area that serves a request whose sum does not wrap: one new area at most. */
  lemma SettleExactly(w: World, cur: Newest, size: nat, align: nat, debug: bool)
    requires Whole(w) && 0 < align && size + align < WORD
    ensures Settle(w, cur, size, align, debug) ==
              if cur.Newest? && !TooFull(cur.area, size, align) then Place(w, cur.area)
              else NewPlace(w, if cur.Newest? then RecordAt(cur.area) else 0, size + align, debug)
  {
    AddIs(size, align);
    if cur.NoArea? {
      NewPlaceFits(w, 0, size, align, debug);
    }
  }

  lemma OpenFits(w: World, cur: Newest, size: nat, align: nat, debug: bool)
    requires Whole(w) && 0 < align
    ensures var p := Open(w, cur, Add(size, align), debug);
            size + align < WORD && cur.NoArea? && p.Place? ==> !TooFull(p.area, size, align)
  {
    if size + align < WORD {
      NewPlaceFits(w, 0, size, align, debug);
    }
  }

  lemma SettleFits(w: World, cur: Newest, size: nat, align: nat, debug: bool)
    requires Whole(w) && 0 < align
    ensures var p := Settle(w, cur, size, align, debug);
            size + align < WORD && p.Place? ==> !TooFull(p.area, size, align)
  {
    if size + align < WORD {
      SettleExactly(w, cur, size, align, debug);
      AddIs(size, align);
      NewPlaceFits(w, if cur.Newest? then RecordAt(cur.area) else 0, size, align, debug);
    }
  }

  /** Such a request stops the kernel exactly when a new area is needed that the heap cannot serve, or, in
      a debug kernel, when it would fill an area that exists to the last byte. */
  lemma ServeExactly(w: World, cur: Newest, size: nat, align: nat, debug: bool)
    requires Steady(w) && 0 < align && size + align < WORD && (cur.Newest? ==> InMemory(cur.area))
    ensures Serve(w, cur, size, align, debug).Refused? <==>
              if cur.NoArea? || TooFull(cur.area, size, align) then
                var total := size + align + AREA + PTR + HEADER;
                total > Size(TOP) || !Serves(w, ClassFor(total))
              else debug && FreeLen(cur.area) == Takes(cur.area, size, align)
  {
    hide Granted, Stops, Serves, ClassFor, Settle, NewPlace, TooFull, Takes, Passes, PtrIn, UsedBehind, InMemory;
    hide Size, FreeLen;
    SettleExactly(w, cur, size, align, debug);
    if cur.NoArea? || TooFull(cur.area, size, align) {
      NewPasses(w, if cur.Newest? then RecordAt(cur.area) else 0, size, align, debug);
    } else {
      OldPasses(cur.area, size, align);
    }
  }

  lemma NewPasses(w: World, prev: nat, size: nat, align: nat, debug: bool)
    requires Steady(w) && 0 < align && size + align < WORD
    ensures var p := NewPlace(w, prev, size + align, debug);
            var total := size + align + AREA + PTR + HEADER;
            && (p.Place? <==> total <= Size(TOP) && Serves(w, ClassFor(total)))
            && (p.Place? ==> Passes(p.area, size, align))
  {
    hide Granted, Stops, Serves, ClassFor, NewPlace, TooFull, Passes;
    AddIs(size, align);
    NewPlaceExactly(w, prev, size + align, debug);
    NewPlaceFits(w, prev, size, align, debug);
    NewPlaceSteady(w, prev, size + align, debug);
    var p := NewPlace(w, prev, size + align, debug);
    if p.Place? {
      FreshPasses(p.area, size, align);
    }
  }

  /** An area with room fails the tests exactly if the allocation fills it. */
  lemma OldPasses(a: Area, size: nat, align: nat)
    requires InMemory(a) && 0 < align && size + align < WORD && !TooFull(a, size, align)
    ensures !Passes(a, size, align) <==> FreeLen(a) == Takes(a, size, align)
  {
    FitsIn(a, size, align);
    AddIs(size, Slop(a.block + a.useLen, align));
  }

  lemma FreshPasses(a: Area, size: nat, align: nat)
    requires a.useLen == 0 && 0 < align && size + align < WORD && size + align <= a.blockLen && !TooFull(a, size, align)
    requires 0 < a.block && a.block + a.blockLen < WORD
    ensures Passes(a, size, align)
  {
    hide Slop;
    SlopAligns(a.block, align);
    FitsIn(a, size, align);
  }

  /** There is one new area of `all`, in a block of its own. */
  ghost predicate Extended(was: Arenas, taken: Tiles, now: Arenas, taken': Tiles, all: nat) {
    && all in was.chains && all in was.records && all in now.chains && now.chains[all] != []
    && var x := now.chains[all][0];
       && x !in was.owner && x in now.areas && BlockAdded(taken, taken', x)
       && now == WithArea(was, all, x, now.areas[x].blockLen + AREA + PTR)
  }

  lemma ExtendedBy(was: Arenas, taken: Tiles, taken': Tiles, all: nat, x: nat, size: nat)
    requires all in was.chains && all in was.records && size >= AREA + PTR && x !in was.owner
    requires BlockAdded(taken, taken', x)
    ensures Extended(was, taken, WithArea(was, all, x, size), taken', all)
  {
  }

  /** The arenas, and the heap's taken blocks, once an area has been settled on. */
  ghost predicate SettledTo(was: Arenas, taken: Tiles, now: Arenas, taken': Tiles, all: nat, size: nat, align: nat)
    requires align > 0
  {
    all in was.chains &&
    var xs := was.chains[all];
    if xs != [] && xs[0] in was.areas && !TooFull(was.areas[xs[0]], size, align) then now == was && taken' == taken
    else Extended(was, taken, now, taken', all)
  }

  /** The other allocators are as they were. */
  ghost predicate OthersSame(was: Arenas, now: Arenas, all: nat) {
    now.chains.Keys == was.chains.Keys && forall b :: b in now.chains && b != all ==> now.chains[b] == was.chains[b]
  }

  /** The first area was there or is new, and a second one is new if that is too full. */
  lemma SettledBy(was: Arenas, taken: Tiles, mid: Arenas, taken1: Tiles, now: Arenas, taken2: Tiles, all: nat,
                  size: nat, align: nat)
    requires all in was.chains && all in mid.chains && mid.chains[all] != [] && mid.chains[all][0] in mid.areas
    requires align > 0
    requires if was.chains[all] != [] then mid == was && taken1 == taken else Extended(was, taken, mid, taken1, all)
    requires if TooFull(mid.areas[mid.chains[all][0]], size, align) then Extended(mid, taken1, now, taken2, all)
             else now == mid && taken2 == taken1
    requires size + align < WORD && was.chains[all] == [] ==> !TooFull(mid.areas[mid.chains[all][0]], size, align)
    ensures OthersSame(was, now, all)
    ensures size + align < WORD ==> SettledTo(was, taken, now, taken2, all, size, align)
  {
  }

  /** One more block of the heap is taken, with the payload at `x`. */
  ghost predicate BlockAdded(taken: Tiles, taken': Tiles, x: nat) {
    x >= HEADER && x - HEADER !in taken && x - HEADER in taken' && taken' == taken[x - HEADER := taken'[x - HEADER]]
  }

  /** The arenas after an allocation: an area has been settled on, and has one more. */
  ghost predicate Allocated(was: Arenas, taken: Tiles, now: Arenas, taken': Tiles, all: nat, size: nat, align: nat, ptr: nat)
    requires align > 0
  {
    exists mid :: SettledTo(was, taken, mid, taken', all, size, align) && Given(mid, now, all, size, align, ptr)
  }

  ghost predicate Given(mid: Arenas, now: Arenas, all: nat, size: nat, align: nat, ptr: nat)
    requires align > 0
  {
    && all in mid.chains && mid.chains[all] != []
    && var x := mid.chains[all][0];
       && x in mid.areas && x in mid.parcels
       && now == WithParcel(mid, x, UsedBehind(mid.areas[x], size, align), Parcel(ptr, size))
  }

  // ---------------------------------------------------------------------------------------------
  // Requests whose sums wrap
  // ---------------------------------------------------------------------------------------------

  /** Behind 8 bytes past a multiple of 16 a request for all but 8 of 2^64 bytes, aligned to 16, takes
      none: even a debug kernel grants it, and hands out the same address again. */
  lemma WrapIsServed(w: World, a: Area, debug: bool)
    requires Whole(w) && InMemory(a) && (a.block + a.useLen) % 16 == 8 && a.useLen < a.blockLen
    ensures Serve(w, Newest(a), WORD - 8, 16, debug) == Served(w, a, Add(a.block + a.useLen, 8))
  {
    var start := a.block + a.useLen;
    assert Slop(start, 16) == 8;
    AddIs(WORD - 8, 8);
    AddIs(start, 8);
    AddIs(a.useLen, 0);
    if start + 8 < WORD {
      ModIs(start + 8, 16, start / 16 + 1, 0);
    }
  }

  /** What is handed out lies in its area exactly if the sum of size and alignment does not wrap, whatever
      else passed the tests. */
  lemma KeepsSound(taken: Tiles, st: Arenas, debug: bool, x: nat, size: nat, align: nat)
    requires Good(taken, st, debug) && x in st.owner && x in st.areas && x in st.parcels && InMemory(st.areas[x])
    requires size < WORD && 0 < align < WORD && (debug ==> Passes(st.areas[x], size, align))
    ensures var a := st.areas[x];
            var r := WithParcel(st, x, UsedBehind(a, size, align), Parcel(PtrIn(a, align), size));
            && (size + align < WORD && !TooFull(a, size, align) ==> Good(taken, r, debug) && PtrIn(a, align) % align == 0)
            && (size + align >= WORD ==> !Good(taken, r, debug))
  {
    var a := st.areas[x];
    var used, p := UsedBehind(a, size, align), Parcel(PtrIn(a, align), size);
    assert AreaOk(taken, st, x, debug);
    if size + align < WORD && !TooFull(a, size, align) {
      FitsIn(a, size, align);
      ParcelAdded(taken, st, debug, x, used, p);
    }
    if size + align >= WORD && Good(taken, WithParcel(st, x, used, p), debug) {
      ParcelMustFit(taken, st, debug, x, used, p);
      NoRoomFor(a, size, align);
    }
  }

  /** An aligned address inside the area's free part is at least the alignment, and the area ends inside
      the address space. */
  lemma NoRoomFor(a: Area, size: nat, align: nat)
    requires InMemory(a) && size < WORD && 0 < align < WORD && size + align >= WORD
    ensures !(a.block + a.useLen <= PtrIn(a, align) && PtrIn(a, align) + size <= a.block + a.blockLen)
  {
    var start := a.block + a.useLen;
    var slop := Slop(start, align);
    SlopAligns(start, align);
    AddIs(start, slop);
    if start + slop < WORD {
      MultipleIsAtLeast(start + slop, align);
    }
  }

  lemma MultipleIsAtLeast(m: nat, align: nat)
    requires 0 < m && 0 < align && m % align == 0
    ensures m >= align
  {
    if m < align {
      ModIs(m, align, 0, m);
    }
  }
}
