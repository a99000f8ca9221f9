/** What the arena allocator leaves behind. */
module ArenaRuns {
  import opened Words
  import opened Dyadic
  import opened Tiling
  import opened Buddies
  import opened Heaps
  import opened ArenaLayout
  import opened ArenaSpec
  import opened ArenaAllocator
  import HeapRuns

  /** After `mm_allocator_free` the blocks of the heap are those of any heap of the same extent in which
      the allocator's areas were never taken. */
  lemma AsIfNeverTaken(before: State, areas: set<int>, after: State, other: State)
    requires Ok(after) && Ok(other) && after.end == other.end
    requires Taken(after.tiles) == Taken(before.tiles) - areas
    requires forall t: nat :: t in Taken(other.tiles) <==> t in Taken(before.tiles) && t !in areas
    requires forall t: nat :: t in Taken(other.tiles) && t in Taken(before.tiles) ==> other.tiles[t] == before.tiles[t]
    ensures after.tiles == other.tiles
  {
    assert forall t :: t in Taken(other.tiles) ==> Taken(other.tiles)[t] == other.tiles[t];
    assert Taken(after.tiles) == Taken(other.tiles);
    CanonicalIsUnique(after.tiles, other.tiles, after.end);
  }

  /** Any allocator with an area can be asked for exactly the bytes that area has left. The area holds
      them, so a release kernel grants them; a debug kernel stops. */
  lemma LastBytesFitExactly(a: Allocators, all: nat)
    requires a.Valid() && all in a.chains && a.chains[all] != []
    ensures var x := a.chains[all][0];
            && x in a.areas && 0 <= FreeLen(a.areas[x]) < WORD - 1 && !TooFull(a.areas[x], FreeLen(a.areas[x]), 1)
            && Whole(a.heap.Whole())
            && (Serve(a.heap.Whole(), a.NewestOf(all), FreeLen(a.areas[x]), 1, a.debug).Refused? <==> a.debug)
  {
    a.HeadOf(all);
    var x := a.chains[all][0];
    a.AreaInMemory(x);
    LastBytes(a.heap.Whole(), a.areas[x], a.debug);
  }

  lemma LastBytes(w: World, area: Area, debug: bool)
    requires Steady(w) && InMemory(area)
    ensures var size := FreeLen(area);
            0 <= size < WORD - 1 && !TooFull(area, size, 1) && (Serve(w, Newest(area), size, 1, debug).Refused? <==> debug)
  {
    var size := FreeLen(area);
    SlopAligns(area.block + area.useLen, 1);
    AddIs(size, 0);
    ServeExactly(w, Newest(area), size, 1, debug);
  }

  /** Asking for them. */
  method FillUp(a: Allocators, all: nat) returns (r: Grant)
    requires a.Valid() && all in a.chains && a.chains[all] != []
    modifies a, a.heap, a.heap.freeList, a.heap.mmu
    ensures r == Stopped <==> a.debug
    ensures r.At? ==> a.Valid()
  {
    hide Allocators.Valid, Serve, TooFull;
    LastBytesFitExactly(a, all);
    a.HeadOf(all);
    var area := a.records[all].list;
    r := a.Allocate(all, FreeLen(a.areas[area]), 1);
  }

  // ---------------------------------------------------------------------------------------------
  // Records come back
  // ---------------------------------------------------------------------------------------------

  /** Of all records ever carved none is lost: a new allocator takes a block exactly when all of them are in
      use. */
  lemma BlockOnlyWhenAllUsed(a: Allocators)
    requires a.Valid()
    ensures |a.chains| + |a.idle| == 16 * |a.pools|
    ensures a.freeAlls == 0 <==> |a.chains| == 16 * |a.pools|
  {
    RecordsConserved(a.heap.state.tiles, a.heap.state.end, a.Contents(), a.debug);
    a.Asked();
  }

  /** An allocator is freed and one is made: the same record, and the heap has but got the areas back. */
  method Renew(a: Allocators, all: nat) returns (again: nat)
    requires a.Valid() && all in a.chains
    modifies a, a.heap, a.heap.freeList, a.heap.mmu
    ensures a.Valid() && again == all
    ensures a.chains == old(a.chains)[all := []] && a.idle == old(a.idle) && a.pools == old(a.pools)
    ensures HeapRuns.Runs(old(a.heap.state), HeapRuns.Frees(old(a.chains)[all], 0), a.heap.state)
    ensures old(a.chains)[all] == [] ==> a.heap.state == old(a.heap.state)
  {
    hide Allocators.Valid, HeapRuns.Runs;
    RecordNotNull(a, all);
    a.FreeAll(all);
    var ok;
    ok, again := a.New();
    NothingFreed(old(a.heap.state), old(a.chains)[all], a.heap.state);
  }

  lemma RecordNotNull(a: Allocators, all: nat)
    requires a.Valid() && all in a.chains
    ensures all != 0 && Ok(a.heap.state)
  {
    LiveRecord(a.Contents(), all);
  }

  lemma NothingFreed(s: State, xs: seq<nat>, r: State)
    requires Ok(s) && HeapRuns.Runs(s, HeapRuns.Frees(xs, 0), r)
    ensures xs == [] ==> r == s
  {
  }

  // ---------------------------------------------------------------------------------------------
  // The life of an allocator
  // ---------------------------------------------------------------------------------------------

  datatype Request = Request(size: nat, align: nat)

  /** The arguments are machine words, and an alignment is no zero to divide by. */
  predicate InWords(q: Request) {
    q.size < WORD && 0 < q.align < WORD
  }

  /** How the life of an allocator ends: it cannot be made, it serves all its requests, a request stops the
      kernel, or one is granted whose sum has wrapped, so that it overlaps others. */
  datatype Ending = Unmade | Finished | StoppedAt(i: nat) | OverlapsAt(i: nat)

  /** The requests from number `i` on, one after the other. */
  ghost function Life(w: World, cur: Newest, requests: seq<Request>, i: nat, debug: bool): Ending
    requires Whole(w) && i <= |requests| && forall q :: q in requests ==> InWords(q)
    decreases |requests| - i
  {
    if i == |requests| then Finished
    else
      var q := requests[i];
      assert q in requests && InWords(q);
      match Serve(w, cur, q.size, q.align, debug)
      case Refused => StoppedAt(i)
      case Served(w', area, _) =>
        if q.size + q.align < WORD then Life(w', Newest(area), requests, i + 1, debug) else OverlapsAt(i)
  }

  /** Made first, from a heap block if no recycled record is left. */
  ghost function Lived(w: World, make: bool, requests: seq<Request>, debug: bool): Ending
    requires Whole(w) && forall q :: q in requests ==> InWords(q)
  {
    if make && !Serves(w, 0) then Unmade
    else Life(if make then Granted(w, 0) else w, NoArea, requests, 0, debug)
  }

  /** The heap and the newest area before a request. */
  datatype Moment = Moment(world: World, cur: Newest)

  /** Request `i` is granted, without a wrap, and leads to the next moment. */
  ghost predicate GrantedAt(ms: seq<Moment>, requests: seq<Request>, i: nat, debug: bool) {
    && i < |requests| && i + 1 < |ms| && Whole(ms[i].world) && InWords(requests[i])
    && var q := requests[i];
       var o := Serve(ms[i].world, ms[i].cur, q.size, q.align, debug);
       o.Served? && q.size + q.align < WORD && ms[i + 1] == Moment(o.world, Newest(o.area))
  }

  /** The moments of a life: each request but the last one looked at is granted. */
  ghost predicate Moments(ms: seq<Moment>, requests: seq<Request>, debug: bool) {
    && 0 < |ms| <= |requests| + 1
    && forall i {:trigger GrantedAt(ms, requests, i, debug)} :: 0 <= i < |ms| - 1 ==> GrantedAt(ms, requests, i, debug)
  }

  /** What becomes of it at the last moment. */
  ghost predicate EndsAt(m: Moment, requests: seq<Request>, i: nat, debug: bool, e: Ending)
    requires i <= |requests|
  {
    if i == |requests| then e == Finished
    else
      Whole(m.world) && InWords(requests[i]) &&
      var q := requests[i];
      if Serve(m.world, m.cur, q.size, q.align, debug).Refused? then e == StoppedAt(i)
      else q.size + q.align >= WORD && e == OverlapsAt(i)
  }

  /** A life ends as its moments tell. */
  lemma {:induction false} LifeHasMoments(was: seq<Moment>, requests: seq<Request>, debug: bool) returns (ms: seq<Moment>)
    requires Moments(was, requests, debug) && Whole(was[|was| - 1].world) && forall q :: q in requests ==> InWords(q)
    ensures Moments(ms, requests, debug) && ms[0] == was[0]
    ensures var m := was[|was| - 1];
            EndsAt(ms[|ms| - 1], requests, |ms| - 1, debug, Life(m.world, m.cur, requests, |was| - 1, debug))
    decreases |requests| + 1 - |was|
  {
    hide Serve;
    var i := |was| - 1;
    var m := was[i];
    ms := was;
    if i < |requests| {
      LifeOn(m.world, m.cur, requests, i, debug);
      var q := requests[i];
      var o := Serve(m.world, m.cur, q.size, q.align, debug);
      if o.Served? && q.size + q.align < WORD {
        ms := was + [Moment(o.world, Newest(o.area))];
        MomentsOn(was, requests, debug, ms);
        ms := LifeHasMoments(ms, requests, debug);
      }
    } else {
      LifeOver(m.world, m.cur, requests, debug);
    }
  }

  lemma MomentsOn(was: seq<Moment>, requests: seq<Request>, debug: bool, ms: seq<Moment>)
    requires Moments(was, requests, debug) && |ms| == |was| + 1 <= |requests| + 1 && was == ms[..|was|]
    requires GrantedAt(ms, requests, |was| - 1, debug)
    ensures Moments(ms, requests, debug)
  {
    hide Serve;
    forall i | 0 <= i < |ms| - 1 ensures GrantedAt(ms, requests, i, debug) {
      if i < |was| - 1 {
        assert GrantedAt(was, requests, i, debug);
        assert ms[i] == was[i] && ms[i + 1] == was[i + 1];
      }
    }
  }

  /** It cannot be made exactly for want of a block of records; else its moments start with no area. */
  lemma LivedExactly(w: World, make: bool, requests: seq<Request>, debug: bool)
    requires Whole(w) && forall q :: q in requests ==> InWords(q)
    ensures var e, m := Lived(w, make, requests, debug), Moment(if make then Granted(w, 0) else w, NoArea);
            if make && !Serves(w, 0) then e == Unmade
            else exists ms :: FromOn(ms, m, requests, debug, e)
  {
    hide Life, Granted, Serves, GrantedAt, Serve, EndsAt;
    if !make || Serves(w, 0) {
      GrantedWhole(w);
      var m := Moment(if make then Granted(w, 0) else w, NoArea);
      var ms := LifeHasMoments([m], requests, debug);
      assert FromOn(ms, m, requests, debug, Life(m.world, m.cur, requests, 0, debug));
    }
  }

  lemma GrantedWhole(w: World)
    requires Whole(w)
    ensures Whole(Granted(w, 0))
  {
  }

  ghost predicate FromOn(ms: seq<Moment>, m: Moment, requests: seq<Request>, debug: bool, e: Ending) {
    Moments(ms, requests, debug) && ms[0] == m && EndsAt(ms[|ms| - 1], requests, |ms| - 1, debug, e)
  }

  /** The taken blocks are those of `base` and the areas in `xs`, which are not of `base`. */
  ghost predicate Extra(xs: seq<nat>, taken: Tiles, base: Tiles) {
    (forall x :: x in xs ==> x - HEADER !in base) && taken - Heads(xs, |xs|) == base
  }

  lemma OneMoreHead(x: nat, xs: seq<nat>)
    ensures Heads([x] + xs, |xs| + 1) == {x - HEADER} + Heads(xs, |xs|)
  {
    var ys := [x] + xs;
    forall h | h in {x - HEADER} + Heads(xs, |xs|) ensures h in Heads(ys, |ys|) {
      if h == x - HEADER {
        assert ys[0] - HEADER == h;
      } else {
        var i :| 0 <= i < |xs| && xs[i] - HEADER == h;
        assert ys[i + 1] - HEADER == h;
      }
    }
  }

  lemma ExtraGrows(was: Tiles, now: Tiles, base: Tiles, x: nat, xs: seq<nat>)
    requires Extra(xs, was, base) && BlockAdded(was, now, x)
    ensures Extra([x] + xs, now, base)
  {
    OneMoreHead(x, xs);
    assert x - HEADER !in base;
    assert now - ({x - HEADER} + Heads(xs, |xs|)) == base;
  }

  /** The areas of the allocators other than `all`, and what they hold, are `owner` and `parcels`. */
  ghost predicate Others(st: Arenas, all: nat, owner: map<nat, nat>, parcels: map<nat, seq<Parcel>>) {
    && (forall x :: x in owner <==> x in st.owner && st.owner[x] != all)
    && (forall x :: x in owner ==> x in st.owner && st.owner[x] == owner[x])
    && forall x :: x in owner && x in parcels ==> x in st.parcels && st.parcels[x] == parcels[x]
  }

  lemma ParcelKeepsOthers(st: Arenas, all: nat, x: nat, used: nat, p: Parcel,
                          owner: map<nat, nat>, parcels: map<nat, seq<Parcel>>)
    requires Others(st, all, owner, parcels) && x in st.owner && st.owner[x] == all && x in st.areas && x in st.parcels
    ensures Others(WithParcel(st, x, used, p), all, owner, parcels)
  {
  }

  lemma AreaKeepsOthers(st: Arenas, all: nat, x: nat, size: nat,
                        owner: map<nat, nat>, parcels: map<nat, seq<Parcel>>)
    requires Others(st, all, owner, parcels) && all in st.chains && all in st.records && size >= AREA + PTR
    requires x !in st.owner
    ensures Others(WithArea(st, all, x, size), all, owner, parcels)
  {
  }

  /** The newest area of an allocator is its own. */
  ghost predicate Owned(st: Arenas, all: nat) {
    all in st.chains && (st.chains[all] != [] ==> st.chains[all][0] in st.owner && st.owner[st.chains[all][0]] == all)
  }

  lemma ListedIsOwned(a: Allocators, all: nat)
    requires a.Valid() && all in a.chains
    ensures Owned(a.Contents(), all)
  {
    assert ChainOk(a.Contents(), all);
    if a.chains[all] != [] {
      assert a.chains[all][0] in a.chains[all];
    }
  }

  lemma SettlingKeeps(was: Arenas, taken: Tiles, mid: Arenas, taken': Tiles, all: nat, size: nat, align: nat,
                      base: Tiles, owner: map<nat, nat>, parcels: map<nat, seq<Parcel>>)
    requires align > 0 && SettledTo(was, taken, mid, taken', all, size, align)
    requires Owned(was, all) && Extra(was.chains[all], taken, base) && Others(was, all, owner, parcels)
    ensures Owned(mid, all) && Extra(mid.chains[all], taken', base) && Others(mid, all, owner, parcels)
  {
    if Extended(was, taken, mid, taken', all) {
      var x := mid.chains[all][0];
      ExtraGrows(taken, taken', base, x, was.chains[all]);
      AreaKeepsOthers(was, all, x, mid.areas[x].blockLen + AREA + PTR, owner, parcels);
    }
  }

  /** An allocation leaves the other allocators alone, and takes no block but for an area of its own. */
  lemma AllocationKeeps(was: Arenas, taken: Tiles, now: Arenas, taken': Tiles, all: nat, size: nat, align: nat, ptr: nat,
                        base: Tiles, owner: map<nat, nat>, parcels: map<nat, seq<Parcel>>)
    requires align > 0 && Allocated(was, taken, now, taken', all, size, align, ptr)
    requires Owned(was, all) && Extra(was.chains[all], taken, base) && Others(was, all, owner, parcels)
    ensures all in now.chains && Extra(now.chains[all], taken', base) && Others(now, all, owner, parcels)
  {
    hide Extra, Others, Extended;
    var mid :| SettledTo(was, taken, mid, taken', all, size, align) && Given(mid, now, all, size, align, ptr);
    SettlingKeeps(was, taken, mid, taken', all, size, align, base, owner, parcels);
    var x := mid.chains[all][0];
    ParcelKeepsOthers(mid, all, x, UsedBehind(mid.areas[x], size, align), Parcel(ptr, size), owner, parcels);
  }

  /** What the requests leave alone: the other allocators `chains`, their areas and allocations, and the
      blocks in `base`. */
  ghost predicate Going(st: Arenas, taken: Tiles, all: nat, base: Tiles, chains: map<nat, seq<nat>>,
                        owner: map<nat, nat>, parcels: map<nat, seq<Parcel>>)
  {
    && all in st.chains && all !in chains && st.chains - {all} == chains
    && Extra(st.chains[all], taken, base) && Others(st, all, owner, parcels)
  }

  /** A new allocator owns no area. */
  lemma StartGoing(a: Allocators, all: nat, chains: map<nat, seq<nat>>)
    requires a.Valid() && all !in chains && a.chains == chains[all := []]
    ensures Going(a.Contents(), a.TakenBlocks(), all, a.TakenBlocks(), chains, a.owner, a.parcels)
    ensures Whole(a.heap.Whole()) && a.NewestOf(all) == NoArea
  {
    assert ChainOk(a.Contents(), all);
    assert Heads([], 0) == {};
  }

  lemma EndGoing(st: Arenas, taken: Tiles, all: nat, base: Tiles, chains: map<nat, seq<nat>>, owner: map<nat, nat>,
                 parcels: map<nat, seq<Parcel>>)
    requires Going(st, taken, all, base, chains, owner, parcels) && all in st.records
    ensures var r := Without(st, all);
            && r.chains == chains && r.owner == owner
            && forall x :: x in owner && x in parcels ==> x in r.parcels && r.parcels[x] == parcels[x]
    ensures taken - Heads(st.chains[all], |st.chains[all]|) == base
  {
  }

  /** One request more. */
  lemma LifeOn(w: World, cur: Newest, requests: seq<Request>, i: nat, debug: bool)
    requires Whole(w) && i < |requests| && forall q :: q in requests ==> InWords(q)
    ensures InWords(requests[i])
    ensures var q := requests[i];
            var o := Serve(w, cur, q.size, q.align, debug);
            Life(w, cur, requests, i, debug) ==
              if o.Refused? then StoppedAt(i)
              else if q.size + q.align < WORD then Life(o.world, Newest(o.area), requests, i + 1, debug)
              else OverlapsAt(i)
  {
    assert requests[i] in requests;
  }

  /** The same blocks are taken, and the heap did not grow. */
  lemma SameBlocks(s: State, r: State)
    requires Ok(s) && Ok(r) && s.end == r.end && Taken(s.tiles) == Taken(r.tiles)
    ensures s.tiles == r.tiles
  {
    CanonicalIsUnique(r.tiles, s.tiles, s.end);
  }

  /** An allocator is made, serves any requests and is freed; how this ends is told from the state of the
      heap alone. Once it is over, the other allocators and their allocations are as before, and so are the
      heap's taken blocks, but for a block of records when there was no recycled one; when the heap did not
      grow either, it has every block it had. */
  method Lifetime(a: Allocators, requests: seq<Request>) returns (e: Ending)
    requires a.Valid() && forall q :: q in requests ==> InWords(q)
    modifies a, a.heap, a.heap.freeList, a.heap.mmu
    ensures Whole(old(a.heap.Whole()))
    ensures e == Lived(old(a.heap.Whole()), old(a.freeAlls) == 0, requests, a.debug)
    ensures e.Finished? ==> a.Valid() && a.chains == old(a.chains) && a.owner == old(a.owner)
    ensures e.Finished? ==> forall x :: x in old(a.owner) && x in old(a.parcels) ==>
              x in a.parcels && a.parcels[x] == old(a.parcels)[x]
    ensures e.Finished? && old(a.freeAlls) != 0 ==> a.TakenBlocks() == old(a.TakenBlocks())
    ensures e.Finished? && old(a.freeAlls) != 0 && a.heap.heapEnd == old(a.heap.heapEnd) ==>
      a.heap.state.tiles == old(a.heap.state.tiles)
  {
    hide Allocators.Valid, Going, Life, Serve, Taken, Granted, Ok;
    WholeHeap(a);
    ghost var s, w, make := a.heap.state, a.heap.Whole(), a.freeAlls == 0;
    var ok, all := a.New();
    if !ok {
      return Unmade;
    }
    ghost var base := a.TakenBlocks();
    StartGoing(a, all, old(a.chains));
    e := Requests(a, all, requests, base, old(a.chains), old(a.owner), old(a.parcels));
    if e.Finished? {
      WholeHeap(a);
      a.HeadOf(all);
      EndGoing(a.Contents(), a.TakenBlocks(), all, base, old(a.chains), old(a.owner), old(a.parcels));
      a.FreeAll(all);
      WholeHeap(a);
      if !make && a.heap.heapEnd == old(a.heap.heapEnd) {
        SameBlocks(s, a.heap.state);
      }
    }
  }

  lemma WholeHeap(a: Allocators)
    requires a.Valid()
    ensures Whole(a.heap.Whole()) && Ok(a.heap.state) && a.heap.state.end == a.heap.heapEnd
  {
  }

  method Requests(a: Allocators, all: nat, requests: seq<Request>, ghost base: Tiles, ghost chains: map<nat, seq<nat>>,
                  ghost owner: map<nat, nat>, ghost parcels: map<nat, seq<Parcel>>)
    returns (e: Ending)
    requires a.Valid() && all in a.chains && Going(a.Contents(), a.TakenBlocks(), all, base, chains, owner, parcels)
    requires Whole(a.heap.Whole()) && forall q :: q in requests ==> InWords(q)
    modifies a, a.heap, a.heap.freeList, a.heap.mmu
    ensures e == Life(old(a.heap.Whole()), old(a.NewestOf(all)), requests, 0, a.debug)
    ensures e.Finished? ==>
      a.Valid() && all in a.chains && Going(a.Contents(), a.TakenBlocks(), all, base, chains, owner, parcels)
  {
    hide Allocators.Valid, Going, Serve, Life;
    ghost var w, cur := a.heap.Whole(), a.NewestOf(all);
    var i := 0;
    while i < |requests|
      invariant 0 <= i <= |requests| && a.Valid() && all in a.chains && Whole(a.heap.Whole())
      invariant Going(a.Contents(), a.TakenBlocks(), all, base, chains, owner, parcels)
      invariant Life(w, cur, requests, 0, a.debug) == Life(a.heap.Whole(), a.NewestOf(all), requests, i, a.debug)
    {
      LifeOn(a.heap.Whole(), a.NewestOf(all), requests, i, a.debug);
      var q := requests[i];
      var r := ServeOne(a, all, q, base, chains, owner, parcels);
      if r == Stopped {
        return StoppedAt(i);
      }
      if q.size + q.align >= WORD {
        return OverlapsAt(i);
      }
      i := i + 1;
    }
    LifeOver(a.heap.Whole(), a.NewestOf(all), requests, a.debug);
    return Finished;
  }

  lemma LifeOver(w: World, cur: Newest, requests: seq<Request>, debug: bool)
    requires Whole(w) && forall q :: q in requests ==> InWords(q)
    ensures Life(w, cur, requests, |requests|, debug) == Finished
  {
  }

  method ServeOne(a: Allocators, all: nat, q: Request, ghost base: Tiles, ghost chains: map<nat, seq<nat>>,
                  ghost owner: map<nat, nat>, ghost parcels: map<nat, seq<Parcel>>)
    returns (r: Grant)
    requires a.Valid() && Going(a.Contents(), a.TakenBlocks(), all, base, chains, owner, parcels)
    requires InWords(q) && Whole(a.heap.Whole())
    modifies a, a.heap, a.heap.freeList, a.heap.mmu
    ensures var o := Serve(old(a.heap.Whole()), old(a.NewestOf(all)), q.size, q.align, a.debug);
            && (r == Stopped <==> o.Refused?)
            && (r.At? ==> a.heap.Whole() == o.world && a.NewestOf(all) == Newest(o.area))
    ensures r.At? && q.size + q.align < WORD ==>
      a.Valid() && all in a.chains && Going(a.Contents(), a.TakenBlocks(), all, base, chains, owner, parcels)
  {
    hide Allocators.Valid, Serve, Extra, Others, Allocated, Taken;
    ghost var st, taken := a.Contents(), a.TakenBlocks();
    ListedIsOwned(a, all);
    r := a.Allocate(all, q.size, q.align);
    if r.At? && q.size + q.align < WORD {
      AllocationKeeps(st, taken, a.Contents(), a.TakenBlocks(), all, q.size, q.align, r.ptr, base, owner, parcels);
    }
  }
}
