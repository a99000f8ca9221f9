/** Where the arenas of src/mm/mm_allocator.c keep their records, guards and allocations inside heap
    blocks, and why none of them overlap. */
module ArenaLayout {
  import opened Words
  import opened Dyadic
  import opened Tiling
  import opened Lists

  /** `area_t`. */
  datatype Area = Area(block: nat, blockLen: nat, useLen: nat, prev: nat)

  /** `struct mm_allocator`. */
  datatype Record = Record(list: nat, nextFree: nat)

  /** An allocation handed out. */
  datatype Parcel = Parcel(start: nat, len: nat)

  /** `sizeof` of an area, an allocator, and a pointer; and the stride between the allocators carved
      from one block, which the source reaches by adding `sizeof` to a typed pointer. */
  const AREA := 32
  const RECORD := 16
  const PTR := 8
  const STRIDE := 256

  /** The allocators in memory, and who holds what. The ghost part says which allocator each area
      belongs to, the areas of each live allocator from the newest, the recycled records in list order,
      the blocks carved into records, and the allocations of each area in address order. */
  datatype Arenas = Arenas(
    areas: map<nat, Area>,
    guards: map<nat, nat>,
    records: map<nat, Record>,
    freeAlls: nat,
    owner: map<nat, nat>,
    chains: map<nat, seq<nat>>,
    idle: seq<nat>,
    pools: set<nat>,
    parcels: map<nat, seq<Parcel>>)

  // ---------------------------------------------------------------------------------------------
  // The invariant
  // ---------------------------------------------------------------------------------------------

  /** The allocations of an area lie one after the other in the used part of its block, and the last one
      ends it. */
  ghost predicate ParcelsOk(a: Area, ps: seq<Parcel>) {
    && (if ps == [] then a.useLen == 0 else ps[|ps| - 1].start + ps[|ps| - 1].len == a.block + a.useLen)
    && (forall i :: 0 <= i < |ps| ==> a.block <= ps[i].start && ps[i].start + ps[i].len <= a.block + a.useLen)
    && (forall i, j :: 0 <= i < j < |ps| ==> ps[i].start + ps[i].len <= ps[j].start)
  }

  /** The area `x` fills the heap block at `x - HEADER`: record, block and guard, in this order. */
  ghost predicate AreaOk(taken: Tiles, st: Arenas, x: nat, debug: bool) {
    && x >= HEADER && x - HEADER in taken && x in st.owner && x in st.areas && x in st.parcels
    && st.owner[x] in st.chains && x !in st.pools
    && var a := st.areas[x];
       && a.block == x + AREA && a.blockLen + HEADER + AREA + PTR == Size(taken[x - HEADER].cls)
       && a.useLen <= a.blockLen && (debug ==> a.useLen < a.blockLen)
       && a.block + a.blockLen in st.guards && st.guards[a.block + a.blockLen] == st.owner[x]
       && ParcelsOk(a, st.parcels[x])
  }

  ghost predicate PrevAt(areas: map<nat, Area>, xs: seq<nat>, i: nat)
    requires i < |xs|
  {
    xs[i] in areas && areas[xs[i]].prev == First(xs[i + 1..])
  }

  /** The list of a live allocator leads through exactly its areas. */
  ghost predicate ChainOk(st: Arenas, all: nat)
    requires all in st.chains
  {
    var xs := st.chains[all];
    && all in st.records && st.records[all].list == First(xs)
    && NoDup(xs) && (forall x :: x in xs <==> x in st.owner && st.owner[x] == all)
    && forall i {:trigger PrevAt(st.areas, xs, i)} :: 0 <= i < |xs| ==> PrevAt(st.areas, xs, i)
  }

  ghost predicate NextAt(records: map<nat, Record>, xs: seq<nat>, i: nat)
    requires i < |xs|
  {
    xs[i] in records && records[xs[i]].nextFree == First(xs[i + 1..])
  }

  ghost predicate IdleOk(st: Arenas) {
    && NoDup(st.idle) && st.freeAlls == First(st.idle) && 0 !in st.idle
    && (forall r {:trigger SlotOk(st, r)} :: r in st.idle ==> SlotOk(st, r))
    && forall i {:trigger NextAt(st.records, st.idle, i)} :: 0 <= i < |st.idle| ==> NextAt(st.records, st.idle, i)
  }

  /** The payload of the block the record `r` was carved from. */
  function PoolOf(r: nat): nat {
    r - r % 4096 + HEADER
  }

  /** `r` is one of the slots of a block of records. */
  ghost predicate SlotOk(st: Arenas, r: nat) {
    PoolOf(r) in st.pools && r >= PoolOf(r) && (r - PoolOf(r)) % STRIDE == 0 && r - PoolOf(r) <= 15 * STRIDE
  }

  ghost predicate PoolOk(taken: Tiles, p: nat) {
    p >= HEADER && p - HEADER in taken && taken[p - HEADER].cls == 0
  }

  ghost predicate AreasOk(taken: Tiles, st: Arenas, debug: bool) {
    forall x {:trigger AreaOk(taken, st, x, debug)} :: x in st.owner ==> AreaOk(taken, st, x, debug)
  }

  ghost predicate ChainsOk(st: Arenas) {
    forall all {:trigger ChainOk(st, all)} :: all in st.chains ==>
      ChainOk(st, all) && SlotOk(st, all) && all !in st.idle && all != 0
  }

  ghost predicate PoolsOk(taken: Tiles, st: Arenas) {
    forall p {:trigger PoolOk(taken, p)} :: p in st.pools ==> PoolOk(taken, p)
  }

  ghost predicate Good(taken: Tiles, st: Arenas, debug: bool) {
    AreasOk(taken, st, debug) && ChainsOk(st) && IdleOk(st) && PoolsOk(taken, st)
  }

  // ---------------------------------------------------------------------------------------------
  // Isolation
  // ---------------------------------------------------------------------------------------------

  /** A stretch of memory somebody owns: the header of a taken heap block, an area's record, an area's
      guard, an allocation, or an allocator record. */
  datatype Item = HeaderOf(block: nat) | AreaRecord(area: nat) | Guard(area: nat)
                | Allocation(area: nat, number: nat) | AllocatorRecord(record: nat)

  ghost predicate Exists(taken: Tiles, st: Arenas, i: Item) {
    match i
    case HeaderOf(t) => t in taken
    case AreaRecord(x) => x in st.owner
    case Guard(x) => x in st.owner
    case Allocation(x, n) => x in st.owner && x in st.parcels && n < |st.parcels[x]|
    case AllocatorRecord(r) => r in st.chains || r in st.idle
  }

  ghost function Start(st: Arenas, i: Item): nat {
    match i
    case HeaderOf(t) => t
    case AreaRecord(x) => x
    case Guard(x) => if x in st.areas then st.areas[x].block + st.areas[x].blockLen else 0
    case Allocation(x, n) => if x in st.parcels && n < |st.parcels[x]| then st.parcels[x][n].start else 0
    case AllocatorRecord(r) => r
  }

  ghost function Length(st: Arenas, i: Item): nat {
    match i
    case HeaderOf(_) => HEADER
    case AreaRecord(_) => AREA
    case Guard(_) => PTR
    case Allocation(x, n) => if x in st.parcels && n < |st.parcels[x]| then st.parcels[x][n].len else 0
    case AllocatorRecord(_) => RECORD
  }

  /** The heap block an item lies in. */
  ghost function HomeOf(i: Item): int {
    match i
    case HeaderOf(t) => t
    case AreaRecord(x) => x - HEADER
    case Guard(x) => x - HEADER
    case Allocation(x, _) => x - HEADER
    case AllocatorRecord(r) => PoolOf(r) - HEADER
  }

  /** Every item lies inside its heap block. */
  lemma InsideHome(taken: Tiles, st: Arenas, debug: bool, i: Item)
    requires Good(taken, st, debug) && Exists(taken, st, i)
    ensures HomeOf(i) in taken
    ensures HomeOf(i) <= Start(st, i) && Start(st, i) + Length(st, i) <= HomeOf(i) + Size(taken[HomeOf(i)].cls)
  {
    match i
    case HeaderOf(t) =>
    case AreaRecord(x) => assert AreaOk(taken, st, x, debug);
    case Guard(x) => assert AreaOk(taken, st, x, debug);
    case Allocation(x, n) => assert AreaOk(taken, st, x, debug);
    case AllocatorRecord(r) =>
      RecordSlot(taken, st, debug, r);
  }

  lemma RecordSlot(taken: Tiles, st: Arenas, debug: bool, r: nat)
    requires Good(taken, st, debug) && (r in st.chains || r in st.idle)
    ensures SlotOk(st, r) && PoolOk(taken, PoolOf(r))
  {
    if r in st.chains {
      assert ChainOk(st, r);
    }
    assert SlotOk(st, r);
    assert PoolOf(r) in st.pools;
  }

  predicate Disjoint(s: nat, m: nat, t: nat, n: nat) {
    s + m <= t || t + n <= s
  }

  lemma SameHome(taken: Tiles, st: Arenas, debug: bool, i: Item, j: Item)
    requires Good(taken, st, debug) && Exists(taken, st, i) && Exists(taken, st, j)
    requires i != j && HomeOf(i) == HomeOf(j)
    ensures Disjoint(Start(st, i), Length(st, i), Start(st, j), Length(st, j))
  {
    if i.AllocatorRecord? {
      RecordSlot(taken, st, debug, i.record);
    }
    if j.AllocatorRecord? {
      RecordSlot(taken, st, debug, j.record);
    }
    if i.AllocatorRecord? && j.AllocatorRecord? {
      SlotsApart(st, i.record, j.record);
    } else if i.Allocation? && j.Allocation? {
      SameArea(taken, st, debug, i.area, i.number, j.number);
    } else {
      if !i.AllocatorRecord? && !i.HeaderOf? {
        InArea(taken, st, debug, i);
      }
      if !j.AllocatorRecord? && !j.HeaderOf? {
        InArea(taken, st, debug, j);
      }
    }
  }

  ghost function AreaOf(i: Item): int {
    match i
    case AreaRecord(x) => x
    case Guard(x) => x
    case Allocation(x, _) => x
    case _ => HomeOf(i) + HEADER
  }

  /** The parts of a block: its header, the area's record, the allocations, the guard. */
  lemma InArea(taken: Tiles, st: Arenas, debug: bool, i: Item)
    requires Good(taken, st, debug) && Exists(taken, st, i) && !i.AllocatorRecord? && !i.HeaderOf?
    ensures var x := AreaOf(i);
            && x >= HEADER && x - HEADER == HomeOf(i) && x !in st.pools && x in st.areas && st.areas[x].block == x + AREA
            && match i
               case AreaRecord(_) => Start(st, i) == x
               case Guard(_) => Start(st, i) == x + AREA + st.areas[x].blockLen
               case _ => x + AREA <= Start(st, i) && Start(st, i) + Length(st, i) <= x + AREA + st.areas[x].blockLen
  {
    match i
    case AreaRecord(x) => assert AreaOk(taken, st, x, debug);
    case Guard(x) => assert AreaOk(taken, st, x, debug);
    case Allocation(x, n) => assert AreaOk(taken, st, x, debug);
  }

  lemma SameArea(taken: Tiles, st: Arenas, debug: bool, x: nat, n: nat, m: nat)
    requires Good(taken, st, debug) && x in st.owner && x in st.parcels
    requires n < |st.parcels[x]| && m < |st.parcels[x]| && n != m
    ensures var p, q := st.parcels[x][n], st.parcels[x][m]; Disjoint(p.start, p.len, q.start, q.len)
  {
    assert AreaOk(taken, st, x, debug);
    assert n < m || m < n;
  }

  lemma SlotsApart(st: Arenas, r: nat, s: nat)
    requires SlotOk(st, r) && SlotOk(st, s) && r != s && PoolOf(r) == PoolOf(s)
    ensures Disjoint(r, RECORD, s, RECORD)
  {
    var p := PoolOf(r);
    var a, b := (r - p) / STRIDE, (s - p) / STRIDE;
    assert r == p + STRIDE * a && s == p + STRIDE * b;
  }

  /** No two owned stretches overlap: not two allocations of any live allocators, nor an allocation and
      a record, a guard or a heap header. */
  lemma Isolation(ts: Tiles, end: nat, st: Arenas, debug: bool, i: Item, j: Item)
    requires Tiled(ts, end) && Good(Taken(ts), st, debug)
    requires Exists(Taken(ts), st, i) && Exists(Taken(ts), st, j) && i != j
    ensures Disjoint(Start(st, i), Length(st, i), Start(st, j), Length(st, j))
  {
    InsideHome(Taken(ts), st, debug, i);
    InsideHome(Taken(ts), st, debug, j);
    if HomeOf(i) == HomeOf(j) {
      SameHome(Taken(ts), st, debug, i, j);
    } else {
      BlocksDisjoint(ts, end, HomeOf(i), HomeOf(j));
    }
  }

  // ---------------------------------------------------------------------------------------------
  // Steps
  // ---------------------------------------------------------------------------------------------

  function GuardAt(a: Area): nat {
    a.block + a.blockLen
  }

  lemma ChainSame(st: Arenas, r: Arenas, b: nat)
    requires b in st.chains && b in r.chains && r.chains[b] == st.chains[b] && ChainOk(st, b)
    requires b in r.records && b in st.records && r.records[b].list == st.records[b].list
    requires forall x :: (x in r.owner && r.owner[x] == b) <==> (x in st.owner && st.owner[x] == b)
    requires forall x :: x in st.chains[b] && x in st.areas ==> x in r.areas && r.areas[x].prev == st.areas[x].prev
    ensures ChainOk(r, b)
  {
    var xs := st.chains[b];
    forall i | 0 <= i < |xs| ensures PrevAt(r.areas, xs, i) {
      assert PrevAt(st.areas, xs, i) && xs[i] in xs;
    }
  }

  lemma PoolsSame(taken: Tiles, taken': Tiles, st: Arenas, r: Arenas)
    requires PoolsOk(taken, st) && r.pools == st.pools
    requires forall p :: p in st.pools && p >= HEADER && p - HEADER in taken ==>
               p - HEADER in taken' && taken'[p - HEADER] == taken[p - HEADER]
    ensures PoolsOk(taken', r)
  {
    forall p | p in r.pools ensures PoolOk(taken', p) {
      assert PoolOk(taken, p);
    }
  }

  /** The recycled records do not notice what happens to the record of a live allocator. */
  lemma IdleSame(st: Arenas, r: Arenas, all: nat)
    requires IdleOk(st) && all !in st.idle && r.idle == st.idle && r.freeAlls == st.freeAlls && r.pools == st.pools
    requires r.records == st.records || (all in r.records && r.records == st.records[all := r.records[all]])
    ensures IdleOk(r)
  {
    forall i | 0 <= i < |r.idle| ensures NextAt(r.records, r.idle, i) {
      assert NextAt(st.records, st.idle, i);
      assert st.idle[i] in st.idle;
    }
    forall x | x in r.idle ensures SlotOk(r, x) {
      assert SlotOk(st, x);
    }
  }

  lemma LiveRecord(st: Arenas, all: nat)
    requires ChainsOk(st) && all in st.chains
    ensures SlotOk(st, all) && all !in st.idle && all != 0 && all in st.records
  {
    assert ChainOk(st, all);
  }

  lemma IdleHead(st: Arenas)
    requires IdleOk(st)
    ensures st.freeAlls == 0 <==> st.idle == []
    ensures st.idle != [] ==> st.freeAlls in st.records && st.records[st.freeAlls].nextFree == First(st.idle[1..])
  {
    if st.idle != [] {
      assert st.idle[0] in st.idle;
      assert NextAt(st.records, st.idle, 0);
    }
  }

  lemma NewBlockIsFresh(taken: Tiles, st: Arenas, debug: bool, t: nat)
    requires Good(taken, st, debug) && t !in taken
    ensures t + HEADER !in st.owner && t + HEADER !in st.pools
  {
    assert t + HEADER in st.owner ==> AreaOk(taken, st, t + HEADER, debug);
    assert t + HEADER in st.pools ==> PoolOk(taken, t + HEADER);
  }

  /** Taking another heap block disturbs no arena. */
  lemma MoreTaken(taken: Tiles, st: Arenas, debug: bool, t: nat, tile: Tile)
    requires Good(taken, st, debug) && t !in taken
    ensures Good(taken[t := tile], st, debug)
  {
    var taken' := taken[t := tile];
    forall x | x in st.owner ensures AreaOk(taken', st, x, debug) {
      assert AreaOk(taken, st, x, debug);
    }
    PoolsSame(taken, taken', st, st);
  }

  // ---------------------------------------------------------------------------------------------
  // A new area
  // ---------------------------------------------------------------------------------------------

  /** A new area `x`, over a block whose payload is `size` bytes, in front of the areas of `all`. */
  ghost function WithArea(st: Arenas, all: nat, x: nat, size: nat): Arenas
    requires all in st.chains && all in st.records && size >= AREA + PTR
  {
    var a := Area(x + AREA, size - AREA - PTR, 0, st.records[all].list);
    st.(areas := st.areas[x := a],
        guards := st.guards[GuardAt(a) := all],
        records := st.records[all := st.records[all].(list := x)],
        owner := st.owner[x := all],
        chains := st.chains[all := [x] + st.chains[all]],
        parcels := st.parcels[x := []])
  }

  lemma AreaAdded(ts: Tiles, end: nat, was: Tiles, st: Arenas, debug: bool, all: nat, t: nat, c: nat)
    requires Tiled(ts, end) && t !in was && Taken(ts) == was[t := Tile(c, false)]
    requires Good(was, st, debug) && all in st.chains && Size(c) > HEADER + AREA + PTR
    ensures all in st.records && t + HEADER !in st.owner
    ensures Good(Taken(ts), WithArea(st, all, t + HEADER, Size(c) - HEADER), debug)
  {
    var x, size := t + HEADER, Size(c) - HEADER;
    LiveRecord(st, all);
    NewBlockIsFresh(was, st, debug, t);
    MoreTaken(was, st, debug, t, Tile(c, false));
    var r := WithArea(st, all, x, size);
    assert t in Taken(ts);
    AreasGrow(ts, end, st, debug, all, t, c);
    ChainsGrow(st, all, x, size);
    IdleSame(st, r, all);
    PoolsSame(Taken(ts), Taken(ts), st, r);
  }

  lemma AreasGrow(ts: Tiles, end: nat, st: Arenas, debug: bool, all: nat, t: nat, c: nat)
    requires Tiled(ts, end) && t in ts && ts[t] == Tile(c, false) && Size(c) > HEADER + AREA + PTR
    requires AreasOk(Taken(ts), st, debug) && all in st.chains && all in st.records
    requires t + HEADER !in st.owner && t + HEADER !in st.pools
    ensures AreasOk(Taken(ts), WithArea(st, all, t + HEADER, Size(c) - HEADER), debug)
  {
    var r := WithArea(st, all, t + HEADER, Size(c) - HEADER);
    forall y | y in r.owner ensures AreaOk(Taken(ts), r, y, debug) {
      if y != t + HEADER {
        GuardsApart(ts, end, st, debug, all, t, c, y);
      }
    }
  }

  lemma ChainsGrow(st: Arenas, all: nat, x: nat, size: nat)
    requires ChainsOk(st) && all in st.chains && all in st.records && size >= AREA + PTR && x !in st.owner
    ensures ChainsOk(WithArea(st, all, x, size))
  {
    var r := WithArea(st, all, x, size);
    assert ChainOk(st, all);
    forall b | b in r.chains ensures ChainOk(r, b) && SlotOk(r, b) && b !in r.idle && b != 0 {
      LiveRecord(st, b);
      assert ChainOk(st, b);
      ChainGrows(st, all, x, size, b);
    }
  }

  /** The guard of the new area lies in its own block, away from the other guards. */
  lemma GuardsApart(ts: Tiles, end: nat, st: Arenas, debug: bool, all: nat, t: nat, c: nat, y: nat)
    requires Tiled(ts, end) && t in ts && ts[t] == Tile(c, false) && Size(c) > HEADER + AREA + PTR
    requires AreasOk(Taken(ts), st, debug) && y in st.owner && y != t + HEADER
    requires all in st.chains && all in st.records
    ensures AreaOk(Taken(ts), WithArea(st, all, t + HEADER, Size(c) - HEADER), y, debug)
  {
    assert AreaOk(Taken(ts), st, y, debug);
    BlocksDisjoint(ts, end, y - HEADER, t);
  }

  lemma ChainGrows(st: Arenas, all: nat, x: nat, size: nat, b: nat)
    requires all in st.chains && b in st.chains && all in st.records && size >= AREA + PTR
    requires ChainOk(st, all) && ChainOk(st, b) && x !in st.owner
    ensures ChainOk(WithArea(st, all, x, size), b)
  {
    var r := WithArea(st, all, x, size);
    var xs, ys := st.chains[b], r.chains[b];
    assert forall i :: 0 <= i < |xs| ==> xs[i] in xs;
    if b == all {
      NoDupPush(xs, x);
      forall i | 0 <= i < |ys| ensures PrevAt(r.areas, ys, i) {
        if i > 0 {
          assert PrevAt(st.areas, xs, i - 1);
          assert ys[i + 1..] == xs[i..];
        } else {
          assert ys[1..] == xs;
        }
      }
    } else {
      ChainSame(st, r, b);
    }
  }

  // ---------------------------------------------------------------------------------------------
  // A new allocation
  // ---------------------------------------------------------------------------------------------

  /** `used` bytes of the area `x` are used, and the allocation `p` is handed out. */
  ghost function WithParcel(st: Arenas, x: nat, used: nat, p: Parcel): Arenas
    requires x in st.areas && x in st.parcels
  {
    st.(areas := st.areas[x := st.areas[x].(useLen := used)],
        parcels := st.parcels[x := st.parcels[x] + [p]])
  }

  ghost predicate Fits(a: Area, used: nat, p: Parcel, debug: bool) {
    && used <= a.blockLen && (debug ==> used < a.blockLen)
    && a.block + a.useLen <= p.start && p.start + p.len == a.block + used
  }

  lemma ParcelsGrow(a: Area, ps: seq<Parcel>, used: nat, p: Parcel)
    requires ParcelsOk(a, ps) && a.block + a.useLen <= p.start && p.start + p.len == a.block + used
    ensures ParcelsOk(a.(useLen := used), ps + [p])
  {
  }

  lemma ParcelAdded(taken: Tiles, st: Arenas, debug: bool, x: nat, used: nat, p: Parcel)
    requires Good(taken, st, debug) && x in st.owner && x in st.areas && x in st.parcels
    requires Fits(st.areas[x], used, p, debug)
    ensures Good(taken, WithParcel(st, x, used, p), debug)
  {
    var r := WithParcel(st, x, used, p);
    ParcelKeepsAreas(taken, st, debug, x, used, p);
    ParcelKeepsChains(st, x, used, p);
    IdleSame(st, r, 0);
    PoolsSame(taken, taken, st, r);
  }

  lemma ParcelKeepsAreas(taken: Tiles, st: Arenas, debug: bool, x: nat, used: nat, p: Parcel)
    requires AreasOk(taken, st, debug) && x in st.owner && x in st.areas && x in st.parcels
    requires Fits(st.areas[x], used, p, debug)
    ensures AreasOk(taken, WithParcel(st, x, used, p), debug)
  {
    var r := WithParcel(st, x, used, p);
    forall y | y in r.owner ensures AreaOk(taken, r, y, debug) {
      assert AreaOk(taken, st, y, debug);
      if y == x {
        ParcelsGrow(st.areas[x], st.parcels[x], used, p);
      }
    }
  }

  lemma ParcelKeepsChains(st: Arenas, x: nat, used: nat, p: Parcel)
    requires ChainsOk(st) && x in st.areas && x in st.parcels
    ensures ChainsOk(WithParcel(st, x, used, p))
  {
    var r := WithParcel(st, x, used, p);
    forall b | b in r.chains ensures ChainOk(r, b) && SlotOk(r, b) && b !in r.idle && b != 0 {
      LiveRecord(st, b);
      assert ChainOk(st, b);
      ChainSame(st, r, b);
    }
  }

  /** An allocation that does not lie behind the others in its area's block breaks the invariant. */
  lemma ParcelMustFit(taken: Tiles, st: Arenas, debug: bool, x: nat, used: nat, p: Parcel)
    requires Good(taken, st, debug) && x in st.owner && x in st.areas && x in st.parcels
    requires Good(taken, WithParcel(st, x, used, p), debug)
    ensures Fits(st.areas[x], used, p, debug)
  {
    var r := WithParcel(st, x, used, p);
    assert AreaOk(taken, st, x, debug) && AreaOk(taken, r, x, debug);
    var ps, qs := st.parcels[x], r.parcels[x];
    assert qs[|ps|] == p;
    if ps != [] {
      assert qs[|ps| - 1] == ps[|ps| - 1];
    }
  }

  /** The bytes skipped to align an allocation. */
  function Slop(start: nat, align: nat): nat
    requires align > 0
  {
    if start % align > 0 then align - start % align else 0
  }

  /** They lead to the least multiple of `align` from `start` on, for any alignment. */
  lemma SlopAligns(start: nat, align: nat)
    requires align > 0
    ensures Slop(start, align) < align && (start + Slop(start, align)) % align == 0
    ensures forall m: nat :: m >= start && m % align == 0 ==> m >= start + Slop(start, align)
  {
    var q, r := start / align, start % align;
    assert start == align * q + r;
    if r > 0 {
      ModIs(start + Slop(start, align), align, q + 1, 0);
    }
    forall m: nat | m >= start && m % align == 0 ensures m >= start + Slop(start, align) {
      NoMultipleBetween(start, align, m);
    }
  }

  function FreeLen(a: Area): int {
    a.blockLen - a.useLen
  }

  /** The bytes an allocation takes from an area, its own and those skipped: a machine word. */
  function Takes(a: Area, size: nat, align: nat): nat
    requires align > 0
  {
    Add(size, Slop(a.block + a.useLen, align))
  }

  // ---------------------------------------------------------------------------------------------
  // An allocator freed
  // ---------------------------------------------------------------------------------------------

  /** The heap blocks under the first `n` areas of a list. */
  ghost function Heads(xs: seq<nat>, n: nat): set<int>
    requires n <= |xs|
  {
    set i | 0 <= i < n :: xs[i] - HEADER
  }

  /** The allocator `all` is gone and its record is the first of the recycled ones. */
  ghost function Without(st: Arenas, all: nat): Arenas
    requires all in st.chains && all in st.records
  {
    st.(records := st.records[all := Record(0, st.freeAlls)],
        freeAlls := all,
        owner := map x | x in st.owner && st.owner[x] != all :: st.owner[x],
        chains := st.chains - {all},
        idle := [all] + st.idle,
        parcels := map x | x in st.parcels && !(x in st.owner && st.owner[x] == all) :: st.parcels[x])
  }

  lemma AllocatorDropped(taken: Tiles, taken': Tiles, st: Arenas, debug: bool, all: nat)
    requires Good(taken, st, debug) && all in st.chains && ChainOk(st, all)
    requires forall t: int :: t in taken && t !in Heads(st.chains[all], |st.chains[all]|) ==>
               t in taken' && taken'[t] == taken[t]
    ensures Good(taken', Without(st, all), debug)
  {
    var r, xs := Without(st, all), st.chains[all];
    forall y | y in r.owner ensures AreaOk(taken', r, y, debug) {
      assert AreaOk(taken, st, y, debug);
      assert y !in xs;
    }
    forall b | b in r.chains ensures ChainOk(r, b) && SlotOk(r, b) && b !in r.idle && b != 0 {
      assert ChainOk(st, b) && SlotOk(st, b);
      ChainSame(st, r, b);
    }
    assert SlotOk(st, all);
    IdlePush(st, all);
    forall x | x in xs ensures x !in st.pools && x >= HEADER {
      assert AreaOk(taken, st, x, debug);
    }
    PoolsSame(taken, taken', st, r);
  }

  lemma IdlePush(st: Arenas, all: nat)
    requires IdleOk(st) && all in st.chains && all in st.records && all !in st.idle && all != 0 && SlotOk(st, all)
    ensures IdleOk(Without(st, all))
  {
    var r := Without(st, all);
    NoDupPush(st.idle, all);
    forall i | 0 <= i < |r.idle| ensures NextAt(r.records, r.idle, i) {
      if i > 0 {
        assert NextAt(st.records, st.idle, i - 1);
        assert r.idle[i + 1..] == st.idle[i..] && st.idle[i - 1] in st.idle;
      } else {
        assert r.idle[1..] == st.idle;
      }
    }
    forall x | x in r.idle ensures SlotOk(r, x) {
      assert x != all ==> SlotOk(st, x);
    }
  }

  // ---------------------------------------------------------------------------------------------
  // A new allocator
  // ---------------------------------------------------------------------------------------------

  /** The first recycled record becomes a new allocator without areas. */
  ghost function WithAllocator(st: Arenas): Arenas
    requires st.idle != []
  {
    var all := st.idle[0];
    st.(records := st.records[all := Record(0, 0)],
        freeAlls := First(st.idle[1..]),
        chains := st.chains[all := []],
        idle := st.idle[1..])
  }

  lemma AllocatorAdded(taken: Tiles, st: Arenas, debug: bool)
    requires Good(taken, st, debug) && st.idle != []
    ensures Good(taken, WithAllocator(st), debug)
  {
    var all := st.idle[0];
    var r := WithAllocator(st);
    assert SlotOk(st, all);
    forall y | y in r.owner ensures AreaOk(taken, r, y, debug) && r.owner[y] in st.chains {
      assert AreaOk(taken, st, y, debug);
    }
    ChainsNew(st);
    IdlePop(st);
    PoolsSame(taken, taken, st, r);
  }

  lemma ChainsNew(st: Arenas)
    requires ChainsOk(st) && IdleOk(st) && st.idle != [] && SlotOk(st, st.idle[0])
    requires forall y :: y in st.owner ==> st.owner[y] in st.chains
    ensures ChainsOk(WithAllocator(st))
  {
    var r, all := WithAllocator(st), st.idle[0];
    NoDupTail(st.idle);
    NewChain(st);
    NoAreas(r, all);
    forall b | b in r.chains ensures ChainOk(r, b) && SlotOk(r, b) && b !in r.idle && b != 0 {
      if b != all {
        LiveRecord(st, b);
      }
    }
  }

  /** An allocator that owns no area. */
  lemma NoAreas(r: Arenas, all: nat)
    requires all in r.chains && r.chains[all] == [] && all in r.records && r.records[all].list == 0
    requires forall y :: y in r.owner ==> r.owner[y] != all
    ensures ChainOk(r, all)
  {
  }

  /** The other allocators do not notice. */
  lemma NewChain(st: Arenas)
    requires ChainsOk(st) && IdleOk(st) && st.idle != []
    ensures forall b :: b in st.chains ==> ChainOk(WithAllocator(st), b)
    ensures st.idle[0] !in st.chains
  {
    var r := WithAllocator(st);
    forall b | b in st.chains ensures b != st.idle[0] && ChainOk(r, b) {
      LiveRecord(st, b);
      assert ChainOk(st, b);
      ChainSame(st, r, b);
    }
  }

  lemma IdlePop(st: Arenas)
    requires IdleOk(st) && st.idle != []
    ensures IdleOk(WithAllocator(st))
  {
    var r := WithAllocator(st);
    NoDupTail(st.idle);
    forall i | 0 <= i < |r.idle| ensures NextAt(r.records, r.idle, i) {
      assert NextAt(st.records, st.idle, i + 1);
      assert r.idle[i + 1..] == st.idle[i + 2..] && r.idle[i] in r.idle;
    }
    forall x | x in r.idle ensures SlotOk(r, x) {
      assert SlotOk(st, x);
    }
  }

  /** A heap block is set aside for records. */
  lemma PoolAdded(taken: Tiles, st: Arenas, debug: bool, p: nat)
    requires Good(taken, st, debug) && PoolOk(taken, p) && p !in st.owner
    ensures Good(taken, st.(pools := st.pools + {p}), debug)
  {
    var r := st.(pools := st.pools + {p});
    forall x | x in r.owner ensures AreaOk(taken, r, x, debug) {
      assert AreaOk(taken, st, x, debug);
    }
    forall b | b in r.chains ensures ChainOk(r, b) && SlotOk(r, b) && b !in r.idle && b != 0 {
      assert ChainOk(st, b) && SlotOk(st, b);
      ChainSame(st, r, b);
    }
    forall i | 0 <= i < |r.idle| ensures NextAt(r.records, r.idle, i) {
      assert NextAt(st.records, st.idle, i);
    }
    forall x | x in r.idle ensures SlotOk(r, x) {
      assert SlotOk(st, x);
    }
    forall q | q in r.pools ensures PoolOk(taken, q) {
      assert q != p ==> PoolOk(taken, q);
    }
  }

  /** A slot becomes the first recycled record; its list field is whatever the memory held. */
  ghost function WithSlot(st: Arenas, all: nat, list: nat): Arenas {
    st.(records := st.records[all := Record(list, st.freeAlls)], freeAlls := all, idle := [all] + st.idle)
  }

  lemma SlotAdded(taken: Tiles, st: Arenas, debug: bool, all: nat, list: nat)
    requires Good(taken, st, debug) && SlotOk(st, all) && all !in st.chains && all !in st.idle && all != 0
    ensures Good(taken, WithSlot(st, all, list), debug)
  {
    var r := WithSlot(st, all, list);
    forall x | x in r.owner ensures AreaOk(taken, r, x, debug) {
      assert AreaOk(taken, st, x, debug);
    }
    forall b | b in r.chains ensures ChainOk(r, b) && SlotOk(r, b) && b !in r.idle && b != 0 {
      LiveRecord(st, b);
      assert ChainOk(st, b);
      ChainSame(st, r, b);
    }
    IdleGrows(st, all, list);
    PoolsSame(taken, taken, st, r);
  }

  lemma IdleGrows(st: Arenas, all: nat, list: nat)
    requires IdleOk(st) && SlotOk(st, all) && all !in st.idle && all != 0
    ensures IdleOk(WithSlot(st, all, list))
  {
    var r := WithSlot(st, all, list);
    NoDupPush(st.idle, all);
    forall i | 0 <= i < |r.idle| ensures NextAt(r.records, r.idle, i) {
      if i > 0 {
        assert NextAt(st.records, st.idle, i - 1);
        assert r.idle[i + 1..] == st.idle[i..] && st.idle[i - 1] in st.idle;
      } else {
        assert r.idle[1..] == st.idle;
      }
    }
    forall x | x in r.idle ensures SlotOk(r, x) {
      assert x != all ==> SlotOk(st, x);
    }
  }

  lemma SlotAligned(p: nat, i: nat)
    requires p >= HEADER && (p - HEADER) % 4096 == 0
    ensures (p + STRIDE * i) % PTR == 0
  {
    var t := (p - HEADER) / 4096;
    assert p + STRIDE * i == 8 * (512 * t + 3 + 32 * i);
    ModIs(p + STRIDE * i, PTR, 512 * t + 3 + 32 * i, 0);
  }

  /** Slot `i` of the block with payload `p`. */
  lemma SlotPlace(st: Arenas, p: nat, i: nat)
    requires p in st.pools && p >= HEADER && (p - HEADER) % 4096 == 0 && i < 16
    ensures SlotOk(st, p + STRIDE * i) && PoolOf(p + STRIDE * i) == p
  {
    var t := (p - HEADER) / 4096;
    var r := p + STRIDE * i;
    assert r == 4096 * t + (HEADER + STRIDE * i);
    ModIs(r, 4096, t, HEADER + STRIDE * i);
    assert (r - p) % STRIDE == 0 by {
      ModIs(r - p, STRIDE, i, 0);
    }
  }

  // ---------------------------------------------------------------------------------------------
  // No record is lost
  // ---------------------------------------------------------------------------------------------

  /** The records carved from one block. */
  const SLOTS := 16

  function SlotAt(p: nat, i: nat): nat {
    p + STRIDE * i
  }

  /** Every record carved is a live allocator's or a recycled one. */
  ghost predicate SlotsKept(pools: set<nat>, live: set<nat>, idle: seq<nat>) {
    forall p, i: nat {:trigger SlotAt(p, i)} :: p in pools && i < SLOTS ==> SlotAt(p, i) in live || SlotAt(p, i) in idle
  }

  /** The first `n` records of the block with payload `p`, the last one first. */
  ghost predicate Carved(p: nat, n: nat, idle: seq<nat>) {
    |idle| == n && forall i :: 0 <= i < n ==> idle[i] == SlotAt(p, n - 1 - i)
  }

  lemma CarvedFirst(p: nat, idle: seq<nat>)
    requires Carved(p, SLOTS, idle)
    ensures idle != [] && idle[0] == p + STRIDE * 15 && |idle[1..]| == 15
    ensures forall i :: 0 <= i < 15 ==> idle[1..][i] == p + STRIDE * (14 - i)
  {
  }

  lemma CarvedMore(p: nat, n: nat, idle: seq<nat>)
    requires Carved(p, n, idle)
    ensures Carved(p, n + 1, [SlotAt(p, n)] + idle)
  {
  }

  lemma PoolKept(pools: set<nat>, live: set<nat>, p: nat, idle: seq<nat>)
    requires SlotsKept(pools, live, []) && Carved(p, SLOTS, idle)
    ensures SlotsKept(pools + {p}, live, idle)
  {
    forall r, i: nat | r in pools + {p} && i < SLOTS ensures SlotAt(r, i) in live || SlotAt(r, i) in idle {
      if r == p {
        assert idle[SLOTS - 1 - i] == SlotAt(p, i);
      }
    }
  }

  lemma PoppedKept(pools: set<nat>, live: set<nat>, idle: seq<nat>)
    requires SlotsKept(pools, live, idle) && idle != []
    ensures SlotsKept(pools, live + {idle[0]}, idle[1..])
  {
    forall p, i: nat | p in pools && i < SLOTS ensures SlotAt(p, i) in live + {idle[0]} || SlotAt(p, i) in idle[1..] {
      assert idle == [idle[0]] + idle[1..];
    }
  }

  lemma PushedKept(pools: set<nat>, live: set<nat>, idle: seq<nat>, all: nat)
    requires SlotsKept(pools, live, idle)
    ensures SlotsKept(pools, live - {all}, [all] + idle)
  {
    forall p, i: nat | p in pools && i < SLOTS ensures SlotAt(p, i) in live - {all} || SlotAt(p, i) in [all] + idle {
      assert [all][0] == all;
    }
  }

  lemma NoneCarved(p: nat)
    ensures Carved(p, 0, [])
  {
  }

  /** The first `n` records of the block with payload `p`, and those of all blocks. */
  ghost function SlotsOf(p: nat, n: nat): set<nat> {
    if n == 0 then {} else SlotsOf(p, n - 1) + {SlotAt(p, n - 1)}
  }

  ghost function AllSlots(pools: set<nat>): set<nat> {
    if pools == {} then {}
    else
      var p :| p in pools;
      AllSlots(pools - {p}) + SlotsOf(p, SLOTS)
  }

  ghost predicate IsSlot(p: nat, i: nat, r: nat) {
    r == SlotAt(p, i)
  }

  lemma {:induction false} InSlots(p: nat, n: nat, r: nat)
    ensures r in SlotsOf(p, n) <==> exists i: nat {:trigger IsSlot(p, i, r)} :: i < n && IsSlot(p, i, r)
  {
    if n > 0 {
      InSlots(p, n - 1, r);
      assert IsSlot(p, n - 1, r) <==> r == SlotAt(p, n - 1);
    }
  }

  lemma {:induction false} SlotsOfCount(p: nat, n: nat)
    ensures |SlotsOf(p, n)| == n
  {
    if n > 0 {
      SlotsOfCount(p, n - 1);
      InSlots(p, n - 1, SlotAt(p, n - 1));
    }
  }

  ghost predicate PoolPlace(p: nat) {
    p >= HEADER && (p - HEADER) % 4096 == 0
  }

  lemma SlotHome(p: nat, i: nat)
    requires PoolPlace(p) && i < SLOTS
    ensures PoolOf(SlotAt(p, i)) == p
  {
    var t := (p - HEADER) / 4096;
    ModIs(SlotAt(p, i), 4096, t, HEADER + STRIDE * i);
  }

  /** The records of different blocks are different. */
  lemma {:induction false} AllSlotsCount(pools: set<nat>)
    requires forall p :: p in pools ==> PoolPlace(p)
    ensures |AllSlots(pools)| == SLOTS * |pools|
    ensures forall r :: r in AllSlots(pools) <==> PoolOf(r) in pools && r in SlotsOf(PoolOf(r), SLOTS)
    decreases |pools|
  {
    if pools != {} {
      var p :| p in pools && AllSlots(pools) == AllSlots(pools - {p}) + SlotsOf(p, SLOTS);
      AllSlotsCount(pools - {p});
      SlotsOfCount(p, SLOTS);
      forall r | r in SlotsOf(p, SLOTS) ensures PoolOf(r) == p {
        InSlots(p, SLOTS, r);
        var i: nat :| i < SLOTS && IsSlot(p, i, r);
        SlotHome(p, i);
      }
      assert AllSlots(pools - {p}) !! SlotsOf(p, SLOTS);
    }
  }

  /** A slot is one of the records of its block. */
  lemma SlotListed(st: Arenas, r: nat)
    requires SlotOk(st, r)
    ensures r in SlotsOf(PoolOf(r), SLOTS)
  {
    var p := PoolOf(r);
    var i := (r - p) / STRIDE;
    assert IsSlot(p, i, r) && i < SLOTS;
    InSlots(p, SLOTS, r);
  }

  lemma PoolPlaced(ts: Tiles, end: nat, st: Arenas, p: nat)
    requires Tiled(ts, end) && PoolsOk(Taken(ts), st) && p in st.pools
    ensures PoolPlace(p)
  {
    assert PoolOk(Taken(ts), p);
    assert Placed(ts, end, p - HEADER);
    assert (p - HEADER - HEAP) % 4096 == 0;
    ModIs(p - HEADER, 4096, (p - HEADER - HEAP) / 4096 + HEAP / 4096, 0);
  }

  lemma Together<T>(xs: set<T>, ys: set<T>)
    requires xs !! ys
    ensures |xs + ys| == |xs| + |ys|
  {
  }

  lemma CarvedKept(st: Arenas, r: nat)
    requires SlotsKept(st.pools, st.chains.Keys, st.idle) && PoolOf(r) in st.pools && r in SlotsOf(PoolOf(r), SLOTS)
    ensures r in st.chains || r in st.idle
  {
    InSlots(PoolOf(r), SLOTS, r);
    var i: nat :| i < SLOTS && IsSlot(PoolOf(r), i, r);
  }

  /** Live and recycled records together are all that were ever carved, sixteen to a block. */
  lemma RecordsConserved(ts: Tiles, end: nat, st: Arenas, debug: bool)
    requires Tiled(ts, end) && Good(Taken(ts), st, debug) && SlotsKept(st.pools, st.chains.Keys, st.idle)
    ensures |st.chains| + |st.idle| == SLOTS * |st.pools|
  {
    hide Tiled, ChainsOk, AreasOk, PoolOf, Taken;
    forall p | p in st.pools ensures PoolPlace(p) {
      PoolPlaced(ts, end, st, p);
    }
    AllSlotsCount(st.pools);
    var idle := Elements(st.idle);
    forall r ensures r in AllSlots(st.pools) <==> r in st.chains.Keys + idle {
      if r in st.chains.Keys + idle {
        RecordSlot(Taken(ts), st, debug, r);
        SlotListed(st, r);
      } else if r in AllSlots(st.pools) {
        CarvedKept(st, r);
      }
    }
    assert AllSlots(st.pools) == st.chains.Keys + idle;
    forall r | r in st.chains.Keys ensures r !in idle {
      LiveRecord(st, r);
    }
    NoDupCount(st.idle);
    Together(st.chains.Keys, idle);
  }
}
