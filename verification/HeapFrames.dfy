/** The frames and tables behind the heap: how `_expand_heap` of src/mm/mm_heap.c backs a new chunk, a
    frame taken and a page mapped for every 4 KiB of it. */
module HeapFrames {
  import opened Words
  import opened Lists
  import opened Dyadic
  import opened PageWords
  import opened PageTree
  import opened PageSpec
  import opened PageRange
  import opened PageRuns
  import opened Paging

  // ---------------------------------------------------------------------------------------------
  // What a range of pages needs
  // ---------------------------------------------------------------------------------------------

  /** The frames it takes to map the first `n` pages, each to a frame of its own: one for each page and
      for each new table, and one more to be looked at if the last page needs no table. */
  ghost function RangeNeed(keys: set<seq<nat>>, va: nat, n: nat): nat {
    if n == 0 then 0
    else n + NewTables(keys, va, n) + (if LackingAt(keys, va, n - 1) == 0 then 1 else 0)
  }

  /** The tables page `i` is the first to need. */
  ghost function LackingAt(keys: set<seq<nat>>, va: nat, i: nat): nat {
    Lacking(keys, Ways(va, i), PagePath(va, i))
  }

  lemma {:induction false} NeedGrows(keys: set<seq<nat>>, va: nat, i: nat, n: nat)
    requires i <= n
    ensures RangeNeed(keys, va, i) <= RangeNeed(keys, va, n)
    decreases n
  {
    if i < n {
      NeedGrows(keys, va, i, n - 1);
    }
  }

  /** The frame page `j` is mapped to: the first free one once the pages before it have theirs. */
  ghost function FrameFor(free: seq<nat>, keys: set<seq<nat>>, va: nat, j: nat): nat {
    var i := j + NewTables(keys, va, j);
    if i < |free| then free[i] else 0
  }

  ghost function Backing(free: seq<nat>, keys: set<seq<nat>>, va: nat, n: nat): (fs: seq<nat>)
    ensures |fs| == n
  {
    if n == 0 then [] else Backing(free, keys, va, n - 1) + [FrameFor(free, keys, va, n - 1)]
  }

  lemma {:induction false} BackingAt(free: seq<nat>, keys: set<seq<nat>>, va: nat, n: nat, j: nat)
    requires j < n
    ensures Backing(free, keys, va, n)[j] == FrameFor(free, keys, va, j)
  {
    if j < n - 1 {
      BackingAt(free, keys, va, n - 1, j);
    }
  }

  // ---------------------------------------------------------------------------------------------
  // Mapping a range
  // ---------------------------------------------------------------------------------------------

  function Seen(s: PState): View {
    View(s.mem, s.tabs)
  }

  /** The frames of the first `i` pages are in memory, and neither free nor tables. */
  ghost predicate HandedOut(r: PState, fs: seq<nat>, i: nat)
    requires i <= |fs|
  {
    forall j {:trigger fs[j]} :: 0 <= j < i ==> IsData(r, fs[j])
  }

  ghost predicate FramesTaken(s: PState, r: PState, k: nat) {
    k <= |s.free| && r.free == After(s.free, k)
  }

  /** The first `i` pages from `va` on are mapped, each to a frame of its own, with exactly the tables
      they need in the other frames taken. */
  ghost predicate Backed(s: PState, r: PState, va: nat, fs: seq<nat>, i: nat)
    requires i <= |fs|
  {
    && FramesTaken(s, r, i + NewTables(s.tabs.Keys, va, i))
    && TablesAre(s.tabs.Keys, r.tabs, va, i)
    && LeavesEntered(Seen(s), Seen(r), va, fs, i) && HandedOut(r, fs, i)
  }

  /** With `m` pages mapped there was no frame, or none for a table, for the next. */
  ghost predicate RanOut(s: PState, r: PState, va: nat, fs: seq<nat>, m: nat)
    requires m <= |fs|
  {
    && RangeNeed(s.tabs.Keys, va, m) <= |s.free| < RangeNeed(s.tabs.Keys, va, m + 1)
    && r.free == [] && LeavesEntered(Seen(s), Seen(r), va, fs, m)
  }

  lemma NeedsLacking(s: PState, r: PState, va: nat, fs: seq<nat>, i: nat)
    requires i < |fs| && Backed(s, r, va, fs, i)
    ensures Missing(r.tabs, PagePath(va, i), 3) == LackingAt(s.tabs.Keys, va, i)
    ensures RangeNeed(s.tabs.Keys, va, i + 1) <= |s.free| <==>
              r.free != [] && Need(r.tabs, PagePath(va, i)) <= |r.free| - 1
  {
    MissingIsLacking(s.tabs.Keys, r.tabs, va, i, PagePath(va, i));
    AfterIsDrop(s.free, i + NewTables(s.tabs.Keys, va, i));
  }

  /** One page more, mapped to the first free frame. */
  lemma BackedOne(s: PState, r: PState, r': PState, va: nat, fs: seq<nat>, i: nat)
    requires i < |fs| && fs == Backing(s.free, s.tabs.Keys, va, |fs|) && Backed(s, r, va, fs, i)
    requires va % PAGE == 0 && i < 0x10_0000_0000 && r.free != [] && IsData(r.(free := r.free[1..]), r.free[0])
    requires MapEffect(r.(free := r.free[1..]), r', PagePath(va, i), r.free[0], true)
    ensures Backed(s, r', va, fs, i + 1)
  {
    NeedsLacking(s, r, va, fs, i);
    FramesOne(s, r, r', va, fs, i);
    TablesOne(s, r, r', va, i);
    LeavesOne(s, r, r', va, fs, i);
    StillHandedOut(r, r', PagePath(va, i), fs, i);
  }

  lemma LeavesOne(s: PState, r: PState, r': PState, va: nat, fs: seq<nat>, i: nat)
    requires i < |fs| && LeavesEntered(Seen(s), Seen(r), va, fs, i) && va % PAGE == 0 && i < 0x10_0000_0000
    requires Remapped(r, r', PagePath(va, i), Small(fs[i]))
    ensures LeavesEntered(Seen(s), Seen(r'), va, fs, i + 1)
  {
    NextEntered(Seen(s), Seen(r), Seen(r'), va, fs, i);
  }

  lemma FramesOne(s: PState, r: PState, r': PState, va: nat, fs: seq<nat>, i: nat)
    requires i < |fs| && fs == Backing(s.free, s.tabs.Keys, va, |fs|) && r.free != []
    requires FramesTaken(s, r, i + NewTables(s.tabs.Keys, va, i))
    requires Missing(r.tabs, PagePath(va, i), 3) == LackingAt(s.tabs.Keys, va, i) <= |r.free[1..]|
    requires r'.free == After(r.free[1..], LackingAt(s.tabs.Keys, va, i))
    ensures fs[i] == r.free[0] && FramesTaken(s, r', i + 1 + NewTables(s.tabs.Keys, va, i + 1))
  {
    var k, m := i + NewTables(s.tabs.Keys, va, i), LackingAt(s.tabs.Keys, va, i);
    NewTablesNext(s.tabs.Keys, va, i);
    BackingAt(s.free, s.tabs.Keys, va, |fs|, i);
    TakenFrames(s.free, k, r.free, m, r'.free);
  }

  lemma NewTablesNext(keys: set<seq<nat>>, va: nat, i: nat)
    ensures NewTables(keys, va, i + 1) == NewTables(keys, va, i) + LackingAt(keys, va, i)
  {
  }

  lemma TakenFrames(fs: seq<nat>, k: nat, gs: seq<nat>, m: nat, hs: seq<nat>)
    requires k <= |fs| && gs == After(fs, k) && gs != [] && m <= |gs[1..]| && hs == After(gs[1..], m)
    ensures k < |fs| && gs[0] == fs[k] && k + 1 + m <= |fs| && hs == After(fs, k + 1 + m)
  {
    AfterIsDrop(fs, k);
    AfterStep(fs, k);
    AfterMore(fs, k + 1, m);
  }

  lemma {:induction false} AfterMore(fs: seq<nat>, k: nat, m: nat)
    ensures After(After(fs, k), m) == After(fs, k + m)
  {
    if k > 0 && fs != [] {
      AfterMore(fs[1..], k - 1, m);
    } else if fs == [] {
      assert After(fs, m) == fs;
    }
  }

  lemma TablesOne(s: PState, r: PState, r': PState, va: nat, i: nat)
    requires TablesAre(s.tabs.Keys, r.tabs, va, i) && r.free != []
    requires MapEffect(r.(free := r.free[1..]), r', PagePath(va, i), r.free[0], true)
    ensures TablesAre(s.tabs.Keys, r'.tabs, va, i + 1)
  {
    var q, k := PagePath(va, i), i + 1;
    GrownKeeps(r.tabs, q, r.free[1..], 3);
    WayIs(q, 3);
    forall p ensures TableWanted(s.tabs.Keys, r'.tabs, va, k, p) {
      assert TableWanted(s.tabs.Keys, r.tabs, va, i, p);
    }
  }

  lemma StillHandedOut(r: PState, r': PState, q: seq<nat>, fs: seq<nat>, i: nat)
    requires i < |fs| && HandedOut(r, fs, i) && r.free != [] && fs[i] == r.free[0]
    requires IsData(r.(free := r.free[1..]), r.free[0])
    requires |q| == 4 && MapEffect(r.(free := r.free[1..]), r', q, fs[i], true)
    ensures HandedOut(r', fs, i + 1)
  {
    forall j | 0 <= j < i + 1 ensures IsData(r', fs[j]) {
      assert IsData(r.(free := r.free[1..]), fs[j]);
      if Reserved(r', fs[j]) {
        MapTakesFree(r.(free := r.free[1..]), r', q, fs[i], true, fs[j]);
      }
    }
  }

  /** A page that cannot be mapped any more leaves the ones before it as they are. */
  lemma StaysOut(s: PState, r: PState, r': PState, va: nat, fs: seq<nat>, m: nat)
    requires m <= |fs| && LeavesEntered(Seen(s), Seen(r), va, fs, m) && SameLeaves(r.mem, r.tabs, r'.mem, r'.tabs)
    ensures LeavesEntered(Seen(s), Seen(r'), va, fs, m)
  {
    forall j | 0 <= j < m ensures LeadsAt(Seen(r'), va, fs, j) {
      assert LeadsAt(Seen(r), va, fs, j);
    }
    forall x | IsPath(x) && Outside(va, m, x) ensures LeadsTo(Seen(r'), x, Leaf(s.mem, s.tabs, x)) {
      assert LeadsTo(Seen(r), x, Leaf(s.mem, s.tabs, x));
    }
  }

  /** The page `q` is mapped to the first free frame, exactly if the frames last; else they are gone. */
  ghost predicate Paged(s: PState, r: PState, q: seq<nat>, done: bool) {
    && |q| == 4
    && (done <==> s.free != [] && Need(s.tabs, q) <= |s.free| - 1)
    && (if done then
          && IsData(s.(free := s.free[1..]), s.free[0])
          && MapEffect(s.(free := s.free[1..]), r, q, s.free[0], true)
        else
          r.free == [] && SameLeaves(s.mem, s.tabs, r.mem, r.tabs))
  }

  /** One round of the loop of `_expand_heap`. Its assertions that a frame is left and that the page
      could be mapped stop a debug kernel, the first before the page is tried. */
  method ChunkPage(mmu: Mmu, va: nat, debug: bool) returns (done: bool)
    requires mmu.Valid() && va % PAGE == 0 && Idx(va) != DirectPath()
    requires Leaf(mmu.mem, mmu.tabs, Idx(va)) == Fault
    modifies mmu
    ensures mmu.Valid()
    ensures Paged(old(mmu.State()), mmu.State(), Idx(va), done)
  {
    ghost var s := mmu.State();
    WalkFindsLeaf(mmu.mem, mmu.tabs, Idx(va));
    IdxIsPage(va, mmu.win.direct);
    if mmu.free != [] {
      ChainPop(mmu.mem, mmu.freeHead, mmu.free);
    }
    var got, framePa := mmu.FrameAlloc();
    if !got && debug {
      return false;
    }
    done := mmu.MapPage(va, framePa);
    done := got && done;
  }

  /** The first `m` pages are mapped, and the frames have lasted so far or not. */
  ghost predicate SoFar(s: PState, r: PState, va: nat, fs: seq<nat>, m: nat, ok: bool) {
    && m <= |fs|
    && if ok then Backed(s, r, va, fs, m) && RangeNeed(s.tabs.Keys, va, m) <= |s.free| else RanOut(s, r, va, fs, m)
  }

  lemma StartSoFar(s: PState, va: nat, fs: seq<nat>)
    ensures SoFar(s, s, va, fs, 0, true)
  {
  }

  lemma EndSoFar(s: PState, r: PState, va: nat, fs: seq<nat>, m: nat, ok: bool)
    requires SoFar(s, r, va, fs, m, ok) && if ok then m == |fs| else m < |fs|
    ensures ok <==> RangeNeed(s.tabs.Keys, va, |fs|) <= |s.free|
  {
    if !ok {
      NeedGrows(s.tabs.Keys, va, m + 1, |fs|);
    }
  }

  lemma NextToMap(s: PState, r: PState, va: nat, fs: seq<nat>, m: nat, i: nat, ok: bool)
    requires SoFar(s, r, va, fs, m, ok) && m <= i < |fs| < 0x10_0000_0000 && va % PAGE == 0
    requires AllFault(Seen(s), va, |fs|) && Outside(va, |fs|, DirectPath())
    ensures (va + PAGE * i) % PAGE == 0 && Idx(va + PAGE * i) != DirectPath()
    ensures Leaf(r.mem, r.tabs, Idx(va + PAGE * i)) == Fault
  {
    ModIs(va + PAGE * i, PAGE, va / PAGE + i, 0);
    assert FaultsAt(Seen(s), va, i);
    NextFaults(Seen(s), Seen(r), va, fs, m, i);
    assert PagePath(va, i) == Idx(va + PAGE * i);
  }

  lemma AfterPage(s: PState, r: PState, r': PState, va: nat, fs: seq<nat>, m: nat, i: nat, ok: bool, done: bool)
    requires fs == Backing(s.free, s.tabs.Keys, va, |fs|) && SoFar(s, r, va, fs, m, ok)
    requires va % PAGE == 0 && m < |fs| < 0x10_0000_0000
    requires Paged(r, r', PagePath(va, i), done) && if ok then m == i else m < i
    ensures SoFar(s, r', va, fs, if ok && done then m + 1 else m, ok && done)
  {
    if ok {
      NeedsLacking(s, r, va, fs, m);
    }
    if ok && done {
      BackedOne(s, r, r', va, fs, m);
    } else {
      StaysOut(s, r, r', va, fs, m);
    }
  }

  method ChunkRound(mmu: Mmu, va: nat, i: nat, debug: bool, ghost s: PState, ghost fs: seq<nat>, ghost m: nat,
                    ghost ok: bool)
    returns (done: bool)
    requires mmu.Valid() && SoFar(s, mmu.State(), va, fs, m, ok) && (if ok then m == i else m < i) && i < |fs|
    requires fs == Backing(s.free, s.tabs.Keys, va, |fs|) && |fs| < 0x10_0000_0000 && va % PAGE == 0
    requires AllFault(Seen(s), va, |fs|) && Outside(va, |fs|, DirectPath())
    modifies mmu
    ensures mmu.Valid()
    ensures SoFar(s, mmu.State(), va, fs, if ok && done then m + 1 else m, ok && done)
  {
    hide SoFar, Paged, AllFault, Outside, Backing;
    ghost var r := mmu.State();
    NextToMap(s, r, va, fs, m, i, ok);
    done := ChunkPage(mmu, va + PAGE * i, debug);
    AfterPage(s, r, mmu.State(), va, fs, m, i, ok, done);
  }

  /** The loop: a frame and a page for each of `n`. A release kernel goes on after a failure. */
  method MapChunk(mmu: Mmu, va: nat, n: nat, debug: bool) returns (ok: bool, ghost mapped: nat)
    requires mmu.Valid() && va % PAGE == 0 && n < 0x10_0000_0000
    requires AllFault(Seen(mmu.State()), va, n) && Outside(va, n, DirectPath())
    modifies mmu
    ensures mmu.Valid()
    ensures ok <==> RangeNeed(old(mmu.tabs).Keys, va, n) <= |old(mmu.free)|
    ensures if ok then mapped == n else mapped < n
    ensures SoFar(old(mmu.State()), mmu.State(), va, Backing(old(mmu.free), old(mmu.tabs).Keys, va, n), mapped, ok)
  {
    ghost var s := mmu.State();
    ghost var fs := Backing(s.free, s.tabs.Keys, va, n);
    StartSoFar(s, va, fs);
    ok, mapped := true, 0;
    var i := 0;
    while i < n
      invariant 0 <= i <= n && mmu.Valid()
      invariant if ok then mapped == i else mapped < i && !debug
      invariant SoFar(s, mmu.State(), va, fs, mapped, ok)
    {
      var done := ChunkRound(mmu, va, i, debug, s, fs, mapped, ok);
      mapped := if ok && done then mapped + 1 else mapped;
      ok := ok && done;
      if !ok && debug {
        break;
      }
      i := i + 1;
    }
    EndSoFar(s, mmu.State(), va, fs, mapped, ok);
  }

  // ---------------------------------------------------------------------------------------------
  // The heap's addresses
  // ---------------------------------------------------------------------------------------------

  /** The pages of the 48-bit space in address order. */
  function PathNo(x: seq<nat>): nat
    requires |x| == 4
  {
    x[0] * 0x800_0000 + x[1] * 0x4_0000 + x[2] * 512 + x[3]
  }

  /** The number of the page at an address of the high half; the heap reaches to its end. */
  function HighNo(va: nat): (no: nat)
    requires va >= HIGH
    ensures no >= 0x8_0000_0000
  {
    (va - HIGH) / PAGE + 0x8_0000_0000
  }

  lemma PathNoIs(va: nat, j: nat)
    requires HIGH <= va && va % PAGE == 0 && va + PAGE * j < WORD
    ensures PathNo(PagePath(va, j)) == HighNo(va) + j
  {
    PageNoDigits(va + PAGE * j);
    PageNoHigh(va, j);
  }

  lemma PageNoHigh(va: nat, j: nat)
    requires HIGH <= va && va % PAGE == 0 && va + PAGE * j < WORD
    ensures PageNo(va + PAGE * j) == HighNo(va) + j
  {
    var vb, h := va + PAGE * j, (va - HIGH) / PAGE;
    assert vb == PAGE * (0xF_FFF8_0000_0000 + h + j);
    ModIs(vb / PAGE, 0x10_0000_0000, 0xFFFF, 0x8_0000_0000 + h + j);
  }

  lemma SamePathNo(x: seq<nat>, y: seq<nat>)
    requires IsPath(x) && IsPath(y)
    ensures x == y <==> PathNo(x) == PathNo(y)
  {
    if PathNo(x) == PathNo(y) {
      SameDigits(x[0], x[1], x[2], x[3], y[0], y[1], y[2], y[3]);
    }
  }

  /** The page of path `x`, if it lies in the heap's part of the address space, is mapped exactly if it
      lies below `end`. */
  ghost predicate HeapPage(v: View, end: nat, x: seq<nat>)
    requires end >= HIGH
  {
    |x| == 4 && (PathNo(x) >= HighNo(HEAP) ==>
      if PathNo(x) < HighNo(end) then Leaf(v.mem, v.tabs, x).Small? else Leaf(v.mem, v.tabs, x) == Fault)
  }

  ghost predicate HeapPages(v: View, end: nat) {
    end >= HIGH && forall x {:trigger HeapPage(v, end, x)} :: IsPath(x) ==> HeapPage(v, end, x)
  }

  lemma DirectBelowHeap()
    ensures IsPath(DirectPath()) && PathNo(DirectPath()) + 1 == HighNo(HEAP)
  {
  }

  /** Nothing is mapped where the heap is to grow, and the direct-access page is not there. */
  lemma NextChunkFaults(v: View, end: nat, n: nat)
    requires HeapPages(v, end) && HEAP <= end && end % PAGE == 0 && end + PAGE * n <= WORD
    ensures AllFault(v, end, n) && Outside(end, n, DirectPath())
  {
    DirectBelowHeap();
    forall j | 0 <= j < n ensures FaultsAt(v, end, j) && PagePath(end, j) != DirectPath() {
      PathNoIs(end, j);
      assert HeapPage(v, end, PagePath(end, j));
    }
  }

  lemma HeapPagesGrow(v: View, w: View, end: nat, fs: seq<nat>, n: nat)
    requires HeapPages(v, end) && HEAP <= end && end % PAGE == 0 && end + PAGE * n < WORD
    requires n <= |fs| && LeavesEntered(v, w, end, fs, n)
    ensures HeapPages(w, end + PAGE * n)
  {
    assert HighNo(end + PAGE * n) == HighNo(end) + n;
    forall x | IsPath(x) ensures HeapPage(w, end + PAGE * n, x) {
      assert HeapPage(v, end, x);
      if HighNo(end) <= PathNo(x) < HighNo(end) + n {
        var j := PathNo(x) - HighNo(end);
        PathNoIs(end, j);
        SamePathNo(x, PagePath(end, j));
        assert LeadsAt(w, end, fs, j);
      } else {
        forall j | 0 <= j < n ensures x != PagePath(end, j) {
          PathNoIs(end, j);
        }
        assert Outside(end, n, x);
      }
    }
  }

  // ---------------------------------------------------------------------------------------------
  // A chunk
  // ---------------------------------------------------------------------------------------------

  /** What a chunk can be backed from: the tables there are, and the number of free frames. */
  datatype Supply = Supply(keys: set<seq<nat>>, frames: nat)

  function ChunkPages(): nat {
    Size(TOP) / PAGE
  }

  lemma ChunkPagesAre()
    ensures Size(TOP) == 0x800_0000 == PAGE * ChunkPages() && ChunkPages() == 0x8000
  {
    TopSize();
  }

  /** A chunk at `end` can be backed. */
  ghost predicate Enough(u: Supply, end: nat) {
    end + Size(TOP) < WORD && RangeNeed(u.keys, end, ChunkPages()) <= u.frames
  }

  /** What is left then. */
  ghost function Spent(u: Supply, end: nat): Supply {
    var k := ChunkPages() + NewTables(u.keys, end, ChunkPages());
    Supply(u.keys + Ways(end, ChunkPages()), if k <= u.frames then u.frames - k else 0)
  }

  ghost function SupplyOf(s: PState): Supply {
    Supply(s.tabs.Keys, |s.free|)
  }

  lemma SupplySpent(s: PState, r: PState, end: nat, fs: seq<nat>)
    requires |fs| == ChunkPages() && Backed(s, r, end, fs, |fs|)
    ensures SupplyOf(r) == Spent(SupplyOf(s), end)
  {
    AfterIsDrop(s.free, |fs| + NewTables(s.tabs.Keys, end, |fs|));
    KeysAre(s.tabs.Keys, r.tabs, end, |fs|);
  }

  /** A chunk that has been mapped whole. */
  lemma ChunkDone(s: PState, r: PState, end: nat, fs: seq<nat>, m: nat)
    requires HeapPages(Seen(s), end) && HEAP <= end && end % PAGE == 0 && end + Size(TOP) < WORD
    requires m == |fs| == ChunkPages() && SoFar(s, r, end, fs, m, true)
    ensures HeapPages(Seen(r), end + Size(TOP)) && SupplyOf(r) == Spent(SupplyOf(s), end)
  {
    ChunkPagesAre();
    HeapPagesGrow(Seen(s), Seen(r), end, fs, m);
    SupplySpent(s, r, end, fs);
  }

  // ---------------------------------------------------------------------------------------------
  // The tables of a chunk
  // ---------------------------------------------------------------------------------------------

  /** The number, at depth `d`, of the table on the way to page `no`. */
  function TableOf(no: nat, d: nat): nat {
    if d == 1 then no / 0x800_0000 else if d == 2 then no / 0x4_0000 else no / 512
  }

  function TableNo(p: seq<nat>): nat {
    if |p| == 1 then p[0] else if |p| == 2 then p[0] * 512 + p[1]
    else if |p| == 3 then p[0] * 0x4_0000 + p[1] * 512 + p[2] else 0
  }

  lemma PrefixTable(q: seq<nat>, d: nat)
    requires IsPath(q) && 1 <= d <= 3
    ensures TableNo(q[..d]) == TableOf(PathNo(q), d)
  {
    var n := PathNo(q);
    if d == 1 {
      ModIs(n, 0x800_0000, q[0], q[1] * 0x4_0000 + q[2] * 512 + q[3]);
    } else if d == 2 {
      ModIs(n, 0x4_0000, q[0] * 512 + q[1], q[2] * 512 + q[3]);
    } else {
      ModIs(n, 512, q[0] * 0x4_0000 + q[1] * 512 + q[2], q[3]);
    }
  }

  lemma SameTable(q: seq<nat>, x: seq<nat>, d: nat)
    requires IsPath(q) && IsPath(x) && 1 <= d <= 3 && TableOf(PathNo(q), d) == TableOf(PathNo(x), d)
    ensures q[..d] == x[..d]
  {
    PrefixTable(q, d);
    PrefixTable(x, d);
    if d == 1 {
    } else if d == 2 {
      SameDigits(0, 0, q[0], q[1], 0, 0, x[0], x[1]);
    } else {
      SameDigits(0, q[0], q[1], q[2], 0, x[0], x[1], x[2]);
    }
  }

  ghost predicate NotBehind(p: seq<nat>, no: nat) {
    0 < |p| <= 3 && TableNo(p) <= TableOf(no, |p|)
  }

  /** Of the tables on the way to pages from number `no` on, those exist that are on the way to page
      `no` itself, and no other. */
  ghost predicate UpTo(keys: set<seq<nat>>, no: nat) {
    && (forall x, d {:trigger x[..d]} :: IsPath(x) && 1 <= d <= 3 && PathNo(x) == no ==> x[..d] in keys)
    && forall p {:trigger NotBehind(p, no)} :: p in keys && p != [] ==> NotBehind(p, no)
  }

  lemma WaysLast(va: nat, n: nat, p: seq<nat>)
    ensures n > 0 ==> (p in Ways(va, n) <==>
              p in Ways(va, n - 1) || (0 < |p| <= 3 && p == PagePath(va, n - 1)[..|p|]))
  {
    if n > 0 {
      WayIs(PagePath(va, n - 1), 3);
    }
  }

  lemma {:induction false} WaysNotBehind(va: nat, n: nat, p: seq<nat>)
    requires HIGH <= va && va % PAGE == 0 && va + PAGE * n <= WORD && p in Ways(va, n)
    ensures n > 0 && NotBehind(p, HighNo(va) + n - 1)
  {
    WaysLast(va, n, p);
    if p in Ways(va, n - 1) {
      WaysNotBehind(va, n - 1, p);
    } else {
      PathNoIs(va, n - 1);
      PrefixTable(PagePath(va, n - 1), |p|);
    }
  }

  /** Page `n` needs a new table at depth `d` exactly if it is the first page of one. */
  lemma NeedsNew(keys: set<seq<nat>>, va: nat, n: nat, d: nat)
    requires HIGH < va && va % PAGE == 0 && va + PAGE * (n + 1) <= WORD && UpTo(keys, HighNo(va) - 1) && 1 <= d <= 3
    ensures var q := PagePath(va, n);
            q[..d] in keys || q[..d] in Ways(va, n) <==> TableOf(HighNo(va) + n, d) == TableOf(HighNo(va) + n - 1, d)
  {
    if TableOf(HighNo(va) + n, d) == TableOf(HighNo(va) + n - 1, d) {
      SharesTable(keys, va, n, d);
    } else {
      OpensTable(keys, va, n, d);
    }
  }

  lemma SharesTable(keys: set<seq<nat>>, va: nat, n: nat, d: nat)
    requires HIGH < va && va % PAGE == 0 && va + PAGE * (n + 1) <= WORD && UpTo(keys, HighNo(va) - 1) && 1 <= d <= 3
    requires TableOf(HighNo(va) + n, d) == TableOf(HighNo(va) + n - 1, d)
    ensures var q := PagePath(va, n); q[..d] in keys || q[..d] in Ways(va, n)
  {
    hide PagePath, Ways, TableOf, PathNo, UpTo;
    PathNoIs(va, n);
    if n > 0 {
      PathNoIs(va, n - 1);
      SameTable(PagePath(va, n), PagePath(va, n - 1), d);
      WaysLast(va, n, PagePath(va, n)[..d]);
    } else {
      PageBefore(va);
      PathNoIs(va - PAGE, 0);
      SameTable(PagePath(va, n), PagePath(va - PAGE, 0), d);
      FirstHasTables(keys, HighNo(va) - 1, PagePath(va - PAGE, 0), d);
    }
  }

  lemma PageBefore(va: nat)
    requires HIGH < va && va % PAGE == 0
    ensures HIGH <= va - PAGE && (va - PAGE) % PAGE == 0 && HighNo(va - PAGE) == HighNo(va) - 1
  {
    ModIs(va - PAGE, PAGE, va / PAGE - 1, 0);
  }

  lemma FirstHasTables(keys: set<seq<nat>>, no: nat, x: seq<nat>, d: nat)
    requires UpTo(keys, no) && IsPath(x) && 1 <= d <= 3 && PathNo(x) == no
    ensures x[..d] in keys
  {
  }

  lemma OpensTable(keys: set<seq<nat>>, va: nat, n: nat, d: nat)
    requires HIGH < va && va % PAGE == 0 && va + PAGE * (n + 1) <= WORD && UpTo(keys, HighNo(va) - 1) && 1 <= d <= 3
    requires TableOf(HighNo(va) + n, d) != TableOf(HighNo(va) + n - 1, d)
    ensures var q := PagePath(va, n); q[..d] !in keys && q[..d] !in Ways(va, n)
  {
    hide PagePath, Ways, UpTo, PathNo;
    var q := PagePath(va, n);
    PathNoIs(va, n);
    PrefixTable(q, d);
    KeyNotBehind(keys, HighNo(va) - 1, q[..d]);
    if q[..d] in Ways(va, n) {
      WaysNotBehind(va, n, q[..d]);
    }
  }

  lemma KeyNotBehind(keys: set<seq<nat>>, no: nat, p: seq<nat>)
    requires UpTo(keys, no) && p != []
    ensures p in keys ==> NotBehind(p, no)
  {
    assert p in keys ==> NotBehind(p, no);
  }

  /** Tables at depth `d` entered on the way from page `no` to the `n` pages behind it, and at any depth. */
  function Passed(no: nat, n: nat, d: nat): int {
    TableOf(no + n, d) - TableOf(no, d)
  }

  function AllPassed(no: nat, n: nat): int {
    Passed(no, n, 1) + Passed(no, n, 2) + Passed(no, n, 3)
  }

  lemma PassedNext(no: nat, n: nat)
    ensures AllPassed(no, n + 1) == AllPassed(no, n) + AllPassed(no + n, 1)
  {
  }

  lemma OnePassed(no: nat, d: nat)
    ensures Passed(no, 1, d) == if TableOf(no + 1, d) == TableOf(no, d) then 0 else 1
  {
  }

  /** The tables a range needs, when those exist that lead to the page before it. */
  lemma {:induction false} TablesPassed(keys: set<seq<nat>>, va: nat, n: nat)
    requires HIGH < va && va % PAGE == 0 && va + PAGE * n <= WORD && UpTo(keys, HighNo(va) - 1)
    ensures NewTables(keys, va, n) == AllPassed(HighNo(va) - 1, n)
  {
    hide NewTables, AllPassed, UpTo;
    if n > 0 {
      TablesPassed(keys, va, n - 1);
      TablesNext(keys, va, n - 1);
    } else {
      NonePassed(keys, va, HighNo(va) - 1);
    }
  }

  lemma NonePassed(keys: set<seq<nat>>, va: nat, no: nat)
    ensures NewTables(keys, va, 0) == AllPassed(no, 0)
  {
  }

  lemma TablesNext(keys: set<seq<nat>>, va: nat, n: nat)
    requires HIGH < va && va % PAGE == 0 && va + PAGE * (n + 1) <= WORD && UpTo(keys, HighNo(va) - 1)
    requires NewTables(keys, va, n) == AllPassed(HighNo(va) - 1, n)
    ensures NewTables(keys, va, n + 1) == AllPassed(HighNo(va) - 1, n + 1)
  {
    hide NewTables, LackingAt, AllPassed, UpTo;
    NewTablesNext(keys, va, n);
    LackingPassed(keys, va, n);
    PassedNext(HighNo(va) - 1, n);
  }

  lemma LackingPassed(keys: set<seq<nat>>, va: nat, n: nat)
    requires HIGH < va && va % PAGE == 0 && va + PAGE * (n + 1) <= WORD && UpTo(keys, HighNo(va) - 1)
    ensures LackingAt(keys, va, n) == AllPassed(HighNo(va) - 1 + n, 1)
  {
    OnePassed(HighNo(va) - 1 + n, 1);
    OnePassed(HighNo(va) - 1 + n, 2);
    OnePassed(HighNo(va) - 1 + n, 3);
    NeedsNew(keys, va, n, 1);
    NeedsNew(keys, va, n, 2);
    NeedsNew(keys, va, n, 3);
  }

  /** The tables of 1 GiB and of 512 GiB that are entered within the 64 tables of 2 MiB behind table `t`. */
  function Crossings(t: nat): nat {
    (if t % 512 >= 448 then 1 else 0) + (if t % 0x4_0000 >= 0x3_FFC0 then 1 else 0)
  }

  /** The exact need of a chunk, once no table is empty: a frame for each of its pages, one for each of
      the 64 tables of 2 MiB it enters, and one for each GiB and for each 512 GiB it enters. */
  lemma ChunkNeeds(keys: set<seq<nat>>, end: nat)
    requires HEAP <= end && (end - HEAP) % Size(TOP) == 0 && end + Size(TOP) <= WORD && UpTo(keys, HighNo(end) - 1)
    ensures RangeNeed(keys, end, ChunkPages()) == 32768 + 64 + Crossings((HighNo(end) - 1) / 512)
  {
    var n, no := ChunkPages(), HighNo(end) - 1;
    ChunkPagesAre();
    EndAligned(end);
    TablesPassed(keys, end, n);
    LackingPassed(keys, end, n - 1);
    ChunkPasses(no);
  }

  lemma EndAligned(end: nat)
    requires HEAP <= end && (end - HEAP) % Size(TOP) == 0
    ensures end % PAGE == 0 && (HighNo(end) - 1) % 512 == 0
  {
    TopSize();
    var k := (end - HEAP) / 0x800_0000;
    assert end - HEAP == 0x800_0000 * k;
    ModIs(end, PAGE, 0xF_FFF8_0010_1001 + 0x8000 * k, 0);
    ModIs(end - HIGH, PAGE, 0x10_1001 + 0x8000 * k, 0);
    ModIs(0x10_1000 + 0x8000 * k + 0x8_0000_0000, 512, 0x808 + 64 * k + 0x400_0000, 0);
  }

  lemma ChunkPasses(no: nat)
    requires no % 512 == 0
    ensures AllPassed(no, 0x8000) == 64 + Crossings(no / 512) && AllPassed(no + 0x7FFF, 1) > 0
  {
    hide Passed, AllPassed, Crossings;
    var t := no / 512;
    assert no == 512 * t;
    ChunkPasses1(t);
    ChunkPasses2(t);
    ChunkPasses3(t);
    PassesSum(512 * t, 0x8000, t);
    LastOpens(t);
  }

  lemma ChunkPasses1(t: nat)
    ensures Passed(512 * t, 0x8000, 1) == if t % 0x4_0000 >= 0x3_FFC0 then 1 else 0
  {
    Enters(t, 0x4_0000);
  }

  lemma ChunkPasses2(t: nat)
    ensures Passed(512 * t, 0x8000, 2) == if t % 512 >= 448 then 1 else 0
  {
    Enters(t, 512);
  }

  lemma ChunkPasses3(t: nat)
    ensures Passed(512 * t, 0x8000, 3) == 64
  {
    ModIs(512 * t, 512, t, 0);
    ModIs(512 * t + 0x8000, 512, t + 64, 0);
  }

  lemma PassesSum(no: nat, n: nat, t: nat)
    ensures AllPassed(no, n) == Passed(no, n, 1) + Passed(no, n, 2) + Passed(no, n, 3)
    ensures Crossings(t) == (if t % 512 >= 448 then 1 else 0) + (if t % 0x4_0000 >= 0x3_FFC0 then 1 else 0)
  {
  }

  /** Of the `m` tables in a larger one, the 64 behind table `t` reach into the next. */
  lemma Enters(t: nat, m: nat)
    requires m >= 64
    ensures (512 * t + 0x8000) / (512 * m) - 512 * t / (512 * m) == if t % m >= m - 64 then 1 else 0
  {
    var a, b := t / m, t % m;
    assert t == m * a + b;
    assert 512 * m * a == 512 * (m * a);
    ModIs(512 * t, 512 * m, a, 512 * b);
    if b >= m - 64 {
      assert 512 * m * (a + 1) == 512 * (m * a) + 512 * m;
      ModIs(512 * t + 0x8000, 512 * m, a + 1, 512 * (b + 64 - m));
    } else {
      ModIs(512 * t + 0x8000, 512 * m, a, 512 * (b + 64));
    }
  }

  lemma LastOpens(t: nat)
    ensures AllPassed(512 * t + 0x7FFF, 1) > 0
  {
    ModIs(512 * t + 0x7FFF, 512, t + 63, 511);
    ModIs(512 * t + 0x8000, 512, t + 64, 0);
  }

  /** With no table empty and the heap's pages mapped exactly up to `end`, exactly the tables on the way
      to the page below `end` lead on. */
  lemma TablesUpTo(s: PState, end: nat)
    requires Sound(s) && NoEmpty(s) && HeapPages(Seen(s), end)
    requires HEAP <= end < WORD && end % PAGE == 0
    ensures UpTo(s.tabs.Keys, HighNo(end) - 1)
  {
    var no := HighNo(end) - 1;
    DirectBelowHeap();
    forall x, d | IsPath(x) && 1 <= d <= 3 && PathNo(x) == no ensures x[..d] in s.tabs {
      LastPageTables(s, end, x, d);
    }
    forall p | p in s.tabs && p != [] ensures NotBehind(p, no) {
      assert TableOk(s.mem, s.tabs, p);
      var x := if OnWindow(p) then DirectPath() else HasLeafPath(s, p);
      assert x[..|p|] == p;
      PrefixTable(x, |p|);
      assert HeapPage(Seen(s), end, x);
    }
  }

  ghost function HasLeafPath(s: PState, p: seq<nat>): (x: seq<nat>)
    requires TreeOk(s.mem, s.tabs) && NoEmpty(s) && p in s.tabs && !OnWindow(p)
    ensures IsPath(x) && p <= x && Leaf(s.mem, s.tabs, x) != Fault
  {
    assert exists x :: IsPath(x) && p <= x && Leaf(s.mem, s.tabs, x) != Fault by {
      var x := HasLeaf(s, p);
    }
    var x :| IsPath(x) && p <= x && Leaf(s.mem, s.tabs, x) != Fault;
    x
  }

  lemma LastPageTables(s: PState, end: nat, x: seq<nat>, d: nat)
    requires Sound(s) && HeapPages(Seen(s), end) && HEAP <= end < WORD && end % PAGE == 0
    requires IsPath(x) && 1 <= d <= 3 && PathNo(x) == HighNo(end) - 1
    ensures x[..d] in s.tabs
  {
    DirectBelowHeap();
    if end == HEAP {
      SamePathNo(x, DirectPath());
      assert OnWindow(x[..d]);
      WindowTable(s, x[..d]);
    } else {
      assert HeapPage(Seen(s), end, x);
      LeafHasTables(s, x, d);
    }
  }
}
