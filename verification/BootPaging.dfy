/** The paging of the bootstrap: src/mem/mem_page.c over the frame pool of src/mem/mem_frame.c. Frames
    are reached at their physical addresses. */
module BootPaging {
  import opened Words
  import opened PageWords
  import opened PageTree
  import opened PageSpec
  import opened PaLists
  import opened BootSpec
  import opened PageRange

  class BootTables {
    /** `_frame_pool_bootstrap` */
    const pool: nat
    /** `_tab_4_bootstrap`, or `_tab_4` in the second stage. */
    const root: nat
    /** Physical memory. */
    var mem: Frames
    /** `_frame_count_bootstrap` */
    var count: nat
    /** The tables of this root, by the indices that lead to them. */
    ghost var tabs: Tabs

    ghost function State(): BState
      reads this
    {
      BState(mem, tabs, count)
    }

    ghost predicate PoolIn(m: Frames) {
      forall k {:trigger PoolFrame(pool, k)} :: 0 <= k < CAP ==> PoolFrame(pool, k) in m && |m[PoolFrame(pool, k)]| == ENTRIES
    }

    /** No table is in a frame of the pool that has not been handed out. */
    ghost predicate Spared(pool: nat, count: nat, us: Tabs) {
      forall p {:trigger us[p]} :: p in us ==> !IsRest(pool, count, us[p])
    }

    ghost predicate Valid()
      reads this
    {
      && 0 < pool && pool % PAGE == 0 && pool + PAGE * CAP <= PHYS
      && count <= CAP && PoolIn(mem)
      && TreeOk(mem, tabs) && tabs[[]] == root
      && Spared(pool, count, tabs)
    }

    /** The root is cleared; `count` frames of the pool are in use already. */
    constructor (mem0: Frames, pool: nat, root: nat, count: nat)
      requires 0 < pool && pool % PAGE == 0 && pool + PAGE * CAP <= PHYS && count <= CAP
      requires forall k {:trigger PoolFrame(pool, k)} :: 0 <= k < CAP ==>
                 PoolFrame(pool, k) in mem0 && |mem0[PoolFrame(pool, k)]| == ENTRIES
      requires IsFrame(root) && !IsRest(pool, 0, root)
      ensures Valid() && this.pool == pool && this.root == root && this.count == count
      ensures tabs == map[[] := root] && mem == mem0[root := Zeros()]
    {
      this.pool, this.root, this.count := pool, root, count;
      mem := mem0[root := Zeros()];
      tabs := map[[] := root];
      new;
      assert TableOk(mem, tabs, []);
    }

    /** `mem_frame_alloc` */
    method FrameAlloc() returns (ok: bool, frame: nat)
      requires Valid()
      modifies this`count
      ensures Valid()
      ensures ok <==> old(count) < CAP
      ensures if ok then frame == PoolFrame(pool, old(count)) && count == old(count) + 1 else count == old(count) && frame == 0
    {
      if count < CAP {
        ok, frame := true, PoolFrame(pool, count);
        count := count + 1;
      } else {
        ok, frame := false, 0;
      }
    }

    /** `_tab_zero`, word by word. */
    method TabZero(f: nat)
      requires f in mem && |mem[f]| == ENTRIES
      modifies this`mem
      ensures mem == old(mem)[f := Zeros()]
    {
      ghost var m := mem;
      var i := 0;
      while i < ENTRIES
        invariant 0 <= i <= ENTRIES
        invariant f in mem && |mem[f]| == ENTRIES && mem == m[f := mem[f]]
        invariant forall j :: 0 <= j < i ==> mem[f][j] == 0
      {
        mem := Put(mem, f, i, 0);
        i := i + 1;
      }
      assert mem[f] == Zeros();
    }

    /** One level of the loops of `_map_bootstrap` and `_map_page`: the table the entry leads to, which is
        taken from the pool if the entry is zero. */
    method NextTable(tab: nat, idx: nat, ghost s: BState, ghost q: seq<nat>, ghost n: nat) returns (ok: bool, next: nat)
      requires Valid() && TreeOk(s.mem, s.tabs) && IsPath(q) && n < 3 && Grew(pool, s, State(), q, n)
      requires tab == tabs[q[..n]] && idx == q[n]
      requires Leaf(s.mem, s.tabs, q) == Fault
      modifies this`mem, this`count, this`tabs
      ensures Valid()
      ensures ok ==> Grew(pool, s, State(), q, n + 1) && q[..n + 1] in tabs && next == tabs[q[..n + 1]]
      ensures !ok ==> count == CAP && unchanged(this) && q[..n + 1] !in tabs
    {
      ghost var r := State();
      assert TableOk(mem, tabs, q[..n]);
      assert q[..n] + [idx] == q[..n + 1];
      if q[..n + 1] in tabs {
        LinkLeads(mem, tabs, q, n);
      } else {
        FaultIsZero(mem, tabs, q, n);
      }
      ok := true;
      if !Present(mem[tab][idx]) {
        var frame;
        ok, frame := FrameAlloc();
        if !ok {
          return false, 0;
        }
        HangTable(tab, idx, frame, q[..n]);
      }
      next := Addr(mem[tab][idx]);
      GrewOne(pool, s, r, State(), q, n);
    }

    /** The entry is initialised and the new table cleared. */
    method HangTable(tab: nat, idx: nat, frame: nat, ghost p: seq<nat>)
      requires 0 < count <= CAP && frame == PoolFrame(pool, count - 1)
      requires 0 < pool && pool % PAGE == 0 && pool + PAGE * CAP <= PHYS && PoolIn(mem)
      requires TreeOk(mem, tabs) && tabs[[]] == root
      requires Spared(pool, count - 1, tabs)
      requires p in tabs && |p| < 3 && tab == tabs[p] && tab in mem && idx < |mem[tab]| == ENTRIES
      requires Word(mem, tabs, p, idx) == 0
      modifies this`mem, this`tabs
      ensures Valid() && tabs == old(tabs)[p + [idx] := frame] && p + [idx] !in old(tabs)
      ensures tab in mem && idx < |mem[tab]| && Addr(mem[tab][idx]) == frame
      ensures SameLeaves(old(mem), old(tabs), mem, tabs)
      ensures forall f :: f in old(mem) && f !in old(tabs).Values && f != frame ==> f in mem && mem[f] == old(mem)[f]
    {
      ghost var m, us := mem, tabs;
      assert tab in tabs.Values;
      FrameIsFresh(frame, count - 1);
      AddFreshTable(mem, tabs, p, idx, frame, Zeros());
      EntryRoundTrip(frame, false);
      mem := Put(mem, tab, idx, Entry(frame, false));
      TabZero(frame);
      tabs := tabs[p + [idx] := frame];
      PutThenBlank(m, tab, idx, Entry(frame, false), frame, Zeros());
    }

    lemma FrameIsFresh(frame: nat, k: nat)
      requires k < CAP && frame == PoolFrame(pool, k) && 0 < pool && pool % PAGE == 0 && pool + PAGE * CAP <= PHYS
      requires Spared(pool, k, tabs)
      ensures IsFrame(frame) && frame !in tabs.Values
    {
      ModIs(frame, PAGE, pool / PAGE + k, 0);
      assert IsRest(pool, k, frame);
    }

    lemma PutThenBlank(m: Frames, t: nat, i: nat, w: nat, f: nat, blank: seq<nat>)
      requires t in m && i < |m[t]| && t != f
      ensures Put(m, t, i, w)[f := blank] == Put(m[f := blank], t, i, w)
    {
    }

    lemma WayStart(q: seq<nat>)
      requires Valid() && |q| == 4
      ensures TreeOk(mem, tabs) && q[..0] in tabs && tabs[q[..0]] == root && Grew(pool, State(), State(), q, 0)
    {
      GrewNone(pool, State(), q);
    }

    lemma WayStuck(s: BState, q: seq<nat>, n: nat, d: nat, m: Mapping)
      requires TreeOk(s.mem, s.tabs) && Grew(pool, s, State(), q, n) && n < d <= 3
      requires q[..n + 1] !in tabs && count == CAP
      ensures Entered(pool, s, State(), q, d, m, false)
    {
      GrewStuck(pool, s, State(), q, n, d);
    }

    /** `_map_bootstrap`: a page of 2 MiB. */
    method MapBootstrap(va: nat, pa: nat) returns (ok: bool)
      requires Valid() && va % BIG_PAGE == 0 && pa % BIG_PAGE == 0 && pa < PHYS
      requires Idx(va)[..3] !in tabs && Leaf(mem, tabs, Idx(va)) == Fault
      modifies this`mem, this`count, this`tabs
      ensures Valid() && Entered(pool, old(State()), State(), Idx(va), 2, Big(pa), ok)
      ensures ok ==> MayWrite(mem, root, Idx(va), 0)
    {
      hide Grew, Entered, BootTables.Valid, Leaf, TreeOk;
      ghost var s, q := State(), Idx(va);
      WayStart(q);
      IdxFields(va);
      ok := true;
      var tab := root;
      var lv := 4;
      ghost var n := 0;
      while lv > 2
        invariant 0 <= n <= 2 && n == 4 - lv && ok && Valid()
        invariant Grew(pool, s, State(), q, n) && q[..n] in tabs && tab == tabs[q[..n]]
        decreases lv
      {
        ok, tab := NextTable(tab, TabIndex(va, lv), s, q, n);
        if !ok {
          WayStuck(s, q, n, 2, Big(pa));
          break;
        }
        lv := lv - 1;
        n := n + 1;
      }
      if ok {
        EntryRoundTrip(pa, true);
        SetEntry(tab, TabIndex(va, 2), pa, true, s, q, 2);
        NowWritable(s, q, 2, Big(pa));
      }
    }

    /** The last level: the entry must be zero, and is initialised for the page. */
    method SetEntry(tab: nat, idx: nat, pa: nat, huge: bool, ghost s: BState, ghost q: seq<nat>, ghost n: nat)
      requires Valid() && IsPath(q) && n == (if huge then 2 else 3) && Grew(pool, s, State(), q, n)
      requires tab == tabs[q[..n]] && idx == q[n] && q[..n + 1] !in s.tabs && Leaf(s.mem, s.tabs, q) == Fault
      requires pa < PHYS && pa % (if huge then BIG_PAGE else PAGE) == 0
      modifies this`mem
      ensures Valid() && Entered(pool, s, State(), q, n, if huge then Big(pa) else Small(pa), true)
    {
      ghost var r := State();
      GrownKeeps(s.tabs, q, Rest(pool, s.count), n);
      GrownInRest(pool, s, q, n);
      FaultIsZero(mem, tabs, q, n);
      assert TableOk(mem, tabs, q[..n]);
      assert mem[tab][idx] == 0;
      BigIsSmall(pa);
      EntryRoundTrip(pa, huge);
      mem := Put(mem, tab, idx, Entry(pa, huge));
      EnteredAll(pool, s, r, State(), q, n, Entry(pa, huge));
    }

    lemma BigIsSmall(pa: nat)
      ensures pa % BIG_PAGE == 0 ==> pa % PAGE == 0
    {
    }

    /** `_map_page`: a page of 4 KiB. `ok` is its assertion that the pool has a frame. */
    method MapPage(va: nat, pa: nat) returns (ok: bool)
      requires Valid() && va % PAGE == 0 && pa % PAGE == 0 && pa < PHYS
      requires Leaf(mem, tabs, Idx(va)) == Fault
      modifies this`mem, this`count, this`tabs
      ensures Valid() && Entered(pool, old(State()), State(), Idx(va), 3, Small(pa), ok)
      ensures ok ==> MayWrite(mem, root, Idx(va), 0)
    {
      hide Grew, Entered, BootTables.Valid, Leaf, TreeOk;
      ghost var s, q := State(), Idx(va);
      WayStart(q);
      IdxFields(va);
      NoFifth(mem, tabs, q);
      var tab := root;
      var lv := 4;
      ghost var n := 0;
      while lv > 1
        invariant 0 <= n <= 3 && n == 4 - lv && Valid()
        invariant Grew(pool, s, State(), q, n) && q[..n] in tabs && tab == tabs[q[..n]]
        decreases lv
      {
        ok, tab := NextTable(tab, TabIndex(va, lv), s, q, n);
        if !ok {
          WayStuck(s, q, n, 3, Small(pa));
          return false;
        }
        lv := lv - 1;
        n := n + 1;
      }
      SetEntry(tab, TabIndex(va, 1), pa, false, s, q, 3);
      NowWritable(s, q, 3, Small(pa));
      return true;
    }

    /** A page that has been entered may be written. */
    lemma NowWritable(s: BState, q: seq<nat>, n: nat, m: Mapping)
      requires Valid() && IsPath(q) && m != Fault && Entered(pool, s, State(), q, n, m, true)
      ensures MayWrite(mem, root, q, 0)
    {
      assert q[..n + 1] <= q;
      MappedIsWritable(mem, tabs, q);
      WalkFindsLeaf(mem, tabs, q);
    }

    // -------------------------------------------------------------------------------------------
    // The identity mapping
    // -------------------------------------------------------------------------------------------

    /** Every table but the root is in a frame of the pool. */
    ghost predicate FromPool()
      reads this
    {
      forall p :: p in tabs && p != [] ==> IsRest(pool, 0, tabs[p])
    }

    /** Both stages start with the root cleared. */
    method ClearRoot()
      requires Valid() && tabs == map[[] := root]
      modifies this`mem
      ensures Valid() && forall x :: IsPath(x) ==> Leaf(mem, tabs, x) == Fault
    {
      assert TableOk(mem, tabs, []);
      TabZero(root);
      assert TableOk(mem, tabs, []);
      OnlyRoot();
    }

    lemma OnlyRoot()
      requires Valid() && tabs == map[[] := root] && root in mem && Blank(mem[root])
      ensures forall x :: IsPath(x) ==> Leaf(mem, tabs, x) == Fault
    {
    }

    lemma StaysFromPool(s: BState, q: seq<nat>)
      requires |q| == 4 && s.count + Missing(s.tabs, q, 2) <= CAP
      requires forall p :: p in s.tabs && p != [] ==> IsRest(pool, 0, s.tabs[p])
      requires tabs == Grown(s.tabs, q, Rest(pool, s.count), 2)
      ensures FromPool()
    {
      GrownKeeps(s.tabs, q, Rest(pool, s.count), 2);
      GrownInRest(pool, s, q, 2);
    }

    /** `mem_page_bootstrap_1`: no call runs out of frames, exactly 1026 frames of the pool become the
        tables of levels 3 and 2, and below 1 TiB less 2 MiB the processor finds every address at
        itself, and nothing anywhere else. */
    method Bootstrap1()
      requires Valid() && count == 0 && tabs == map[[] := root]
      modifies this`mem, this`count, this`tabs
      ensures Valid() && count == 2 + 1024
      ensures forall p :: p in tabs <==> p == [] || (|p| == 1 && p[0] < 2) || (|p| == 2 && p[0] < 2 && p[1] < 512)
      ensures forall p :: p in tabs && p != [] ==> PoolFrame(pool, 0) <= tabs[p] < PoolFrame(pool, 1026)
      ensures forall va: nat :: Canonical(va) ==>
        var m := Walk(mem, root, Idx(va), 0);
        if va < 0x100_0000_0000 - BIG_PAGE then m != Fault && PhysicalByte(m, va) == va else m == Fault
    {
      hide BootTables.Valid, Leaf, Walk, Identity, Canonical, Idx, BootTables.FromPool;
      ClearRoot();
      IdentityStart();
      var va := 0;
      ghost var i := 0;
      while va + BIG_PAGE < 0x100_0000_0000
        invariant 0 <= i <= PAGES && va == BIG_PAGE * i
        invariant Valid() && FromPool() && Identity(State(), i)
        decreases PAGES - i
      {
        IdentityPage(va, i);
        va := va + BIG_PAGE;
        i := i + 1;
      }
      IdentityDone(i);
    }

    /** One page of the identity; the call never runs out of frames. */
    method IdentityPage(va: nat, ghost i: nat)
      requires Valid() && FromPool() && Identity(State(), i) && i < PAGES && va == BIG_PAGE * i
      modifies this`mem, this`count, this`tabs
      ensures Valid() && FromPool() && Identity(State(), i + 1)
    {
      ghost var s := State();
      IdentityNeeds(s, i);
      BigIdx(i);
      BigMultiple(i);
      hide BootTables.Valid, Leaf, Identity, Idx, BootTables.FromPool;
      var ok := MapBootstrap(va, va);
      assert ok;
      IdentityOne(pool, s, State(), i);
      StaysFromPool(s, Idx(va));
    }

    lemma IdentityStart()
      requires Valid() && tabs == map[[] := root] && count == 0
      requires forall x :: IsPath(x) ==> Leaf(mem, tabs, x) == Fault
      ensures FromPool() && Identity(State(), 0)
    {
    }

    lemma IdentityDone(i: nat)
      requires Valid() && FromPool() && Identity(State(), i) && i == PAGES
      ensures count == 2 + 1024
      ensures forall p :: p in tabs <==> p == [] || (|p| == 1 && p[0] < 2) || (|p| == 2 && p[0] < 2 && p[1] < 512)
      ensures forall p :: p in tabs && p != [] ==> PoolFrame(pool, 0) <= tabs[p] < PoolFrame(pool, 1026)
      ensures forall va: nat :: Canonical(va) ==>
        var m := Walk(mem, root, Idx(va), 0);
        if va < 0x100_0000_0000 - BIG_PAGE then m != Fault && PhysicalByte(m, va) == va else m == Fault
    {
      forall va: nat | Canonical(va)
        ensures var m := Walk(mem, root, Idx(va), 0);
                if va < 0x100_0000_0000 - BIG_PAGE then m != Fault && PhysicalByte(m, va) == va else m == Fault
      {
        IdentitySeen(State(), root, va);
      }
    }

    static lemma BigMultiple(i: nat)
      requires i < PAGES
      ensures (BIG_PAGE * i) % BIG_PAGE == 0 && BIG_PAGE * i < PHYS
    {
      ModIs(BIG_PAGE * i, BIG_PAGE, i, 0);
    }

    // -------------------------------------------------------------------------------------------
    // Ranges
    // -------------------------------------------------------------------------------------------

    /** `_map_impl`: page `i` from `va` on is mapped to page `i` of the ranges laid end to end. */
    method MapImpl(va: nat, nPg: nat, list: PaList) returns (ok: bool)
      requires Valid() && list.Valid() && va % PAGE == 0 && va + PAGE * nPg <= WORD && nPg < 0x10_0000_0000
      requires nPg == |list.Frames()| && forall r :: r in list.Ranges() ==> FramesOk(r)
      requires AllFault(Seen(State()), va, nPg)
      modifies this`mem, this`count, this`tabs
      ensures Valid() && RangeEffect(pool, old(State()), State(), va, old(list.Frames()), ok)
    {
      hide RangeEntered, RangeEffect, BootTables.Valid, AllFault;
      ghost var s, rs, fs := State(), list.Ranges(), list.Frames();
      RangeStart(pool, s, va, fs);
      var paIdx, paPage, i := 0, 0, 0;
      while i < nPg
        invariant 0 <= i <= nPg && Cursor(rs, paIdx, paPage, i)
        invariant Valid() && RangeEntered(pool, s, State(), va, fs, i)
        decreases nPg - i, |rs| - paIdx
      {
        CursorNext(rs, paIdx, paPage, i);
        if paPage < list.nPg[paIdx] {
          ok := PageOfRange(va, i, list, paIdx, paPage, s);
          if !ok {
            return false;
          }
          i := i + 1;
          paPage := paPage + 1;
        } else {
          paIdx := paIdx + 1;
          paPage := 0;
        }
      }
      CountInPool();
      RangeDone(pool, s, State(), va, fs);
      return true;
    }

    lemma RootHangs()
      requires Valid()
      ensures TreeOk(mem, tabs) && tabs[[]] == root
    {
    }

    lemma CountInPool()
      requires Valid()
      ensures count <= CAP
    {
    }

    /** The call of `_map_page` for page `i`, which is page `paPage` of range `paIdx`. */
    method PageOfRange(va: nat, i: nat, list: PaList, paIdx: nat, paPage: nat, ghost s: BState) returns (ok: bool)
      requires Valid() && list.Valid() && va % PAGE == 0 && i < 0x10_0000_0000
      requires Cursor(list.Ranges(), paIdx, paPage, i) && paIdx < list.pa.Length && paPage < list.nPg[paIdx]
      requires FramesOk(list.Ranges()[paIdx])
      requires i < |list.Frames()| && RangeEntered(pool, s, State(), va, list.Frames(), i)
      requires AllFault(Seen(s), va, |list.Frames()|)
      modifies this`mem, this`count, this`tabs
      ensures Valid()
      ensures if ok then RangeEntered(pool, s, State(), va, old(list.Frames()), i + 1)
              else RangeEffect(pool, s, State(), va, old(list.Frames()), false)
    {
      hide BootTables.Valid, RangeEffect, Entered, Cursor, Flatten, Leaf, OthersKept, TablesFrom;
      ghost var r, rs, fs := State(), list.Ranges(), list.Frames();
      CountInPool();
      CursorFrame(rs, paIdx, paPage, i);
      FrameOf(rs[paIdx], paPage);
      assert FaultsAt(Seen(s), va, i);
      NextFaults(Seen(s), Seen(r), va, fs, i, i);
      var pageVa := va + PAGE * i;
      ModIs(pageVa, PAGE, va / PAGE + i, 0);
      assert Idx(pageVa) == PagePath(va, i);
      ok := MapPage(pageVa, list.pa[paIdx] + PAGE * paPage);
      RangeOne(pool, s, r, State(), va, fs, i, ok);
      if !ok {
        RangeFailed(pool, s, State(), va, fs, i + 1);
      }
    }

    /** `VA_48_FRAME_BUFFER`, and the bytes up to `VA_48_FRAME_BUFFER_END`. */
    static const FRAME_BUFFER := HIGH + 256 * PAGE
    static const FRAME_BUFFER_LEN := (4096 - 256) * PAGE

    /** What `mem_page_bootstrap_2` leaves: the kernel's whole pages at themselves, the frame buffer at
        its virtual place, and nothing else. */
    ghost predicate Bootstrapped(kerEnd: nat, fb: nat, fbLen: nat)
      reads this
    {
      forall va: nat :: Canonical(va) ==> Walk(mem, root, Idx(va), 0) == Stage2(kerEnd, fb, fbLen, va)
    }

    static function Stage2(kerEnd: nat, fb: nat, fbLen: nat, va: nat): Mapping {
      if va < kerEnd / PAGE * PAGE then Small(va / PAGE * PAGE)
      else if FRAME_BUFFER <= va < FRAME_BUFFER + fbLen then Small(fb + (va - FRAME_BUFFER) / PAGE * PAGE)
      else Fault
    }

    /** Byte for byte: the kernel at itself, the frame buffer at its virtual place. */
    static lemma Stage2Bytes(kerEnd: nat, fb: nat, fbLen: nat, va: nat)
      requires fb % PAGE == 0
      ensures var m := Stage2(kerEnd, fb, fbLen, va);
              if va < kerEnd - kerEnd % PAGE then m != Fault && PhysicalByte(m, va) == va
              else if HIGH + 0x10_0000 <= va < HIGH + 0x10_0000 + fbLen
              then m != Fault && PhysicalByte(m, va) == fb + (va - HIGH - 0x10_0000)
              else m == Fault
    {
      assert (va - FRAME_BUFFER) % PAGE == va % PAGE by {
        ModIs(FRAME_BUFFER, PAGE, FRAME_BUFFER / PAGE, 0);
        ModIs(va - FRAME_BUFFER, PAGE, va / PAGE - FRAME_BUFFER / PAGE, va % PAGE);
      }
    }

    /** The page count of the kernel is rounded down, so its last bytes are mapped exactly if it ends at
        a page boundary. */
    static lemma KernelCovered(kerEnd: nat, fb: nat, fbLen: nat)
      requires kerEnd <= PHYS
      ensures (forall va: nat :: va < kerEnd ==> Stage2(kerEnd, fb, fbLen, va) != Fault) <==> kerEnd % PAGE == 0
    {
      if kerEnd % PAGE != 0 {
        assert Stage2(kerEnd, fb, fbLen, kerEnd - 1) == Fault;
      }
    }

    /** A call of `_map_impl` with a list of one range. */
    method MapOne(va: nat, list: PaList, pa: nat, n: nat) returns (ok: bool)
      requires Valid() && list.Valid() && list.pa.Length == 1 && FramesOk(Range(pa, n))
      requires va % PAGE == 0 && va + PAGE * n <= WORD && n < 0x10_0000_0000 && AllFault(Seen(State()), va, n)
      modifies this`mem, this`count, this`tabs, list.pa, list.nPg
      ensures Valid() && RangeEffect(pool, old(State()), State(), va, Run(Range(pa, n), n), ok)
    {
      list.SetRange(0, pa, n);
      assert list.Ranges() == [Range(pa, n)];
      OneRange(list.Ranges());
      ok := MapImpl(va, n, list);
    }

    lemma AllStillFault(va: nat, n: nat)
      requires forall x :: IsPath(x) ==> Leaf(mem, tabs, x) == Fault
      ensures AllFault(Seen(State()), va, n)
    {
      forall j | 0 <= j < n ensures FaultsAt(Seen(State()), va, j) {
        assert IsPath(PagePath(va, j));
      }
    }

    /** The pages of the frame buffer are none of the kernel's. */
    lemma FrameBufferFaults(s: BState, fs: seq<nat>, n: nat)
      requires AllFault(Seen(s), FRAME_BUFFER, n) && RangeEntered(pool, s, State(), 0, fs, |fs|)
      requires PAGE * |fs| <= PHYS && PAGE * n <= FRAME_BUFFER_LEN
      ensures AllFault(Seen(State()), FRAME_BUFFER, n)
    {
      forall j | 0 <= j < n ensures FaultsAt(Seen(State()), FRAME_BUFFER, j) {
        var q := PagePath(FRAME_BUFFER, j);
        forall i | 0 <= i < |fs| ensures q != PagePath(0, i) {
          NotInRange(0, |fs|, FRAME_BUFFER + PAGE * j, i);
        }
        assert Outside(0, |fs|, q);
        assert FaultsAt(Seen(s), FRAME_BUFFER, j);
      }
    }

    /** The tables the two ranges need below a root without any. */
    static ghost function Stage2Tables(kernel: nat, buffer: nat): nat {
      NewTables({[]}, 0, kernel) + NewTables({[]} + Ways(0, kernel), FRAME_BUFFER, buffer)
    }

    static lemma SecondStage(pool: nat, s: BState, r: BState, fs: seq<nat>, buffer: nat)
      requires s.tabs.Keys == {[]} && RangeEntered(pool, s, r, 0, fs, |fs|)
      ensures RoomFor(r, FRAME_BUFFER, buffer) <==> s.count + Stage2Tables(|fs|, buffer) <= CAP
    {
      forall p ensures p in r.tabs.Keys <==> p in {[]} + Ways(0, |fs|) {
        assert TableWanted(s.tabs.Keys, r.tabs, 0, |fs|, p);
      }
      assert r.tabs.Keys == {[]} + Ways(0, |fs|);
    }

    static lemma FirstStageStuck(s: BState, kernel: nat, buffer: nat)
      requires s.tabs.Keys == {[]} && !RoomFor(s, 0, kernel)
      ensures s.count + Stage2Tables(kernel, buffer) > CAP
    {
    }

    /** `mem_page_bootstrap_2`: the kernel image, from address 0, and the frame buffer. */
    method Bootstrap2(kerEnd: nat, fb: nat, fbLen: nat) returns (ok: bool)
      requires Valid() && tabs == map[[] := root]
      requires kerEnd <= PHYS && fb % PAGE == 0 && fbLen % PAGE == 0 && fb + fbLen <= PHYS && fbLen < FRAME_BUFFER_LEN
      modifies this`mem, this`count, this`tabs
      ensures Valid()
      ensures ok <==> old(count) + Stage2Tables(kerEnd / PAGE, fbLen / PAGE) <= CAP
      ensures ok ==> Bootstrapped(kerEnd, fb, fbLen)
    {
      hide BootTables.Valid, Leaf, TreeOk, RangeEntered, NewTables, Ways, Run, AllFault, Walk, Idx;
      ClearRoot();
      RootHangs();
      ghost var s := State();
      var list := new PaList(1);
      var kernel, buffer := kerEnd / PAGE, fbLen / PAGE;
      assert s.tabs.Keys == {[]};
      AllStillFault(0, kernel);
      AllStillFault(FRAME_BUFFER, buffer);
      ok := MapOne(0, list, 0, kernel);
      if ok {
        ghost var fs, r := Run(Range(0, kernel), kernel), State();
        FrameBufferFaults(s, fs, buffer);
        SecondStage(pool, s, r, fs, buffer);
        ok := MapOne(FRAME_BUFFER, list, fb, buffer);
        if ok {
          StagesSeen(s, r, kerEnd, fb, fbLen);
        }
      } else {
        FirstStageStuck(s, kernel, buffer);
      }
    }

    lemma StageSeen(s: BState, r: BState, kerEnd: nat, fb: nat, fbLen: nat, va: nat)
      requires Valid() && TreeOk(s.mem, s.tabs) && s.tabs[[]] == root && TreeOk(r.mem, r.tabs) && r.tabs[[]] == root
      requires forall x :: IsPath(x) ==> Leaf(s.mem, s.tabs, x) == Fault
      requires kerEnd <= PHYS && fb % PAGE == 0 && fbLen % PAGE == 0 && fb + fbLen <= PHYS && fbLen < FRAME_BUFFER_LEN
      requires RangeEntered(pool, s, r, 0, Run(Range(0, kerEnd / PAGE), kerEnd / PAGE), kerEnd / PAGE)
      requires RangeEntered(pool, r, State(), FRAME_BUFFER, Run(Range(fb, fbLen / PAGE), fbLen / PAGE), fbLen / PAGE)
      requires Canonical(va)
      ensures Walk(mem, root, Idx(va), 0) == Stage2(kerEnd, fb, fbLen, va)
    {
      hide Walk, Leaf, RangeEntered, TreeOk, Idx;
      WalkFindsLeaf(s.mem, s.tabs, Idx(va));
      StageRanges(kerEnd, fb, fbLen);
      RangeSeen(pool, s, r, root, 0, Run(Range(0, kerEnd / PAGE), kerEnd / PAGE), va);
      RangeSeen(pool, r, State(), root, FRAME_BUFFER, Run(Range(fb, fbLen / PAGE), fbLen / PAGE), va);
    }

    static lemma StageRanges(kerEnd: nat, fb: nat, fbLen: nat)
      requires kerEnd <= PHYS && fbLen % PAGE == 0 && fbLen < FRAME_BUFFER_LEN
      ensures PAGE * (kerEnd / PAGE) <= PHYS && kerEnd / PAGE < 0x10_0000_0000
      ensures FRAME_BUFFER % PAGE == 0 && FRAME_BUFFER >= HIGH && FRAME_BUFFER + PAGE * (fbLen / PAGE) <= WORD
      ensures PAGE * (fbLen / PAGE) == fbLen && fbLen / PAGE < 0x10_0000_0000
    {
    }

    lemma StagesSeen(s: BState, r: BState, kerEnd: nat, fb: nat, fbLen: nat)
      requires Valid() && TreeOk(s.mem, s.tabs) && s.tabs[[]] == root && TreeOk(r.mem, r.tabs) && r.tabs[[]] == root
      requires forall x :: IsPath(x) ==> Leaf(s.mem, s.tabs, x) == Fault
      requires kerEnd <= PHYS && fb % PAGE == 0 && fbLen % PAGE == 0 && fb + fbLen <= PHYS && fbLen < FRAME_BUFFER_LEN
      requires RangeEntered(pool, s, r, 0, Run(Range(0, kerEnd / PAGE), kerEnd / PAGE), kerEnd / PAGE)
      requires RangeEntered(pool, r, State(), FRAME_BUFFER, Run(Range(fb, fbLen / PAGE), fbLen / PAGE), fbLen / PAGE)
      ensures Bootstrapped(kerEnd, fb, fbLen)
    {
      hide Walk, Leaf, RangeEntered, TreeOk, Canonical, Run, Stage2, Idx;
      forall va: nat | Canonical(va) ensures Walk(mem, root, Idx(va), 0) == Stage2(kerEnd, fb, fbLen, va) {
        StageSeen(s, r, kerEnd, fb, fbLen, va);
      }
    }
  }
}
