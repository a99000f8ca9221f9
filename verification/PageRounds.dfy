/** The rounds of `_test_paging` of src/mm/mm_page.c: pages are mapped to fresh frames and unmapped again, and
    the frames come back. */
module PageRounds {
  import opened Lists
  import opened Words
  import opened PageWords
  import opened PageTree
  import opened PageSpec
  import opened PageRange
  import opened PageRuns
  import opened Paging
  import opened HeapFrames

  /** Of the pages mapped to the frames `fs` the first `i` are left. */
  ghost predicate Left(s: PState, r: PState, va: nat, fs: seq<nat>, i: nat) {
    && i <= |fs| && Sound(r) && NoEmpty(r) && Stock(r) + i == Stock(s)
    && LeavesEntered(Seen(s), Seen(r), va, fs, i) && HandedOut(r, fs, i)
  }

  /** The frames that pages are mapped to are all different. */
  ghost predicate AllDifferent(fs: seq<nat>) {
    forall i, j {:trigger fs[i], fs[j]} :: 0 <= i < j < |fs| ==> fs[i] != fs[j]
  }

  lemma FramesDiffer(free: seq<nat>, keys: set<seq<nat>>, va: nat, n: nat)
    requires NoDup(free) && n + NewTables(keys, va, n) <= |free|
    ensures AllDifferent(Backing(free, keys, va, n))
  {
    var fs := Backing(free, keys, va, n);
    forall i, j | 0 <= i < j < |fs| ensures fs[i] != fs[j] {
      BackingAt(free, keys, va, n, i);
      BackingAt(free, keys, va, n, j);
      NewTablesGrow(keys, va, i, j);
      NewTablesGrow(keys, va, j, n);
      assert !Clash(free, i + NewTables(keys, va, i), j + NewTables(keys, va, j));
    }
  }

  // ---------------------------------------------------------------------------------------------
  // All pages mapped
  // ---------------------------------------------------------------------------------------------

  lemma {:induction false} WayOfPage(va: nat, n: nat, p: seq<nat>) returns (j: nat)
    requires p in Ways(va, n)
    ensures j < n && 0 < |p| <= 3 && p == PagePath(va, j)[..|p|]
  {
    WaysLast(va, n, p);
    if p in Ways(va, n - 1) {
      j := WayOfPage(va, n - 1, p);
    } else {
      j := n - 1;
    }
  }

  lemma NoEmptyYet(s: PState, r: PState, va: nat, fs: seq<nat>, n: nat)
    requires Sound(s) && NoEmpty(s) && Sound(r) && n <= |fs| && AllFault(Seen(s), va, n)
    requires LeavesEntered(Seen(s), Seen(r), va, fs, n) && TablesAre(s.tabs.Keys, r.tabs, va, n)
    ensures NoEmpty(r)
  {
    forall p | p in r.tabs && !OnWindow(p) ensures r.tabs[p] in r.mem && !Blank(r.mem[r.tabs[p]]) {
      assert TableWanted(s.tabs.Keys, r.tabs, va, n, p);
      assert TableOk(r.mem, r.tabs, p);
      if p in s.tabs {
        var x := HasLeaf(s, p);
        forall j | 0 <= j < n ensures x != PagePath(va, j) {
          assert FaultsAt(Seen(s), va, j);
        }
        assert Outside(va, n, x);
        MappedNotBlank(r, p, x);
      } else {
        var j := WayOfPage(va, n, p);
        assert LeadsAt(Seen(r), va, fs, j);
        MappedNotBlank(r, p, PagePath(va, j));
      }
    }
  }

  lemma AllLeft(s: PState, r: PState, va: nat, fs: seq<nat>)
    requires Sound(s) && NoEmpty(s) && Sound(r) && AllFault(Seen(s), va, |fs|) && Backed(s, r, va, fs, |fs|)
    ensures Left(s, r, va, fs, |fs|)
  {
    hide Sound, NoEmpty, LeavesEntered, HandedOut, AllFault, NewTables, TablesAre, Stock;
    NoEmptyYet(s, r, va, fs, |fs|);
    StockMapped(s, r, va, |fs|);
  }

  lemma StockMapped(s: PState, r: PState, va: nat, n: nat)
    requires FramesTaken(s, r, n + NewTables(s.tabs.Keys, va, n)) && TablesAre(s.tabs.Keys, r.tabs, va, n)
    ensures Stock(r) + n == Stock(s)
  {
    hide NewTables, Ways, After, TablesAre;
    AfterIsDrop(s.free, n + NewTables(s.tabs.Keys, va, n));
    NewTablesIsCard(s.tabs.Keys, va, n);
    KeysAre(s.tabs.Keys, r.tabs, va, n);
    assert |r.tabs| == |r.tabs.Keys| && |s.tabs| == |s.tabs.Keys|;
  }

  // ---------------------------------------------------------------------------------------------
  // One page unmapped
  // ---------------------------------------------------------------------------------------------

  lemma LeavesLeft(s: PState, r: PState, r': PState, va: nat, fs: seq<nat>, i: nat)
    requires i < |fs| && LeavesEntered(Seen(s), Seen(r), va, fs, i + 1) && AllFault(Seen(s), va, |fs|)
    requires va % PAGE == 0 && |fs| < 0x10_0000_0000 && Faulted(r, r', PagePath(va, i), 3)
    ensures LeavesEntered(Seen(s), Seen(r'), va, fs, i)
  {
    var q := PagePath(va, i);
    WholePath(q);
    forall j | 0 <= j < i ensures LeadsAt(Seen(r'), va, fs, j) {
      PagesDistinct(va, i, j);
      assert LeadsAt(Seen(r), va, fs, j);
    }
    forall x | IsPath(x) && Outside(va, i, x) ensures LeadsTo(Seen(r'), x, Leaf(s.mem, s.tabs, x)) {
      if x == q {
        assert FaultsAt(Seen(s), va, i);
      } else {
        assert Outside(va, i + 1, x);
        assert LeadsTo(Seen(r), x, Leaf(s.mem, s.tabs, x));
      }
    }
  }

  /** The frame of another page stays what it is. */
  lemma DataStays(r: PState, r': PState, q: seq<nat>, data: seq<nat>, f: nat)
    requires Sound(r) && Sound(r') && IsPath(q) && q[..3] in r.tabs && q[..4] !in r.tabs && UnmapEffect(r, r', q, 3, data)
    requires IsData(r, f) && f !in data
    ensures IsData(r', f)
  {
    if Reserved(r', f) {
      NoNewReserved(r, Unmap(q, 3, data), r', f);
    }
  }

  lemma OneLeft(s: PState, r: PState, r': PState, va: nat, fs: seq<nat>, i: nat)
    requires i < |fs| && Left(s, r, va, fs, i + 1) && Sound(r') && AllDifferent(fs) && AllFault(Seen(s), va, |fs|)
    requires va % PAGE == 0 && |fs| < 0x10_0000_0000
    requires UnmapEffect(r, r', PagePath(va, i), 3, [fs[i]])
    ensures Left(s, r', va, fs, i)
  {
    var q := PagePath(va, i);
    assert LeadsAt(Seen(r), va, fs, i);
    LeafHasTables(r, q, 3);
    NoFifth(r.mem, r.tabs, q);
    LeavesLeft(s, r, r', va, fs, i);
    UnmapKeepsNoEmpty(r, r', q, 3, [fs[i]]);
    UnmapConserves(r, r', q, 3, [fs[i]]);
    forall j | 0 <= j < i ensures IsData(r', fs[j]) {
      DataStays(r, r', q, [fs[i]], fs[j]);
    }
  }

  /** Page `i` is there to be unmapped. */
  lemma NextToUnmap(s: PState, r: PState, va: nat, fs: seq<nat>, i: nat)
    requires i < |fs| && Left(s, r, va, fs, i + 1) && va % PAGE == 0
    ensures (va + PAGE * i) % PAGE == 0 && Walk(r.mem, r.tabs[[]], Idx(va + PAGE * i), 0) == Small(fs[i])
    ensures DataFrames(r, fs[i], 0, 1) && PageFrames(fs[i], 1) == [fs[i]]
  {
    ModIs(va + PAGE * i, PAGE, va / PAGE + i, 0);
    assert LeadsAt(Seen(r), va, fs, i);
    WalkFindsLeaf(r.mem, r.tabs, PagePath(va, i));
    assert Piece(fs[i], 0) == fs[i] && IsData(r, fs[i]);
    assert PageFrames(fs[i], 0) == [];
  }

  /** With no page left the translation is what it was, and so are the tables and the free count. */
  lemma NoneLeft(s: PState, r: PState, va: nat, fs: seq<nat>)
    requires Sound(s) && NoEmpty(s) && Left(s, r, va, fs, 0)
    ensures SameLeaves(s.mem, s.tabs, r.mem, r.tabs) && r.tabs.Keys == s.tabs.Keys && |r.free| == |s.free|
  {
    forall x | IsPath(x) ensures Leaf(s.mem, s.tabs, x) == Leaf(r.mem, r.tabs, x) {
      assert Outside(va, 0, x);
      assert LeadsTo(Seen(r), x, Leaf(s.mem, s.tabs, x));
    }
    TablesDetermined(s, r);
    assert |r.tabs| == |r.tabs.Keys| && |s.tabs| == |s.tabs.Keys|;
  }

  // ---------------------------------------------------------------------------------------------
  // The loops
  // ---------------------------------------------------------------------------------------------

  lemma SoundBetween(mmu: Mmu)
    requires mmu.Valid()
    ensures Sound(mmu.State()) && mmu.tabs[[]] == mmu.win.root && mmu.freeCount == |mmu.free| && NoDup(mmu.free)
  {
  }

  /** `_unmap` of page `i`, its frame freed. */
  method UnmapRound(mmu: Mmu, va: nat, i: nat, ghost s: PState, ghost fs: seq<nat>)
    requires mmu.Valid() && i < |fs| && Left(s, mmu.State(), va, fs, i + 1) && AllDifferent(fs)
    requires AllFault(Seen(s), va, |fs|) && va % PAGE == 0 && |fs| < 0x10_0000_0000
    modifies mmu
    ensures mmu.Valid() && Left(s, mmu.State(), va, fs, i)
  {
    hide Mmu.Valid, Left, UnmapEffect, AllFault, AllDifferent, Idx, Walk, DataFrames, PageFrames;
    ghost var r := mmu.State();
    SoundBetween(mmu);
    NextToUnmap(s, r, va, fs, i);
    var pa := mmu.Unmap(va + PAGE * i, PAGE, true);
    SoundBetween(mmu);
    OneLeft(s, r, mmu.State(), va, fs, i);
  }

  /** `_test_paging`: a frame is taken and a page mapped, `n` times over, and the pages are unmapped from the
      last to the first, their frames freed. Where a page cannot be mapped the source stops when it takes the
      next frame, or unmaps the page. The test passes exactly if the frames last; then the free count is what
      it was, and so are the translation and the tables. */
  method TestPaging(mmu: Mmu, va: nat, n: nat) returns (ok: bool)
    requires mmu.Valid() && NoEmpty(mmu.State()) && va % PAGE == 0 && n < 0x10_0000_0000
    requires AllFault(Seen(mmu.State()), va, n) && Outside(va, n, DirectPath())
    modifies mmu
    ensures mmu.Valid()
    ensures ok <==> RangeNeed(old(mmu.tabs).Keys, va, n) <= |old(mmu.free)|
    ensures ok ==> mmu.freeCount == old(mmu.freeCount) && mmu.tabs.Keys == old(mmu.tabs).Keys
    ensures ok ==> SameLeaves(old(mmu.mem), old(mmu.tabs), mmu.mem, mmu.tabs)
  {
    hide Mmu.Valid, Left, AllFault, AllDifferent, NoEmpty, Sound, SameLeaves, Backing, RangeNeed;
    ghost var s := mmu.State();
    ghost var fs := Backing(s.free, s.tabs.Keys, va, n);
    var freeFrames := mmu.freeCount;
    SoundBetween(mmu);
    ghost var mapped;
    ok, mapped := MapChunk(mmu, va, n, true);
    if !ok {
      return;
    }
    SoundBetween(mmu);
    AllLeft(s, mmu.State(), va, fs);
    FramesDiffer(s.free, s.tabs.Keys, va, n);
    var i := n;
    while i > 0
      invariant 0 <= i <= n && mmu.Valid() && Left(s, mmu.State(), va, fs, i)
    {
      UnmapRound(mmu, va, i - 1, s, fs);
      i := i - 1;
    }
    SoundBetween(mmu);
    NoneLeft(s, mmu.State(), va, fs);
    assert freeFrames == mmu.freeCount;
  }
}
