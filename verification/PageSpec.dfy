/** What mapping and unmapping a page do to the tables, the free frames and the translation. */
module PageSpec {
  import opened PageWords
  import opened PageTree
  import opened Words

  /** Physical memory, the tables in use, and the free frames in list order. */
  datatype PState = PState(mem: Frames, tabs: Tabs, free: seq<nat>)

  /** How many of the tables on the way to `q`, down to depth `n`, do not exist. */
  function Missing(tabs: Tabs, q: seq<nat>, n: nat): nat
    requires n <= |q|
  {
    if n == 0 then 0 else Missing(tabs, q, n - 1) + (if q[..n] in tabs then 0 else 1)
  }

  lemma {:induction false} MissingUpTo(tabs: Tabs, q: seq<nat>, n: nat, d: nat)
    requires n <= d <= |q|
    ensures Missing(tabs, q, n) <= Missing(tabs, q, d)
    decreases d
  {
    if n < d {
      MissingUpTo(tabs, q, n, d - 1);
    }
  }

  /** The frames `mm_page_map` must be able to take: one is taken before it is known to be needed. */
  function Need(tabs: Tabs, q: seq<nat>): nat
    requires |q| == 4
  {
    if Missing(tabs, q, 3) == 0 then 1 else Missing(tabs, q, 3)
  }

  /** A free list after its first `k` frames have been taken. */
  function After(fs: seq<nat>, k: nat): seq<nat> {
    if k == 0 || fs == [] then fs else After(fs[1..], k - 1)
  }

  lemma {:induction false} AfterStep(fs: seq<nat>, k: nat)
    requires k < |fs|
    ensures After(fs, k) == [fs[k]] + After(fs, k + 1) && |After(fs, k)| == |fs| - k
  {
    if k > 0 {
      AfterStep(fs[1..], k - 1);
      assert fs[1..][k - 1] == fs[k];
    } else {
      assert After(fs[1..], 0) == fs[1..];
    }
  }

  lemma {:induction false} AfterIsDrop(fs: seq<nat>, k: nat)
    requires k <= |fs|
    ensures After(fs, k) == fs[k..] && |After(fs, k)| == |fs| - k
  {
    if k > 0 {
      AfterIsDrop(fs[1..], k - 1);
      assert fs[1..][k - 1..] == fs[k..];
    }
  }

  /** The tables once those missing down to depth `n` have been added, in successive free frames. */
  function Grown(tabs: Tabs, q: seq<nat>, fs: seq<nat>, n: nat): Tabs
    requires n <= |q| && Missing(tabs, q, n) <= |fs|
  {
    if n == 0 then tabs
    else if q[..n] in tabs then Grown(tabs, q, fs, n - 1)
    else Grown(tabs, q, fs, n - 1)[q[..n] := fs[Missing(tabs, q, n - 1)]]
  }

  function Zeros(): (z: seq<nat>)
    ensures Blank(z)
  {
    seq(ENTRIES, _ => 0)
  }

  ghost predicate Remapped(s: PState, r: PState, q: seq<nat>, m: Mapping) {
    forall x :: IsPath(x) ==> Leaf(r.mem, r.tabs, x) == if x == q then m else Leaf(s.mem, s.tabs, x)
  }

  /** Frames that are neither tables nor free keep their contents. */
  ghost predicate DataKept(s: PState, r: PState) {
    forall f :: f in s.mem && f !in s.free && f !in s.tabs.Values ==> f in r.mem && r.mem[f] == s.mem[f]
  }

  /** `mm_page_map` of the page `q` to `pa`: with enough free frames the missing tables are added and
      exactly that page is remapped; otherwise every frame has gone into tables on the way and no
      page is remapped. */
  ghost predicate MapEffect(s: PState, r: PState, q: seq<nat>, pa: nat, ok: bool)
    requires |q| == 4
  {
    && (ok <==> Need(s.tabs, q) <= |s.free|)
    && DataKept(s, r)
    && (ok ==>
          && Missing(s.tabs, q, 3) <= |s.free|
          && r.tabs == Grown(s.tabs, q, s.free, 3)
          && r.free == After(s.free, Missing(s.tabs, q, 3))
          && Remapped(s, r, q, Small(pa)))
    && (!ok ==>
          && r.free == []
          && SameLeaves(s.mem, s.tabs, r.mem, r.tabs)
          && exists n :: 0 <= n < 3 && Missing(s.tabs, q, n) == |s.free| && r.tabs == Grown(s.tabs, q, s.free, n))
  }

  lemma {:induction false} MissingGrows(mem: Frames, tabs: Tabs, q: seq<nat>, n: nat)
    requires TreeOk(mem, tabs) && |q| == 4 && n < 3
    ensures Missing(tabs, q, n) <= Missing(tabs, q, 3)
    ensures q[..n + 1] !in tabs ==> Missing(tabs, q, n) < Missing(tabs, q, 3)
    decreases 3 - n
  {
    if n < 2 {
      MissingGrows(mem, tabs, q, n + 1);
    }
  }

  lemma {:induction false} GrownKeeps(tabs: Tabs, q: seq<nat>, fs: seq<nat>, n: nat)
    requires n <= |q| && Missing(tabs, q, n) <= |fs|
    ensures forall p :: p in tabs ==> p in Grown(tabs, q, fs, n) && Grown(tabs, q, fs, n)[p] == tabs[p]
    ensures forall p :: p in Grown(tabs, q, fs, n) <==> p in tabs || (0 < |p| <= n && p == q[..|p|])
  {
    if n > 0 {
      GrownKeeps(tabs, q, fs, n - 1);
    }
  }

  /** The tables of the direct-access page are in the tree. */
  ghost predicate WindowIn(root: nat, tab3: nat, tab2: nat, tab1: nat, tabs: Tabs) {
    && [] in tabs && tabs[[]] == root && [256] in tabs && tabs[[256]] == tab3
    && [256, 4] in tabs && tabs[[256, 4]] == tab2 && [256, 4, 8] in tabs && tabs[[256, 4, 8]] == tab1
  }

  // ---------------------------------------------------------------------------------------------
  // The loop of mm_page_map
  // ---------------------------------------------------------------------------------------------

  /** A blank frame in the kernel's hand. */
  ghost predicate IsSpare(s: PState, f: nat) {
    IsFrame(f) && f in s.mem && Blank(s.mem[f]) && f !in s.tabs.Values && f !in s.free
  }

  /** Halfway, with the tables down to depth `n` in place and the spare frame `f`, or none. */
  ghost predicate Building(s: PState, r: PState, q: seq<nat>, n: nat, f: nat) {
    && |q| == 4 && n <= 3 && q[..n] in r.tabs
    && Missing(s.tabs, q, n) <= |s.free| && r.tabs == Grown(s.tabs, q, s.free, n)
    && (f == 0 ==> r.free == After(s.free, Missing(s.tabs, q, n)) && (n == 0 || q[..n] !in s.tabs))
    && (f != 0 ==> IsSpare(r, f) && [f] + r.free == After(s.free, Missing(s.tabs, q, n)))
    && SameLeaves(s.mem, s.tabs, r.mem, r.tabs) && DataKept(s, r)
  }

  lemma BuildStart(s: PState, q: seq<nat>)
    requires TreeOk(s.mem, s.tabs) && |q| == 4
    ensures Building(s, s, q, 0, 0) && q[..0] == []
  {
  }

  /** The loop stopped for lack of a frame. */
  ghost predicate BuildFailed(s: PState, r: PState, q: seq<nat>) {
    && |q| == 4 && r.free == []
    && exists n :: 0 <= n < 3 && Building(s, r, q, n, 0) && Missing(s.tabs, q, n) == |s.free|
  }

  lemma BuildTake(s: PState, r: PState, r': PState, q: seq<nat>, n: nat, f: nat)
    requires TreeOk(s.mem, s.tabs) && Building(s, r, q, n, 0) && r.free != []
    requires f == r.free[0] && r' == PState(r'.mem, r.tabs, r.free[1..]) && IsSpare(r', f)
    requires r'.mem == r.mem[f := Zeros()]
    requires SameLeaves(r.mem, r.tabs, r'.mem, r'.tabs)
    ensures Building(s, r', q, n, f)
  {
    var k := Missing(s.tabs, q, n);
    assert [f] + r.free[1..] == r.free;
    AfterIsDrop(s.free, k);
    assert f == s.free[k..][0];
  }

  lemma BuildDescend(s: PState, r: PState, r': PState, q: seq<nat>, n: nat, f: nat, used: bool)
    requires TreeOk(s.mem, s.tabs) && Building(s, r, q, n, f) && f != 0 && n < 3
    requires used <==> q[..n + 1] !in r.tabs
    requires r'.tabs == (if used then r.tabs[q[..n + 1] := f] else r.tabs) && r'.free == r.free
    requires SameLeaves(r.mem, r.tabs, r'.mem, r'.tabs)
    requires forall g :: g in r.mem && g !in r.tabs.Values ==> g in r'.mem && r'.mem[g] == r.mem[g]
    ensures Building(s, r', q, n + 1, if used then 0 else f)
  {
    BuildTabs(s, r, r', q, n, f, used);
    BuildData(s, r, r', q, n, f);
    assert f in r'.mem && r'.mem[f] == r.mem[f];
  }

  lemma BuildTabs(s: PState, r: PState, r': PState, q: seq<nat>, n: nat, f: nat, used: bool)
    requires Building(s, r, q, n, f) && f != 0 && n < 3
    requires used <==> q[..n + 1] !in r.tabs
    requires r'.tabs == (if used then r.tabs[q[..n + 1] := f] else r.tabs) && r'.free == r.free
    ensures Missing(s.tabs, q, n + 1) <= |s.free| && r'.tabs == Grown(s.tabs, q, s.free, n + 1)
    ensures if used then r.free == After(s.free, Missing(s.tabs, q, n + 1)) && q[..n + 1] !in s.tabs
            else [f] + r.free == After(s.free, Missing(s.tabs, q, n + 1))
    ensures q[..n + 1] in r'.tabs
  {
    GrownKeeps(s.tabs, q, s.free, n);
    var k := Missing(s.tabs, q, n);
    AfterIsDrop(s.free, k);
    AfterStep(s.free, k);
    HeadsEqual(s.free[k], After(s.free, k + 1), f, r.free);
  }

  lemma HeadsEqual(a: nat, xs: seq<nat>, b: nat, ys: seq<nat>)
    requires [a] + xs == [b] + ys
    ensures a == b && xs == ys
  {
    assert ([a] + xs)[0] == a && ([b] + ys)[0] == b;
    assert ([a] + xs)[1..] == xs && ([b] + ys)[1..] == ys;
  }

  lemma BuildData(s: PState, r: PState, r': PState, q: seq<nat>, n: nat, f: nat)
    requires Building(s, r, q, n, f)
    requires forall g :: g in r.mem && g !in r.tabs.Values ==> g in r'.mem && r'.mem[g] == r.mem[g]
    ensures DataKept(s, r')
  {
    forall g | g in s.mem && g !in s.free && g !in s.tabs.Values ensures g !in r.tabs.Values {
      GrownFrames(s.tabs, q, s.free, n);
    }
  }

  lemma {:induction false} GrownFrames(tabs: Tabs, q: seq<nat>, fs: seq<nat>, n: nat)
    requires n <= |q| && Missing(tabs, q, n) <= |fs|
    ensures forall f :: f in Grown(tabs, q, fs, n).Values ==> f in tabs.Values || f in fs[..Missing(tabs, q, n)]
  {
    if n > 0 {
      GrownFrames(tabs, q, fs, n - 1);
      var k := Missing(tabs, q, n - 1);
      if q[..n] !in tabs {
        assert fs[..k + 1] == fs[..k] + [fs[k]];
      }
    }
  }

  lemma BuildStuck(s: PState, r: PState, q: seq<nat>, n: nat)
    requires TreeOk(s.mem, s.tabs) && Building(s, r, q, n, 0) && r.free == [] && n < 3
    ensures |s.free| < Need(s.tabs, q) && BuildFailed(s, r, q)
  {
    AfterIsDrop(s.free, Missing(s.tabs, q, n));
    if n > 0 {
      Prefixes(s.mem, s.tabs, q, n + 1);
      MissingGrows(s.mem, s.tabs, q, n);
    }
  }

  lemma BuildDone(s: PState, r: PState, q: seq<nat>, f: nat)
    requires Building(s, r, q, 3, f)
    ensures Need(s.tabs, q) <= |s.free|
  {
    AfterIsDrop(s.free, Missing(s.tabs, q, 3));
    if f != 0 {
      assert |[f] + r.free| == |s.free| - Missing(s.tabs, q, 3);
    }
  }

  /** The page has been entered in its table; a spare frame may still be in hand. */
  ghost predicate PageSet(s: PState, r: PState, q: seq<nat>, pa: nat, f: nat) {
    && |q| == 4
    && Missing(s.tabs, q, 3) <= |s.free| && r.tabs == Grown(s.tabs, q, s.free, 3)
    && (if f == 0 then r.free else [f] + r.free) == After(s.free, Missing(s.tabs, q, 3))
    && Need(s.tabs, q) <= |s.free|
    && Remapped(s, r, q, Small(pa)) && DataKept(s, r)
  }

  lemma MapPut(s: PState, r: PState, r': PState, q: seq<nat>, pa: nat, f: nat)
    requires TreeOk(s.mem, s.tabs) && TreeOk(r.mem, r.tabs) && IsPath(q) && Building(s, r, q, 3, f)
    requires pa % PAGE == 0 && pa < PHYS
    requires r.tabs[q[..3]] in r.mem && q[3] < |r.mem[r.tabs[q[..3]]]|
    requires r' == r.(mem := Put(r.mem, r.tabs[q[..3]], q[3], Entry(pa, false)))
    requires forall x :: IsPath(x) ==>
               Leaf(r'.mem, r.tabs, x) == LeafAfterPut(r.mem, r.tabs, q[..3], q[3], Entry(pa, false), x)
    ensures PageSet(s, r', q, pa, f)
    ensures f == 0 ==> MapEffect(s, r', q, pa, true)
    ensures f != 0 ==> IsSpare(r', f)
  {
    BuildDone(s, r, q, f);
    EntryRoundTrip(pa, false);
    assert q[..3] + [q[3]] == q;
    forall x | IsPath(x)
      ensures Leaf(r'.mem, r'.tabs, x) == if x == q then Small(pa) else Leaf(s.mem, s.tabs, x)
    {
      assert q <= x <==> q == x;
    }
    assert r.tabs[q[..3]] in r.tabs.Values;
    BuildData(s, r, r', q, 3, f);
  }

  lemma MapReturn(s: PState, r: PState, r': PState, q: seq<nat>, pa: nat, f: nat)
    requires TreeOk(s.mem, s.tabs) && PageSet(s, r, q, pa, f) && f != 0
    requires r'.tabs == r.tabs && r'.free == [f] + r.free && SameLeaves(r.mem, r.tabs, r'.mem, r'.tabs)
    requires f in r'.mem && r'.mem == r.mem[f := r'.mem[f]]
    ensures MapEffect(s, r', q, pa, true)
  {
    var k := Missing(s.tabs, q, 3);
    AfterIsDrop(s.free, k);
    assert f == s.free[k..][0];
  }

  lemma MapFailed(s: PState, r: PState, q: seq<nat>, pa: nat)
    requires BuildFailed(s, r, q) && |s.free| < Need(s.tabs, q)
    ensures MapEffect(s, r, q, pa, false)
  {
  }

  /** What the processor sees of it. */
  lemma MapSeen(s: PState, r: PState, root: nat, va: nat, pa: nat, ok: bool)
    requires TreeOk(s.mem, s.tabs) && s.tabs[[]] == root && TreeOk(r.mem, r.tabs) && r.tabs[[]] == root
    requires MapEffect(s, r, Idx(va), pa, ok)
    ensures forall vb: nat :: Walk(r.mem, root, Idx(vb), 0)
              == if ok && PageNo(vb) == PageNo(va) then Small(pa) else Walk(s.mem, root, Idx(vb), 0)
  {
    forall vb: nat
      ensures Walk(r.mem, root, Idx(vb), 0)
           == if ok && PageNo(vb) == PageNo(va) then Small(pa) else Walk(s.mem, root, Idx(vb), 0)
    {
      WalkFindsLeaf(s.mem, s.tabs, Idx(vb));
      WalkFindsLeaf(r.mem, r.tabs, Idx(vb));
      IdxIsPage(vb, va);
    }
  }

  // ---------------------------------------------------------------------------------------------
  // Unmapping
  // ---------------------------------------------------------------------------------------------

  /** The table at `p` holds nothing but, at most, entry `i`. */
  ghost predicate OnlyEntry(s: PState, p: seq<nat>, i: nat)
    requires p in s.tabs && s.tabs[p] in s.mem
  {
    i < |s.mem[s.tabs[p]]| && Blank(s.mem[s.tabs[p]][i := 0])
  }

  /** A table on the way to the direct-access page. */
  predicate OnWindow(p: seq<nat>) {
    p <= [256, 4, 8]
  }

  /** Up from depth `n`, the depth of the first table that keeps another entry once its entry on the
      way to `q` is gone. The tables of the direct-access page always do: when one is looked at, the
      direct access itself is set up. */
  ghost function Kept(s: PState, q: seq<nat>, n: nat): (k: nat)
    requires |q| == 4 && n < 4
    ensures k <= n
  {
    if n == 0 || OnWindow(q[..n]) then n
    else if q[..n] in s.tabs && s.tabs[q[..n]] in s.mem && OnlyEntry(s, q[..n], q[n]) then Kept(s, q, n - 1)
    else n
  }

  /** The tables without those on the way to `q` from depth `k + 1` to `n`. */
  function Pruned(tabs: Tabs, q: seq<nat>, k: nat, n: nat): Tabs
    requires |q| == 4
  {
    map p | p in tabs && !(k < |p| <= n && p <= q) :: tabs[p]
  }

  /** Their frames, topmost first. */
  function PrunedFrames(tabs: Tabs, q: seq<nat>, k: nat, n: nat): seq<nat>
    requires |q| == 4 && n < 4
    decreases n - k
  {
    if k >= n then []
    else [if q[..k + 1] in tabs then tabs[q[..k + 1]] else 0] + PrunedFrames(tabs, q, k + 1, n)
  }

  /** The `k` frames from `pa` on, last first. */
  function PageFrames(pa: nat, k: nat): seq<nat> {
    if k == 0 then [] else [Piece(pa, k - 1)] + PageFrames(pa, k - 1)
  }

  lemma {:induction false} PageFramesAre(pa: nat, k: nat, f: nat)
    ensures f in PageFrames(pa, k) <==> exists j :: 0 <= j < k && f == Piece(pa, j)
  {
    if k > 0 {
      PageFramesAre(pa, k - 1, f);
    }
  }

  ghost predicate Faulted(s: PState, r: PState, q: seq<nat>, n: nat)
    requires n < |q|
  {
    forall x :: IsPath(x) ==> Leaf(r.mem, r.tabs, x) == if q[..n + 1] <= x then Fault else Leaf(s.mem, s.tabs, x)
  }

  ghost predicate OtherDataKept(s: PState, r: PState, data: seq<nat>) {
    forall f :: f in s.mem && f !in s.free && f !in s.tabs.Values && f !in data ==> f in r.mem && r.mem[f] == s.mem[f]
  }

  /** `_unmap` of the page whose entry is in the table at depth `n` on the way to `q`, with the frames
      in `data` freed: that page faults and no other mapping changes, and the tables that hold nothing
      else are released, from the bottom up. */
  ghost predicate UnmapEffect(s: PState, r: PState, q: seq<nat>, n: nat, data: seq<nat>)
    requires |q| == 4 && n < 4
  {
    var k := Kept(s, q, n);
    && r.tabs == Pruned(s.tabs, q, k, n)
    && r.free == PrunedFrames(s.tabs, q, k, n) + (data + s.free)
    && Faulted(s, r, q, n) && OtherDataKept(s, r, data)
  }

  // ---------------------------------------------------------------------------------------------
  // The way up of _unmap
  // ---------------------------------------------------------------------------------------------

  ghost predicate TablesKept(s: PState, r: PState) {
    forall p {:trigger r.tabs[p]} :: p in r.tabs ==>
      p in s.tabs && s.tabs[p] == r.tabs[p] && r.tabs[p] in s.mem && r.tabs[p] in r.mem
      && r.mem[r.tabs[p]] == s.mem[r.tabs[p]]
  }

  /** The state with the stale entry of the table at depth `m` zeroed. */
  function Patched(r: PState, q: seq<nat>, m: nat): PState
    requires m < |q| && q[..m] in r.tabs
    requires r.tabs[q[..m]] in r.mem && q[m] < |r.mem[r.tabs[q[..m]]]|
  {
    r.(mem := Put(r.mem, r.tabs[q[..m]], q[m], 0))
  }

  /** Everything below depth `m` is gone, and the entry on the way to it is still to be zeroed. */
  ghost predicate Unmapping(s: PState, r: PState, q: seq<nat>, n: nat, m: nat, data: seq<nat>) {
    && |q| == 4 && m <= n < 4
    && Kept(s, q, n) == Kept(s, q, m)
    && r.tabs == Pruned(s.tabs, q, m, n)
    && r.free == PrunedFrames(s.tabs, q, m, n) + (data + s.free)
    && q[..m] in r.tabs && q[..m + 1] !in r.tabs
    && r.tabs[q[..m]] in r.mem && |r.mem[r.tabs[q[..m]]]| == ENTRIES && q[m] < ENTRIES
    && IsFrame(r.tabs[q[..m]])
    && TablesKept(s, r)
    && TreeOk(Patched(r, q, m).mem, r.tabs)
    && Faulted(s, Patched(r, q, m), q, n) && OtherDataKept(s, r, data)
  }

  lemma UnmapStart(s: PState, r: PState, q: seq<nat>, n: nat, data: seq<nat>)
    requires IsPath(q) && 2 <= n <= 3 && TreeOk(s.mem, s.tabs) && q[..n] in s.tabs && q[..n + 1] !in s.tabs
    requires r.tabs == s.tabs && r.free == data + s.free && TreeOk(r.mem, r.tabs)
    requires SameLeaves(s.mem, s.tabs, r.mem, r.tabs) && TablesKept(s, r) && OtherDataKept(s, r, data)
    ensures Unmapping(s, r, q, n, n, data)
  {
    assert TableOk(r.mem, r.tabs, q[..n]);
    PrunedNone(s.tabs, q, n);
    assert [] + (data + s.free) == data + s.free;
    assert q[..n] + [q[n]] == q[..n + 1];
    PutLeaf(r.mem, r.tabs, q[..n], q[n], 0);
  }

  lemma PrunedNone(tabs: Tabs, q: seq<nat>, n: nat)
    requires |q| == 4
    ensures Pruned(tabs, q, n, n) == tabs
  {
  }

  /** The emptiness test of `_unmap` decides as `Kept` does. */
  lemma UnmapTest(s: PState, r: PState, q: seq<nat>, n: nat, m: nat, data: seq<nat>)
    requires Unmapping(s, r, q, n, m, data)
    ensures if Blank(r.mem[r.tabs[q[..m]]][q[m] := 0]) && !OnWindow(q[..m])
            then m > 0 && Kept(s, q, m) == Kept(s, q, m - 1)
            else Kept(s, q, m) == m
  {
    assert r.tabs[q[..m]] in r.mem;
    if m == 0 {
      assert q[..m] == [];
    }
  }

  lemma UnmapStop(s: PState, r: PState, r': PState, q: seq<nat>, n: nat, m: nat, data: seq<nat>)
    requires Unmapping(s, r, q, n, m, data) && Kept(s, q, m) == m
    requires r' == Patched(r, q, m)
    ensures TreeOk(r'.mem, r'.tabs) && UnmapEffect(s, r', q, n, data)
  {
    assert q[..m] in r.tabs && r.tabs[q[..m]] in s.tabs.Values;
  }

  lemma PrunedOne(tabs: Tabs, q: seq<nat>, m: nat, n: nat)
    requires |q| == 4 && 0 < m <= n < 4 && q[..m] in tabs
    ensures Pruned(tabs, q, m - 1, n) == Pruned(tabs, q, m, n) - {q[..m]}
    ensures PrunedFrames(tabs, q, m - 1, n) == [tabs[q[..m]]] + PrunedFrames(tabs, q, m, n)
  {
    forall p | p in tabs ensures m - 1 < |p| <= n && p <= q <==> (m < |p| <= n && p <= q) || p == q[..m] {
      if |p| == m && p <= q {
        assert p == q[..m];
      }
    }
  }

  lemma UnmapUp(s: PState, r: PState, r': PState, q: seq<nat>, n: nat, m: nat, data: seq<nat>, words: seq<nat>)
    requires IsPath(q) && TreeOk(s.mem, s.tabs) && Unmapping(s, r, q, n, m, data) && m > 0
    requires Kept(s, q, m) == Kept(s, q, m - 1)
    requires Blank(r.mem[r.tabs[q[..m]]][q[m] := 0]) && |words| == ENTRIES
    requires var t := r.tabs[q[..m]]; r' == PState(r.mem[t := words], r.tabs - {q[..m]}, [t] + r.free)
    ensures Unmapping(s, r', q, n, m - 1, data)
  {
    hide Leaf, SameLeaves, IsPath, Kept, Word;
    var z := Patched(r, q, m);
    var t := r.tabs[q[..m]];
    assert q[..m][..m - 1] == q[..m - 1] && q[..m][m - 1] == q[m - 1];
    DropTable(z.mem, r.tabs, q[..m], words);
    var up := r.tabs[q[..m - 1]];
    PatchedUp(r.mem, z.mem, t, q[m], up, q[m - 1], words);
    PrunedOne(s.tabs, q, m, n);
    assert [t] + (PrunedFrames(s.tabs, q, m, n) + (data + s.free)) == ([t] + PrunedFrames(s.tabs, q, m, n)) + (data + s.free);
    assert TableOk(z.mem, r.tabs, q[..m - 1]);
    assert t in s.tabs.Values;
    OwnFrame(r.tabs, q[..m]);
  }

  lemma PatchedUp(mem: Frames, z: Frames, t: nat, i: nat, up: nat, j: nat, words: seq<nat>)
    requires t in mem && i < |mem[t]| && up in mem && j < |mem[up]| && t != up
    requires z == Put(mem, t, i, 0)
    ensures Put(mem[t := words], up, j, 0) == Put(z, up, j, 0)[t := words]
  {
  }

  // ---------------------------------------------------------------------------------------------
  // What the processor sees of it
  // ---------------------------------------------------------------------------------------------

  /** `vb` lies on the page of `va`, of 4 KiB if its entry is at depth 3, of 2 MiB at depth 2. */
  predicate SamePage(va: nat, vb: nat, n: nat) {
    if n == 3 then PageNo(va) == PageNo(vb) else PageNo(va) / 512 == PageNo(vb) / 512
  }

  lemma SamePagePrefix(va: nat, vb: nat, n: nat)
    requires 2 <= n <= 3
    ensures Idx(va)[..n + 1] <= Idx(vb) <==> SamePage(va, vb, n)
  {
    var p, q := Idx(va), Idx(vb);
    IdxIsPage(va, vb);
    if n == 3 {
      assert p[..4] == p;
    } else {
      PageNoDigits(va);
      PageNoDigits(vb);
      ModIs(PageNo(va), 512, p[0] * 0x4_0000 + p[1] * 512 + p[2], p[3]);
      ModIs(PageNo(vb), 512, q[0] * 0x4_0000 + q[1] * 512 + q[2], q[3]);
      if PageNo(va) / 512 == PageNo(vb) / 512 {
        SameDigits(0, p[0], p[1], p[2], 0, q[0], q[1], q[2]);
      }
      assert p[..3] <= q <==> p[0] == q[0] && p[1] == q[1] && p[2] == q[2];
    }
  }

  lemma UnmapSeen(s: PState, r: PState, root: nat, va: nat, n: nat, data: seq<nat>)
    requires TreeOk(s.mem, s.tabs) && s.tabs[[]] == root
    requires TreeOk(r.mem, r.tabs) && r.tabs[[]] == root
    requires 2 <= n <= 3 && UnmapEffect(s, r, Idx(va), n, data)
    ensures forall vb: nat :: Walk(r.mem, root, Idx(vb), 0)
              == if SamePage(va, vb, n) then Fault else Walk(s.mem, root, Idx(vb), 0)
  {
    forall vb: nat
      ensures Walk(r.mem, root, Idx(vb), 0)
           == if SamePage(va, vb, n) then Fault else Walk(s.mem, root, Idx(vb), 0)
    {
      WalkFindsLeaf(s.mem, s.tabs, Idx(vb));
      WalkFindsLeaf(r.mem, r.tabs, Idx(vb));
      SamePagePrefix(va, vb, n);
    }
  }

  /** The 4 KiB pieces of an aligned 2 MiB page differ in the last index only. */
  lemma BigPieces(va: nat, k: nat)
    requires va % BIG_PAGE == 0 && k < 512
    ensures Idx(va + PAGE * k) == Idx(va)[..3] + [k]
    ensures (va + PAGE * k) % BIG_PAGE == PAGE * k && (va + PAGE * k) % PAGE == 0
  {
    var h := va / BIG_PAGE;
    var vb := va + PAGE * k;
    assert va == BIG_PAGE * h;
    TabIndexIs(va);
    TabIndexIs(vb);
    ModIs(vb, BIG_PAGE, h, PAGE * k);
    ModIs(vb, PAGE, 512 * h + k, 0);
    ModIs(512 * h + k, 512, h, k);
    assert vb / 0x4000_0000 == h / 512 == va / 0x4000_0000;
    assert vb / 0x80_0000_0000 == h / 0x4_0000 == va / 0x80_0000_0000;
  }

  // ---------------------------------------------------------------------------------------------
  // Freeing the frames of a page
  // ---------------------------------------------------------------------------------------------

  /** A frame of memory, neither free nor a table. */
  ghost predicate IsData(s: PState, f: nat) {
    IsFrame(f) && f in s.mem && |s.mem[f]| == ENTRIES && f !in s.free && f !in s.tabs.Values
  }

  function Piece(pa: nat, j: nat): nat {
    pa + PAGE * j
  }

  /** The frames numbered `i` up to `k` from `pa` on. */
  ghost predicate DataFrames(s: PState, pa: nat, i: nat, k: nat) {
    forall j :: i <= j < k ==> IsData(s, Piece(pa, j))
  }

  /** The first `i` of the `k` frames from `pa` on have been freed. */
  ghost predicate FreedSome(s: PState, r: PState, pa: nat, i: nat, k: nat) {
    && r.tabs == s.tabs && r.free == PageFrames(pa, i) + s.free
    && SameLeaves(s.mem, s.tabs, r.mem, r.tabs) && TablesKept(s, r)
    && OtherDataKept(s, r, PageFrames(pa, i)) && DataFrames(r, pa, i, k)
  }

  lemma FreedNone(s: PState, pa: nat, k: nat)
    requires TreeOk(s.mem, s.tabs) && DataFrames(s, pa, 0, k)
    ensures FreedSome(s, s, pa, 0, k)
  {
    assert [] + s.free == s.free;
    forall p | p in s.tabs ensures s.tabs[p] in s.mem {
      assert TableOk(s.mem, s.tabs, p);
    }
  }

  lemma FreedOne(s: PState, r: PState, r': PState, pa: nat, i: nat, k: nat, head: nat)
    requires FreedSome(s, r, pa, i, k) && i < k && TreeOk(r.mem, r.tabs)
    requires var f := Piece(pa, i); IsData(r, f) && r' == PState(Put(r.mem, f, 0, head), r.tabs, [f] + r.free)
    ensures FreedSome(s, r', pa, i + 1, k)
    ensures TreeOk(r'.mem, r'.tabs)
  {
    var f := Piece(pa, i);
    OtherFrame(r.mem, r.tabs, f, r'.mem[f]);
    assert [f] + (PageFrames(pa, i) + s.free) == ([f] + PageFrames(pa, i)) + s.free;
    forall p | p in r.tabs ensures r.tabs[p] != f {
      assert r.tabs[p] in r.tabs.Values;
    }
    forall j | i + 1 <= j < k ensures IsData(r', Piece(pa, j)) {
      assert IsData(r, Piece(pa, j));
    }
  }

  lemma BigLeafShared(mem: Frames, tabs: Tabs, q: seq<nat>, x: seq<nat>)
    requires TreeOk(mem, tabs) && IsPath(q) && IsPath(x) && x[..3] == q[..3]
    requires Leaf(mem, tabs, q).Big?
    ensures Leaf(mem, tabs, x) == Leaf(mem, tabs, q)
  {
    assert x[..2] == x[..3][..2] && q[..2] == q[..3][..2] && x[2] == x[..3][2] && q[2] == q[..3][2];
  }

  // ---------------------------------------------------------------------------------------------
  // The way down of _unmap
  // ---------------------------------------------------------------------------------------------

  predicate WayAt(tabs: Tabs, q: seq<nat>, tabPa: seq<nat>, k: nat)
    requires |q| == 4 && |tabPa| == 5 && k <= 4
  {
    q[..4 - k] in tabs && tabPa[k] == tabs[q[..4 - k]]
  }

  /** The tables on the way to the page, by level, from level `lv` up. */
  ghost predicate WayTo(tabs: Tabs, q: seq<nat>, tabPa: seq<nat>, lv: nat) {
    |q| == 4 && |tabPa| == 5 && forall k :: lv <= k <= 4 ==> WayAt(tabs, q, tabPa, k)
  }

  lemma WayOn(tabs: Tabs, q: seq<nat>, tabPa: seq<nat>, lv: nat, t: nat)
    requires 0 < lv <= 4 && WayTo(tabs, q, tabPa, lv)
    ensures WayTo(tabs, q, tabPa[lv - 1 := t], lv)
    ensures q[..5 - lv] in tabs && t == tabs[q[..5 - lv]] ==> WayTo(tabs, q, tabPa[lv - 1 := t], lv - 1)
  {
    var tp: seq<nat> := tabPa[lv - 1 := t];
    forall k | lv <= k <= 4 ensures WayAt(tabs, q, tp, k) {
      assert WayAt(tabs, q, tabPa, k);
    }
    assert 4 - (lv - 1) == 5 - lv;
  }
}
