/** What the paging of the bootstrap (src/mem/mem_page.c, src/mem/mem_frame.c) is to leave in the
    tables: one page entered, the identity mapping, and a range mapped to a list of frames. */
module BootSpec {
  import opened Words
  import opened PageWords
  import opened PageTree
  import opened PageSpec
  import opened PageRange

  /** `_FRAME_CAP_BOOTSTRAP` */
  const CAP := 16 * 1024

  /** Physical memory, the tables of one root, and the number of pool frames handed out. */
  datatype BState = BState(mem: Frames, tabs: Tabs, count: nat)

  function Seen(s: BState): View {
    View(s.mem, s.tabs)
  }

  function PoolFrame(pool: nat, k: nat): nat {
    pool + PAGE * k
  }

  /** The frames of the pool not handed out yet. */
  function Rest(pool: nat, count: nat): (fs: seq<nat>)
    ensures |fs| == if count <= CAP then CAP - count else 0
    ensures forall i :: 0 <= i < |fs| ==> fs[i] == PoolFrame(pool, count + i)
    decreases CAP - count
  {
    if count >= CAP then [] else [PoolFrame(pool, count)] + Rest(pool, count + 1)
  }

  predicate IsRest(pool: nat, count: nat, f: nat) {
    PoolFrame(pool, count) <= f < PoolFrame(pool, CAP)
  }

  /** Frames that are no tables of this root, and were handed out before or are not of the pool, keep
      their contents. */
  ghost predicate OthersKept(pool: nat, s: BState, r: BState) {
    forall f {:trigger OtherKept(pool, s, r, f)} :: f in s.mem ==> OtherKept(pool, s, r, f)
  }

  ghost predicate OtherKept(pool: nat, s: BState, r: BState, f: nat) {
    f in s.mem && f !in s.tabs.Values && !IsRest(pool, s.count, f) ==> f in r.mem && r.mem[f] == s.mem[f]
  }

  /** The tables missing on the way to `q`, down to depth `n`, have been added in the next frames of the
      pool. */
  ghost predicate Grew(pool: nat, s: BState, r: BState, q: seq<nat>, n: nat) {
    && |q| == 4 && n <= 3 && q[..n] in r.tabs
    && s.count + Missing(s.tabs, q, n) <= CAP
    && r.tabs == Grown(s.tabs, q, Rest(pool, s.count), n)
    && r.count == s.count + Missing(s.tabs, q, n)
    && SameLeaves(s.mem, s.tabs, r.mem, r.tabs) && OthersKept(pool, s, r)
  }

  /** A page has been entered at depth `n` on the way to `q`: with enough frames in the pool, exactly the
      addresses under that entry are remapped, and exactly the missing tables added. */
  ghost predicate Entered(pool: nat, s: BState, r: BState, q: seq<nat>, n: nat, m: Mapping, ok: bool) {
    && |q| == 4 && n <= 3
    && (ok <==> s.count + Missing(s.tabs, q, n) <= CAP)
    && OthersKept(pool, s, r)
    && (ok ==>
          && r.count == s.count + Missing(s.tabs, q, n)
          && r.tabs == Grown(s.tabs, q, Rest(pool, s.count), n)
          && forall x :: IsPath(x) ==> Leaf(r.mem, r.tabs, x) == if q[..n + 1] <= x then m else Leaf(s.mem, s.tabs, x))
    && (!ok ==> r.count == CAP && SameLeaves(s.mem, s.tabs, r.mem, r.tabs))
  }

  lemma GrewNone(pool: nat, s: BState, q: seq<nat>)
    requires TreeOk(s.mem, s.tabs) && |q| == 4 && s.count <= CAP
    ensures q[..0] == [] && Grew(pool, s, s, q, 0)
  {
  }

  /** The next frame of the pool has become the table at `p`. */
  ghost predicate TableHung(pool: nat, r: BState, r': BState, p: seq<nat>) {
    && r.count < CAP && r'.count == r.count + 1
    && r'.tabs == r.tabs[p := PoolFrame(pool, r.count)]
    && SameLeaves(r.mem, r.tabs, r'.mem, r'.tabs)
    && forall f :: f in r.mem && f !in r.tabs.Values && f != PoolFrame(pool, r.count) ==> f in r'.mem && r'.mem[f] == r.mem[f]
  }

  lemma LeavesOn(s: BState, r: BState, r': BState)
    requires SameLeaves(s.mem, s.tabs, r.mem, r.tabs) && SameLeaves(r.mem, r.tabs, r'.mem, r'.tabs)
    ensures SameLeaves(s.mem, s.tabs, r'.mem, r'.tabs)
  {
  }

  /** One more table exists already, or is added in frame `r.count` of the pool. */
  lemma GrewOne(pool: nat, s: BState, r: BState, r': BState, q: seq<nat>, n: nat)
    requires Grew(pool, s, r, q, n) && n < 3
    requires if q[..n + 1] in r.tabs then r' == r else TableHung(pool, r, r', q[..n + 1])
    ensures Grew(pool, s, r', q, n + 1)
  {
    hide Rest, SameLeaves, OthersKept, Grown, Missing;
    GrewTabs(pool, s, r, r', q, n);
    if q[..n + 1] !in r.tabs {
      LeavesOn(s, r, r');
      GrewOthers(pool, s, r, r', q, n);
    }
  }

  lemma GrewTabs(pool: nat, s: BState, r: BState, r': BState, q: seq<nat>, n: nat)
    requires |q| == 4 && n < 3 && s.count + Missing(s.tabs, q, n) <= CAP && r.count == s.count + Missing(s.tabs, q, n)
    requires r.tabs == Grown(s.tabs, q, Rest(pool, s.count), n)
    requires if q[..n + 1] in r.tabs then r' == r else TableHung(pool, r, r', q[..n + 1])
    ensures s.count + Missing(s.tabs, q, n + 1) <= CAP && r'.count == s.count + Missing(s.tabs, q, n + 1)
    ensures r'.tabs == Grown(s.tabs, q, Rest(pool, s.count), n + 1) && q[..n + 1] in r'.tabs
  {
    hide Rest, SameLeaves;
    GrownKeeps(s.tabs, q, Rest(pool, s.count), n);
  }

  lemma GrewOthers(pool: nat, s: BState, r: BState, r': BState, q: seq<nat>, n: nat)
    requires Grew(pool, s, r, q, n) && n < 3 && TableHung(pool, r, r', q[..n + 1])
    ensures OthersKept(pool, s, r')
  {
    hide Rest, SameLeaves;
    GrownFrames(s.tabs, q, Rest(pool, s.count), n);
    forall f | f in s.mem ensures OtherKept(pool, s, r', f) {
      assert OtherKept(pool, s, r, f);
    }
  }

  /** The pool is empty and a table is missing. */
  lemma GrewStuck(pool: nat, s: BState, r: BState, q: seq<nat>, n: nat, d: nat)
    requires TreeOk(s.mem, s.tabs) && Grew(pool, s, r, q, n) && n < d <= 3
    requires q[..n + 1] !in r.tabs && r.count == CAP
    ensures CAP < s.count + Missing(s.tabs, q, d)
  {
    GrownKeeps(s.tabs, q, Rest(pool, s.count), n);
    MissingUpTo(s.tabs, q, n + 1, d);
  }

  /** The last entry is written. */
  lemma EnteredAll(pool: nat, s: BState, r: BState, r': BState, q: seq<nat>, n: nat, w: nat)
    requires TreeOk(r.mem, r.tabs) && IsPath(q) && 2 <= n <= 3 && Grew(pool, s, r, q, n)
    requires q[..n + 1] !in r.tabs && LeafWord(n, w)
    requires r.tabs[q[..n]] in r.mem && q[n] < |r.mem[r.tabs[q[..n]]]|
    requires r' == r.(mem := Put(r.mem, r.tabs[q[..n]], q[n], w))
    requires r.tabs[q[..n]] in s.tabs.Values || IsRest(pool, s.count, r.tabs[q[..n]])
    ensures TreeOk(r'.mem, r'.tabs)
    ensures Entered(pool, s, r', q, n, LeafOf(n, w), true)
  {
    assert q[..n] + [q[n]] == q[..n + 1];
    PutLeaf(r.mem, r.tabs, q[..n], q[n], w);
    forall f | f in s.mem ensures OtherKept(pool, s, r', f) {
      assert OtherKept(pool, s, r, f);
    }
  }

  // ---------------------------------------------------------------------------------------------
  // The identity mapping
  // ---------------------------------------------------------------------------------------------

  /** The 2 MiB pages the bootstrap maps: the loop stops before the last one below 1 TiB. */
  const PAGES := 0x7_FFFF

  function BigNo(x: seq<nat>): nat
    requires |x| == 4
  {
    x[0] * 0x4_0000 + x[1] * 512 + x[2]
  }

  /** The tables of level 3 and of level 2 that the first `i` big pages need. */
  function Level3(i: nat): nat {
    (i + 0x3_FFFF) / 0x4_0000
  }

  function Level2(i: nat): nat {
    (i + 511) / 512
  }

  /** The first page under the table at `p` is one of them. */
  predicate TableFor(p: seq<nat>, i: nat) {
    p == [] || (|p| == 1 && p[0] * 0x4_0000 < i) || (|p| == 2 && p[1] < 512 && p[0] * 0x4_0000 + p[1] * 512 < i)
  }

  function IdentityOf(x: seq<nat>, i: nat): Mapping
    requires |x| == 4
  {
    if BigNo(x) < i then Big(BIG_PAGE * BigNo(x)) else Fault
  }

  /** The first `i` big pages are mapped to themselves, with no more tables than they need. */
  ghost predicate Identity(s: BState, i: nat) {
    && (forall x :: IsPath(x) ==> Leaf(s.mem, s.tabs, x) == IdentityOf(x, i))
    && (forall p :: p in s.tabs <==> TableFor(p, i))
    && s.count == Level3(i) + Level2(i)
  }

  /** The indices of page `i`. */
  function BigPath(i: nat): (q: seq<nat>)
    requires i < 0x8_0000
    ensures IsPath(q)
  {
    [i / 0x4_0000, i / 512 % 512, i % 512, 0]
  }

  lemma BigIdx(i: nat)
    requires i < 0x8_0000
    ensures Idx(BIG_PAGE * i) == BigPath(i)
  {
    TabIndexIs(BIG_PAGE * i);
    BigFields(i);
  }

  lemma BigFields(i: nat)
    requires i < 0x8_0000
    ensures var va := BIG_PAGE * i;
            && va / 0x1000 % 512 == 0 && va / 0x20_0000 % 512 == i % 512
            && va / 0x4000_0000 % 512 == i / 512 % 512 && va / 0x80_0000_0000 % 512 == i / 0x4_0000
  {
    var va := BIG_PAGE * i;
    ModIs(512 * i, 512, i, 0);
    assert va / PAGE == 512 * i && va / BIG_PAGE == i;
    assert va / 0x4000_0000 == i / 512 && va / 0x80_0000_0000 == i / 0x4_0000;
  }

  lemma BigNoOfPath(i: nat)
    requires i < 0x8_0000
    ensures BigNo(BigPath(i)) == i
  {
    assert i / 512 / 512 == i / 0x4_0000;
  }

  lemma BigPrefix(i: nat, x: seq<nat>)
    requires i < 0x8_0000 && IsPath(x)
    ensures BigPath(i)[..3] <= x <==> BigNo(x) == i
  {
    var q := BigPath(i);
    BigNoOfPath(i);
    if BigNo(x) == i {
      SameDigits(0, q[0], q[1], q[2], 0, x[0], x[1], x[2]);
    }
    assert q[..3] <= x <==> q[0] == x[0] && q[1] == x[1] && q[2] == x[2];
  }

  /** The tables page `i` is the first to need. */
  lemma IdentityNeeds(s: BState, i: nat)
    requires Identity(s, i) && i < PAGES
    ensures var q := BigPath(i);
            && q[..3] !in s.tabs && Leaf(s.mem, s.tabs, q) == Fault
            && s.count + Missing(s.tabs, q, 2) == Level3(i + 1) + Level2(i + 1) <= CAP
  {
    var q := BigPath(i);
    BigPrefix(i, q);
    MissingTwo(s.tabs, q);
    LevelsStep(i);
    assert q[..1] in s.tabs <==> q[0] * 0x4_0000 < i;
    assert q[..2] in s.tabs <==> q[0] * 0x4_0000 + q[1] * 512 < i;
  }

  lemma LevelsStep(i: nat)
    requires i < PAGES
    ensures i / 0x4_0000 < 512
    ensures Level3(i + 1) == Level3(i) + (if i / 0x4_0000 * 0x4_0000 < i then 0 else 1)
    ensures Level2(i + 1) == Level2(i) + (if i / 0x4_0000 * 0x4_0000 + i / 512 % 512 * 512 < i then 0 else 1)
    ensures Level3(i + 1) + Level2(i + 1) <= CAP
  {
    assert i / 0x4_0000 * 0x4_0000 + i / 512 % 512 * 512 == i / 512 * 512 by {
      assert i / 512 / 512 == i / 0x4_0000;
    }
  }

  lemma IdentityLeaves(s: BState, r: BState, i: nat)
    requires i < PAGES && forall x :: IsPath(x) ==> Leaf(s.mem, s.tabs, x) == IdentityOf(x, i)
    requires forall x :: IsPath(x) ==>
               Leaf(r.mem, r.tabs, x) == if BigPath(i)[..3] <= x then Big(BIG_PAGE * i) else Leaf(s.mem, s.tabs, x)
    ensures forall x :: IsPath(x) ==> Leaf(r.mem, r.tabs, x) == IdentityOf(x, i + 1)
  {
    forall x | IsPath(x) ensures Leaf(r.mem, r.tabs, x) == IdentityOf(x, i + 1) {
      BigPrefix(i, x);
    }
  }

  lemma IdentityTables(pool: nat, s: BState, r: BState, q: seq<nat>, i: nat)
    requires i < PAGES && q == BigPath(i) && forall p :: p in s.tabs <==> TableFor(p, i)
    requires s.count + Missing(s.tabs, q, 2) <= CAP && r.tabs == Grown(s.tabs, q, Rest(pool, s.count), 2)
    ensures forall p :: p in r.tabs <==> TableFor(p, i + 1)
  {
    GrownKeeps(s.tabs, q, Rest(pool, s.count), 2);
    forall p ensures p in r.tabs <==> TableFor(p, i + 1) {
      TableForNext(p, i);
    }
  }

  lemma IdentityOne(pool: nat, s: BState, r: BState, i: nat)
    requires TreeOk(s.mem, s.tabs) && Identity(s, i) && i < PAGES
    requires Entered(pool, s, r, BigPath(i), 2, Big(BIG_PAGE * i), true)
    ensures Identity(r, i + 1)
  {
    IdentityNeeds(s, i);
    IdentityLeaves(s, r, i);
    IdentityTables(pool, s, r, BigPath(i), i);
  }

  lemma TableForNext(p: seq<nat>, i: nat)
    requires i < PAGES
    ensures TableFor(p, i + 1) <==> TableFor(p, i) || (0 < |p| <= 2 && p == BigPath(i)[..|p|])
  {
    var q := BigPath(i);
    if |p| == 2 {
      assert p == q[..2] <==> p[0] == q[0] && p[1] == q[1];
      FirstUnder(i, p[0] * 512 + p[1]);
    }
    if |p| == 1 {
      assert p == q[..1] <==> p[0] == q[0];
    }
  }

  /** A table is the one page `i` is under, or its first page lies before or behind page `i`. */
  lemma FirstUnder(i: nat, t: nat)
    ensures t * 512 < i + 1 <==> t * 512 < i || (t == i / 512 && i % 512 == 0)
    ensures i / 512 == i / 0x4_0000 * 512 + i / 512 % 512
    ensures t == i / 512 ==> t * 512 <= i
  {
    assert i / 512 / 512 == i / 0x4_0000;
  }

  /** What the processor sees of it: below 1 TiB less one page of 2 MiB every address leads to itself,
      and every other page of the 48-bit space faults. */
  lemma IdentitySeen(s: BState, root: nat, va: nat)
    requires TreeOk(s.mem, s.tabs) && s.tabs[[]] == root && Identity(s, PAGES) && Canonical(va)
    ensures var m := Walk(s.mem, root, Idx(va), 0);
            if va < 0x100_0000_0000 - BIG_PAGE then m != Fault && PhysicalByte(m, va) == va else m == Fault
  {
    WalkFindsLeaf(s.mem, s.tabs, Idx(va));
    LowOrBeyond(va);
  }

  lemma LowOrBeyond(va: nat)
    requires Canonical(va)
    ensures var n := BigNo(Idx(va));
            if va < 0x100_0000_0000 - BIG_PAGE then n < PAGES && BIG_PAGE * n + va % BIG_PAGE == va else n >= PAGES
  {
    BigNoIs(va);
    var h := va / BIG_PAGE;
    assert va == BIG_PAGE * h + va % BIG_PAGE;
    if va < PHYS {
      assert h < 0x400_0000;
      ModIs(h, 0x800_0000, 0, h);
    } else {
      ModIs(h, 0x800_0000, 0xFFFF, h - 0xFFFF * 0x800_0000);
    }
  }

  lemma BigNoIs(va: nat)
    ensures BigNo(Idx(va)) == va / BIG_PAGE % 0x800_0000
  {
    PageNoDigits(va);
    var q := Idx(va);
    assert PageNo(va) == 512 * BigNo(q) + q[3];
    assert PageNo(va) / 512 == BigNo(q);
    assert va / BIG_PAGE == va / PAGE / 512;
    var p := va / PAGE;
    var h := p / 0x10_0000_0000;
    assert p == 0x10_0000_0000 * h + PageNo(va);
    ModIs(p / 512, 0x800_0000, h, PageNo(va) / 512);
  }

  // ---------------------------------------------------------------------------------------------
  // A range of pages
  // ---------------------------------------------------------------------------------------------

  /** The pool has room for the tables the first `i` pages need. */
  ghost predicate RoomFor(s: BState, va: nat, i: nat) {
    s.count + NewTables(s.tabs.Keys, va, i) <= CAP
  }

  /** The first `i` pages from `va` on lead to the frames in `fs`, no other page is remapped, and exactly
      the tables they need have been added. */
  ghost predicate RangeEntered(pool: nat, s: BState, r: BState, va: nat, fs: seq<nat>, i: nat) {
    && i <= |fs|
    && LeavesEntered(Seen(s), Seen(r), va, fs, i)
    && TablesAre(s.tabs.Keys, r.tabs, va, i)
    && r.count == s.count + NewTables(s.tabs.Keys, va, i)
    && TablesFrom(pool, s, r) && OthersKept(pool, s, r)
  }

  /** `_map_impl` of the pages from `va` on to the frames `fs`. `ok` is the assertion that the pool never
      runs out, which holds exactly if the tables all pages together need are there. */
  ghost predicate RangeEffect(pool: nat, s: BState, r: BState, va: nat, fs: seq<nat>, ok: bool) {
    (ok <==> RoomFor(s, va, |fs|)) && (ok ==> RangeEntered(pool, s, r, va, fs, |fs|))
  }

  lemma RangeDone(pool: nat, s: BState, r: BState, va: nat, fs: seq<nat>)
    requires RangeEntered(pool, s, r, va, fs, |fs|) && r.count <= CAP
    ensures RangeEffect(pool, s, r, va, fs, true)
  {
  }

  lemma RangeFailed(pool: nat, s: BState, r: BState, va: nat, fs: seq<nat>, i: nat)
    requires i <= |fs| && !RoomFor(s, va, i)
    ensures RangeEffect(pool, s, r, va, fs, false)
  {
    NewTablesGrow(s.tabs.Keys, va, i, |fs|);
  }

  /** Tables stay where they are, and new ones are in frames of the pool not handed out before. */
  ghost predicate TablesFrom(pool: nat, s: BState, r: BState) {
    && s.count <= r.count
    && forall p {:trigger TableFrom(pool, s, r, p)} :: p in r.tabs ==> TableFrom(pool, s, r, p)
  }

  ghost predicate TableFrom(pool: nat, s: BState, r: BState, p: seq<nat>) {
    p in r.tabs && if p in s.tabs then r.tabs[p] == s.tabs[p] else IsRest(pool, s.count, r.tabs[p])
  }

  lemma RangeStart(pool: nat, s: BState, va: nat, fs: seq<nat>)
    ensures RangeEntered(pool, s, s, va, fs, 0)
  {
  }

  /** One more page. */
  lemma RangeOne(pool: nat, s: BState, r: BState, r': BState, va: nat, fs: seq<nat>, i: nat, ok: bool)
    requires RangeEntered(pool, s, r, va, fs, i) && i < |fs| && va % PAGE == 0 && i < 0x10_0000_0000
    requires r.count <= CAP && Entered(pool, r, r', PagePath(va, i), 3, Small(fs[i]), ok)
    ensures ok <==> RoomFor(s, va, i + 1)
    ensures ok ==> RangeEntered(pool, s, r', va, fs, i + 1)
  {
    var q := PagePath(va, i);
    MissingIsLacking(s.tabs.Keys, r.tabs, va, i, q);
    if ok {
      RangeTables(pool, s, r, r', va, i);
      WholePath(q);
      NextEntered(Seen(s), Seen(r), Seen(r'), va, fs, i);
    }
  }

  lemma RangeTables(pool: nat, s: BState, r: BState, r': BState, va: nat, i: nat)
    requires TablesFrom(pool, s, r) && OthersKept(pool, s, r) && r.count <= CAP && TablesAre(s.tabs.Keys, r.tabs, va, i)
    requires OthersKept(pool, r, r') && r.count + Missing(r.tabs, PagePath(va, i), 3) <= CAP
    requires r'.count == r.count + Missing(r.tabs, PagePath(va, i), 3)
    requires r'.tabs == Grown(r.tabs, PagePath(va, i), Rest(pool, r.count), 3)
    ensures TablesFrom(pool, s, r') && OthersKept(pool, s, r') && TablesAre(s.tabs.Keys, r'.tabs, va, i + 1)
  {
    var q := PagePath(va, i);
    GrownKeeps(r.tabs, q, Rest(pool, r.count), 3);
    GrownInRest(pool, r, q, 3);
    forall p | p in r'.tabs ensures TableFrom(pool, s, r', p) {
      assert TableWanted(s.tabs.Keys, r.tabs, va, i, p);
      if p in r.tabs {
        assert TableFrom(pool, s, r, p);
      }
    }
    WayIs(q, 3);
    var k := i + 1;
    forall p ensures TableWanted(s.tabs.Keys, r'.tabs, va, k, p) {
      assert TableWanted(s.tabs.Keys, r.tabs, va, i, p);
    }
    forall f | f in s.mem ensures OtherKept(pool, s, r', f) {
      OtherStays(pool, s, r, r', f);
    }
  }

  lemma OtherStays(pool: nat, s: BState, r: BState, r': BState, f: nat)
    requires TablesFrom(pool, s, r) && OthersKept(pool, s, r) && OthersKept(pool, r, r') && f in s.mem
    ensures OtherKept(pool, s, r', f)
  {
    assert OtherKept(pool, s, r, f);
    if f !in s.tabs.Values && !IsRest(pool, s.count, f) {
      forall p | p in r.tabs ensures r.tabs[p] != f {
        assert TableFrom(pool, s, r, p);
      }
      assert OtherKept(pool, r, r', f);
    }
  }

  lemma {:induction false} GrownInRest(pool: nat, r: BState, q: seq<nat>, n: nat)
    requires n <= |q| && r.count + Missing(r.tabs, q, n) <= CAP
    ensures var us := Grown(r.tabs, q, Rest(pool, r.count), n);
            forall p :: p in us && p !in r.tabs ==> IsRest(pool, r.count, us[p])
  {
    if n > 0 {
      GrownInRest(pool, r, q, n - 1);
    }
  }

  /** What the processor sees of it. */
  lemma RangeSeen(pool: nat, s: BState, r: BState, root: nat, va: nat, fs: seq<nat>, vb: nat)
    requires TreeOk(s.mem, s.tabs) && s.tabs[[]] == root && TreeOk(r.mem, r.tabs) && r.tabs[[]] == root
    requires RangeEntered(pool, s, r, va, fs, |fs|) && va % PAGE == 0 && |fs| < 0x10_0000_0000
    requires Canonical(va) && Canonical(vb) && (va + PAGE * |fs| <= PHYS || (va >= HIGH && va + PAGE * |fs| <= WORD))
    ensures Walk(r.mem, root, Idx(vb), 0)
         == if va <= vb < va + PAGE * |fs| then Small(fs[(vb - va) / PAGE]) else Walk(s.mem, root, Idx(vb), 0)
  {
    WalkFindsLeaf(s.mem, s.tabs, Idx(vb));
    WalkFindsLeaf(r.mem, r.tabs, Idx(vb));
    if va <= vb < va + PAGE * |fs| {
      InRange(va, |fs|, vb);
      assert LeadsAt(Seen(r), va, fs, (vb - va) / PAGE);
    } else {
      forall j | 0 <= j < |fs| ensures Idx(vb) != PagePath(va, j) {
        NotInRange(va, |fs|, vb, j);
      }
      assert Outside(va, |fs|, Idx(vb));
    }
  }


}
