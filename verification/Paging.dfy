/** The frame free list and the page tables of src/mm/mm_frame.c and src/mm/mm_page.c. Frames are
    reached only through the processor's own translation: a load or a store at a virtual address
    goes to the frame the hardware walk finds for it. */
module Paging {
  import opened Words
  import opened PageWords
  import opened PageTree
  import opened PageSpec
  import opened PageExact
  import opened Lists

  ghost predicate LinkAt(mem: Frames, fs: seq<nat>, i: nat)
    requires i < |fs|
  {
    IsFrame(fs[i]) && fs[i] in mem && |mem[fs[i]]| == ENTRIES && mem[fs[i]][0] == First(fs[i + 1..])
  }

  /** The free frames, each holding the address of the next in its first word. */
  ghost predicate FreeChain(mem: Frames, head: nat, fs: seq<nat>) {
    && NoDup(fs) && head == First(fs)
    && forall i {:trigger LinkAt(mem, fs, i)} :: 0 <= i < |fs| ==> LinkAt(mem, fs, i)
  }

  predicate Leads(w: nat, t: nat) {
    Live(w) && !Huge(w) && Addr(w) == t
  }

  /** The direct-access page, `_direct_vadd`, and the four tables on its path: the root and
      `_direct_tab[2..0]`. */
  datatype Window = Window(direct: nat, root: nat, tab3: nat, tab2: nat, tab1: nat) {
    predicate On(t: nat) {
      t == root || t == tab3 || t == tab2 || t == tab1
    }

    /** The tables are linked down to the one that holds the window entry. */
    ghost predicate Linked(mem: Frames) {
      && Idx(direct) == DirectPath() && direct % PAGE == 0
      && root != tab3 && root != tab2 && root != tab1 && tab3 != tab2 && tab3 != tab1 && tab2 != tab1
      && root in mem && |mem[root]| == ENTRIES && Leads(mem[root][256], tab3)
      && tab3 in mem && |mem[tab3]| == ENTRIES && Leads(mem[tab3][4], tab2)
      && tab2 in mem && |mem[tab2]| == ENTRIES && Leads(mem[tab2][8], tab1)
      && tab1 in mem && |mem[tab1]| == ENTRIES
    }

    /** Entry `i` of table `t` is one of the links above, or the window entry. */
    predicate Fixed(t: nat, i: nat) {
      (t == root && i == 256) || (t == tab3 && i == 4) || (t == tab2 && i == 8) || (t == tab1 && i == 0)
    }

    lemma ZeroIsFree(mem: Frames, t: nat, i: nat)
      requires Linked(mem) && t in mem && i < |mem[t]| && mem[t][i] == 0 && !(t == tab1 && i == 0)
      ensures !Fixed(t, i)
    {
      assert !Live(0);
    }

    /** With the window open none of them is empty. */
    lemma NotBlank(mem: Frames, t: nat)
      requires Linked(mem) && mem[tab1][0] != 0 && On(t)
      ensures !Blank(mem[t])
    {
      assert !Live(0);
      assert mem[root][256] != 0 && mem[tab3][4] != 0 && mem[tab2][8] != 0;
    }

    lemma Hits(mem: Frames, pa: nat)
      requires Linked(mem) && mem[tab1][0] == Entry(pa, false) && pa % PAGE == 0 && pa < PHYS
      ensures Walk(mem, root, Idx(direct), 0) == Small(pa)
    {
      var q := Idx(direct);
      EntryRoundTrip(pa, false);
      LiveFields(mem[root][256]);
      LiveFields(mem[tab3][4]);
      LiveFields(mem[tab2][8]);
      LiveFields(mem[tab1][0]);
      assert q[0] == 256 && q[1] == 4 && q[2] == 8 && q[3] == 0;
      assert Walk(mem, tab1, q, 3) == Small(pa);
      assert Walk(mem, tab2, q, 2) == Small(pa);
      assert Walk(mem, tab3, q, 1) == Small(pa);
    }
  }

  lemma ChainFrame(mem: Frames, head: nat, fs: seq<nat>, t: nat, words: seq<nat>)
    requires FreeChain(mem, head, fs) && t !in fs
    ensures FreeChain(mem[t := words], head, fs)
  {
    var m := mem[t := words];
    forall i | 0 <= i < |fs| ensures LinkAt(m, fs, i) {
      assert LinkAt(mem, fs, i);
    }
  }

  lemma ChainPop(mem: Frames, head: nat, fs: seq<nat>)
    requires FreeChain(mem, head, fs) && fs != []
    ensures IsFrame(head) && head in mem && |mem[head]| == ENTRIES && FreeChain(mem, mem[head][0], fs[1..])
    ensures head == fs[0] && fs[0] !in fs[1..]
  {
    assert LinkAt(mem, fs, 0);
    NoDupTail(fs);
    var gs := fs[1..];
    forall i | 0 <= i < |gs| ensures LinkAt(mem, gs, i) {
      assert LinkAt(mem, fs, i + 1);
      assert gs[i + 1..] == fs[i + 2..];
    }
  }

  lemma ChainHead(mem: Frames, head: nat, fs: seq<nat>)
    requires FreeChain(mem, head, fs)
    ensures head == 0 <==> fs == []
  {
    if fs != [] {
      assert LinkAt(mem, fs, 0);
    }
  }

  lemma ChainPush(mem: Frames, head: nat, fs: seq<nat>, f: nat)
    requires FreeChain(mem, head, fs) && f !in fs && IsFrame(f) && f in mem && |mem[f]| == ENTRIES
    ensures FreeChain(Put(mem, f, 0, head), f, [f] + fs)
  {
    var m, gs := Put(mem, f, 0, head), [f] + fs;
    NoDupPush(fs, f);
    forall i | 0 <= i < |gs| ensures LinkAt(m, gs, i) {
      if i > 0 {
        assert LinkAt(mem, fs, i - 1);
        assert gs[i + 1..] == fs[i..];
      } else {
        assert gs[1..] == fs;
      }
    }
  }

  class Mmu {
    /** Physical memory. */
    var mem: Frames
    /** `_tab_4` and `_direct_tab`, three distinct tables. */
    const win: Window
    /** `_free_head` and `_free_count` */
    var freeHead: nat
    var freeCount: nat
    /** The free frames, in list order. */
    ghost var free: seq<nat>
    /** The tables, by the indices that lead to them. */
    ghost var tabs: Tabs

    /** `_init_direct_access`, over the tables of the early mapping: three blank tables are hung on the
        way to the direct-access page, whose own entry stays zero. The free list starts empty, as
        `mm_frame_bootstrap` leaves it. */
    constructor (mem0: Frames, ghost tabs0: Tabs, win: Window)
      requires TreeOk(mem0, tabs0) && tabs0[[]] == win.root && win.root in mem0
      requires Idx(win.direct) == DirectPath() && win.direct % PAGE == 0
      requires |mem0[win.root]| == ENTRIES && mem0[win.root][256] == 0
      requires IsFrame(win.tab3) && IsFrame(win.tab2) && IsFrame(win.tab1)
      requires win.tab3 != win.tab2 && win.tab3 != win.tab1 && win.tab2 != win.tab1
      requires win.tab3 !in tabs0.Values && win.tab2 !in tabs0.Values && win.tab1 !in tabs0.Values
      ensures Valid() && this.win == win && free == []
      ensures SameLeaves(mem0, tabs0, mem, tabs)
      ensures forall f :: f in mem0 && f !in tabs0.Values && !win.On(f) ==> f in mem && mem[f] == mem0[f]
    {
      var blank := Zeros();
      assert win.root in tabs0.Values;
      assert [] + [256] == [256] && [256] + [4] == [256, 4] && [256, 4] + [8] == [256, 4, 8];
      AddFreshTable(mem0, tabs0, [], 256, win.tab3, blank);
      var mem3 := Put(mem0[win.tab3 := blank], win.root, 256, Entry(win.tab3, false));
      ghost var tabs3 := tabs0[[256] := win.tab3];
      AddFreshTable(mem3, tabs3, [256], 4, win.tab2, blank);
      var mem2 := Put(mem3[win.tab2 := blank], win.tab3, 4, Entry(win.tab2, false));
      ghost var tabs2 := tabs3[[256, 4] := win.tab2];
      AddFreshTable(mem2, tabs2, [256, 4], 8, win.tab1, blank);
      var mem1 := Put(mem2[win.tab1 := blank], win.tab2, 8, Entry(win.tab1, false));
      EntryRoundTrip(win.tab3, false);
      EntryRoundTrip(win.tab2, false);
      EntryRoundTrip(win.tab1, false);
      this.mem, this.win := mem1, win;
      freeHead, freeCount := 0, 0;
      free, tabs := [], tabs2[[256, 4, 8] := win.tab1];
    }

    ghost predicate Base()
      reads this
    {
      && win.Linked(mem)
      && FreeChain(mem, freeHead, free) && freeCount == |free|
      && forall t :: win.On(t) ==> t !in free
    }

    /** No direct access is set up. */
    predicate Closed()
      reads this
      requires win.tab1 in mem && |mem[win.tab1]| == ENTRIES
    {
      mem[win.tab1][0] == 0
    }

    /** The processor's translation of a virtual address. */
    function Translate(va: nat): Mapping
      reads this
    {
      Walk(mem, win.root, Idx(va), 0)
    }

    method Load(va: nat, i: nat) returns (w: nat)
      requires Translate(va) != Fault
      requires var f := PhysicalByte(Translate(va), va); f in mem && i < |mem[f]|
      ensures w == mem[PhysicalByte(Translate(va), va)][i]
    {
      w := mem[PhysicalByte(Translate(va), va)][i];
    }

    method Store(va: nat, i: nat, w: nat)
      requires Translate(va) != Fault
      requires var f := PhysicalByte(Translate(va), va); f in mem && i < |mem[f]|
      modifies this`mem
      ensures mem == Put(old(mem), PhysicalByte(old(Translate(va)), va), i, w)
    {
      mem := Put(mem, PhysicalByte(Translate(va), va), i, w);
    }

    /** `mm_page_direct_access_setup` */
    method Setup(pa: nat)
      requires Base() && Closed() && pa % PAGE == 0 && pa < PHYS
      modifies this`mem
      ensures Base() && mem == Put(old(mem), win.tab1, 0, Entry(pa, false))
      ensures Translate(win.direct) == Small(pa) && PhysicalByte(Small(pa), win.direct) == pa
    {
      EntryRoundTrip(pa, false);
      ChainFrame(mem, freeHead, free, win.tab1, mem[win.tab1][0 := Entry(pa, false)]);
      mem := Put(mem, win.tab1, 0, Entry(pa, false));
      win.Hits(mem, pa);
    }

    /** `mm_page_direct_access_reset` */
    method Reset()
      requires Base() && Present(mem[win.tab1][0])
      modifies this`mem
      ensures Base() && Closed() && mem == Put(old(mem), win.tab1, 0, 0)
    {
      ChainFrame(mem, freeHead, free, win.tab1, mem[win.tab1][0 := 0]);
      mem := Put(mem, win.tab1, 0, 0);
    }

    /** `mm_frame_alloc`: the first free frame is taken off the list, which is read through the
        window. */
    method FrameAlloc() returns (ok: bool, pa: nat)
      requires Base() && Closed()
      modifies this`mem, this`freeHead, this`freeCount, this`free
      ensures Base() && Closed() && mem == old(mem)
      ensures ok <==> old(free) != []
      ensures if ok then pa == old(free)[0] && free == old(free)[1..] else free == old(free) && pa == 0
    {
      ChainHead(mem, freeHead, free);
      if freeHead == 0 {
        return false, 0;
      }
      ghost var m := mem;
      ChainPop(mem, freeHead, free);
      pa := freeHead;
      Setup(pa);
      freeHead := Load(win.direct, 0);
      ChainPop(mem, pa, free);
      free := free[1..];
      freeCount := freeCount - 1;
      EntryRoundTrip(pa, false);
      Reset();
      WindowShut(m, mem, Entry(pa, false));
      return true, pa;
    }

    /** `mm_frame_free`: the link is written at the virtual address the frame is mapped at. */
    method FrameFree(va: nat, pa: nat)
      requires Base() && IsFrame(pa) && pa in mem && |mem[pa]| == ENTRIES && pa !in free && !win.On(pa)
      requires Translate(va) != Fault && PhysicalByte(Translate(va), va) == pa
      modifies this`mem, this`freeHead, this`freeCount, this`free
      ensures Base() && mem == Put(old(mem), pa, 0, old(freeHead)) && free == [pa] + old(free)
    {
      ChainPush(mem, freeHead, free, pa);
      Store(va, 0, freeHead);
      freeHead := pa;
      freeCount := freeCount + 1;
      free := [pa] + free;
    }

    /** `_tab_zero` of a frame through the window. */
    method CleanFrame(f: nat)
      requires Base() && Closed() && IsFrame(f) && f in mem && |mem[f]| == ENTRIES
      requires f !in free && !win.On(f)
      modifies this`mem
      ensures Base() && Closed() && mem == old(mem)[f := Zeros()]
    {
      ghost var m := mem;
      Setup(f);
      EntryRoundTrip(f, false);
      TabZero(f);
      Reset();
      assert mem[win.tab1] == m[win.tab1];
      assert mem == m[f := Zeros()];
    }

    /** `_tab_zero`, a store per word. */
    method TabZero(f: nat)
      requires Base() && IsFrame(f) && f in mem && |mem[f]| == ENTRIES
      requires f !in free && !win.On(f) && mem[win.tab1][0] == Entry(f, false)
      modifies this`mem
      ensures Base() && mem == old(mem)[f := Zeros()]
    {
      ghost var open := mem;
      var i := 0;
      while i < ENTRIES
        invariant 0 <= i <= ENTRIES
        invariant f in mem && |mem[f]| == ENTRIES && mem == open[f := mem[f]]
        invariant forall j :: 0 <= j < i ==> mem[f][j] == 0
      {
        ChainFrame(open, freeHead, free, f, mem[f]);
        win.Hits(mem, f);
        Store(win.direct, i, 0);
        i := i + 1;
      }
      ChainFrame(open, freeHead, free, f, mem[f]);
      assert mem[f] == Zeros();
    }

    /** `_tab_is_zero` of the table the window shows. */
    method TableIsZero(t: nat) returns (zero: bool)
      requires Base() && IsFrame(t) && t in mem && |mem[t]| == ENTRIES
      requires mem[win.tab1][0] == Entry(t, false)
      ensures zero <==> Blank(mem[t])
    {
      win.Hits(mem, t);
      zero := true;
      var i := 0;
      while i < ENTRIES
        invariant 0 <= i <= ENTRIES
        invariant zero
        invariant forall j :: 0 <= j < i ==> mem[t][j] == 0
      {
        var w := Load(win.direct, i);
        zero := w == 0;
        if !zero {
          break;
        }
        i := i + 1;
      }
    }

    /** One level of `mm_page_map`: the entry's table is opened, a frame is hung on the entry if it is
        not present, and the address it leads to is read back. */
    method LinkTable(t: nat, i: nat, frame: nat) returns (next: nat, used: bool)
      requires Base() && Closed() && IsFrame(t) && t in mem && |mem[t]| == ENTRIES && i < ENTRIES && t !in free
      requires IsFrame(frame) && !(t == win.tab1 && i == 0)
      requires mem[t][i] == 0 || Live(mem[t][i])
      modifies this`mem
      ensures Base() && Closed()
      ensures used <==> old(mem)[t][i] == 0
      ensures mem == if used then Put(old(mem), t, i, Entry(frame, false)) else old(mem)
      ensures next == if used then frame else Addr(old(mem)[t][i])
    {
      hide FreeChain, Walk, Idx, Writable, Huge, Addr;
      ghost var m := mem;
      Setup(t);
      EntryRoundTrip(t, false);
      var w := Load(win.direct, i);
      used := !Present(w);
      if used {
        win.ZeroIsFree(m, t, i);
        w := HangFrame(t, i, frame);
        next := Addr(w);
        Reset();
        WindowUndone(m, mem, t, i, w, Entry(t, false));
      } else {
        next := Addr(w);
        Reset();
        WindowShut(m, mem, Entry(t, false));
      }
    }

    lemma WindowShut(m: Frames, m': Frames, e: nat)
      requires win.tab1 in m && |m[win.tab1]| == ENTRIES && m[win.tab1][0] == 0
      requires m' == Put(Put(m, win.tab1, 0, e), win.tab1, 0, 0)
      ensures m' == m
    {
      assert m'[win.tab1] == m[win.tab1];
    }

    /** The entry is initialised through the open window, and read back. */
    method HangFrame(t: nat, i: nat, frame: nat) returns (w: nat)
      requires Base() && IsFrame(t) && t in mem && |mem[t]| == ENTRIES && i < ENTRIES && t !in free
      requires frame % PAGE == 0 && frame < PHYS && !win.Fixed(t, i) && mem[win.tab1][0] == Entry(t, false)
      modifies this`mem
      ensures Base() && mem == Put(old(mem), t, i, Entry(frame, false)) && mem[win.tab1][0] == old(mem)[win.tab1][0]
      ensures w == Entry(frame, false) && Addr(w) == frame
    {
      win.Hits(mem, t);
      EntryRoundTrip(frame, false);
      ChainFrame(mem, freeHead, free, t, mem[t][i := Entry(frame, false)]);
      Store(win.direct, i, Entry(frame, false));
      win.Hits(mem, t);
      w := Load(win.direct, i);
    }

    /** Setting the window up, writing one other entry and resetting it writes just that entry. */
    lemma WindowUndone(m: Frames, m': Frames, t: nat, i: nat, w: nat, e: nat)
      requires win.tab1 in m && |m[win.tab1]| == ENTRIES && m[win.tab1][0] == 0
      requires t in m && |m[t]| == ENTRIES && i < ENTRIES && !(t == win.tab1 && i == 0)
      requires m' == Put(Put(Put(m, win.tab1, 0, e), t, i, w), win.tab1, 0, 0)
      ensures m' == Put(m, t, i, w)
    {
      assert forall f :: f in m' <==> f in m;
      forall f | f in m ensures m'[f] == Put(m, t, i, w)[f] {
      }
    }

    /** One level of the way up of `_unmap`: the entry is zeroed, and if that empties the table its
        frame is freed, all in one window session. */
    method ClearEntry(t: nat, i: nat) returns (empty: bool)
      requires Base() && Closed() && IsFrame(t) && t in mem && |mem[t]| == ENTRIES && i < ENTRIES && t !in free
      requires !win.Fixed(t, i)
      modifies this`mem, this`freeHead, this`freeCount, this`free
      ensures Base() && Closed()
      ensures empty <==> Blank(old(mem)[t][i := 0]) && !win.On(t)
      ensures free == if empty then [t] + old(free) else old(free)
      ensures mem == if empty then old(mem)[t := old(mem)[t][i := 0][0 := old(freeHead)]] else Put(old(mem), t, i, 0)
    {
      ghost var m, head := mem, freeHead;
      Setup(t);
      EntryRoundTrip(t, false);
      ChainFrame(mem, freeHead, free, t, mem[t][i := 0]);
      Store(win.direct, i, 0);
      win.Hits(mem, t);
      if win.On(t) {
        win.NotBlank(mem, t);
      }
      empty := TableIsZero(t);
      if empty {
        FrameFree(win.direct, t);
        Reset();
        FreedThroughWindow(m, mem, t, i, head, Entry(t, false));
      } else {
        Reset();
        WindowUndone(m, mem, t, i, 0, Entry(t, false));
      }
    }

    lemma FreedThroughWindow(m: Frames, m': Frames, t: nat, i: nat, head: nat, e: nat)
      requires win.tab1 in m && |m[win.tab1]| == ENTRIES && m[win.tab1][0] == 0
      requires t in m && |m[t]| == ENTRIES && i < ENTRIES && t != win.tab1
      requires m' == Put(Put(Put(Put(m, win.tab1, 0, e), t, i, 0), t, 0, head), win.tab1, 0, 0)
      ensures m' == m[t := m[t][i := 0][0 := head]]
    {
      assert forall f :: f in m' <==> f in m;
      forall f | f in m ensures m'[f] == m[t := m[t][i := 0][0 := head]][f] {
      }
    }

    // -------------------------------------------------------------------------------------------
    // The tree
    // -------------------------------------------------------------------------------------------

    ghost function State(): PState
      reads this
    {
      PState(mem, tabs, free)
    }

    /** Between operations: a sound tree, a sound free list disjoint from it, and no direct access. */
    ghost predicate Valid()
      reads this
    {
      && Base() && Closed() && TreeOk(mem, tabs)
      && WindowIn(win.root, win.tab3, win.tab2, win.tab1, tabs)
      && forall f :: f in free ==> f !in tabs.Values
    }

    ghost predicate WindowTabs()
      reads this
    {
      Injective(tabs) && WindowIn(win.root, win.tab3, win.tab2, win.tab1, tabs)
    }

    /** The tables of the window are those on the way to it. */
    lemma OnIsOnWindow(p: seq<nat>)
      requires WindowTabs() && p in tabs
      ensures win.On(tabs[p]) <==> OnWindow(p)
    {
      assert [256, 4, 8][..0] == [] && [256, 4, 8][..1] == [256];
      assert [256, 4, 8][..2] == [256, 4] && [256, 4, 8][..3] == [256, 4, 8];
      assert OnWindow(p) ==> p == [256, 4, 8][..|p|];
      OwnFrame(tabs, p);
    }

    lemma OnlyPath(p: seq<nat>, r: seq<nat>)
      requires Injective(tabs) && p in tabs && r in tabs && tabs[p] == tabs[r]
      ensures p == r
    {
      assert SameFrame(tabs, p, r);
    }

    lemma NotWindowSlot(q: seq<nat>, n: nat)
      requires WindowTabs() && IsPath(q) && q != DirectPath() && n < 4 && q[..n] in tabs
      ensures !(tabs[q[..n]] == win.tab1 && q[n] == 0)
    {
      if tabs[q[..n]] == win.tab1 {
        OnlyPath(q[..n], [256, 4, 8]);
        assert |q[..n]| == 3;
        assert q[0] == q[..n][0] && q[1] == q[..n][1] && q[2] == q[..n][2];
        assert q == [q[0], q[1], q[2], q[3]];
      }
    }

    lemma NotWindowLink(q: seq<nat>, n: nat, p: seq<nat>, d: nat)
      requires WindowTabs() && IsPath(q) && n < 4 && q[..n] in tabs && q[..n + 1] !in tabs
      requires p in tabs && p + [d] in tabs
      ensures !(tabs[q[..n]] == tabs[p] && q[n] == d)
    {
      if tabs[q[..n]] == tabs[p] {
        OnlyPath(q[..n], p);
        assert q[..n + 1] == q[..n] + [q[n]];
      }
    }

    /** The window entry and the links to it are none of the entries another page's walk ends at. */
    lemma NotWindowEntry(q: seq<nat>, n: nat)
      requires WindowTabs() && IsPath(q) && q != DirectPath() && n < 4 && q[..n] in tabs
      ensures !(tabs[q[..n]] == win.tab1 && q[n] == 0)
      ensures q[..n + 1] !in tabs ==> !win.Fixed(tabs[q[..n]], q[n])
    {
      NotWindowSlot(q, n);
      assert [] + [256] == [256] && [256] + [4] == [256, 4] && [256, 4] + [8] == [256, 4, 8];
      if q[..n + 1] !in tabs {
        NotWindowLink(q, n, [], 256);
        NotWindowLink(q, n, [256], 4);
        NotWindowLink(q, n, [256, 4], 8);
      }
    }

    /** A blank frame off the free list. */
    method TakeFrame() returns (ok: bool, f: nat)
      requires Valid()
      modifies this`mem, this`freeHead, this`freeCount, this`free
      ensures Valid()
      ensures ok <==> old(free) != []
      ensures !ok ==> f == 0 && mem == old(mem) && free == old(free)
      ensures ok ==> f == old(free)[0] && free == old(free)[1..] && mem == old(mem)[f := Zeros()]
      ensures ok ==> IsFrame(f) && f !in free && f !in tabs.Values
      ensures SameLeaves(old(mem), tabs, mem, tabs)
    {
      ghost var m, fs := mem, free;
      ok, f := FrameAlloc();
      if ok {
        assert f in fs;
        ChainPop(m, fs[0], fs);
        OtherFrame(mem, tabs, f, Zeros());
        CleanFrame(f);
      }
    }

    /** One round of the loop of `mm_page_map`: from the table at depth `n` on the way to the page to
        the next, which is added in the spare frame if it does not exist. */
    method Descend(t: nat, i: nat, frame: nat, ghost q: seq<nat>, ghost n: nat) returns (next: nat, used: bool)
      requires Valid() && IsPath(q) && q != DirectPath() && n < 3
      requires q[..n] in tabs && t == tabs[q[..n]] && i == q[n] && Leaf(mem, tabs, q) == Fault
      requires IsSpare(State(), frame)
      modifies this`mem, this`tabs
      ensures Valid() && SameLeaves(old(mem), old(tabs), mem, tabs)
      ensures used <==> q[..n + 1] !in old(tabs)
      ensures tabs == if used then old(tabs)[q[..n + 1] := frame] else old(tabs)
      ensures q[..n + 1] in tabs && next == tabs[q[..n + 1]]
      ensures forall f :: f in old(mem) && f !in old(tabs).Values ==> f in mem && mem[f] == old(mem)[f]
    {
      ghost var m, us, p := mem, tabs, q[..n];
      DescendReady(t, i, frame, q, n);
      hide TableOk, Leaf, Injective, TreeOk, SameLeaves, IsSpare, Window.Fixed;
      next, used := LinkTable(t, i, frame);
      if used {
        tabs := tabs[p + [i] := frame];
      }
    }

    /** The entry leads to a table, or is zero and may lead to the spare frame. */
    lemma DescendReady(t: nat, i: nat, frame: nat, q: seq<nat>, n: nat)
      requires Valid() && IsPath(q) && q != DirectPath() && n < 3
      requires q[..n] in tabs && t == tabs[q[..n]] && i == q[n] && Leaf(mem, tabs, q) == Fault
      requires IsSpare(State(), frame)
      ensures IsFrame(t) && t in mem && |mem[t]| == ENTRIES && i < ENTRIES && t !in free && IsFrame(frame)
      ensures !(t == win.tab1 && i == 0) && (mem[t][i] == 0 || Live(mem[t][i])) && q[..n + 1] == q[..n] + [i]
      ensures q[..n + 1] in tabs ==> mem[t][i] != 0 && Addr(mem[t][i]) == tabs[q[..n + 1]]
      ensures q[..n + 1] !in tabs ==> mem[t][i] == 0 && !win.Fixed(t, i) && frame !in free
      ensures q[..n + 1] !in tabs ==>
        TreeOk(Put(mem, t, i, Entry(frame, false)), tabs[q[..n] + [i] := frame])
        && SameLeaves(mem, tabs, Put(mem, t, i, Entry(frame, false)), tabs[q[..n] + [i] := frame])
    {
      assert TableOk(mem, tabs, q[..n]);
      assert t in tabs.Values;
      assert q[..n + 1] == q[..n] + [i];
      NotWindowEntry(q, n);
      if q[..n + 1] in tabs {
        LinkLeads(mem, tabs, q, n);
      } else {
        FaultIsZero(mem, tabs, q, n);
        EntryRoundTrip(frame, false);
        AddTable(mem, tabs, q[..n], i, frame, Entry(frame, false));
      }
    }

    /** The loop of `mm_page_map`: the tables on the way to the page, and the frame left over. */
    method BuildTables(va: nat, ghost q: seq<nat>) returns (ok: bool, tabPa: nat, framePa: nat)
      requires Valid() && q == Idx(va) && q != DirectPath() && Leaf(mem, tabs, q) == Fault
      modifies this`mem, this`tabs, this`freeHead, this`freeCount, this`free
      ensures Valid()
      ensures ok <==> Need(old(tabs), q) <= |old(free)|
      ensures ok ==> Building(old(State()), State(), q, 3, framePa) && q[..3] in tabs && tabPa == tabs[q[..3]]
      ensures !ok ==> framePa == 0 && BuildFailed(old(State()), State(), q)
    {
      hide Mmu.Base, Building, BuildFailed, TreeOk, Leaf, Need;
      ghost var s := State();
      WayStart(q);
      tabPa := win.root;
      framePa := 0;
      ok := true;
      var lv := 4;
      ghost var n := 0;
      while lv > 1
        invariant 0 <= n <= 3 && n == 4 - lv
        invariant ok && Valid()
        invariant Building(s, State(), q, n, framePa) && q[..n] in tabs && tabPa == tabs[q[..n]]
        decreases lv
      {
        var i := FieldOf(va, lv);
        if framePa == 0 {
          ok, framePa := TakeSpare(q, n, s);
          if !ok {
            break;
          }
        }
        tabPa, framePa := Round(tabPa, i, framePa, q, n, s);
        lv := lv - 1;
        n := n + 1;
      }
      if ok {
        BuildDone(s, State(), q, framePa);
      }
    }

    lemma WayStart(q: seq<nat>)
      requires Valid() && |q| == 4
      ensures TreeOk(mem, tabs) && q[..0] in tabs && tabs[q[..0]] == win.root && Building(State(), State(), q, 0, 0)
    {
      BuildStart(State(), q);
    }

    static method FieldOf(va: nat, lv: nat) returns (i: nat)
      requires 1 <= lv <= 4
      ensures i == Idx(va)[4 - lv]
    {
      i := TabIndex(va, lv);
    }

    method TakeSpare(ghost q: seq<nat>, ghost n: nat, ghost s: PState) returns (ok: bool, f: nat)
      requires Valid() && TreeOk(s.mem, s.tabs) && Building(s, State(), q, n, 0) && n < 3
      modifies this`mem, this`freeHead, this`freeCount, this`free
      ensures Valid()
      ensures ok ==> Building(s, State(), q, n, f) && f != 0
      ensures !ok ==> f == 0 && BuildFailed(s, State(), q) && |s.free| < Need(s.tabs, q)
    {
      ghost var r := State();
      ok, f := TakeFrame();
      if ok {
        BuildTake(s, r, State(), q, n, f);
      } else {
        BuildStuck(s, r, q, n);
      }
    }

    method Round(t: nat, i: nat, frame: nat, ghost q: seq<nat>, ghost n: nat, ghost s: PState)
      returns (next: nat, frame': nat)
      requires Valid() && TreeOk(s.mem, s.tabs) && Building(s, State(), q, n, frame) && frame != 0 && n < 3
      requires IsPath(q) && q != DirectPath() && Leaf(s.mem, s.tabs, q) == Fault
      requires t == tabs[q[..n]] && i == q[n]
      modifies this`mem, this`tabs
      ensures Valid() && Building(s, State(), q, n + 1, frame') && q[..n + 1] in tabs && next == tabs[q[..n + 1]]
    {
      ghost var r := State();
      var used;
      next, used := Descend(t, i, frame, q, n);
      BuildDescend(s, r, State(), q, n, frame, used);
      frame' := if used then 0 else frame;
    }

    /** The last level of `mm_page_map`. */
    method SetPage(t: nat, i: nat, pa: nat)
      requires Base() && Closed() && IsFrame(t) && t in mem && |mem[t]| == ENTRIES && i < ENTRIES && t !in free
      requires pa % PAGE == 0 && pa < PHYS && mem[t][i] == 0 && !(t == win.tab1 && i == 0)
      modifies this`mem
      ensures Base() && Closed() && mem == Put(old(mem), t, i, Entry(pa, false))
    {
      ghost var m := mem;
      Setup(t);
      EntryRoundTrip(t, false);
      win.ZeroIsFree(m, t, i);
      var w := HangFrame(t, i, pa);
      Reset();
      WindowUndone(m, mem, t, i, w, Entry(t, false));
    }

    /** The end of `mm_page_map`: the frame that was not needed goes back. */
    method ReturnSpare(f: nat)
      requires Valid() && IsSpare(State(), f)
      modifies this`mem, this`freeHead, this`freeCount, this`free
      ensures Valid() && free == [f] + old(free)
      ensures SameLeaves(old(mem), tabs, mem, tabs)
      ensures f in mem && mem == old(mem)[f := mem[f]]
    {
      ghost var m, head := mem, freeHead;
      assert tabs[[]] in tabs.Values && tabs[[256]] in tabs.Values;
      assert tabs[[256, 4]] in tabs.Values && tabs[[256, 4, 8]] in tabs.Values;
      Setup(f);
      EntryRoundTrip(f, false);
      FrameFree(win.direct, f);
      Reset();
      OtherFrame(m, tabs, f, mem[f]);
      SpareReturned(m, mem, f, head, Entry(f, false));
    }

    lemma SpareReturned(m: Frames, m': Frames, f: nat, head: nat, e: nat)
      requires win.tab1 in m && |m[win.tab1]| == ENTRIES && m[win.tab1][0] == 0
      requires f in m && |m[f]| == ENTRIES && f != win.tab1
      requires m' == Put(Put(Put(m, win.tab1, 0, e), f, 0, head), win.tab1, 0, 0)
      ensures m' == m[f := m'[f]]
    {
      assert m'[win.tab1] == m[win.tab1];
    }

    /** `mm_page_map`: with enough free frames, exactly the page of `va` is remapped, to `pa`. */
    method MapPage(va: nat, pa: nat) returns (ok: bool)
      requires Valid() && va % PAGE == 0 && pa % PAGE == 0 && pa < PHYS
      requires PageNo(va) != PageNo(win.direct) && Translate(va) == Fault
      modifies this`mem, this`tabs, this`freeHead, this`freeCount, this`free
      ensures Valid() && MapEffect(old(State()), State(), Idx(va), pa, ok)
      ensures forall vb: nat ::
                Translate(vb) == if ok && PageNo(vb) == PageNo(va) then Small(pa) else old(Translate(vb))
      ensures ok ==> MayWrite(mem, win.root, Idx(va), 0)
    {
      ghost var s, q := State(), Idx(va);
      IdxIsPage(va, win.direct);
      WalkFindsLeaf(mem, tabs, q);
      var tabPa, framePa;
      ok, tabPa, framePa := BuildTables(va, q);
      if ok {
        var i := FieldOf(va, 1);
        PutPage(tabPa, i, pa, framePa, q, s);
      } else {
        MapFailed(s, State(), q, pa);
      }
      MapSeen(s, State(), win.root, va, pa, ok);
      MappedIsWritable(mem, tabs, q);
    }

    /** The page is entered in its table, and the spare frame returned. */
    method PutPage(t: nat, i: nat, pa: nat, frame: nat, ghost q: seq<nat>, ghost s: PState)
      requires Valid() && TreeOk(s.mem, s.tabs) && Building(s, State(), q, 3, frame)
      requires IsPath(q) && q != DirectPath() && Leaf(s.mem, s.tabs, q) == Fault
      requires t == tabs[q[..3]] && i == q[3] && pa % PAGE == 0 && pa < PHYS
      modifies this`mem, this`freeHead, this`freeCount, this`free
      ensures Valid() && MapEffect(s, State(), q, pa, true)
    {
      ghost var r := State();
      assert TableOk(mem, tabs, q[..3]);
      assert t in tabs.Values;
      NoFifth(mem, tabs, q);
      NotWindowEntry(q, 3);
      FaultIsZero(mem, tabs, q, 3);
      EntryRoundTrip(pa, false);
      assert q[..3] + [i] == q;
      PutLeaf(mem, tabs, q[..3], i, Entry(pa, false));
      SetPage(t, i, pa);
      ghost var r' := State();
      MapPut(s, r, r', q, pa, frame);
      if frame != 0 {
        ReturnSpare(frame);
        MapReturn(s, r', State(), q, pa, frame);
      }
    }

    /** A table entry, read through the window. */
    method ReadEntry(t: nat, i: nat) returns (w: nat)
      requires Base() && Closed() && IsFrame(t) && t in mem && |mem[t]| == ENTRIES && i < ENTRIES
      requires !(t == win.tab1 && i == 0)
      modifies this`mem
      ensures Base() && Closed() && mem == old(mem) && w == mem[t][i]
    {
      ghost var m := mem;
      Setup(t);
      EntryRoundTrip(t, false);
      w := Load(win.direct, i);
      Reset();
      WindowShut(m, mem, Entry(t, false));
    }

    /** The way down of `_unmap`: the tables on the way to the page, by level, the address its entry
        holds, and the level of that entry. Its assertions on presence and size hold. */
    method FindPage(va: nat, ghost q: seq<nat>) returns (tabPa: seq<nat>, lv: nat)
      requires Valid() && q == Idx(va) && IsPath(q) && q != DirectPath() && Leaf(mem, tabs, q) != Fault
      modifies this`mem
      ensures Valid() && mem == old(mem)
      ensures (lv == 1 || lv == 2) && WayTo(tabs, q, tabPa, lv)
      ensures Leaf(mem, tabs, q) == if lv == 1 then Small(tabPa[0]) else Big(tabPa[1])
      ensures q[..4 - lv + 1] !in tabs
    {
      assert q[..0] == [];
      tabPa := [0, 0, 0, 0, win.root];
      lv := 4;
      var huge := false;
      while lv >= 1
        invariant 1 <= lv <= 4 && !huge && Valid() && mem == old(mem) && WayTo(tabs, q, tabPa, lv)
        invariant lv == 1 ==> Leaf(mem, tabs, q).Small?
      {
        var i := FieldOf(va, lv);
        assert WayAt(tabs, q, tabPa, lv);
        var w := ReadOnWay(tabPa[lv], i, q, 4 - lv);
        assert Present(w);
        huge := Huge(w);
        assert huge ==> lv == 2;
        WayOn(tabs, q, tabPa, lv, Addr(w));
        lv := lv - 1;
        tabPa := tabPa[lv := Addr(w)];
        if huge || lv == 0 {
          break;
        }
      }
      lv := lv + 1;
    }

    method ReadOnWay(t: nat, i: nat, ghost q: seq<nat>, ghost n: nat) returns (w: nat)
      requires Valid() && IsPath(q) && q != DirectPath() && n < 4 && q[..n] in tabs && Leaf(mem, tabs, q) != Fault
      requires n == 3 ==> Leaf(mem, tabs, q).Small?
      requires t == tabs[q[..n]] && i == q[n]
      modifies this`mem
      ensures Valid() && mem == old(mem)
      ensures OnWay(q, n, w)
    {
      StepDown(q, n);
      assert TableOk(mem, tabs, q[..n]);
      NotWindowEntry(q, n);
      w := ReadEntry(t, i);
    }

    /** What an entry `w` at depth `n` on the way to a mapped page tells. */
    ghost predicate OnWay(q: seq<nat>, n: nat, w: nat)
      reads this
      requires |q| == 4 && n < 4
    {
      && Present(w)
      && (Huge(w) ==> n == 2 && q[..3] !in tabs && Leaf(mem, tabs, q) == Big(Addr(w)))
      && (!Huge(w) && n < 3 ==> q[..n + 1] in tabs && Addr(w) == tabs[q[..n + 1]])
      && (n == 3 ==> q !in tabs && q[..4] !in tabs && Leaf(mem, tabs, q) == Small(Addr(w)) && !Huge(w))
      && (q[..3] in tabs ==> Leaf(mem, tabs, q).Small?)
    }

    /** What the entry at depth `n` on the way to a mapped page holds. */
    lemma StepDown(q: seq<nat>, n: nat)
      requires Valid() && IsPath(q) && n < 4 && q[..n] in tabs && Leaf(mem, tabs, q) != Fault
      requires n == 3 ==> Leaf(mem, tabs, q).Small?
      ensures OnWay(q, n, Word(mem, tabs, q[..n], q[n]))
    {
      assert TableOk(mem, tabs, q[..n]);
      assert EntryOk(mem, tabs, q[..n], q[n]);
      assert q[..n] + [q[n]] == q[..n + 1];
      NoFifth(mem, tabs, q);
      if q[..n + 1] !in tabs {
        NoDeeper(mem, tabs, q, n + 1);
      }
    }

    /** How many frames a page whose entry is at level `lv` has. */
    static function Pieces(lv: nat): nat {
      if lv == 1 then 1 else 512
    }

    /** The frames of the page are handed to the free list, through the page itself. */
    method FreeData(va: nat, pa: nat, lv: nat)
      requires Valid() && (lv == 1 || lv == 2) && va % (PAGE * Pieces(lv)) == 0
      requires Translate(va) == if lv == 1 then Small(pa) else Big(pa)
      requires PageSpec.DataFrames(State(), pa, 0, Pieces(lv))
      modifies this`mem, this`freeHead, this`freeCount, this`free
      ensures Valid() && FreedSome(old(State()), State(), pa, Pieces(lv), Pieces(lv))
    {
      hide Mmu.Base, Mmu.Closed, FreedSome, TreeOk, Leaf, Walk, Idx, DataFrames;
      ghost var s, q := State(), Idx(va);
      WalkFindsLeaf(mem, tabs, q);
      FreedNone(s, pa, Pieces(lv));
      if lv == 1 {
        FreePiece(va, pa, 0, 1, s);
      } else {
        var i := 0;
        while i < 512
          invariant 0 <= i <= 512 && Valid() && FreedSome(s, State(), pa, i, 512)
        {
          PieceSeen(va, pa, i, s);
          FreePiece(va + PAGE * i, pa, i, 512, s);
          i := i + 1;
        }
      }
    }

    /** The pieces of a 2 MiB page are still where they were. */
    lemma PieceSeen(va: nat, pa: nat, i: nat, s: PState)
      requires Valid() && TreeOk(s.mem, s.tabs) && FreedSome(s, State(), pa, i, 512) && i < 512 && va % BIG_PAGE == 0
      requires Leaf(s.mem, s.tabs, Idx(va)) == Big(pa)
      ensures Translate(va + PAGE * i) != Fault && PhysicalByte(Translate(va + PAGE * i), va + PAGE * i) == Piece(pa, i)
    {
      var q, x := Idx(va), Idx(va + PAGE * i);
      BigPieces(va, i);
      assert IsPath(q) && IsPath(x) && x[..3] == q[..3];
      BigLeafShared(mem, tabs, q, x);
      WalkFindsLeaf(mem, tabs, x);
    }

    method FreePiece(va: nat, pa: nat, i: nat, ghost k: nat, ghost s: PState)
      requires Valid() && FreedSome(s, State(), pa, i, k) && i < k
      requires Translate(va) != Fault && PhysicalByte(Translate(va), va) == Piece(pa, i)
      modifies this`mem, this`freeHead, this`freeCount, this`free
      ensures Valid() && FreedSome(s, State(), pa, i + 1, k)
    {
      ghost var r := State();
      assert IsData(r, Piece(pa, i));
      FreedOne(s, r, PState(Put(mem, Piece(pa, i), 0, freeHead), tabs, [Piece(pa, i)] + free), pa, i, k, freeHead);
      WindowInValues();
      FrameFree(va, Piece(pa, i));
    }

    lemma WindowInValues()
      requires WindowTabs()
      ensures forall t :: win.On(t) ==> t in tabs.Values
    {
      assert tabs[[]] in tabs.Values && tabs[[256]] in tabs.Values;
      assert tabs[[256, 4]] in tabs.Values && tabs[[256, 4, 8]] in tabs.Values;
    }

    /** The way up of `_unmap`: entries are zeroed and empty tables freed until a table keeps an
        entry, which the root always does. */
    method WayUp(va: nat, tabPa: seq<nat>, lv0: nat, ghost q: seq<nat>, ghost s: PState, ghost data: seq<nat>)
      requires Base() && Closed() && WindowTabs() && q == Idx(va) && IsPath(q) && q != DirectPath()
      requires lv0 == 1 || lv0 == 2
      requires TreeOk(s.mem, s.tabs) && WindowIn(win.root, win.tab3, win.tab2, win.tab1, s.tabs)
      requires Unmapping(s, State(), q, 4 - lv0, 4 - lv0, data) && tabs == s.tabs && WayTo(tabs, q, tabPa, lv0)
      requires forall f :: f in free ==> f !in tabs.Values
      modifies this`mem, this`tabs, this`freeHead, this`freeCount, this`free
      ensures Valid() && UnmapEffect(s, State(), q, 4 - lv0, data)
    {
      hide Mmu.WindowTabs, TreeOk, UnmapEffect, Unmapping, Idx, FreeChain;
      ghost var n := 4 - lv0;
      ghost var us := tabs;
      var lv := lv0;
      var empty := true;
      while empty && lv <= 4
        invariant lv0 <= lv <= 5
        invariant empty ==> lv <= 4 && Base() && Closed() && WindowTabs()
        invariant empty ==> Unmapping(s, State(), q, n, 4 - lv, data)
        invariant empty ==> forall f :: f in free ==> f !in tabs.Values
        invariant !empty ==> Valid() && UnmapEffect(s, State(), q, n, data)
        decreases 5 - lv
      {
        var i := FieldOf(va, lv);
        assert WayAt(us, q, tabPa, lv);
        StillThere(s, q, n, 4 - lv, data);
        empty := UpRound(tabPa[lv], i, q, n, 4 - lv, s, data);
        lv := lv + 1;
      }
    }

    lemma StillThere(s: PState, q: seq<nat>, n: nat, m: nat, data: seq<nat>)
      requires Unmapping(s, State(), q, n, m, data)
      ensures |q| == 4 && m < 4 && q[..m] in tabs && q[..m] in s.tabs && tabs[q[..m]] == s.tabs[q[..m]]
    {
    }

    /** The table at depth `m` may be opened and its entry cleared, and its emptiness decides as `Kept`
        does. */
    lemma UpReady(q: seq<nat>, n: nat, m: nat, s: PState, data: seq<nat>)
      requires WindowTabs() && IsPath(q) && q != DirectPath() && Unmapping(s, State(), q, n, m, data)
      requires forall f :: f in free ==> f !in tabs.Values
      ensures q[..m] in tabs && m < 4 && q[m] < ENTRIES
      ensures var t := tabs[q[..m]];
              && IsFrame(t) && t in mem && |mem[t]| == ENTRIES && t !in free && !win.Fixed(t, q[m])
              && if Blank(mem[t][q[m] := 0]) && !win.On(t)
                 then m > 0 && Kept(s, q, m) == Kept(s, q, m - 1) && !OnWindow(q[..m])
                 else Kept(s, q, m) == m
    {
      NotWindowEntry(q, m);
      OnIsOnWindow(q[..m]);
      UnmapTest(s, State(), q, n, m, data);
      assert tabs[q[..m]] in tabs.Values;
    }

    method UpRound(t: nat, i: nat, ghost q: seq<nat>, ghost n: nat, ghost m: nat, ghost s: PState, ghost data: seq<nat>)
      returns (empty: bool)
      requires Base() && Closed() && WindowTabs() && IsPath(q) && q != DirectPath()
      requires TreeOk(s.mem, s.tabs) && WindowIn(win.root, win.tab3, win.tab2, win.tab1, s.tabs)
      requires Unmapping(s, State(), q, n, m, data) && t == tabs[q[..m]] && i == q[m]
      requires forall f :: f in free ==> f !in tabs.Values
      modifies this`mem, this`tabs, this`freeHead, this`freeCount, this`free
      ensures empty ==> m > 0 && Base() && Closed() && WindowTabs() && Unmapping(s, State(), q, n, m - 1, data)
      ensures empty ==> forall f :: f in free ==> f !in tabs.Values
      ensures !empty ==> Valid() && UnmapEffect(s, State(), q, n, data)
    {
      ghost var r := State();
      UpReady(q, n, m, s, data);
      empty := ClearEntry(t, i);
      if empty {
        Release(t, q, n, m, s, r, data);
      } else {
        UnmapStop(s, r, State(), q, n, m, data);
      }
    }

    /** The table just freed leaves the tree. */
    ghost method Release(t: nat, q: seq<nat>, n: nat, m: nat, s: PState, r: PState, data: seq<nat>)
      requires Base() && Closed() && WindowTabs() && IsPath(q) && TreeOk(s.mem, s.tabs)
      requires Unmapping(s, r, q, n, m, data) && m > 0 && Kept(s, q, m) == Kept(s, q, m - 1)
      requires tabs == r.tabs && t == tabs[q[..m]] && !OnWindow(q[..m])
      requires Blank(r.mem[t][q[m] := 0])
      requires t in mem && |mem[t]| == ENTRIES && mem == r.mem[t := mem[t]] && free == [t] + r.free
      requires forall f :: f in r.free ==> f !in tabs.Values
      modifies this`tabs
      ensures Base() && Closed() && WindowTabs() && Unmapping(s, State(), q, n, m - 1, data)
      ensures forall f :: f in free ==> f !in tabs.Values
    {
      UnmapUp(s, r, PState(mem, tabs - {q[..m]}, free), q, n, m, data, mem[t]);
      assert free[1..] == r.free;
      DropFromTree(q[..m]);
    }

    /** A freed table leaves the ghost tree; its frame now belongs to the free list. */
    ghost method DropFromTree(p: seq<nat>)
      requires WindowTabs() && p in tabs && !OnWindow(p)
      requires free != [] && tabs[p] == free[0] && forall f :: f in free[1..] ==> f !in tabs.Values
      modifies this`tabs
      ensures tabs == old(tabs) - {p} && WindowTabs()
      ensures forall f :: f in free ==> f !in tabs.Values
    {
      assert [256, 4, 8][..0] == [] && [256, 4, 8][..1] == [256];
      assert [256, 4, 8][..2] == [256, 4] && [256, 4, 8][..3] == [256, 4, 8];
      ghost var us := tabs;
      OwnFrame(us, p);
      tabs := tabs - {p};
      forall a, b | SameFrame(tabs, a, b) ensures a == b {
        assert SameFrame(us, a, b);
      }
      forall f | f in free ensures f !in tabs.Values {
        if f == free[0] {
          forall r | r in tabs ensures tabs[r] != f {
            assert us[r] == tabs[r];
          }
        } else {
          assert f in free[1..];
        }
      }
    }

    /** `_unmap`: returns the physical address the page was mapped to and removes exactly that page,
        releasing the tables it leaves empty; with `freeFrame` its frames are freed too. */
    method Unmap(va: nat, size: nat, freeFrame: bool) returns (pa: nat)
      requires Valid() && (size == PAGE || size == BIG_PAGE) && va % size == 0
      requires if size == PAGE then Translate(va).Small? else Translate(va).Big?
      requires freeFrame ==> PageSpec.DataFrames(State(), Translate(va).pa, 0, Pieces(Level(size)))
      modifies this`mem, this`tabs, this`freeHead, this`freeCount, this`free
      ensures Valid() && pa == old(PhysicalByte(Translate(va), va)) == old(Translate(va)).pa
      ensures UnmapEffect(old(State()), State(), Idx(va), 4 - Level(size), Freed(pa, Level(size), freeFrame))
      ensures FramesBack(old(free), free, |old(tabs)| - |tabs|, pa, if freeFrame then size / PAGE else 0) && NoDup(free)
      ensures freeFrame ==> PageBack(old(mem), win.root, va, 4 - Level(size), free)
      ensures forall vb: nat ::
                Translate(vb) == if SamePage(va, vb, 4 - Level(size)) then Fault else old(Translate(vb))
    {
      hide TreeOk, UnmapEffect, Idx, PageSpec.DataFrames, FramesBack, PageBack, EntryAt, Walk, Freed;
      ghost var s := State();
      var tabPa, lv;
      pa, tabPa, lv := Locate(va, size);
      EntryFound(Idx(va), tabPa, lv);
      Remove(va, tabPa, lv, pa, freeFrame, Idx(va), s);
      Removed(s, va, lv, pa, freeFrame);
    }

    lemma EntryFound(q: seq<nat>, tabPa: seq<nat>, lv: nat)
      requires Valid() && IsPath(q) && (lv == 1 || lv == 2) && WayTo(tabs, q, tabPa, lv) && q[..4 - lv + 1] !in tabs
      ensures EntryAt(State(), q, 4 - lv) && tabs[[]] == win.root
    {
      assert WayAt(tabs, q, tabPa, lv);
    }

    /** What has become of the page and of its frames. */
    lemma Removed(s: PState, va: nat, lv: nat, pa: nat, freeFrame: bool)
      requires Valid() && (lv == 1 || lv == 2) && EntryAt(s, Idx(va), 4 - lv) && s.tabs[[]] == win.root
      requires UnmapEffect(s, State(), Idx(va), 4 - lv, Freed(pa, lv, freeFrame))
      requires Walk(s.mem, win.root, Idx(va), 0) == if lv == 1 then Small(pa) else Big(pa)
      requires freeFrame ==> PageSpec.DataFrames(s, pa, 0, Pieces(lv))
      ensures FramesBack(s.free, free, |s.tabs| - |tabs|, pa, if freeFrame then Pieces(lv) else 0) && NoDup(free)
      ensures freeFrame ==> PageBack(s.mem, win.root, va, 4 - lv, free)
      ensures forall vb: nat ::
                Translate(vb) == if SamePage(va, vb, 4 - lv) then Fault else Walk(s.mem, win.root, Idx(vb), 0)
    {
      hide TreeOk, UnmapEffect, Idx, Walk, PageSpec.DataFrames, FramesBack, PageBack;
      UnmapSeen(s, State(), win.root, va, 4 - lv, Freed(pa, lv, freeFrame));
      UnmapGivesBack(s, State(), Idx(va), 4 - lv, pa, if freeFrame then Pieces(lv) else 0);
      if freeFrame {
        AllBack(s, va, lv, pa, |s.tabs| - |tabs|);
      }
    }

    /** Every frame of the page is back. */
    lemma AllBack(s: PState, va: nat, lv: nat, pa: nat, m: int)
      requires lv == 1 || lv == 2
      requires TreeOk(s.mem, s.tabs) && s.tabs[[]] == win.root && PageSpec.DataFrames(s, pa, 0, Pieces(lv))
      requires Walk(s.mem, win.root, Idx(va), 0) == if lv == 1 then Small(pa) else Big(pa)
      requires FramesBack(s.free, free, m, pa, Pieces(lv))
      ensures PageBack(s.mem, win.root, va, 4 - lv, free)
    {
      hide Walk, Leaf, TreeOk, Idx, FramesBack, FrameBack, SamePage;
      assert IsData(s, Piece(pa, 0));
      forall vb: nat | SamePage(va, vb, 4 - lv)
        ensures FrameBack(Walk(s.mem, win.root, Idx(vb), 0), vb, free)
      {
        SameMapping(s, va, vb, lv);
        FrameIsBack(s.free, free, m, Walk(s.mem, win.root, Idx(va), 0), vb);
      }
    }

    lemma SameMapping(s: PState, va: nat, vb: nat, lv: nat)
      requires TreeOk(s.mem, s.tabs) && s.tabs[[]] == win.root && (lv == 1 || lv == 2) && SamePage(va, vb, 4 - lv)
      requires if lv == 1 then Walk(s.mem, win.root, Idx(va), 0).Small? else Walk(s.mem, win.root, Idx(va), 0).Big?
      ensures Walk(s.mem, win.root, Idx(vb), 0) == Walk(s.mem, win.root, Idx(va), 0)
    {
      WalkFindsLeaf(s.mem, s.tabs, Idx(va));
      WalkFindsLeaf(s.mem, s.tabs, Idx(vb));
      SamePagePrefix(va, vb, 4 - lv);
      IdxIsPage(va, vb);
      if lv == 2 {
        assert Idx(vb)[..3] == Idx(va)[..3];
        BigLeafShared(s.mem, s.tabs, Idx(va), Idx(vb));
      }
    }

    /** The first half of `_unmap`: the way to the page, and its physical address. */
    method Locate(va: nat, size: nat) returns (pa: nat, tabPa: seq<nat>, lv: nat)
      requires Valid() && (size == PAGE || size == BIG_PAGE) && va % size == 0
      requires if size == PAGE then Translate(va).Small? else Translate(va).Big?
      modifies this`mem
      ensures Valid() && mem == old(mem) && lv == Level(size) && va % (PAGE * Pieces(lv)) == 0
      ensures var q := Idx(va); q != DirectPath() && WayTo(tabs, q, tabPa, lv) && q[..4 - lv + 1] !in tabs
      ensures Translate(va) == if lv == 1 then Small(pa) else Big(pa)
      ensures PhysicalByte(Translate(va), va) == pa
    {
      ghost var q := Idx(va);
      WalkFindsLeaf(mem, tabs, q);
      WindowFaults();
      tabPa, lv := FindPage(va, q);
      OffsetIsRemainder(va, lv);
      pa := tabPa[lv - 1] + PageOffset(va, lv);
    }

    method Remove(va: nat, tabPa: seq<nat>, lv: nat, pa: nat, freeFrame: bool, ghost q: seq<nat>, ghost s: PState)
      requires Valid() && s == State() && q == Idx(va) && IsPath(q) && q != DirectPath() && (lv == 1 || lv == 2)
      requires WayTo(tabs, q, tabPa, lv) && q[..4 - lv + 1] !in tabs && va % (PAGE * Pieces(lv)) == 0
      requires Translate(va) == if lv == 1 then Small(pa) else Big(pa)
      requires freeFrame ==> PageSpec.DataFrames(s, pa, 0, Pieces(lv))
      modifies this`mem, this`tabs, this`freeHead, this`freeCount, this`free
      ensures Valid() && UnmapEffect(s, State(), q, 4 - lv, Freed(pa, lv, freeFrame))
    {
      if freeFrame {
        FreeData(va, pa, lv);
        UnmapWith(va, tabPa, lv, q, s, PageFrames(pa, Pieces(lv)));
      } else {
        FreedNone(s, pa, 0);
        UnmapWith(va, tabPa, lv, q, s, PageFrames(pa, 0));
      }
    }

    /** The frames freed with a page whose entry is at level `lv`. */
    static function Freed(pa: nat, lv: nat, freeFrame: bool): seq<nat> {
      PageFrames(pa, if freeFrame then Pieces(lv) else 0)
    }

    /** The level of the entry that maps a page of the given size. */
    static function Level(size: nat): (lv: nat)
      ensures lv == 1 || lv == 2
    {
      if size == PAGE then 1 else 2
    }

    /** Nothing is mapped at the direct-access page between operations. */
    lemma WindowFaults()
      requires Valid()
      ensures Leaf(mem, tabs, DirectPath()) == Fault
    {
      assert DirectPath()[..3] == [256, 4, 8];
    }

    method UnmapWith(va: nat, tabPa: seq<nat>, lv: nat, ghost q: seq<nat>, ghost s: PState, ghost data: seq<nat>)
      requires Valid() && q == Idx(va) && IsPath(q) && q != DirectPath() && (lv == 1 || lv == 2)
      requires TreeOk(s.mem, s.tabs) && s.tabs == tabs && WayTo(tabs, q, tabPa, lv) && q[..4 - lv + 1] !in tabs
      requires free == data + s.free && SameLeaves(s.mem, tabs, mem, tabs)
      requires TablesKept(s, State()) && OtherDataKept(s, State(), data)
      modifies this`mem, this`tabs, this`freeHead, this`freeCount, this`free
      ensures Valid() && UnmapEffect(s, State(), q, 4 - lv, data)
    {
      assert WayAt(tabs, q, tabPa, lv);
      UnmapStart(s, State(), q, 4 - lv, data);
      WayUp(va, tabPa, lv, q, s, data);
    }
  }
}
