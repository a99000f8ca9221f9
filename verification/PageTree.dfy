/** Page tables in physical frames: the hardware walk over them, the tree they form, and what
    writing one entry does to the translation. */
module PageTree {
  import opened Words
  import opened PageWords

  /** Physical memory: frames of 512 words, by physical address. */
  type Frames = map<nat, seq<nat>>

  /** What the processor finds for a page: a fault, or a page of 4 KiB, 2 MiB or 1 GiB. */
  datatype Mapping = Fault | Small(pa: nat) | Big(pa: nat) | Giant(pa: nat)

  /** Bits 51:12, 51:21 and 51:30 of an entry. */
  function FrameBits(w: nat): nat {
    w / PAGE % 0x100_0000_0000 * PAGE
  }

  function BigBits(w: nat): nat {
    w / BIG_PAGE % 0x8000_0000 * BIG_PAGE
  }

  function GiantBits(w: nat): nat {
    w / 0x4000_0000 % 0x40_0000 * 0x4000_0000
  }

  /** The walk of section 4.5 (4-level paging) of the Intel SDM, Volume 3A, from the table `t` that
      the index `q[n]` selects from: a set size bit ends it early, and is reserved in the root. */
  function Walk(mem: Frames, t: nat, q: seq<nat>, n: nat): Mapping
    requires |q| == 4 && n < 4
    decreases 4 - n
  {
    if t !in mem || q[n] >= |mem[t]| then Fault
    else
      var w := mem[t][q[n]];
      if !Present(w) then Fault
      else if n == 3 then Small(FrameBits(w))
      else if !Huge(w) then Walk(mem, FrameBits(w), q, n + 1)
      else if n == 2 then Big(BigBits(w))
      else if n == 1 then Giant(GiantBits(w))
      else Fault
  }

  /** The physical address behind a byte. */
  function PhysicalByte(m: Mapping, va: nat): nat
    requires m != Fault
  {
    match m
    case Small(pa) => pa + va % PAGE
    case Big(pa) => pa + va % BIG_PAGE
    case Giant(pa) => pa + va % 0x4000_0000
  }

  // ---------------------------------------------------------------------------------------------
  // The tree
  // ---------------------------------------------------------------------------------------------

  /** The frame of each table, by the indices that lead to it from the root. */
  type Tabs = map<seq<nat>, nat>

  predicate IsFrame(pa: nat) {
    0 < pa < PHYS && pa % PAGE == 0
  }

  /** Word `i` of the table at `p`. */
  function Word(mem: Frames, tabs: Tabs, p: seq<nat>, i: nat): nat {
    if p in tabs && tabs[p] in mem && i < |mem[tabs[p]]| then mem[tabs[p]][i] else 0
  }

  /** An entry with the present and the R/W bit, whose address field is below the bits the kernel leaves
      clear. */
  predicate Live(w: nat) {
    Present(w) && Writable(w) && w < 0x10_0000_0000_0000
  }

  /** What an entry that leads to no table may hold, in a table reached by `n` indices. */
  predicate LeafWord(n: nat, w: nat) {
    || w == 0
    || (n == 3 && Live(w) && !Huge(w))
    || (n == 2 && Live(w) && Huge(w) && Addr(w) % BIG_PAGE == 0)
  }

  ghost predicate EntryOk(mem: Frames, tabs: Tabs, p: seq<nat>, i: nat) {
    var w := Word(mem, tabs, p, i);
    if p + [i] in tabs then Live(w) && !Huge(w) && Addr(w) == tabs[p + [i]]
    else LeafWord(|p|, w)
  }

  ghost predicate TableOk(mem: Frames, tabs: Tabs, p: seq<nat>)
    requires p in tabs
  {
    && |p| <= 3
    && (|p| > 0 ==> p[..|p| - 1] in tabs && p[|p| - 1] < ENTRIES)
    && IsFrame(tabs[p]) && tabs[p] in mem && |mem[tabs[p]]| == ENTRIES
    && forall i :: 0 <= i < ENTRIES ==> EntryOk(mem, tabs, p, i)
  }

  ghost predicate Injective(tabs: Tabs) {
    forall p, q {:trigger SameFrame(tabs, p, q)} :: SameFrame(tabs, p, q) ==> p == q
  }

  predicate SameFrame(tabs: Tabs, p: seq<nat>, q: seq<nat>) {
    p in tabs && q in tabs && tabs[p] == tabs[q]
  }

  /** No other table is in the frame of `p`. */
  lemma OwnFrame(tabs: Tabs, p: seq<nat>)
    requires Injective(tabs) && p in tabs
    ensures forall r {:trigger tabs[r]} :: r in tabs && tabs[r] == tabs[p] ==> r == p
  {
    forall r | r in tabs && tabs[r] == tabs[p] ensures r == p {
      assert SameFrame(tabs, r, p);
    }
  }

  /** Each table but the root hangs on exactly one entry, every other entry is zero or maps a page. */
  ghost predicate TreeOk(mem: Frames, tabs: Tabs) {
    [] in tabs && Injective(tabs) && forall p {:trigger TableOk(mem, tabs, p)} :: p in tabs ==> TableOk(mem, tabs, p)
  }

  function LeafOf(n: nat, w: nat): Mapping {
    if !Present(w) then Fault else if n == 3 then Small(Addr(w)) else Big(Addr(w))
  }

  /** What the tree maps a page to. */
  function Leaf(mem: Frames, tabs: Tabs, q: seq<nat>): Mapping
    requires |q| == 4
  {
    if q[..3] in tabs then LeafOf(3, Word(mem, tabs, q[..3], q[3]))
    else if q[..2] in tabs then LeafOf(2, Word(mem, tabs, q[..2], q[2]))
    else Fault
  }

  ghost predicate IsPath(q: seq<nat>) {
    |q| == 4 && forall k :: 0 <= k < 4 ==> q[k] < ENTRIES
  }

  lemma LiveFields(w: nat)
    requires Live(w)
    ensures FrameBits(w) == Addr(w)
    ensures Addr(w) % BIG_PAGE == 0 ==> BigBits(w) == Addr(w)
  {
    AddrBits(w);
    var p := w / PAGE;
    ModIs(w, 0x1000_0000_0000_0000, 0, w);
    ModIs(p, 0x100_0000_0000, 0, p);
    assert Addr(w) == p * PAGE;
    if Addr(w) % BIG_PAGE == 0 {
      BigFieldIs(w, p, Addr(w) / BIG_PAGE);
    }
  }

  lemma BigFieldIs(w: nat, p: nat, h: nat)
    requires p == w / PAGE && p * PAGE == BIG_PAGE * h && w < 0x10_0000_0000_0000
    ensures BigBits(w) == p * PAGE
  {
    ModIs(w, BIG_PAGE, h, w % PAGE);
    ModIs(h, 0x8000_0000, 0, h);
  }

  lemma Prefixes(mem: Frames, tabs: Tabs, q: seq<nat>, n: nat)
    requires TreeOk(mem, tabs) && |q| == 4 && 0 < n <= 3
    ensures q[..n] in tabs ==> q[..n - 1] in tabs
    ensures q[..n] == q[..n - 1] + [q[n - 1]]
  {
    if q[..n] in tabs {
      assert TableOk(mem, tabs, q[..n]);
      assert q[..n][..n - 1] == q[..n - 1];
    }
  }

  lemma ChildIsLive(mem: Frames, tabs: Tabs, p: seq<nat>, i: nat)
    requires TreeOk(mem, tabs)
    ensures p + [i] in tabs ==> p in tabs && i < ENTRIES && Live(Word(mem, tabs, p, i))
  {
    if p + [i] in tabs {
      assert TableOk(mem, tabs, p + [i]);
      assert (p + [i])[..|p|] == p;
      assert TableOk(mem, tabs, p);
      assert EntryOk(mem, tabs, p, i);
    }
  }

  /** The hardware walk finds what the tree maps. */
  lemma WalkFindsLeaf(mem: Frames, tabs: Tabs, q: seq<nat>)
    requires TreeOk(mem, tabs) && IsPath(q)
    ensures Walk(mem, tabs[[]], q, 0) == Leaf(mem, tabs, q)
  {
    assert q[..0] == [];
    WalkFrom(mem, tabs, q, 0);
  }

  lemma {:induction false} WalkFrom(mem: Frames, tabs: Tabs, q: seq<nat>, n: nat)
    requires TreeOk(mem, tabs) && IsPath(q) && n < 4 && q[..n] in tabs
    ensures Walk(mem, tabs[q[..n]], q, n) == Leaf(mem, tabs, q)
    decreases 4 - n
  {
    var p, i := q[..n], q[n];
    assert TableOk(mem, tabs, p);
    assert EntryOk(mem, tabs, p, i);
    assert q[..n + 1] == p + [i];
    var w := Word(mem, tabs, p, i);
    if Live(w) {
      LiveFields(w);
    }
    if p + [i] in tabs {
      assert TableOk(mem, tabs, p + [i]);
      WalkFrom(mem, tabs, q, n + 1);
    } else {
      NoDeeper(mem, tabs, q, n + 1);
    }
  }

  lemma NoDeeper(mem: Frames, tabs: Tabs, q: seq<nat>, n: nat)
    requires TreeOk(mem, tabs) && |q| == 4 && 0 < n <= 4 && q[..n] !in tabs
    ensures forall m :: n <= m <= 3 ==> q[..m] !in tabs
  {
    if n <= 2 {
      Prefixes(mem, tabs, q, 3);
      if n == 1 {
        Prefixes(mem, tabs, q, 2);
      }
    }
  }

  /** Whether the same walk lets the page be written: section 4.6.1 (Determination of Access Rights) asks for
      the R/W bit of every entry used. */
  function MayWrite(mem: Frames, t: nat, q: seq<nat>, n: nat): bool
    requires |q| == 4 && n < 4
    decreases 4 - n
  {
    t in mem && q[n] < |mem[t]| &&
    var w := mem[t][q[n]];
    Present(w) && Writable(w) && (n < 3 && !Huge(w) ==> MayWrite(mem, FrameBits(w), q, n + 1))
  }

  /** Every page that is mapped may be written. */
  lemma MappedIsWritable(mem: Frames, tabs: Tabs, q: seq<nat>)
    requires TreeOk(mem, tabs) && IsPath(q)
    ensures MayWrite(mem, tabs[[]], q, 0) <==> Walk(mem, tabs[[]], q, 0) != Fault
  {
    assert q[..0] == [];
    WritableFrom(mem, tabs, q, 0);
  }

  lemma {:induction false} WritableFrom(mem: Frames, tabs: Tabs, q: seq<nat>, n: nat)
    requires TreeOk(mem, tabs) && IsPath(q) && n < 4 && q[..n] in tabs
    ensures MayWrite(mem, tabs[q[..n]], q, n) <==> Walk(mem, tabs[q[..n]], q, n) != Fault
    decreases 4 - n
  {
    hide Addr, FrameBits, BigBits, GiantBits, Injective;
    assert TableOk(mem, tabs, q[..n]);
    assert EntryOk(mem, tabs, q[..n], q[n]);
    assert q[..n + 1] == q[..n] + [q[n]];
    var w := Word(mem, tabs, q[..n], q[n]);
    if q[..n + 1] in tabs {
      assert TableOk(mem, tabs, q[..n + 1]);
      LiveFields(w);
      WritableFrom(mem, tabs, q, n + 1);
    } else {
      WritableEnd(mem, tabs[q[..n]], q, n);
    }
  }

  /** The walk ends at an entry that is zero or maps a page. */
  lemma WritableEnd(mem: Frames, t: nat, q: seq<nat>, n: nat)
    requires |q| == 4 && n < 4 && t in mem && q[n] < |mem[t]| && LeafWord(n, mem[t][q[n]])
    ensures MayWrite(mem, t, q, n) <==> Walk(mem, t, q, n) != Fault
  {
  }

  // ---------------------------------------------------------------------------------------------
  // Writing entries
  // ---------------------------------------------------------------------------------------------

  function Put(mem: Frames, t: nat, i: nat, w: nat): Frames
    requires t in mem && i < |mem[t]|
  {
    var words: seq<nat> := mem[t][i := w];
    mem[t := words]
  }

  /** The mapping of `q` once entry `i` of the table at `p`, which leads to no table, holds `w`. */
  function LeafAfterPut(mem: Frames, tabs: Tabs, p: seq<nat>, i: nat, w: nat, q: seq<nat>): Mapping
    requires |q| == 4
  {
    if p + [i] <= q then LeafOf(|p|, w) else Leaf(mem, tabs, q)
  }

  /** Writing an entry that leads to no table changes the mapping of exactly the pages under it. */
  lemma PutLeaf(mem: Frames, tabs: Tabs, p: seq<nat>, i: nat, w: nat)
    requires TreeOk(mem, tabs) && p in tabs && i < ENTRIES && p + [i] !in tabs
    requires LeafWord(|p|, w)
    ensures tabs[p] in mem && |mem[tabs[p]]| == ENTRIES
    ensures TreeOk(Put(mem, tabs[p], i, w), tabs)
    ensures forall q :: IsPath(q) ==>
              Leaf(Put(mem, tabs[p], i, w), tabs, q) == LeafAfterPut(mem, tabs, p, i, w, q)
  {
    assert TableOk(mem, tabs, p);
    OwnFrame(tabs, p);
    var m := Put(mem, tabs[p], i, w);
    forall r | r in tabs ensures TableOk(m, tabs, r) {
      assert TableOk(mem, tabs, r);
      forall j | 0 <= j < ENTRIES ensures EntryOk(m, tabs, r, j) {
        assert EntryOk(mem, tabs, r, j);
      }
    }
    forall q | IsPath(q)
      ensures Leaf(m, tabs, q) == LeafAfterPut(mem, tabs, p, i, w, q)
    {
      PutLeafAt(mem, tabs, p, i, w, q);
    }
  }

  lemma PutLeafAt(mem: Frames, tabs: Tabs, p: seq<nat>, i: nat, w: nat, q: seq<nat>)
    requires TreeOk(mem, tabs) && p in tabs && i < ENTRIES && p + [i] !in tabs && IsPath(q)
    requires LeafWord(|p|, w) && tabs[p] in mem && |mem[tabs[p]]| == ENTRIES
    ensures Leaf(Put(mem, tabs[p], i, w), tabs, q) == LeafAfterPut(mem, tabs, p, i, w, q)
  {
    assert TableOk(mem, tabs, p);
    OwnFrame(tabs, p);
    if p + [i] <= q {
      var n := |p|;
      assert q[..n] == p && q[n] == i && q[..n + 1] == p + [i];
      NoDeeper(mem, tabs, q, n + 1);
    } else {
      assert q[..3] == p ==> q == p + [q[3]];
      assert q[..2] == p ==> q[..3] == p + [q[2]] && q[..3] <= q;
    }
  }

  ghost predicate Blank(words: seq<nat>) {
    |words| == ENTRIES && forall i :: 0 <= i < ENTRIES ==> words[i] == 0
  }

  /** Hanging a blank table on a zero entry changes no mapping. */
  lemma AddTable(mem: Frames, tabs: Tabs, p: seq<nat>, i: nat, f: nat, w: nat)
    requires TreeOk(mem, tabs) && p in tabs && |p| < 3 && i < ENTRIES
    requires Word(mem, tabs, p, i) == 0
    requires IsFrame(f) && f in mem && Blank(mem[f]) && f !in tabs.Values
    requires Live(w) && !Huge(w) && Addr(w) == f
    ensures tabs[p] in mem && |mem[tabs[p]]| == ENTRIES && p + [i] !in tabs
    ensures TreeOk(Put(mem, tabs[p], i, w), tabs[p + [i] := f])
    ensures forall q :: IsPath(q) ==>
              Leaf(Put(mem, tabs[p], i, w), tabs[p + [i] := f], q) == Leaf(mem, tabs, q)
  {
    assert TableOk(mem, tabs, p) && EntryOk(mem, tabs, p, i);
    var m, us := Put(mem, tabs[p], i, w), tabs[p + [i] := f];
    OwnFrame(tabs, p);
    forall a, b | SameFrame(us, a, b) ensures a == b {
      assert SameFrame(tabs, a, b) || a == p + [i] || b == p + [i];
    }
    forall r | r in us ensures TableOk(m, us, r) {
      if r == p + [i] {
        forall j | 0 <= j < ENTRIES ensures EntryOk(m, us, r, j) {
          ChildIsLive(mem, tabs, r, j);
        }
        assert r[..|r| - 1] == p;
      } else {
        assert TableOk(mem, tabs, r);
        forall j | 0 <= j < ENTRIES ensures EntryOk(m, us, r, j) {
          assert EntryOk(mem, tabs, r, j);
          assert r + [j] == p + [i] ==> r == p && j == i by {
            if r + [j] == p + [i] {
              assert (r + [j])[..|r|] == r && (p + [i])[..|p|] == p;
            }
          }
        }
      }
    }
    forall q | IsPath(q) ensures Leaf(m, us, q) == Leaf(mem, tabs, q) {
      AddTableAt(mem, tabs, p, i, f, w, q);
    }
  }

  lemma AddTableAt(mem: Frames, tabs: Tabs, p: seq<nat>, i: nat, f: nat, w: nat, q: seq<nat>)
    requires TreeOk(mem, tabs) && p in tabs && |p| < 3 && i < ENTRIES
    requires tabs[p] in mem && |mem[tabs[p]]| == ENTRIES && p + [i] !in tabs
    requires Word(mem, tabs, p, i) == 0
    requires f in mem && Blank(mem[f]) && f !in tabs.Values
    requires IsPath(q)
    ensures Leaf(Put(mem, tabs[p], i, w), tabs[p + [i] := f], q) == Leaf(mem, tabs, q)
  {
    var n := |p|;
    OwnFrame(tabs, p);
    if p + [i] <= q {
      assert q[..n] == p && q[n] == i && q[..n + 1] == p + [i];
      NoDeeper(mem, tabs, q, n + 1);
    } else {
      assert q[..3] != p + [i] && q[..2] != p + [i] by {
        assert q[..3] <= q && q[..2] <= q;
      }
      assert q[..2] == p ==> q[..3] == p + [q[2]];
    }
  }

  lemma NotBelowBlank(mem: Frames, tabs: Tabs, p: seq<nat>, r: seq<nat>)
    requires TreeOk(mem, tabs) && p in tabs && tabs[p] in mem && Blank(mem[tabs[p]])
    requires r in tabs && |r| > 0
    ensures r[..|r| - 1] != p
  {
    var up, i := r[..|r| - 1], r[|r| - 1];
    assert r == up + [i];
    ChildIsLive(mem, tabs, up, i);
  }

  lemma PrefixSplit(p: seq<nat>, q: seq<nat>)
    requires 0 < |p| <= |q|
    ensures p <= q <==> p[..|p| - 1] <= q && q[|p| - 1] == p[|p| - 1]
  {
    assert p == p[..|p| - 1] + [p[|p| - 1]];
  }

  /** Taking a blank table off its entry, whatever its frame is then used for, changes no mapping. */
  lemma DropTable(mem: Frames, tabs: Tabs, p: seq<nat>, words: seq<nat>)
    requires TreeOk(mem, tabs) && p in tabs && p != [] && tabs[p] in mem && Blank(mem[tabs[p]])
    requires |words| == ENTRIES
    ensures var up, i := p[..|p| - 1], p[|p| - 1];
            && up in tabs && tabs[up] in mem && |mem[tabs[up]]| == ENTRIES && i < ENTRIES
            && tabs[up] != tabs[p]
            && var m := Put(mem, tabs[up], i, 0)[tabs[p] := words];
               && TreeOk(m, tabs - {p})
               && forall q :: IsPath(q) ==> Leaf(m, tabs - {p}, q) == Leaf(mem, tabs, q)
  {
    var up, i := p[..|p| - 1], p[|p| - 1];
    assert TableOk(mem, tabs, p) && TableOk(mem, tabs, up);
    assert p == up + [i];
    assert EntryOk(mem, tabs, up, i);
    var m, us := Put(mem, tabs[up], i, 0)[tabs[p] := words], tabs - {p};
    OwnFrame(tabs, p);
    OwnFrame(tabs, up);
    forall a, b | SameFrame(us, a, b) ensures a == b {
      assert SameFrame(tabs, a, b);
    }
    forall r | r in us ensures TableOk(m, us, r) {
      assert TableOk(mem, tabs, r);
      if |r| > 0 {
        NotBelowBlank(mem, tabs, p, r);
      }
      forall j | 0 <= j < ENTRIES ensures EntryOk(m, us, r, j) {
        assert EntryOk(mem, tabs, r, j);
        if r + [j] == p {
          assert (r + [j])[..|r|] == r;
        }
      }
    }
    forall q | IsPath(q) ensures Leaf(m, us, q) == Leaf(mem, tabs, q) {
      DropTableAt(mem, tabs, p, words, q);
    }
  }

  lemma DropTableAt(mem: Frames, tabs: Tabs, p: seq<nat>, words: seq<nat>, q: seq<nat>)
    requires TreeOk(mem, tabs) && p in tabs && p != [] && tabs[p] in mem && Blank(mem[tabs[p]])
    requires |words| == ENTRIES && IsPath(q)
    requires var up, i := p[..|p| - 1], p[|p| - 1];
             up in tabs && tabs[up] in mem && |mem[tabs[up]]| == ENTRIES && i < ENTRIES && tabs[up] != tabs[p]
    ensures var m := Put(mem, tabs[p[..|p| - 1]], p[|p| - 1], 0)[tabs[p] := words];
            Leaf(m, tabs - {p}, q) == Leaf(mem, tabs, q)
  {
    var n := |p|;
    var up, i := p[..n - 1], p[n - 1];
    assert TableOk(mem, tabs, p);
    OwnFrame(tabs, p);
    OwnFrame(tabs, up);
    PrefixSplit(p, q);
    if p <= q {
      assert q[..n] == p && q[..n - 1] == up;
      if n < 3 {
        assert EntryOk(mem, tabs, p, q[n]);
        assert q[..n + 1] == p + [q[n]];
        NoDeeper(mem, tabs, q, n + 1);
      }
    } else {
      assert q[..3] != p && q[..2] != p by {
        assert q[..3] <= q && q[..2] <= q;
      }
    }
  }

  // ---------------------------------------------------------------------------------------------
  // Comparing trees
  // ---------------------------------------------------------------------------------------------

  ghost predicate SameLeaves(m: Frames, us: Tabs, m': Frames, us': Tabs) {
    forall q :: IsPath(q) ==> Leaf(m', us', q) == Leaf(m, us, q)
  }

  /** A frame that is no table may change at will. */
  lemma OtherFrame(mem: Frames, tabs: Tabs, f: nat, words: seq<nat>)
    requires TreeOk(mem, tabs) && f !in tabs.Values
    ensures TreeOk(mem[f := words], tabs) && SameLeaves(mem, tabs, mem[f := words], tabs)
  {
    var m := mem[f := words];
    forall p | p in tabs ensures TableOk(m, tabs, p) {
      assert TableOk(mem, tabs, p);
      assert tabs[p] in tabs.Values;
      forall i | 0 <= i < ENTRIES ensures EntryOk(m, tabs, p, i) {
        assert EntryOk(mem, tabs, p, i);
      }
    }
    forall q | IsPath(q) ensures Leaf(m, tabs, q) == Leaf(mem, tabs, q) {
      assert q[..3] in tabs ==> tabs[q[..3]] in tabs.Values;
      assert q[..2] in tabs ==> tabs[q[..2]] in tabs.Values;
    }
  }

  /** A page that faults has a zero entry where its walk ends. */
  lemma FaultIsZero(mem: Frames, tabs: Tabs, q: seq<nat>, n: nat)
    requires TreeOk(mem, tabs) && IsPath(q) && n < 4 && q[..n] in tabs && q[..n + 1] !in tabs
    requires Leaf(mem, tabs, q) == Fault
    ensures Word(mem, tabs, q[..n], q[n]) == 0
  {
    assert TableOk(mem, tabs, q[..n]);
    assert EntryOk(mem, tabs, q[..n], q[n]);
    assert q[..n] + [q[n]] == q[..n + 1];
    NoDeeper(mem, tabs, q, n + 1);
  }

  /** An entry on the way to a table leads to it. */
  lemma LinkLeads(mem: Frames, tabs: Tabs, q: seq<nat>, n: nat)
    requires TreeOk(mem, tabs) && IsPath(q) && n < 3 && q[..n + 1] in tabs
    ensures q[..n] in tabs
    ensures var w := Word(mem, tabs, q[..n], q[n]); Live(w) && !Huge(w) && Addr(w) == tabs[q[..n + 1]]
  {
    Prefixes(mem, tabs, q, n + 1);
    assert TableOk(mem, tabs, q[..n]);
    assert EntryOk(mem, tabs, q[..n], q[n]);
  }

  lemma NoFifth(mem: Frames, tabs: Tabs, q: seq<nat>)
    requires TreeOk(mem, tabs) && |q| == 4
    ensures q !in tabs && q[..4] !in tabs
  {
    assert q[..4] == q;
    forall p | p in tabs ensures |p| <= 3 {
      assert TableOk(mem, tabs, p);
    }
  }

  /** Hanging a table that is blank, on an entry that is zero, in one step with blanking its frame. */
  lemma AddFreshTable(mem: Frames, tabs: Tabs, p: seq<nat>, i: nat, f: nat, blank: seq<nat>)
    requires TreeOk(mem, tabs) && p in tabs && |p| < 3 && i < ENTRIES && Word(mem, tabs, p, i) == 0
    requires IsFrame(f) && f !in tabs.Values && Blank(blank)
    ensures tabs[p] != f && tabs[p] in mem && |mem[tabs[p]]| == ENTRIES && p + [i] !in tabs
    ensures var m, us := Put(mem[f := blank], tabs[p], i, Entry(f, false)), tabs[p + [i] := f];
            TreeOk(m, us) && SameLeaves(mem, tabs, m, us)
  {
    assert TableOk(mem, tabs, p);
    assert tabs[p] in tabs.Values;
    OtherFrame(mem, tabs, f, blank);
    EntryRoundTrip(f, false);
    AddTable(mem[f := blank], tabs, p, i, f, Entry(f, false));
  }
}
