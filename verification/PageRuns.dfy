/** Properties of the page tables and the free frames over whole runs of maps and unmaps. */
module PageRuns {
  import opened PageWords
  import opened PageTree
  import opened PageSpec

  /** Every table but those of the direct-access page holds an entry. */
  ghost predicate NoEmpty(s: PState) {
    forall p {:trigger OnWindow(p)} :: p in s.tabs && !OnWindow(p) ==> s.tabs[p] in s.mem && !Blank(s.mem[s.tabs[p]])
  }

  ghost predicate Sound(s: PState) {
    TreeOk(s.mem, s.tabs) && [256, 4, 8] in s.tabs
  }

  // ---------------------------------------------------------------------------------------------
  // The translation determines the tables
  // ---------------------------------------------------------------------------------------------

  lemma {:induction false} HasLeaf(s: PState, p: seq<nat>) returns (q: seq<nat>)
    requires TreeOk(s.mem, s.tabs) && NoEmpty(s) && p in s.tabs && !OnWindow(p)
    ensures IsPath(q) && p <= q && Leaf(s.mem, s.tabs, q) != Fault
    ensures |p| == 3 ==> Leaf(s.mem, s.tabs, q).Small?
    decreases 3 - |p|
  {
    assert TableOk(s.mem, s.tabs, p);
    var words := s.mem[s.tabs[p]];
    var j: nat :| j < ENTRIES && words[j] != 0;
    q := LeafBelow(s, p, j);
  }

  lemma {:induction false} LeafBelow(s: PState, p: seq<nat>, j: nat) returns (q: seq<nat>)
    requires TreeOk(s.mem, s.tabs) && NoEmpty(s) && p in s.tabs && |p| <= 3
    requires !OnWindow(p + [j]) && j < ENTRIES && Word(s.mem, s.tabs, p, j) != 0
    ensures IsPath(q) && p + [j] <= q && Leaf(s.mem, s.tabs, q) != Fault
    ensures |p| == 3 ==> Leaf(s.mem, s.tabs, q).Small?
    decreases 3 - |p|, 0
  {
    assert TableOk(s.mem, s.tabs, p);
    assert EntryOk(s.mem, s.tabs, p, j);
    if p + [j] in s.tabs {
      assert TableOk(s.mem, s.tabs, p + [j]);
      var words := s.mem[s.tabs[p + [j]]];
      var i: nat :| i < ENTRIES && words[i] != 0;
      assert !OnWindow(p + [j] + [i]) by {
        assert (p + [j] + [i])[..|p| + 1] == p + [j];
      }
      q := LeafBelow(s, p + [j], i);
      assert (p + [j] + [i])[..|p| + 1] == p + [j];
    } else {
      PathBounds(s, p);
      q := p + [j] + (if |p| == 3 then [] else [0]);
      assert q[..|p| + 1] == p + [j] && q[..|p|] == p;
    }
  }

  lemma {:induction false} PathBounds(s: PState, p: seq<nat>)
    requires TreeOk(s.mem, s.tabs) && p in s.tabs
    ensures forall k :: 0 <= k < |p| ==> p[k] < ENTRIES
    decreases |p|
  {
    assert TableOk(s.mem, s.tabs, p);
    if |p| > 0 {
      PathBounds(s, p[..|p| - 1]);
    }
  }

  /** A mapped page has its tables, the lowest one too if it is a 4 KiB page. */
  lemma LeafHasTables(s: PState, q: seq<nat>, n: nat)
    requires TreeOk(s.mem, s.tabs) && IsPath(q) && Leaf(s.mem, s.tabs, q) != Fault
    requires n <= 2 || (n == 3 && Leaf(s.mem, s.tabs, q).Small?)
    ensures q[..n] in s.tabs
  {
    Prefixes(s.mem, s.tabs, q, 3);
    Prefixes(s.mem, s.tabs, q, 2);
    Prefixes(s.mem, s.tabs, q, 1);
    assert q[..0] == [];
  }

  lemma TablesIncluded(s: PState, r: PState, p: seq<nat>)
    requires Sound(s) && NoEmpty(s) && Sound(r) && SameLeaves(s.mem, s.tabs, r.mem, r.tabs)
    requires p in s.tabs
    ensures p in r.tabs
  {
    if OnWindow(p) {
      WindowTable(r, p);
    } else {
      var q := HasLeaf(s, p);
      assert TableOk(s.mem, s.tabs, p);
      LeafHasTables(r, q, |p|);
      assert q[..|p|] == p;
    }
  }

  lemma WindowTable(s: PState, p: seq<nat>)
    requires Sound(s) && OnWindow(p)
    ensures p in s.tabs
  {
    var w := [256, 4, 8];
    assert p == w[..|p|];
    assert w[..3] == w && w[..3][..2] == w[..2] && w[..2][..1] == w[..1] && w[..1][..0] == w[..0] == [];
    assert TableOk(s.mem, s.tabs, w);
    assert TableOk(s.mem, s.tabs, w[..2]);
  }

  /** With no empty table, the translation alone determines which tables exist, whatever was mapped
      and unmapped before. */
  lemma TablesDetermined(s: PState, r: PState)
    requires Sound(s) && NoEmpty(s) && Sound(r) && NoEmpty(r)
    requires SameLeaves(s.mem, s.tabs, r.mem, r.tabs)
    ensures s.tabs.Keys == r.tabs.Keys
  {
    forall p | p in s.tabs ensures p in r.tabs {
      TablesIncluded(s, r, p);
    }
    forall p | p in r.tabs ensures p in s.tabs {
      TablesIncluded(r, s, p);
    }
  }

  // ---------------------------------------------------------------------------------------------
  // No empty table is left behind
  // ---------------------------------------------------------------------------------------------

  lemma MappedNotBlank(s: PState, p: seq<nat>, q: seq<nat>)
    requires TreeOk(s.mem, s.tabs) && IsPath(q) && p <= q && |p| <= 3 && p in s.tabs
    requires Leaf(s.mem, s.tabs, q) != Fault
    ensures s.tabs[p] in s.mem && !Blank(s.mem[s.tabs[p]])
  {
    var n := |p|;
    assert TableOk(s.mem, s.tabs, p);
    assert EntryOk(s.mem, s.tabs, p, q[n]);
    assert q[..n] == p && q[..n + 1] == p + [q[n]];
    if Word(s.mem, s.tabs, p, q[n]) == 0 {
      NoDeeper(s.mem, s.tabs, q, n + 1);
    }
  }

  /** The entry on the way to `q` is where `q` faults. */
  lemma MapKeepsNoEmpty(s: PState, r: PState, q: seq<nat>, pa: nat)
    requires Sound(s) && NoEmpty(s) && Sound(r) && IsPath(q) && Leaf(s.mem, s.tabs, q) == Fault
    requires MapEffect(s, r, q, pa, true)
    ensures NoEmpty(r)
  {
    GrownKeeps(s.tabs, q, s.free, 3);
    forall p | p in r.tabs && !OnWindow(p) ensures r.tabs[p] in r.mem && !Blank(r.mem[r.tabs[p]]) {
      assert TableOk(r.mem, r.tabs, p);
      if p in s.tabs {
        var x := HasLeaf(s, p);
        MappedNotBlank(r, p, x);
      } else {
        MappedNotBlank(r, p, q);
      }
    }
  }

  /** Every mapping of one page is gone, the others are as they were. */
  lemma UnmapKeepsNoEmpty(s: PState, r: PState, q: seq<nat>, n: nat, data: seq<nat>)
    requires Sound(s) && NoEmpty(s) && Sound(r) && IsPath(q) && 2 <= n <= 3
    requires q[..n] in s.tabs && q[..n + 1] !in s.tabs
    requires UnmapEffect(s, r, q, n, data)
    ensures NoEmpty(r)
  {
    forall p | p in r.tabs && !OnWindow(p) ensures r.tabs[p] in r.mem && !Blank(r.mem[r.tabs[p]]) {
      assert TableOk(s.mem, s.tabs, p);
      var x := OtherLeaf(s, q, n, p);
      MappedNotBlank(r, p, x);
    }
  }

  /** A table that stays has a page of its own. */
  lemma OtherLeaf(s: PState, q: seq<nat>, n: nat, p: seq<nat>) returns (x: seq<nat>)
    requires Sound(s) && NoEmpty(s) && IsPath(q) && 2 <= n <= 3 && q[..n] in s.tabs && q[..n + 1] !in s.tabs
    requires p in Pruned(s.tabs, q, Kept(s, q, n), n) && !OnWindow(p)
    ensures IsPath(x) && p <= x && !(q[..n + 1] <= x) && Leaf(s.mem, s.tabs, x) != Fault
  {
    var k := Kept(s, q, n);
    assert TableOk(s.mem, s.tabs, p);
    if p <= q && |p| <= n {
      assert p == q[..|p|] && |p| <= k;
      if |p| < k {
        assert q[..k] == p + q[|p|..k];
      }
      assert !OnWindow(q[..k]) by {
        assert p <= q[..k];
      }
      KeptTable(s, q, n);
      assert TableOk(s.mem, s.tabs, q[..k]);
      var words := s.mem[s.tabs[q[..k]]];
      var j: nat :| j < ENTRIES && j != q[k] && words[j] != 0;
      x := LeafBelow(s, q[..k], j);
      assert x[k] == (q[..k] + [j])[k] == j;
      assert p <= q[..k] <= x;
      PrefixAgrees(q[..n + 1], x, k);
    } else {
      x := HasLeaf(s, p);
      PrefixOfPrefix(p, q, n + 1, x);
    }
  }

  lemma PrefixAgrees(p: seq<nat>, x: seq<nat>, k: nat)
    requires k < |p| && k < |x|
    ensures p <= x ==> p[k] == x[k]
  {
  }

  lemma PrefixOfPrefix(p: seq<nat>, q: seq<nat>, m: nat, x: seq<nat>)
    requires m <= |q| && |p| <= m
    ensures p <= x && q[..m] <= x ==> p <= q && p == q[..|p|]
  {
    assert p <= x && q[..m] <= x ==> p == x[..|p|] && q[..m] == x[..m];
    assert q[..m][..|p|] == q[..|p|];
    assert m <= |x| ==> x[..m][..|p|] == x[..|p|];
  }

  lemma {:induction false} KeptTable(s: PState, q: seq<nat>, n: nat)
    requires TreeOk(s.mem, s.tabs) && IsPath(q) && n <= 3 && q[..n] in s.tabs && !OnWindow(q[..Kept(s, q, n)])
    ensures var k := Kept(s, q, n);
            && q[..k] in s.tabs && s.tabs[q[..k]] in s.mem && |s.mem[s.tabs[q[..k]]]| == ENTRIES
            && exists j :: 0 <= j < ENTRIES && j != q[k] && s.mem[s.tabs[q[..k]]][j] != 0
  {
    assert TableOk(s.mem, s.tabs, q[..n]);
    var words := s.mem[s.tabs[q[..n]]];
    if Kept(s, q, n) < n {
      Prefixes(s.mem, s.tabs, q, n);
      KeptTable(s, q, n - 1);
    } else {
      var j: nat :| j < ENTRIES && words[q[n] := 0][j] != 0;
    }
  }

  // ---------------------------------------------------------------------------------------------
  // Map and unmap are inverse
  // ---------------------------------------------------------------------------------------------

  /** Mapping a page and unmapping it restores the translation and every table, in its old frame. */
  lemma RoundTripTables(s: PState, m: PState, r: PState, q: seq<nat>, pa: nat, data: seq<nat>)
    requires Sound(s) && NoEmpty(s) && Sound(m) && Sound(r) && IsPath(q) && Leaf(s.mem, s.tabs, q) == Fault
    requires MapEffect(s, m, q, pa, true) && UnmapEffect(m, r, q, 3, data)
    ensures SameLeaves(s.mem, s.tabs, r.mem, r.tabs) && r.tabs == s.tabs
  {
    MapKeepsNoEmpty(s, m, q, pa);
    MappedHasTables(s, m, q, pa);
    UnmapKeepsNoEmpty(m, r, q, 3, data);
    assert q[..4] == q;
    forall x | IsPath(x) ensures Leaf(r.mem, r.tabs, x) == Leaf(s.mem, s.tabs, x) {
      assert q <= x <==> x == q;
    }
    TablesDetermined(s, r);
    GrownKeeps(s.tabs, q, s.free, 3);
  }

  lemma MappedHasTables(s: PState, m: PState, q: seq<nat>, pa: nat)
    requires Sound(m) && IsPath(q) && MapEffect(s, m, q, pa, true)
    ensures q[..3] in m.tabs && q[..4] !in m.tabs
  {
    LeafHasTables(m, q, 3);
    NoFifth(m.mem, m.tabs, q);
  }

  lemma {:induction false} MissingBelow(tabs: Tabs, q: seq<nat>, k: nat, n: nat)
    requires |q| == 4 && k <= n <= 3
    requires forall i :: 0 < i <= n ==> (q[..i] in tabs <==> i <= k)
    ensures Missing(tabs, q, n) == n - k
  {
    if n > 0 {
      assert q[..n] in tabs <==> n <= k;
      if k < n {
        MissingBelow(tabs, q, k, n - 1);
      } else {
        NoneMissing(tabs, q, n);
      }
    }
  }

  lemma {:induction false} NoneMissing(tabs: Tabs, q: seq<nat>, n: nat)
    requires |q| == 4 && n <= 3 && forall i :: 0 < i <= n ==> q[..i] in tabs
    ensures Missing(tabs, q, n) == 0
  {
    if n > 0 {
      NoneMissing(tabs, q, n - 1);
    }
  }

  lemma {:induction false} GrownAt(tabs: Tabs, q: seq<nat>, fs: seq<nat>, n: nat, i: nat)
    requires |q| == 4 && 0 < i <= n <= 3 && Missing(tabs, q, n) <= |fs| && q[..i] !in tabs
    ensures Missing(tabs, q, i - 1) < |fs| && q[..i] in Grown(tabs, q, fs, n)
    ensures Grown(tabs, q, fs, n)[q[..i]] == fs[Missing(tabs, q, i - 1)]
    decreases n
  {
    if i < n {
      GrownAt(tabs, q, fs, n - 1, i);
      assert |q[..i]| != |q[..n]|;
    }
  }

  lemma {:induction false} FramesComeBack(s: PState, m: PState, q: seq<nat>, k: nat, i: nat)
    requires |q| == 4 && k <= i <= 3 && Missing(s.tabs, q, 3) <= |s.free|
    requires forall j :: 0 < j <= 3 ==> (q[..j] in s.tabs <==> j <= k)
    requires m.tabs == Grown(s.tabs, q, s.free, 3) && 3 - k <= |s.free|
    ensures PrunedFrames(m.tabs, q, i, 3) == s.free[i - k..3 - k]
    decreases 3 - i
  {
    if i < 3 {
      FramesComeBack(s, m, q, k, i + 1);
      GrownAt(s.tabs, q, s.free, 3, i + 1);
      MissingBelow(s.tabs, q, k, i);
      assert q[..i + 1] in m.tabs && m.tabs[q[..i + 1]] == s.free[i - k];
      assert s.free[i - k..3 - k] == [s.free[i - k]] + s.free[i + 1 - k..3 - k];
    }
  }

  /** The frames of the new tables come back to where they were taken from; without freed data the
      free list is as it was, frame for frame. */
  lemma RoundTripFrames(s: PState, m: PState, r: PState, q: seq<nat>, pa: nat, data: seq<nat>)
    requires Sound(s) && NoEmpty(s) && Sound(m) && Sound(r) && IsPath(q) && Leaf(s.mem, s.tabs, q) == Fault
    requires MapEffect(s, m, q, pa, true) && UnmapEffect(m, r, q, 3, data)
    ensures var k := Missing(s.tabs, q, 3); k <= |s.free| && r.free == s.free[..k] + (data + s.free[k..])
    ensures data == [] ==> r.free == s.free
  {
    hide NoEmpty, Sound, TreeOk, Remapped, Faulted, DataKept, OtherDataKept;
    RoundTripTables(s, m, r, q, pa, data);
    MappedHasTables(s, m, q, pa);
    SoundTree(m);
    AllPrefixes(m, q, 3);
    var k := Kept(m, q, 3);
    KeptAreOld(s, m, q, k);
    MissingBelow(s.tabs, q, k, 3);
    FramesComeBack(s, m, q, k, k);
    AfterIsDrop(s.free, 3 - k);
    PutBack(s.free, 3 - k, data, PrunedFrames(m.tabs, q, k, 3), m.free, r.free);
  }

  lemma SoundTree(s: PState)
    requires Sound(s)
    ensures TreeOk(s.mem, s.tabs)
  {
  }

  lemma KeptAreOld(s: PState, m: PState, q: seq<nat>, k: nat)
    requires |q| == 4 && s.tabs == Pruned(m.tabs, q, k, 3) && forall i :: 0 <= i <= 3 ==> q[..i] in m.tabs
    ensures forall j :: 0 < j <= 3 ==> (q[..j] in s.tabs <==> j <= k)
  {
    forall j | 0 < j <= 3 ensures q[..j] in s.tabs <==> j <= k {
      assert q[..j] in m.tabs;
    }
  }

  lemma PutBack(fs: seq<nat>, k: nat, data: seq<nat>, back: seq<nat>, rest: seq<nat>, free: seq<nat>)
    requires k <= |fs| && back == fs[0..k] && rest == fs[k..] && free == back + (data + rest)
    ensures free == fs[..k] + (data + fs[k..])
    ensures data == [] ==> free == fs
  {
    if data == [] {
      assert data + rest == rest;
    }
  }

  lemma {:induction false} AllPrefixes(s: PState, q: seq<nat>, n: nat)
    requires TreeOk(s.mem, s.tabs) && |q| == 4 && n <= 3 && q[..n] in s.tabs
    ensures forall i :: 0 <= i <= n ==> q[..i] in s.tabs
  {
    if n > 0 {
      Prefixes(s.mem, s.tabs, q, n);
      AllPrefixes(s, q, n - 1);
    }
  }

  // ---------------------------------------------------------------------------------------------
  // Conservation
  // ---------------------------------------------------------------------------------------------

  lemma {:induction false} GrownCount(tabs: Tabs, q: seq<nat>, fs: seq<nat>, n: nat)
    requires |q| == 4 && n <= 3 && Missing(tabs, q, n) <= |fs|
    ensures |Grown(tabs, q, fs, n)| == |tabs| + Missing(tabs, q, n)
  {
    if n > 0 {
      GrownCount(tabs, q, fs, n - 1);
      GrownKeeps(tabs, q, fs, n - 1);
      var g := Grown(tabs, q, fs, n - 1);
      assert q[..n] in g <==> q[..n] in tabs;
      assert q[..n] !in g ==> g[q[..n] := 0].Keys == g.Keys + {q[..n]};
    }
  }

  lemma {:induction false} PrunedCount(tabs: Tabs, q: seq<nat>, k: nat, n: nat)
    requires |q| == 4 && k <= n <= 3 && forall i :: 0 <= i <= n ==> q[..i] in tabs
    ensures |Pruned(tabs, q, k, n)| + (n - k) == |tabs| && |PrunedFrames(tabs, q, k, n)| == n - k
    decreases n - k
  {
    if k == n {
      PrunedNone(tabs, q, n);
    } else {
      PrunedCount(tabs, q, k + 1, n);
      PrunedOne(tabs, q, k + 1, n);
      var u := Pruned(tabs, q, k + 1, n);
      assert q[..k + 1] in u;
      assert (u - {q[..k + 1]}).Keys == u.Keys - {q[..k + 1]};
    }
  }

  /** Frames that are free or tables, together. */
  function Stock(s: PState): nat {
    |s.free| + |s.tabs|
  }

  lemma MapConserves(s: PState, r: PState, q: seq<nat>, pa: nat, ok: bool)
    requires |q| == 4 && MapEffect(s, r, q, pa, ok)
    ensures Stock(r) == Stock(s)
  {
    if ok {
      GrownCount(s.tabs, q, s.free, 3);
      AfterIsDrop(s.free, Missing(s.tabs, q, 3));
    } else {
      var n :| 0 <= n < 3 && Missing(s.tabs, q, n) == |s.free| && r.tabs == Grown(s.tabs, q, s.free, n);
      GrownCount(s.tabs, q, s.free, n);
    }
  }

  lemma UnmapConserves(s: PState, r: PState, q: seq<nat>, n: nat, data: seq<nat>)
    requires TreeOk(s.mem, s.tabs) && |q| == 4 && n <= 3 && q[..n] in s.tabs && UnmapEffect(s, r, q, n, data)
    ensures Stock(r) == Stock(s) + |data|
  {
    AllPrefixes(s, q, n);
    PrunedCount(s.tabs, q, Kept(s, q, n), n);
  }

  /** A map that fails for lack of frames strands the frames it took: it leaves an empty table behind
      exactly when there was a frame to take. */
  lemma FailedMapStrands(s: PState, r: PState, q: seq<nat>, pa: nat)
    requires Sound(s) && NoEmpty(s) && Sound(r) && IsPath(q) && Leaf(s.mem, s.tabs, q) == Fault
    requires MapEffect(s, r, q, pa, false)
    ensures s.free == [] ==> r.tabs == s.tabs
    ensures s.free != [] ==> !NoEmpty(r)
  {
    var n :| 0 <= n < 3 && Missing(s.tabs, q, n) == |s.free| && r.tabs == Grown(s.tabs, q, s.free, n);
    GrownKeeps(s.tabs, q, s.free, n);
    if s.free == [] {
      NothingGrown(s.tabs, q, s.free, n);
    } else {
      LastMissing(s, q, n);
      if OnWindow(q[..n]) {
        WindowTable(s, q[..n]);
      }
      if NoEmpty(r) {
        TableHadPages(s, r, q[..n]);
      }
    }
  }

  lemma TableHadPages(s: PState, r: PState, p: seq<nat>)
    requires Sound(s) && Sound(r) && NoEmpty(r) && SameLeaves(s.mem, s.tabs, r.mem, r.tabs)
    requires p in r.tabs && !OnWindow(p) && |p| <= 2
    ensures p in s.tabs
  {
    var x := HasLeaf(r, p);
    LeafHasTables(s, x, |p|);
    assert x[..|p|] == p;
  }

  lemma {:induction false} NothingGrown(tabs: Tabs, q: seq<nat>, fs: seq<nat>, n: nat)
    requires n <= |q| && Missing(tabs, q, n) == 0
    ensures Missing(tabs, q, n) <= |fs| && Grown(tabs, q, fs, n) == tabs
  {
    if n > 0 {
      NothingGrown(tabs, q, fs, n - 1);
    }
  }

  lemma {:induction false} LastMissing(s: PState, q: seq<nat>, n: nat)
    requires Sound(s) && |q| == 4 && n <= 3 && Missing(s.tabs, q, n) > 0
    ensures q[..n] !in s.tabs
  {
    if q[..n] in s.tabs {
      AllPrefixes(s, q, n);
      NoneMissing(s.tabs, q, n);
    }
  }

  // ---------------------------------------------------------------------------------------------
  // Runs
  // ---------------------------------------------------------------------------------------------

  /** A caller asks for a frame, maps a page, or unmaps one, handing over the frames in `data`; the first
      two may fail. */
  datatype Op = Take(ok: bool) | Map(q: seq<nat>, pa: nat, ok: bool) | Unmap(q: seq<nat>, n: nat, data: seq<nat>)

  ghost predicate StepOk(s: PState, op: Op, r: PState) {
    && Sound(s) && Sound(r)
    && match op
       case Take(ok) => (ok <==> s.free != []) && r == if ok then s.(free := s.free[1..]) else s
       case Map(q, pa, ok) => IsPath(q) && Leaf(s.mem, s.tabs, q) == Fault && MapEffect(s, r, q, pa, ok)
       case Unmap(q, n, data) =>
         && IsPath(q) && 2 <= n <= 3 && q[..n] in s.tabs && q[..n + 1] !in s.tabs
         && UnmapEffect(s, r, q, n, data)
  }

  ghost predicate StepAt(trace: seq<PState>, ops: seq<Op>, i: nat) {
    i < |ops| && i + 1 < |trace| && StepOk(trace[i], ops[i], trace[i + 1])
  }

  ghost predicate IsRun(trace: seq<PState>, ops: seq<Op>) {
    |trace| == |ops| + 1 && forall i {:trigger StepAt(trace, ops, i)} :: 0 <= i < |ops| ==> StepAt(trace, ops, i)
  }

  /** Frames handed over less frames taken, by one step and by the first `k`. */
  function Gain(op: Op): int {
    match op
    case Take(ok) => if ok then -1 else 0
    case Map(_, _, _) => 0
    case Unmap(_, _, data) => |data|
  }

  function Net(ops: seq<Op>, k: nat): int
    requires k <= |ops|
  {
    if k == 0 then 0 else Net(ops, k - 1) + Gain(ops[k - 1])
  }

  lemma StepConserves(s: PState, op: Op, r: PState)
    requires StepOk(s, op, r)
    ensures Stock(r) == Stock(s) + Gain(op)
  {
    match op
    case Take(_) =>
    case Map(q, pa, ok) => MapConserves(s, r, q, pa, ok);
    case Unmap(q, n, data) => UnmapConserves(s, r, q, n, data);
  }

  /** At every point of every run, with failures and without, no frame is lost. */
  lemma {:induction false} RunConserves(trace: seq<PState>, ops: seq<Op>, k: nat)
    requires IsRun(trace, ops) && Sound(trace[0]) && k <= |ops|
    ensures Sound(trace[k])
    ensures Stock(trace[k]) == Stock(trace[0]) + Net(ops, k)
  {
    if k > 0 {
      RunConserves(trace, ops, k - 1);
      assert StepAt(trace, ops, k - 1);
      StepConserves(trace[k - 1], ops[k - 1], trace[k]);
    }
  }

  /** A map that fails does so with no frame at all to take. */
  ghost predicate LeavesNone(s: PState, op: Op) {
    op.Map? && !op.ok ==> s.free == []
  }

  lemma StepKeepsNoEmpty(s: PState, op: Op, r: PState)
    requires StepOk(s, op, r) && NoEmpty(s) && LeavesNone(s, op)
    ensures NoEmpty(r)
  {
    match op
    case Take(_) =>
    case Map(q, pa, ok) =>
      if ok {
        MapKeepsNoEmpty(s, r, q, pa);
      } else {
        FailedMapStrands(s, r, q, pa);
        SameTablesNoEmpty(s, r);
      }
    case Unmap(q, n, data) => UnmapKeepsNoEmpty(s, r, q, n, data);
  }

  /** The same tables under the same translation are not empty either. */
  lemma SameTablesNoEmpty(s: PState, r: PState)
    requires Sound(s) && NoEmpty(s) && Sound(r) && r.tabs.Keys == s.tabs.Keys
    requires SameLeaves(s.mem, s.tabs, r.mem, r.tabs)
    ensures NoEmpty(r)
  {
    forall p | p in r.tabs && !OnWindow(p) ensures r.tabs[p] in r.mem && !Blank(r.mem[r.tabs[p]]) {
      assert p in s.tabs.Keys;
      assert TableOk(s.mem, s.tabs, p);
      var q := HasLeaf(s, p);
      MappedNotBlank(r, p, q);
    }
  }

  /** Over every run whose maps succeed, or fail with no frame at all to take, no table is left empty. */
  lemma {:induction false} RunKeepsNoEmpty(trace: seq<PState>, ops: seq<Op>, k: nat)
    requires IsRun(trace, ops) && NoEmpty(trace[0]) && k <= |ops|
    requires forall i :: 0 <= i < k ==> LeavesNone(trace[i], ops[i])
    ensures NoEmpty(trace[k])
  {
    if k > 0 {
      RunKeepsNoEmpty(trace, ops, k - 1);
      assert StepAt(trace, ops, k - 1);
      StepKeepsNoEmpty(trace[k - 1], ops[k - 1], trace[k]);
    }
  }

  /** The self-test, over every run: once the translation is what it was and as many frames have been
      handed over as were taken, the free count is what it was exactly if no table is left empty, and
      then the tables are the same ones. */
  lemma FreeCountReturns(trace: seq<PState>, ops: seq<Op>)
    requires IsRun(trace, ops) && Sound(trace[0]) && NoEmpty(trace[0])
    requires var s, r := trace[0], trace[|ops|]; SameLeaves(s.mem, s.tabs, r.mem, r.tabs)
    requires Net(ops, |ops|) == 0
    ensures |trace[|ops|].free| == |trace[0].free| <==> NoEmpty(trace[|ops|])
    ensures NoEmpty(trace[|ops|]) ==> trace[|ops|].tabs.Keys == trace[0].tabs.Keys
    ensures |trace[|ops|].free| <= |trace[0].free|
  {
    var s, r := trace[0], trace[|ops|];
    RunConserves(trace, ops, |ops|);
    forall p | p in s.tabs.Keys ensures p in r.tabs.Keys {
      TablesIncluded(s, r, p);
    }
    TableCounts(s.tabs, r.tabs);
    if NoEmpty(r) {
      TablesDetermined(s, r);
    } else if |s.tabs| == |r.tabs| {
      SameTablesNoEmpty(s, r);
    }
  }

  lemma TableCounts(tabs: Tabs, us: Tabs)
    requires tabs.Keys <= us.Keys
    ensures |tabs| <= |us| && (|tabs| == |us| <==> tabs.Keys == us.Keys)
  {
    var more := us.Keys - tabs.Keys;
    assert |tabs| == |tabs.Keys| && |us| == |us.Keys|;
    assert us.Keys == tabs.Keys + more;
    assert |us.Keys| == |tabs.Keys| + |more|;
    if more == {} {
      assert us.Keys == tabs.Keys;
    }
  }

  // ---------------------------------------------------------------------------------------------
  // One role for each frame
  // ---------------------------------------------------------------------------------------------

  /** The frame `f` is what a page, or a piece of a 2 MiB page, is mapped to. */
  ghost predicate MapsFrame(s: PState, q: seq<nat>, f: nat) {
    && IsPath(q)
    && match Leaf(s.mem, s.tabs, q)
       case Small(pa) => pa == f
       case Big(pa) => exists j :: 0 <= j < 512 && f == Piece(pa, j)
       case _ => false
  }

  ghost predicate Reserved(s: PState, f: nat) {
    f in s.free || f in s.tabs.Values
  }

  /** Among the managed frames, those that are free or tables are mapped nowhere. */
  ghost predicate RolesApart(s: PState, pool: iset<nat>) {
    forall q, f {:trigger MapsFrame(s, q, f)} :: f in pool && MapsFrame(s, q, f) ==> !Reserved(s, f)
  }

  /** The caller maps only frames it holds, and hands over only frames no other page is mapped to. */
  ghost predicate Disciplined(s: PState, op: Op, pool: iset<nat>) {
    match op
    case Take(_) => true
    case Map(q, pa, _) => pa in pool ==> !Reserved(s, pa)
    case Unmap(q, n, data) =>
      forall x, f {:trigger MapsFrame(s, x, f)} :: MapsFrame(s, x, f) && f in data && f in pool ==>
        |q| == 4 && n < 4 && q[..n + 1] <= x
  }

  /** The tables a map adds, even one that fails, are in frames that were free. */
  lemma MapTakesFree(s: PState, r: PState, q: seq<nat>, pa: nat, ok: bool, f: nat)
    requires |q| == 4 && MapEffect(s, r, q, pa, ok) && Reserved(r, f)
    ensures Reserved(s, f)
  {
    if ok {
      GrownFrames(s.tabs, q, s.free, 3);
      AfterIsDrop(s.free, Missing(s.tabs, q, 3));
    } else {
      var n :| 0 <= n < 3 && Missing(s.tabs, q, n) == |s.free| && r.tabs == Grown(s.tabs, q, s.free, n);
      GrownFrames(s.tabs, q, s.free, n);
    }
  }

  lemma NoNewReserved(s: PState, op: Op, r: PState, f: nat)
    requires StepOk(s, op, r) && Reserved(r, f)
    ensures Reserved(s, f) || (op.Unmap? && f in op.data)
  {
    match op
    case Take(_) =>
    case Map(q, pa, ok) => MapTakesFree(s, r, q, pa, ok, f);
    case Unmap(q, n, data) =>
      if f in r.free && f !in s.free && f !in data {
        AllPrefixes(s, q, n);
        PrunedAreTables(s.tabs, q, Kept(s, q, n), n, f);
      } else if f in r.tabs.Values {
        var p :| p in r.tabs && r.tabs[p] == f;
        assert s.tabs[p] == f;
      }
  }

  lemma {:induction false} PrunedAreTables(tabs: Tabs, q: seq<nat>, k: nat, n: nat, f: nat)
    requires |q| == 4 && n < 4 && f in PrunedFrames(tabs, q, k, n) && forall i :: 0 <= i <= n ==> q[..i] in tabs
    ensures f in tabs.Values
    decreases n - k
  {
    if k < n && f != tabs[q[..k + 1]] {
      PrunedAreTables(tabs, q, k + 1, n, f);
    }
  }

  lemma RolesStep(s: PState, op: Op, r: PState, pool: iset<nat>)
    requires StepOk(s, op, r) && RolesApart(s, pool) && Disciplined(s, op, pool)
    ensures RolesApart(r, pool)
  {
    forall x, f | f in pool && MapsFrame(r, x, f) ensures !Reserved(r, f) {
      if Reserved(r, f) {
        NoNewReserved(s, op, r, f);
      }
      match op
      case Take(_) => assert MapsFrame(s, x, f);
      case Map(q, pa, _) => assert x == q || MapsFrame(s, x, f);
      case Unmap(q, n, data) => assert MapsFrame(s, x, f);
    }
  }

  /** Along every run of disciplined callers, with failures and without, no managed frame that is free or a
      table is mapped. */
  lemma {:induction false} RolesKept(trace: seq<PState>, ops: seq<Op>, pool: iset<nat>, k: nat)
    requires IsRun(trace, ops) && RolesApart(trace[0], pool) && k <= |ops|
    requires forall i :: 0 <= i < k ==> Disciplined(trace[i], ops[i], pool)
    ensures RolesApart(trace[k], pool)
  {
    if k > 0 {
      RolesKept(trace, ops, pool, k - 1);
      assert StepAt(trace, ops, k - 1);
      RolesStep(trace[k - 1], ops[k - 1], trace[k], pool);
    }
  }
}
