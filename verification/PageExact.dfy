/** What a map and an unmap do, told without the steps they take: which tables are added and released, and
    what becomes of the free frames. */
module PageExact {
  import opened Lists
  import opened Words
  import opened PageWords
  import opened PageTree
  import opened PageSpec
  import opened PageRuns

  // ---------------------------------------------------------------------------------------------
  // A map
  // ---------------------------------------------------------------------------------------------

  /** The depths, down to `d`, at which there is no table on the way to `q`. */
  ghost function Absent(tabs: Tabs, q: seq<nat>, d: nat): set<nat>
    requires |q| == 4
  {
    set i | 1 <= i <= d && i <= 3 && q[..i] !in tabs
  }

  lemma {:induction false} MissingIsAbsent(tabs: Tabs, q: seq<nat>, d: nat)
    requires |q| == 4 && d <= 3
    ensures Missing(tabs, q, d) == |Absent(tabs, q, d)|
  {
    if d > 0 {
      MissingIsAbsent(tabs, q, d - 1);
      var xs := Absent(tabs, q, d - 1);
      assert Absent(tabs, q, d) == if q[..d] in tabs then xs else xs + {d};
    } else {
      assert Absent(tabs, q, d) == {};
    }
  }

  ghost predicate OnWay(p: seq<nat>, q: seq<nat>) {
    |q| == 4 && 1 <= |p| <= 3 && p == q[..|p|]
  }

  /** The table at `p` was there, or is on the way to the page and there was a frame for it. */
  ghost predicate TableAfterMap(s: PState, r: PState, q: seq<nat>, p: seq<nat>)
    requires |q| == 4
  {
    && (p in r.tabs <==> p in s.tabs || (OnWay(p, q) && |Absent(s.tabs, q, |p|)| <= |s.free|))
    && (p in s.tabs ==> r.tabs[p] == s.tabs[p])
    && (p in r.tabs && p !in s.tabs ==>
          OnWay(p, q) && var k := |Absent(s.tabs, q, |p| - 1)|; k < |s.free| && r.tabs[p] == s.free[k])
  }

  /** A map succeeds exactly if there is a free frame, and one for each table that is missing; it takes as many
      from the front of the list as tables are missing, or all. */
  lemma MapExactly(s: PState, r: PState, q: seq<nat>, pa: nat, ok: bool)
    requires |q| == 4 && MapEffect(s, r, q, pa, ok)
    ensures var k := |Absent(s.tabs, q, 3)|;
            && (ok <==> s.free != [] && k <= |s.free|)
            && r.free == if k <= |s.free| then s.free[k..] else []
  {
    MissingIsAbsent(s.tabs, q, 3);
    if ok {
      AfterIsDrop(s.free, Missing(s.tabs, q, 3));
    }
  }

  /** Succeed or fail, it makes the missing tables, topmost first, as far as the frames go, each in the next
      free frame, and moves no table. */
  lemma TablesMapped(s: PState, r: PState, q: seq<nat>, pa: nat, ok: bool, p: seq<nat>)
    requires TreeOk(s.mem, s.tabs) && |q| == 4 && MapEffect(s, r, q, pa, ok)
    ensures TableAfterMap(s, r, q, p)
  {
    var n := Depth(s, r, q, pa, ok);
    TableMapped(s, r, q, n, p);
  }

  lemma TableMapped(s: PState, r: PState, q: seq<nat>, n: nat, p: seq<nat>)
    requires TreeOk(s.mem, s.tabs) && |q| == 4 && n <= 3 && Missing(s.tabs, q, n) <= |s.free|
    requires r.tabs == Grown(s.tabs, q, s.free, n) && (n == 3 || Missing(s.tabs, q, n) == |s.free|)
    ensures TableAfterMap(s, r, q, p)
  {
    hide Absent, TreeOk, Missing, Grown;
    GrownKeeps(s.tabs, q, s.free, n);
    if OnWay(p, q) {
      MissingIsAbsent(s.tabs, q, |p|);
      MissingIsAbsent(s.tabs, q, |p| - 1);
      AsFarAs(s, q, n, |p|);
      if |p| <= n && p !in s.tabs {
        GrownAt(s.tabs, q, s.free, n, |p|);
      }
    }
  }

  /** The depth down to which there are tables in the end. */
  lemma Depth(s: PState, r: PState, q: seq<nat>, pa: nat, ok: bool) returns (n: nat)
    requires TreeOk(s.mem, s.tabs) && |q| == 4 && MapEffect(s, r, q, pa, ok)
    ensures n <= 3 && Missing(s.tabs, q, n) <= |s.free| && r.tabs == Grown(s.tabs, q, s.free, n)
    ensures n == 3 || (Missing(s.tabs, q, n) == |s.free| && !ok)
    ensures n < 3 && Missing(s.tabs, q, 3) <= |s.free| ==> s.free == []
  {
    if ok {
      n := 3;
    } else {
      n :| 0 <= n < 3 && Missing(s.tabs, q, n) == |s.free| && r.tabs == Grown(s.tabs, q, s.free, n);
    }
  }

  lemma AsFarAs(s: PState, q: seq<nat>, n: nat, i: nat)
    requires TreeOk(s.mem, s.tabs) && |q| == 4 && n <= 3 && 1 <= i <= 3 && Missing(s.tabs, q, n) <= |s.free|
    requires n == 3 || Missing(s.tabs, q, n) == |s.free|
    ensures q[..i] in s.tabs || (i <= n <==> Missing(s.tabs, q, i) <= |s.free|)
  {
    if i <= n {
      MissingUpTo(s.tabs, q, i, n);
    } else {
      MissingUpTo(s.tabs, q, n, i - 1);
    }
  }

  // ---------------------------------------------------------------------------------------------
  // An unmap
  // ---------------------------------------------------------------------------------------------

  /** Under the table at `p` there are no tables but those on the way to `q`, and no page but what is under
      the entry at depth `n` on that way. */
  ghost predicate NothingElse(s: PState, p: seq<nat>, q: seq<nat>, n: nat)
    requires n < |q|
  {
    && (forall t :: t in s.tabs && p <= t ==> t <= q)
    && forall x :: IsPath(x) && p <= x && Leaf(s.mem, s.tabs, x) != Fault ==> q[..n + 1] <= x
  }

  /** The page at `q` has its entry in the table at depth `n`. */
  ghost predicate EntryAt(s: PState, q: seq<nat>, n: nat) {
    IsPath(q) && 2 <= n <= 3 && TreeOk(s.mem, s.tabs) && q[..n] in s.tabs && q[..n + 1] !in s.tabs
  }

  /** Behind an entry beside the way that is not zero there is something else. */
  lemma SomethingElse(s: PState, q: seq<nat>, n: nat, m: nat, j: nat)
    requires EntryAt(s, q, n) && m <= n && j < ENTRIES && j != q[m] && Word(s.mem, s.tabs, q[..m], j) != 0
    ensures !NothingElse(s, q[..m], q, n)
  {
    var p := q[..m];
    AllPrefixes(s, q, n);
    assert TableOk(s.mem, s.tabs, p) && EntryOk(s.mem, s.tabs, p, j);
    var t := p + [j];
    assert t[m] == j && p <= t && q[..n + 1][m] == q[m];
    if t in s.tabs {
      assert !(t <= q);
    } else {
      var x := t + (if m == 3 then [] else [0]);
      PathBounds(s, p);
      assert x[..m + 1] == t && x[..m] == p && IsPath(x);
      assert x[m] == j && Leaf(s.mem, s.tabs, x) != Fault && !(q[..n + 1] <= x);
    }
  }

  lemma {:induction false} Ancestor(s: PState, t: seq<nat>, i: nat)
    requires TreeOk(s.mem, s.tabs) && t in s.tabs && i <= |t|
    ensures t[..i] in s.tabs
    decreases |t|
  {
    assert TableOk(s.mem, s.tabs, t);
    if i < |t| {
      Ancestor(s, t[..|t| - 1], i);
      assert t[..|t| - 1][..i] == t[..i];
    } else {
      assert t[..i] == t;
    }
  }

  /** All entries of the table at depth `m` on the way are zero but the one on the way. */
  ghost predicate ZeroBeside(s: PState, q: seq<nat>, m: nat)
    requires m < |q|
  {
    forall j {:trigger Word(s.mem, s.tabs, q[..m], j)} :: 0 <= j < ENTRIES && j != q[m] ==> Word(s.mem, s.tabs, q[..m], j) == 0
  }

  lemma NoTableBeside(s: PState, q: seq<nat>, n: nat, m: nat, t: seq<nat>)
    requires EntryAt(s, q, n) && m <= n && ZeroBeside(s, q, m) && t in s.tabs && q[..m] <= t && |t| > m
    ensures m < n && q[..m + 1] <= t
  {
    var j := t[m];
    Ancestor(s, t, m + 1);
    assert t[..m + 1] == q[..m] + [j];
    ChildIsLive(s.mem, s.tabs, q[..m], j);
    assert q[..m + 1] == q[..m] + [q[m]];
  }

  lemma NoPageBeside(s: PState, q: seq<nat>, n: nat, m: nat, x: seq<nat>)
    requires EntryAt(s, q, n) && m <= n && ZeroBeside(s, q, m)
    requires IsPath(x) && q[..m] <= x && Leaf(s.mem, s.tabs, x) != Fault
    ensures q[..m + 1] <= x
  {
    var j := x[m];
    assert x[..m] == q[..m] && x[..m + 1] == q[..m] + [j];
    assert q[..m + 1] == q[..m] + [q[m]];
    if j != q[m] {
      ChildIsLive(s.mem, s.tabs, q[..m], j);
      NoDeeper(s.mem, s.tabs, x, m + 1);
    }
  }

  /** If all entries beside the way are zero, nothing else is under a table on the way. */
  lemma NothingBeside(s: PState, q: seq<nat>, n: nat, m: nat)
    requires EntryAt(s, q, n) && m <= n && ZeroBeside(s, q, m)
    requires m < n ==> NothingElse(s, q[..m + 1], q, n)
    ensures NothingElse(s, q[..m], q, n)
  {
    forall t | t in s.tabs && q[..m] <= t ensures t <= q {
      if |t| > m {
        NoTableBeside(s, q, n, m, t);
      } else {
        assert t == q[..m];
      }
    }
    forall x | IsPath(x) && q[..m] <= x && Leaf(s.mem, s.tabs, x) != Fault ensures q[..n + 1] <= x {
      NoPageBeside(s, q, n, m, x);
    }
  }

  lemma NothingBelow(s: PState, q: seq<nat>, n: nat, i: nat, m: nat)
    requires |q| == 4 && i <= m <= n < 4 && NothingElse(s, q[..i], q, n)
    ensures NothingElse(s, q[..m], q, n)
  {
    forall t | t in s.tabs && q[..m] <= t ensures t <= q {
      assert q[..i] == t[..i];
    }
    forall x | IsPath(x) && q[..m] <= x && Leaf(s.mem, s.tabs, x) != Fault ensures q[..n + 1] <= x {
      assert q[..i] == x[..i];
    }
  }

  lemma OnlyEntryIs(s: PState, q: seq<nat>, n: nat, m: nat)
    requires EntryAt(s, q, n) && m <= n
    ensures q[..m] in s.tabs && s.tabs[q[..m]] in s.mem && (OnlyEntry(s, q[..m], q[m]) <==> ZeroBeside(s, q, m))
  {
    AllPrefixes(s, q, n);
    assert TableOk(s.mem, s.tabs, q[..m]);
    var words := s.mem[s.tabs[q[..m]]];
    var zeroed: seq<nat> := words[q[m] := 0];
    forall j | 0 <= j < ENTRIES && j != q[m] ensures Word(s.mem, s.tabs, q[..m], j) == zeroed[j] {
    }
    if ZeroBeside(s, q, m) {
      forall j | 0 <= j < ENTRIES ensures zeroed[j] == 0 {
        assert j != q[m] ==> Word(s.mem, s.tabs, q[..m], j) == 0;
      }
    }
  }

  /** The tables above depth `m` stay exactly if that at depth `m` is one of the window or has something else
      under it. */
  lemma {:induction false} KeptExactly(s: PState, q: seq<nat>, n: nat, m: nat, i: nat)
    requires EntryAt(s, q, n) && i <= m <= n && (m < n ==> NothingElse(s, q[..m + 1], q, n))
    ensures Kept(s, q, m) < i <==> !OnWindow(q[..i]) && NothingElse(s, q[..i], q, n)
    decreases m
  {
    OnlyEntryIs(s, q, n, m);
    WindowAbove(q, i, m);
    if ZeroBeside(s, q, m) {
      NothingBeside(s, q, n, m);
      if m > 0 && !OnWindow(q[..m]) && i < m {
        KeptExactly(s, q, n, m - 1, i);
      }
    } else if NothingElse(s, q[..i], q, n) {
      NothingBelow(s, q, n, i, m);
      var j: nat :| j < ENTRIES && j != q[m] && Word(s.mem, s.tabs, q[..m], j) != 0;
      SomethingElse(s, q, n, m, j);
    }
  }

  lemma WindowAbove(q: seq<nat>, i: nat, m: nat)
    requires |q| == 4 && i <= m < 4
    ensures OnWindow(q[..m]) ==> OnWindow(q[..i])
    ensures OnWindow(q[..0])
  {
    assert q[..i] <= q[..m];
    assert q[..0] == [];
  }

  lemma NotBelow(s: PState, q: seq<nat>, n: nat, p: seq<nat>)
    requires EntryAt(s, q, n) && p in s.tabs && p <= q
    ensures |p| <= n
  {
    if |p| > n {
      assert p[..n + 1] == q[..n + 1];
      Ancestor(s, p, n + 1);
    }
  }

  /** An unmap releases exactly the tables under which there is nothing else, but none of the window's, and
      moves none. */
  lemma ReleasedExactly(s: PState, r: PState, q: seq<nat>, n: nat, data: seq<nat>, p: seq<nat>)
    requires EntryAt(s, q, n) && UnmapEffect(s, r, q, n, data)
    ensures p in r.tabs <==> p in s.tabs && (p <= q && !OnWindow(p) ==> !NothingElse(s, p, q, n))
    ensures p in r.tabs ==> r.tabs[p] == s.tabs[p]
  {
    if p in s.tabs && p <= q {
      assert p == q[..|p|];
      NotBelow(s, q, n, p);
      KeptExactly(s, q, n, n, |p|);
    }
  }

  lemma {:induction false} PrunedFrameAt(tabs: Tabs, q: seq<nat>, k: nat, n: nat, i: nat)
    requires |q| == 4 && n < 4 && k + i < n
    ensures |PrunedFrames(tabs, q, k, n)| == n - k
    ensures q[..k + i + 1] in tabs ==> PrunedFrames(tabs, q, k, n)[i] == tabs[q[..k + i + 1]]
    decreases n - k
  {
    if i > 0 {
      PrunedFrameAt(tabs, q, k + 1, n, i - 1);
    } else if k + 1 < n {
      PrunedFrameAt(tabs, q, k + 1, n, 0);
    }
  }

  /** The frames of those tables, topmost first, go in front of the frames handed over, and these in front of
      the free ones. */
  lemma FreedExactly(s: PState, r: PState, q: seq<nat>, n: nat, data: seq<nat>)
    requires EntryAt(s, q, n) && UnmapEffect(s, r, q, n, data)
    ensures var m := |s.tabs| - |r.tabs|;
            && 0 <= m <= n && |r.free| == m + |data| + |s.free|
            && r.free[m..m + |data|] == data && r.free[m + |data|..] == s.free
            && forall i :: 0 <= i < m ==> q[..n - m + i + 1] in s.tabs && r.free[i] == s.tabs[q[..n - m + i + 1]]
  {
    hide TreeOk, Pruned, PrunedFrames, Faulted, OtherDataKept, Kept;
    var k := Kept(s, q, n);
    AllPrefixes(s, q, n);
    PrunedCount(s.tabs, q, k, n);
    forall i | 0 <= i < n - k ensures q[..k + i + 1] in s.tabs && PrunedFrames(s.tabs, q, k, n)[i] == s.tabs[q[..k + i + 1]] {
      PrunedFrameAt(s.tabs, q, k, n, i);
    }
    InFront(PrunedFrames(s.tabs, q, k, n), data, s.free);
  }

  lemma InFront(xs: seq<nat>, ys: seq<nat>, zs: seq<nat>)
    ensures var all := xs + (ys + zs);
            && (forall i :: 0 <= i < |xs| ==> all[i] == xs[i])
            && all[|xs|..|xs| + |ys|] == ys && all[|xs| + |ys|..] == zs
  {
  }

  /** The `m` frames of released tables and the `n` frames of a page at `pa`, the last one first, are now in
      front of the free ones. */
  ghost predicate FramesBack(was: seq<nat>, now: seq<nat>, m: int, pa: nat, n: nat) {
    && 0 <= m && |now| == m + n + |was| && now[m + n..] == was
    && forall i {:trigger PieceAt(now, m, pa, n, i)} :: 0 <= i < n ==> PieceAt(now, m, pa, n, i)
  }

  ghost predicate PieceAt(now: seq<nat>, m: int, pa: nat, n: nat, i: int) {
    0 <= m + i < |now| && now[m + i] == pa + PAGE * (n - 1 - i)
  }

  lemma {:induction false} PageFramesAt(pa: nat, k: nat, i: nat)
    requires i < k
    ensures |PageFrames(pa, k)| == k && PageFrames(pa, k)[i] == pa + PAGE * (k - 1 - i)
  {
    if i > 0 {
      PageFramesAt(pa, k - 1, i - 1);
    } else if k > 1 {
      PageFramesAt(pa, k - 1, 0);
    }
  }

  lemma UnmapGivesBack(s: PState, r: PState, q: seq<nat>, n: nat, pa: nat, k: nat)
    requires EntryAt(s, q, n) && UnmapEffect(s, r, q, n, PageFrames(pa, k))
    ensures FramesBack(s.free, r.free, |s.tabs| - |r.tabs|, pa, k)
  {
    hide EntryAt, UnmapEffect, PageFrames;
    var data := PageFrames(pa, k);
    FreedExactly(s, r, q, n, data);
    PageFramesCount(pa, k);
    forall i | 0 <= i < k ensures data[i] == pa + PAGE * (k - 1 - i) {
      PageFramesAt(pa, k, i);
    }
    Placed(r.free, |s.tabs| - |r.tabs|, data, s.free, pa, k);
  }

  lemma {:induction false} PageFramesCount(pa: nat, k: nat)
    ensures |PageFrames(pa, k)| == k
  {
    if k > 0 {
      PageFramesCount(pa, k - 1);
    }
  }

  lemma Placed(now: seq<nat>, m: nat, data: seq<nat>, was: seq<nat>, pa: nat, k: nat)
    requires |data| == k && |now| == m + k + |was| && now[m..m + k] == data && now[m + k..] == was
    requires forall i :: 0 <= i < k ==> data[i] == pa + PAGE * (k - 1 - i)
    ensures FramesBack(was, now, m, pa, k)
  {
    forall i | 0 <= i < k ensures PieceAt(now, m, pa, k, i) {
      assert now[m..m + k][i] == data[i];
    }
  }

  /** The frame that holds the byte at `va` is in `free`. */
  ghost predicate FrameBack(m: Mapping, va: nat, free: seq<nat>) {
    m != Fault && PhysicalByte(m, va) / PAGE * PAGE in free
  }

  /** Whatever address of the page one looks at, the frame it led to is in `free`. */
  ghost predicate PageBack(mem: Frames, root: nat, va: nat, n: nat, free: seq<nat>) {
    forall vb: nat {:trigger Idx(vb)} :: SamePage(va, vb, n) ==> FrameBack(Walk(mem, root, Idx(vb), 0), vb, free)
  }

  lemma FrameIsBack(was: seq<nat>, now: seq<nat>, m: int, mapping: Mapping, vb: nat)
    requires mapping.Small? || mapping.Big?
    requires mapping.pa % PAGE == 0 && FramesBack(was, now, m, mapping.pa, if mapping.Small? then 1 else 512)
    ensures FrameBack(mapping, vb, now)
  {
    var n, pa := if mapping.Small? then 1 else 512, mapping.pa;
    var off := vb % (PAGE * n);
    var j := off / PAGE;
    assert PhysicalByte(mapping, vb) == pa + off;
    assert pa == PAGE * (pa / PAGE) && off == PAGE * j + off % PAGE && j < n;
    ModIs(pa + off, PAGE, pa / PAGE + j, off % PAGE);
    assert PieceAt(now, m, pa, n, n - 1 - j);
  }
}
