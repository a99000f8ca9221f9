/** Consecutive pages: the tables they need, and what it is to have mapped the first of them. */
module PageRange {
  import opened Words
  import opened PageWords
  import opened PageTree
  import opened PageSpec

  function PagePath(va: nat, j: nat): (q: seq<nat>)
    ensures IsPath(q)
  {
    Idx(va + PAGE * j)
  }

  /** The tables on the way to a page, down to depth `n`, and on the way to the first `i` pages. */
  function Way(q: seq<nat>, n: nat): set<seq<nat>>
    requires n <= |q|
  {
    if n == 0 then {} else Way(q, n - 1) + {q[..n]}
  }

  function Ways(va: nat, i: nat): set<seq<nat>> {
    if i == 0 then {} else Ways(va, i - 1) + Way(PagePath(va, i - 1), 3)
  }

  lemma {:induction false} WayIs(q: seq<nat>, n: nat)
    requires n <= |q|
    ensures forall p :: p in Way(q, n) <==> 0 < |p| <= n && p == q[..|p|]
  {
    if n > 0 {
      WayIs(q, n - 1);
    }
  }

  lemma CardOneMore<T>(keys: set<T>, xs: set<T>, x: T, m: nat)
    requires x !in xs && |keys + xs| == |keys| + m
    ensures |keys + (xs + {x})| == |keys| + m + (if x in keys then 0 else 1)
  {
    if x in keys {
      assert keys + (xs + {x}) == keys + xs;
    } else {
      assert keys + (xs + {x}) == (keys + xs) + {x};
    }
  }

  lemma CardThreeMore<T>(keys: set<T>, x: T, y: T, z: T)
    requires x != y && x != z && y != z
    ensures |keys + ({} + {x} + {y} + {z})|
         == |keys| + (if x in keys then 0 else 1) + (if y in keys then 0 else 1) + (if z in keys then 0 else 1)
  {
    assert keys + {} == keys;
    CardOneMore(keys, {}, x, 0);
    CardOneMore(keys, {} + {x}, y, if x in keys then 0 else 1);
    CardOneMore(keys, {} + {x} + {y}, z, (if x in keys then 0 else 1) + (if y in keys then 0 else 1));
  }

  lemma WayOfThree(q: seq<nat>)
    requires |q| == 4
    ensures Way(q, 3) == {} + {q[..1]} + {q[..2]} + {q[..3]}
  {
    assert Way(q, 1) == {} + {q[..1]};
    assert Way(q, 2) == {} + {q[..1]} + {q[..2]};
  }

  /** How many of the three tables on the way to `q` are neither in `keys` nor in `ways`. */
  function Lacking(keys: set<seq<nat>>, ways: set<seq<nat>>, q: seq<nat>): nat
    requires |q| == 4
  {
    (if q[..1] in keys || q[..1] in ways then 0 else 1) + (if q[..2] in keys || q[..2] in ways then 0 else 1)
    + (if q[..3] in keys || q[..3] in ways then 0 else 1)
  }

  /** How many tables the first `i` pages need beside those in `keys`. */
  ghost function NewTables(keys: set<seq<nat>>, va: nat, i: nat): nat {
    if i == 0 then 0 else NewTables(keys, va, i - 1) + Lacking(keys, Ways(va, i - 1), PagePath(va, i - 1))
  }

  lemma LackingIsCard(keys: set<seq<nat>>, ways: set<seq<nat>>, q: seq<nat>)
    requires |q| == 4
    ensures |keys + (ways + Way(q, 3))| == |keys + ways| + Lacking(keys, ways, q)
  {
    WayOfThree(q);
    CardThreeMore(keys + ways, q[..1], q[..2], q[..3]);
    Regroup(keys, ways, Way(q, 3));
  }

  lemma Regroup<T>(xs: set<T>, ys: set<T>, zs: set<T>)
    ensures xs + ys + zs == xs + (ys + zs)
  {
  }

  /** Each of them counts once. */
  lemma {:induction false} NewTablesIsCard(keys: set<seq<nat>>, va: nat, i: nat)
    ensures NewTables(keys, va, i) == |keys + Ways(va, i)| - |keys|
  {
    hide Lacking, PagePath, Way;
    if i == 0 {
      assert keys + {} == keys;
    } else {
      NewTablesIsCard(keys, va, i - 1);
      LackingIsCard(keys, Ways(va, i - 1), PagePath(va, i - 1));
    }
  }

  lemma MissingTwo(tabs: Tabs, q: seq<nat>)
    requires |q| == 4
    ensures Missing(tabs, q, 2) == (if q[..1] in tabs then 0 else 1) + (if q[..2] in tabs then 0 else 1)
  {
    assert Missing(tabs, q, 1) == if q[..1] in tabs then 0 else 1;
  }

  ghost predicate TableWanted(keys: set<seq<nat>>, tabs: Tabs, va: nat, i: nat, p: seq<nat>) {
    p in tabs <==> p in keys || p in Ways(va, i)
  }

  /** The tables are those in `keys` and those the first `i` pages need. */
  ghost predicate TablesAre(keys: set<seq<nat>>, tabs: Tabs, va: nat, i: nat) {
    forall p {:trigger TableWanted(keys, tabs, va, i, p)} :: TableWanted(keys, tabs, va, i, p)
  }

  lemma KeysAre(keys: set<seq<nat>>, tabs: Tabs, va: nat, i: nat)
    requires TablesAre(keys, tabs, va, i)
    ensures tabs.Keys == keys + Ways(va, i)
  {
    forall p ensures p in tabs.Keys <==> p in keys + Ways(va, i) {
      assert TableWanted(keys, tabs, va, i, p);
    }
  }

  lemma MissingIsLacking(keys: set<seq<nat>>, tabs: Tabs, va: nat, i: nat, q: seq<nat>)
    requires |q| == 4 && TablesAre(keys, tabs, va, i)
    ensures Missing(tabs, q, 3) == Lacking(keys, Ways(va, i), q)
  {
    MissingTwo(tabs, q);
    assert TableWanted(keys, tabs, va, i, q[..1]) && TableWanted(keys, tabs, va, i, q[..2]);
    assert TableWanted(keys, tabs, va, i, q[..3]);
  }

  lemma {:induction false} NewTablesGrow(keys: set<seq<nat>>, va: nat, i: nat, n: nat)
    requires i <= n
    ensures NewTables(keys, va, i) <= NewTables(keys, va, n)
  {
    if i < n {
      NewTablesGrow(keys, va, i, n - 1);
    }
  }

  // ---------------------------------------------------------------------------------------------
  // Mapping them
  // ---------------------------------------------------------------------------------------------

  /** Memory and the tables in it: what decides the translation. */
  datatype View = View(mem: Frames, tabs: Tabs)

  ghost predicate LeadsTo(v: View, q: seq<nat>, m: Mapping) {
    |q| == 4 && Leaf(v.mem, v.tabs, q) == m
  }

  ghost predicate LeadsAt(w: View, va: nat, fs: seq<nat>, j: nat)
    requires j < |fs|
  {
    LeadsTo(w, PagePath(va, j), Small(fs[j]))
  }

  ghost predicate Outside(va: nat, i: nat, x: seq<nat>) {
    forall j :: 0 <= j < i ==> x != PagePath(va, j)
  }

  /** The first `i` pages from `va` on lead to the frames in `fs`, and no other page is remapped. */
  ghost predicate LeavesEntered(v: View, w: View, va: nat, fs: seq<nat>, i: nat)
    requires i <= |fs|
  {
    && (forall j {:trigger LeadsAt(w, va, fs, j)} :: 0 <= j < i ==> LeadsAt(w, va, fs, j))
    && forall x {:trigger Outside(va, i, x)} :: IsPath(x) && Outside(va, i, x) ==> LeadsTo(w, x, Leaf(v.mem, v.tabs, x))
  }

  ghost predicate FaultsAt(v: View, va: nat, j: nat) {
    LeadsTo(v, PagePath(va, j), Fault)
  }

  /** None of the first `n` pages is mapped. */
  ghost predicate AllFault(v: View, va: nat, n: nat) {
    forall j {:trigger FaultsAt(v, va, j)} :: 0 <= j < n ==> FaultsAt(v, va, j)
  }

  lemma PagesDistinct(va: nat, i: nat, j: nat)
    requires va % PAGE == 0 && i < 0x10_0000_0000 && j < 0x10_0000_0000 && i != j
    ensures PagePath(va, i) != PagePath(va, j)
  {
    IdxIsPage(va + PAGE * i, va + PAGE * j);
    var p := va / PAGE;
    assert (va + PAGE * i) / PAGE == p + i && (va + PAGE * j) / PAGE == p + j;
    NotCongruent(p + i, p + j);
  }

  lemma NotCongruent(x: nat, y: nat)
    requires x != y && x - y < 0x10_0000_0000 && y - x < 0x10_0000_0000
    ensures x % 0x10_0000_0000 != y % 0x10_0000_0000
  {
    var a, b := x / 0x10_0000_0000, y / 0x10_0000_0000;
    assert x == 0x10_0000_0000 * a + x % 0x10_0000_0000;
    assert y == 0x10_0000_0000 * b + y % 0x10_0000_0000;
  }

  /** A page further on still faults if it did. */
  lemma NextFaults(v: View, w: View, va: nat, fs: seq<nat>, i: nat, j: nat)
    requires i <= |fs| && LeavesEntered(v, w, va, fs, i) && va % PAGE == 0 && i <= j < 0x10_0000_0000
    requires FaultsAt(v, va, j)
    ensures Leaf(w.mem, w.tabs, PagePath(va, j)) == Fault
  {
    forall l | 0 <= l < i ensures PagePath(va, j) != PagePath(va, l) {
      PagesDistinct(va, j, l);
    }
    assert Outside(va, i, PagePath(va, j));
  }

  /** One more page. */
  lemma NextEntered(v: View, w: View, w': View, va: nat, fs: seq<nat>, i: nat)
    requires i < |fs| && LeavesEntered(v, w, va, fs, i) && va % PAGE == 0 && i < 0x10_0000_0000
    requires forall x :: IsPath(x) ==>
               Leaf(w'.mem, w'.tabs, x) == if PagePath(va, i) == x then Small(fs[i]) else Leaf(w.mem, w.tabs, x)
    ensures LeavesEntered(v, w', va, fs, i + 1)
  {
    var q := PagePath(va, i);
    forall j | 0 <= j < i + 1 ensures LeadsAt(w', va, fs, j) {
      if j < i {
        PagesDistinct(va, i, j);
        assert LeadsAt(w, va, fs, j);
      }
    }
    forall x | IsPath(x) && Outside(va, i + 1, x) ensures LeadsTo(w', x, Leaf(v.mem, v.tabs, x)) {
      assert Outside(va, i, x);
      assert x != q;
    }
  }

  lemma WholePath(q: seq<nat>)
    requires |q| == 4
    ensures forall x :: IsPath(x) ==> (q[..4] <= x <==> q == x)
  {
    assert q[..4] == q;
  }

  lemma InRange(va: nat, n: nat, vb: nat)
    requires va % PAGE == 0 && va <= vb < va + PAGE * n
    ensures (vb - va) / PAGE < n && PagePath(va, (vb - va) / PAGE) == Idx(vb)
  {
    var j := (vb - va) / PAGE;
    IdxIsPage(vb, va + PAGE * j);
    assert vb / PAGE == va / PAGE + j;
    assert (va + PAGE * j) / PAGE == va / PAGE + j;
  }

  lemma NotInRange(va: nat, n: nat, vb: nat, j: nat)
    requires va % PAGE == 0 && Canonical(va) && Canonical(vb) && j < n && !(va <= vb < va + PAGE * n)
    requires va + PAGE * n <= PHYS || (va >= HIGH && va + PAGE * n <= WORD)
    ensures Idx(vb) != PagePath(va, j)
  {
    var vc := va + PAGE * j;
    IdxIsPage(vb, vc);
    CanonicalPage(vb, vc);
    assert vc / PAGE == va / PAGE + j;
  }
}
