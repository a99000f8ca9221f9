/** The invariant the heap leaves unstated: the live headers cut the heap into aligned blocks, with
    no gap and no overlap; and the canonical form, in which no two free buddies remain. */
module Tiling {
  import opened Dyadic

  datatype Tile = Tile(cls: nat, free: bool)

  /** The live blocks, by address. */
  type Tiles = map<nat, Tile>

  ghost predicate Covers(ts: Tiles, t: nat, x: nat) {
    t in ts && t <= x < t + Size(ts[t].cls)
  }

  ghost predicate Covered(ts: Tiles, x: nat) {
    exists t: nat :: Covers(ts, t, x)
  }

  ghost predicate Placed(ts: Tiles, end: nat, t: nat)
    requires t in ts
  {
    ts[t].cls < CLASSES && Aligned(t, ts[t].cls) && t + Size(ts[t].cls) <= end
  }

  ghost predicate Apart(ts: Tiles, s: nat, t: nat)
    requires s in ts && t in ts
  {
    s < t ==> s + Size(ts[s].cls) <= t
  }

  /** Every block is aligned to its size, blocks are disjoint, and they cover all of
      [HEAP, end), which is a whole number of top-class chunks. */
  ghost predicate Tiled(ts: Tiles, end: nat) {
    && Aligned(end, TOP)
    && (forall t {:trigger Placed(ts, end, t)} :: t in ts ==> Placed(ts, end, t))
    && (forall s, t {:trigger Apart(ts, s, t)} :: s in ts && t in ts ==> Apart(ts, s, t))
    && (forall x: nat :: HEAP <= x < end ==> Covered(ts, x))
  }

  /** `t` is free, and so is its buddy, at the same class. */
  ghost predicate Mergeable(ts: Tiles, t: nat) {
    && t in ts && ts[t].free && ts[t].cls < TOP
    && Buddy(t, ts[t].cls) in ts && ts[Buddy(t, ts[t].cls)] == ts[t]
  }

  ghost predicate Canonical(ts: Tiles) {
    forall t :: !Mergeable(ts, t)
  }

  /** The blocks in the hands of clients, with their classes. */
  ghost function Taken(ts: Tiles): Tiles {
    map t | t in ts && !ts[t].free :: ts[t]
  }

  lemma NoBlockAtZero(ts: Tiles, end: nat)
    requires Tiled(ts, end)
    ensures 0 !in ts
  {
    forall t | t in ts ensures t != 0 {
      assert Placed(ts, end, t);
    }
  }

  lemma BlocksDisjoint(ts: Tiles, end: nat, s: nat, t: nat)
    requires Tiled(ts, end) && s in ts && t in ts
    ensures s == t || s + Size(ts[s].cls) <= t || t + Size(ts[t].cls) <= s
  {
    assert Apart(ts, s, t) && Apart(ts, t, s);
  }

  // ---------------------------------------------------------------------------------------------
  // The buddy lookup
  // ---------------------------------------------------------------------------------------------

  /** The lookup always hits a live header whose class is no larger than the block's own. */
  lemma BuddyIsLive(ts: Tiles, end: nat, a: nat)
    requires Tiled(ts, end)
    requires a in ts && ts[a].cls < TOP
    ensures Buddy(a, ts[a].cls) in ts
    ensures ts[Buddy(a, ts[a].cls)].cls <= ts[a].cls
  {
    var c := ts[a].cls;
    var b := Buddy(a, c);
    assert Placed(ts, end, a);
    BuddyFacts(a, c);
    var lo := if b < a then b else a;
    assert Aligned(lo, c + 1);
    PairInside(a, c, end);
    assert HEAP <= b < end;
    assert Covered(ts, b);
    var t: nat :| Covers(ts, t, b);
    var d := ts[t].cls;
    assert Placed(ts, end, t);
    BlocksDisjoint(ts, end, t, a);
    if d > c {
      Nested(t, d, lo, c + 1);
    } else {
      Nested(b, c, t, d);
    }
  }

  /** The pair of a block below the top class lies in the same chunk, so inside the heap. */
  lemma PairInside(a: nat, c: nat, end: nat)
    requires c < TOP && Aligned(a, c) && a < end && Aligned(end, TOP)
    ensures Buddy(a, c) >= HEAP
    ensures a + Size(c) <= end && Buddy(a, c) + Size(c) <= end
  {
    BuddyFacts(a, c);
    var b := Buddy(a, c);
    var lo := if b < a then b else a;
    SizeGrows(c + 1, TOP);
    if lo + Size(c + 1) > end {
      DivPlus(end - HEAP, TOP);
      Nested(end, TOP, lo, c + 1);
    }
  }

  // ---------------------------------------------------------------------------------------------
  // Splitting, merging, growing
  // ---------------------------------------------------------------------------------------------

  /** The block at `a` becomes two free blocks of class `half`. */
  function Split(ts: Tiles, a: nat, half: nat): Tiles {
    ts[a := Tile(half, true)][a + Size(half) := Tile(half, true)]
  }

  lemma SplitTiled(ts: Tiles, end: nat, a: nat, half: nat)
    requires Tiled(ts, end) && a in ts && ts[a].cls == half + 1
    ensures a + Size(half) !in ts
    ensures Tiled(Split(ts, a, half), end)
  {
    var b := a + Size(half);
    var rs := Split(ts, a, half);
    assert Placed(ts, end, a);
    HalvesAligned(a, half);
    forall t | t in ts ensures t != b {
      assert Apart(ts, a, t);
    }
    forall t | t in rs ensures Placed(rs, end, t) {
      if t != a && t != b {
        assert Placed(ts, end, t);
      }
    }
    SplitApart(ts, end, a, half);
    SplitCovers(ts, end, a, half);
  }

  lemma SplitTaken(ts: Tiles, a: nat, half: nat)
    requires a in ts && ts[a].free && a + Size(half) !in ts
    ensures Taken(Split(ts, a, half)) == Taken(ts)
  {
  }

  lemma MarkTaken(ts: Tiles, a: nat)
    requires a in ts && ts[a].free
    ensures a !in Taken(ts)
    ensures Taken(ts[a := Tile(ts[a].cls, false)]) == Taken(ts)[a := Tile(ts[a].cls, false)]
  {
  }

  lemma SplitApart(ts: Tiles, end: nat, a: nat, half: nat)
    requires Tiled(ts, end) && a in ts && ts[a].cls == half + 1
    ensures var rs := Split(ts, a, half); forall s, t :: s in rs && t in rs ==> Apart(rs, s, t)
  {
    var b := a + Size(half);
    var rs := Split(ts, a, half);
    forall t | t in ts ensures t != b {
      assert Apart(ts, a, t);
    }
    forall s, t | s in rs && t in rs ensures Apart(rs, s, t) {
      var u, v := if s == b then a else s, if t == b then a else t;
      assert Apart(ts, u, v) && Apart(ts, v, u);
    }
  }

  lemma SplitCovers(ts: Tiles, end: nat, a: nat, half: nat)
    requires Tiled(ts, end) && a in ts && ts[a].cls == half + 1
    ensures forall x: nat :: HEAP <= x < end ==> Covered(Split(ts, a, half), x)
  {
    var b := a + Size(half);
    var rs := Split(ts, a, half);
    forall x: nat | HEAP <= x < end ensures Covered(rs, x) {
      assert Covered(ts, x);
      var t: nat :| Covers(ts, t, x);
      if t == a {
        assert Covers(rs, if x < b then a else b, x);
      } else {
        assert t != b by { assert Apart(ts, a, t); }
        assert Covers(rs, t, x);
      }
    }
  }

  /** `a` and its free buddy become one block of the next class, at the lower address. */
  ghost function Merge(ts: Tiles, a: nat): Tiles
    requires Mergeable(ts, a)
  {
    var c := ts[a].cls;
    var b := Buddy(a, c);
    (ts - {a, b})[(if b < a then b else a) := Tile(c + 1, true)]
  }

  lemma MergeTiled(ts: Tiles, end: nat, a: nat)
    requires Tiled(ts, end) && Mergeable(ts, a)
    ensures Tiled(Merge(ts, a), end)
    ensures Taken(Merge(ts, a)) == Taken(ts)
  {
    var c := ts[a].cls;
    var b := Buddy(a, c);
    var rs := Merge(ts, a);
    assert Placed(ts, end, a) && Placed(ts, end, b);
    BuddyFacts(a, c);
    forall t | t in rs ensures Placed(rs, end, t) {
      if t != a && t != b {
        assert Placed(ts, end, t);
      }
    }
    MergeApart(ts, end, a);
    MergeCovers(ts, end, a);
  }

  lemma MergeApart(ts: Tiles, end: nat, a: nat)
    requires Tiled(ts, end) && Mergeable(ts, a)
    ensures var rs := Merge(ts, a); forall s, t :: s in rs && t in rs ==> Apart(rs, s, t)
  {
    var b := Buddy(a, ts[a].cls);
    var rs := Merge(ts, a);
    var lo := if b < a then b else a;
    var hi := if b < a then a else b;
    forall s, t | s in rs && t in rs ensures Apart(rs, s, t) {
      if s == lo {
        assert Apart(ts, hi, t) && Apart(ts, lo, t);
      } else {
        assert Apart(ts, s, t);
      }
    }
  }

  lemma MergeCovers(ts: Tiles, end: nat, a: nat)
    requires Tiled(ts, end) && Mergeable(ts, a)
    ensures forall x: nat :: HEAP <= x < end ==> Covered(Merge(ts, a), x)
  {
    var b := Buddy(a, ts[a].cls);
    var rs := Merge(ts, a);
    var lo := if b < a then b else a;
    var hi := if b < a then a else b;
    forall x: nat | HEAP <= x < end ensures Covered(rs, x) {
      assert Covered(ts, x);
      var t: nat :| Covers(ts, t, x);
      assert Covers(rs, if t == hi then lo else t, x);
    }
  }

  /** Only the free flag of a block changes. */
  lemma MarkTiled(ts: Tiles, end: nat, a: nat, free: bool)
    requires Tiled(ts, end) && a in ts
    ensures Tiled(ts[a := Tile(ts[a].cls, free)], end)
  {
    var rs := ts[a := Tile(ts[a].cls, free)];
    forall t | t in rs ensures Placed(rs, end, t) {
      assert Placed(ts, end, t);
    }
    forall s, t | s in rs && t in rs ensures Apart(rs, s, t) {
      assert Apart(ts, s, t);
    }
    forall x: nat | HEAP <= x < end ensures Covered(rs, x) {
      assert Covered(ts, x);
      var t: nat :| Covers(ts, t, x);
      assert Covers(rs, t, x);
    }
  }

  lemma GrowTiled(ts: Tiles, end: nat)
    requires Tiled(ts, end)
    ensures end !in ts
    ensures Tiled(ts[end := Tile(TOP, true)], end + Size(TOP))
  {
    var rs := ts[end := Tile(TOP, true)];
    forall t | t in ts ensures t != end {
      assert Placed(ts, end, t);
    }
    DivPlus(end - HEAP, TOP);
    forall t | t in rs ensures Placed(rs, end + Size(TOP), t) {
      if t != end {
        assert Placed(ts, end, t);
      }
    }
    forall s, t | s in rs && t in rs ensures Apart(rs, s, t) {
      if s != end && t != end {
        assert Apart(ts, s, t);
      } else if s != end {
        assert Placed(ts, end, s);
      } else if t != end {
        assert Placed(ts, end, t);
      }
    }
    forall x: nat | HEAP <= x < end + Size(TOP) ensures Covered(rs, x) {
      if x < end {
        assert Covered(ts, x);
        var t: nat :| Covers(ts, t, x);
        assert t != end;
        assert Covers(rs, t, x);
      } else {
        assert Covers(rs, end, x);
      }
    }
  }

  lemma EmptyTiled()
    ensures Tiled(map[], HEAP)
  {
    DivZero(TOP);
  }

  // ---------------------------------------------------------------------------------------------
  // Canonical form is a normal form
  // ---------------------------------------------------------------------------------------------

  /** Inside an aligned region of class `k` whose blocks are all free, a block of a smaller class
      leads to two free buddies. */
  lemma {:induction false} BrokenRegion(ts: Tiles, end: nat, r: nat, k: nat, a: nat)
    requires Tiled(ts, end) && k < CLASSES && Aligned(r, k)
    requires forall t :: t in ts && r <= t < r + Size(k) ==> ts[t].free
    requires a in ts && r <= a && ts[a].cls < k && a < r + Size(k)
    ensures exists t :: Mergeable(ts, t)
    decreases ts[a].cls
  {
    var c := ts[a].cls;
    assert Placed(ts, end, a);
    BuddyIsLive(ts, end, a);
    BuddyFacts(a, c);
    var b := Buddy(a, c);
    var lo := if b < a then b else a;
    Nested(r, k, lo, c + 1);
    if ts[b].cls == c {
      assert Mergeable(ts, a);
    } else {
      BrokenRegion(ts, end, r, k, b);
    }
  }

  lemma TakenAlike(ts: Tiles, us: Tiles, t: nat)
    requires Taken(ts) == Taken(us) && t in ts
    ensures !ts[t].free ==> t in us && us[t] == ts[t]
  {
    assert t in Taken(ts) <==> t in Taken(us);
  }

  /** A free block of one canonical tiling is a block of any other with the same taken blocks. */
  lemma FreeBlockShared(ts: Tiles, us: Tiles, end: nat, a: nat)
    requires Tiled(ts, end) && Tiled(us, end) && Canonical(ts) && Canonical(us)
    requires Taken(ts) == Taken(us)
    requires a in ts && ts[a].free
    ensures a in us && us[a] == ts[a]
  {
    var c := ts[a].cls;
    assert Placed(ts, end, a);
    assert Covered(us, a);
    var u: nat :| Covers(us, u, a);
    var d := us[u].cls;
    assert Placed(us, end, u);
    TakenAlike(us, ts, u);
    if u in ts {
      BlocksDisjoint(ts, end, a, u);
    }
    if d > c {
      Nested(u, d, a, c);
      NoTakenInside(ts, us, end, u);
      BrokenRegion(ts, end, u, d, a);
    } else {
      Nested(a, c, u, d);
      if d < c {
        NoTakenInside(us, ts, end, a);
        BrokenRegion(us, end, a, c, u);
      }
    }
  }

  /** The blocks of one tiling inside a free block of the other are free. */
  lemma NoTakenInside(ts: Tiles, us: Tiles, end: nat, u: nat)
    requires Tiled(ts, end) && Tiled(us, end) && Taken(ts) == Taken(us)
    requires u in us && us[u].free
    ensures forall t :: t in ts && u <= t < u + Size(us[u].cls) ==> ts[t].free
  {
    forall t | t in ts && u <= t < u + Size(us[u].cls) ensures ts[t].free {
      TakenAlike(ts, us, t);
      if t in us {
        BlocksDisjoint(us, end, t, u);
      }
    }
  }

  /** Canonical form: the heap extent and the taken blocks determine every free block. */
  lemma CanonicalIsUnique(ts: Tiles, us: Tiles, end: nat)
    requires Tiled(ts, end) && Tiled(us, end) && Canonical(ts) && Canonical(us)
    requires Taken(ts) == Taken(us)
    ensures ts == us
  {
    forall a | a in ts ensures a in us && us[a] == ts[a] {
      if ts[a].free {
        FreeBlockShared(ts, us, end, a);
      } else {
        assert a in Taken(ts);
      }
    }
    forall a | a in us ensures a in ts {
      if us[a].free {
        FreeBlockShared(us, ts, end, a);
      } else {
        assert a in Taken(us);
      }
    }
  }

  // ---------------------------------------------------------------------------------------------
  // Bytes
  // ---------------------------------------------------------------------------------------------

  /** The bytes of the blocks at the given addresses. */
  ghost function Bytes(ts: Tiles, addresses: set<nat>): nat
    requires addresses <= ts.Keys
  {
    if addresses == {} then 0
    else var a :| a in addresses; Size(ts[a].cls) + Bytes(ts, addresses - {a})
  }

  lemma {:induction false} BytesPick(ts: Tiles, addresses: set<nat>, a: nat)
    requires addresses <= ts.Keys && a in addresses
    ensures Bytes(ts, addresses) == Size(ts[a].cls) + Bytes(ts, addresses - {a})
    decreases addresses
  {
    var b :| b in addresses && Bytes(ts, addresses) == Size(ts[b].cls) + Bytes(ts, addresses - {b});
    if a != b {
      BytesPick(ts, addresses - {b}, a);
      BytesPick(ts, addresses - {a}, b);
      assert addresses - {b} - {a} == addresses - {a} - {b};
    }
  }

  lemma {:induction false} BytesSplit(ts: Tiles, xs: set<nat>, ys: set<nat>)
    requires xs <= ts.Keys && ys <= ts.Keys && xs !! ys
    ensures Bytes(ts, xs + ys) == Bytes(ts, xs) + Bytes(ts, ys)
    decreases xs
  {
    if xs == {} {
      assert xs + ys == ys;
    } else {
      var a :| a in xs;
      BytesPick(ts, xs, a);
      BytesPick(ts, xs + ys, a);
      BytesSplit(ts, xs - {a}, ys);
      assert xs + ys - {a} == xs - {a} + ys;
    }
  }

  ghost function Below(ts: Tiles, hi: nat): set<nat> {
    set t | t in ts && t < hi
  }

  /** No block straddles `hi`. */
  ghost predicate Boundary(ts: Tiles, hi: nat) {
    forall t :: t in ts && t < hi ==> t + Size(ts[t].cls) <= hi
  }

  lemma LastBelow(ts: Tiles, end: nat, t: nat, hi: nat)
    requires Tiled(ts, end) && HEAP < hi <= end && Boundary(ts, hi) && Covers(ts, t, hi - 1)
    ensures HEAP <= t < hi && t + Size(ts[t].cls) == hi
    ensures Below(ts, hi) - {t} == Below(ts, t)
    ensures Boundary(ts, t)
  {
    assert Placed(ts, end, t);
    forall s | s in ts && s < hi && s != t ensures s < t && s + Size(ts[s].cls) <= t {
      assert Apart(ts, s, t) && Apart(ts, t, s);
    }
  }

  /** The blocks below a block boundary fill the heap up to it. */
  lemma {:induction false} BytesBelow(ts: Tiles, end: nat, hi: nat)
    requires Tiled(ts, end) && HEAP <= hi <= end && Boundary(ts, hi)
    ensures Bytes(ts, Below(ts, hi)) == hi - HEAP
    decreases hi
  {
    if hi == HEAP {
      forall t | t in ts ensures t >= HEAP {
        assert Placed(ts, end, t);
      }
      assert Below(ts, hi) == {};
    } else {
      assert Covered(ts, hi - 1);
      var t: nat :| Covers(ts, t, hi - 1);
      LastBelow(ts, end, t, hi);
      BytesPick(ts, Below(ts, hi), t);
      BytesBelow(ts, end, t);
    }
  }

  ghost function FreeAt(ts: Tiles): set<nat> {
    set t | t in ts && ts[t].free
  }

  ghost function TakenAt(ts: Tiles): set<nat> {
    set t | t in ts && !ts[t].free
  }

  /** Free and taken bytes always add up to the extent of the heap. */
  lemma BytesConserved(ts: Tiles, end: nat)
    requires Tiled(ts, end)
    ensures Bytes(ts, FreeAt(ts)) + Bytes(ts, TakenAt(ts)) == end - HEAP
  {
    BytesSplit(ts, FreeAt(ts), TakenAt(ts));
    forall t | t in ts ensures t + Size(ts[t].cls) <= end {
      assert Placed(ts, end, t);
    }
    assert FreeAt(ts) + TakenAt(ts) == Below(ts, end);
    BytesBelow(ts, end, end);
  }
}
