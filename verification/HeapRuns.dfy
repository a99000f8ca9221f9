/** Properties of the heap over whole runs, and of single allocations seen from outside. */
module HeapRuns {
  import opened Dyadic
  import opened Tiling
  import opened Buddies
  import opened Lists
  import opened Words
  import opened FreeLists
  import opened HeapFrames
  import opened Heaps

  // ---------------------------------------------------------------------------------------------
  // Runs
  // ---------------------------------------------------------------------------------------------

  datatype Op = AllocOp(cls: nat) | FreeOp(block: nat)

  /** What a client may call: a block to free must be in its hands. */
  ghost predicate Enabled(s: State, op: Op) {
    match op
    case AllocOp(c) => c < CLASSES
    case FreeOp(a) => a in Taken(s.tiles)
  }

  ghost function Step(s: State, op: Op): (r: State)
    requires Ok(s) && Enabled(s, op)
    ensures Ok(r)
  {
    match op
    case AllocOp(c) =>
      AllocOk(s, c);
      Alloc(s, c).0
    case FreeOp(a) =>
      FreeOk(s, a);
      Free(s, a)
  }

  ghost predicate Runs(s: State, ops: seq<Op>, r: State)
    requires Ok(s)
    decreases |ops|
  {
    if ops == [] then r == s
    else Enabled(s, ops[0]) && Runs(Step(s, ops[0]), ops[1..], r)
  }

  lemma StepEnd(s: State, op: Op)
    requires Ok(s) && Enabled(s, op)
    ensures s.end <= Step(s, op).end
  {
    match op
    case AllocOp(c) => AllocOk(s, c);
    case FreeOp(a) => FreeOk(s, a);
  }

  lemma {:induction false} RunsOk(s: State, ops: seq<Op>, r: State)
    requires Ok(s) && Runs(s, ops, r)
    ensures Ok(r) && s.end <= r.end
    decreases |ops|
  {
    if ops != [] {
      StepEnd(s, ops[0]);
      RunsOk(Step(s, ops[0]), ops[1..], r);
    }
  }

  /** In every state reachable from the bootstrap the blocks tile the heap in canonical form, the
      lists hold exactly the free blocks, and free and taken bytes add up to the extent. */
  lemma ReachableOk(ops: seq<Op>, r: State)
    requires Ok(Initial()) && Runs(Initial(), ops, r)
    ensures Ok(r)
    ensures Bytes(r.tiles, FreeAt(r.tiles)) + Bytes(r.tiles, TakenAt(r.tiles)) == r.end - HEAP
  {
    RunsOk(Initial(), ops, r);
    BytesConserved(r.tiles, r.end);
  }

  ghost predicate SameElements(r: State, r': State, k: nat) {
    k < |r.lists| && k < |r'.lists| && Elements(r.lists[k]) == Elements(r'.lists[k])
  }

  /** However they were reached, two heaps of the same extent with the same taken blocks have the same
      free blocks, each list holding the same ones. */
  lemma HistoryForgotten(s: State, ops: seq<Op>, r: State, ops': seq<Op>, r': State)
    requires Ok(s) && Runs(s, ops, r) && Runs(s, ops', r')
    requires r.end == r'.end && Taken(r.tiles) == Taken(r'.tiles)
    ensures r.tiles == r'.tiles
    ensures forall k :: 0 <= k < CLASSES ==> SameElements(r, r', k)
  {
    RunsOk(s, ops, r);
    RunsOk(s, ops', r');
    CanonicalIsUnique(r.tiles, r'.tiles, r.end);
    forall k | 0 <= k < CLASSES ensures SameElements(r, r', k) {
      assert ListOk(r.tiles, r.lists[k], k, NONE) && ListOk(r'.tiles, r'.lists[k], k, NONE);
    }
  }

  // ---------------------------------------------------------------------------------------------
  // Frees
  // ---------------------------------------------------------------------------------------------

  ghost predicate AllTaken(s: State, xs: seq<nat>) {
    NoDup(xs) && forall x :: x in xs ==> x in Taken(s.tiles)
  }

  lemma FirstElement(xs: seq<nat>)
    requires NoDup(xs) && xs != []
    ensures NoDup(xs[1..]) && xs[0] !in xs[1..]
    ensures Elements(xs) == {xs[0]} + Elements(xs[1..])
  {
    NoDupTail(xs);
  }

  ghost function FreeAll(s: State, xs: seq<nat>): (r: State)
    requires Ok(s) && AllTaken(s, xs)
    ensures Ok(r) && r.end == s.end
    ensures Taken(r.tiles) == Taken(s.tiles) - Elements(xs)
    decreases |xs|
  {
    if xs == [] then s
    else
      FirstElement(xs);
      FreeOk(s, xs[0]);
      FreeAll(Free(s, xs[0]), xs[1..])
  }

  /** Freeing the same blocks in any order leaves the same blocks. */
  lemma FreeOrderIrrelevant(s: State, xs: seq<nat>, ys: seq<nat>)
    requires Ok(s) && AllTaken(s, xs) && AllTaken(s, ys)
    requires Elements(xs) == Elements(ys)
    ensures FreeAll(s, xs).tiles == FreeAll(s, ys).tiles
  {
    CanonicalIsUnique(FreeAll(s, xs).tiles, FreeAll(s, ys).tiles, s.end);
  }

  /** Freeing what was just allocated restores every block; when the allocation had to grow the
      heap, the new chunk stays as one free block. */
  lemma FreeUndoesAlloc(s: State, c: nat)
    requires Ok(s) && c < CLASSES
    ensures var (r, a) := Alloc(s, c);
            && Ok(r) && a in Taken(r.tiles) && r.tiles[a].cls < CLASSES
            && Free(r, a).tiles == if MustGrow(s, c) then s.tiles[s.end := Tile(TOP, true)] else s.tiles
  {
    hide Alloc, Free, Canonical, Tiled, ListOk;
    AllocOk(s, c);
    var (r, a) := Alloc(s, c);
    FreeOk(r, a);
    var f := Free(r, a);
    assert Taken(f.tiles) == Taken(s.tiles);
    if MustGrow(s, c) {
      assert s.lists[TOP] == [];
      GrowKeeps(s);
      CanonicalIsUnique(f.tiles, Grow(s).tiles, f.end);
    } else {
      CanonicalIsUnique(f.tiles, s.tiles, f.end);
    }
  }

  /** The blocks under the payloads `xs` are freed one after the other, from number `i` on. */
  ghost function Frees(xs: seq<nat>, i: nat): seq<Op>
    requires i <= |xs|
    decreases |xs| - i
  {
    if i == |xs| then [] else [FreeOp(if xs[i] >= HEADER then xs[i] - HEADER else 0)] + Frees(xs, i + 1)
  }

  /** What is left to do from number `i` on leads where the whole does. */
  ghost predicate Continues(s: State, xs: seq<nat>, r: State, i: nat)
    requires i <= |xs|
  {
    Ok(s) && Ok(r) && forall q {:trigger Runs(r, Frees(xs, i), q)} :: Runs(r, Frees(xs, i), q) ==> Runs(s, Frees(xs, 0), q)
  }

  lemma ContinuesOn(s: State, xs: seq<nat>, r: State, i: nat)
    requires i < |xs| && Continues(s, xs, r, i) && xs[i] >= HEADER && xs[i] - HEADER in Taken(r.tiles)
    requires |r.lists| == CLASSES
    ensures r.tiles[xs[i] - HEADER].cls < CLASSES
    ensures Continues(s, xs, Free(r, xs[i] - HEADER), i + 1)
  {
    hide Free, Ok;
    var a := xs[i] - HEADER;
    FreeOk(r, a);
    var ops := Frees(xs, i);
    assert ops[0] == FreeOp(a) && ops[1..] == Frees(xs, i + 1);
    forall q | Runs(Free(r, a), Frees(xs, i + 1), q) ensures Runs(s, Frees(xs, 0), q) {
      assert Runs(r, ops, q);
    }
  }

  lemma ContinuesFirst(s: State, xs: seq<nat>)
    requires Ok(s)
    ensures Continues(s, xs, s, 0)
  {
  }

  lemma ContinuesLast(s: State, xs: seq<nat>, r: State)
    requires Continues(s, xs, r, |xs|)
    ensures Runs(s, Frees(xs, 0), r)
  {
    assert Runs(r, Frees(xs, |xs|), r);
  }

  // ---------------------------------------------------------------------------------------------
  // Everything freed
  // ---------------------------------------------------------------------------------------------

  /** A block of a heap with nothing taken is a whole chunk. */
  lemma OnlyChunks(s: State, a: nat)
    requires Ok(s) && Taken(s.tiles) == map[] && a in s.tiles
    ensures s.tiles[a] == Tile(TOP, true)
  {
    assert a !in Taken(s.tiles);
    assert Placed(s.tiles, s.end, a);
    var c := s.tiles[a].cls;
    if c < TOP {
      BuddyIsLive(s.tiles, s.end, a);
      BuddyFacts(a, c);
      PairInside(a, c, s.end);
      var lo := if Buddy(a, c) < a then Buddy(a, c) else a;
      var chunk := Chunk(lo, c + 1);
      forall t | t in s.tiles ensures s.tiles[t].free {
        assert t !in Taken(s.tiles);
      }
      BrokenRegion(s.tiles, s.end, chunk, TOP, a);
    }
  }

  /** The top-class region around an aligned region. */
  ghost function Chunk(r: nat, k: nat): (q: nat)
    requires k <= TOP && Aligned(r, k)
    ensures Aligned(q, TOP) && q <= r && r + Size(k) <= q + Size(TOP)
    decreases TOP - k
  {
    if k == TOP then r
    else
      BuddyFacts(r, k);
      Chunk(if Buddy(r, k) < r then Buddy(r, k) else r, k + 1)
  }

  /** When every block has been freed, the lists below the top class are empty and the top list holds
      exactly the chunks of the heap. */
  lemma AllFreedIsChunks(s: State)
    requires Ok(s) && Taken(s.tiles) == map[]
    ensures forall k :: 0 <= k < TOP ==> s.lists[k] == []
    ensures forall a: nat :: a in s.lists[TOP] <==> Aligned(a, TOP) && a < s.end
  {
    forall k | 0 <= k < TOP ensures s.lists[k] == [] {
      if s.lists[k] != [] {
        HeadIsFree(s, k);
        OnlyChunks(s, s.lists[k][0]);
      }
    }
    assert ListOk(s.tiles, s.lists[TOP], TOP, NONE);
    forall a: nat ensures a in s.lists[TOP] <==> Aligned(a, TOP) && a < s.end {
      if a in s.lists[TOP] {
        assert Placed(s.tiles, s.end, a);
      }
      if Aligned(a, TOP) && a < s.end {
        assert Covered(s.tiles, a);
        var t: nat :| Covers(s.tiles, t, a);
        OnlyChunks(s, t);
        assert Placed(s.tiles, s.end, t);
        Nested(t, TOP, a, TOP);
        Nested(a, TOP, t, TOP);
      }
    }
  }

  // ---------------------------------------------------------------------------------------------
  // Growth
  // ---------------------------------------------------------------------------------------------

  /** An aligned region of class `c` inside the heap that no taken block meets. */
  ghost predicate Vacant(s: State, r: nat, c: nat) {
    && Aligned(r, c) && r + Size(c) <= s.end
    && forall t :: t in Taken(s.tiles) ==> t + Size(s.tiles[t].cls) <= r || r + Size(c) <= t
  }

  /** The heap grows exactly when no aligned region of the size wanted is vacant: whatever has been
      taken and freed before, no room is missed. */
  lemma GrowsOnlyWhenFull(s: State, c: nat)
    requires Ok(s) && c < CLASSES
    ensures MustGrow(s, c) <==> forall r: nat :: !Vacant(s, r, c)
  {
    if !MustGrow(s, c) {
      var k :| c <= k < CLASSES && s.lists[k] != [];
      HeadIsFree(s, k);
      HeadIsVacant(s, k, c);
    }
    forall r: nat | Vacant(s, r, c) ensures !MustGrow(s, c) {
      VacantIsListed(s, r, c);
    }
  }

  lemma HeadIsVacant(s: State, k: nat, c: nat)
    requires Ok(s) && c <= k < CLASSES && HeadIs(s, k)
    ensures Vacant(s, s.lists[k][0], c)
  {
    var a := s.lists[k][0];
    assert Placed(s.tiles, s.end, a);
    SizeGrows(c, k);
    DivDown(a - HEAP, k, c);
    forall t | t in Taken(s.tiles) ensures t + Size(s.tiles[t].cls) <= a || a + Size(c) <= t {
      assert Apart(s.tiles, t, a) && Apart(s.tiles, a, t);
    }
  }

  lemma VacantIsListed(s: State, r: nat, c: nat)
    requires Ok(s) && c < CLASSES && Vacant(s, r, c)
    ensures exists k :: c <= k < CLASSES && s.lists[k] != []
  {
    assert Covered(s.tiles, r);
    var t: nat :| Covers(s.tiles, t, r);
    var k := s.tiles[t].cls;
    assert Placed(s.tiles, s.end, t);
    assert t !in Taken(s.tiles);
    if k < c {
      Nested(r, c, t, k);
      forall u | u in s.tiles && r <= u < r + Size(c) ensures s.tiles[u].free {
        assert u !in Taken(s.tiles);
      }
      BrokenRegion(s.tiles, s.end, r, c, t);
    }
    assert ListOk(s.tiles, s.lists[k], k, NONE);
    assert t in s.lists[k];
  }

  // ---------------------------------------------------------------------------------------------
  // Where an allocation comes from
  // ---------------------------------------------------------------------------------------------

  /** `j` is the lowest class from `c` up whose list is not empty. */
  ghost predicate LowestFrom(s: State, c: nat, j: nat)
    requires |s.lists| == CLASSES
  {
    c <= j < CLASSES && s.lists[j] != [] && forall k :: c <= k < j ==> s.lists[k] == []
  }

  /** List `k` after the first block `a` of list `j` has been cut down to class `c`. */
  function ListAfterCut(lists: seq<seq<nat>>, a: nat, j: nat, c: nat, k: nat): seq<int>
    requires c < j < |lists| && k < |lists| && lists[j] != []
  {
    if k == c then [a + Size(j) - Size(c), a + Size(j) - Size(c + 1)]
    else if c < k < j then [a + Size(j) - Size(k + 1)]
    else if k == j then lists[j][1..]
    else lists[k]
  }

  lemma {:induction false} RefillExact(s: State, c: nat, j: nat, k: nat)
    requires |s.lists| == CLASSES && LowestFrom(s, c, j) && c < j && k < CLASSES
    ensures Refill(s, c).lists[k] == ListAfterCut(s.lists, s.lists[j][0], j, c, k)
    decreases j - c
  {
    hide ListAfterCut, LowestFrom, Size;
    LowestStep(s, c, j);
    if c + 1 < j {
      RefillExact(s, c + 1, j, k);
      RefillExact(s, c + 1, j, c);
      RefillExact(s, c + 1, j, c + 1);
    }
    HalveExact(s, Refill(s, c + 1), c, j, k);
  }

  lemma LowestStep(s: State, c: nat, j: nat)
    requires |s.lists| == CLASSES && LowestFrom(s, c, j) && c < j
    ensures s.lists[c] == [] && LowestFrom(s, c + 1, j) && s.lists[j] != []
    ensures Refill(s, c) == Halve(Refill(s, c + 1), c + 1)
    ensures c + 1 == j ==> Refill(s, c + 1) == s
  {
  }

  /** One more cut, whose upper half is the first block one class down. */
  lemma HalveExact(s: State, q: State, c: nat, j: nat, k: nat)
    requires |s.lists| == CLASSES == |q.lists| && c < j < CLASSES && k < CLASSES
    requires s.lists[j] != [] && s.lists[c] == [] && q.lists[c + 1] != []
    requires c + 1 == j ==> q == s
    requires c + 1 < j ==> q.lists[k] == ListAfterCut(s.lists, s.lists[j][0], j, c + 1, k)
    requires c + 1 < j ==> q.lists[c] == ListAfterCut(s.lists, s.lists[j][0], j, c + 1, c)
    requires c + 1 < j ==> q.lists[c + 1] == ListAfterCut(s.lists, s.lists[j][0], j, c + 1, c + 1)
    ensures Halve(q, c + 1).lists[k] == ListAfterCut(s.lists, s.lists[j][0], j, c, k)
  {
  }

  /** The block handed out is the upper end of the first block of the lowest non-empty list. */
  lemma AllocTakesUpperEnd(s: State, c: nat, j: nat)
    requires |s.lists| == CLASSES && LowestFrom(s, c, j)
    ensures Alloc(s, c).1 == s.lists[j][0] + Size(j) - Size(c)
  {
    if c < j {
      RefillExact(s, c, j, c);
    }
  }

  /** One lower half stays behind in each list between, and no other list changes. With the taken
      blocks, the lists fix all the blocks. */
  lemma AllocLists(s: State, c: nat, j: nat, k: nat)
    requires |s.lists| == CLASSES && LowestFrom(s, c, j) && k < CLASSES
    ensures |Alloc(s, c).0.lists| == CLASSES
    ensures Alloc(s, c).0.lists[k] == ListAfterAlloc(s.lists, j, c, k)
  {
    var q := Refill(s, c);
    if c < j {
      RefillExact(s, c, j, k);
      RefillExact(s, c, j, c);
      PopCut(s.lists, q.lists, s.lists[j][0], j, c, k);
    }
  }

  /** List `k` after an allocation of class `c` served from list `j`. */
  function ListAfterAlloc(lists: seq<seq<nat>>, j: nat, c: nat, k: nat): seq<int>
    requires c <= j < |lists| && k < |lists| && lists[j] != []
  {
    if k == j then lists[j][1..]
    else if c <= k < j then [lists[j][0] + Size(j) - Size(k + 1)]
    else lists[k]
  }

  lemma PopCut(lists: seq<seq<nat>>, cut: seq<seq<nat>>, a: nat, j: nat, c: nat, k: nat)
    requires c < j < |lists| == |cut| && k < |lists| && lists[j] != [] && a == lists[j][0]
    requires cut[k] == ListAfterCut(lists, a, j, c, k) && cut[c] == ListAfterCut(lists, a, j, c, c)
    ensures cut[c := cut[c][1..]][k] == ListAfterAlloc(lists, j, c, k)
  {
  }

  /** When the heap grows, the new chunk is cut instead. */
  lemma AllocFromGrowth(s: State, c: nat)
    requires Ok(s) && c < CLASSES && MustGrow(s, c)
    ensures Ok(Grow(s)) && LowestFrom(Grow(s), c, TOP) && Grow(s).lists[TOP] == [s.end]
    ensures Alloc(s, c) == Alloc(Grow(s), c)
  {
    GrowKeeps(s);
    RefillFromGrowth(s, c);
  }

  lemma {:induction false} RefillFromGrowth(s: State, c: nat)
    requires c < CLASSES == |s.lists| && MustGrow(s, c)
    ensures Refill(s, c) == Refill(Grow(s), c)
    decreases CLASSES - c
  {
    assert s.lists[c] == [];
    if c < TOP {
      RefillFromGrowth(s, c + 1);
    }
  }

  // ---------------------------------------------------------------------------------------------
  // Where a free puts the block
  // ---------------------------------------------------------------------------------------------

  /** The aligned region of class `k` around the address `a`. */
  function Region(a: nat, k: nat): (r: nat)
    requires a >= HEAP
    ensures HEAP <= r <= a
  {
    Remainder(a - HEAP, Size(k));
    a - (a - HEAP) % Size(k)
  }

  lemma Remainder(x: nat, m: nat)
    requires m > 0
    ensures 0 <= x % m <= x && x % m < m && (x - x % m) % m == 0
  {
    assert x == m * (x / m) + x % m;
    ModIs(m * (x / m), m, x / m, 0);
  }

  lemma RegionIs(a: nat, k: nat)
    requires a >= HEAP
    ensures Aligned(Region(a, k), k) && HEAP <= Region(a, k) <= a < Region(a, k) + Size(k)
  {
    hide Size, Div;
    Remainder(a - HEAP, Size(k));
    DivIsMod(Region(a, k) - HEAP, k);
  }

  lemma OneRegion(a: nat, k: nat, r: nat)
    requires a >= HEAP && Aligned(r, k) && r <= a < r + Size(k)
    ensures r == Region(a, k)
  {
    RegionIs(a, k);
    Nested(r, k, Region(a, k), k);
    Nested(Region(a, k), k, r, k);
  }

  /** The buddy of that region. */
  function BuddyAround(a: nat, k: nat): (b: nat)
    requires a >= HEAP
    ensures b == Buddy(Region(a, k), k)
  {
    RegionIs(a, k);
    BuddyFacts(Region(a, k), k);
    Buddy(Region(a, k), k)
  }

  /** It is one free block. */
  ghost predicate BuddyFree(ts: Tiles, a: nat, k: nat)
    requires a >= HEAP
  {
    BuddyAround(a, k) in ts && ts[BuddyAround(a, k)] == Tile(k, true)
  }

  /** From class `c` on the buddies around `a` are free up to class `j`, where there is none. */
  ghost predicate JoinsUpTo(ts: Tiles, a: nat, c: nat, j: nat)
    requires a >= HEAP
  {
    && c <= j < CLASSES
    && (forall k {:trigger BuddyFree(ts, a, k)} :: c <= k < j ==> BuddyFree(ts, a, k))
    && (j == TOP || !BuddyFree(ts, a, j))
  }

  lemma {:induction false} JoinsSomewhere(ts: Tiles, a: nat, c: nat) returns (j: nat)
    requires a >= HEAP && c < CLASSES
    ensures JoinsUpTo(ts, a, c, j)
    decreases CLASSES - c
  {
    if c < TOP && BuddyFree(ts, a, c) {
      j := JoinsSomewhere(ts, a, c + 1);
    } else {
      j := c;
    }
  }

  /** `ys` is `xs` without the element `x`, the rest in order. */
  ghost predicate LosesOnly(xs: seq<nat>, x: int, ys: seq<nat>) {
    exists i :: 0 <= i < |xs| && xs[i] == x && ys == xs[..i] + xs[i + 1..]
  }

  /** Merging the first pair leaves the regions and buddies around as they are. */
  lemma JoinsOn(s: State, b: nat, j: nat)
    requires b in s.tiles && s.tiles[b].free && b >= HEAP && Aligned(b, s.tiles[b].cls)
    requires |s.lists| == CLASSES && JoinsUpTo(s.tiles, b, s.tiles[b].cls, j) && s.tiles[b].cls < j
    ensures Region(b, s.tiles[b].cls) == b && Mergeable(s.tiles, b)
    ensures var m, lo := s.tiles[b].cls, Lower(s, b);
            && lo >= HEAP && Aligned(lo, m + 1) && JoinsUpTo(MergeStep(s, b).tiles, lo, m + 1, j)
            && forall k :: m < k < CLASSES ==> Region(lo, k) == Region(b, k)
  {
    var m := s.tiles[b].cls;
    OneRegion(b, m, b);
    assert BuddyFree(s.tiles, b, m);
    BuddyFacts(b, m);
    var lo, ts := Lower(s, b), MergeStep(s, b).tiles;
    forall k | m < k < CLASSES ensures Region(lo, k) == Region(b, k) && (BuddyFree(ts, lo, k) <==> BuddyFree(s.tiles, b, k)) {
      PairInRegion(b, m, lo, k);
    }
  }

  /** A pair lies in every larger region around it, and so not in its buddy. */
  lemma PairInRegion(b: nat, m: nat, lo: nat, k: nat)
    requires b >= HEAP && Aligned(b, m) && m < k && Aligned(lo, m + 1)
    requires lo == b || (lo == b - Size(m) && lo == Buddy(b, m))
    ensures Region(lo, k) == Region(b, k)
    ensures Buddy(Region(b, k), k) != lo && Buddy(Region(b, k), k) != lo + Size(m)
  {
    var r := Region(b, k);
    RegionIs(b, k);
    SizeGrows(m + 1, k);
    Nested(r, k, lo, m + 1);
    OneRegion(lo, k, r);
    BuddyFacts(r, k);
  }

  /** What coalescing does to list `k`, and the block it ends in. */
  lemma {:induction false} CoalesceExact(s: State, b: nat, j: nat, k: nat)
    requires b in s.tiles && s.tiles[b].free && b >= HEAP && Aligned(b, s.tiles[b].cls)
    requires |s.lists| == CLASSES && k < CLASSES && JoinsUpTo(s.tiles, b, s.tiles[b].cls, j)
    ensures var (r, d) := Coalesce(s, b);
            && d == Region(b, j) && d in r.tiles && r.tiles[d].cls == j
            && r.lists[k] == if s.tiles[b].cls <= k < j then Remove(s.lists[k], BuddyAround(b, k)) else s.lists[k]
    decreases j - s.tiles[b].cls
  {
    hide Region, BuddyAround, Buddy, Size, Aligned;
    var m := s.tiles[b].cls;
    if m < j {
      JoinsOn(s, b, j);
      CoalesceExact(MergeStep(s, b), Lower(s, b), j, k);
    } else {
      Alone(s, b);
    }
  }

  /** Without a free buddy nothing is merged. */
  lemma Alone(s: State, b: nat)
    requires b in s.tiles && b >= HEAP && Aligned(b, s.tiles[b].cls) && |s.lists| == CLASSES
    requires s.tiles[b].cls >= TOP || !BuddyFree(s.tiles, b, s.tiles[b].cls)
    ensures Region(b, s.tiles[b].cls) == b && Coalesce(s, b) == (s, b)
  {
    OneRegion(b, s.tiles[b].cls, b);
    BuddyFacts(b, s.tiles[b].cls);
  }

  lemma BuddyOfMarked(s: State, a: nat, k: nat)
    requires a in s.tiles && a >= HEAP
    ensures BuddyFree(Mark(s, a).tiles, a, k) <==> BuddyFree(s.tiles, a, k)
  {
    RegionIs(a, k);
    BuddyFacts(Region(a, k), k);
  }

  lemma JoinsMarked(s: State, a: nat, c: nat, j: nat)
    requires a in s.tiles && a >= HEAP && JoinsUpTo(s.tiles, a, c, j)
    ensures JoinsUpTo(Mark(s, a).tiles, a, c, j)
  {
    forall k | c <= k <= j ensures BuddyFree(Mark(s, a).tiles, a, k) <==> BuddyFree(s.tiles, a, k) {
      BuddyOfMarked(s, a, k);
    }
  }

  /** The lists after a free: the joint block is the first of its list, each list from the freed class up to
      there loses exactly the buddy absorbed, and no other list changes. */
  lemma ListsAfterFree(s: State, a: nat, j: nat, k: nat)
    requires Ok(s) && a in Taken(s.tiles) && k < CLASSES
    requires a >= HEAP && JoinsUpTo(s.tiles, a, s.tiles[a].cls, j)
    ensures s.tiles[a].cls < CLASSES && |Free(s, a).lists| == CLASSES
    ensures var xs, ys := s.lists[k], Free(s, a).lists[k];
            if k == j then ys == [Region(a, j)] + xs
            else if s.tiles[a].cls <= k < j then LosesOnly(xs, BuddyAround(a, k), ys)
            else ys == xs
  {
    hide Region, BuddyAround, Buddy, Size, Coalesce;
    var c := s.tiles[a].cls;
    assert Placed(s.tiles, s.end, a);
    JoinsMarked(s, a, c, j);
    CoalesceExact(Mark(s, a), a, j, k);
    if c <= k < j {
      assert BuddyFree(s.tiles, a, k);
      BuddyLost(s, BuddyAround(a, k), k);
    }
  }

  lemma BuddyLost(s: State, b: nat, k: nat)
    requires Ok(s) && k < CLASSES && b in s.tiles && s.tiles[b] == Tile(k, true)
    ensures LosesOnly(s.lists[k], b, Remove(s.lists[k], b))
  {
    NoBlockAtZero(s.tiles, s.end);
    assert ListOk(s.tiles, s.lists[k], k, NONE);
    var i :| 0 <= i < |s.lists[k]| && s.lists[k][i] == b;
    RemoveAt(s.lists[k], i);
  }

  /** Freeing a block whose buddy is not free and asking for its class again gives the block back, and the
      heap is as it was, every list in its order. */
  lemma AllocUndoesFree(s: State, a: nat)
    requires Ok(s) && a in Taken(s.tiles) && a >= HEAP
    requires s.tiles[a].cls < TOP ==> !BuddyFree(s.tiles, a, s.tiles[a].cls)
    ensures var c := s.tiles[a].cls; c < CLASSES && |Free(s, a).lists| == CLASSES && Alloc(Free(s, a), c) == (s, a)
  {
    var c := s.tiles[a].cls;
    assert Placed(s.tiles, s.end, a);
    BuddyOfMarked(s, a, c);
    Alone(Mark(s, a), a);
    var f := Free(s, a);
    assert f.lists[c] == [a] + s.lists[c];
    assert f.tiles[a := Tile(c, false)] == s.tiles;
    assert f.lists[c := f.lists[c][1..]] == s.lists;
  }

  // ---------------------------------------------------------------------------------------------
  // When an allocation stops the kernel
  // ---------------------------------------------------------------------------------------------

  /** The sum with the header, a machine word, is more than a chunk; or there is no vacant region for the
      block and no chunk can be backed; or, in a debug kernel, nothing is asked for or the sum has wrapped. */
  lemma StopsExactly(w: World, len: nat, debug: bool)
    requires Ok(w.heap) && len < WORD
    ensures var total := (len + 24) % WORD;
            Stops(w, len, debug) <==>
              || total > 0x800_0000
              || (debug && (len == 0 || len + 24 >= WORD))
              || (!Enough(w.supply, w.heap.end) && forall r: nat :: !Vacant(w.heap, r, ClassFor(total)))
  {
    hide Enough, Vacant, MustGrow, ClassFor;
    var total := Add(len, HEADER);
    TopSize();
    if total <= Size(TOP) {
      ClassForBound(total);
      GrowsOnlyWhenFull(w.heap, ClassFor(total));
    }
  }
}
