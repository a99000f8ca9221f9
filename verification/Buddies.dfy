/** What the heap operations of src/mm/mm_heap.c do to the live blocks and the free lists. */
module Buddies {
  import opened Dyadic
  import opened Tiling
  import opened Lists

  /** The abstract heap: the live blocks, the sixteen free lists, and `_heap_end`. */
  datatype State = State(tiles: Tiles, lists: seq<seq<nat>>, end: nat)

  /** List `k` holds each free block of class `k` once, but for the one block in hand. */
  ghost predicate ListOk(ts: Tiles, xs: seq<nat>, k: nat, hand: nat) {
    NoDup(xs) && forall a :: a in xs <==> a in ts && ts[a] == Tile(k, true) && a != hand
  }

  ghost predicate Listed(ts: Tiles, lists: seq<seq<nat>>, hand: nat) {
    && |lists| == CLASSES
    && forall k {:trigger ListOk(ts, lists[k], k, hand)} :: 0 <= k < CLASSES ==> ListOk(ts, lists[k], k, hand)
  }

  /** No list holds a block: 0 is the address of none. */
  const NONE: nat := 0

  ghost predicate Shape(s: State, hand: nat) {
    Tiled(s.tiles, s.end) && Listed(s.tiles, s.lists, hand)
  }

  /** The invariant between operations. */
  ghost predicate Ok(s: State) {
    Shape(s, NONE) && Canonical(s.tiles)
  }

  ghost predicate Among(ts: Tiles, v: nat, t: nat)
    requires v in ts && t in ts
  {
    t == v || (t == Buddy(v, ts[v].cls) && ts[t] == ts[v])
  }

  /** The only free buddies left are `v` and its buddy. */
  ghost predicate CanonicalBut(ts: Tiles, v: nat) {
    v in ts && forall t :: Mergeable(ts, t) ==> Among(ts, v, t)
  }

  function Initial(): State {
    State(map[], seq(CLASSES, _ => []), HEAP)
  }

  lemma InitialOk()
    ensures Ok(Initial())
  {
    EmptyTiled();
  }

  // ---------------------------------------------------------------------------------------------
  // Allocation
  // ---------------------------------------------------------------------------------------------

  /** A new top-class chunk at the end of the heap. */
  function Grow(s: State): State
    requires |s.lists| == CLASSES
  {
    State(s.tiles[s.end := Tile(TOP, true)], s.lists[TOP := [s.end] + s.lists[TOP]], s.end + Size(TOP))
  }

  /** The first block of list `c` is cut in two, and both halves go to the list below. */
  function Halve(s: State, c: nat): (r: State)
    requires 0 < c < CLASSES == |s.lists| && s.lists[c] != []
    ensures |r.lists| == CLASSES && r.lists[c - 1] != []
  {
    var a := s.lists[c][0];
    State(Split(s.tiles, a, c - 1),
          s.lists[c := s.lists[c][1..]][c - 1 := [a + Size(c - 1), a] + s.lists[c - 1]],
          s.end)
  }

  /** List `c` made non-empty, from the lowest non-empty list above it or from a new chunk. */
  function Refill(s: State, c: nat): (r: State)
    requires c < CLASSES == |s.lists|
    ensures |r.lists| == CLASSES && r.lists[c] != []
    decreases CLASSES - c
  {
    if s.lists[c] != [] then s
    else if c < TOP then Halve(Refill(s, c + 1), c + 1)
    else Grow(s)
  }

  /** What refilling list `c` of `s` guarantees. */
  ghost predicate Refilled(s: State, r: State, c: nat)
    requires c < CLASSES == |s.lists|
  {
    && Shape(r, NONE) && HeadIs(r, c)
    && CanonicalBut(r.tiles, r.lists[c][0])
    && (forall k :: 0 <= k < c ==> r.lists[k] == s.lists[k])
    && Taken(r.tiles) == Taken(s.tiles)
    && r.end == if MustGrow(s, c) then s.end + Size(TOP) else s.end
  }

  lemma {:induction false} RefillOk(s: State, c: nat)
    requires c < CLASSES && Ok(s)
    ensures Refilled(s, Refill(s, c), c)
    decreases CLASSES - c
  {
    if s.lists[c] != [] {
      HeadIsFree(s, c);
    } else if c < TOP {
      RefillOk(s, c + 1);
      RefillStep(s, Refill(s, c + 1), c);
    } else {
      GrowKeeps(s);
      HeadIsFree(Grow(s), TOP);
    }
  }

  lemma RefillStep(s: State, r: State, c: nat)
    requires c < TOP && |s.lists| == CLASSES && s.lists[c] == [] && Refilled(s, r, c + 1)
    ensures Refilled(s, Halve(r, c + 1), c)
  {
    HalveKeeps(r, c + 1);
    HeadIsFree(Halve(r, c + 1), c);
  }

  /** No list from `c` up holds a block. */
  ghost predicate MustGrow(s: State, c: nat)
    requires |s.lists| == CLASSES
  {
    forall k :: c <= k < CLASSES ==> s.lists[k] == []
  }

  lemma GrowKeeps(s: State)
    requires Ok(s)
    ensures Shape(Grow(s), NONE) && Canonical(Grow(s).tiles)
    ensures CanonicalBut(Grow(s).tiles, s.end)
    ensures Taken(Grow(s).tiles) == Taken(s.tiles)
  {
    var r := Grow(s);
    GrowTiled(s.tiles, s.end);
    forall t ensures !Mergeable(r.tiles, t) {
      assert !Mergeable(s.tiles, t);
    }
    forall k | 0 <= k < CLASSES ensures ListOk(r.tiles, r.lists[k], k, NONE) {
      assert ListOk(s.tiles, s.lists[k], k, NONE);
      if k == TOP {
        NoDupPush(s.lists[k], s.end);
      }
    }
  }

  lemma HalveKeeps(s: State, c: nat)
    requires 0 < c < CLASSES && Shape(s, NONE)
    requires s.lists[c] != [] && s.lists[c - 1] == []
    requires CanonicalBut(s.tiles, s.lists[c][0])
    ensures HeadIs(s, c)
    ensures Shape(Halve(s, c), NONE)
    ensures CanonicalBut(Halve(s, c).tiles, Halve(s, c).lists[c - 1][0])
    ensures Taken(Halve(s, c).tiles) == Taken(s.tiles)
  {
    var a := s.lists[c][0];
    HeadIsFree(s, c);
    SplitTiled(s.tiles, s.end, a, c - 1);
    SplitTaken(s.tiles, a, c - 1);
    HalveCanonical(s, c);
    HalveListed(s, c);
  }

  /** The first block of list `c` is a free block of class `c`. */
  ghost predicate HeadIs(s: State, c: nat)
    requires c < CLASSES == |s.lists|
  {
    s.lists[c] != [] && s.lists[c][0] in s.tiles && s.tiles[s.lists[c][0]] == Tile(c, true)
  }

  lemma HeadIsFree(s: State, c: nat)
    requires c < CLASSES && Shape(s, NONE) && s.lists[c] != []
    ensures HeadIs(s, c)
    ensures ListOk(s.tiles, s.lists[c][1..], c, s.lists[c][0])
    ensures s.lists[c][0] >= HEAP
  {
    var xs := s.lists[c];
    NoBlockAtZero(s.tiles, s.end);
    assert ListOk(s.tiles, xs, c, NONE);
    assert xs[0] in xs;
    NoDupTail(xs);
    assert Placed(s.tiles, s.end, xs[0]);
  }

  lemma HalveCanonical(s: State, c: nat)
    requires 0 < c < CLASSES && Shape(s, NONE) && HeadIs(s, c) && s.lists[c - 1] == []
    requires CanonicalBut(s.tiles, s.lists[c][0])
    requires s.lists[c][0] + Size(c - 1) !in s.tiles
    ensures CanonicalBut(Halve(s, c).tiles, s.lists[c][0] + Size(c - 1))
  {
    var a := s.lists[c][0];
    var b := a + Size(c - 1);
    var ts, rs := s.tiles, Halve(s, c).tiles;
    assert Placed(ts, s.end, a);
    HalvesAligned(a, c - 1);
    assert ListOk(ts, s.lists[c - 1], c - 1, NONE);
    assert ListOk(ts, s.lists[c], c, NONE);
    BuddyFacts(a, c);
    forall t | Mergeable(rs, t) ensures Among(rs, b, t) {
      var d := rs[t].cls;
      if t != a && t != b {
        assert d != c - 1 by { assert t !in s.lists[c - 1]; }
        assert Buddy(t, d) != a && Buddy(t, d) != b;
        assert Mergeable(ts, t);
      }
    }
  }

  lemma HalveListed(s: State, c: nat)
    requires 0 < c < CLASSES && Shape(s, NONE) && HeadIs(s, c) && s.lists[c - 1] == []
    requires s.lists[c][0] + Size(c - 1) !in s.tiles
    ensures Listed(Halve(s, c).tiles, Halve(s, c).lists, NONE)
  {
    var a := s.lists[c][0];
    var b := a + Size(c - 1);
    var r := Halve(s, c);
    HeadIsFree(s, c);
    NoBlockAtZero(s.tiles, s.end);
    assert ListOk(s.tiles, s.lists[c - 1], c - 1, NONE);
    assert r.lists[c - 1] == [b, a];
    NoDupTwo(b, a);
    forall k | 0 <= k < CLASSES ensures ListOk(r.tiles, r.lists[k], k, NONE) {
      if k != c && k != c - 1 {
        assert ListOk(s.tiles, s.lists[k], k, NONE);
      }
    }
  }

  /** `mm_heap_alloc` for class `c`: the block handed out is the first of the refilled list. */
  function Alloc(s: State, c: nat): (State, nat)
    requires c < CLASSES == |s.lists|
  {
    var r := Refill(s, c);
    var a := r.lists[c][0];
    (State(r.tiles[a := Tile(c, false)], r.lists[c := r.lists[c][1..]], r.end), a)
  }

  lemma HandOut(q: State, c: nat)
    requires c < CLASSES && Shape(q, NONE) && HeadIs(q, c)
    ensures Listed(q.tiles[q.lists[c][0] := Tile(c, false)], q.lists[c := q.lists[c][1..]], NONE)
  {
    var a := q.lists[c][0];
    var ts, lists := q.tiles[a := Tile(c, false)], q.lists[c := q.lists[c][1..]];
    HeadIsFree(q, c);
    NoBlockAtZero(q.tiles, q.end);
    forall k | 0 <= k < CLASSES ensures ListOk(ts, lists[k], k, NONE) {
      if k != c {
        assert ListOk(q.tiles, q.lists[k], k, NONE);
      }
    }
  }

  lemma AllocOk(s: State, c: nat)
    requires c < CLASSES && Ok(s)
    ensures var (r, a) := Alloc(s, c);
            && Ok(r)
            && a !in Taken(s.tiles)
            && Taken(r.tiles) == Taken(s.tiles)[a := Tile(c, false)]
            && r.end == if MustGrow(s, c) then s.end + Size(TOP) else s.end
  {
    RefillOk(s, c);
    var q := Refill(s, c);
    var a := q.lists[c][0];
    HandOut(q, c);
    MarkTiled(q.tiles, q.end, a, false);
    MarkTaken(q.tiles, a);
    HandOutCanonical(q, c);
  }

  lemma HandOutCanonical(q: State, c: nat)
    requires c < CLASSES && Shape(q, NONE) && HeadIs(q, c)
    requires CanonicalBut(q.tiles, q.lists[c][0])
    ensures Canonical(q.tiles[q.lists[c][0] := Tile(c, false)])
  {
    var a := q.lists[c][0];
    var ts := q.tiles[a := Tile(c, false)];
    assert Placed(q.tiles, q.end, a);
    BuddyFacts(a, c);
    forall t ensures !Mergeable(ts, t) {
      assert Mergeable(ts, t) ==> Mergeable(q.tiles, t);
    }
  }

  // ---------------------------------------------------------------------------------------------
  // Release
  // ---------------------------------------------------------------------------------------------

  /** `xs` without the first `x`, the rest in order. */
  function Remove(xs: seq<nat>, x: nat): seq<nat> {
    if xs == [] then [] else if xs[0] == x then xs[1..] else [xs[0]] + Remove(xs[1..], x)
  }

  lemma {:induction false} RemoveFacts(xs: seq<nat>, x: nat)
    requires NoDup(xs)
    ensures NoDup(Remove(xs, x))
    ensures forall y :: y in Remove(xs, x) <==> y in xs && y != x
    ensures x !in xs ==> Remove(xs, x) == xs
  {
    if xs != [] {
      NoDupTail(xs);
      assert xs == [xs[0]] + xs[1..];
      RemoveFacts(xs[1..], x);
      NoDupPush(Remove(xs[1..], x), xs[0]);
    }
  }

  /** `_coalescing_block`: the free block `a`, in no list, absorbs its buddy as long as it can. */
  ghost function Coalesce(s: State, a: nat): (r: (State, nat))
    requires a in s.tiles && |s.lists| == CLASSES
    ensures r.1 in r.0.tiles && |r.0.lists| == CLASSES
    ensures s.tiles[a].cls < CLASSES ==> r.0.tiles[r.1].cls < CLASSES
    decreases TOP - s.tiles[a].cls
  {
    if Mergeable(s.tiles, a) then Coalesce(MergeStep(s, a), Lower(s, a)) else (s, a)
  }

  /** The block left is free and in no list, and no two free buddies are left. */
  lemma {:induction false} CoalesceOk(s: State, a: nat)
    requires Shape(s, a) && CanonicalBut(s.tiles, a) && s.tiles[a].free
    ensures var (r, b) := Coalesce(s, a);
            && Shape(r, b) && b in r.tiles && r.tiles[b].free
            && Canonical(r.tiles)
            && Taken(r.tiles) == Taken(s.tiles) && r.end == s.end
    decreases TOP - s.tiles[a].cls
  {
    if Mergeable(s.tiles, a) {
      MergeKeeps(s, a);
      CoalesceOk(MergeStep(s, a), Lower(s, a));
    } else {
      StuckIsCanonical(s, a);
    }
  }

  ghost function Lower(s: State, a: nat): nat
    requires Mergeable(s.tiles, a)
  {
    var b := Buddy(a, s.tiles[a].cls);
    if b < a then b else a
  }

  ghost function MergeStep(s: State, a: nat): State
    requires Mergeable(s.tiles, a) && |s.lists| == CLASSES
  {
    var c := s.tiles[a].cls;
    State(Merge(s.tiles, a), s.lists[c := Remove(s.lists[c], Buddy(a, c))], s.end)
  }

  lemma StuckIsCanonical(s: State, a: nat)
    requires Shape(s, a) && CanonicalBut(s.tiles, a) && s.tiles[a].free && !Mergeable(s.tiles, a)
    ensures Canonical(s.tiles)
  {
    assert Placed(s.tiles, s.end, a);
    BuddyFacts(a, s.tiles[a].cls);
  }

  lemma MergeKeeps(s: State, a: nat)
    requires Shape(s, a) && CanonicalBut(s.tiles, a) && Mergeable(s.tiles, a)
    ensures Shape(MergeStep(s, a), Lower(s, a))
    ensures CanonicalBut(MergeStep(s, a).tiles, Lower(s, a))
    ensures Taken(MergeStep(s, a).tiles) == Taken(s.tiles)
  {
    var c := s.tiles[a].cls;
    var b := Buddy(a, c);
    var r := MergeStep(s, a);
    var lo := Lower(s, a);
    MergeTiled(s.tiles, s.end, a);
    assert ListOk(s.tiles, s.lists[c], c, a) && Placed(s.tiles, s.end, a);
    RemoveFacts(s.lists[c], b);
    forall t | Mergeable(r.tiles, t) ensures Among(r.tiles, lo, t) {
      if t != lo {
        var d := r.tiles[t].cls;
        assert Placed(s.tiles, s.end, t);
        BuddyFacts(t, d);
        if Buddy(t, d) != lo {
          assert Mergeable(s.tiles, t);
        }
      }
    }
    forall k | 0 <= k < CLASSES ensures ListOk(r.tiles, r.lists[k], k, lo) {
      assert ListOk(s.tiles, s.lists[k], k, a);
    }
  }

  ghost function Mark(s: State, a: nat): State
    requires a in s.tiles
  {
    s.(tiles := s.tiles[a := Tile(s.tiles[a].cls, true)])
  }

  lemma MarkKeeps(s: State, a: nat)
    requires Ok(s) && a in Taken(s.tiles)
    ensures Shape(Mark(s, a), a) && CanonicalBut(Mark(s, a).tiles, a)
    ensures Taken(Mark(s, a).tiles) == Taken(s.tiles) - {a}
  {
    var r := Mark(s, a);
    NoBlockAtZero(s.tiles, s.end);
    MarkTiled(s.tiles, s.end, a, true);
    forall t | Mergeable(r.tiles, t) ensures Among(r.tiles, a, t) {
      if t != a {
        var c := r.tiles[t].cls;
        assert Placed(s.tiles, s.end, t);
        BuddyFacts(t, c);
        assert !Mergeable(s.tiles, t);
      }
    }
    forall k | 0 <= k < CLASSES ensures ListOk(r.tiles, r.lists[k], k, a) {
      assert ListOk(s.tiles, s.lists[k], k, NONE);
    }
  }

  /** The block in hand goes to the front of its list. */
  ghost function Push(s: State, a: nat): State
    requires a in s.tiles && s.tiles[a].cls < CLASSES == |s.lists|
  {
    var c := s.tiles[a].cls;
    s.(lists := s.lists[c := [a] + s.lists[c]])
  }

  lemma PushKeeps(s: State, a: nat)
    requires Shape(s, a) && a in s.tiles && s.tiles[a].free
    ensures s.tiles[a].cls < CLASSES
    ensures Shape(Push(s, a), NONE)
  {
    assert Placed(s.tiles, s.end, a);
    NoBlockAtZero(s.tiles, s.end);
    var r := Push(s, a);
    forall k | 0 <= k < CLASSES ensures ListOk(r.tiles, r.lists[k], k, NONE) {
      assert ListOk(s.tiles, s.lists[k], k, a);
      if k == s.tiles[a].cls {
        NoDupPush(s.lists[k], a);
      }
    }
  }

  /** `mm_heap_free` of the block at `a`. */
  ghost function Free(s: State, a: nat): State
    requires a in s.tiles && s.tiles[a].cls < CLASSES == |s.lists|
  {
    var (q, b) := Coalesce(Mark(s, a), a);
    Push(q, b)
  }

  lemma FreeOk(s: State, a: nat)
    requires Ok(s) && a in Taken(s.tiles)
    ensures s.tiles[a].cls < CLASSES
    ensures Ok(Free(s, a))
    ensures Taken(Free(s, a).tiles) == Taken(s.tiles) - {a}
    ensures Free(s, a).end == s.end
  {
    assert Placed(s.tiles, s.end, a);
    MarkKeeps(s, a);
    CoalesceOk(Mark(s, a), a);
    var (q, b) := Coalesce(Mark(s, a), a);
    PushKeeps(q, b);
  }
}
