/** Block sizes, aligned block addresses and buddies of the heap (src/mm/mm_heap.c). */
module Dyadic {
  import opened Words

  /** `VA_48_HEAP`. */
  const HEAP := 0xFFFF_8001_0100_1000

  /** `_BLOCK_MAX_CLASS`. */
  const CLASSES := 16

  const TOP := CLASSES - 1

  /** `_size_of_class`. */
  function Size(c: nat): (s: nat)
    ensures s >= 4096
  {
    if c == 0 then 4096 else 2 * Size(c - 1)
  }

  lemma {:induction false} SizeIsPow2(c: nat)
    ensures Size(c) == Pow2(c) * 4096 == Pow2(c + 12)
  {
    if c == 0 {
      Pow2Word();
    } else {
      SizeIsPow2(c - 1);
    }
  }

  lemma {:induction false} SizeGrows(c: nat, d: nat)
    requires c <= d
    ensures Size(c) <= Size(d)
    ensures c < d ==> 2 * Size(c) <= Size(d)
    decreases d
  {
    if c < d {
      SizeGrows(c, d - 1);
    }
  }

  lemma TopSize()
    ensures Size(TOP) == 0x800_0000
  {
    assert Size(4) == 0x1_0000;
    assert Size(8) == 0x10_0000;
    assert Size(12) == 0x100_0000;
    assert Size(15) == 0x800_0000;
  }

  /** Divisibility of an offset by the size of a class, by repeated halving. */
  predicate Div(x: nat, c: nat) {
    if c == 0 then x % 4096 == 0 else x % 2 == 0 && Div(x / 2, c - 1)
  }

  lemma {:induction false} DivIsMod(x: nat, c: nat)
    ensures Div(x, c) <==> x % Size(c) == 0
  {
    if c > 0 {
      DivIsMod(x / 2, c - 1);
      Halved(x, Size(c - 1));
    }
  }

  lemma {:induction false} DivStep(x: nat, c: nat)
    requires Div(x, c + 1)
    ensures Div(x, c)
  {
    if c > 0 {
      DivStep(x / 2, c - 1);
    }
  }

  lemma {:induction false} DivDown(x: nat, c: nat, d: nat)
    requires Div(x, c) && d <= c
    ensures Div(x, d)
    decreases c
  {
    if d < c {
      DivStep(x, c - 1);
      DivDown(x, c - 1, d);
    }
  }

  lemma {:induction false} DivPlus(x: nat, c: nat)
    ensures Div(x, c) <==> Div(x + Size(c), c)
  {
    if c > 0 {
      DivPlus(x / 2, c - 1);
      assert (x + Size(c)) / 2 == x / 2 + Size(c - 1);
    }
  }

  lemma {:induction false} DivToggle(x: nat, c: nat)
    requires Div(x, c)
    ensures Div(x, c + 1) <==> !Div(x + Size(c), c + 1)
  {
    if c == 0 {
      HalfPages(x / 4096);
      HalfPages(x / 4096 + 1);
      assert x == 4096 * (x / 4096);
    } else {
      DivToggle(x / 2, c - 1);
      assert (x + Size(c)) / 2 == x / 2 + Size(c - 1);
      assert (x + Size(c)) % 2 == x % 2 == 0;
      assert Div(x, c + 1) <==> Div(x / 2, c);
      assert Div(x + Size(c), c + 1) <==> Div((x + Size(c)) / 2, c);
    }
  }

  lemma HalfPages(q: nat)
    ensures Div(4096 * q, 1) <==> q % 2 == 0
  {
    var x := 4096 * q;
    assert x / 2 == 2048 * q && x % 2 == 0;
    assert Div(x, 1) <==> Div(x / 2, 0);
    assert (2048 * q) % 4096 == if q % 2 == 0 then 0 else 2048;
  }

  lemma {:induction false} DivShift(x: nat, y: nat, c: nat)
    requires Div(y, c)
    ensures Div(x + y, c) <==> Div(x, c)
  {
    if c > 0 {
      DivShift(x / 2, y / 2, c - 1);
      assert (x + y) / 2 == x / 2 + y / 2 + (if x % 2 == 1 && y % 2 == 1 then 1 else 0);
    }
  }

  lemma {:induction false} DivSmall(x: nat, c: nat)
    requires Div(x, c) && x < Size(c)
    ensures x == 0
  {
    if c > 0 {
      DivSmall(x / 2, c - 1);
    }
  }

  lemma {:induction false} DivZero(c: nat)
    ensures Div(0, c)
  {
    if c > 0 {
      DivZero(c - 1);
    }
  }

  /** Two blocks that meet are nested. */
  lemma {:induction false} DivNested(x: nat, c: nat, y: nat, d: nat)
    requires Div(x, c) && Div(y, d) && d <= c
    requires x < y + Size(d) && y < x + Size(c)
    ensures x <= y && y + Size(d) <= x + Size(c)
  {
    if d == 0 {
      DivDown(x, c, 0);
      DivDownSize(c);
      PagesNested(x, Size(c), y);
    } else {
      assert Size(c) == 2 * Size(c - 1) && Size(d) == 2 * Size(d - 1);
      assert x == 2 * (x / 2) && y == 2 * (y / 2);
      DivNested(x / 2, c - 1, y / 2, d - 1);
    }
  }

  lemma PagesNested(x: nat, s: nat, y: nat)
    requires x % 4096 == 0 && s % 4096 == 0 && y % 4096 == 0
    requires x < y + 4096 && y < x + s
    ensures x <= y && y + 4096 <= x + s
  {
    var p, q, n := x / 4096, y / 4096, s / 4096;
    assert x == 4096 * p && y == 4096 * q && s == 4096 * n;
  }

  lemma {:induction false} DivDownSize(c: nat)
    ensures Size(c) % 4096 == 0
  {
    if c > 0 {
      DivDownSize(c - 1);
      ModIs(Size(c), 4096, 2 * (Size(c - 1) / 4096), 0);
    }
  }

  // ---------------------------------------------------------------------------------------------
  // Addresses
  // ---------------------------------------------------------------------------------------------

  predicate Aligned(a: nat, c: nat) {
    a >= HEAP && Div(a - HEAP, c)
  }

  /** The buddy of a block of class `c` at `a`: the other half of the enclosing aligned pair. */
  function Buddy(a: nat, c: nat): int {
    if Aligned(a, c + 1) then a + Size(c) else a - Size(c)
  }

  lemma BuddyFacts(a: nat, c: nat)
    requires Aligned(a, c)
    ensures Buddy(a, c) >= HEAP && Buddy(a, c) != a
    ensures Aligned(Buddy(a, c), c) && Buddy(Buddy(a, c), c) == a
    ensures Aligned(a, c + 1) ==> !Aligned(Buddy(a, c), c + 1)
    ensures !Aligned(a, c + 1) ==> Aligned(Buddy(a, c), c + 1)
  {
    var x := a - HEAP;
    if Div(x, c + 1) {
      DivPlus(x, c);
      DivToggle(x, c);
    } else {
      assert x >= Size(c) by {
        DivZero(c + 1);
        if x < Size(c) {
          DivSmall(x, c);
        }
      }
      DivPlus(x - Size(c), c);
      DivToggle(x - Size(c), c);
    }
  }

  /** The address `_block_find_buddy` computes, with its masks and its wrapping subtraction. */
  function BuddyAddress(a: nat, c: nat): nat
    requires c < CLASSES && HEAP <= a < WORD
  {
    TopSize();
    BuddyFrom(a, AlignDown(a - HEAP, Size(TOP)), Size(c))
  }

  lemma {:induction false} PowerDiv(n: nat, c: nat)
    ensures Div(Pow2(c + 12 + n), c)
  {
    if c == 0 {
      Pow2Word();
      Pow2Plus(12, n);
      ModIs(Pow2(12 + n), 4096, Pow2(n), 0);
    } else {
      PowerDiv(n, c - 1);
      assert Pow2(c + 12 + n) == 2 * Pow2(c - 1 + 12 + n);
    }
  }

  lemma WordDiv(c: nat)
    requires c <= CLASSES
    ensures Div(WORD, c)
  {
    Pow2Word();
    PowerDiv(52 - c, c);
  }

  lemma ChunkOffset(x: nat)
    requires x < WORD
    ensures 0 < Size(TOP) < WORD
    ensures AlignDown(x, Size(TOP)) <= x < AlignDown(x, Size(TOP)) + Size(TOP)
    ensures Div(AlignDown(x, Size(TOP)), TOP)
  {
    TopSize();
    SizeIsPow2(TOP);
    MaskDropsRemainder(x, Size(TOP));
    DroppedRemainder(x, Size(TOP));
    DivIsMod(AlignDown(x, Size(TOP)), TOP);
  }

  lemma AlignCheckIsDiv(x: nat, c: nat)
    ensures AlignCheck(x, Size(c) * 2) <==> Div(x, c + 1)
  {
    DivIsMod(x, c + 1);
  }

  lemma WrappedBelowZero(c: nat)
    requires c < TOP
    ensures Size(c) < WORD && Sub(0, Size(c)) == WORD - Size(c)
    ensures !Div(WORD - Size(c), c + 1)
  {
    TopSize();
    SizeGrows(c, TOP);
    SubIs(0, Size(c));
    WordDiv(c + 1);
    WordDiv(c);
    var x := WORD - Size(c);
    DivPlus(x, c);
    DivToggle(x, c);
  }

  /** The wrapping test of the source tells the upper halves. */
  lemma UpperHalfTest(offs: nat, c: nat)
    requires c < TOP && Div(offs, c) && offs < Size(TOP)
    ensures AlignCheck(Sub(offs, Size(c)), Size(c) * 2) <==> !Div(offs, c + 1)
    ensures !Div(offs, c + 1) ==> offs >= Size(c) && Sub(offs, Size(c)) == offs - Size(c)
  {
    TopSize();
    SizeGrows(c, TOP);
    SubIs(offs, Size(c));
    AlignCheckIsDiv(Sub(offs, Size(c)), c);
    if offs >= Size(c) {
      DivPlus(offs - Size(c), c);
      DivToggle(offs - Size(c), c);
    } else {
      DivSmall(offs, c);
      WrappedBelowZero(c);
      DivZero(c + 1);
    }
  }

  lemma InsideChunk(x: nat, base: nat, c: nat)
    requires c < TOP && Div(base, TOP) && base <= x
    ensures Div(x - base, c) <==> Div(x, c)
    ensures Div(x - base, c + 1) <==> Div(x, c + 1)
  {
    DivDown(base, TOP, c);
    DivDown(base, TOP, c + 1);
    DivShift(x - base, base, c);
    DivShift(x - base, base, c + 1);
  }

  function BuddyFrom(a: nat, base: nat, size: nat): nat
    requires size > 0 && a >= HEAP
  {
    var offs := Sub(a - HEAP, base);
    (if AlignCheck(Sub(offs, size), size * 2) then Sub(offs, size) else Add(offs, size)) + base + HEAP
  }

  lemma BuddyFromIsBuddy(a: nat, base: nat, c: nat)
    requires c < TOP && Aligned(a, c) && a < WORD
    requires Div(base, TOP) && base <= a - HEAP < base + Size(TOP)
    ensures BuddyFrom(a, base, Size(c)) == Buddy(a, c)
  {
    var offs := a - HEAP - base;
    SubIs(a - HEAP, base);
    InsideChunk(a - HEAP, base, c);
    UpperHalfTest(offs, c);
    TopSize();
    SizeGrows(c, TOP);
    AddIs(offs, Size(c));
  }

  /** It is the address of the buddy. */
  lemma BuddyAddressIsBuddy(a: nat, c: nat)
    requires c < TOP && Aligned(a, c) && a < WORD
    ensures 0 < Size(TOP) < WORD
    ensures BuddyAddress(a, c) == Buddy(a, c)
  {
    ChunkOffset(a - HEAP);
    BuddyFromIsBuddy(a, AlignDown(a - HEAP, Size(TOP)), c);
  }

  lemma HalvesAligned(a: nat, c: nat)
    requires Aligned(a, c + 1)
    ensures Aligned(a, c) && Aligned(a + Size(c), c)
    ensures Buddy(a, c) == a + Size(c) && Buddy(a + Size(c), c) == a
  {
    DivStep(a - HEAP, c);
    BuddyFacts(a, c);
  }

  lemma Nested(a: nat, c: nat, b: nat, d: nat)
    requires Aligned(a, c) && Aligned(b, d) && d <= c
    requires a < b + Size(d) && b < a + Size(c)
    ensures a <= b && b + Size(d) <= a + Size(c)
  {
    DivNested(a - HEAP, c, b - HEAP, d);
  }

  // ---------------------------------------------------------------------------------------------
  // The class of a request
  // ---------------------------------------------------------------------------------------------

  /** `sizeof(block_t)`. */
  const HEADER := 24

  /** The class `mm_heap_alloc` computes for a request that makes `total` bytes with the header. */
  function ClassFor(total: nat): nat {
    var k := Log2Up(total);
    if k <= 12 then 0 else k - 12
  }

  /** It is the smallest class whose block holds them. */
  lemma ClassForIsLeast(total: nat)
    ensures total <= Size(ClassFor(total))
    ensures forall c: nat :: c < ClassFor(total) ==> Size(c) < total
  {
    var k := Log2Up(total);
    if total >= 2 {
      Log2UpIsCeiling(total);
    }
    SizeIsPow2(ClassFor(total));
    if k <= 12 {
      Pow2Grows(k, 12);
    }
    forall c: nat | c < ClassFor(total) ensures Size(c) < total {
      SizeIsPow2(c);
      Pow2Grows(c + 12, k - 1);
    }
  }

  lemma ClassForBound(total: nat)
    ensures ClassFor(total) < CLASSES <==> total <= Size(TOP)
  {
    ClassForIsLeast(total);
    if ClassFor(total) < CLASSES {
      SizeGrows(ClassFor(total), TOP);
    }
  }
}
