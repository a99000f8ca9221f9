/** 64-bit machine words as natural numbers below 2^64, the bitwise operators on them, and the
    power-of-two arithmetic of src/mm/mm.c and src/util/util_math.c. */
module Words {

  const WORD := 0x1_0000_0000_0000_0000

  function Pow2(k: nat): (r: nat)
    ensures r > 0
  {
    if k == 0 then 1 else 2 * Pow2(k - 1)
  }

  lemma {:induction false} Pow2Grows(j: nat, k: nat)
    requires j <= k
    ensures Pow2(j) <= Pow2(k)
    ensures j < k ==> 2 * Pow2(j) <= Pow2(k)
    decreases k
  {
    if j < k {
      Pow2Grows(j, k - 1);
    }
  }

  lemma {:induction false} Pow2Plus(j: nat, k: nat)
    ensures Pow2(j + k) == Pow2(j) * Pow2(k)
  {
    if j > 0 {
      Pow2Plus(j - 1, k);
    }
  }

  lemma Pow2Word()
    ensures Pow2(12) == 4096
    ensures Pow2(63) == 0x8000_0000_0000_0000
    ensures Pow2(64) == WORD
  {
    assert Pow2(8) == 256;
    assert Pow2(12) == 4096;
    assert Pow2(16) == 0x1_0000;
    Pow2Plus(16, 16);
    Pow2Plus(32, 32);
    assert Pow2(64) == 2 * Pow2(63);
  }

  /** Bitwise conjunction of two words, bit by bit. */
  function And(x: nat, y: nat): nat
  {
    if x == 0 || y == 0 then 0
    else (if x % 2 == 1 && y % 2 == 1 then 1 else 0) + 2 * And(x / 2, y / 2)
  }

  /** Bitwise complement of a 64-bit word. */
  function Not(x: nat): nat
    requires x < WORD
  {
    WORD - 1 - x
  }

  /** Unsigned subtraction and addition, which wrap modulo 2^64. */
  function Sub(x: nat, y: nat): nat
  {
    (x - y) % WORD
  }

  function Add(x: nat, y: nat): nat
  {
    (x + y) % WORD
  }

  lemma {:induction false} AndSelf(x: nat)
    ensures And(x, x) == x
  {
    if x != 0 {
      AndSelf(x / 2);
    }
  }

  lemma MulBound(m: int, d: int)
    requires m > 0
    ensures d > 0 ==> m * d >= m
    ensures d < 0 ==> m * d <= -m
  {
  }

  lemma MulMono(m: int, x: int, y: int)
    requires m >= 0 && x <= y
    ensures m * x <= m * y
  {
  }

  lemma ModIs(x: int, m: int, q: int, r: int)
    requires 0 <= r < m
    requires x == m * q + r
    ensures x % m == r && x / m == q
  {
    var d := x / m - q;
    assert m * d + x % m == r by {
      assert m * d == m * (x / m) - m * q;
    }
    assert d == 0 by {
      MulBound(m, d);
    }
  }

  lemma Regrouped(m: int, q: int)
    ensures 2 * m * q == 2 * (m * q)
  {
  }

  /** Dividing by an even number is halving first. */
  lemma Halved(x: nat, m: nat)
    requires m > 0
    ensures x / (2 * m) == x / 2 / m && x % (2 * m) == 2 * (x / 2 % m) + x % 2
  {
    var q, r := x / 2 / m, x / 2 % m;
    assert x / 2 == m * q + r;
    Regrouped(m, q);
    ModIs(x, 2 * m, q, 2 * r + x % 2);
  }

  /** A low mask takes the remainder by a power of two. */
  lemma {:induction false} AndLowMask(x: nat, k: nat)
    ensures And(x, Pow2(k) - 1) == x % Pow2(k)
  {
    if k > 0 && x > 0 {
      AndLowMask(x / 2, k - 1);
      Halved(x, Pow2(k - 1));
      AndOdd(x, Pow2(k - 1) - 1);
    } else if x == 0 {
      ModIs(0, Pow2(k), 0, 0);
    }
  }

  lemma AndOdd(x: nat, h: nat)
    ensures And(x, 2 * h + 1) == x % 2 + 2 * And(x / 2, h)
  {
    assert (2 * h + 1) / 2 == h;
  }

  lemma AndEven(x: nat, h: nat)
    ensures And(x, 2 * h) == 2 * And(x / 2, h)
  {
  }

  /** A mask of the bits from `k` to `n - 1` drops the bits below and above. */
  lemma {:induction false} MaskBand(x: nat, n: nat, k: nat)
    requires k <= n
    ensures Pow2(k) <= Pow2(n)
    ensures And(x, Pow2(n) - Pow2(k)) == x % Pow2(n) - x % Pow2(n) % Pow2(k)
  {
    Pow2Grows(k, n);
    if k == 0 {
      AndLowMask(x, n);
      ModOne(x % Pow2(n));
    } else {
      MaskBand(x / 2, n - 1, k - 1);
      BandStep(x, n, k);
    }
  }

  lemma BandStep(x: nat, n: nat, k: nat)
    requires 0 < k <= n && Pow2(k - 1) <= Pow2(n - 1)
    requires var m, j := Pow2(n - 1), Pow2(k - 1); And(x / 2, m - j) == x / 2 % m - x / 2 % m % j
    ensures Pow2(k) <= Pow2(n)
    ensures And(x, Pow2(n) - Pow2(k)) == x % Pow2(n) - x % Pow2(n) % Pow2(k)
  {
    hide And, Pow2;
    Pow2Step(k);
    Pow2Step(n);
    BandHalved(x, Pow2(n - 1), Pow2(k - 1));
    AndEven(x, Pow2(n - 1) - Pow2(k - 1));
  }

  lemma Pow2Step(k: nat)
    ensures Pow2(k) == if k == 0 then 1 else 2 * Pow2(k - 1)
  {
  }

  lemma ModOne(x: nat)
    ensures x % 1 == 0
  {
  }

  lemma BandHalved(x: nat, m: nat, j: nat)
    requires m > 0 && j > 0
    ensures var u := x % (2 * m); u - u % (2 * j) == 2 * (x / 2 % m - x / 2 % m % j)
  {
    Halved(x, m);
    Halved(x % (2 * m), j);
  }

  // ---------------------------------------------------------------------------------------------
  // Powers of two
  // ---------------------------------------------------------------------------------------------

  /** The test `!(n & (n - 1))` of both source files, on 64-bit words. */
  predicate MathIsPow2(n: nat)
    requires n < WORD
  {
    And(n, Sub(n, 1)) == 0
  }

  ghost predicate IsPow2(n: nat) {
    exists k: nat :: n == Pow2(k)
  }

  lemma {:induction false} AndPredZero(n: nat)
    requires n > 0
    ensures And(n, n - 1) == 0 <==> IsPow2(n)
  {
    if n == 1 {
      assert n == Pow2(0);
    } else {
      AndPred(n);
      HalfPow2(n);
      if n % 2 == 0 {
        AndPredZero(n / 2);
      }
    }
  }

  lemma AndPred(n: nat)
    requires n > 1
    ensures And(n, n - 1) == if n % 2 == 0 then 2 * And(n / 2, n / 2 - 1) else n - 1
  {
    hide And;
    if n % 2 == 0 {
      AndOdd(n, n / 2 - 1);
      assert n - 1 == 2 * (n / 2 - 1) + 1;
    } else {
      AndEven(n, n / 2);
      AndSelf(n / 2);
      assert n - 1 == 2 * (n / 2);
    }
  }

  lemma HalfPow2(n: nat)
    requires n > 1
    ensures IsPow2(n) <==> n % 2 == 0 && IsPow2(n / 2)
  {
    if IsPow2(n) {
      var k: nat :| n == Pow2(k);
      assert k > 0 && n / 2 == Pow2(k - 1);
    }
    if n % 2 == 0 && IsPow2(n / 2) {
      var k: nat :| n / 2 == Pow2(k);
      assert n == Pow2(k + 1);
    }
  }

  /** The mask test recognises exactly the powers of two among the non-zero words; the source's own
      answer for zero is yes. */
  lemma MathIsPow2Exact(n: nat)
    requires n < WORD
    ensures MathIsPow2(n) <==> n == 0 || IsPow2(n)
  {
    if n > 0 {
      AndPredZero(n);
      assert Sub(n, 1) == n - 1;
    }
  }

  lemma {:induction false} WordPow2(k: nat)
    requires Pow2(k) < WORD
    ensures k < 64
  {
    Pow2Word();
    if k >= 64 {
      Pow2Grows(64, k);
    }
  }

  /** `mm_align_up`: the sum and the mask are 64-bit. */
  function AlignUp(p: nat, align: nat): nat
    requires p < WORD && 0 < align < WORD
  {
    And(Add(p, align - 1), Not(align - 1))
  }

  /** `mm_align_down`. */
  function AlignDown(p: nat, align: nat): nat
    requires p < WORD && 0 < align < WORD
  {
    And(p, Not(align - 1))
  }

  /** `mm_align_check`. */
  predicate AlignCheck(p: nat, align: nat)
    requires align > 0
  {
    p % align == 0
  }

  lemma MaskDropsRemainder(p: nat, align: nat)
    requires p < WORD && 0 < align < WORD && IsPow2(align)
    ensures And(p, Not(align - 1)) == p - p % align
  {
    hide And, Pow2;
    var k: nat :| align == Pow2(k);
    WordPow2(k);
    Pow2Word();
    MaskBand(p, 64, k);
    ModIs(p, WORD, 0, p);
  }

  lemma NoMultipleBetween(p: nat, align: nat, m: nat)
    requires align > 0 && m % align == 0
    ensures m <= p ==> m <= p - p % align
    ensures m > p ==> m >= p - p % align + align
  {
    var q, n := p / align, m / align;
    assert p == align * q + p % align;
    assert m == align * n;
    if n <= q {
      MulMono(align, n, q);
    } else {
      MulMono(align, q + 1, n);
    }
  }

  lemma DroppedRemainder(p: nat, align: nat)
    requires align > 0
    ensures 0 <= p - p % align <= p < p - p % align + align
    ensures (p - p % align) % align == 0
  {
    ModIs(p - p % align, align, p / align, 0);
  }

  lemma LeastAbove(p: nat, align: nat, m: nat)
    requires align > 0 && m % align == 0 && m >= p
    ensures m >= p + align - 1 - (p + align - 1) % align
  {
    DroppedRemainder(p + align - 1, align);
    NoMultipleBetween(m, align, p + align - 1 - (p + align - 1) % align);
  }

  /** `mm_align_down` is the greatest multiple of `align` at or below `p`. */
  lemma AlignDownIsGreatest(p: nat, align: nat)
    requires p < WORD && 0 < align < WORD && IsPow2(align)
    ensures AlignDown(p, align) % align == 0
    ensures AlignDown(p, align) <= p
    ensures forall m: nat :: m % align == 0 && m <= p ==> m <= AlignDown(p, align)
  {
    MaskDropsRemainder(p, align);
    DroppedRemainder(p, align);
    forall m: nat | m % align == 0 && m <= p ensures m <= AlignDown(p, align) {
      NoMultipleBetween(p, align, m);
    }
  }

  /** `mm_align_up` is the least multiple of `align` at or above `p` exactly when adding
      `align - 1` does not wrap; when it does wrap the result is below `p`. */
  lemma AlignUpIsLeast(p: nat, align: nat)
    requires p < WORD && 0 < align < WORD && IsPow2(align)
    ensures p + align - 1 < WORD ==>
              && AlignUp(p, align) % align == 0
              && p <= AlignUp(p, align) < p + align
              && forall m: nat :: m % align == 0 && m >= p ==> m >= AlignUp(p, align)
    ensures p + align - 1 >= WORD ==> AlignUp(p, align) < p
  {
    var q := p + align - 1;
    AddIs(p, align - 1);
    if q < WORD {
      AlignUpInside(p, align);
    } else {
      MaskDropsRemainder(q - WORD, align);
      DroppedRemainder(q - WORD, align);
    }
  }

  lemma AlignUpInside(p: nat, align: nat)
    requires p < WORD && 0 < align < WORD && p + align - 1 < WORD && IsPow2(align)
    ensures var r := AlignUp(p, align);
            && r % align == 0 && p <= r < p + align
            && forall m: nat :: m % align == 0 && m >= p ==> m >= r
  {
    hide And, IsPow2;
    var q := p + align - 1;
    AddIs(p, align - 1);
    MaskDropsRemainder(q, align);
    var r := q - q % align;
    assert AlignUp(p, align) == r;
    DroppedRemainder(q, align);
    forall m: nat | m % align == 0 && m >= p ensures m >= r {
      LeastAbove(p, align, m);
    }
  }

  lemma AddIs(x: nat, y: nat)
    requires x < WORD && y < WORD
    ensures Add(x, y) == if x + y < WORD then x + y else x + y - WORD
  {
  }

  lemma SubIs(x: nat, y: nat)
    requires x < WORD && y < WORD
    ensures Sub(x, y) == if x >= y then x - y else x - y + WORD
  {
  }

  /** The corner the source's assertions leave open: the result is 0 exactly for 0 itself and for every
      address within the last `align - 1`, where the sum wraps. */
  lemma AlignUpWraps(p: nat, align: nat)
    requires p < WORD && 0 < align < WORD && IsPow2(align)
    ensures AlignUp(p, align) == 0 <==> p == 0 || p + align - 1 >= WORD
  {
    var q := p + align - 1;
    AddIs(p, align - 1);
    if q < WORD {
      AlignUpIsLeast(p, align);
      ModIs(0, align, 0, 0);
    } else {
      MaskDropsRemainder(q - WORD, align);
      ModIs(q - WORD, align, 0, q - WORD);
    }
  }

  /** `mm_align_class`, for arguments on which its doubling ends inside 64 bits. */
  method AlignClass(p: nat) returns (align: nat)
    requires 0 < p < WORD && p % 2 == 0
    requires p % 0x8000_0000_0000_0000 != 0
    ensures IsPow2(align) && p % align == 0 && align > 1
    ensures forall d: nat :: IsPow2(d) && p % d == 0 ==> d <= align
  {
    Pow2Word();
    align := 1;
    ghost var k: nat := 0;
    assert Pow2(1) == 2;
    while p % align == 0
      invariant align == Pow2(k)
      invariant k <= 63
      invariant k > 0 ==> p % Pow2(k - 1) == 0
      decreases 64 - k
    {
      Pow2Grows(k + 1, 63);
      align := align * 2;
      k := k + 1;
    }
    assert k > 1;
    align := align / 2;
    assert align == Pow2(k - 1);
    assert align > 1;
    forall d: nat | IsPow2(d) && p % d == 0 ensures d <= align {
      var j: nat :| d == Pow2(j);
      if j >= k {
        Pow2Divides(p, k, j);
      } else {
        Pow2Grows(j, k - 1);
      }
    }
  }

  lemma {:induction false} Pow2Divides(p: int, j: nat, k: nat)
    requires j <= k && p % Pow2(k) == 0
    ensures p % Pow2(j) == 0
    decreases k
  {
    if j < k {
      var m := Pow2(k - 1);
      assert p == (2 * m) * (p / (2 * m));
      ModIs(p, m, 2 * (p / (2 * m)), 0);
      Pow2Divides(p, j, k - 1);
    }
  }

  // ---------------------------------------------------------------------------------------------
  // Logarithms
  // ---------------------------------------------------------------------------------------------

  /** Exactly outside the multiples of 2^63 does the doubling of `mm_align_class` end: it finds a power of
      two of 64 bits that does not divide its argument. */
  lemma AlignClassEnds(p: nat)
    ensures (exists k: nat :: k < 64 && p % Pow2(k) != 0) <==> p % 0x8000_0000_0000_0000 != 0
  {
    Pow2Word();
    assert Pow2(63) == 0x8000_0000_0000_0000;
    if p % Pow2(63) == 0 {
      forall k: nat | k < 64 ensures p % Pow2(k) == 0 {
        Pow2Divides(p, k, 63);
      }
    }
  }

  /** `util_math_log_2_down`. Above 2^63 the source's doubling wraps to zero and never ends. */
  method MathLog2Down(val: nat) returns (exp: nat)
    requires 0 < val <= 0x8000_0000_0000_0000
    ensures Pow2(exp) <= val < Pow2(exp + 1)
  {
    Pow2Word();
    var res: nat := 1;
    exp := 0;
    while res < val
      invariant res == Pow2(exp) <= 0x8000_0000_0000_0000
      invariant exp > 0 ==> Pow2(exp - 1) < val
      decreases 2 * val - res
    {
      if exp >= 63 {
        Pow2Grows(63, exp);
      } else {
        Pow2Grows(exp + 1, 63);
      }
      res := res * 2;
      exp := exp + 1;
    }
    if res > val {
      exp := exp - 1;
      res := res / 2;
      assert res < val;
    }
  }

  /** A word after `k` doublings from 1 on. */
  function Doubled(k: nat): nat {
    if k == 0 then 1 else Doubled(k - 1) * 2 % WORD
  }

  lemma {:induction false} DoubledIs(k: nat)
    ensures Doubled(k) == if k < 64 then Pow2(k) else 0
  {
    if k > 0 {
      DoubledIs(k - 1);
      Pow2Word();
      if k < 64 {
        Pow2Grows(k, 63);
        Twice(Pow2(k - 1));
      } else {
        Twice(if k == 64 then Pow2(63) else 0);
      }
    }
  }

  lemma Twice(x: nat)
    requires x <= 0x8000_0000_0000_0000
    ensures x * 2 % WORD == if x < 0x8000_0000_0000_0000 then x * 2 else 0
  {
  }

  /** Exactly up to 2^63 does the doubling of `util_math_log_2_down` ever reach its argument. */
  lemma Log2DownEnds(val: nat)
    requires 0 < val < WORD
    ensures (exists k: nat :: Doubled(k) >= val) <==> val <= 0x8000_0000_0000_0000
  {
    Pow2Word();
    DoubledIs(63);
    forall k: nat ensures Doubled(k) <= 0x8000_0000_0000_0000 {
      DoubledIs(k);
      if k < 64 {
        Pow2Grows(k, 63);
      }
    }
  }

  /** What `util_math_log_2_up` returns: the ceiling of the logarithm from 2 upwards, and 1 below. */
  function Log2Up(val: nat): nat
  {
    if val <= 2 then 1 else 1 + Log2Up((val + 1) / 2)
  }

  lemma {:induction false} Log2UpIsCeiling(val: nat)
    requires val >= 2
    ensures Log2Up(val) >= 1
    ensures Pow2(Log2Up(val) - 1) < val <= Pow2(Log2Up(val))
  {
    if val > 2 {
      Log2UpIsCeiling((val + 1) / 2);
    }
  }

  /** The smallest `x` with `2^x >= val` is what the header promises: it is what comes back exactly
      from 2 upwards. The counterexamples are 0 and 1, for which the least exponent is 0. */
  lemma Log2UpIsLeastExponent(val: nat)
    ensures (forall x: nat :: x < Log2Up(val) ==> Pow2(x) < val) && val <= Pow2(Log2Up(val)) <==> val >= 2
  {
    if val >= 2 {
      Log2UpIsCeiling(val);
      forall x: nat | x < Log2Up(val) ensures Pow2(x) < val {
        Pow2Grows(x, Log2Up(val) - 1);
      }
    } else {
      assert Pow2(0) >= val;
    }
  }

  /** `util_math_log_2_up`. */
  method MathLog2Up(val: nat) returns (r: nat)
    requires val < WORD
    ensures r == Log2Up(val)
  {
    if val == 0 {
      return 1;
    }
    var res: nat := 0;
    var v: nat := val - 1;
    while true
      invariant Log2Up(val) == res + Log2Up(v + 1)
      decreases v
    {
      v := v / 2;
      if v == 0 {
        break;
      }
      res := res + 1;
    }
    r := res + 1;
  }
}
