/** Decimal numbers: printing and parsing of src/containers/containers_string.c. */
module Decimals {
  import opened Words
  import opened Lists

  /** `str_char_is_digit` */
  predicate IsDigit(c: char) {
    '0' <= c <= '9'
  }

  /** `str_char_to_uint` */
  function DigitOf(c: char): (d: nat)
    requires IsDigit(c)
    ensures d < 10
  {
    c as int - '0' as int
  }

  function CharOf(d: nat): (c: char)
    requires d < 10
    ensures IsDigit(c) && DigitOf(c) == d
  {
    ('0' as int + d) as char
  }

  /** The decimal digits of a number, the most significant first. */
  function Decimal(v: nat): (s: string)
    ensures |s| > 0 && forall i :: 0 <= i < |s| ==> IsDigit(s[i])
  {
    if v < 10 then [CharOf(v)] else Decimal(v / 10) + [CharOf(v % 10)]
  }

  ghost predicate AllDigits(s: string, i: nat, k: nat) {
    i + k <= |s| && forall j :: i <= j < i + k ==> IsDigit(s[j])
  }

  /** The number that the `k` digits from `i` on stand for. */
  ghost function Value(s: string, i: nat, k: nat): nat
    requires AllDigits(s, i, k)
  {
    if k == 0 then 0 else Value(s, i, k - 1) * 10 + DigitOf(s[i + k - 1])
  }

  /** How many digits stand from `i` on, before `n`. */
  function DigitRun(s: string, i: nat, n: nat): (k: nat)
    requires n <= |s|
    ensures i + k <= |s| || k == 0
    ensures forall j :: i <= j < i + k ==> IsDigit(s[j])
    decreases n - i
  {
    if i < n && IsDigit(s[i]) then 1 + DigitRun(s, i + 1, n) else 0
  }

  lemma {:induction false} ValueShared(s: string, i: nat, t: string, j: nat, k: nat)
    requires AllDigits(s, i, k) && AllDigits(t, j, k) && forall m :: i <= m < i + k ==> s[m] == t[m - i + j]
    ensures Value(s, i, k) == Value(t, j, k)
  {
    if k > 0 {
      ValueShared(s, i, t, j, k - 1);
      assert s[i + k - 1] == t[i + k - 1 - i + j];
    }
  }

  /** Parsing what was printed gives it back. */
  lemma {:induction false} DecimalValue(v: nat)
    ensures Value(Decimal(v), 0, |Decimal(v)|) == v
  {
    var s := Decimal(v);
    if v < 10 {
      assert Value(s, 0, 0) == 0;
    } else {
      var t := Decimal(v / 10);
      DecimalValue(v / 10);
      ValueShared(s, 0, t, 0, |t|);
    }
  }

  lemma NoLeadingZero(v: nat)
    ensures v > 0 ==> Decimal(v)[0] != '0'
  {
    if v >= 10 {
      NoLeadingZero(v / 10);
    }
  }

  function Pow10(j: nat): (p: nat)
    ensures p > 0
  {
    if j == 0 then 1 else 10 * Pow10(j - 1)
  }

  lemma Tenth(v: nat, m: nat)
    requires m > 0
    ensures v / 10 / m == v / (10 * m)
  {
    var a, b := v / 10, v % 10;
    var q, r := a / m, a % m;
    assert a == m * q + r;
    assert v == 10 * m * q + (10 * r + b);
    ModIs(v, 10 * m, q, 10 * r + b);
  }

  /** Place `j` from the right holds the digit of 10^j. */
  lemma {:induction false} PlaceValue(v: nat, j: nat)
    requires j < |Decimal(v)|
    ensures DigitOf(Decimal(v)[|Decimal(v)| - 1 - j]) == v / Pow10(j) % 10
  {
    if v >= 10 && j > 0 {
      PlaceValue(v / 10, j - 1);
      Tenth(v, Pow10(j - 1));
    }
  }

  /** There are as many places as the number needs. */
  lemma {:induction false} PlaceCount(v: nat)
    ensures v < Pow10(|Decimal(v)|) && (|Decimal(v)| > 1 ==> Pow10(|Decimal(v)| - 1) <= v)
  {
    if v >= 10 {
      PlaceCount(v / 10);
      var n := |Decimal(v / 10)|;
      assert |Decimal(v)| == n + 1;
      if n == 1 {
        assert Pow10(1) == 10 * Pow10(0) == 10;
      }
    } else {
      assert Pow10(1) == 10 * Pow10(0) == 10;
    }
  }

  /** No digits that stand for the number are fewer. */
  lemma {:induction false} DecimalIsShortest(s: string, k: nat)
    requires k > 0 && AllDigits(s, 0, k)
    ensures |Decimal(Value(s, 0, k))| <= k
    decreases k
  {
    var v := Value(s, 0, k);
    if k > 1 {
      DecimalIsShortest(s, k - 1);
      assert v / 10 == Value(s, 0, k - 1);
    } else {
      assert Value(s, 0, 0) == 0;
    }
  }

  /** The run of digits of a printed number that something else follows. */
  lemma {:induction false} RunOf(s: string, i: nat, n: nat, k: nat)
    requires n <= |s| && i + k <= n && AllDigits(s, i, k) && (i + k < n ==> !IsDigit(s[i + k]))
    ensures DigitRun(s, i, n) == k
    decreases k
  {
    if k > 0 {
      RunOf(s, i + 1, n, k - 1);
    }
  }

  /** A printed number is parsed back wherever it stands, if no digit follows it. */
  lemma PrintedParses(s: string, i: nat, n: nat, v: nat)
    requires n <= |s| && Stands(s, i, Decimal(v)) && i + |Decimal(v)| <= n
    requires i + |Decimal(v)| < n ==> !IsDigit(s[i + |Decimal(v)|])
    ensures DigitRun(s, i, n) == |Decimal(v)| && AllDigits(s, i, |Decimal(v)|)
    ensures Value(s, i, |Decimal(v)|) == v
  {
    var t := Decimal(v);
    forall j | i <= j < i + |t| ensures s[j] == t[j - i] {
      StandsHere(s, i, t, j - i);
    }
    RunOf(s, i, n, |t|);
    ValueShared(s, i, t, 0, |t|);
    DecimalValue(v);
  }

  // ---------------------------------------------------------------------------------------------
  // The loops
  // ---------------------------------------------------------------------------------------------

  lemma Wrapped(x: nat, d: nat)
    ensures Add(x % WORD * 10 % WORD, d) == (x * 10 + d) % WORD
  {
    var q := x / WORD;
    var r := x % WORD;
    assert x == WORD * q + r;
    var a := r * 10;
    var p, m := a / WORD, a % WORD;
    assert a == WORD * p + m;
    var b := m + d;
    var u, w := b / WORD, b % WORD;
    assert b == WORD * u + w;
    ModIs(x * 10 + d, WORD, 10 * q + p + u, w);
  }

  /** `str_to_uint`: the digits from `off` on, as a machine word. It stops the kernel if there are none. */
  method StrToUint(str: string, off: nat, n: nat) returns (ok: bool, val: nat, len: nat)
    requires n <= |str|
    ensures len == DigitRun(str, off, n) && (ok <==> len > 0)
    ensures ok ==> val == Value(str, off, len) % WORD
  {
    val := 0;
    var ptr := off;
    while ptr < n
      invariant off <= ptr && (off <= n ==> ptr <= n)
      invariant AllDigits(str, off, ptr - off) || ptr == off
      invariant DigitRun(str, off, n) == ptr - off + DigitRun(str, ptr, n)
      invariant ptr > off ==> val == Value(str, off, ptr - off) % WORD
      invariant ptr == off ==> val == 0
    {
      if !IsDigit(str[ptr]) {
        break;
      }
      Wrapped(if ptr > off then Value(str, off, ptr - off) else 0, DigitOf(str[ptr]));
      val := Add(val * 10 % WORD, DigitOf(str[ptr]));
      ptr := ptr + 1;
    }
    ok := ptr > off;
    len := ptr - off;
  }

  /** The check of the source before it writes `n` bytes at `off`: more than `n` bytes are left, by an
      unsigned difference. */
  predicate Passes(off: nat, bufLen: nat, n: nat) {
    Sub(bufLen, off) > n
  }

  /** What passes it stays in the buffer exactly if it starts in it. */
  lemma PassesInside(off: nat, bufLen: nat, n: nat)
    requires off < WORD && bufLen < WORD && Passes(off, bufLen, n)
    ensures off + n <= bufLen <==> off <= bufLen
    ensures off <= bufLen ==> off + n < bufLen
  {
    SubIs(bufLen, off);
  }

  /** `str_buf_marshal_uint`: the decimal digits at `off`, and nothing else. It stops the kernel unless the
      check passes; past the buffer's end the difference wraps, and the digits land behind the buffer. */
  method MarshalUint(buf: array<char>, off: nat, bufLen: nat, val: nat) returns (ok: bool, count: nat)
    requires off < WORD && bufLen < WORD && (Passes(off, bufLen, |Decimal(val)|) ==> off + |Decimal(val)| <= buf.Length)
    modifies buf
    ensures count == |Decimal(val)| && (ok <==> Passes(off, bufLen, count))
    ensures ok ==> buf[..] == Written(old(buf[..]), off, Decimal(val)) && (off + count <= bufLen <==> off <= bufLen)
    ensures !ok ==> buf[..] == old(buf[..])
  {
    ghost var s := Decimal(val);
    count := 1;
    var rest: nat := val / 10;
    while rest > 0
      invariant |s| == count + (if rest > 0 then |Decimal(rest)| else 0)
    {
      count := count + 1;
      rest := rest / 10;
    }
    if Sub(bufLen, off) <= count {
      return false, count;
    }
    PassesInside(off, bufLen, count);
    rest := val;
    var ptr := off + count - 1;
    while true
      invariant off <= ptr < off + count && |Decimal(rest)| == ptr - off + 1
      invariant forall k :: 0 <= k < |Decimal(rest)| ==> Decimal(rest)[k] == s[k]
      invariant forall k :: ptr < k < off + count ==> buf[k] == s[k - off]
      invariant forall k :: 0 <= k < buf.Length && !(ptr < k < off + count) ==> buf[k] == old(buf[k])
      decreases ptr
    {
      LastDigit(rest);
      buf[ptr] := CharOf(rest % 10);
      rest := rest / 10;
      if rest == 0 {
        break;
      }
      ptr := ptr - 1;
    }
    assert ptr == off;
    return true, count;
  }

  lemma LastDigit(v: nat)
    ensures Decimal(v)[|Decimal(v)| - 1] == CharOf(v % 10)
    ensures v / 10 > 0 <==> |Decimal(v)| > 1
    ensures v / 10 > 0 ==> Decimal(v) == Decimal(v / 10) + [CharOf(v % 10)]
  {
  }
}
