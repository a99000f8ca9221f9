/** Page-table entries and the index fields of a virtual address (src/mm/mm_page.c,
    src/mem/mem_page.c), against the 4-level paging of the processor. */
module PageWords {
  import opened Words

  const ENTRIES := 512
  const PAGE := 4096
  const BIG_PAGE := 0x20_0000

  /** `VA_48_LOW_END + 1`, the bound the entry constructor asserts for a physical address. */
  const PHYS := 0x8000_0000_0000

  /** `VA_48_HIGH_START`. */
  const HIGH := 0xFFFF_8000_0000_0000

  /** `_tab_entry_is_present` */
  predicate Present(w: nat) {
    w % 2 == 1
  }

  /** The R/W bit. */
  predicate Writable(w: nat) {
    w / 2 % 2 == 1
  }

  /** `_tab_entry_is_huge` */
  predicate Huge(w: nat) {
    w / 128 % 2 == 1
  }

  /** `_tab_entry_get_padd` */
  function Addr(w: nat): nat {
    And(w, 0x0FFF_FFFF_FFFF_F000)
  }

  /** Setting a one-bit field of an entry. */
  function SetBit(w: nat, k: nat): nat {
    if w / Pow2(k) % 2 == 1 then w else w + Pow2(k)
  }

  /** `_tab_entry_init`, for a present and writable entry of the given page size. */
  function Entry(pa: nat, huge: bool): nat {
    var w := SetBit(SetBit(pa, 0), 1);
    if huge then SetBit(w, 7) else w
  }

  lemma Pow2Sixty()
    ensures Pow2(60) == 0x1000_0000_0000_0000
  {
    Pow2Word();
    Pow2Plus(60, 4);
    assert Pow2(4) == 16;
  }

  /** The mask keeps bits 12 to 59. */
  lemma AddrBits(w: nat)
    ensures Addr(w) == w % 0x1000_0000_0000_0000 / PAGE * PAGE
  {
    MaskBand(w, 60, 12);
    Pow2Sixty();
    Pow2Word();
    assert 0x0FFF_FFFF_FFFF_F000 == 0x1000_0000_0000_0000 - 4096;
  }

  lemma FlagBits(pa: nat, f: nat)
    requires pa % PAGE == 0 && f < PAGE && pa < PHYS
    ensures (pa + f) % 2 == f % 2 && (pa + f) / 2 % 2 == f / 2 % 2 && (pa + f) / 128 % 2 == f / 128 % 2
    ensures Addr(pa + f) == pa
  {
    var p := pa / PAGE;
    assert pa == PAGE * p;
    AddrBits(pa + f);
    FlagFields(p, f);
    ModIs(pa + f, 0x1000_0000_0000_0000, 0, pa + f);
  }

  lemma FlagFields(p: nat, f: nat)
    requires f < PAGE
    ensures var w := 4096 * p + f;
            w % 2 == f % 2 && w / 2 % 2 == f / 2 % 2 && w / 128 % 2 == f / 128 % 2 && w / PAGE == p
  {
    FlagField(p, f, 1, 2048);
    FlagField(p, f, 2, 1024);
    FlagField(p, f, 128, 16);
    ModIs(4096 * p + f, PAGE, p, f);
  }

  /** A multiple of `2 * k` leaves the bits below alone. */
  lemma FlagField(p: nat, f: nat, k: nat, m: nat)
    requires k > 0 && 2 * k * m == PAGE
    ensures (4096 * p + f) / k % 2 == f / k % 2
  {
    var d, r := f / k, f % k;
    var n := m * p;
    assert f == k * d + r;
    PageIs(p, k, m);
    Spread(k, n, d);
    ModIs(4096 * p + f, k, 2 * n + d, r);
    ModIs(2 * n + d, 2, n + d / 2, d % 2);
  }

  lemma PageIs(p: nat, k: nat, m: nat)
    requires 2 * k * m == PAGE
    ensures 4096 * p == k * (2 * (m * p))
  {
    assert 2 * k * m * p == k * (2 * (m * p));
  }

  lemma Spread(k: nat, n: nat, d: nat)
    ensures k * (2 * n + d) == k * (2 * n) + k * d
  {
  }

  /** An entry gives back the address put into it, allows writing, and says which kind of page it maps. */
  lemma EntryRoundTrip(pa: nat, huge: bool)
    requires pa % PAGE == 0 && pa < PHYS
    ensures Addr(Entry(pa, huge)) == pa && Present(Entry(pa, huge)) && Writable(Entry(pa, huge))
    ensures Huge(Entry(pa, huge)) <==> huge
    ensures Entry(pa, huge) == pa + (if huge then 131 else 3)
  {
    assert Pow2(0) == 1 && Pow2(1) == 2 && Pow2(7) == 128;
    var w, w3 := pa + 1, pa + 3;
    FlagBits(pa, 0);
    FlagBits(pa, 1);
    FlagBits(pa, 3);
    FlagBits(pa, 131);
    assert SetBit(pa, 0) == w;
    assert SetBit(w, 1) == w3;
  }

  /** The constructor also lets through the addresses from `HIGH` up, and those do not come back:
      among the aligned words it accepts, exactly the low ones survive the round trip. */
  lemma EntryRoundTripExact(pa: nat)
    requires pa < WORD && pa % PAGE == 0 && (pa < PHYS || pa >= HIGH)
    ensures Addr(Entry(pa, false)) == pa <==> pa < PHYS
  {
    if pa < PHYS {
      EntryRoundTrip(pa, false);
    } else {
      AddrBits(Entry(pa, false));
    }
  }

  // ---------------------------------------------------------------------------------------------
  // Virtual addresses
  // ---------------------------------------------------------------------------------------------

  lemma And511(x: nat)
    ensures And(x, 0x1FF) == x % 512
  {
    assert Pow2(9) == 512;
    AndLowMask(x, 9);
  }

  /** A right shift. */
  function Shr(x: nat, k: nat): nat {
    if k == 0 then x else Shr(x / 2, k - 1)
  }

  lemma {:induction false} ShrIsQuotient(x: nat, k: nat)
    ensures Shr(x, k) == x / Pow2(k)
  {
    if k > 0 {
      ShrIsQuotient(x / 2, k - 1);
      Halved(x, Pow2(k - 1));
    }
  }

  /** `_vadd_tab_index` */
  function TabIndex(va: nat, level: nat): (i: nat)
    requires 1 <= level <= 4
    ensures i < ENTRIES
  {
    And511(Shr(va, (level - 1) * 9 + 12));
    And(Shr(va, (level - 1) * 9 + 12), 0x1FF)
  }

  lemma Shifts()
    ensures Pow2(12) == 0x1000 && Pow2(21) == 0x20_0000
    ensures Pow2(30) == 0x4000_0000 && Pow2(39) == 0x80_0000_0000
  {
    assert Pow2(9) == 512;
    Pow2Word();
    Pow2Plus(12, 9);
    Pow2Plus(21, 9);
    Pow2Plus(30, 9);
  }

  lemma TabIndexIs(va: nat)
    ensures TabIndex(va, 1) == va / 0x1000 % 512
    ensures TabIndex(va, 2) == va / 0x20_0000 % 512
    ensures TabIndex(va, 3) == va / 0x4000_0000 % 512
    ensures TabIndex(va, 4) == va / 0x80_0000_0000 % 512
  {
    Shifts();
    ShrIsQuotient(va, 12);
    ShrIsQuotient(va, 21);
    ShrIsQuotient(va, 30);
    ShrIsQuotient(va, 39);
    And511(va / 0x1000);
    And511(va / 0x20_0000);
    And511(va / 0x4000_0000);
    And511(va / 0x80_0000_0000);
  }

  /** The four index fields, from the root down. */
  function Idx(va: nat): (q: seq<nat>)
    ensures |q| == 4
    ensures forall k :: 0 <= k < 4 ==> q[k] < ENTRIES
  {
    [TabIndex(va, 4), TabIndex(va, 3), TabIndex(va, 2), TabIndex(va, 1)]
  }

  lemma IdxFields(va: nat)
    ensures forall lv :: 1 <= lv <= 4 ==> Idx(va)[4 - lv] == TabIndex(va, lv)
  {
  }

  /** The page number the hardware looks at: bits 12 to 47. */
  function PageNo(va: nat): nat {
    va / PAGE % 0x10_0000_0000
  }

  lemma PageNoDigits(va: nat)
    ensures PageNo(va) == Idx(va)[0] * 0x800_0000 + Idx(va)[1] * 0x4_0000 + Idx(va)[2] * 512 + Idx(va)[3]
  {
    TabIndexIs(va);
    var p := va / PAGE;
    assert va / 0x20_0000 == p / 512;
    assert va / 0x4000_0000 == p / 0x4_0000;
    assert va / 0x80_0000_0000 == p / 0x800_0000;
    Digits(p);
  }

  lemma Digits(p: nat)
    ensures p % 0x10_0000_0000
         == p / 0x800_0000 % 512 * 0x800_0000 + p / 0x4_0000 % 512 * 0x4_0000 + p / 512 % 512 * 512 + p % 512
  {
    var a := p / 512;
    var b := a / 512;
    var c := b / 512;
    var x, y, z, w := p % 512, a % 512, b % 512, c % 512;
    assert p == 512 * a + x && a == 512 * b + y && b == 512 * c + z && c == 512 * (c / 512) + w;
    ModIs(p, 0x4_0000, b, y * 512 + x);
    ModIs(p, 0x800_0000, c, z * 0x4_0000 + y * 512 + x);
    ModIs(p, 0x10_0000_0000, c / 512, w * 0x800_0000 + z * 0x4_0000 + y * 512 + x);
  }

  /** Two addresses have the same indices exactly when they lie on the same page of the 48-bit space. */
  lemma IdxIsPage(va: nat, vb: nat)
    ensures Idx(va) == Idx(vb) <==> PageNo(va) == PageNo(vb)
  {
    PageNoDigits(va);
    PageNoDigits(vb);
    if PageNo(va) == PageNo(vb) {
      var p, q := Idx(va), Idx(vb);
      SameDigits(p[0], p[1], p[2], p[3], q[0], q[1], q[2], q[3]);
    }
  }

  lemma SameDigits(a: nat, b: nat, c: nat, d: nat, e: nat, f: nat, g: nat, h: nat)
    requires b < 512 && c < 512 && d < 512 && f < 512 && g < 512 && h < 512
    requires a * 0x800_0000 + b * 0x4_0000 + c * 512 + d == e * 0x800_0000 + f * 0x4_0000 + g * 512 + h
    ensures a == e && b == f && c == g && d == h
  {
    assert a == e;
    assert b == f;
  }

  /** Sign-extended 48-bit addresses, the ones the hardware accepts. */
  predicate Canonical(va: nat) {
    va < PHYS || HIGH <= va < WORD
  }

  lemma CanonicalPage(va: nat, vb: nat)
    requires Canonical(va) && Canonical(vb)
    ensures PageNo(va) == PageNo(vb) <==> va / PAGE == vb / PAGE
  {
  }

  /** The direct-access page, `VA_48_DIRECT_ACCESS_PAGE`. */
  const DIRECT := 0xFFFF_8001_0100_0000

  /** Its four indices. */
  function DirectPath(): (q: seq<nat>)
    ensures |q| == 4
  {
    [256, 4, 8, 0]
  }

  lemma DirectFields(va: nat)
    requires va == DIRECT
    ensures va / 0x1000 % 512 == 0 && va / 0x20_0000 % 512 == 8
    ensures va / 0x4000_0000 % 512 == 4 && va / 0x80_0000_0000 % 512 == 256
  {
    ModIs(va, 0x1000, 0xffff800101000, 0x0);
    ModIs(0xffff800101000, 512, 0x7fffc000808, 0x0);
    ModIs(va, 0x200000, 0x7fffc000808, 0x0);
    ModIs(0x7fffc000808, 512, 0x3fffe0004, 0x8);
    ModIs(va, 0x40000000, 0x3fffe0004, 0x1000000);
    ModIs(0x3fffe0004, 512, 0x1ffff00, 0x4);
    ModIs(va, 0x8000000000, 0x1ffff00, 0x101000000);
    ModIs(0x1ffff00, 512, 0xffff, 0x100);
  }

  lemma DirectIdx(va: nat)
    requires va == DIRECT
    ensures Idx(va) == DirectPath()
  {
    var a, b, c, d := TabIndex(va, 1), TabIndex(va, 2), TabIndex(va, 3), TabIndex(va, 4);
    TabIndexIs(va);
    DirectFields(va);
    assert a == 0 && b == 8 && c == 4 && d == 256;
  }

  /** `_vadd_page_offset`, at the two levels that map pages. */
  function PageOffset(va: nat, level: nat): nat
    requires level == 1 || level == 2
  {
    if level == 1 then And(va, 0xFFF) else And(va, 0x1F_FFFF)
  }

  lemma OffsetIsRemainder(va: nat, level: nat)
    requires level == 1 || level == 2
    ensures PageOffset(va, level) == va % (if level == 1 then PAGE else BIG_PAGE)
  {
    Shifts();
    AndLowMask(va, 12);
    AndLowMask(va, 21);
  }
}
