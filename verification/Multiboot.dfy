/** The walk over the boot information (src/kernel/kernel_main.c), against the layout of section 3.6
    (Boot information) of the Multiboot2 Specification. */
module Multiboot {
  import opened Words
  import opened Lists

  type Byte = b: nat | b < 256

  /** `MULTI_BOOT_INFO_CAP` and `MULTI_BOOT_INFO_SLOT_COUNT` */
  const CAP := 0x10_0000
  const SLOTS := 128

  /** The tag types `_multi_boot_info_save_tag` has a case for. */
  predicate Supported(kind: nat) {
    kind == 1 || kind == 2 || (4 <= kind <= 10) || kind == 14 || kind == 15
  }

  // ---------------------------------------------------------------------------------------------
  // The layout
  // ---------------------------------------------------------------------------------------------

  datatype Tag = Tag(kind: nat, payload: seq<Byte>)

  const WORD32 := 0x1_0000_0000

  /** Four bytes, the least significant first. */
  function Le32(x: nat): (s: seq<Byte>)
    requires x < WORD32
    ensures |s| == 4
  {
    [x % 256, x / 0x100 % 256, x / 0x1_0000 % 256, x / 0x100_0000]
  }

  function Read32(s: seq<Byte>, i: nat): nat
    requires i + 4 <= |s|
  {
    var a: nat, b: nat, c: nat, d: nat := s[i], s[i + 1], s[i + 2], s[i + 3];
    a + 0x100 * b + 0x1_0000 * c + 0x100_0000 * d
  }

  lemma ReadsBack(x: nat)
    requires x < WORD32
    ensures Read32(Le32(x), 0) == x
  {
    var a, b := x / 0x100, x / 0x1_0000;
    assert a / 0x100 == b && b / 0x100 == x / 0x100_0000;
    assert x == 0x100 * a + x % 256 && a == 0x100 * b + a % 256 && b == 0x100 * (b / 0x100) + b % 256;
  }

  function Up8(n: nat): (r: nat)
    ensures n <= r < n + 8 && r % 8 == 0
  {
    (n + 7) / 8 * 8
  }

  function Zeros(n: nat): (s: seq<Byte>)
    ensures |s| == n
  {
    if n == 0 then [] else Zeros(n - 1) + [0]
  }

  /** The bytes a tag takes, padded so that the next one starts at a multiple of 8. */
  function Span(t: Tag): nat {
    Up8(8 + |t.payload|)
  }

  function TagBytes(t: Tag): (s: seq<Byte>)
    requires t.kind < WORD32 && 8 + |t.payload| < WORD32
    ensures |s| == Span(t)
  {
    Le32(t.kind) + Le32(8 + |t.payload|) + t.payload + Zeros(Span(t) - 8 - |t.payload|)
  }

  /** A tag of any type but 0, which ends the tags. */
  ghost predicate TagOk(t: Tag) {
    0 < t.kind < WORD32 && |t.payload| < CAP
  }

  ghost predicate TagsOk(tags: seq<Tag>) {
    forall k :: 0 <= k < |tags| ==> TagOk(tags[k])
  }

  /** The tags from number `k` on, and the terminating tag. */
  ghost function Body(tags: seq<Tag>, k: nat): (s: seq<Byte>)
    requires k <= |tags| && TagsOk(tags)
    decreases |tags| - k
  {
    if k == |tags| then Le32(0) + Le32(8) else TagBytes(tags[k]) + Body(tags, k + 1)
  }

  /** Where tag `k` starts. */
  ghost function Offset(tags: seq<Tag>, k: nat): (r: nat)
    requires k <= |tags|
    ensures r % 8 == 0 && r >= 8
  {
    if k == 0 then 8 else Offset(tags, k - 1) + Span(tags[k - 1])
  }

  ghost function Size(tags: seq<Tag>): nat {
    Offset(tags, |tags|) + 8
  }

  /** A boot information: the fixed part and the tags. */
  ghost function Layout(tags: seq<Tag>): seq<Byte>
    requires TagsOk(tags) && Size(tags) < WORD32
  {
    Le32(Size(tags)) + Le32(0) + Body(tags, 0)
  }

  // ---------------------------------------------------------------------------------------------
  // The walk
  // ---------------------------------------------------------------------------------------------

  /** A saved tag: where its payload starts in the copy, and its length. */
  datatype Slot = Slot(start: nat, len: nat)

  type Table = map<nat, Slot>

  /** How a walk ends, and what it has saved by then. */
  datatype Result = Panic(table: Table) | Saved(table: Table)

  function Finish(off: nat, total: nat, table: Table): Result {
    if off == total then Saved(table) else Panic(table)
  }

  /** `size - 8` of two 32-bit words. */
  function Len32(size: nat): nat {
    (size - 8) % WORD32
  }

  /** An upper bound of the bytes left to look at. */
  function BytesLeft(total: nat, off: nat): nat {
    if off < total then total - off else 0
  }

  /** Whether the tag at `off` would fill an empty slot. */
  predicate FillsSlot(info: seq<Byte>, off: nat, table: Table) {
    off + 4 <= |info| && Read32(info, off) !in table
  }

  /** What the walk does from offset `off` of the copy on, with `table` saved so far. A tag of size 0
      leads to itself, and stops the walk when it is found saved already. */
  ghost function Walk(info: seq<Byte>, total: nat, off: nat, table: Table): Result
    requires |info| == CAP && total < CAP && off % 8 == 0
    decreases BytesLeft(total, off), FillsSlot(info, off, table)
  {
    if off >= total then Finish(off, total, table)
    else
      var kind, size := Read32(info, off), Read32(info, off + 4);
      if kind == 0 then Finish(off + 8, total, table)
      else if !Supported(kind) || kind in table then Panic(table)
      else Walk(info, total, Up8(off + size), table[kind := Slot(off + 8, Len32(size))])
  }

  /** One round of the walk, and why there are not too many. */
  lemma WalkOnce(info: seq<Byte>, total: nat, off: nat, table: Table)
    requires |info| == CAP && off < total < CAP && off % 8 == 0
    ensures off + 8 <= |info| && Read32(info, off + 4) < WORD32
    ensures var kind, size := Read32(info, off), Read32(info, off + 4);
            Walk(info, total, off, table) ==
              if kind == 0 then Finish(off + 8, total, table)
              else if !Supported(kind) || kind in table then Panic(table)
              else Walk(info, total, Up8(off + size), table[kind := Slot(off + 8, Len32(size))])
    ensures var kind, size := Read32(info, off), Read32(info, off + 4);
            kind !in table ==>
              BytesLeft(total, Up8(off + size)) < BytesLeft(total, off)
              || (Up8(off + size) == off && FillsSlot(info, off, table)
                  && !FillsSlot(info, off, table[kind := Slot(off + 8, Len32(size))]))
  {
  }

  lemma WalkOver(info: seq<Byte>, total: nat, off: nat, table: Table)
    requires |info| == CAP && total <= off && total < CAP && off % 8 == 0
    ensures Walk(info, total, off, table) == Finish(off, total, table)
  {
  }

  ghost predicate AllSupported(table: Table) {
    forall k :: k in table ==> Supported(k)
  }

  lemma {:induction false} OnlySupported(info: seq<Byte>, total: nat, off: nat, table: Table)
    requires |info| == CAP && total < CAP && off % 8 == 0 && AllSupported(table)
    ensures AllSupported(Walk(info, total, off, table).table)
    decreases BytesLeft(total, off), FillsSlot(info, off, table)
  {
    if off < total {
      var kind, size := Read32(info, off), Read32(info, off + 4);
      if Supported(kind) && kind !in table {
        OnlySupported(info, total, Up8(off + size), table[kind := Slot(off + 8, Len32(size))]);
      }
    }
  }

  /** However the contents came about, and whether the walk ends well or panics, it saves supported tags
      only, so at most 11. */
  lemma AtMostEleven(info: seq<Byte>, total: nat)
    requires |info| == CAP && total < CAP
    ensures var table := Walk(info, total, 8, map[]).table; AllSupported(table) && |table.Keys| <= 11
  {
    OnlySupported(info, total, 8, map[]);
    Eleven(Walk(info, total, 8, map[]).table.Keys);
  }

  lemma Eleven(keys: set<nat>)
    requires forall k :: k in keys ==> Supported(k)
    ensures |keys| <= 11
  {
    Subset(keys, {1, 2, 4, 5, 6, 7, 8, 9, 10, 14, 15});
  }

  lemma Subset(xs: set<nat>, ys: set<nat>)
    requires xs <= ys
    ensures |xs| <= |ys|
  {
    assert ys == xs + (ys - xs);
  }

  // ---------------------------------------------------------------------------------------------
  // Well-formed boot information
  // ---------------------------------------------------------------------------------------------

  lemma Read32At(info: seq<Byte>, off: nat, x: nat)
    requires x < WORD32 && Stands(info, off, Le32(x))
    ensures off + 4 <= |info| && Read32(info, off) == x
  {
    ReadsBack(x);
    var s := Le32(x);
    StandsHere(info, off, s, 0);
    StandsHere(info, off, s, 1);
    StandsHere(info, off, s, 2);
    StandsHere(info, off, s, 3);
  }

  /** A tag is read back as it was laid out. */
  lemma TagReadsBack(info: seq<Byte>, off: nat, t: Tag)
    requires TagOk(t) && Stands(info, off, TagBytes(t))
    ensures off + 8 <= |info| && Read32(info, off) == t.kind && Read32(info, off + 4) == 8 + |t.payload|
    ensures Stands(info, off + 8, t.payload)
  {
    var a, b, p, z := Le32(t.kind), Le32(8 + |t.payload|), t.payload, Zeros(Span(t) - 8 - |t.payload|);
    StandsSplit(info, off, a + b + p, z);
    StandsSplit(info, off, a + b, p);
    StandsSplit(info, off, a, b);
    Read32At(info, off, t.kind);
    Read32At(info, off + 4, 8 + |t.payload|);
  }

  /** Section 3.6 gives these types to the command line, the boot loader's name, the basic memory
      information, the BIOS device, the memory map, VBE, the frame buffer, the ELF symbols, APM, and the old
      and the new ACPI tables. */
  const SAVED: set<nat> := {1, 2, 4, 5, 6, 7, 8, 9, 10, 14, 15}

  /** The first `k` tags are of these types, each of another. */
  ghost predicate Savable(tags: seq<Tag>, k: nat)
    requires k <= |tags|
  {
    && (forall j :: 0 <= j < k ==> tags[j].kind in SAVED)
    && forall i, j :: 0 <= i < j < k ==> tags[i].kind != tags[j].kind
  }

  /** The slots of the first `k` tags. */
  ghost function Expected(tags: seq<Tag>, k: nat): Table
    requires k <= |tags|
  {
    if k == 0 then map[] else Expected(tags, k - 1)[tags[k - 1].kind := Slot(Offset(tags, k - 1) + 8, |tags[k - 1].payload|)]
  }

  lemma {:induction false} ExpectedKinds(tags: seq<Tag>, k: nat, kind: nat)
    requires k <= |tags|
    ensures kind in Expected(tags, k) <==> exists j :: 0 <= j < k && tags[j].kind == kind
  {
    if k > 0 {
      ExpectedKinds(tags, k - 1, kind);
    }
  }

  /** The table holds exactly each tag's payload: where it starts and how long it is. */
  lemma {:induction false} ExpectedSlots(tags: seq<Tag>, k: nat, j: nat)
    requires j < k <= |tags| && Savable(tags, k)
    ensures tags[j].kind in Expected(tags, k)
    ensures Expected(tags, k)[tags[j].kind] == Slot(Offset(tags, j) + 8, |tags[j].payload|)
  {
    if j < k - 1 {
      ExpectedSlots(tags, k - 1, j);
    }
  }

  lemma BodyStep(tags: seq<Tag>, k: nat)
    requires k < |tags| && TagsOk(tags)
    ensures TagOk(tags[k]) && tags[k].kind < WORD32 && 8 + |tags[k].payload| < WORD32
    ensures Body(tags, k) == TagBytes(tags[k]) + Body(tags, k + 1) && |Body(tags, k)| == Span(tags[k]) + |Body(tags, k + 1)|
    ensures Offset(tags, k + 1) == Offset(tags, k) + Span(tags[k])
  {
    assert TagOk(tags[k]);
  }

  lemma {:induction false} BodyLength(tags: seq<Tag>, k: nat)
    requires k <= |tags| && TagsOk(tags)
    ensures Offset(tags, k) + |Body(tags, k)| == Size(tags)
    decreases |tags| - k
  {
    if k < |tags| {
      BodyStep(tags, k);
      BodyLength(tags, k + 1);
    }
  }

  lemma TagInside(tags: seq<Tag>, k: nat)
    requires k < |tags| && TagsOk(tags)
    ensures Offset(tags, k) < Size(tags)
  {
    BodyStep(tags, k);
    BodyLength(tags, k);
  }

  /** Tag `k` can be saved as well exactly if its type is known and its slot empty. */
  lemma NextSavable(tags: seq<Tag>, k: nat)
    requires k < |tags| && Savable(tags, k)
    ensures Savable(tags, k + 1) <==> Supported(tags[k].kind) && tags[k].kind !in Expected(tags, k)
  {
    ExpectedKinds(tags, k, tags[k].kind);
  }

  /** As many slots as tags. */
  lemma {:induction false} ExpectedCount(tags: seq<Tag>, k: nat)
    requires k <= |tags| && Savable(tags, k)
    ensures |Expected(tags, k).Keys| == k
  {
    hide Expected, Savable, Offset, Supported;
    if k > 0 {
      FewerSavable(tags, k - 1);
      ExpectedCount(tags, k - 1);
      NextSavable(tags, k - 1);
      ExpectedStep(tags, k - 1);
      OneMoreKey(Expected(tags, k - 1), tags[k - 1].kind, Slot(Offset(tags, k - 1) + 8, |tags[k - 1].payload|));
    } else {
      FirstTag(tags, k);
    }
  }

  lemma FewerSavable(tags: seq<Tag>, k: nat)
    requires k < |tags| && Savable(tags, k + 1)
    ensures Savable(tags, k)
  {
  }

  lemma OneMoreKey(table: Table, kind: nat, slot: Slot)
    requires kind !in table
    ensures |table[kind := slot].Keys| == |table.Keys| + 1
  {
    assert table[kind := slot].Keys == table.Keys + {kind};
  }

  lemma ExpectedStep(tags: seq<Tag>, k: nat)
    requires k < |tags|
    ensures Expected(tags, k + 1) == Expected(tags, k)[tags[k].kind := Slot(Offset(tags, k) + 8, |tags[k].payload|)]
  {
  }

  lemma Up8Plus(off: nat, n: nat)
    requires off % 8 == 0
    ensures Up8(off + n) == off + Up8(n)
  {
  }

  /** One round of the walk, over a tag laid out at `off`. */
  lemma WalkTag(info: seq<Byte>, total: nat, off: nat, table: Table, t: Tag)
    requires |info| == CAP && off < total < CAP && off % 8 == 0
    requires TagOk(t) && Stands(info, off, TagBytes(t)) && Supported(t.kind) && t.kind !in table
    ensures Walk(info, total, off, table) == Walk(info, total, off + Span(t), table[t.kind := Slot(off + 8, |t.payload|)])
  {
    TagReadsBack(info, off, t);
    SpanIs(off, t);
  }

  lemma SpanIs(off: nat, t: Tag)
    requires off % 8 == 0 && TagOk(t)
    ensures Up8(off + (8 + |t.payload|)) == off + Span(t) && (off + Span(t)) % 8 == 0 && Len32(8 + |t.payload|) == |t.payload|
  {
    Up8Plus(off, 8 + |t.payload|);
  }

  lemma WalkEnd(info: seq<Byte>, off: nat, table: Table)
    requires |info| == CAP && off + 8 < CAP && off % 8 == 0 && Stands(info, off, Le32(0) + Le32(8))
    ensures Walk(info, off + 8, off, table) == Saved(table)
  {
    StandsSplit(info, off, Le32(0), Le32(8));
    Read32At(info, off, 0);
  }

  /** Over a tag that cannot be saved the walk panics. */
  lemma WalkStops(info: seq<Byte>, total: nat, off: nat, table: Table, t: Tag)
    requires |info| == CAP && off < total < CAP && off % 8 == 0
    requires TagOk(t) && Stands(info, off, TagBytes(t)) && (!Supported(t.kind) || t.kind in table)
    ensures Walk(info, total, off, table) == Panic(table)
  {
    TagReadsBack(info, off, t);
  }

  lemma WalkStep(info: seq<Byte>, tags: seq<Tag>, k: nat)
    requires |info| == CAP && k < |tags| && TagsOk(tags) && Savable(tags, k) && Size(tags) < CAP
    requires Stands(info, Offset(tags, k), Body(tags, k))
    ensures Stands(info, Offset(tags, k + 1), Body(tags, k + 1))
    ensures Walk(info, Size(tags), Offset(tags, k), Expected(tags, k)) ==
              if Savable(tags, k + 1) then Walk(info, Size(tags), Offset(tags, k + 1), Expected(tags, k + 1))
              else Panic(Expected(tags, k))
  {
    hide TagsOk, TagOk, Savable, Supported, Stands, Walk, TagBytes, Span, Size, Body, Offset, Expected;
    var off, t := Offset(tags, k), tags[k];
    BodyStep(tags, k);
    StandsSplit(info, off, TagBytes(t), Body(tags, k + 1));
    NextSavable(tags, k);
    TagInside(tags, k);
    ExpectedStep(tags, k);
    if Savable(tags, k + 1) {
      WalkTag(info, Size(tags), off, Expected(tags, k), t);
    } else {
      WalkStops(info, Size(tags), off, Expected(tags, k), t);
    }
  }

  /** The tags up to number `m` are saved, and then the information ends or tag `m` cannot be. */
  ghost predicate SavesUpTo(tags: seq<Tag>, m: nat, r: Result) {
    && m <= |tags| && Savable(tags, m)
    && if m == |tags| then r == Saved(Expected(tags, m)) else !Savable(tags, m + 1) && r == Panic(Expected(tags, m))
  }

  /** From tag `k` on, the walk saves the tags up to the first that cannot be. */
  lemma {:induction false} WalkBody(info: seq<Byte>, tags: seq<Tag>, k: nat) returns (m: nat)
    requires |info| == CAP && k <= |tags| && TagsOk(tags) && Savable(tags, k) && Size(tags) < CAP
    requires Stands(info, Offset(tags, k), Body(tags, k))
    ensures SavesUpTo(tags, m, Walk(info, Size(tags), Offset(tags, k), Expected(tags, k)))
    decreases |tags| - k
  {
    hide TagsOk, Savable, Stands, Walk, Expected;
    if k == |tags| {
      WalkEnd(info, Offset(tags, k), Expected(tags, k));
      m := k;
    } else {
      WalkStep(info, tags, k);
      if Savable(tags, k + 1) {
        m := WalkBody(info, tags, k + 1);
      } else {
        m := k;
      }
    }
  }

  /** Tag `k` stands in the copy where its offset says. */
  lemma {:induction false} TagsThere(info: seq<Byte>, tags: seq<Tag>, j: nat, k: nat)
    requires j <= k < |tags| && TagsOk(tags) && Stands(info, Offset(tags, j), Body(tags, j))
    ensures Stands(info, Offset(tags, k) + 8, tags[k].payload)
    decreases k - j
  {
    var off, t := Offset(tags, j), tags[j];
    assert TagOk(t);
    StandsSplit(info, off, TagBytes(t), Body(tags, j + 1));
    if j == k {
      TagReadsBack(info, off, t);
    } else {
      TagsThere(info, tags, j + 1, k);
    }
  }

  lemma LayoutParts(info: seq<Byte>, tags: seq<Tag>)
    requires TagsOk(tags) && Size(tags) < WORD32 && Stands(info, 0, Layout(tags))
    ensures 8 <= |info| && Read32(info, 0) == Size(tags) && Read32(info, 4) == 0 && Stands(info, 8, Body(tags, 0))
    ensures Size(tags) <= |info|
  {
    StandsSplit(info, 0, Le32(Size(tags)) + Le32(0), Body(tags, 0));
    StandsSplit(info, 0, Le32(Size(tags)), Le32(0));
    Read32At(info, 0, Size(tags));
    Read32At(info, 4, 0);
    BodyLength(tags, 0);
  }

  lemma Copied(boot: seq<Byte>, info: seq<Byte>, n: nat, off: nat, s: seq<Byte>)
    requires n <= |boot| && n <= |info| && info[..n] == boot[..n] && off + |s| <= n && Stands(boot, off, s)
    ensures Stands(info, off, s)
  {
    forall i | 0 <= i < |s| ensures StandsAt(info, off, s, i) {
      assert StandsAt(boot, off, s, i);
      assert info[..n][off + i] == boot[..n][off + i];
    }
  }

  /** The first tag is at offset 8 and finds no slot taken. */
  lemma FirstTag(tags: seq<Tag>, k: nat)
    requires k == 0
    ensures Offset(tags, k) == 8 && Expected(tags, k) == map[]
  {
  }

  /** A boot information of tags of any types starts at `boot`. */
  ghost predicate LaidOut(boot: seq<Byte>, tags: seq<Tag>) {
    TagsOk(tags) && Size(tags) < CAP && Stands(boot, 0, Layout(tags))
  }

  /** `info` is a copy of it. */
  ghost predicate IsCopy(boot: seq<Byte>, info: seq<Byte>, tags: seq<Tag>) {
    && LaidOut(boot, tags)
    && |info| == CAP && Size(tags) <= |boot| && info[..Size(tags)] == boot[..Size(tags)]
  }

  lemma CopyHasTags(boot: seq<Byte>, info: seq<Byte>, tags: seq<Tag>, z: nat)
    requires IsCopy(boot, info, tags) && z == 0
    ensures Stands(info, Offset(tags, z), Body(tags, z))
  {
    LayoutParts(boot, tags);
    BodyLength(tags, z);
    FirstTag(tags, z);
    Copied(boot, info, Size(tags), 8, Body(tags, z));
  }

  /** A boot information is saved exactly if its tags are of the known types and all different, and then in
      full. Otherwise the walk panics at the first tag that is not, with those before it saved. */
  lemma LayoutSaved(boot: seq<Byte>, info: seq<Byte>, tags: seq<Tag>)
    requires IsCopy(boot, info, tags)
    ensures var r := Walk(info, Size(tags), 8, map[]);
            && (r.Saved? <==> Savable(tags, |tags|))
            && (r.Saved? ==> r.table == Expected(tags, |tags|))
            && exists m :: SavesUpTo(tags, m, r)
  {
    var z := 0;
    CopyHasTags(boot, info, tags, z);
    FirstTag(tags, z);
    var m := WalkBody(info, tags, z);
    assert SavesUpTo(tags, m, Walk(info, Size(tags), 8, map[]));
  }

  /** A single tag is saved exactly if it is of one of the eleven types. */
  lemma OneTagSaved(boot: seq<Byte>, info: seq<Byte>, t: Tag)
    requires IsCopy(boot, info, [t])
    ensures Walk(info, Size([t]), 8, map[]).Saved? <==> t.kind in {1, 2, 4, 5, 6, 7, 8, 9, 10, 14, 15}
  {
    LayoutSaved(boot, info, [t]);
    assert [t][0] == t;
  }

  /** The bound of eleven is reached: a tag of each type fills a slot each. */
  lemma ElevenSaved(boot: seq<Byte>, info: seq<Byte>, tags: seq<Tag>)
    requires IsCopy(boot, info, tags) && |tags| == 11
    requires forall k :: 0 <= k < 11 ==> tags[k].kind == [1, 2, 4, 5, 6, 7, 8, 9, 10, 14, 15][k]
    ensures Walk(info, Size(tags), 8, map[]).Saved? && |Walk(info, Size(tags), 8, map[]).table.Keys| == 11
  {
    assert Savable(tags, 11);
    LayoutSaved(boot, info, tags);
    ExpectedCount(tags, 11);
  }

  /** The slot of each tag says where its payload stands in the copy, and how long it is. */
  lemma PayloadSaved(boot: seq<Byte>, info: seq<Byte>, tags: seq<Tag>, k: nat)
    requires IsCopy(boot, info, tags) && Savable(tags, |tags|) && k < |tags|
    ensures var table := Expected(tags, |tags|);
            && tags[k].kind in table
            && table[tags[k].kind].len == |tags[k].payload| && Stands(info, table[tags[k].kind].start, tags[k].payload)
  {
    var z := 0;
    CopyHasTags(boot, info, tags, z);
    TagsThere(info, tags, z, k);
    ExpectedSlots(tags, |tags|, k);
  }

  // ---------------------------------------------------------------------------------------------
  // The kernel's copy
  // ---------------------------------------------------------------------------------------------

  /** `multi_boot_info_t`, at address `base`. */
  class BootInfo {
    const base: nat
    const info: array<Byte>
    var totalSize: nat
    const ptrs: array<nat>
    const lens: array<nat>

    ghost predicate Valid() {
      && 0 < base && base % 8 == 0 && base + 0x2_0000_0000 < WORD
      && info.Length == CAP && ptrs.Length == SLOTS && lens.Length == SLOTS && ptrs != lens
    }

    constructor (base: nat)
      requires 0 < base && base % 8 == 0 && base + 0x2_0000_0000 < WORD
      ensures Valid() && this.base == base && fresh(info) && fresh(ptrs) && fresh(lens)
    {
      this.base := base;
      info := new Byte[CAP];
      ptrs := new nat[SLOTS];
      lens := new nat[SLOTS];
      totalSize := 0;
    }

    ghost predicate SlotIs(table: Table, k: nat)
      reads ptrs, lens
      requires Valid() && k < SLOTS
    {
      if k in table then ptrs[k] == base + table[k].start && lens[k] == table[k].len
      else ptrs[k] == 0 && lens[k] == 0
    }

    /** The slots say what the table says. */
    ghost predicate Holds(table: Table)
      reads ptrs, lens
      requires Valid()
    {
      forall k {:trigger SlotIs(table, k)} :: 0 <= k < SLOTS ==> SlotIs(table, k)
    }

    /** `mm_copy` into the copy. */
    method Copy(boot: seq<Byte>, n: nat)
      requires Valid() && n <= |boot| && n <= CAP
      modifies info
      ensures info[..n] == boot[..n]
    {
      var i := 0;
      while i < n
        invariant 0 <= i <= n
        invariant info[..i] == boot[..i]
      {
        info[i] := boot[i];
        i := i + 1;
      }
    }

    method ClearSlots()
      requires Valid()
      modifies ptrs, lens
      ensures Holds(map[])
    {
      var i := 0;
      while i < SLOTS
        invariant 0 <= i <= SLOTS
        invariant forall k :: 0 <= k < i ==> ptrs[k] == 0 && lens[k] == 0
      {
        ptrs[i], lens[i] := 0, 0;
        i := i + 1;
      }
    }

    /** `_multi_boot_info_process_tag_header`: its alignment assertion holds, and it reads inside the
        copy. */
    method ProcessTagHeader(ptr: nat) returns (next: nat, kind: nat, size: nat)
      requires Valid() && base <= ptr < base + CAP && ptr % 8 == 0
      ensures next == ptr + 8 && ptr - base + 8 <= CAP
      ensures kind == Read32(info[..], ptr - base) && size == Read32(info[..], ptr - base + 4)
    {
      Within(ptr);
      kind := Fetch(ptr - base);
      size := Fetch(ptr - base + 4);
      next := ptr + 8;
    }

    lemma Within(ptr: nat)
      requires Valid() && base <= ptr < base + CAP && ptr % 8 == 0
      ensures ptr - base + 8 <= CAP
    {
    }

    method Fetch(i: nat) returns (x: nat)
      requires Valid() && i + 4 <= CAP
      ensures x == Read32(info[..], i)
    {
      var a: nat, b: nat, c: nat, d: nat := info[i], info[i + 1], info[i + 2], info[i + 3];
      x := a + 0x100 * b + 0x1_0000 * c + 0x100_0000 * d;
    }

    /** `_multi_boot_info_save_tag`: a panic for a type it does not know or has saved already. */
    method SaveTag(ptr: nat, kind: nat, size: nat, ghost table: Table) returns (ok: bool, next: nat)
      requires Valid() && Holds(table) && ptr >= base + 8 && size < WORD32
      requires forall k :: k in table ==> table[k].start > 0
      modifies ptrs, lens
      ensures ok <==> Supported(kind) && kind !in table
      ensures ok ==> next == ptr + size - 8 && Holds(table[kind := Slot(ptr - base, Len32(size))])
      ensures !ok ==> Holds(table)
    {
      if !Supported(kind) {
        return false, 0;
      }
      assert SlotIs(table, kind);
      if ptrs[kind] != 0 || lens[kind] != 0 {
        return false, 0;
      }
      var len := (size - 8) % WORD32;
      ghost var now := table[kind := Slot(ptr - base, Len32(size))];
      ghost var p, l := ptrs[..], lens[..];
      lens[kind] := len;
      ptrs[kind] := ptr;
      forall k | 0 <= k < SLOTS ensures SlotIs(now, k) {
        assert old(SlotIs(table, k));
        assert k != kind ==> ptrs[k] == p[k] && lens[k] == l[k];
      }
      return true, ptr + size - 8;
    }

    /** `mm_align_up` to 8 of an address in or behind the copy. */
    method AlignUp8(ptr: nat) returns (r: nat)
      requires Valid() && base <= ptr < base + 0x1_8000_0000
      ensures r == base + Up8(ptr - base) && r % 8 == 0
    {
      assert Pow2(3) == 8;
      assert IsPow2(8);
      AlignUpIsLeast(ptr, 8);
      r := AlignUp(ptr, 8);
      Up8Least(ptr, r);
    }

    lemma Up8Least(ptr: nat, r: nat)
      requires Valid() && base <= ptr <= r < ptr + 8 && r % 8 == 0
      ensures r == base + Up8(ptr - base)
    {
      var b, n := base / 8, ptr - base;
      assert base == 8 * b;
    }

    /** `_multi_boot_info_save`. Whatever the bytes are, it reads inside the copy only, panics exactly
        when the walk does, and has filled the slots the walk has, panic or not. What is laid out as a boot
        information it saves exactly if the types are known and all different, and then in full. */
    method Save(boot: seq<Byte>) returns (ok: bool)
      requires Valid() && 8 <= |boot| && Read32(boot, 0) <= |boot|
      modifies this`totalSize, info, ptrs, lens
      ensures ok <==>
        && Read32(boot, 0) < CAP && Read32(boot, 4) == 0
        && Walk(info[..], Read32(boot, 0), 8, map[]).Saved?
      ensures Read32(boot, 0) < CAP && Read32(boot, 4) == 0 ==> info[..Read32(boot, 0)] == boot[..Read32(boot, 0)]
      ensures totalSize == Read32(boot, 0)
      ensures totalSize < CAP && Read32(boot, 4) == 0 ==> Holds(Walk(info[..], totalSize, 8, map[]).table)
      ensures forall tags :: LaidOut(boot, tags) ==>
                (ok <==> Savable(tags, |tags|)) && (ok ==> Holds(Expected(tags, |tags|)))
    {
      totalSize := Read32(boot, 0);
      var reserved := Read32(boot, 4);
      forall tags | LaidOut(boot, tags) ensures totalSize == Size(tags) < CAP && reserved == 0 {
        LayoutParts(boot, tags);
      }
      if totalSize >= CAP || reserved != 0 {
        return false;
      }
      Copy(boot, totalSize);
      ClearSlots();
      ok := WalkTags();
      forall tags | LaidOut(boot, tags)
        ensures (ok <==> Savable(tags, |tags|)) && (ok ==> Holds(Expected(tags, |tags|)))
      {
        LayoutSaved(boot, info[..], tags);
      }
    }

    /** Its loop. */
    method WalkTags() returns (ok: bool)
      requires Valid() && totalSize < CAP && Holds(map[])
      modifies ptrs, lens
      ensures ok <==> Walk(info[..], totalSize, 8, map[]).Saved?
      ensures Holds(Walk(info[..], totalSize, 8, map[]).table)
    {
      hide BootInfo.Holds, Supported, Walk, Read32, FillsSlot, BytesLeft;
      var ptr := base + 8;
      ghost var bytes, table: Table := info[..], map[];
      ghost var result := Walk(bytes, totalSize, 8, table);
      while ptr - base < totalSize
        invariant base + 8 <= ptr < base + 0x1_8000_0000 && ptr % 8 == 0 && info[..] == bytes
        invariant Holds(table) && forall k :: k in table ==> table[k].start > 0
        invariant Walk(bytes, totalSize, ptr - base, table) == result
        decreases BytesLeft(totalSize, ptr - base), FillsSlot(bytes, ptr - base, table)
      {
        WalkOnce(bytes, totalSize, ptr - base, table);
        var next, kind, size := ProcessTagHeader(ptr);
        if kind == 0 {
          ptr := next;
          break;
        }
        var saved;
        saved, next := SaveTag(next, kind, size, table);
        if !saved {
          return false;
        }
        table := table[kind := Slot(ptr + 8 - base, Len32(size))];
        ptr := AlignUp8(next);
      }
      if ptr - base >= totalSize {
        WalkOver(bytes, totalSize, ptr - base, table);
      }
      ok := ptr - base == totalSize;
    }
  }
}
