/** The lists of physical ranges of src/mem/mem_frame.c. */
module PaLists {
  import opened Words
  import opened PageWords

  /** `n` frames from `pa` on. */
  datatype Range = Range(pa: nat, n: nat)

  function FrameAt(r: Range, j: nat): nat {
    r.pa + PAGE * j
  }

  /** The first `n` frames of a range. */
  function Run(r: Range, n: nat): (fs: seq<nat>)
    ensures |fs| == n
    ensures forall j :: 0 <= j < n ==> fs[j] == FrameAt(r, j)
  {
    if n == 0 then [] else Run(r, n - 1) + [FrameAt(r, n - 1)]
  }

  /** The pages of the first `k` ranges. */
  function Total(rs: seq<Range>, k: nat): nat
    requires k <= |rs|
  {
    if k == 0 then 0 else Total(rs, k - 1) + rs[k - 1].n
  }

  /** The frames of the first `k` ranges, one after the other. */
  function Flatten(rs: seq<Range>, k: nat): (fs: seq<nat>)
    requires k <= |rs|
    ensures |fs| == Total(rs, k)
  {
    if k == 0 then [] else Flatten(rs, k - 1) + Run(rs[k - 1], rs[k - 1].n)
  }

  lemma {:induction false} TotalGrows(rs: seq<Range>, k: nat, m: nat)
    requires k <= m <= |rs|
    ensures Total(rs, k) <= Total(rs, m)
  {
    if k < m {
      TotalGrows(rs, k, m - 1);
    }
  }

  /** Page `j` of range `k` is where the two running counts say. */
  lemma {:induction false} FlattenAt(rs: seq<Range>, k: nat, j: nat, m: nat)
    requires k < m <= |rs| && j < rs[k].n
    ensures Total(rs, k) + j < Total(rs, m)
    ensures Flatten(rs, m)[Total(rs, k) + j] == FrameAt(rs[k], j)
  {
    TotalGrows(rs, k + 1, m);
    if k + 1 < m {
      FlattenAt(rs, k, j, m - 1);
    }
  }

  /** Page `i` of the whole is page `j` of range `k`, or just past its end. */
  ghost predicate Cursor(rs: seq<Range>, k: nat, j: nat, i: nat) {
    k <= |rs| && i == Total(rs, k) + j && if k < |rs| then j <= rs[k].n else j == 0
  }

  lemma CursorNext(rs: seq<Range>, k: nat, j: nat, i: nat)
    requires Cursor(rs, k, j, i) && i < Total(rs, |rs|)
    ensures k < |rs|
    ensures j < rs[k].n ==> Cursor(rs, k, j + 1, i + 1)
    ensures j >= rs[k].n ==> Cursor(rs, k + 1, 0, i)
  {
  }

  lemma FrameOf(r: Range, j: nat)
    requires FramesOk(r) && j < r.n
    ensures FrameAt(r, j) % PAGE == 0 && FrameAt(r, j) < PHYS
  {
    ModIs(FrameAt(r, j), PAGE, r.pa / PAGE + j, 0);
  }

  lemma CursorFrame(rs: seq<Range>, k: nat, j: nat, i: nat)
    requires Cursor(rs, k, j, i) && k < |rs| && j < rs[k].n
    ensures i < Total(rs, |rs|) && Flatten(rs, |rs|)[i] == FrameAt(rs[k], j)
  {
    FlattenAt(rs, k, j, |rs|);
  }

  lemma OneRange(rs: seq<Range>)
    requires |rs| == 1
    ensures Flatten(rs, |rs|) == Run(rs[0], rs[0].n)
  {
    assert Flatten(rs, 0) == [];
    assert [] + Run(rs[0], rs[0].n) == Run(rs[0], rs[0].n);
  }

  predicate FramesOk(r: Range) {
    r.pa % PAGE == 0 && r.pa + PAGE * r.n <= PHYS
  }

  class PaList {
    const pa: array<nat>
    const nPg: array<nat>

    ghost predicate Valid() {
      pa.Length == nPg.Length > 0 && pa != nPg
    }

    ghost function RangesTo(n: nat): (rs: seq<Range>)
      reads pa, nPg
      requires Valid() && n <= pa.Length
      ensures |rs| == n
      ensures forall i :: 0 <= i < n ==> rs[i] == Range(pa[i], nPg[i])
    {
      if n == 0 then [] else RangesTo(n - 1) + [Range(pa[n - 1], nPg[n - 1])]
    }

    ghost function Ranges(): (rs: seq<Range>)
      reads pa, nPg
      requires Valid()
      ensures |rs| == pa.Length
      ensures forall i :: 0 <= i < |rs| ==> rs[i] == Range(pa[i], nPg[i])
    {
      RangesTo(pa.Length)
    }

    /** The frames of the list, range after range. */
    ghost function Frames(): seq<nat>
      reads pa, nPg
      requires Valid()
    {
      Flatten(Ranges(), |Ranges()|)
    }

    /** `pa_list_new_bootstrap` */
    constructor (n: nat)
      requires n > 0
      ensures Valid() && pa.Length == n && fresh(pa) && fresh(nPg)
    {
      pa := new nat[n];
      nPg := new nat[n];
    }

    /** `pa_list_set_range` */
    method SetRange(range: nat, start: nat, n: nat)
      requires Valid() && range < pa.Length && start % PAGE == 0
      modifies pa, nPg
      ensures Ranges() == old(Ranges())[range := Range(start, n)]
    {
      pa[range] := start;
      nPg[range] := n;
    }

    /** `pa_list_n_page`, a sum of machine words. */
    method NPage() returns (n: nat)
      requires Valid()
      ensures n == Total(Ranges(), pa.Length) % WORD
    {
      n := 0;
      var i := 0;
      ghost var rs := Ranges();
      while i < pa.Length
        invariant 0 <= i <= pa.Length && n == Total(rs, i) % WORD
      {
        n := Add(n, nPg[i]);
        i := i + 1;
      }
    }
  }
}
