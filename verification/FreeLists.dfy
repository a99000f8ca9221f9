/** The intrusive free lists of the heap: block headers in memory, chained by their `next_free`. */
module FreeLists {
  import opened Dyadic
  import opened Tiling
  import opened Buddies
  import opened Lists

  /** `block_t`. */
  datatype Header = Header(cls: nat, isFree: bool, next: nat, magic: nat)

  const MAGIC := 0xBABE_FACE

  /** A header wiped by `mm_clean`. */
  const WIPED := Header(0, false, 0, 0)

  type Memory = map<nat, Header>

  /** Starting from `head`, the `next` links lead through exactly `xs`. */
  ghost predicate Chain(mem: Memory, head: nat, xs: seq<nat>) {
    && head == First(xs)
    && forall i :: 0 <= i < |xs| ==>
         xs[i] != NONE && xs[i] in mem && mem[xs[i]].next == First(xs[i + 1..])
  }

  ghost predicate Linked(mem: Memory, heads: seq<nat>, lists: seq<seq<nat>>) {
    && |heads| == CLASSES == |lists|
    && forall k {:trigger Chain(mem, heads[k], lists[k])} :: 0 <= k < CLASSES ==> Chain(mem, heads[k], lists[k])
  }

  ghost predicate Unlisted(lists: seq<seq<nat>>, a: int) {
    forall k :: 0 <= k < |lists| ==> a !in lists[k]
  }

  ghost predicate HeaderAgrees(mem: Memory, ts: Tiles, a: nat)
    requires a in ts
  {
    a in mem && mem[a].cls == ts[a].cls && mem[a].isFree == ts[a].free && mem[a].magic == MAGIC
  }

  /** The header of each live block says what the block is. Nothing is said of other memory. */
  ghost predicate HeadersAgree(mem: Memory, ts: Tiles) {
    forall a {:trigger HeaderAgrees(mem, ts, a)} :: a in ts ==> HeaderAgrees(mem, ts, a)
  }

  lemma ChainFrame(mem: Memory, head: nat, xs: seq<nat>, a: nat, h: Header)
    requires Chain(mem, head, xs) && a !in xs
    ensures Chain(mem[a := h], head, xs)
  {
  }

  /** Rewriting a header that keeps its link, or of a block in no list, leaves the lists alone. */
  lemma LinkedFrame(mem: Memory, heads: seq<nat>, lists: seq<seq<nat>>, a: nat, h: Header)
    requires Linked(mem, heads, lists)
    requires Unlisted(lists, a) || (a in mem && h.next == mem[a].next)
    ensures Linked(mem[a := h], heads, lists)
  {
    forall k | 0 <= k < CLASSES ensures Chain(mem[a := h], heads[k], lists[k]) {
      assert Chain(mem, heads[k], lists[k]);
    }
  }

  /** Rewriting a header that is no live block's, or agrees with the block. */
  lemma HeadersFrame(mem: Memory, ts: Tiles, a: nat, h: Header)
    requires HeadersAgree(mem, ts)
    requires a in ts ==> h.cls == ts[a].cls && h.isFree == ts[a].free && h.magic == MAGIC
    ensures HeadersAgree(mem[a := h], ts)
  {
    var m := mem[a := h];
    forall t | t in ts ensures HeaderAgrees(m, ts, t) {
      assert HeaderAgrees(mem, ts, t);
    }
  }

  /** The flag of a block and of its header change together. */
  lemma HeadersMark(mem: Memory, ts: Tiles, a: nat, free: bool)
    requires HeadersAgree(mem, ts) && a in ts && a in mem
    ensures HeadersAgree(mem[a := mem[a].(isFree := free)], ts[a := Tile(ts[a].cls, free)])
  {
    var m, us := mem[a := mem[a].(isFree := free)], ts[a := Tile(ts[a].cls, free)];
    assert HeaderAgrees(mem, ts, a);
    forall t | t in us ensures HeaderAgrees(m, us, t) {
      assert HeaderAgrees(mem, ts, t);
    }
  }

  lemma LinkedPop(mem: Memory, heads: seq<nat>, lists: seq<seq<nat>>, k: nat)
    requires Linked(mem, heads, lists) && k < CLASSES && lists[k] != []
    ensures heads[k] == lists[k][0] && heads[k] in mem
    ensures Linked(mem, heads[k := mem[heads[k]].next], lists[k := lists[k][1..]])
  {
    var xs := lists[k];
    assert Chain(mem, heads[k], xs);
    forall i | 0 <= i < |xs| - 1 ensures mem[xs[1..][i]].next == First(xs[1..][i + 1..]) {
      assert xs[1..][i + 1..] == xs[i + 2..];
    }
    assert Chain(mem, mem[heads[k]].next, xs[1..]);
    forall j | 0 <= j < CLASSES && j != k ensures Chain(mem, heads[j], lists[j]) {
    }
  }

  lemma LinkedPush(mem: Memory, heads: seq<nat>, lists: seq<seq<nat>>, k: nat, a: nat, h: Header)
    requires Linked(mem, heads, lists) && k < CLASSES && a != NONE
    requires Unlisted(lists, a)
    requires h.next == heads[k]
    ensures Linked(mem[a := h], heads[k := a], lists[k := [a] + lists[k]])
  {
    var xs, ys := lists[k], [a] + lists[k];
    LinkedFrame(mem, heads, lists, a, h);
    assert Chain(mem[a := h], heads[k], xs);
    forall i | 0 <= i < |ys| ensures mem[a := h][ys[i]].next == First(ys[i + 1..]) {
      if i == 0 {
        assert ys[1..] == xs;
      } else {
        assert ys[i + 1..] == xs[i..];
      }
    }
    assert Chain(mem[a := h], a, ys);
    forall j | 0 <= j < CLASSES && j != k ensures Chain(mem[a := h], heads[j], lists[j]) {
    }
  }

  lemma {:induction false} RemoveAt(xs: seq<nat>, i: nat)
    requires NoDup(xs) && i < |xs|
    ensures Remove(xs, xs[i]) == xs[..i] + xs[i + 1..]
  {
    if i > 0 {
      NoDupTail(xs);
      RemoveAt(xs[1..], i - 1);
      assert xs[..i] == [xs[0]] + xs[1..][..i - 1];
      assert xs[1..][i..] == xs[i + 1..];
    }
  }

  /** Unlinking the block at position `i > 0` of list `k` through its predecessor. */
  lemma LinkedUnlink(mem: Memory, heads: seq<nat>, lists: seq<seq<nat>>, k: nat, i: nat)
    requires Linked(mem, heads, lists) && k < CLASSES && 0 < i < |lists[k]|
    requires forall j, a :: 0 <= j < CLASSES && j != k && a in lists[j] ==> a !in lists[k]
    requires NoDup(lists[k])
    ensures lists[k][i - 1] in mem && lists[k][i] in mem
    ensures var p, x := lists[k][i - 1], lists[k][i];
            Linked(mem[p := mem[p].(next := mem[x].next)], heads, lists[k := Remove(lists[k], x)])
  {
    var xs := lists[k];
    var p, x := xs[i - 1], xs[i];
    assert Chain(mem, heads[k], xs);
    var ys := xs[..i] + xs[i + 1..];
    RemoveAt(xs, i);
    var m := mem[p := mem[p].(next := mem[x].next)];
    forall l: nat | l < |xs| && l != i - 1 ensures xs[l] != p {
      assert !Clash(xs, l, i - 1) && !Clash(xs, i - 1, l);
    }
    forall n | 0 <= n < |ys| ensures ys[n] in mem && m[ys[n]].next == First(ys[n + 1..]) && ys[n] != NONE {
      if n < i - 1 {
        assert ys[n] == xs[n] && ys[n + 1] == xs[n + 1] && mem[xs[n]].next == First(xs[n + 1..]);
      } else if n == i - 1 {
        assert ys[n + 1..] == xs[i + 1..];
      } else {
        assert ys[n] == xs[n + 1] && ys[n + 1..] == xs[n + 2..];
      }
    }
    assert Chain(m, heads[k], ys);
    forall j | 0 <= j < CLASSES && j != k ensures Chain(m, heads[j], lists[j]) {
      assert Chain(mem, heads[j], lists[j]);
      assert p in lists[k];
      ChainFrame(mem, heads[j], lists[j], p, m[p]);
    }
  }
}
