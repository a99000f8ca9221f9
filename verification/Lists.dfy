/** Sequences as the lists threaded through memory, and as bytes laid out in it. */
module Lists {

  /** The address of the first element, or of none. */
  function First(xs: seq<nat>): nat {
    if xs == [] then 0 else xs[0]
  }

  // ---------------------------------------------------------------------------------------------
  // No element twice
  // ---------------------------------------------------------------------------------------------

  predicate Clash(xs: seq<nat>, i: nat, j: nat) {
    i < j < |xs| && xs[i] == xs[j]
  }

  ghost predicate NoDup(xs: seq<nat>) {
    forall i, j {:trigger Clash(xs, i, j)} :: !Clash(xs, i, j)
  }

  lemma NoDupTail(xs: seq<nat>)
    requires NoDup(xs) && xs != []
    ensures NoDup(xs[1..]) && xs[0] !in xs[1..] && forall x :: x in xs <==> x == xs[0] || x in xs[1..]
  {
    var ys := xs[1..];
    assert xs == [xs[0]] + ys;
    forall i: nat, j: nat ensures !Clash(ys, i, j) {
      if i < j < |ys| {
        assert !Clash(xs, i + 1, j + 1);
      }
    }
    forall j: nat | j < |ys| ensures ys[j] != xs[0] {
      assert !Clash(xs, 0, j + 1);
    }
  }

  lemma NoDupPush(xs: seq<nat>, x: nat)
    requires NoDup(xs) && x !in xs
    ensures NoDup([x] + xs)
  {
    var ys := [x] + xs;
    forall i: nat, j: nat ensures !Clash(ys, i, j) {
      if 0 < i < j < |ys| {
        assert !Clash(xs, i - 1, j - 1);
      }
    }
  }

  lemma NoDupTwo(x: nat, y: nat)
    requires x != y
    ensures NoDup([x, y])
  {
  }

  ghost function Elements(xs: seq<nat>): set<nat> {
    set x | x in xs
  }

  /** As many elements as places. */
  lemma {:induction false} NoDupCount(xs: seq<nat>)
    requires NoDup(xs)
    ensures |Elements(xs)| == |xs|
  {
    if xs != [] {
      NoDupTail(xs);
      NoDupCount(xs[1..]);
      assert Elements(xs) == {xs[0]} + Elements(xs[1..]);
    }
  }

  lemma NoDupAt(xs: seq<nat>, i: nat, j: nat)
    requires NoDup(xs) && i < |xs| && j < |xs| && xs[i] == xs[j]
    ensures i == j
  {
    assert !Clash(xs, i, j) && !Clash(xs, j, i);
  }

  // ---------------------------------------------------------------------------------------------
  // One sequence inside another
  // ---------------------------------------------------------------------------------------------

  ghost predicate StandsAt<T>(s: seq<T>, i: nat, t: seq<T>, j: nat) {
    i + j < |s| && j < |t| && s[i + j] == t[j]
  }

  /** The elements of `t` stand in `s` from `i` on. */
  ghost predicate Stands<T>(s: seq<T>, i: nat, t: seq<T>) {
    i + |t| <= |s| && forall j {:trigger StandsAt(s, i, t, j)} :: 0 <= j < |t| ==> StandsAt(s, i, t, j)
  }

  lemma StandsHere<T>(s: seq<T>, i: nat, t: seq<T>, j: nat)
    requires Stands(s, i, t) && j < |t|
    ensures i + j < |s| && s[i + j] == t[j]
  {
    assert StandsAt(s, i, t, j);
  }

  lemma StandsSplit<T>(s: seq<T>, i: nat, t: seq<T>, u: seq<T>)
    requires Stands(s, i, t + u)
    ensures Stands(s, i, t) && Stands(s, i + |t|, u)
  {
    forall j | 0 <= j < |t| ensures StandsAt(s, i, t, j) {
      assert StandsAt(s, i, t + u, j);
    }
    var k := i + |t|;
    forall j | 0 <= j < |u| ensures StandsAt(s, k, u, j) {
      assert StandsAt(s, i, t + u, |t| + j);
    }
  }

  /** `orig` with `t` written over it from `off` on. */
  function Written<T>(orig: seq<T>, off: nat, t: seq<T>): seq<T>
    requires off + |t| <= |orig|
  {
    orig[..off] + t + orig[off + |t|..]
  }

  lemma WrittenOn<T>(orig: seq<T>, off: nat, s: seq<T>, t: seq<T>)
    requires off + |s| + |t| <= |orig|
    ensures Written(Written(orig, off, s), off + |s|, t) == Written(orig, off, s + t)
  {
  }
}
