/**
  Circular doubly linked lists stored as arrays of successor indices: the
  shape every list in src/dancinglinks.js has (the header ring, each column,
  each row). A ring is described by its head and the list of the other
  nodes met when following one direction of links.
*/
module Rings {
  import opened Seqs

  function Reverse<T>(xs: seq<T>): (r: seq<T>)
    ensures |r| == |xs|
    ensures forall i :: 0 <= i < |xs| ==> r[i] == xs[|xs| - 1 - i]
  {
    seq(|xs|, i requires 0 <= i < |xs| => xs[|xs| - 1 - i])
  }

  lemma ReverseMembers<T>(xs: seq<T>)
    ensures forall x :: x in Reverse(xs) <==> x in xs
  {
    var r := Reverse(xs);
    forall x | x in xs ensures x in r {
      var i :| 0 <= i < |xs| && xs[i] == x;
      assert r[|xs| - 1 - i] == x;
    }
  }

  /** Every link of `next` points inside the array. */
  predicate Closed(next: seq<nat>)
  {
    forall i :: 0 <= i < |next| ==> next[i] < |next|
  }

  /**
    Following `next` from the head `h` meets the nodes of `xs` in order and
    comes back to `h`; the nodes are distinct and differ from the head.
  */
  predicate Ring(next: seq<nat>, h: nat, xs: seq<nat>)
  {
    && h < |next|
    && (forall i :: 0 <= i < |xs| ==> xs[i] < |next| && xs[i] != h)
    && NoDup(xs)
    && next[h] == (if xs == [] then h else xs[0])
    && (forall i :: 0 <= i < |xs| ==> next[xs[i]] == if i + 1 < |xs| then xs[i + 1] else h)
  }

  /** The link out of the node at position `i`. */
  lemma RingNext(next: seq<nat>, h: nat, xs: seq<nat>, i: nat)
    requires Ring(next, h, xs) && i < |xs|
    ensures next[xs[i]] == if i + 1 < |xs| then xs[i + 1] else h
  {
  }

  /** A ring only depends on the links of its own nodes. */
  lemma RingFrame(next: seq<nat>, next': seq<nat>, h: nat, xs: seq<nat>)
    requires Ring(next, h, xs)
    requires |next'| == |next|
    requires next'[h] == next[h]
    requires forall i :: 0 <= i < |xs| ==> next'[xs[i]] == next[xs[i]]
    ensures Ring(next', h, xs)
  {
  }

  /** The nodes met walking `next` from `cur` until `stop` (the loops of the source), at most `fuel` of them. */
  function Walk(next: seq<nat>, stop: nat, cur: nat, fuel: nat): (r: seq<nat>)
    requires Closed(next) && cur < |next|
    ensures |r| <= fuel
    decreases fuel
  {
    if fuel == 0 || cur == stop then []
    else [cur] + Walk(next, stop, next[cur], fuel - 1)
  }

  lemma {:induction false} WalkFrom(next: seq<nat>, h: nat, xs: seq<nat>, i: nat, fuel: nat)
    requires Closed(next) && Ring(next, h, xs)
    requires i < |xs| && fuel >= |xs| - i
    ensures Walk(next, h, xs[i], fuel) == xs[i..]
    decreases |xs| - i
  {
    if i + 1 < |xs| {
      WalkFrom(next, h, xs, i + 1, fuel - 1);
      assert xs[i..] == [xs[i]] + xs[i + 1..];
    } else {
      RingNext(next, h, xs, i);
      assert xs[i..] == [xs[i]];
    }
  }

  /** Walking a ring from the node after its head lists exactly the ring's nodes, in order. */
  lemma RingWalk(next: seq<nat>, h: nat, xs: seq<nat>, fuel: nat)
    requires Closed(next) && Ring(next, h, xs) && fuel >= |xs|
    ensures Walk(next, h, next[h], fuel) == xs
  {
    if xs != [] {
      WalkFrom(next, h, xs, 0, fuel);
    }
  }

  /** The numbers below `n`. */
  function Below(n: nat): (r: set<nat>)
    ensures |r| == n
    ensures forall i: nat :: i in r <==> i < n
  {
    if n == 0 then {} else Below(n - 1) + {n - 1}
  }

  /** A ring holds fewer nodes than the array. */
  lemma RingLength(next: seq<nat>, h: nat, xs: seq<nat>)
    requires Ring(next, h, xs)
    ensures |xs| < |next|
  {
    var all := [h] + xs;
    assert NoDup(all);
    NoDupCard(all);
    assert ToSet(all) <= Below(|next|);
    SubsetCardLe(ToSet(all), Below(|next|));
  }

  lemma SubsetCardLe<T>(a: set<T>, b: set<T>)
    requires a <= b
    ensures |a| <= |b|
  {
    assert |b - a| == |b| - |a|;
  }

  /** The positions of a list with position `i` dropped. */
  lemma DropAt<T>(xs: seq<T>, i: nat)
    requires i < |xs|
    ensures |xs[..i] + xs[i + 1..]| == |xs| - 1
    ensures forall k :: 0 <= k < |xs| - 1 ==> (xs[..i] + xs[i + 1..])[k] == if k < i then xs[k] else xs[k + 1]
  {
  }

  /** Dropping a position keeps the rest distinct. */
  lemma NoDupDrop<T>(xs: seq<T>, i: nat)
    requires NoDup(xs) && i < |xs|
    ensures NoDup(xs[..i] + xs[i + 1..])
  {
    var ys := xs[..i] + xs[i + 1..];
    DropAt(xs, i);
    forall a, b | 0 <= a < b < |ys| ensures ys[a] != ys[b] {
      var a' := if a < i then a else a + 1;
      var b' := if b < i then b else b + 1;
      assert ys[a] == xs[a'] && ys[b] == xs[b'];
    }
  }

  /** After the removal, the link out of the node at position `k` of the shorter list. */
  lemma RemoveStep(next: seq<nat>, h: nat, xs: seq<nat>, i: nat, k: nat)
    requires Ring(next, h, xs) && i < |xs| && k < |xs| - 1
    ensures var prev := if i == 0 then h else xs[i - 1];
      var ys := xs[..i] + xs[i + 1..];
      ys[k] < |next| && ys[k] != h
      && next[prev := next[xs[i]]][ys[k]] == if k + 1 < |ys| then ys[k + 1] else h
  {
    var prev := if i == 0 then h else xs[i - 1];
    var ys := xs[..i] + xs[i + 1..];
    DropAt(xs, i);
    if k + 1 == i {
      assert ys[k] == prev;
      RingNext(next, h, xs, i);
      if k + 1 < |ys| { assert ys[k + 1] == xs[i + 1]; }
    } else if k < i {
      assert ys[k] == xs[k] && ys[k + 1] == xs[k + 1];
      assert xs[k] != prev;
      RingNext(next, h, xs, k);
    } else {
      assert ys[k] == xs[k + 1] && xs[k + 1] != prev;
      RingNext(next, h, xs, k + 1);
      if k + 1 < |ys| { assert ys[k + 1] == xs[k + 2]; }
    }
  }

  /** Removing the node at position `i`: its predecessor now links to its successor. */
  lemma RingRemove(next: seq<nat>, h: nat, xs: seq<nat>, i: nat)
    requires Ring(next, h, xs) && i < |xs|
    ensures var prev := if i == 0 then h else xs[i - 1];
      Ring(next[prev := next[xs[i]]], h, xs[..i] + xs[i + 1..])
  {
    var prev := if i == 0 then h else xs[i - 1];
    var ys := xs[..i] + xs[i + 1..];
    var next' := next[prev := next[xs[i]]];
    DropAt(xs, i);
    forall k | 0 <= k < |ys| ensures ys[k] < |next'| && ys[k] != h
      && next'[ys[k]] == if k + 1 < |ys| then ys[k + 1] else h
    {
      RemoveStep(next, h, xs, i, k);
    }
    if i == 0 {
      RingNext(next, h, xs, 0);
      if ys != [] { assert ys[0] == xs[1]; }
    } else {
      assert ys[0] == xs[0] && prev != h;
    }
    NoDupDrop(xs, i);
    assert Ring(next', h, ys);
  }

  /** Appending a fresh node `x` after the last node (insertion just above the head). */
  lemma RingAppend(next: seq<nat>, h: nat, xs: seq<nat>, x: nat)
    requires Ring(next, h, xs) && x < |next| && x != h && x !in xs
    ensures var last := if xs == [] then h else xs[|xs| - 1];
      Ring(next[x := h][last := x], h, xs + [x])
  {
    var last := if xs == [] then h else xs[|xs| - 1];
    var ys := xs + [x];
    var next' := next[x := h][last := x];
    forall k | 0 <= k < |ys| ensures next'[ys[k]] == if k + 1 < |ys| then ys[k + 1] else h {
      if k < |xs| {
        assert ys[k] == xs[k];
        if k + 1 < |xs| { assert xs[k] != last; }
      }
    }
  }

  /** Prepending a fresh node `x` just after the head. */
  lemma RingPrepend(next: seq<nat>, h: nat, xs: seq<nat>, x: nat)
    requires Ring(next, h, xs) && x < |next| && x != h && x !in xs
    ensures Ring(next[x := next[h]][h := x], h, [x] + xs)
  {
    var ys := [x] + xs;
    var next' := next[x := next[h]][h := x];
    assert NoDup(ys) by {
      forall a, b | 0 <= a < b < |ys| ensures ys[a] != ys[b] {
        assert ys[b] == xs[b - 1];
        if a > 0 { assert ys[a] == xs[a - 1]; } else { assert xs[b - 1] in xs; }
      }
    }
    assert next'[h] == ys[0];
    forall k | 0 <= k < |ys| ensures ys[k] < |next'| && ys[k] != h
      && next'[ys[k]] == if k + 1 < |ys| then ys[k + 1] else h
    {
      if k == 0 {
        assert ys[0] == x && next'[x] == next[h];
        if xs != [] { assert ys[1] == xs[0]; }
      } else {
        PrependStep(next, next', h, xs, x, ys, k);
      }
    }
    assert Ring(next', h, ys);
  }

  /** The link out of an old node is untouched by the prepend. */
  lemma PrependStep(next: seq<nat>, next': seq<nat>, h: nat, xs: seq<nat>, x: nat, ys: seq<nat>, k: nat)
    requires Ring(next, h, xs) && x < |next| && x != h && x !in xs
    requires next' == next[x := next[h]][h := x] && ys == [x] + xs && 0 < k < |ys|
    ensures ys[k] < |next'| && ys[k] != h && next'[ys[k]] == if k + 1 < |ys| then ys[k + 1] else h
  {
    assert ys[k] == xs[k - 1] && xs[k - 1] in xs;
    assert xs[k - 1] != x && xs[k - 1] != h;
    RingNext(next, h, xs, k - 1);
    assert next'[xs[k - 1]] == next[xs[k - 1]];
    if k + 1 < |ys| { assert ys[k + 1] == xs[k]; }
  }

  /** Removing position `i` of a list is removing position |xs| - 1 - i of its reverse. */
  lemma ReverseRemove<T>(xs: seq<T>, i: nat)
    requires i < |xs|
    ensures Reverse(xs[..i] + xs[i + 1..])
         == Reverse(xs)[..|xs| - 1 - i] + Reverse(xs)[|xs| - i..]
  {
  }

  lemma ReverseAppend<T>(xs: seq<T>, x: T)
    ensures Reverse(xs + [x]) == [x] + Reverse(xs)
  {
  }

  // ---------------------------------------------------------------------------
  // Doubly linked rings
  // ---------------------------------------------------------------------------

  /** `fwd` runs through the ring in the order of `xs`, `bwd` in the opposite order. */
  predicate DRing(fwd: seq<nat>, bwd: seq<nat>, h: nat, xs: seq<nat>)
  {
    |fwd| == |bwd| && Ring(fwd, h, xs) && Ring(bwd, h, Reverse(xs))
  }

  /** In a doubly linked ring the backward link of a node is its predecessor. */
  lemma DRingNeighbours(fwd: seq<nat>, bwd: seq<nat>, h: nat, xs: seq<nat>, i: nat)
    requires DRing(fwd, bwd, h, xs) && i < |xs|
    ensures bwd[xs[i]] == (if i == 0 then h else xs[i - 1])
    ensures fwd[xs[i]] == (if i + 1 < |xs| then xs[i + 1] else h)
    ensures fwd[bwd[xs[i]]] == xs[i] && bwd[fwd[xs[i]]] == xs[i]
  {
    var rs := Reverse(xs);
    var r := |xs| - 1 - i;
    assert rs[r] == xs[i];
    RingNext(bwd, h, rs, r);
    RingNext(fwd, h, xs, i);
    if i > 0 {
      assert rs[r + 1] == xs[i - 1];
      RingNext(fwd, h, xs, i - 1);
    }
    if i + 1 < |xs| {
      assert rs[r - 1] == xs[i + 1];
      RingNext(bwd, h, rs, r - 1);
    } else {
      assert bwd[h] == rs[0];
    }
  }

  /** Unlinking the node at position `i` from a doubly linked ring. */
  lemma DRingRemove(fwd: seq<nat>, bwd: seq<nat>, h: nat, xs: seq<nat>, i: nat)
    requires DRing(fwd, bwd, h, xs) && i < |xs|
    ensures var prev := if i == 0 then h else xs[i - 1];
      var succ := if i + 1 < |xs| then xs[i + 1] else h;
      DRing(fwd[prev := succ], bwd[succ := prev], h, xs[..i] + xs[i + 1..])
  {
    DRingNeighbours(fwd, bwd, h, xs, i);
    RingRemove(fwd, h, xs, i);
    var rs := Reverse(xs);
    var r := |xs| - 1 - i;
    RingRemove(bwd, h, rs, r);
    ReverseRemove(xs, i);
    assert rs[..r] + rs[r + 1..] == Reverse(xs[..i] + xs[i + 1..]);
    if r > 0 {
      assert rs[r - 1] == xs[i + 1];
    }
  }

  /** Linking a fresh node `x` in just before the head, that is after the last node. */
  lemma DRingAppend(fwd: seq<nat>, bwd: seq<nat>, h: nat, xs: seq<nat>, x: nat)
    requires DRing(fwd, bwd, h, xs) && x < |fwd| && x != h && x !in xs
    ensures var last := if xs == [] then h else xs[|xs| - 1];
      && bwd[h] == last
      && DRing(fwd[x := h][last := x], bwd[x := last][h := x], h, xs + [x])
  {
    var last := if xs == [] then h else xs[|xs| - 1];
    RingAppend(fwd, h, xs, x);
    ReverseMembers(xs);
    var rs := Reverse(xs);
    if xs != [] { assert rs[0] == last; }
    RingPrepend(bwd, h, rs, x);
    ReverseAppend(xs, x);
  }

  /**
    A doubly linked ring given by its links: each node's forward link is
    the next node (the head after the last) and its backward link the
    previous one (the head before the first).
  */
  lemma DRingOfLinks(fwd: seq<nat>, bwd: seq<nat>, h: nat, xs: seq<nat>)
    requires |fwd| == |bwd| && h < |fwd|
    requires forall i :: 0 <= i < |xs| ==> xs[i] < |fwd| && xs[i] != h
    requires NoDup(xs)
    requires fwd[h] == (if xs == [] then h else xs[0])
    requires bwd[h] == (if xs == [] then h else xs[|xs| - 1])
    requires forall i :: 0 <= i < |xs| ==> fwd[xs[i]] == if i + 1 < |xs| then xs[i + 1] else h
    requires forall i {:trigger bwd[xs[i]]} :: 0 <= i < |xs| ==> bwd[xs[i]] == if i == 0 then h else xs[i - 1]
    ensures DRing(fwd, bwd, h, xs)
  {
    var rs := Reverse(xs);
    var m := |xs|;
    forall i, k | 0 <= i < k < m ensures rs[i] != rs[k] {
      assert rs[i] == xs[m - 1 - i] && rs[k] == xs[m - 1 - k];
    }
    forall i | 0 <= i < m ensures rs[i] < |bwd| && rs[i] != h && bwd[rs[i]] == if i + 1 < m then rs[i + 1] else h {
      var t := m - 1 - i;
      assert 0 <= t < |xs| && rs[i] == xs[t];
      assert xs[t] < |fwd| && xs[t] != h;
      if t == 0 {
        assert bwd[xs[t]] == h;
      } else {
        assert bwd[xs[t]] == xs[t - 1];
        assert rs[i + 1] == xs[t - 1];
      }
    }
    if m > 0 { assert rs[0] == xs[m - 1]; }
    assert Ring(bwd, h, rs);
  }

  /**
    The nodes of the block `b` to `e - 1` after `h`, in cyclic order:
    `h + 1` up to `e - 1`, then `b` up to `h - 1`.
  */
  function Rotation(b: nat, e: nat, h: nat): (r: seq<nat>)
    requires b <= h < e
    ensures |r| == e - b - 1
    ensures forall t :: 0 <= t < |r| ==> r[t] == if h + 1 + t < e then h + 1 + t else h + 1 + t - (e - b)
  {
    seq(e - b - 1, t requires 0 <= t < e - b - 1 => if h + 1 + t < e then h + 1 + t else h + 1 + t - (e - b))
  }

  /**
    A block of consecutive nodes, each linked forward to the next and the
    last to the first, and backward the other way, is a doubly linked ring
    seen from any of its nodes.
  */
  lemma BlockRing(fwd: seq<nat>, bwd: seq<nat>, b: nat, e: nat, h: nat)
    requires b <= h < e <= |fwd| && |bwd| == |fwd|
    requires forall x :: b <= x < e ==> fwd[x] == if x + 1 < e then x + 1 else b
    requires forall x :: b <= x < e ==> bwd[x] == if x > b then x - 1 else e - 1
    ensures DRing(fwd, bwd, h, Rotation(b, e, h))
  {
    var xs := Rotation(b, e, h);
    forall t, t' | 0 <= t < t' < |xs| ensures xs[t] != xs[t'] {
    }
    DRingOfLinks(fwd, bwd, h, xs);
  }
}
