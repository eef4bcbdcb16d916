/**
  The node store of src/dancinglinks.js. Every node is an index into one
  arena; its four links, its column, its option and (for columns) its row
  count are entries of parallel sequences. Node 0 is the root column
  `columns`, whose row count the cover loop decrements (`column.header`).
  The splice operations below replay the source's assignments one by one,
  in the order the source performs them.
*/
module Links {
  import opened Rings

  datatype Arena = Arena(
    left: seq<nat>, right: seq<nat>, up: seq<nat>, down: seq<nat>,
    col: seq<nat>, opt: seq<nat>, count: seq<int>)

  /** The root column; every column's `header`. */
  const Root: nat := 0

  /** All sequences have one entry per node, and every link and column reference is a node. */
  predicate Valid(a: Arena)
  {
    && 0 < |a.left|
    && |a.right| == |a.left| && |a.up| == |a.left| && |a.down| == |a.left|
    && |a.col| == |a.left| && |a.opt| == |a.left| && |a.count| == |a.left|
    && Closed(a.left) && Closed(a.right) && Closed(a.up) && Closed(a.down) && Closed(a.col)
  }

  function Size(a: Arena): nat
  {
    |a.left|
  }

  /** Adds `delta` to the row count of `x`'s column. */
  function Bump(a: Arena, x: nat, delta: int): (r: Arena)
    requires Valid(a) && x < Size(a)
    ensures Valid(r) && Size(r) == Size(a)
    ensures r.left == a.left && r.right == a.right && r.up == a.up && r.down == a.down
    ensures r.col == a.col && r.opt == a.opt
  {
    a.(count := a.count[a.col[x] := a.count[a.col[x]] + delta])
  }

  /** insertBelow(up): node `x` goes just below `u`, joins `u`'s column and raises its row count. */
  function InsertBelow(a: Arena, x: nat, u: nat): (r: Arena)
    requires Valid(a) && x < Size(a) && u < Size(a)
    ensures Valid(r) && Size(r) == Size(a)
  {
    var a1 := a.(up := a.up[x := u]);
    var a2 := a1.(down := a1.down[x := a1.down[u]]);
    var below := a2.down[u];
    var a3 := a2.(down := a2.down[u := x]);
    var a4 := a3.(up := a3.up[below := x]);
    var a5 := a4.(col := a4.col[x := a4.col[u]]);
    Bump(a5, x, 1)
  }

  /** removeVertically: the neighbours above and below `x` are linked to each other. */
  function RemoveV(a: Arena, x: nat): (r: Arena)
    requires Valid(a) && x < Size(a)
    ensures Valid(r) && Size(r) == Size(a)
    ensures r.left == a.left && r.right == a.right && r.col == a.col && r.opt == a.opt
  {
    var a1 := a.(down := a.down[a.up[x] := a.down[x]]);
    var a2 := a1.(up := a1.up[a1.down[x] := a1.up[x]]);
    Bump(a2, x, -1)
  }

  /** reinsertVertically: the neighbours `x` still points to point back at `x`. */
  function ReinsertV(a: Arena, x: nat): (r: Arena)
    requires Valid(a) && x < Size(a)
    ensures Valid(r) && Size(r) == Size(a)
    ensures r.left == a.left && r.right == a.right && r.col == a.col && r.opt == a.opt
  {
    var above := a.up[x];
    var a1 := a.(up := a.up[a.down[x] := x]);
    var a2 := a1.(down := a1.down[above := x]);
    Bump(a2, x, 1)
  }

  /** removeHorizontally: the neighbours left and right of `x` are linked to each other. */
  function RemoveH(a: Arena, x: nat): (r: Arena)
    requires Valid(a) && x < Size(a)
    ensures Valid(r) && Size(r) == Size(a)
    ensures r.up == a.up && r.down == a.down && r.col == a.col && r.opt == a.opt && r.count == a.count
  {
    var a1 := a.(right := a.right[a.left[x] := a.right[x]]);
    a1.(left := a1.left[a1.right[x] := a1.left[x]])
  }

  /** reinsertHorizontally: the neighbours `x` still points to point back at `x`. */
  function ReinsertH(a: Arena, x: nat): (r: Arena)
    requires Valid(a) && x < Size(a)
    ensures Valid(r) && Size(r) == Size(a)
    ensures r.up == a.up && r.down == a.down && r.col == a.col && r.opt == a.opt && r.count == a.count
  {
    var before := a.left[x];
    var a1 := a.(left := a.left[a.right[x] := x]);
    a1.(right := a1.right[before := x])
  }

  // ---------------------------------------------------------------------------
  // What each splice does
  // ---------------------------------------------------------------------------

  /** `x` is vertically linked: the node above it points down to it, the one below points up to it. */
  predicate VLinked(a: Arena, x: nat)
    requires Valid(a) && x < Size(a)
  {
    a.down[a.up[x]] == x && a.up[a.down[x]] == x
  }

  predicate HLinked(a: Arena, x: nat)
    requires Valid(a) && x < Size(a)
  {
    a.right[a.left[x]] == x && a.left[a.right[x]] == x
  }

  /**
    insertBelow places `x` directly below `u` and directly above the node
    that was below `u`, gives it `u`'s column and adds one to that column's
    row count; no other link, column or count changes.
  */
  lemma InsertBelowEffect(a: Arena, x: nat, u: nat)
    requires Valid(a) && x < Size(a) && u < Size(a)
    requires x != u && x != a.down[u]
    ensures var r := InsertBelow(a, x, u);
      && r.up == a.up[x := u][a.down[u] := x]
      && r.down == a.down[x := a.down[u]][u := x]
      && r.col == a.col[x := a.col[u]]
      && r.count == a.count[a.col[u] := a.count[a.col[u]] + 1]
      && r.left == a.left && r.right == a.right && r.opt == a.opt
  {
  }

  /**
    removeVertically unlinks `x`: its upper neighbour now points down to its
    lower neighbour and back, its column loses one row, and `x` keeps its own
    links so that it can be reinserted.
  */
  lemma RemoveVEffect(a: Arena, x: nat)
    requires Valid(a) && x < Size(a) && VLinked(a, x) && a.up[x] != x
    ensures var r := RemoveV(a, x);
      && r.down == a.down[a.up[x] := a.down[x]]
      && r.up == a.up[a.down[x] := a.up[x]]
      && r.count == a.count[a.col[x] := a.count[a.col[x]] - 1]
      && r.up[x] == a.up[x] && r.down[x] == a.down[x]
      && r.left == a.left && r.right == a.right && r.col == a.col && r.opt == a.opt
  {
  }

  /** removeHorizontally unlinks `x` from its row or from the header ring, leaving `x`'s own links. */
  lemma RemoveHEffect(a: Arena, x: nat)
    requires Valid(a) && x < Size(a) && HLinked(a, x) && a.left[x] != x
    ensures var r := RemoveH(a, x);
      && r.right == a.right[a.left[x] := a.right[x]]
      && r.left == a.left[a.right[x] := a.left[x]]
      && r.left[x] == a.left[x] && r.right[x] == a.right[x]
      && r.up == a.up && r.down == a.down && r.col == a.col && r.opt == a.opt && r.count == a.count
  {
  }

  /** reinsertVertically undoes removeVertically on a vertically linked node. */
  lemma VRoundTrip(a: Arena, x: nat)
    requires Valid(a) && x < Size(a) && VLinked(a, x)
    ensures ReinsertV(RemoveV(a, x), x) == a
  {
    var r := ReinsertV(RemoveV(a, x), x);
    if a.up[x] == x {
      assert a.down[x] == x;
    } else {
      assert a.down[x] != x;
    }
    assert r.up == a.up;
    assert r.down == a.down;
    assert r.count == a.count;
  }

  /** reinsertHorizontally undoes removeHorizontally on a horizontally linked node. */
  lemma HRoundTrip(a: Arena, x: nat)
    requires Valid(a) && x < Size(a) && HLinked(a, x)
    ensures ReinsertH(RemoveH(a, x), x) == a
  {
    var r := ReinsertH(RemoveH(a, x), x);
    if a.left[x] == x {
      assert a.right[x] == x;
    } else {
      assert a.right[x] != x;
    }
    assert r.left == a.left;
    assert r.right == a.right;
  }

  // ---------------------------------------------------------------------------
  // Splices on rings
  // ---------------------------------------------------------------------------

  /** Column ring: `down` runs from the column node `h` through `xs` back to `h`, `up` the other way. */
  predicate VRing(a: Arena, h: nat, xs: seq<nat>)
  {
    |a.up| == |a.down| && DRing(a.down, a.up, h, xs)
  }

  /** Horizontal ring: `right` runs from `h` through `xs` back to `h`, `left` the other way. */
  predicate HRing(a: Arena, h: nat, xs: seq<nat>)
  {
    |a.left| == |a.right| && DRing(a.right, a.left, h, xs)
  }

  /** Removing the node at position `i` of a column ring leaves the ring without it. */
  lemma RemoveVRing(a: Arena, h: nat, xs: seq<nat>, i: nat)
    requires Valid(a) && VRing(a, h, xs) && i < |xs|
    ensures var r := RemoveV(a, xs[i]);
      && VRing(r, h, xs[..i] + xs[i + 1..])
      && r.down == a.down[(if i == 0 then h else xs[i - 1]) := (if i + 1 < |xs| then xs[i + 1] else h)]
      && r.up == a.up[(if i + 1 < |xs| then xs[i + 1] else h) := (if i == 0 then h else xs[i - 1])]
      && r.count == a.count[a.col[xs[i]] := a.count[a.col[xs[i]]] - 1]
      && r.left == a.left && r.right == a.right && r.col == a.col && r.opt == a.opt
  {
    DRingNeighbours(a.down, a.up, h, xs, i);
    DRingRemove(a.down, a.up, h, xs, i);
    RemoveVEffect(a, xs[i]);
  }

  /** Removing the node at position `i` of a horizontal ring leaves the ring without it. */
  lemma RemoveHRing(a: Arena, h: nat, xs: seq<nat>, i: nat)
    requires Valid(a) && HRing(a, h, xs) && i < |xs|
    ensures var r := RemoveH(a, xs[i]);
      && HRing(r, h, xs[..i] + xs[i + 1..])
      && r.right == a.right[(if i == 0 then h else xs[i - 1]) := (if i + 1 < |xs| then xs[i + 1] else h)]
      && r.left == a.left[(if i + 1 < |xs| then xs[i + 1] else h) := (if i == 0 then h else xs[i - 1])]
      && r.up == a.up && r.down == a.down && r.col == a.col && r.opt == a.opt && r.count == a.count
  {
    DRingNeighbours(a.right, a.left, h, xs, i);
    DRingRemove(a.right, a.left, h, xs, i);
    RemoveHEffect(a, xs[i]);
  }

  /**
    insertBelow(column.up) appends a node that is in no ring yet at the bottom
    of the column ring of `h`.
  */
  lemma InsertBelowRing(a: Arena, h: nat, xs: seq<nat>, x: nat)
    requires Valid(a) && VRing(a, h, xs) && x < Size(a) && x != h && x !in xs
    ensures var r := InsertBelow(a, x, a.up[h]);
      && VRing(r, h, xs + [x])
      && r.down == a.down[x := h][(if xs == [] then h else xs[|xs| - 1]) := x]
      && r.up == a.up[x := (if xs == [] then h else xs[|xs| - 1])][h := x]
      && r.col == a.col[x := a.col[a.up[h]]]
      && r.count == a.count[a.col[a.up[h]] := a.count[a.col[a.up[h]]] + 1]
      && r.left == a.left && r.right == a.right && r.opt == a.opt
  {
    var last := if xs == [] then h else xs[|xs| - 1];
    DRingAppend(a.down, a.up, h, xs, x);
    if xs != [] {
      DRingNeighbours(a.down, a.up, h, xs, |xs| - 1);
    }
    assert a.down[last] == h;
    InsertBelowEffect(a, x, last);
    assert a.up[x := last][h := x] == a.up[x := last][a.down[last] := x];
  }

  /** A column ring only depends on the vertical links of its own nodes. */
  lemma VRingFrame(a: Arena, b: Arena, h: nat, xs: seq<nat>)
    requires VRing(a, h, xs)
    requires |b.up| == |a.up| && |b.down| == |a.down|
    requires b.down[h] == a.down[h] && b.up[h] == a.up[h]
    requires forall i :: 0 <= i < |xs| ==> b.down[xs[i]] == a.down[xs[i]] && b.up[xs[i]] == a.up[xs[i]]
    ensures VRing(b, h, xs)
  {
    RingFrame(a.down, b.down, h, xs);
    var rs := Reverse(xs);
    forall i | 0 <= i < |rs| ensures b.up[rs[i]] == a.up[rs[i]] {
      assert rs[i] == xs[|xs| - 1 - i];
    }
    RingFrame(a.up, b.up, h, rs);
  }
}
