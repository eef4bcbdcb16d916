/**
  How solve() in src/dancinglinks.js builds its structure before the search
  starts. The root column comes first, then one column header per item,
  each made right of the previous one, and the last header is linked back to
  the root. Then, option after option, one node per item is made right of the
  option's previous node and put at the bottom of its item's column. The row
  is closed into a ring, and the root's row count goes up by one.

  Build replays these assignments on an arena of fresh nodes, one option at
  a time through AddOption and one node at a time through CreateRow. The
  predicate Building of module BuildState holds between any two steps, and
  BuildingRep shows that once every option is added the arena encodes the
  state in which nothing is covered, which is where the search of module
  AlgorithmX starts.
*/
module Construction {
  import opened Seqs
  import opened Rings
  import opened Problem
  import opened AlgorithmX
  import opened Links
  import opened Layout
  import opened CoverState
  import opened Assembly
  import opened BuildState

  // ---------------------------------------------------------------------------
  // The assignments of solve()
  // ---------------------------------------------------------------------------

  /**
    The end of one iteration of the options loop. The source links the last
    node and the scratch row header both ways and then removes the header
    horizontally. That leaves the last node's right link and the first node's
    left link pointing at each other. The root's row count goes up by one,
    also for an option without items.
  */
  function CloseRow<Item>(a: Arena, opts: seq<Opt<Item>>, n: nat, j: nat): (r: Arena)
    requires Valid(a) && Size(a) == Total(opts, n) && j < |opts|
    ensures Valid(r) && Size(r) == Size(a)
  {
    var len := |opts[j].items|;
    var a1 :=
      if len == 0 then a
      else
        var first := NodeOf(opts, n, j, 0);
        var last := NodeOf(opts, n, j, len - 1);
        var b1 := a.(right := a.right[last := first]);
        b1.(left := b1.left[first := last]);
    a1.(count := a1.count[Root := a1.count[Root] + 1])
  }

  // ---------------------------------------------------------------------------
  // The start of the options loop
  // ---------------------------------------------------------------------------

  /** Before the first option the header ring is closed and every column is empty. */
  lemma HeadersStart<Item(!new)>(opts: seq<Opt<Item>>, u: seq<Item>)
    requires Shape(opts, u)
    ensures Building(Headers(Fresh(Total(opts, |u|)), |u|), opts, u, 0, 0)
  {
    var n := |u|;
    var a := Headers(Fresh(Total(opts, n)), n);
    HeadersLinks(Total(opts, n), n);
    forall k | 0 <= k < n ensures ColumnSoFar(a, opts, u, k, 0, 0) {
      assert Made(opts, u, k, 0, 0) == [];
      assert a.up[Hdr(k)] == Hdr(k) && a.down[Hdr(k)] == Hdr(k);
      assert VRing(a, Hdr(k), []);
    }
  }

  // ---------------------------------------------------------------------------
  // One node of an option
  // ---------------------------------------------------------------------------

  /** One more option in a column is one more node at its bottom. */
  lemma ColNodesSnoc<Item(!new)>(opts: seq<Opt<Item>>, u: seq<Item>, k: nat, rows: seq<nat>, j: nat)
    requires k < |u| && j < |opts| && u[k] in opts[j].items
    requires forall i :: 0 <= i < |rows| ==> rows[i] < |opts| && u[k] in opts[rows[i]].items
    ensures ColNodes(opts, u, k, rows + [j])
         == ColNodes(opts, u, k, rows) + [NodeOf(opts, |u|, j, IndexOf(opts[j].items, u[k]))]
  {
  }

  /** The bottom node of column `k` is its last node (the header when it is empty), and it belongs to the column. */
  lemma BottomOf<Item(!new)>(a: Arena, opts: seq<Opt<Item>>, u: seq<Item>, k: nat, j: nat, p: nat)
    requires Valid(a) && k < |u| && Hdr(k) < Size(a) && At(opts, j, p)
    requires ColumnSoFar(a, opts, u, k, j, p) && a.col[Hdr(k)] == Hdr(k)
    ensures var xs := Made(opts, u, k, j, p);
      && a.up[Hdr(k)] == (if xs == [] then Hdr(k) else xs[|xs| - 1])
      && a.down[a.up[Hdr(k)]] == Hdr(k)
      && a.col[a.up[Hdr(k)]] == Hdr(k)
      && a.up[Hdr(k)] < Base(opts, |u|, j) + p
  {
    var xs := Made(opts, u, k, j, p);
    if xs != [] {
      DRingNeighbours(a.down, a.up, Hdr(k), xs, |xs| - 1);
      assert Reverse(xs)[0] == xs[|xs| - 1];
    }
  }

  /** The new node knows its column and option; the nodes made before it keep theirs. */
  lemma TaggedStep<Item(!new)>(a: Arena, r: Arena, opts: seq<Opt<Item>>, u: seq<Item>, j: nat, p: nat, prev: nat)
    requires Shape(opts, u) && Valid(a) && Valid(r) && Size(a) == Total(opts, |u|) && Size(r) == Size(a)
    requires j < |opts| && p < |opts[j].items| && Tagged(a, opts, u, j, p) && prev < Size(a)
    requires var x := NodeOf(opts, |u|, j, p);
      && HStepped(a, r, x, j, prev)
      && CStepped(a, r, x, Hdr(IndexOf(u, opts[j].items[p])))
    ensures Tagged(r, opts, u, j, p + 1)
  {
    var x := NodeOf(opts, |u|, j, p);
    var h := Hdr(IndexOf(u, opts[j].items[p]));
    forall i, q | 0 <= i < |opts| && 0 <= q < |opts[i].items| && (i < j || (i == j && q < p + 1))
      ensures r.col[NodeOf(opts, |u|, i, q)] == Hdr(IndexOf(u, opts[i].items[q]))
      ensures r.opt[NodeOf(opts, |u|, i, q)] == i
    {
      var y := NodeOf(opts, |u|, i, q);
      if i == j && q == p {
        assert r.col[x] == h && r.opt[x] == j;
      } else {
        if i < j { BaseMono(opts, |u|, i, j); }
        assert y < x;
        assert r.col[y] == a.col[y] && r.opt[y] == a.opt[y];
      }
    }
  }

  /** The rows of the earlier options keep their links: all their nodes precede option `j`. */
  lemma RowsLinkedKept<Item>(a: Arena, r: Arena, opts: seq<Opt<Item>>, n: nat, j: nat, x: nat, j': nat, prev: nat)
    requires Valid(a) && Valid(r) && Size(a) == Total(opts, n) && Size(r) == Size(a)
    requires j <= |opts| && RowsLinked(a, opts, n, j)
    requires Base(opts, n, j) <= x < Size(a) && Base(opts, n, j) <= prev < Size(a) && HStepped(a, r, x, j', prev)
    ensures RowsLinked(r, opts, n, j)
  {
    forall i | 0 <= i < j ensures RowLinked(r, opts, n, i) {
      assert RowLinked(a, opts, n, i);
      BaseMono(opts, n, i, j);
      forall q | 0 <= q < |opts[i].items|
        ensures r.right[NodeOf(opts, n, i, q)] == a.right[NodeOf(opts, n, i, q)]
        ensures r.left[NodeOf(opts, n, i, q)] == a.left[NodeOf(opts, n, i, q)]
      {
      }
    }
  }

  /** The new node is linked to its predecessor both ways. */
  lemma RowOpenStep<Item>(a: Arena, r: Arena, opts: seq<Opt<Item>>, n: nat, j: nat, p: nat)
    requires Valid(a) && Valid(r) && Size(a) == Total(opts, n) && Size(r) == Size(a)
    requires j < |opts| && p < |opts[j].items| && RowOpen(a, opts, n, j, p)
    requires var x := NodeOf(opts, n, j, p); HStepped(a, r, x, j, if p == 0 then x else x - 1)
    ensures RowOpen(r, opts, n, j, p + 1)
  {
  }

  /** The node for a position holding the item of column `k` is the column's new last node. */
  lemma SoFarGrows<Item(!new)>(a: Arena, opts: seq<Opt<Item>>, u: seq<Item>, k: nat, j: nat, p: nat, x: nat)
    requires k < |u| && j < |opts| && p < |opts[j].items| && opts[j].items[p] == u[k]
    requires x == Base(opts, |u|, j) + p
    requires ColumnRing(a, Hdr(k), Made(opts, u, k, j, p) + [x], Base(opts, |u|, j) + p + 1)
    ensures ColumnSoFar(a, opts, u, k, j, p + 1)
  {
    assert Made(opts, u, k, j, p + 1) == Made(opts, u, k, j, p) + [x];
  }

  /** The node for a position holding another item leaves column `k` as it is. */
  lemma SoFarKept<Item(!new)>(a: Arena, opts: seq<Opt<Item>>, u: seq<Item>, k: nat, j: nat, p: nat)
    requires k < |u| && j < |opts| && p < |opts[j].items| && opts[j].items[p] != u[k]
    requires ColumnRing(a, Hdr(k), Made(opts, u, k, j, p), Base(opts, |u|, j) + p + 1)
    ensures ColumnSoFar(a, opts, u, k, j, p + 1)
  {
    assert Made(opts, u, k, j, p + 1) == Made(opts, u, k, j, p);
  }

  /** createRow on the column `k'` of the new node's item: the column gains the node at its bottom. */
  lemma ColumnGrows<Item(!new)>(a: Arena, r: Arena, opts: seq<Opt<Item>>, u: seq<Item>, j: nat, p: nat, k': nat)
    requires Shape(opts, u) && Valid(a) && Size(a) == Total(opts, |u|)
    requires j < |opts| && p < |opts[j].items| && k' < |u| && u[k'] == opts[j].items[p]
    requires var h := Hdr(IndexOf(u, opts[j].items[p]));
      && ColumnSoFar(a, opts, u, k', j, p)
      && a.col[Hdr(k')] == Hdr(k')
      && VStepped(a, r, NodeOf(opts, |u|, j, p), h)
      && CStepped(a, r, NodeOf(opts, |u|, j, p), h)
    ensures ColumnSoFar(r, opts, u, k', j, p + 1)
  {
    var x := NodeOf(opts, |u|, j, p);
    IndexOfNoDup(u, k');
    ColumnRingGrows(a, r, Hdr(k'), Made(opts, u, k', j, p), Base(opts, |u|, j) + p, x, Hdr(IndexOf(u, opts[j].items[p])));
    SoFarGrows(r, opts, u, k', j, p, x);
  }

  /** createRow on a column `k'` of another item: the column keeps its nodes. */
  lemma ColumnKept<Item(!new)>(a: Arena, r: Arena, opts: seq<Opt<Item>>, u: seq<Item>, j: nat, p: nat, k': nat)
    requires Shape(opts, u) && Valid(a) && Size(a) == Total(opts, |u|)
    requires j < |opts| && p < |opts[j].items| && k' < |u| && u[k'] != opts[j].items[p]
    requires var h := Hdr(IndexOf(u, opts[j].items[p]));
      && ColumnSoFar(a, opts, u, k', j, p)
      && a.col[Hdr(k')] == Hdr(k') && a.col[h] == h && a.col[a.up[h]] == h
      && VStepped(a, r, NodeOf(opts, |u|, j, p), h)
      && CStepped(a, r, NodeOf(opts, |u|, j, p), h)
    ensures ColumnSoFar(r, opts, u, k', j, p + 1)
  {
    var h := Hdr(IndexOf(u, opts[j].items[p]));
    ColumnRingKept(a, r, Hdr(k'), Made(opts, u, k', j, p), Base(opts, |u|, j) + p, NodeOf(opts, |u|, j, p), h);
    SoFarKept(r, opts, u, k', j, p);
  }

  /** createRow on column `k'`: the new node's own column grows, any other is left alone. */
  lemma ColumnStep<Item(!new)>(a: Arena, r: Arena, opts: seq<Opt<Item>>, u: seq<Item>, j: nat, p: nat, k': nat)
    requires Shape(opts, u) && Valid(a) && Size(a) == Total(opts, |u|)
    requires j < |opts| && p < |opts[j].items| && k' < |u|
    requires var h := Hdr(IndexOf(u, opts[j].items[p]));
      && ColumnSoFar(a, opts, u, k', j, p)
      && a.col[Hdr(k')] == Hdr(k') && a.col[h] == h && a.col[a.up[h]] == h
      && VStepped(a, r, NodeOf(opts, |u|, j, p), h)
      && CStepped(a, r, NodeOf(opts, |u|, j, p), h)
    ensures ColumnSoFar(r, opts, u, k', j, p + 1)
  {
    if u[k'] == opts[j].items[p] {
      ColumnGrows(a, r, opts, u, j, p, k');
    } else {
      ColumnKept(a, r, opts, u, j, p, k');
    }
  }

  /** createRow puts the new node at the bottom of its item's column and leaves the other columns alone. */
  lemma ColumnsStep<Item(!new)>(a: Arena, r: Arena, opts: seq<Opt<Item>>, u: seq<Item>, j: nat, p: nat)
    requires Shape(opts, u) && Valid(a) && Valid(r) && Size(a) == Total(opts, |u|) && Size(r) == Size(a)
    requires j < |opts| && p < |opts[j].items|
    requires HeaderLinks(a, |u|) && ColumnsSoFar(a, opts, u, j, p)
    requires var h := Hdr(IndexOf(u, opts[j].items[p]));
      && a.col[a.up[h]] == h
      && VStepped(a, r, NodeOf(opts, |u|, j, p), h)
      && CStepped(a, r, NodeOf(opts, |u|, j, p), h)
    ensures ColumnsSoFar(r, opts, u, j, p + 1)
  {
    var h := Hdr(IndexOf(u, opts[j].items[p]));
    assert a.col[h] == h;
    var p' := p + 1;
    forall k' | 0 <= k' < |u| ensures ColumnSoFar(r, opts, u, k', j, p') {
      assert a.col[Hdr(k')] == Hdr(k');
      ColumnStep(a, r, opts, u, j, p, k');
    }
  }

  /** createRow's changes keep the header ring and put the new node in its column. */
  lemma ColumnsAfterStep<Item(!new)>(a: Arena, r: Arena, opts: seq<Opt<Item>>, u: seq<Item>, j: nat, p: nat)
    requires Building(a, opts, u, j, p) && StepFrom(a, r, opts, u, j, p)
    ensures HeaderLinks(r, |u|) && ColumnsSoFar(r, opts, u, j, p + 1)
  {
    var x := NodeOf(opts, |u|, j, p);
    HeaderKept(a, r, |u|, x, Hdr(IndexOf(u, opts[j].items[p])), j, if p == 0 then x else x - 1);
    ColumnsStep(a, r, opts, u, j, p);
  }

  /** createRow's changes place the new node and link it into its row. */
  lemma RowsAfterStep<Item(!new)>(a: Arena, r: Arena, opts: seq<Opt<Item>>, u: seq<Item>, j: nat, p: nat)
    requires Building(a, opts, u, j, p) && StepFrom(a, r, opts, u, j, p)
    ensures Tagged(r, opts, u, j, p + 1)
    ensures RowsLinked(r, opts, |u|, j) && RowOpen(r, opts, |u|, j, p + 1)
  {
    var x := NodeOf(opts, |u|, j, p);
    var prev := if p == 0 then x else x - 1;
    TaggedStep(a, r, opts, u, j, p, prev);
    RowsLinkedKept(a, r, opts, |u|, j, x, j, prev);
    RowOpenStep(a, r, opts, |u|, j, p);
  }

  /** An arena that differs from a built one by createRow's changes is built one node further. */
  lemma BuildingStep<Item(!new)>(a: Arena, r: Arena, opts: seq<Opt<Item>>, u: seq<Item>, j: nat, p: nat)
    requires Building(a, opts, u, j, p) && StepFrom(a, r, opts, u, j, p)
    ensures Building(r, opts, u, j, p + 1)
  {
    ColumnsAfterStep(a, r, opts, u, j, p);
    RowsAfterStep(a, r, opts, u, j, p);
  }

  /** Before createRow, the bottom node of the item's column lies above the new node and belongs to the column. */
  lemma BottomReady<Item(!new)>(a: Arena, opts: seq<Opt<Item>>, u: seq<Item>, j: nat, p: nat)
    requires Building(a, opts, u, j, p) && j < |opts| && p < |opts[j].items|
    ensures var x := NodeOf(opts, |u|, j, p);
      var h := Hdr(IndexOf(u, opts[j].items[p]));
      && h < Size(a) && x != h && a.up[h] != x
      && a.down[a.up[h]] == h && a.col[a.up[h]] == h
  {
    var k := IndexOf(u, opts[j].items[p]);
    assert ColumnSoFar(a, opts, u, k, j, p) && a.col[Hdr(k)] == Hdr(k);
    BottomOf(a, opts, u, k, j, p);
  }

  /**
    createRow for position `p` of option `j`: the node goes to the bottom of
    its item's column, right of the option's previous node. The first node
    of an option has itself on its left, and its own right link is the one
    set last. The source links it to a scratch row header instead (see
    CloseRow).
  */
  method CreateRow<Item(==,!new)>(a: Arena, opts: seq<Opt<Item>>, u: seq<Item>, j: nat, p: nat) returns (r: Arena)
    requires Building(a, opts, u, j, p) && j < |opts| && p < |opts[j].items|
    ensures StepFrom(a, r, opts, u, j, p)
    ensures Building(r, opts, u, j, p + 1)
  {
    var x := NodeOf(opts, |u|, j, p);
    var h := Hdr(IndexOf(u, opts[j].items[p]));
    var prev := if p == 0 then x else x - 1;
    BottomReady(a, opts, u, j, p);
    r := MakeRowNode(a, x, h, j, prev);
    MakeRowNodeEffect(a, x, h, j, prev);
    BuildingStep(a, r, opts, u, j, p);
  }

  // ---------------------------------------------------------------------------
  // The end of an option
  // ---------------------------------------------------------------------------

  /** CloseRow's assignments, as the changes the closing lemmas expect. */
  lemma CloseRowEffect<Item>(a: Arena, opts: seq<Opt<Item>>, n: nat, j: nat)
    requires Valid(a) && Size(a) == Total(opts, n) && j < |opts|
    ensures Closing(a, CloseRow(a, opts, n, j), opts, n, j)
  {
  }

  /** Closing a row leaves the header ring alone: the first and last nodes are row nodes. */
  lemma HeaderClosed<Item>(a: Arena, r: Arena, opts: seq<Opt<Item>>, n: nat, j: nat)
    requires Valid(a) && Valid(r) && Size(a) == Total(opts, n) && Size(r) == Size(a) && j < |opts|
    requires n < Size(a) && HeaderLinks(a, n) && Closing(a, r, opts, n, j)
    ensures HeaderLinks(r, n)
  {
    forall y | 0 <= y <= n
      ensures r.left[y] == a.left[y] && r.right[y] == a.right[y] && r.col[y] == a.col[y]
    {
    }
  }

  /** Column `k` after the last node of option `j` is column `k` before the first node of option `j + 1`. */
  lemma SoFarClosed<Item(!new)>(a: Arena, r: Arena, opts: seq<Opt<Item>>, u: seq<Item>, k: nat, j: nat)
    requires Valid(a) && Size(a) == Total(opts, |u|) && k < |u| && j < |opts|
    requires ColumnSoFar(a, opts, u, k, j, |opts[j].items|) && Closing(a, r, opts, |u|, j)
    ensures ColumnSoFar(r, opts, u, k, j + 1, 0)
  {
    assert Made(opts, u, k, j + 1, 0) == Made(opts, u, k, j, |opts[j].items|);
    assert Base(opts, |u|, j + 1) + 0 == Base(opts, |u|, j) + |opts[j].items|;
  }

  lemma ColumnsClosed<Item(!new)>(a: Arena, r: Arena, opts: seq<Opt<Item>>, u: seq<Item>, j: nat)
    requires Valid(a) && Size(a) == Total(opts, |u|) && j < |opts|
    requires ColumnsSoFar(a, opts, u, j, |opts[j].items|) && Closing(a, r, opts, |u|, j)
    ensures ColumnsSoFar(r, opts, u, j + 1, 0)
  {
    var j' := j + 1;
    forall k | 0 <= k < |u| ensures ColumnSoFar(r, opts, u, k, j', 0) {
      SoFarClosed(a, r, opts, u, k, j);
    }
  }

  /** Closing a row keeps every node's column and option. */
  lemma TaggedClosed<Item(!new)>(a: Arena, r: Arena, opts: seq<Opt<Item>>, u: seq<Item>, j: nat)
    requires Shape(opts, u) && Valid(a) && Valid(r) && Size(a) == Total(opts, |u|) && Size(r) == Size(a)
    requires j < |opts| && Tagged(a, opts, u, j, |opts[j].items|) && Closing(a, r, opts, |u|, j)
    ensures Tagged(r, opts, u, j + 1, 0)
  {
  }

  /** The row of option `j` is closed into a ring: the last node's right neighbour is the first node, and back. */
  lemma RowClosedLinks<Item>(a: Arena, r: Arena, opts: seq<Opt<Item>>, n: nat, j: nat)
    requires Valid(a) && Valid(r) && Size(a) == Total(opts, n) && Size(r) == Size(a) && j < |opts|
    requires RowOpen(a, opts, n, j, |opts[j].items|) && Closing(a, r, opts, n, j)
    ensures RowLinked(r, opts, n, j)
  {
    var len := |opts[j].items|;
    forall q | 0 <= q < len
      ensures r.right[NodeOf(opts, n, j, q)] == NodeOf(opts, n, j, if q + 1 < len then q + 1 else 0)
      ensures r.left[NodeOf(opts, n, j, q)] == NodeOf(opts, n, j, if q > 0 then q - 1 else len - 1)
    {
      if q + 1 < len {
        assert a.right[NodeOf(opts, n, j, q)] == NodeOf(opts, n, j, q + 1);
      }
      if q > 0 {
        assert a.left[NodeOf(opts, n, j, q)] == NodeOf(opts, n, j, q - 1);
      }
    }
  }

  /** Closing the row of option `j` leaves the rows of the earlier options alone and links its own. */
  lemma RowsClosed<Item>(a: Arena, r: Arena, opts: seq<Opt<Item>>, n: nat, j: nat)
    requires Valid(a) && Valid(r) && Size(a) == Total(opts, n) && Size(r) == Size(a) && j < |opts|
    requires RowsLinked(a, opts, n, j) && RowOpen(a, opts, n, j, |opts[j].items|) && Closing(a, r, opts, n, j)
    ensures RowsLinked(r, opts, n, j + 1)
  {
    forall i | 0 <= i < j ensures RowLinked(r, opts, n, i) {
      assert RowLinked(a, opts, n, i);
      BaseMono(opts, n, i, j);
      forall q | 0 <= q < |opts[i].items|
        ensures r.right[NodeOf(opts, n, i, q)] == a.right[NodeOf(opts, n, i, q)]
        ensures r.left[NodeOf(opts, n, i, q)] == a.left[NodeOf(opts, n, i, q)]
      {
      }
    }
    RowClosedLinks(a, r, opts, n, j);
  }

  /** The end of an iteration of the options loop keeps the build invariant, one option further. */
  lemma CloseRowStep<Item(!new)>(a: Arena, opts: seq<Opt<Item>>, u: seq<Item>, j: nat)
    requires j < |opts| && Building(a, opts, u, j, |opts[j].items|)
    ensures Building(CloseRow(a, opts, |u|, j), opts, u, j + 1, 0)
  {
    var r := CloseRow(a, opts, |u|, j);
    CloseRowEffect(a, opts, |u|, j);
    HeaderClosed(a, r, opts, |u|, j);
    ColumnsClosed(a, r, opts, u, j);
    TaggedClosed(a, r, opts, u, j);
    RowsClosed(a, r, opts, |u|, j);
  }

  // ---------------------------------------------------------------------------
  // The finished structure
  // ---------------------------------------------------------------------------

  /** The links of a closed row, node by node: each points right to the next node and left to the previous, cyclically. */
  lemma RowLinks<Item>(a: Arena, opts: seq<Opt<Item>>, n: nat, j: nat, b: nat, e: nat)
    requires Valid(a) && Size(a) == Total(opts, n) && j < |opts| && RowLinked(a, opts, n, j)
    requires b == Base(opts, n, j) && e == b + |opts[j].items|
    ensures e <= |a.right| && |a.left| == |a.right|
    ensures forall x :: b <= x < e ==> a.right[x] == if x + 1 < e then x + 1 else b
    ensures forall x :: b <= x < e ==> a.left[x] == if x > b then x - 1 else e - 1
  {
    var len := |opts[j].items|;
    BaseMono(opts, n, j, |opts|);
    forall x | b <= x < e
      ensures a.right[x] == (if x + 1 < e then x + 1 else b)
      ensures a.left[x] == (if x > b then x - 1 else e - 1)
    {
      var q := x - b;
      assert a.right[NodeOf(opts, n, j, q)] == NodeOf(opts, n, j, if q + 1 < len then q + 1 else 0);
      assert a.left[NodeOf(opts, n, j, q)] == NodeOf(opts, n, j, if q > 0 then q - 1 else len - 1);
    }
  }

  /** The peers of position `p` are the option's nodes after it, in cyclic order. */
  lemma RowPeersRotation<Item>(opts: seq<Opt<Item>>, n: nat, j: nat, p: nat, b: nat, e: nat)
    requires j < |opts| && p < |opts[j].items|
    requires b == Base(opts, n, j) && e == b + |opts[j].items|
    ensures b <= NodeOf(opts, n, j, p) < e
    ensures RowPeers(opts, n, j, p) == Rotation(b, e, NodeOf(opts, n, j, p))
  {
    var len := |opts[j].items|;
    var xs := RowPeers(opts, n, j, p);
    var ys := Rotation(b, e, NodeOf(opts, n, j, p));
    forall t | 0 <= t < len - 1 ensures xs[t] == ys[t] {
      PeerPositionValue(len, p, t);
    }
  }

  /** A linked row is a horizontal ring: walking right from any of its nodes meets the others in cyclic order. */
  lemma RowRing<Item>(a: Arena, opts: seq<Opt<Item>>, n: nat, j: nat, p: nat)
    requires Valid(a) && Size(a) == Total(opts, n) && j < |opts| && p < |opts[j].items|
    requires RowLinked(a, opts, n, j)
    ensures HRing(a, NodeOf(opts, n, j, p), RowPeers(opts, n, j, p))
  {
    var b := Base(opts, n, j);
    var e := b + |opts[j].items|;
    RowLinks(a, opts, n, j, b, e);
    RowPeersRotation(opts, n, j, p, b, e);
    BlockRing(a.right, a.left, b, e, NodeOf(opts, n, j, p));
  }

  /** Within option `j`, column `k` gains the node of the position holding its item, once that position is made. */
  lemma {:induction false} MadeWithin<Item(!new)>(opts: seq<Opt<Item>>, u: seq<Item>, k: nat, j: nat, p: nat)
    requires k < |u| && j < |opts| && p <= |opts[j].items| && NoDup(opts[j].items)
    ensures u[k] in opts[j].items[..p] ==>
      Made(opts, u, k, j, p) == Made(opts, u, k, j, 0) + [Base(opts, |u|, j) + IndexOf(opts[j].items, u[k])]
    ensures u[k] !in opts[j].items[..p] ==> Made(opts, u, k, j, p) == Made(opts, u, k, j, 0)
  {
    if p > 0 {
      var items := opts[j].items;
      MadeWithin(opts, u, k, j, p - 1);
      assert items[..p] == items[..p - 1] + [items[p - 1]];
      if items[p - 1] == u[k] {
        IndexOfNoDup(items, p - 1);
        assert Made(opts, u, k, j, p) == Made(opts, u, k, j, p - 1) + [Base(opts, |u|, j) + (p - 1)];
      } else {
        assert Made(opts, u, k, j, p) == Made(opts, u, k, j, p - 1);
      }
    }
  }

  /** Option `i` adds to column `k` the node of the position holding its item, if it has one. */
  lemma MadeOption<Item(!new)>(opts: seq<Opt<Item>>, u: seq<Item>, k: nat, i: nat)
    requires k < |u| && i < |opts| && NoDup(opts[i].items)
    ensures u[k] in opts[i].items ==>
      Made(opts, u, k, i + 1, 0) == Made(opts, u, k, i, 0) + [NodeOf(opts, |u|, i, IndexOf(opts[i].items, u[k]))]
    ensures u[k] !in opts[i].items ==> Made(opts, u, k, i + 1, 0) == Made(opts, u, k, i, 0)
  {
    var items := opts[i].items;
    MadeWithin(opts, u, k, i, |items|);
    assert items[..|items|] == items;
  }

  /** With nothing covered, option `i` is a row of column `c` exactly when it contains `c`. */
  lemma RowsUpToNext<Item>(opts: seq<Opt<Item>>, c: Item, i: nat)
    requires i < |opts|
    ensures c in opts[i].items ==> RowsUpTo(opts, [], c, i + 1) == RowsUpTo(opts, [], c, i) + [i]
    ensures c !in opts[i].items ==> RowsUpTo(opts, [], c, i + 1) == RowsUpTo(opts, [], c, i)
  {
    assert Live(opts[i], []);
  }

  /** Before option `j`, column `k` holds the nodes of the options before `j` that contain its item, in option order. */
  lemma {:induction false} MadeRows<Item(!new)>(opts: seq<Opt<Item>>, u: seq<Item>, k: nat, j: nat)
    requires Shape(opts, u) && k < |u| && j <= |opts|
    ensures Made(opts, u, k, j, 0) == ColNodes(opts, u, k, RowsUpTo(opts, [], u[k], j))
  {
    if j > 0 {
      var i := j - 1;
      MadeRows(opts, u, k, i);
      MadeOption(opts, u, k, i);
      RowsUpToNext(opts, u[k], i);
      if u[k] in opts[i].items {
        ColNodesSnoc(opts, u, k, RowsUpTo(opts, [], u[k], i), i);
      }
    }
  }

  /** The header links of the root and the `n` headers: a block of consecutive nodes linked cyclically. */
  lemma HeaderBlock(a: Arena, n: nat)
    requires Valid(a) && n < Size(a) && HeaderLinks(a, n)
    ensures n + 1 <= |a.right| && |a.left| == |a.right|
    ensures forall x :: 0 <= x < n + 1 ==> a.right[x] == if x + 1 < n + 1 then x + 1 else 0
    ensures forall x :: 0 <= x < n + 1 ==> a.left[x] == if x > 0 then x - 1 else n + 1 - 1
  {
  }

  /** With nothing covered, the header ring's nodes are all the headers, in universe order. */
  lemma HdrRingNone<Item(!new)>(u: seq<Item>)
    requires NoDup(u)
    ensures HdrRing(u, []) == Rotation(0, |u| + 1, Root)
  {
    ActiveNone(u);
    var xs := HdrRing(u, []);
    var ys := Rotation(0, |u| + 1, Root);
    forall i | 0 <= i < |u| ensures xs[i] == ys[i] {
      IndexOfNoDup(u, i);
    }
  }

  /** With nothing covered, the header ring lists every header in universe order. */
  lemma HeaderRingBuilt<Item(!new)>(a: Arena, u: seq<Item>)
    requires Valid(a) && |u| < Size(a) && NoDup(u) && HeaderLinks(a, |u|)
    ensures HRing(a, Root, HdrRing(u, []))
  {
    HeaderBlock(a, |u|);
    BlockRing(a.right, a.left, 0, |u| + 1, Root);
    HdrRingNone(u);
  }

  /** With nothing covered, column `k` holds every option containing its item, in option order. */
  lemma ColumnBuilt<Item(!new)>(a: Arena, opts: seq<Opt<Item>>, u: seq<Item>, k: nat)
    requires Shape(opts, u) && k < |u| && ColumnSoFar(a, opts, u, k, |opts|, 0)
    ensures ColumnOK(a, opts, u, k, Rows(opts, CoveredBefore([], u[k]), u[k]))
  {
    MadeRows(opts, u, k, |opts|);
    assert CoveredBefore([], u[k]) == [];
  }

  lemma ColumnsBuilt<Item(!new)>(a: Arena, opts: seq<Opt<Item>>, u: seq<Item>)
    requires Shape(opts, u) && ColumnsSoFar(a, opts, u, |opts|, 0)
    ensures Columns(a, opts, u, ColsFor(opts, u, []))
  {
    forall k | 0 <= k < |u| ensures ColumnOK(a, opts, u, k, ColsFor(opts, u, [])[k]) {
      ColumnBuilt(a, opts, u, k);
    }
  }

  /** Once every option is made, every node knows its column and option, and every row is a ring. */
  lemma StaticBuilt<Item(!new)>(a: Arena, opts: seq<Opt<Item>>, u: seq<Item>)
    requires Building(a, opts, u, |opts|, 0)
    ensures Static(a, opts, u)
  {
    forall j, p | 0 <= j < |opts| && 0 <= p < |opts[j].items|
      ensures HRing(a, NodeOf(opts, |u|, j, p), RowPeers(opts, |u|, j, p))
    {
      assert RowLinked(a, opts, |u|, j);
      RowRing(a, opts, |u|, j, p);
    }
    forall k | 0 <= k < |u| ensures a.col[Hdr(k)] == Hdr(k) {
    }
  }

  /** With nothing covered, every option is live. */
  lemma LiveSetNone<Item(!new)>(opts: seq<Opt<Item>>)
    ensures LiveSet(opts, []) == Below(|opts|)
  {
    forall j | 0 <= j < |opts| ensures Live(opts[j], []) {
    }
  }

  /** The structure after the options loop encodes the state in which nothing is covered. */
  lemma BuildingRep<Item(!new)>(a: Arena, opts: seq<Opt<Item>>, u: seq<Item>)
    requires Building(a, opts, u, |opts|, 0)
    ensures Rep(a, opts, u, [])
  {
    StaticBuilt(a, opts, u);
    HeaderRingBuilt(a, u);
    ColumnsBuilt(a, opts, u);
    LiveSetNone(opts);
  }

  // ---------------------------------------------------------------------------
  // The whole build
  // ---------------------------------------------------------------------------

  /**
    One iteration of the options loop of solve(): the option's nodes by
    items.reduce(createRow, rowHeader), then its row closed.
  */
  method AddOption<Item(==,!new)>(a: Arena, opts: seq<Opt<Item>>, u: seq<Item>, j: nat) returns (r: Arena)
    requires j < |opts| && Building(a, opts, u, j, 0)
    ensures Building(r, opts, u, j + 1, 0)
  {
    r := a;
    var p := 0;
    while p < |opts[j].items|
      invariant p <= |opts[j].items| && Building(r, opts, u, j, p)
    {
      r := CreateRow(r, opts, u, j, p);
      p := p + 1;
    }
    CloseRowStep(r, opts, u, j);
    r := CloseRow(r, opts, |u|, j);
  }

  /**
    The construction in solve(): the header loop, then the options loop.
    The result encodes the state in which nothing is covered.
  */
  method Build<Item(==,!new)>(opts: seq<Opt<Item>>) returns (a: Arena)
    requires forall j :: 0 <= j < |opts| ==> NoDup(opts[j].items)
    ensures Rep(a, opts, Universe(opts), [])
  {
    var u := Universe(opts);
    assert Shape(opts, u);
    a := Headers(Fresh(Total(opts, |u|)), |u|);
    HeadersStart(opts, u);
    var j := 0;
    while j < |opts|
      invariant j <= |opts| && Building(a, opts, u, j, 0)
    {
      a := AddOption(a, opts, u, j);
      j := j + 1;
    }
    BuildingRep(a, opts, u);
  }
}
