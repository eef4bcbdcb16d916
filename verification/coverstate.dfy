/**
  What cover and uncover of src/dancinglinks.js do to the encoded state.
  Covering an uncovered column of an arena that encodes the covered items
  `cov` yields an arena that encodes `cov + [c]`; uncovering it right away
  gives back the very same arena, links, counts and all.

  The proof follows the row loop of cover one row at a time: the arena
  after the first `i` rows is Trace(s0, rows, i), and uncover's row loop
  walks the same states backwards.
*/
module CoverState {
  import opened Seqs
  import opened Rings
  import opened Problem
  import opened AlgorithmX
  import opened Links
  import opened Layout
  import opened Covering

  // ---------------------------------------------------------------------------
  // The other positions of a row
  // ---------------------------------------------------------------------------

  /** The item positions met walking right from position `pc` of a row of `len` nodes. */
  function PeerPositions(len: nat, pc: nat): (r: seq<nat>)
    requires pc < len
    ensures |r| == len - 1
    ensures forall t :: 0 <= t < |r| ==> r[t] < len && r[t] != pc && r[t] == (pc + 1 + t) % len
  {
    seq(len - 1, t requires 0 <= t < len - 1 => (pc + 1 + t) % len)
  }

  /** `(pc + 1 + t) % len` without the modulus. */
  lemma PeerPositionValue(len: nat, pc: nat, t: nat)
    requires pc < len && t < len - 1
    ensures (pc + 1 + t) % len == if pc + 1 + t < len then pc + 1 + t else pc + 1 + t - len
  {
    var x := pc + 1 + t;
    if x >= len {
      assert x == len + (x - len) && 0 <= x - len < len;
      assert x / len == 1;
    }
  }

  /** The peer positions are every position but `pc`, each once. */
  lemma PeerPositionsSpec(len: nat, pc: nat)
    requires pc < len
    ensures NoDup(PeerPositions(len, pc))
    ensures forall q: nat :: q in PeerPositions(len, pc) <==> q < len && q != pc
  {
    var qs := PeerPositions(len, pc);
    forall t | 0 <= t < |qs| ensures qs[t] == if pc + 1 + t < len then pc + 1 + t else pc + 1 + t - len {
      PeerPositionValue(len, pc, t);
    }
    forall t, t' | 0 <= t < t' < |qs| ensures qs[t] != qs[t'] {
      assert qs[t] == if pc + 1 + t < len then pc + 1 + t else pc + 1 + t - len;
      assert qs[t'] == if pc + 1 + t' < len then pc + 1 + t' else pc + 1 + t' - len;
    }
    forall q: nat | q < len && q != pc ensures q in qs {
      if q > pc {
        var t: nat := q - pc - 1;
        assert t < |qs| && pc + 1 + t == q;
        assert qs[t] == q;
      } else {
        var t: nat := q + len - pc - 1;
        assert t < |qs| && pc + 1 + t == q + len;
        assert qs[t] == q;
      }
    }
  }

  /** The peers of a row, as positions, are the nodes the option's ring lists. */
  lemma PeerNodes<Item>(opts: seq<Opt<Item>>, n: nat, j: nat, pc: nat)
    requires j < |opts| && pc < |opts[j].items|
    ensures NodesAt(opts, n, j, PeerPositions(|opts[j].items|, pc)) == RowPeers(opts, n, j, pc)
  {
  }

  /** The items at the peer positions are the option's other items. */
  lemma PeerItems<Item>(items: seq<Item>, pc: nat)
    requires pc < |items| && NoDup(items)
    ensures forall x :: x in ItemsAt(items, PeerPositions(|items|, pc)) <==> x in items && x != items[pc]
  {
    var qs := PeerPositions(|items|, pc);
    PeerPositionsSpec(|items|, pc);
    var xs := ItemsAt(items, qs);
    forall x | x in items && x != items[pc] ensures x in xs {
      var q :| 0 <= q < |items| && items[q] == x;
      assert q in qs;
      var t :| 0 <= t < |qs| && qs[t] == q;
      assert xs[t] == x;
    }
  }

  // ---------------------------------------------------------------------------
  // One row of cover's row loop
  // ---------------------------------------------------------------------------

  /** One pass of cover's row loop: lower the root count, unlink the row's other nodes. */
  function RowStep(b: Arena, r: nat): (b': Arena)
    requires Valid(b) && r < Size(b)
    ensures Valid(b') && Size(b') == Size(b)
    ensures b'.left == b.left && b'.right == b.right && b'.col == b.col && b'.opt == b.opt
  {
    var b1 := RootAdd(b, -1);
    UnlinkPeers(b1, r, b1.right[r], Size(b1))
  }

  /** One pass of uncover's row loop: relink the row's other nodes, raise the root count. */
  function RowBack(b: Arena, r: nat): (b': Arena)
    requires Valid(b) && r < Size(b)
    ensures Valid(b') && Size(b') == Size(b)
  {
    RootAdd(RelinkPeers(b, r, b.left[r], Size(b)), 1)
  }

  /** Columns depend only on the vertical links and the column counts. */
  lemma ColumnsFrame<Item(!new)>(a: Arena, b: Arena, opts: seq<Opt<Item>>, u: seq<Item>, cols: seq<seq<nat>>)
    requires Columns(a, opts, u, cols)
    requires b.up == a.up && b.down == a.down && |b.count| == |a.count|
    requires forall k :: 0 <= k < |u| && Hdr(k) < |a.count| ==> b.count[Hdr(k)] == a.count[Hdr(k)]
    ensures Columns(b, opts, u, cols)
  {
    forall k | 0 <= k < |u| ensures ColumnOK(b, opts, u, k, cols[k]) {
      assert ColumnOK(a, opts, u, k, cols[k]);
    }
  }

  lemma RootAddBack(b: Arena)
    requires Valid(b)
    ensures RootAdd(RootAdd(b, -1), 1) == b
  {
    assert RootAdd(RootAdd(b, -1), 1).count == b.count;
  }

  /** The state after lowering the root count still encodes the same columns. */
  lemma RootAddKeeps<Item(!new)>(b: Arena, opts: seq<Opt<Item>>, u: seq<Item>, cols: seq<seq<nat>>, delta: int)
    requires Shape(opts, u) && Static(b, opts, u) && Columns(b, opts, u, cols)
    ensures Static(RootAdd(b, delta), opts, u) && Columns(RootAdd(b, delta), opts, u, cols)
  {
    StaticFrame(b, RootAdd(b, delta), opts, u);
    ColumnsFrame(b, RootAdd(b, delta), opts, u, cols);
  }

  /** The walk right from a row node meets its peers, and the walk left meets them backwards. */
  lemma RowWalks<Item(!new)>(b: Arena, opts: seq<Opt<Item>>, u: seq<Item>, j: nat, pc: nat)
    requires Shape(opts, u) && Static(b, opts, u) && j < |opts| && pc < |opts[j].items|
    ensures NodeOf(opts, |u|, j, pc) < Size(b)
    ensures var r := NodeOf(opts, |u|, j, pc);
      && Walk(b.right, r, b.right[r], Size(b)) == RowPeers(opts, |u|, j, pc)
      && Walk(b.left, r, b.left[r], Size(b)) == Reverse(RowPeers(opts, |u|, j, pc))
  {
    var r := NodeOf(opts, |u|, j, pc);
    var peers := RowPeers(opts, |u|, j, pc);
    assert HRing(b, r, peers);
    RingLength(b.right, r, peers);
    RingWalk(b.right, r, peers, Size(b));
    RingWalk(b.left, r, Reverse(peers), Size(b));
  }

  /** Uncover's pass over a row relinks, right to left, exactly what cover's pass unlinked. */
  lemma RowRoundTrip(b: Arena, r: nat, peers: seq<nat>)
    requires Valid(b) && r < Size(b) && InArena(b, peers)
    requires Walk(b.right, r, b.right[r], Size(b)) == peers
    requires Walk(b.left, r, b.left[r], Size(b)) == Reverse(peers)
    requires UnlinkSafe(RootAdd(b, -1), peers)
    ensures RowBack(RowStep(b, r), r) == b
  {
    var b1 := RootAdd(b, -1);
    UnlinkPeersList(b1, r, b1.right[r], Size(b1));
    var b' := RowStep(b, r);
    assert b' == UnlinkList(b1, peers);
    RelinkPeersList(b', r, b'.left[r], Size(b'));
    UnlinkRoundTrip(b1, peers);
    RootAddBack(b);
  }

  /** Cover's pass over a row is the root decrement followed by unlinking the peers met walking right. */
  lemma RowStepList(b: Arena, r: nat, peers: seq<nat>)
    requires Valid(b) && r < Size(b)
    requires Walk(b.right, r, b.right[r], Size(b)) == peers
    ensures InArena(b, peers)
    ensures RowStep(b, r) == UnlinkList(RootAdd(b, -1), peers)
  {
    var b1 := RootAdd(b, -1);
    UnlinkPeersList(b1, r, b1.right[r], Size(b1));
  }

  /** Unlinking the nodes of option `j` at positions `qs` after lowering the root count. */
  lemma UnlinkAfterRoot<Item(!new)>(b: Arena, opts: seq<Opt<Item>>, u: seq<Item>, cols: seq<seq<nat>>, j: nat, qs: seq<nat>)
    returns (cols': seq<seq<nat>>)
    requires Shape(opts, u) && Static(b, opts, u) && Columns(b, opts, u, cols)
    requires j < |opts| && CanUnlink(opts, u, cols, j, qs)
    ensures InArena(b, NodesAt(opts, |u|, j, qs))
    ensures var b1 := RootAdd(b, -1);
      && UnlinkSafe(b1, NodesAt(opts, |u|, j, qs))
      && Static(UnlinkList(b1, NodesAt(opts, |u|, j, qs)), opts, u)
      && Columns(UnlinkList(b1, NodesAt(opts, |u|, j, qs)), opts, u, cols')
      && UnlinkList(b1, NodesAt(opts, |u|, j, qs)).count[Root] == b.count[Root] - 1
    ensures forall k, y :: 0 <= k < |u| ==>
      (y in cols'[k] <==> y in cols[k] && !(y == j && u[k] in ItemsAt(opts[j].items, qs)))
  {
    RootAddKeeps(b, opts, u, cols, -1);
    cols' := UnlinkPositions(RootAdd(b, -1), opts, u, cols, j, qs);
  }

  /** What one row of cover does to the columns: the row's option leaves the columns of its other items. */
  lemma RowUnlinkCols<Item(!new)>(b: Arena, opts: seq<Opt<Item>>, u: seq<Item>, cols: seq<seq<nat>>, j: nat, pc: nat)
    returns (cols': seq<seq<nat>>)
    requires Shape(opts, u) && Static(b, opts, u) && Columns(b, opts, u, cols)
    requires j < |opts| && pc < |opts[j].items|
    requires forall q :: 0 <= q < |opts[j].items| && q != pc ==> j in cols[IndexOf(u, opts[j].items[q])]
    ensures NodeOf(opts, |u|, j, pc) < Size(b)
    ensures InArena(b, RowPeers(opts, |u|, j, pc))
    ensures UnlinkSafe(RootAdd(b, -1), RowPeers(opts, |u|, j, pc))
    ensures var b' := RowStep(b, NodeOf(opts, |u|, j, pc));
      && Static(b', opts, u) && Columns(b', opts, u, cols')
      && b'.count[Root] == b.count[Root] - 1
    ensures forall k, y :: 0 <= k < |u| ==>
      (y in cols'[k] <==> y in cols[k] && !(y == j && u[k] in opts[j].items && u[k] != opts[j].items[pc]))
  {
    var items := opts[j].items;
    var qs := PeerPositions(|items|, pc);
    assert CanUnlink(opts, u, cols, j, qs) by { PeerPositionsSpec(|items|, pc); }
    cols' := UnlinkAfterRoot(b, opts, u, cols, j, qs);
    PeerNodes(opts, |u|, j, pc);
    RowWalks(b, opts, u, j, pc);
    RowStepList(b, NodeOf(opts, |u|, j, pc), RowPeers(opts, |u|, j, pc));
    PeerItems(items, pc);
  }

  /**
    One row of cover: the row's option leaves the columns of all its other
    items, the root count drops by one, and uncover's pass over the same
    row restores the arena exactly.
  */
  lemma RowUnlink<Item(!new)>(b: Arena, opts: seq<Opt<Item>>, u: seq<Item>, cols: seq<seq<nat>>, j: nat, pc: nat)
    returns (cols': seq<seq<nat>>)
    requires Shape(opts, u) && Static(b, opts, u) && Columns(b, opts, u, cols)
    requires j < |opts| && pc < |opts[j].items|
    requires forall q :: 0 <= q < |opts[j].items| && q != pc ==> j in cols[IndexOf(u, opts[j].items[q])]
    ensures NodeOf(opts, |u|, j, pc) < Size(b)
    ensures var b' := RowStep(b, NodeOf(opts, |u|, j, pc));
      && Static(b', opts, u) && Columns(b', opts, u, cols')
      && b'.count[Root] == b.count[Root] - 1
      && RowBack(b', NodeOf(opts, |u|, j, pc)) == b
    ensures forall k, y :: 0 <= k < |u| ==>
      (y in cols'[k] <==> y in cols[k] && !(y == j && u[k] in opts[j].items && u[k] != opts[j].items[pc]))
  {
    cols' := RowUnlinkCols(b, opts, u, cols, j, pc);
    RowWalks(b, opts, u, j, pc);
    RowRoundTrip(b, NodeOf(opts, |u|, j, pc), RowPeers(opts, |u|, j, pc));
  }

  // ---------------------------------------------------------------------------
  // The rows of the covered column, one after the other
  // ---------------------------------------------------------------------------

  /** The arena after cover's row loop has handled the rows `rn[..i]`. */
  function Trace(s0: Arena, rn: seq<nat>, i: nat): (t: Arena)
    requires Valid(s0) && InArena(s0, rn) && i <= |rn|
    ensures Valid(t) && Size(t) == Size(s0)
    ensures t.left == s0.left && t.right == s0.right && t.col == s0.col && t.opt == s0.opt
    decreases i
  {
    if i == 0 then s0 else RowStep(Trace(s0, rn, i - 1), rn[i - 1])
  }

  /**
    Each row of column `kc` is in the columns of all its other items, as
    it is for a column that is not covered.
  */
  predicate RowsSpread<Item(==,!new)>(opts: seq<Opt<Item>>, u: seq<Item>, cols0: seq<seq<nat>>, kc: nat)
    requires Shape(opts, u) && |cols0| == |u| && kc < |u| && InColumn(opts, u, kc, cols0[kc])
  {
    forall m, q :: 0 <= m < |cols0[kc]| && 0 <= q < |opts[cols0[kc][m]].items| && opts[cols0[kc][m]].items[q] != u[kc] ==>
      cols0[kc][m] in cols0[IndexOf(u, opts[cols0[kc][m]].items[q])]
  }

  /** Where cover's row loop starts: `s0` holds columns `cols0`, and `rn` are the nodes of column `kc`. */
  predicate CoverSetup<Item(==,!new)>(s0: Arena, opts: seq<Opt<Item>>, u: seq<Item>, cols0: seq<seq<nat>>, kc: nat, rn: seq<nat>)
  {
    && Shape(opts, u) && Static(s0, opts, u) && Columns(s0, opts, u, cols0) && kc < |u|
    && ColumnOK(s0, opts, u, kc, cols0[kc])
    && rn == ColNodes(opts, u, kc, cols0[kc])
    && InArena(s0, rn)
    && RowsSpread(opts, u, cols0, kc)
  }

  /**
    After `i` rows: the arena keeps the static structure, column `kc` is
    untouched, and every other column has lost exactly the first `i` rows
    of column `kc`.
  */
  ghost predicate TraceAt<Item(!new)>(t: Arena, opts: seq<Opt<Item>>, u: seq<Item>, cols0: seq<seq<nat>>, kc: nat, i: nat, cols: seq<seq<nat>>)
    requires Shape(opts, u) && |cols0| == |u| && kc < |u| && i <= |cols0[kc]|
  {
    && Static(t, opts, u) && Columns(t, opts, u, cols)
    && cols[kc] == cols0[kc]
    && forall k, y {:trigger y in cols[k]} :: 0 <= k < |u| ==> (y in cols[k] <==> y in cols0[k] && (k == kc || y !in cols0[kc][..i]))
  }

  /** Row `i` of column `kc` is still in the columns of its other items after `i` rows. */
  lemma StepReady<Item(!new)>(opts: seq<Opt<Item>>, u: seq<Item>, cols0: seq<seq<nat>>, kc: nat, i: nat, cols: seq<seq<nat>>)
    requires Shape(opts, u) && |cols0| == |u| && kc < |u| && InColumn(opts, u, kc, cols0[kc])
    requires Increasing(cols0[kc]) && RowsSpread(opts, u, cols0, kc) && i < |cols0[kc]|
    requires |cols| == |u|
    requires forall k, y {:trigger y in cols[k]} :: 0 <= k < |u| ==> (y in cols[k] <==> y in cols0[k] && (k == kc || y !in cols0[kc][..i]))
    ensures var j := cols0[kc][i];
      forall q :: 0 <= q < |opts[j].items| && q != IndexOf(opts[j].items, u[kc]) ==> j in cols[IndexOf(u, opts[j].items[q])]
  {
    var j := cols0[kc][i];
    var items := opts[j].items;
    var pc := IndexOf(items, u[kc]);
    forall q | 0 <= q < |items| && q != pc ensures j in cols[IndexOf(u, items[q])] {
      assert items[q] != items[pc];
      var k := IndexOf(u, items[q]);
      IndexOfNoDup(u, kc);
      assert k != kc;
      assert j !in cols0[kc][..i];
    }
  }

  /** Every column of an encoding lists only options that contain its item. */
  lemma ColumnsInColumn<Item(!new)>(a: Arena, opts: seq<Opt<Item>>, u: seq<Item>, cols: seq<seq<nat>>)
    requires Columns(a, opts, u, cols)
    ensures forall k :: 0 <= k < |u| ==> InColumn(opts, u, k, cols[k]) && Increasing(cols[k])
  {
    forall k | 0 <= k < |u| ensures InColumn(opts, u, k, cols[k]) && Increasing(cols[k]) {
      assert ColumnOK(a, opts, u, k, cols[k]);
    }
  }

  /** The bookkeeping of one more row: row `i` leaves every other column it was in. */
  lemma TraceMembers<Item(!new)>(opts: seq<Opt<Item>>, u: seq<Item>, cols0: seq<seq<nat>>, kc: nat, i: nat, cols: seq<seq<nat>>, cols': seq<seq<nat>>)
    requires Shape(opts, u) && |cols0| == |u| && kc < |u| && i < |cols0[kc]|
    requires forall k :: 0 <= k < |u| ==> InColumn(opts, u, k, cols0[k])
    requires cols0[kc][i] < |opts|
    requires |cols| == |u| && |cols'| == |u|
    requires forall k, y {:trigger y in cols[k]} :: 0 <= k < |u| ==> (y in cols[k] <==> y in cols0[k] && (k == kc || y !in cols0[kc][..i]))
    requires forall k, y :: 0 <= k < |u| ==>
      (y in cols'[k] <==> y in cols[k] && !(y == cols0[kc][i] && u[k] in opts[cols0[kc][i]].items && u[k] != u[kc]))
    ensures forall k, y {:trigger y in cols'[k]} :: 0 <= k < |u| ==> (y in cols'[k] <==> y in cols0[k] && (k == kc || y !in cols0[kc][..i + 1]))
  {
    var rows := cols0[kc];
    var j := rows[i];
    assert rows[..i + 1] == rows[..i] + [j];
    forall k, y | 0 <= k < |u| ensures y in cols'[k] <==> y in cols0[k] && (k == kc || y !in rows[..i + 1]) {
      assert y in cols[k] <==> y in cols0[k] && (k == kc || y !in rows[..i]);
      assert y in cols'[k] <==> y in cols[k] && !(y == j && u[k] in opts[j].items && u[k] != u[kc]);
      if k != kc && y == j && y in cols0[k] {
        assert InColumn(opts, u, k, cols0[k]);
        var m :| 0 <= m < |cols0[k]| && cols0[k][m] == y;
        assert u[k] in opts[j].items && u[k] != u[kc];
      }
    }
  }

  /** One more row: the invariant carries over, the root count drops, and uncover's pass undoes it. */
  lemma TraceStep<Item(!new)>(s0: Arena, opts: seq<Opt<Item>>, u: seq<Item>, cols0: seq<seq<nat>>, kc: nat, rn: seq<nat>, i: nat, cols: seq<seq<nat>>)
    returns (cols': seq<seq<nat>>)
    requires CoverSetup(s0, opts, u, cols0, kc, rn) && i < |rn|
    requires TraceAt(Trace(s0, rn, i), opts, u, cols0, kc, i, cols)
    ensures TraceAt(Trace(s0, rn, i + 1), opts, u, cols0, kc, i + 1, cols')
    ensures Trace(s0, rn, i + 1).count[Root] == Trace(s0, rn, i).count[Root] - 1
    ensures RowBack(Trace(s0, rn, i + 1), rn[i]) == Trace(s0, rn, i)
  {
    var rows := cols0[kc];
    var j := rows[i];
    var items := opts[j].items;
    var pc := IndexOf(items, u[kc]);
    assert rn[i] == NodeOf(opts, |u|, j, pc);
    StepReady(opts, u, cols0, kc, i, cols);
    cols' := RowUnlink(Trace(s0, rn, i), opts, u, cols, j, pc);
    ColumnsInColumn(s0, opts, u, cols0);
    ColumnsInColumn(Trace(s0, rn, i + 1), opts, u, cols');
    assert j < |opts|;
    TraceMembers(opts, u, cols0, kc, i, cols, cols');
    IncreasingUnique(cols'[kc], rows);
  }

  /** Before the first row the trace is the starting arena, with its columns. */
  lemma TraceBase<Item(!new)>(s0: Arena, opts: seq<Opt<Item>>, u: seq<Item>, cols0: seq<seq<nat>>, kc: nat, rn: seq<nat>)
    requires CoverSetup(s0, opts, u, cols0, kc, rn)
    ensures Trace(s0, rn, 0) == s0
    ensures TraceAt(Trace(s0, rn, 0), opts, u, cols0, kc, 0, cols0)
  {
    assert Trace(s0, rn, 0) == s0;
    assert cols0[kc][..0] == [];
  }

  /** The trace invariant after `i` rows, with the root count. */
  ghost predicate Traced<Item(!new)>(s0: Arena, opts: seq<Opt<Item>>, u: seq<Item>, cols0: seq<seq<nat>>, kc: nat, rn: seq<nat>, i: nat, cols: seq<seq<nat>>)
    requires CoverSetup(s0, opts, u, cols0, kc, rn) && i <= |rn|
  {
    && TraceAt(Trace(s0, rn, i), opts, u, cols0, kc, i, cols)
    && Trace(s0, rn, i).count[Root] == s0.count[Root] - i
  }

  lemma TracedStep<Item(!new)>(s0: Arena, opts: seq<Opt<Item>>, u: seq<Item>, cols0: seq<seq<nat>>, kc: nat, rn: seq<nat>, i: nat, cols: seq<seq<nat>>)
    returns (cols': seq<seq<nat>>)
    requires CoverSetup(s0, opts, u, cols0, kc, rn) && i < |rn|
    requires Traced(s0, opts, u, cols0, kc, rn, i, cols)
    ensures Traced(s0, opts, u, cols0, kc, rn, i + 1, cols')
  {
    cols' := TraceStep(s0, opts, u, cols0, kc, rn, i, cols);
  }

  /** The invariant after any number of rows. */
  lemma TraceInv<Item(!new)>(s0: Arena, opts: seq<Opt<Item>>, u: seq<Item>, cols0: seq<seq<nat>>, kc: nat, rn: seq<nat>, i: nat)
    returns (cols: seq<seq<nat>>)
    requires CoverSetup(s0, opts, u, cols0, kc, rn) && i <= |rn|
    ensures TraceAt(Trace(s0, rn, i), opts, u, cols0, kc, i, cols)
    ensures Trace(s0, rn, i).count[Root] == s0.count[Root] - i
  {
    cols := cols0;
    TraceBase(s0, opts, u, cols0, kc, rn);
    var k := 0;
    while k < i
      invariant k <= i
      invariant Traced(s0, opts, u, cols0, kc, rn, k, cols)
    {
      cols := TracedStep(s0, opts, u, cols0, kc, rn, k, cols);
      k := k + 1;
    }
  }

  // ---------------------------------------------------------------------------
  // The two row loops follow the trace
  // ---------------------------------------------------------------------------

  /** A column header links down to the column's first node and up to its last. */
  lemma HeaderEnds(a: Arena, h: nat, xs: seq<nat>)
    requires VRing(a, h, xs)
    ensures h < |a.down| && h < |a.up|
    ensures a.down[h] == (if xs == [] then h else xs[0])
    ensures a.up[h] == (if xs == [] then h else xs[|xs| - 1])
  {
    if xs != [] {
      assert Reverse(xs)[0] == xs[|xs| - 1];
    }
  }

  /** The column ring of `kc` is the same in every state of the trace. */
  lemma TraceColumn<Item(!new)>(s0: Arena, opts: seq<Opt<Item>>, u: seq<Item>, cols0: seq<seq<nat>>, kc: nat, rn: seq<nat>, i: nat)
    requires CoverSetup(s0, opts, u, cols0, kc, rn) && i <= |rn|
    ensures Hdr(kc) < Size(s0)
    ensures VRing(Trace(s0, rn, i), Hdr(kc), rn)
    ensures forall m :: 0 <= m < |rn| ==> rn[m] != Hdr(kc)
  {
    var cols := TraceInv(s0, opts, u, cols0, kc, rn, i);
    assert ColumnOK(Trace(s0, rn, i), opts, u, kc, cols[kc]);
    ColNodeCol(s0, opts, u, kc, cols0[kc]);
  }

  /** One turn of cover's row loop. */
  lemma CoverRowsUnfold(a: Arena, c: nat, row: nat, fuel: nat)
    requires Valid(a) && c < Size(a) && row < Size(a) && row != c && fuel > 0
    ensures CoverRows(a, c, row, fuel) == CoverRows(RowStep(a, row), c, RowStep(a, row).down[row], fuel - 1)
  {
  }

  lemma CoverRowsStop(a: Arena, c: nat, fuel: nat)
    requires Valid(a) && c < Size(a)
    ensures CoverRows(a, c, c, fuel) == a
  {
  }

  lemma UncoverRowsStop(a: Arena, c: nat, fuel: nat)
    requires Valid(a) && c < Size(a)
    ensures UncoverRows(a, c, c, fuel) == a
  {
  }

  /** One turn of uncover's row loop. */
  lemma UncoverRowsUnfold(a: Arena, c: nat, row: nat, fuel: nat)
    requires Valid(a) && c < Size(a) && row < Size(a) && row != c && fuel > 0
    ensures UncoverRows(a, c, row, fuel) == UncoverRows(RowBack(a, row), c, RowBack(a, row).up[row], fuel - 1)
  {
  }

  lemma TraceUnfold(s0: Arena, rn: seq<nat>, i: nat)
    requires Valid(s0) && InArena(s0, rn) && i < |rn|
    ensures Trace(s0, rn, i + 1) == RowStep(Trace(s0, rn, i), rn[i])
  {
  }

  /** The links of the covered column's nodes in each state of the trace. */
  lemma TraceLinks<Item(!new)>(s0: Arena, opts: seq<Opt<Item>>, u: seq<Item>, cols0: seq<seq<nat>>, kc: nat, rn: seq<nat>, m: nat)
    requires CoverSetup(s0, opts, u, cols0, kc, rn) && m < |rn|
    ensures Hdr(kc) < Size(s0) && rn[m] != Hdr(kc)
    ensures Trace(s0, rn, m + 1).down[rn[m]] == if m + 1 < |rn| then rn[m + 1] else Hdr(kc)
    ensures Trace(s0, rn, m).up[rn[m]] == if m > 0 then rn[m - 1] else Hdr(kc)
    ensures RowStep(Trace(s0, rn, m), rn[m]) == Trace(s0, rn, m + 1)
    ensures RowBack(Trace(s0, rn, m + 1), rn[m]) == Trace(s0, rn, m)
  {
    TraceColumn(s0, opts, u, cols0, kc, rn, m + 1);
    RingNodeFacts(Trace(s0, rn, m + 1), Hdr(kc), rn, m);
    TraceColumn(s0, opts, u, cols0, kc, rn, m);
    RingNodeFacts(Trace(s0, rn, m), Hdr(kc), rn, m);
    var cols := TraceInv(s0, opts, u, cols0, kc, rn, m);
    var _ := TraceStep(s0, opts, u, cols0, kc, rn, m, cols);
  }

  lemma HeaderInArena<Item(!new)>(s0: Arena, opts: seq<Opt<Item>>, u: seq<Item>, cols0: seq<seq<nat>>, kc: nat, rn: seq<nat>)
    requires CoverSetup(s0, opts, u, cols0, kc, rn)
    ensures Hdr(kc) < Size(s0)
  {
    ColNodeCol(s0, opts, u, kc, cols0[kc]);
  }

  /**
    A chain of states for cover's row loop from row `i` on: each row's
    step leads to the next state, and in that state the link below the
    row is the next row (or the header `c` after the last row).
  */
  ghost predicate CoverChain(ts: seq<Arena>, rn: seq<nat>, c: nat, n: nat, i: nat)
    requires |ts| == |rn| + 1 && i <= |rn|
    decreases |rn| - i
  {
    && Valid(ts[i]) && Size(ts[i]) == n && c < n
    && (i < |rn| ==>
      && rn[i] < n && rn[i] != c
      && RowStep(ts[i], rn[i]) == ts[i + 1]
      && ts[i + 1].down[rn[i]] == (if i + 1 < |rn| then rn[i + 1] else c)
      && CoverChain(ts, rn, c, n, i + 1))
  }

  /** The same chain walked backwards by uncover's row loop, from state `i` down. */
  ghost predicate UncoverChain(ts: seq<Arena>, rn: seq<nat>, c: nat, n: nat, i: nat)
    requires |ts| == |rn| + 1 && i <= |rn|
    decreases i
  {
    && Valid(ts[i]) && Size(ts[i]) == n && c < n
    && (i > 0 ==>
      && rn[i - 1] < n && rn[i - 1] != c
      && RowBack(ts[i], rn[i - 1]) == ts[i - 1]
      && ts[i - 1].up[rn[i - 1]] == (if i > 1 then rn[i - 2] else c)
      && UncoverChain(ts, rn, c, n, i - 1))
  }

  /** Cover's row loop along a chain, started at row `i`, ends in the chain's last state. */
  lemma {:induction false} CoverRowsChain(ts: seq<Arena>, rn: seq<nat>, c: nat, n: nat, i: nat, fuel: nat)
    requires |ts| == |rn| + 1 && i <= |rn| && fuel >= |rn| - i
    requires CoverChain(ts, rn, c, n, i)
    ensures c < Size(ts[i]) && (i < |rn| ==> rn[i] < Size(ts[i]))
    ensures CoverRows(ts[i], c, if i < |rn| then rn[i] else c, fuel) == ts[|rn|]
    decreases |rn| - i
  {
    if i < |rn| {
      CoverRowsUnfold(ts[i], c, rn[i], fuel);
      CoverRowsChain(ts, rn, c, n, i + 1, fuel - 1);
    } else {
      CoverRowsStop(ts[i], c, fuel);
    }
  }

  /** Uncover's row loop along a chain, started at state `i`, ends in the chain's first state. */
  lemma {:induction false} UncoverRowsChain(ts: seq<Arena>, rn: seq<nat>, c: nat, n: nat, i: nat, fuel: nat)
    requires |ts| == |rn| + 1 && i <= |rn| && fuel >= i
    requires UncoverChain(ts, rn, c, n, i)
    ensures c < Size(ts[i]) && (i > 0 ==> rn[i - 1] < Size(ts[i]))
    ensures UncoverRows(ts[i], c, if i > 0 then rn[i - 1] else c, fuel) == ts[0]
    decreases i
  {
    if i > 0 {
      UncoverRowsUnfold(ts[i], c, rn[i - 1], fuel);
      UncoverRowsChain(ts, rn, c, n, i - 1, fuel - 1);
    } else {
      UncoverRowsStop(ts[i], c, fuel);
    }
  }

  /** The states of the trace, as a sequence. */
  function Traces(s0: Arena, rn: seq<nat>): (ts: seq<Arena>)
    requires Valid(s0) && InArena(s0, rn)
    ensures |ts| == |rn| + 1 && forall m :: 0 <= m <= |rn| ==> ts[m] == Trace(s0, rn, m)
  {
    seq(|rn| + 1, m requires 0 <= m <= |rn| => Trace(s0, rn, m))
  }

  /** The trace is a chain for cover's row loop from row `|rn| - k` on. */
  lemma {:induction false} CoverChainFrom<Item(!new)>(s0: Arena, opts: seq<Opt<Item>>, u: seq<Item>, cols0: seq<seq<nat>>, kc: nat, rn: seq<nat>, ts: seq<Arena>, k: nat)
    requires CoverSetup(s0, opts, u, cols0, kc, rn) && k <= |rn|
    requires ts == Traces(s0, rn)
    ensures CoverChain(ts, rn, Hdr(kc), Size(s0), |rn| - k)
    decreases k
  {
    HeaderInArena(s0, opts, u, cols0, kc, rn);
    if k > 0 {
      TraceLinks(s0, opts, u, cols0, kc, rn, |rn| - k);
      CoverChainFrom(s0, opts, u, cols0, kc, rn, ts, k - 1);
    }
  }

  /** The trace is a chain for uncover's row loop from state `i` down. */
  lemma {:induction false} UncoverChainUpTo<Item(!new)>(s0: Arena, opts: seq<Opt<Item>>, u: seq<Item>, cols0: seq<seq<nat>>, kc: nat, rn: seq<nat>, ts: seq<Arena>, i: nat)
    requires CoverSetup(s0, opts, u, cols0, kc, rn) && i <= |rn|
    requires ts == Traces(s0, rn)
    ensures UncoverChain(ts, rn, Hdr(kc), Size(s0), i)
    decreases i
  {
    HeaderInArena(s0, opts, u, cols0, kc, rn);
    if i > 0 {
      TraceLinks(s0, opts, u, cols0, kc, rn, i - 1);
      UncoverChainUpTo(s0, opts, u, cols0, kc, rn, ts, i - 1);
    }
  }

  /**
    Cover's row loop, from the first row of the column, ends in the state
    after all rows; uncover's row loop, from the last row, walks back to
    the state before the first.
  */
  lemma RowLoops<Item(!new)>(s0: Arena, opts: seq<Opt<Item>>, u: seq<Item>, cols0: seq<seq<nat>>, kc: nat, rn: seq<nat>, fuel: nat)
    requires CoverSetup(s0, opts, u, cols0, kc, rn) && fuel >= |rn|
    ensures Hdr(kc) < Size(s0)
    ensures CoverRows(s0, Hdr(kc), if 0 < |rn| then rn[0] else Hdr(kc), fuel) == Trace(s0, rn, |rn|)
    ensures UncoverRows(Trace(s0, rn, |rn|), Hdr(kc), if |rn| > 0 then rn[|rn| - 1] else Hdr(kc), fuel) == s0
  {
    HeaderInArena(s0, opts, u, cols0, kc, rn);
    var ts := Traces(s0, rn);
    CoverChainFrom(s0, opts, u, cols0, kc, rn, ts, |rn|);
    UncoverChainUpTo(s0, opts, u, cols0, kc, rn, ts, |rn|);
    CoverRowsChain(ts, rn, Hdr(kc), Size(s0), 0, fuel);
    UncoverRowsChain(ts, rn, Hdr(kc), Size(s0), |rn|, fuel);
  }
}
