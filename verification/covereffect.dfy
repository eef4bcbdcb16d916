/**
  The effect of cover and uncover (src/dancinglinks.js) on the encoded
  state. Covering the column of an uncovered item `d` in an arena that
  encodes the covered items `cov` gives an arena that encodes `cov + [d]`:
  the header ring no longer lists `d`, every other column has lost the
  options that contain `d`, `d`'s own column is left as it was, and the
  root counts the options still live. Uncovering the same node right away
  gives back the arena exactly.
*/
module CoverEffect {
  import opened Seqs
  import opened Rings
  import opened Problem
  import opened AlgorithmX
  import opened Links
  import opened Layout
  import opened Covering
  import opened CoverState

  // ---------------------------------------------------------------------------
  // The header ring
  // ---------------------------------------------------------------------------

  lemma HdrNodeIn<Item(!new)>(u: seq<Item>, cov: seq<Item>, z: nat)
    requires NoDup(u) && 1 <= z <= |u| && u[z - 1] !in cov
    ensures z in HdrRing(u, cov)
  {
    var act := Active(u, cov);
    var x := u[z - 1];
    assert x in act;
    var t :| 0 <= t < |act| && act[t] == x;
    IndexOfNoDup(u, z - 1);
    assert HdrNodes(u, act)[t] == z;
  }

  lemma HdrNodeOut<Item(!new)>(u: seq<Item>, cov: seq<Item>, z: nat)
    requires z in HdrRing(u, cov)
    ensures 1 <= z <= |u| && u[z - 1] !in cov
  {
    var act := Active(u, cov);
    var hs := HdrNodes(u, act);
    var t :| 0 <= t < |hs| && hs[t] == z;
    var i := IndexOf(u, act[t]);
    assert act[t] in act;
  }

  /** The header ring lists the header of position `k` exactly when `u[k]` is uncovered. */
  lemma HdrRingMembers<Item(!new)>(u: seq<Item>, cov: seq<Item>)
    requires NoDup(u)
    ensures forall z: nat :: z in HdrRing(u, cov) <==> 1 <= z <= |u| && u[z - 1] !in cov
  {
    forall z: nat ensures z in HdrRing(u, cov) <==> 1 <= z <= |u| && u[z - 1] !in cov {
      if z in HdrRing(u, cov) {
        HdrNodeOut(u, cov, z);
      }
      if 1 <= z <= |u| && u[z - 1] !in cov {
        HdrNodeIn(u, cov, z);
      }
    }
  }

  /** The uncovered items keep the order they have in the universe. */
  lemma ActiveOrder<Item(!new)>(u: seq<Item>, cov: seq<Item>, t: nat, t': nat)
    requires NoDup(u) && t < t' < |Active(u, cov)|
    ensures IndexOf(u, Active(u, cov)[t]) < IndexOf(u, Active(u, cov)[t'])
  {
    FilterOrder(x => x !in cov, u, t, t');
  }

  /** The header ring lists the uncovered headers in universe order. */
  lemma HdrRingIncreasing<Item(!new)>(u: seq<Item>, cov: seq<Item>)
    requires NoDup(u)
    ensures Increasing(HdrRing(u, cov))
  {
    var act := Active(u, cov);
    var hs := HdrRing(u, cov);
    forall t, t' | 0 <= t < t' < |hs| ensures hs[t] < hs[t'] {
      ActiveOrder(u, cov, t, t');
    }
  }

  lemma HdrCoverMembers<Item(!new)>(u: seq<Item>, cov: seq<Item>, kd: nat, z: nat)
    requires NoDup(u) && kd < |u| && u[kd] !in cov
    ensures z in HdrRing(u, cov + [u[kd]]) <==> z in HdrRing(u, cov) && z != Hdr(kd)
  {
    HdrRingMembers(u, cov);
    HdrRingMembers(u, cov + [u[kd]]);
    if 1 <= z <= |u| {
      assert u[z - 1] == u[kd] <==> z == Hdr(kd);
    }
  }

  /** Covering `u[kd]` removes exactly its header from the header ring. */
  lemma HdrPosition<Item(!new)>(u: seq<Item>, cov: seq<Item>, kd: nat) returns (p: nat)
    requires NoDup(u) && kd < |u| && u[kd] !in cov
    ensures var hs := HdrRing(u, cov);
      && p < |hs| && hs[p] == Hdr(kd)
      && HdrRing(u, cov + [u[kd]]) == hs[..p] + hs[p + 1..]
  {
    var hs := HdrRing(u, cov);
    var hs' := HdrRing(u, cov + [u[kd]]);
    HdrNodeIn(u, cov, Hdr(kd));
    p :| 0 <= p < |hs| && hs[p] == Hdr(kd);
    HdrRingIncreasing(u, cov);
    HdrRingIncreasing(u, cov + [u[kd]]);
    IncreasingRemove(hs, p);
    forall z ensures z in hs' <==> z in hs[..p] + hs[p + 1..] {
      HdrCoverMembers(u, cov, kd, z);
    }
    IncreasingUnique(hs', hs[..p] + hs[p + 1..]);
  }

  /** Every header in the header ring is a column header. */
  lemma HdrRingBound<Item(!new)>(u: seq<Item>, cov: seq<Item>)
    requires NoDup(u)
    ensures forall t :: 0 <= t < |HdrRing(u, cov)| ==> 1 <= HdrRing(u, cov)[t] <= |u|
  {
    HdrRingMembers(u, cov);
    var hs := HdrRing(u, cov);
    forall t | 0 <= t < |hs| ensures 1 <= hs[t] <= |u| {
      assert hs[t] in hs;
    }
  }

  // ---------------------------------------------------------------------------
  // The columns and the live options
  // ---------------------------------------------------------------------------

  lemma CoveredBeforeSelf<Item>(cov: seq<Item>, d: Item)
    requires d !in cov
    ensures CoveredBefore(cov + [d], d) == cov
  {
    IndexOfAppend(cov, d);
    assert (cov + [d])[..|cov|] == cov;
  }

  lemma {:induction false} IndexOfAppend<T>(s: seq<T>, d: T)
    requires d !in s
    ensures IndexOf(s + [d], d) == |s|
    decreases |s|
  {
    if s != [] {
      assert (s + [d])[1..] == s[1..] + [d];
      IndexOfAppend(s[1..], d);
    }
  }

  lemma {:induction false} IndexOfPrefix<T>(s: seq<T>, d: T, c: T)
    requires c in s
    ensures IndexOf(s + [d], c) == IndexOf(s, c)
    decreases |s|
  {
    if s[0] != c {
      assert (s + [d])[1..] == s[1..] + [d];
      IndexOfPrefix(s[1..], d, c);
    }
  }

  lemma CoveredBeforeEarlier<Item>(cov: seq<Item>, d: Item, c: Item)
    requires c in cov
    ensures CoveredBefore(cov + [d], c) == CoveredBefore(cov, c)
  {
    IndexOfPrefix(cov, d, c);
    var i := IndexOf(cov, c);
    assert (cov + [d])[..i] == cov[..i];
  }

  /**
    The columns after covering `u[kd]`: `kd`'s own column and the columns of
    covered items keep their rows, the other columns lose the options that
    contain `u[kd]`.
  */
  lemma ColsAfterCover<Item(!new)>(opts: seq<Opt<Item>>, u: seq<Item>, cov: seq<Item>, kd: nat, cols: seq<seq<nat>>)
    requires Shape(opts, u) && kd < |u| && u[kd] !in cov && |cols| == |u|
    requires forall k :: 0 <= k < |u| ==> Increasing(cols[k])
    requires forall k, y {:trigger y in cols[k]} :: 0 <= k < |u| ==>
      (y in cols[k] <==> y in ColsFor(opts, u, cov)[k] && (k == kd || y !in ColsFor(opts, u, cov)[kd]))
    ensures cols == ColsFor(opts, u, cov + [u[kd]])
  {
    var d := u[kd];
    var cols0 := ColsFor(opts, u, cov);
    var cols' := ColsFor(opts, u, cov + [d]);
    forall k | 0 <= k < |u| ensures cols[k] == cols'[k] {
      var e := u[k];
      if k == kd {
        CoveredBeforeSelf(cov, d);
      } else if e in cov {
        CoveredBeforeEarlier(cov, d, e);
      } else {
        assert e != d;
      }
      assert forall y :: y in cols[k] <==> y in cols'[k];
      IncreasingUnique(cols[k], cols'[k]);
    }
  }

  /** Covering `d` takes the options containing `d` out of the live ones. */
  lemma LiveSetCover<Item(!new)>(opts: seq<Opt<Item>>, cov: seq<Item>, d: Item)
    requires d !in cov
    ensures |LiveSet(opts, cov + [d])| == |LiveSet(opts, cov)| - |Rows(opts, cov, d)|
  {
    var r := Rows(opts, cov, d);
    var before := LiveSet(opts, cov);
    var after := LiveSet(opts, cov + [d]);
    assert after == before - ToSet(r);
    assert ToSet(r) <= before;
    NoDupCard(r);
    assert |before - ToSet(r)| == |before| - |ToSet(r)|;
  }

  // ---------------------------------------------------------------------------
  // From the encoded state to the start of cover's row loop
  // ---------------------------------------------------------------------------

  lemma HRingFrame(a: Arena, b: Arena, h: nat, xs: seq<nat>)
    requires HRing(a, h, xs)
    requires |b.left| == |a.left| && |b.right| == |a.right|
    requires b.right[h] == a.right[h] && b.left[h] == a.left[h]
    requires forall i :: 0 <= i < |xs| ==> b.right[xs[i]] == a.right[xs[i]] && b.left[xs[i]] == a.left[xs[i]]
    ensures HRing(b, h, xs)
  {
    RingFrame(a.right, b.right, h, xs);
    var rs := Reverse(xs);
    forall i | 0 <= i < |rs| ensures b.left[rs[i]] == a.left[rs[i]] {
      assert rs[i] == xs[|xs| - 1 - i];
    }
    RingFrame(a.left, b.left, h, rs);
  }

  lemma RowRingFrame<Item>(a: Arena, b: Arena, opts: seq<Opt<Item>>, n: nat, j: nat, p: nat)
    requires j < |opts| && p < |opts[j].items|
    requires HRing(a, NodeOf(opts, n, j, p), RowPeers(opts, n, j, p))
    requires |b.left| == |a.left| && |b.right| == |a.right|
    requires forall z :: 1 + n <= z < |a.right| ==> b.right[z] == a.right[z] && b.left[z] == a.left[z]
    ensures HRing(b, NodeOf(opts, n, j, p), RowPeers(opts, n, j, p))
  {
    var h := NodeOf(opts, n, j, p);
    var xs := RowPeers(opts, n, j, p);
    forall i | 0 <= i < |xs| ensures b.right[xs[i]] == a.right[xs[i]] && b.left[xs[i]] == a.left[xs[i]] {
      assert xs[i] == PeerNode(opts, n, j, p, i);
    }
    HRingFrame(a, b, h, xs);
  }

  /** The rings of the options survive any change of horizontal links at the root and the headers. */
  lemma StaticHeaderFrame<Item(!new)>(a: Arena, b: Arena, opts: seq<Opt<Item>>, u: seq<Item>)
    requires Shape(opts, u) && Static(a, opts, u)
    requires Valid(b) && Size(b) == Size(a) && b.col == a.col && b.opt == a.opt
    requires forall z :: 1 + |u| <= z < Size(a) ==> b.right[z] == a.right[z] && b.left[z] == a.left[z]
    ensures Static(b, opts, u)
  {
    forall j, p | 0 <= j < |opts| && 0 <= p < |opts[j].items|
      ensures HRing(b, NodeOf(opts, |u|, j, p), RowPeers(opts, |u|, j, p))
    {
      RowRingFrame(a, b, opts, |u|, j, p);
    }
  }

  /** Each row of an uncovered item's column is in the columns of all its other items. */
  lemma SpreadFromRep<Item(!new)>(opts: seq<Opt<Item>>, u: seq<Item>, cov: seq<Item>, kd: nat)
    requires Shape(opts, u) && kd < |u| && u[kd] !in cov
    ensures InColumn(opts, u, kd, ColsFor(opts, u, cov)[kd])
    ensures RowsSpread(opts, u, ColsFor(opts, u, cov), kd)
  {
    var cols0 := ColsFor(opts, u, cov);
    var rows := cols0[kd];
    forall m, q | 0 <= m < |rows| && 0 <= q < |opts[rows[m]].items| && opts[rows[m]].items[q] != u[kd]
      ensures rows[m] in cols0[IndexOf(u, opts[rows[m]].items[q])]
    {
      var e := opts[rows[m]].items[q];
      var k := IndexOf(u, e);
      assert e !in cov;
    }
  }

  /**
    Unlinking the node at position `p` of the header ring takes it out of
    the ring and changes links only at nodes below `bound`, when the whole
    ring lies below it.
  */
  lemma HeaderUnlink(a: Arena, hs: seq<nat>, p: nat, bound: nat)
    requires Valid(a) && HRing(a, Root, hs) && p < |hs| && Root < bound
    requires forall t :: 0 <= t < |hs| ==> hs[t] < bound
    ensures hs[p] < Size(a) && HLinked(a, hs[p])
    ensures HRing(RemoveH(a, hs[p]), Root, hs[..p] + hs[p + 1..])
    ensures forall z :: bound <= z < Size(a) ==>
      RemoveH(a, hs[p]).right[z] == a.right[z] && RemoveH(a, hs[p]).left[z] == a.left[z]
  {
    DRingNeighbours(a.right, a.left, Root, hs, p);
    RemoveHRing(a, Root, hs, p);
  }

  /** Unlinking the header of uncovered `u[kd]`, as cover does first, in terms of the header ring. */
  lemma HeaderCover<Item(!new)>(a: Arena, u: seq<Item>, cov: seq<Item>, kd: nat)
    requires Valid(a) && NoDup(u) && kd < |u| && u[kd] !in cov
    requires HRing(a, Root, HdrRing(u, cov))
    ensures Hdr(kd) < Size(a) && HLinked(a, Hdr(kd))
    ensures HRing(RemoveH(a, Hdr(kd)), Root, HdrRing(u, cov + [u[kd]]))
    ensures forall z :: 1 + |u| <= z < Size(a) ==>
      RemoveH(a, Hdr(kd)).right[z] == a.right[z] && RemoveH(a, Hdr(kd)).left[z] == a.left[z]
  {
    var p := HdrPosition(u, cov, kd);
    HdrRingBound(u, cov);
    HeaderUnlink(a, HdrRing(u, cov), p, 1 + |u|);
  }

  /**
    Removing the header of uncovered `u[kd]` from the header ring of an
    encoded state gives the start of cover's row loop: the header ring
    without `u[kd]`, the columns as before, and the column's nodes in place.
  */
  lemma CoverStart<Item(!new)>(a: Arena, opts: seq<Opt<Item>>, u: seq<Item>, cov: seq<Item>, kd: nat)
    requires Rep(a, opts, u, cov) && kd < |u| && u[kd] !in cov
    ensures Hdr(kd) < Size(a) && HLinked(a, Hdr(kd))
    ensures var s0 := RemoveH(a, Hdr(kd));
      && HRing(s0, Root, HdrRing(u, cov + [u[kd]]))
      && CoverSetup(s0, opts, u, ColsFor(opts, u, cov), kd, ColNodes(opts, u, kd, ColsFor(opts, u, cov)[kd]))
  {
    HeaderCover(a, u, cov, kd);
    var s0 := RemoveH(a, Hdr(kd));
    var cols0 := ColsFor(opts, u, cov);
    StaticHeaderFrame(a, s0, opts, u);
    ColumnsFrame(a, s0, opts, u, cols0);
    SpreadFromRep(opts, u, cov, kd);
    CoverSetupFrom(s0, opts, u, cols0, kd);
  }

  lemma CoverSetupFrom<Item(!new)>(s0: Arena, opts: seq<Opt<Item>>, u: seq<Item>, cols0: seq<seq<nat>>, kd: nat)
    requires Shape(opts, u) && Static(s0, opts, u) && Columns(s0, opts, u, cols0) && kd < |u|
    requires InColumn(opts, u, kd, cols0[kd]) && RowsSpread(opts, u, cols0, kd)
    ensures CoverSetup(s0, opts, u, cols0, kd, ColNodes(opts, u, kd, cols0[kd]))
  {
    assert ColumnOK(s0, opts, u, kd, cols0[kd]);
  }

  // ---------------------------------------------------------------------------
  // Cover and uncover on an encoded state
  // ---------------------------------------------------------------------------

  /** The nodes of column `kd` while `cov` is covered, top to bottom. */
  function ColumnNodes<Item(==)>(opts: seq<Opt<Item>>, u: seq<Item>, cov: seq<Item>, kd: nat): (r: seq<nat>)
    requires kd < |u|
    ensures |r| == |Rows(opts, CoveredBefore(cov, u[kd]), u[kd])|
  {
    ColNodes(opts, u, kd, ColsFor(opts, u, cov)[kd])
  }

  /**
    cover(x) for a node `x` of uncovered `u[kd]`'s column is the row trace
    after unlinking the header, and uncover(x) right after it restores the
    arena exactly.
  */
  lemma CoverTrace<Item(!new)>(a: Arena, opts: seq<Opt<Item>>, u: seq<Item>, cov: seq<Item>, kd: nat, x: nat)
    requires Rep(a, opts, u, cov) && kd < |u| && u[kd] !in cov
    requires x < Size(a) && a.col[x] == Hdr(kd)
    ensures Hdr(kd) < Size(a)
    ensures CoverSetup(RemoveH(a, Hdr(kd)), opts, u, ColsFor(opts, u, cov), kd, ColumnNodes(opts, u, cov, kd))
    ensures Cover(a, x) == Trace(RemoveH(a, Hdr(kd)), ColumnNodes(opts, u, cov, kd), |ColumnNodes(opts, u, cov, kd)|)
    ensures Uncover(Cover(a, x), x) == a
  {
    var c := Hdr(kd);
    CoverStart(a, opts, u, cov, kd);
    var s0 := RemoveH(a, c);
    var cols0 := ColsFor(opts, u, cov);
    var rn := ColumnNodes(opts, u, cov, kd);
    assert VRing(s0, c, rn);
    HeaderEnds(s0, c, rn);
    RingLength(s0.down, c, rn);
    RowLoops(s0, opts, u, cols0, kd, rn, Size(s0));
    var t := Trace(s0, rn, |rn|);
    assert Cover(a, x) == t;
    TraceColumn(s0, opts, u, cols0, kd, rn, |rn|);
    HeaderEnds(t, c, rn);
    assert Uncover(t, x) == ReinsertH(s0, c);
    HRoundTrip(a, c);
  }

  /** After the whole row loop every column holds what covering `u[kd]` prescribes. */
  lemma TraceDone<Item(!new)>(s0: Arena, opts: seq<Opt<Item>>, u: seq<Item>, cov: seq<Item>, kd: nat)
    requires kd < |u| && u[kd] !in cov
    requires CoverSetup(s0, opts, u, ColsFor(opts, u, cov), kd, ColumnNodes(opts, u, cov, kd))
    ensures var t := Trace(s0, ColumnNodes(opts, u, cov, kd), |ColumnNodes(opts, u, cov, kd)|);
      && Static(t, opts, u)
      && Columns(t, opts, u, ColsFor(opts, u, cov + [u[kd]]))
      && t.count[Root] == s0.count[Root] - |Rows(opts, cov, u[kd])|
  {
    var cols0 := ColsFor(opts, u, cov);
    var rn := ColumnNodes(opts, u, cov, kd);
    var t := Trace(s0, rn, |rn|);
    var cols := TraceInv(s0, opts, u, cols0, kd, rn, |rn|);
    FullTraceCols(t, opts, u, cov, kd, cols);
  }

  /** When every row of column `kd` has been unlinked, the columns are those of `cov + [u[kd]]`. */
  lemma FullTraceCols<Item(!new)>(t: Arena, opts: seq<Opt<Item>>, u: seq<Item>, cov: seq<Item>, kd: nat, cols: seq<seq<nat>>)
    requires Shape(opts, u) && kd < |u| && u[kd] !in cov
    requires TraceAt(t, opts, u, ColsFor(opts, u, cov), kd, |ColsFor(opts, u, cov)[kd]|, cols)
    ensures cols == ColsFor(opts, u, cov + [u[kd]])
    ensures Static(t, opts, u) && Columns(t, opts, u, cols)
  {
    var cols0 := ColsFor(opts, u, cov);
    assert cols0[kd][..|cols0[kd]|] == cols0[kd];
    forall k | 0 <= k < |u| ensures Increasing(cols[k]) {
      assert ColumnOK(t, opts, u, k, cols[k]);
    }
    ColsAfterCover(opts, u, cov, kd, cols);
  }

  /**
    Covering the column of uncovered `u[kd]` through any node `x` of it
    turns an arena encoding `cov` into one encoding `cov + [u[kd]]`, and
    uncovering `x` right after gives the arena back.
  */
  lemma CoverKeepsRep<Item(!new)>(a: Arena, opts: seq<Opt<Item>>, u: seq<Item>, cov: seq<Item>, kd: nat, x: nat)
    requires Rep(a, opts, u, cov) && kd < |u| && u[kd] !in cov
    requires x < Size(a) && a.col[x] == Hdr(kd)
    ensures Rep(Cover(a, x), opts, u, cov + [u[kd]])
    ensures Uncover(Cover(a, x), x) == a
  {
    var d := u[kd];
    var s0 := RemoveH(a, Hdr(kd));
    var rn := ColumnNodes(opts, u, cov, kd);
    assert Hdr(kd) < Size(a);
    assert && CoverSetup(s0, opts, u, ColsFor(opts, u, cov), kd, rn)
           && Cover(a, x) == Trace(s0, rn, |rn|)
           && Uncover(Cover(a, x), x) == a
    by {
      CoverTrace(a, opts, u, cov, kd, x);
    }
    var t := Cover(a, x);
    assert && Static(t, opts, u)
           && Columns(t, opts, u, ColsFor(opts, u, cov + [d]))
           && t.count[Root] == s0.count[Root] - |Rows(opts, cov, d)|
    by {
      TraceDone(s0, opts, u, cov, kd);
    }
    assert HRing(t, Root, HdrRing(u, cov + [d])) by {
      HeaderCover(a, u, cov, kd);
    }
    assert t.count[Root] == |LiveSet(opts, cov + [d])| by {
      LiveSetCover(opts, cov, d);
    }
    NoDupSnoc(cov, d);
  }

  lemma NoDupSnoc<T>(xs: seq<T>, d: T)
    requires NoDup(xs) && d !in xs
    ensures NoDup(xs + [d])
  {
  }
}
