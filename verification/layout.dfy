/**
  Where each node of the structure built by solve() in src/dancinglinks.js
  lives in the arena, and what the links encode. Node 0 is the root, nodes
  1 to n are the column headers in universe order, then come the nodes of
  each option, one per item, option after option.

  The representation invariant Rep says that the arena holds exactly the
  abstract state of module AlgorithmX: the header ring lists the uncovered
  items, each column ring lists its rows in option order, and every count
  is right.
*/
module Layout {
  import opened Seqs
  import opened Rings
  import opened Problem
  import opened AlgorithmX
  import opened Links

  /** Options over a duplicate-free universe `u`, none listing an item twice. */
  predicate Shape<Item(==,!new)>(opts: seq<Opt<Item>>, u: seq<Item>)
  {
    && NoDup(u)
    && (forall j :: 0 <= j < |opts| ==> NoDup(opts[j].items))
    && (forall j, x :: 0 <= j < |opts| && x in opts[j].items ==> x in u)
  }

  /** The header of the column of universe position `k`. */
  function Hdr(k: nat): nat
  {
    1 + k
  }

  /** The first node of option `j`, with `n` columns. */
  function Base<Item>(opts: seq<Opt<Item>>, n: nat, j: nat): (b: nat)
    requires j <= |opts|
    ensures b >= 1 + n
  {
    if j == 0 then 1 + n else Base(opts, n, j - 1) + |opts[j - 1].items|
  }

  lemma {:induction false} BaseMono<Item>(opts: seq<Opt<Item>>, n: nat, j: nat, j': nat)
    requires j < j' <= |opts|
    ensures Base(opts, n, j) + |opts[j].items| <= Base(opts, n, j')
    decreases j' - j
  {
    if j + 1 < j' {
      BaseMono(opts, n, j + 1, j');
    }
  }

  /** The number of nodes. */
  function Total<Item>(opts: seq<Opt<Item>>, n: nat): nat
  {
    Base(opts, n, |opts|)
  }

  /** The node of item position `p` of option `j`. */
  function NodeOf<Item>(opts: seq<Opt<Item>>, n: nat, j: nat, p: nat): (x: nat)
    requires j < |opts| && p < |opts[j].items|
    ensures 1 + n <= x < Total(opts, n)
  {
    BaseMono(opts, n, j, |opts|);
    Base(opts, n, j) + p
  }

  /** Different item positions have different nodes. */
  lemma NodeInjective<Item>(opts: seq<Opt<Item>>, n: nat, j: nat, p: nat, j': nat, p': nat)
    requires j < |opts| && p < |opts[j].items|
    requires j' < |opts| && p' < |opts[j'].items|
    requires NodeOf(opts, n, j, p) == NodeOf(opts, n, j', p')
    ensures j == j' && p == p'
  {
    if j < j' { BaseMono(opts, n, j, j'); }
    if j' < j { BaseMono(opts, n, j', j); }
  }

  /** The node `t + 1` places to the right of position `p`, cyclically. */
  function PeerNode<Item>(opts: seq<Opt<Item>>, n: nat, j: nat, p: nat, t: nat): nat
    requires j < |opts| && p < |opts[j].items|
  {
    NodeOf(opts, n, j, (p + 1 + t) % |opts[j].items|)
  }

  /** The nodes met walking right from the node of position `p`, before coming back to it. */
  function RowPeers<Item>(opts: seq<Opt<Item>>, n: nat, j: nat, p: nat): (r: seq<nat>)
    requires j < |opts| && p < |opts[j].items|
    ensures |r| == |opts[j].items| - 1
  {
    seq(|opts[j].items| - 1, t requires 0 <= t < |opts[j].items| - 1 => PeerNode(opts, n, j, p, t))
  }

  /** The nodes of column `k` for the options `rows` (each containing the item), top to bottom. */
  function ColNodes<Item(==)>(opts: seq<Opt<Item>>, u: seq<Item>, k: nat, rows: seq<nat>): (r: seq<nat>)
    requires k < |u|
    requires forall i :: 0 <= i < |rows| ==> rows[i] < |opts| && u[k] in opts[rows[i]].items
    ensures |r| == |rows|
    ensures forall i :: 0 <= i < |rows| ==>
      r[i] == NodeOf(opts, |u|, rows[i], IndexOf(opts[rows[i]].items, u[k]))
  {
    seq(|rows|, i requires 0 <= i < |rows| => NodeOf(opts, |u|, rows[i], IndexOf(opts[rows[i]].items, u[k])))
  }

  /** The header nodes of the items `act`, in order. */
  function HdrNodes<Item(==)>(u: seq<Item>, act: seq<Item>): (r: seq<nat>)
    requires forall i :: 0 <= i < |act| ==> act[i] in u
    ensures |r| == |act|
    ensures forall i :: 0 <= i < |act| ==> r[i] == Hdr(IndexOf(u, act[i]))
  {
    seq(|act|, i requires 0 <= i < |act| => Hdr(IndexOf(u, act[i])))
  }

  /** The header ring's nodes while `cov` is covered: the uncovered items' headers in universe order. */
  function HdrRing<Item(==,!new)>(u: seq<Item>, cov: seq<Item>): seq<nat>
  {
    HdrNodes(u, Active(u, cov))
  }

  /**
    What never changes after construction: sizes, the column and option of
    every node, and the ring of each option (walking right from any of its
    nodes meets the option's other nodes in cyclic order).
  */
  predicate Static<Item(==,!new)>(a: Arena, opts: seq<Opt<Item>>, u: seq<Item>)
    requires Shape(opts, u)
  {
    && Valid(a) && Size(a) == Total(opts, |u|)
    && a.col[Root] == Root
    && (forall k :: 0 <= k < |u| ==> a.col[Hdr(k)] == Hdr(k))
    && (forall j, p :: 0 <= j < |opts| && 0 <= p < |opts[j].items| ==>
          && a.col[NodeOf(opts, |u|, j, p)] == Hdr(IndexOf(u, opts[j].items[p]))
          && a.opt[NodeOf(opts, |u|, j, p)] == j
          && HRing(a, NodeOf(opts, |u|, j, p), RowPeers(opts, |u|, j, p)))
  }

  /** Column `k` holds exactly the options `rows`, strictly increasing, and counts them. */
  predicate ColumnOK<Item(==,!new)>(a: Arena, opts: seq<Opt<Item>>, u: seq<Item>, k: nat, rows: seq<nat>)
    requires k < |u|
  {
    && Increasing(rows)
    && (forall i :: 0 <= i < |rows| ==> rows[i] < |opts| && u[k] in opts[rows[i]].items)
    && VRing(a, Hdr(k), ColNodes(opts, u, k, rows))
    && Hdr(k) < |a.count| && a.count[Hdr(k)] == |rows|
  }

  /** Every column `k` holds the options `cols[k]`. */
  predicate Columns<Item(==,!new)>(a: Arena, opts: seq<Opt<Item>>, u: seq<Item>, cols: seq<seq<nat>>)
  {
    |cols| == |u| && forall k :: 0 <= k < |u| ==> ColumnOK(a, opts, u, k, cols[k])
  }

  /** The column contents the abstract state prescribes: rows live when the column was last uncovered. */
  function ColsFor<Item(==)>(opts: seq<Opt<Item>>, u: seq<Item>, cov: seq<Item>): (r: seq<seq<nat>>)
    ensures |r| == |u|
    ensures forall k :: 0 <= k < |u| ==> r[k] == Rows(opts, CoveredBefore(cov, u[k]), u[k])
  {
    seq(|u|, k requires 0 <= k < |u| => Rows(opts, CoveredBefore(cov, u[k]), u[k]))
  }

  /** The live options: the root's row count. */
  function LiveSet<Item(==)>(opts: seq<Opt<Item>>, cov: seq<Item>): set<nat>
  {
    set j | 0 <= j < |opts| && Live(opts[j], cov)
  }

  /**
    The arena encodes the state in which the items `cov` are covered, in
    that order: the header ring lists the uncovered items in universe order,
    every column holds the rows live when it was last uncovered, and the
    root counts the live options.
  */
  predicate Rep<Item(==,!new)>(a: Arena, opts: seq<Opt<Item>>, u: seq<Item>, cov: seq<Item>)
  {
    && Shape(opts, u)
    && NoDup(cov) && (forall x :: x in cov ==> x in u)
    && Static(a, opts, u)
    && HRing(a, Root, HdrRing(u, cov))
    && Columns(a, opts, u, ColsFor(opts, u, cov))
    && a.count[Root] == |LiveSet(opts, cov)|
  }

  /** Every node of column `k`'s ring, and its header, belong to column `k`. */
  lemma ColNodeCol<Item(!new)>(a: Arena, opts: seq<Opt<Item>>, u: seq<Item>, k: nat, rows: seq<nat>)
    requires Shape(opts, u) && Static(a, opts, u) && k < |u|
    requires forall i :: 0 <= i < |rows| ==> rows[i] < |opts| && u[k] in opts[rows[i]].items
    ensures Hdr(k) < Size(a) && a.col[Hdr(k)] == Hdr(k)
    ensures forall i :: 0 <= i < |rows| ==> a.col[ColNodes(opts, u, k, rows)[i]] == Hdr(k)
  {
    IndexOfNoDup(u, k);
    assert Hdr(k) < Size(a) by { assert Total(opts, |u|) >= 1 + |u|; }
    forall i | 0 <= i < |rows| ensures a.col[ColNodes(opts, u, k, rows)[i]] == Hdr(k) {
      var j := rows[i];
      var p := IndexOf(opts[j].items, u[k]);
      assert a.col[NodeOf(opts, |u|, j, p)] == Hdr(IndexOf(u, opts[j].items[p]));
    }
  }

  /** Static facts survive any change that keeps the horizontal links, columns and options. */
  lemma StaticFrame<Item(!new)>(a: Arena, b: Arena, opts: seq<Opt<Item>>, u: seq<Item>)
    requires Shape(opts, u) && Static(a, opts, u)
    requires Valid(b) && Size(b) == Size(a)
    requires b.left == a.left && b.right == a.right && b.col == a.col && b.opt == a.opt
    ensures Static(b, opts, u)
  {
    forall j, p | 0 <= j < |opts| && 0 <= p < |opts[j].items|
      ensures HRing(b, NodeOf(opts, |u|, j, p), RowPeers(opts, |u|, j, p))
    {
      assert HRing(a, NodeOf(opts, |u|, j, p), RowPeers(opts, |u|, j, p));
    }
  }
}
