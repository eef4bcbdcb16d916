/**
  cover and uncover of src/dancinglinks.js on the arena, loop for loop, and
  what they do to the encoded state: covering a column removes it from the
  header ring and every other node of each of its rows from that node's
  column; uncovering puts every link and count back as it was.

  The loops of the source stop when they come back to where they started;
  here each also carries a bound (the arena size) so that it terminates on
  any arena. On arenas that encode a state the bound is never reached.
*/
module Covering {
  import opened Seqs
  import opened Rings
  import opened Problem
  import opened AlgorithmX
  import opened Links
  import opened Layout

  /** Adds `delta` to the root's row count (`column.header.rowCount`). */
  function RootAdd(a: Arena, delta: int): (r: Arena)
    requires Valid(a)
    ensures Valid(r) && Size(r) == Size(a)
    ensures r.left == a.left && r.right == a.right && r.up == a.up && r.down == a.down
    ensures r.col == a.col && r.opt == a.opt
  {
    a.(count := a.count[Root := a.count[Root] + delta])
  }

  /** `for (peer = row.right; peer !== row; peer = peer.right) peer.removeVertically()` */
  function UnlinkPeers(a: Arena, row: nat, peer: nat, fuel: nat): (r: Arena)
    requires Valid(a) && row < Size(a) && peer < Size(a)
    ensures Valid(r) && Size(r) == Size(a)
    ensures r.left == a.left && r.right == a.right && r.col == a.col && r.opt == a.opt
    decreases fuel
  {
    if fuel == 0 || peer == row then a
    else
      var b := RemoveV(a, peer);
      UnlinkPeers(b, row, b.right[peer], fuel - 1)
  }

  /** The row loop of cover: for each row below the column, lower the root count and unlink the row's other nodes. */
  function CoverRows(a: Arena, c: nat, row: nat, fuel: nat): (r: Arena)
    requires Valid(a) && c < Size(a) && row < Size(a)
    ensures Valid(r) && Size(r) == Size(a)
    ensures r.left == a.left && r.right == a.right && r.col == a.col && r.opt == a.opt
    decreases fuel
  {
    if fuel == 0 || row == c then a
    else
      var b := RootAdd(a, -1);
      var d := UnlinkPeers(b, row, b.right[row], Size(b));
      CoverRows(d, c, d.down[row], fuel - 1)
  }

  /** cover(node): unlink the node's column from the header ring, then its rows from the other columns. */
  function Cover(a: Arena, x: nat): (r: Arena)
    requires Valid(a) && x < Size(a)
    ensures Valid(r) && Size(r) == Size(a)
    ensures r.col == a.col && r.opt == a.opt
  {
    var c := a.col[x];
    var b := RemoveH(a, c);
    CoverRows(b, c, b.down[c], Size(b))
  }

  /** `for (peer = row.left; peer !== row; peer = peer.left) peer.reinsertVertically()` */
  function RelinkPeers(a: Arena, row: nat, peer: nat, fuel: nat): (r: Arena)
    requires Valid(a) && row < Size(a) && peer < Size(a)
    ensures Valid(r) && Size(r) == Size(a)
    ensures r.left == a.left && r.right == a.right && r.col == a.col && r.opt == a.opt
    decreases fuel
  {
    if fuel == 0 || peer == row then a
    else
      var b := ReinsertV(a, peer);
      RelinkPeers(b, row, b.left[peer], fuel - 1)
  }

  /** The row loop of uncover: bottom-up, relink each row's other nodes right to left, then raise the root count. */
  function UncoverRows(a: Arena, c: nat, row: nat, fuel: nat): (r: Arena)
    requires Valid(a) && c < Size(a) && row < Size(a)
    ensures Valid(r) && Size(r) == Size(a)
    ensures r.left == a.left && r.right == a.right && r.col == a.col && r.opt == a.opt
    decreases fuel
  {
    if fuel == 0 || row == c then a
    else
      var b := RelinkPeers(a, row, a.left[row], Size(a));
      var d := RootAdd(b, 1);
      UncoverRows(d, c, d.up[row], fuel - 1)
  }

  /** uncover(node): relink the rows of the node's column, then the column into the header ring. */
  function Uncover(a: Arena, x: nat): (r: Arena)
    requires Valid(a) && x < Size(a)
    ensures Valid(r) && Size(r) == Size(a)
  {
    var c := a.col[x];
    var b := UncoverRows(a, c, a.up[c], Size(a));
    ReinsertH(b, c)
  }

  // ---------------------------------------------------------------------------
  // The peer loops as operations on the list of peers
  // ---------------------------------------------------------------------------

  predicate InArena(a: Arena, xs: seq<nat>)
  {
    forall i :: 0 <= i < |xs| ==> xs[i] < Size(a)
  }

  function UnlinkList(a: Arena, xs: seq<nat>): (r: Arena)
    requires Valid(a) && InArena(a, xs)
    ensures Valid(r) && Size(r) == Size(a)
    ensures r.left == a.left && r.right == a.right && r.col == a.col && r.opt == a.opt
    decreases |xs|
  {
    if xs == [] then a else UnlinkList(RemoveV(a, xs[0]), xs[1..])
  }

  function RelinkList(a: Arena, xs: seq<nat>): (r: Arena)
    requires Valid(a) && InArena(a, xs)
    ensures Valid(r) && Size(r) == Size(a)
    ensures r.left == a.left && r.right == a.right && r.col == a.col && r.opt == a.opt
    decreases |xs|
  {
    if xs == [] then a else RelinkList(ReinsertV(a, xs[0]), xs[1..])
  }

  /** Each node is vertically linked at the moment it is unlinked. */
  predicate UnlinkSafe(a: Arena, xs: seq<nat>)
    requires Valid(a) && InArena(a, xs)
    decreases |xs|
  {
    xs != [] ==> VLinked(a, xs[0]) && UnlinkSafe(RemoveV(a, xs[0]), xs[1..])
  }

  lemma {:induction false} WalkInArena(next: seq<nat>, stop: nat, cur: nat, fuel: nat, a: Arena)
    requires Closed(next) && cur < |next| && |next| == Size(a)
    ensures InArena(a, Walk(next, stop, cur, fuel))
    decreases fuel
  {
    if fuel > 0 && cur != stop {
      WalkInArena(next, stop, next[cur], fuel - 1, a);
    }
  }

  /** Unlinking or relinking a list starts with its first node. */
  lemma ListCons(a: Arena, x: nat, xs: seq<nat>)
    requires Valid(a) && x < Size(a) && InArena(a, xs)
    ensures InArena(a, [x] + xs)
    ensures UnlinkList(a, [x] + xs) == UnlinkList(RemoveV(a, x), xs)
    ensures RelinkList(a, [x] + xs) == RelinkList(ReinsertV(a, x), xs)
  {
    assert ([x] + xs)[1..] == xs;
  }

  /** The unlinking loop unlinks the nodes met walking right, one after the other. */
  lemma {:induction false} UnlinkPeersList(a: Arena, row: nat, peer: nat, fuel: nat)
    requires Valid(a) && row < Size(a) && peer < Size(a)
    ensures InArena(a, Walk(a.right, row, peer, fuel))
    ensures UnlinkPeers(a, row, peer, fuel) == UnlinkList(a, Walk(a.right, row, peer, fuel))
    decreases fuel
  {
    WalkInArena(a.right, row, peer, fuel, a);
    if fuel > 0 && peer != row {
      var b := RemoveV(a, peer);
      var rest := Walk(a.right, row, a.right[peer], fuel - 1);
      assert b.right == a.right;
      assert UnlinkPeers(a, row, peer, fuel) == UnlinkPeers(b, row, a.right[peer], fuel - 1);
      UnlinkPeersList(b, row, a.right[peer], fuel - 1);
      ListCons(a, peer, rest);
    }
  }

  /** The relinking loop relinks the nodes met walking left, one after the other. */
  lemma {:induction false} RelinkPeersList(a: Arena, row: nat, peer: nat, fuel: nat)
    requires Valid(a) && row < Size(a) && peer < Size(a)
    ensures InArena(a, Walk(a.left, row, peer, fuel))
    ensures RelinkPeers(a, row, peer, fuel) == RelinkList(a, Walk(a.left, row, peer, fuel))
    decreases fuel
  {
    WalkInArena(a.left, row, peer, fuel, a);
    if fuel > 0 && peer != row {
      var rest := Walk(a.left, row, a.left[peer], fuel - 1);
      RelinkPeersList(ReinsertV(a, peer), row, a.left[peer], fuel - 1);
      ListCons(a, peer, rest);
    }
  }

  lemma {:induction false} RelinkListSnoc(a: Arena, xs: seq<nat>, x: nat)
    requires Valid(a) && InArena(a, xs) && x < Size(a)
    ensures InArena(a, xs + [x])
    ensures RelinkList(a, xs + [x]) == ReinsertV(RelinkList(a, xs), x)
    decreases |xs|
  {
    if xs != [] {
      assert (xs + [x])[1..] == xs[1..] + [x];
      RelinkListSnoc(ReinsertV(a, xs[0]), xs[1..], x);
    }
  }

  /** Relinking in reverse order what was unlinked restores the arena exactly. */
  lemma {:induction false} UnlinkRoundTrip(a: Arena, xs: seq<nat>)
    requires Valid(a) && InArena(a, xs) && UnlinkSafe(a, xs)
    ensures InArena(a, Reverse(xs))
    ensures RelinkList(UnlinkList(a, xs), Reverse(xs)) == a
    decreases |xs|
  {
    ReverseMembers(xs);
    if xs != [] {
      var b := RemoveV(a, xs[0]);
      UnlinkRoundTrip(b, xs[1..]);
      assert Reverse(xs) == Reverse(xs[1..]) + [xs[0]];
      ReverseMembers(xs[1..]);
      RelinkListSnoc(UnlinkList(b, xs[1..]), Reverse(xs[1..]), xs[0]);
      VRoundTrip(a, xs[0]);
    }
  }

  // ---------------------------------------------------------------------------
  // Unlinking one row's nodes from their columns
  // ---------------------------------------------------------------------------

  /** The node of position `i` of a column ring, as it looks to the ring. */
  lemma RingNodeFacts(a: Arena, h: nat, xs: seq<nat>, i: nat)
    requires Valid(a) && VRing(a, h, xs) && i < |xs|
    ensures xs[i] < Size(a) && h < Size(a) && VLinked(a, xs[i])
    ensures a.up[xs[i]] == (if i == 0 then h else xs[i - 1])
    ensures a.down[xs[i]] == (if i + 1 < |xs| then xs[i + 1] else h)
  {
    DRingNeighbours(a.down, a.up, h, xs, i);
  }

  /** Every option of `rows` lists item `u[k]`. */
  predicate InColumn<Item(==)>(opts: seq<Opt<Item>>, u: seq<Item>, k: nat, rows: seq<nat>)
    requires k < |u|
  {
    forall t :: 0 <= t < |rows| ==> rows[t] < |opts| && u[k] in opts[rows[t]].items
  }

  /** Dropping a row drops its node from the column's node list. */
  lemma ColNodesRemove<Item(!new)>(opts: seq<Opt<Item>>, u: seq<Item>, k: nat, rows: seq<nat>, i: nat)
    requires k < |u| && i < |rows|
    requires forall t :: 0 <= t < |rows| ==> rows[t] < |opts| && u[k] in opts[rows[t]].items
    ensures InColumn(opts, u, k, rows[..i] + rows[i + 1..])
    ensures var xs := ColNodes(opts, u, k, rows);
      ColNodes(opts, u, k, rows[..i] + rows[i + 1..]) == xs[..i] + xs[i + 1..]
  {
    var rows' := rows[..i] + rows[i + 1..];
    assert forall t :: 0 <= t < |rows'| ==> rows'[t] == if t < i then rows[t] else rows[t + 1];
    var xs := ColNodes(opts, u, k, rows);
    var ys := ColNodes(opts, u, k, rows');
    assert |ys| == |xs[..i] + xs[i + 1..]|;
    forall t | 0 <= t < |ys| ensures ys[t] == (xs[..i] + xs[i + 1..])[t] {
      if t < i {
        assert ys[t] == xs[t];
      } else {
        assert ys[t] == xs[t + 1];
      }
    }
  }

  /** Unlinking a node of column `k` leaves that column holding the other rows, one fewer counted. */
  lemma ColumnRemoveSame<Item(!new)>(a: Arena, opts: seq<Opt<Item>>, u: seq<Item>, k: nat, rows: seq<nat>, i: nat)
    requires Valid(a) && k < |u| && ColumnOK(a, opts, u, k, rows) && i < |rows|
    requires a.col[ColNodes(opts, u, k, rows)[i]] == Hdr(k)
    ensures ColNodes(opts, u, k, rows)[i] < Size(a)
    ensures ColumnOK(RemoveV(a, ColNodes(opts, u, k, rows)[i]), opts, u, k, rows[..i] + rows[i + 1..])
  {
    var xs := ColNodes(opts, u, k, rows);
    RingNodeFacts(a, Hdr(k), xs, i);
    RemoveVRing(a, Hdr(k), xs, i);
    ColumnAfterRemove(RemoveV(a, xs[i]), opts, u, k, rows, i);
  }

  /** A column ring without the node of row `i`, counting one row fewer, holds the other rows. */
  lemma ColumnAfterRemove<Item(!new)>(r: Arena, opts: seq<Opt<Item>>, u: seq<Item>, k: nat, rows: seq<nat>, i: nat)
    requires k < |u| && i < |rows| && Increasing(rows)
    requires forall t :: 0 <= t < |rows| ==> rows[t] < |opts| && u[k] in opts[rows[t]].items
    requires VRing(r, Hdr(k), ColNodes(opts, u, k, rows)[..i] + ColNodes(opts, u, k, rows)[i + 1..])
    requires Hdr(k) < |r.count| && r.count[Hdr(k)] == |rows| - 1
    ensures ColumnOK(r, opts, u, k, rows[..i] + rows[i + 1..])
  {
    IncreasingRemove(rows, i);
    ColNodesRemove(opts, u, k, rows, i);
  }

  /** A change of links at two nodes of another column, and of that column's count, leaves column `k'` alone. */
  lemma ColumnOther<Item(!new)>(a: Arena, b: Arena, opts: seq<Opt<Item>>, u: seq<Item>, k': nat, rows: seq<nat>, h: nat, p: nat, s: nat)
    requires Valid(a) && Valid(b) && Size(b) == Size(a) && k' < |u| && ColumnOK(a, opts, u, k', rows)
    requires p < Size(a) && s < Size(a) && a.col[p] == h && a.col[s] == h && h != Hdr(k')
    requires Hdr(k') < Size(a) && a.col[Hdr(k')] == Hdr(k')
    requires forall t :: 0 <= t < |rows| ==> a.col[ColNodes(opts, u, k', rows)[t]] == Hdr(k')
    requires b.down == a.down[p := s] && b.up == a.up[s := p]
    requires b.count[Hdr(k')] == a.count[Hdr(k')]
    ensures ColumnOK(b, opts, u, k', rows)
  {
    var ys := ColNodes(opts, u, k', rows);
    var hk := Hdr(k');
    assert VRing(a, hk, ys);
    assert hk != p && hk != s;
    forall t | 0 <= t < |ys| ensures b.down[ys[t]] == a.down[ys[t]] && b.up[ys[t]] == a.up[ys[t]] {
      assert a.col[ys[t]] == hk;
    }
    VRingFrame(a, b, hk, ys);
  }

  /** Unlinking a node of column `k` leaves every other column as it was. */
  lemma ColumnRemoveOther<Item(!new)>(a: Arena, opts: seq<Opt<Item>>, u: seq<Item>, k: nat, rows: seq<nat>, i: nat, k': nat, rows': seq<nat>)
    requires Shape(opts, u) && Static(a, opts, u)
    requires k < |u| && ColumnOK(a, opts, u, k, rows) && i < |rows|
    requires k' < |u| && k' != k && ColumnOK(a, opts, u, k', rows')
    ensures ColNodes(opts, u, k, rows)[i] < Size(a)
    ensures ColumnOK(RemoveV(a, ColNodes(opts, u, k, rows)[i]), opts, u, k', rows')
  {
    var xs := ColNodes(opts, u, k, rows);
    var h := Hdr(k);
    RingNodeFacts(a, h, xs, i);
    RemoveVRing(a, h, xs, i);
    ColNodeCol(a, opts, u, k, rows);
    ColNodeCol(a, opts, u, k', rows');
    var prev := if i == 0 then h else xs[i - 1];
    var succ := if i + 1 < |xs| then xs[i + 1] else h;
    ColumnOther(a, RemoveV(a, xs[i]), opts, u, k', rows', h, prev, succ);
  }

  /** Unlinking a node of column `k` leaves the arena's static part as it was. */
  lemma RemoveKeepsStatic<Item(!new)>(a: Arena, opts: seq<Opt<Item>>, u: seq<Item>, cols: seq<seq<nat>>, k: nat, i: nat)
    requires Shape(opts, u) && Static(a, opts, u) && Columns(a, opts, u, cols)
    requires k < |u| && i < |cols[k]|
    ensures var x := ColNodes(opts, u, k, cols[k])[i];
      && x < Size(a) && VLinked(a, x)
      && Static(RemoveV(a, x), opts, u)
      && RemoveV(a, x).count[Root] == a.count[Root]
  {
    var rows := cols[k];
    var xs := ColNodes(opts, u, k, rows);
    assert ColumnOK(a, opts, u, k, rows);
    RingNodeFacts(a, Hdr(k), xs, i);
    ColNodeCol(a, opts, u, k, rows);
    StaticFrame(a, RemoveV(a, xs[i]), opts, u);
  }

  /** Unlinking a node of column `k` takes its option out of column `k` and out of no other column. */
  lemma RemoveKeepsColumns<Item(!new)>(a: Arena, opts: seq<Opt<Item>>, u: seq<Item>, cols: seq<seq<nat>>, k: nat, i: nat)
    requires Shape(opts, u) && Static(a, opts, u) && Columns(a, opts, u, cols)
    requires k < |u| && i < |cols[k]|
    ensures var x := ColNodes(opts, u, k, cols[k])[i];
      && x < Size(a)
      && Columns(RemoveV(a, x), opts, u, cols[k := cols[k][..i] + cols[k][i + 1..]])
  {
    var rows := cols[k];
    var xs := ColNodes(opts, u, k, rows);
    assert ColumnOK(a, opts, u, k, rows);
    RingNodeFacts(a, Hdr(k), xs, i);
    var r := RemoveV(a, xs[i]);
    var cols' := cols[k := rows[..i] + rows[i + 1..]];
    forall k' | 0 <= k' < |u| ensures ColumnOK(r, opts, u, k', cols'[k']) {
      if k' == k {
        ColNodeCol(a, opts, u, k, rows);
        ColumnRemoveSame(a, opts, u, k, rows, i);
      } else {
        assert ColumnOK(a, opts, u, k', cols[k']);
        ColumnRemoveOther(a, opts, u, k, rows, i, k', cols[k']);
      }
    }
  }

  /**
    Unlinking the node of option `rows[i]` from column `k` takes that option
    out of the column and changes nothing else the encoding sees.
  */
  lemma ColumnRemove<Item(!new)>(a: Arena, opts: seq<Opt<Item>>, u: seq<Item>, cols: seq<seq<nat>>, k: nat, i: nat)
    requires Shape(opts, u) && Static(a, opts, u) && Columns(a, opts, u, cols)
    requires k < |u| && i < |cols[k]|
    ensures var x := ColNodes(opts, u, k, cols[k])[i];
      && x < Size(a) && VLinked(a, x)
      && Static(RemoveV(a, x), opts, u)
      && Columns(RemoveV(a, x), opts, u, cols[k := cols[k][..i] + cols[k][i + 1..]])
      && RemoveV(a, x).count[Root] == a.count[Root]
  {
    RemoveKeepsStatic(a, opts, u, cols, k, i);
    RemoveKeepsColumns(a, opts, u, cols, k, i);
  }

  /** The nodes of option `j` at item positions `qs`. */
  function NodesAt<Item>(opts: seq<Opt<Item>>, n: nat, j: nat, qs: seq<nat>): (r: seq<nat>)
    requires j < |opts| && forall t :: 0 <= t < |qs| ==> qs[t] < |opts[j].items|
    ensures |r| == |qs| && forall t :: 0 <= t < |qs| ==> r[t] == NodeOf(opts, n, j, qs[t])
  {
    seq(|qs|, t requires 0 <= t < |qs| => NodeOf(opts, n, j, qs[t]))
  }

  /** The items at positions `qs` of an option. */
  function ItemsAt<Item>(items: seq<Item>, qs: seq<nat>): (r: seq<Item>)
    requires forall t :: 0 <= t < |qs| ==> qs[t] < |items|
    ensures |r| == |qs| && forall t :: 0 <= t < |qs| ==> r[t] == items[qs[t]]
    decreases |qs|
  {
    if qs == [] then [] else [items[qs[0]]] + ItemsAt(items, qs[1..])
  }

  /** What unlinking the node of option `j` at positions `qs` needs: each of its items' columns holds `j`. */
  predicate CanUnlink<Item(==,!new)>(opts: seq<Opt<Item>>, u: seq<Item>, cols: seq<seq<nat>>, j: nat, qs: seq<nat>)
    requires Shape(opts, u) && |cols| == |u| && j < |opts|
  {
    && NoDup(qs)
    && (forall t :: 0 <= t < |qs| ==> qs[t] < |opts[j].items|)
    && (forall t :: 0 <= t < |qs| ==> j in cols[IndexOf(u, opts[j].items[qs[t]])])
  }

  /** Where the first node of `qs` sits: its column and its place in that column's rows. */
  lemma FirstPlace<Item(!new)>(a: Arena, opts: seq<Opt<Item>>, u: seq<Item>, cols: seq<seq<nat>>, j: nat, qs: seq<nat>)
    returns (k0: nat, i0: nat)
    requires Shape(opts, u) && Columns(a, opts, u, cols)
    requires j < |opts| && CanUnlink(opts, u, cols, j, qs) && qs != []
    ensures k0 < |u| && u[k0] == opts[j].items[qs[0]] && i0 < |cols[k0]| && cols[k0][i0] == j
    ensures ColNodes(opts, u, k0, cols[k0])[i0] == NodesAt(opts, |u|, j, qs)[0]
  {
    var items := opts[j].items;
    k0 := IndexOf(u, items[qs[0]]);
    assert ColumnOK(a, opts, u, k0, cols[k0]);
    assert j in cols[k0];
    i0 := IndexOf(cols[k0], j);
    IndexOfNoDup(items, qs[0]);
  }

  /** Taking `j` out of the column of `qs[0]` leaves `j` in the columns of the other positions. */
  lemma DropFirst<Item(!new)>(opts: seq<Opt<Item>>, u: seq<Item>, cols: seq<seq<nat>>, j: nat, qs: seq<nat>, k0: nat, i0: nat)
    requires Shape(opts, u) && |cols| == |u| && j < |opts| && CanUnlink(opts, u, cols, j, qs) && qs != []
    requires k0 < |u| && u[k0] == opts[j].items[qs[0]] && i0 < |cols[k0]| && cols[k0][i0] == j
    requires Increasing(cols[k0])
    ensures var cols1 := cols[k0 := cols[k0][..i0] + cols[k0][i0 + 1..]];
      && CanUnlink(opts, u, cols1, j, qs[1..])
      && forall k, y :: 0 <= k < |u| ==>
        (y in cols1[k] <==> y in cols[k] && !(y == j && u[k] == opts[j].items[qs[0]]))
  {
    var items := opts[j].items;
    var rows := cols[k0];
    var cols1 := cols[k0 := rows[..i0] + rows[i0 + 1..]];
    IncreasingRemove(rows, i0);
    forall t | 0 <= t < |qs[1..]| ensures j in cols1[IndexOf(u, items[qs[1..][t]])] {
      assert qs[1..][t] == qs[t + 1] && qs[t + 1] != qs[0];
      assert items[qs[t + 1]] != items[qs[0]];
      assert IndexOf(u, items[qs[0]]) == k0 by { IndexOfNoDup(u, k0); }
    }
    forall k, y | 0 <= k < |u| ensures y in cols1[k] <==> y in cols[k] && !(y == j && u[k] == items[qs[0]]) {
      IndexOfNoDup(u, k);
      IndexOfNoDup(u, k0);
    }
  }

  /** The first step of UnlinkPositions: one node leaves its column. */
  lemma UnlinkFirst<Item(!new)>(a: Arena, opts: seq<Opt<Item>>, u: seq<Item>, cols: seq<seq<nat>>, j: nat, qs: seq<nat>)
    returns (cols1: seq<seq<nat>>)
    requires Shape(opts, u) && Static(a, opts, u) && Columns(a, opts, u, cols)
    requires j < |opts| && CanUnlink(opts, u, cols, j, qs) && qs != []
    ensures NodesAt(opts, |u|, j, qs)[0] < Size(a) && VLinked(a, NodesAt(opts, |u|, j, qs)[0])
    ensures var a1 := RemoveV(a, NodesAt(opts, |u|, j, qs)[0]);
      && Static(a1, opts, u) && Columns(a1, opts, u, cols1)
      && a1.count[Root] == a.count[Root]
      && CanUnlink(opts, u, cols1, j, qs[1..])
    ensures forall k, y :: 0 <= k < |u| ==>
      (y in cols1[k] <==> y in cols[k] && !(y == j && u[k] == opts[j].items[qs[0]]))
  {
    var k0, i0 := FirstPlace(a, opts, u, cols, j, qs);
    ColumnRemove(a, opts, u, cols, k0, i0);
    assert Increasing(cols[k0]) by { assert ColumnOK(a, opts, u, k0, cols[k0]); }
    DropFirst(opts, u, cols, j, qs, k0, i0);
    cols1 := cols[k0 := cols[k0][..i0] + cols[k0][i0 + 1..]];
  }

  lemma NodesAtTail<Item>(opts: seq<Opt<Item>>, n: nat, j: nat, qs: seq<nat>)
    requires j < |opts| && qs != [] && forall t :: 0 <= t < |qs| ==> qs[t] < |opts[j].items|
    ensures NodesAt(opts, n, j, qs[1..]) == NodesAt(opts, n, j, qs)[1..]
  {
  }

  /** Taking `j` out of the first item's column and then the rest's is taking it out of all of them. */
  lemma DropCombine<Item>(items: seq<Item>, u: seq<Item>, cols: seq<seq<nat>>, cols1: seq<seq<nat>>, cols': seq<seq<nat>>, j: nat, qs: seq<nat>)
    requires qs != [] && forall t :: 0 <= t < |qs| ==> qs[t] < |items|
    requires |cols| == |u| && |cols1| == |u| && |cols'| == |u|
    requires forall k, y :: 0 <= k < |u| ==>
      (y in cols1[k] <==> y in cols[k] && !(y == j && u[k] == items[qs[0]]))
    requires forall k, y :: 0 <= k < |u| ==>
      (y in cols'[k] <==> y in cols1[k] && !(y == j && u[k] in ItemsAt(items, qs[1..])))
    ensures forall k, y :: 0 <= k < |u| ==>
      (y in cols'[k] <==> y in cols[k] && !(y == j && u[k] in ItemsAt(items, qs)))
  {
    assert ItemsAt(items, qs) == [items[qs[0]]] + ItemsAt(items, qs[1..]);
  }

  /** Unlinking a list node by node: the first node, then the rest. */
  lemma UnlinkUnfold(a: Arena, xs: seq<nat>)
    requires Valid(a) && xs != [] && xs[0] < Size(a) && InArena(RemoveV(a, xs[0]), xs[1..])
    requires VLinked(a, xs[0]) && UnlinkSafe(RemoveV(a, xs[0]), xs[1..])
    ensures InArena(a, xs) && UnlinkSafe(a, xs)
    ensures UnlinkList(a, xs) == UnlinkList(RemoveV(a, xs[0]), xs[1..])
  {
    forall i | 0 <= i < |xs| ensures xs[i] < Size(a) {
      if i > 0 {
        assert xs[i] == xs[1..][i - 1];
      }
    }
  }

  /**
    Unlinking the nodes of option `j` at item positions `qs`, one after the
    other, takes `j` out of exactly those items' columns.
  */
  lemma {:induction false} UnlinkPositions<Item(!new)>(a: Arena, opts: seq<Opt<Item>>, u: seq<Item>, cols: seq<seq<nat>>, j: nat, qs: seq<nat>)
    returns (cols': seq<seq<nat>>)
    requires Shape(opts, u) && Static(a, opts, u) && Columns(a, opts, u, cols)
    requires j < |opts| && CanUnlink(opts, u, cols, j, qs)
    ensures InArena(a, NodesAt(opts, |u|, j, qs))
    ensures UnlinkSafe(a, NodesAt(opts, |u|, j, qs))
    ensures Static(UnlinkList(a, NodesAt(opts, |u|, j, qs)), opts, u)
    ensures Columns(UnlinkList(a, NodesAt(opts, |u|, j, qs)), opts, u, cols')
    ensures UnlinkList(a, NodesAt(opts, |u|, j, qs)).count[Root] == a.count[Root]
    ensures forall k, y :: 0 <= k < |u| ==>
      (y in cols'[k] <==> y in cols[k] && !(y == j && u[k] in ItemsAt(opts[j].items, qs)))
    decreases |qs|
  {
    var nodes := NodesAt(opts, |u|, j, qs);
    if qs == [] {
      cols' := cols;
    } else {
      var cols1 := UnlinkFirst(a, opts, u, cols, j, qs);
      var a1 := RemoveV(a, nodes[0]);
      NodesAtTail(opts, |u|, j, qs);
      cols' := UnlinkPositions(a1, opts, u, cols1, j, qs[1..]);
      UnlinkUnfold(a, nodes);
      DropCombine(opts[j].items, u, cols, cols1, cols', j, qs);
    }
  }
}
