/**
  The invariant of the build in solve() of src/dancinglinks.js: what the
  structure holds after the options before `j` and the first `p` nodes of
  option `j` have been made.
*/
module BuildState {
  import opened Seqs
  import opened Rings
  import opened Problem
  import opened Links
  import opened Layout
  import opened Assembly

  /** The build has made the options before `j` and the first `p` nodes of option `j`. */
  predicate At<Item>(opts: seq<Opt<Item>>, j: nat, p: nat)
  {
    j <= |opts| && (if j < |opts| then p <= |opts[j].items| else p == 0)
  }

  /**
    The nodes of column `k` made so far, top to bottom: for every option
    before `j`, and for the first `p` positions of option `j`, the node of a
    position that holds the item `u[k]`.
  */
  function Made<Item(==)>(opts: seq<Opt<Item>>, u: seq<Item>, k: nat, j: nat, p: nat): seq<nat>
    requires k < |u| && At(opts, j, p)
    decreases j, p
  {
    if p > 0 then
      Made(opts, u, k, j, p - 1) + (if opts[j].items[p - 1] == u[k] then [Base(opts, |u|, j) + (p - 1)] else [])
    else if j > 0 then Made(opts, u, k, j - 1, |opts[j - 1].items|)
    else []
  }

  /** Column `k` holds the nodes made for its item so far, each made before position `p` of option `j`. */
  predicate ColumnSoFar<Item(==)>(a: Arena, opts: seq<Opt<Item>>, u: seq<Item>, k: nat, j: nat, p: nat)
    requires k < |u| && At(opts, j, p)
  {
    ColumnRing(a, Hdr(k), Made(opts, u, k, j, p), Base(opts, |u|, j) + p)
  }

  predicate ColumnsSoFar<Item(==)>(a: Arena, opts: seq<Opt<Item>>, u: seq<Item>, j: nat, p: nat)
    requires At(opts, j, p)
  {
    forall k :: 0 <= k < |u| ==> ColumnSoFar(a, opts, u, k, j, p)
  }

  /** Every node made so far knows its column and its option. */
  predicate Tagged<Item(==,!new)>(a: Arena, opts: seq<Opt<Item>>, u: seq<Item>, j: nat, p: nat)
    requires Shape(opts, u) && Valid(a) && Size(a) == Total(opts, |u|)
  {
    forall i, q :: 0 <= i < |opts| && 0 <= q < |opts[i].items| && (i < j || (i == j && q < p)) ==>
      && a.col[NodeOf(opts, |u|, i, q)] == Hdr(IndexOf(u, opts[i].items[q]))
      && a.opt[NodeOf(opts, |u|, i, q)] == i
  }

  /** The nodes of option `j` form a ring: each one's right neighbour is the next, the last's is the first. */
  predicate RowLinked<Item>(a: Arena, opts: seq<Opt<Item>>, n: nat, j: nat)
    requires Valid(a) && Size(a) == Total(opts, n) && j < |opts|
  {
    var len := |opts[j].items|;
    forall q :: 0 <= q < len ==>
      && a.right[NodeOf(opts, n, j, q)] == NodeOf(opts, n, j, if q + 1 < len then q + 1 else 0)
      && a.left[NodeOf(opts, n, j, q)] == NodeOf(opts, n, j, if q > 0 then q - 1 else len - 1)
  }

  predicate RowsLinked<Item>(a: Arena, opts: seq<Opt<Item>>, n: nat, j: nat)
    requires Valid(a) && Size(a) == Total(opts, n) && j <= |opts|
  {
    forall i :: 0 <= i < j ==> RowLinked(a, opts, n, i)
  }

  /** The first `p` nodes of option `j` are linked to their predecessors, both ways. */
  predicate RowOpen<Item>(a: Arena, opts: seq<Opt<Item>>, n: nat, j: nat, p: nat)
    requires Valid(a) && Size(a) == Total(opts, n) && j < |opts| && p <= |opts[j].items|
  {
    forall q :: 0 < q < p ==>
      && a.left[NodeOf(opts, n, j, q)] == NodeOf(opts, n, j, q - 1)
      && a.right[NodeOf(opts, n, j, q - 1)] == NodeOf(opts, n, j, q)
  }

  /** The arena `a` is the structure after the options before `j` and the first `p` nodes of option `j`. */
  predicate Building<Item(==,!new)>(a: Arena, opts: seq<Opt<Item>>, u: seq<Item>, j: nat, p: nat)
  {
    && Shape(opts, u) && At(opts, j, p)
    && Valid(a) && Size(a) == Total(opts, |u|)
    && HeaderLinks(a, |u|)
    && ColumnsSoFar(a, opts, u, j, p)
    && Tagged(a, opts, u, j, p)
    && RowsLinked(a, opts, |u|, j)
    && (j < |opts| ==> RowOpen(a, opts, |u|, j, p))
    && a.count[Root] == j
  }

  /**
    `r` differs from the arena `a` by createRow's changes for position `p`
    of option `j`.
  */
  predicate StepFrom<Item(==,!new)>(a: Arena, r: Arena, opts: seq<Opt<Item>>, u: seq<Item>, j: nat, p: nat)
  {
    && j < |opts| && p < |opts[j].items| && opts[j].items[p] in u
    && Valid(a) && Size(a) == Total(opts, |u|) && Valid(r) && Size(r) == Size(a)
    && var x := NodeOf(opts, |u|, j, p);
      var h := Hdr(IndexOf(u, opts[j].items[p]));
      && a.col[a.up[h]] == h
      && Stepped(a, r, x, h, j, if p == 0 then x else x - 1)
  }

  /**
    `r` differs from the arena `a` by the end of the iteration for option
    `j`: its last and first nodes point at each other, and the root counts
    one more row.
  */
  predicate Closing<Item>(a: Arena, r: Arena, opts: seq<Opt<Item>>, n: nat, j: nat)
    requires Valid(a) && Size(a) == Total(opts, n) && j < |opts|
  {
    var len := |opts[j].items|;
    && r.up == a.up && r.down == a.down && r.col == a.col && r.opt == a.opt
    && r.count == a.count[Root := a.count[Root] + 1]
    && (len == 0 ==> r.left == a.left && r.right == a.right)
    && (len > 0 ==>
          var first := NodeOf(opts, n, j, 0);
          var last := NodeOf(opts, n, j, len - 1);
          r.right == a.right[last := first] && r.left == a.left[first := last])
  }
}
