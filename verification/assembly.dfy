/**
  The node-level steps of building the structure in solve() of
  src/dancinglinks.js: fresh nodes, the column headers linked into the
  header ring, and one row node made and put at the bottom of a column.
  The predicates at the end say node by node what one such step changes.
*/
module Assembly {
  import opened Rings
  import opened Links
  import opened Layout

  // ---------------------------------------------------------------------------
  // Nodes and headers
  // ---------------------------------------------------------------------------

  /** `size` nodes, each linked to itself, in its own column, with no rows and option 0. */
  function Fresh(size: nat): (r: Arena)
    requires size > 0
    ensures Valid(r) && Size(r) == size
  {
    var ids: seq<nat> := seq(size, i requires 0 <= i < size => i);
    var zeros: seq<nat> := seq(size, i requires 0 <= i < size => 0);
    var counts: seq<int> := seq(size, i requires 0 <= i < size => 0);
    Arena(ids, ids, ids, ids, ids, zeros, counts)
  }

  /** new Node(value, left): `x` gets the left link `left`, and its other links point to itself. */
  function NewNode(a: Arena, x: nat, left: nat): (r: Arena)
    requires Valid(a) && x < Size(a) && left < Size(a)
    ensures Valid(r) && Size(r) == Size(a)
  {
    a.(left := a.left[x := left], right := a.right[x := x], up := a.up[x := x], down := a.down[x := x])
  }

  /**
    createColumn: header `k` is made right of the previous header (of the
    root for the first item). It becomes its own column with no rows.
  */
  function CreateColumn(a: Arena, k: nat): (r: Arena)
    requires Valid(a) && Hdr(k) < Size(a)
    ensures Valid(r) && Size(r) == Size(a)
  {
    var x := Hdr(k);
    var prev := if k == 0 then Root else Hdr(k - 1);
    var a1 := NewNode(a, x, prev);
    var a2 := a1.(col := a1.col[x := x], count := a1.count[x := 0]);
    a2.(right := a2.right[prev := x])
  }

  /** items.reduce(createColumn, columns): the headers of the first `n` items, in universe order. */
  function CreateColumns(a: Arena, n: nat): (r: Arena)
    requires Valid(a) && n < Size(a)
    ensures Valid(r) && Size(r) == Size(a)
  {
    if n == 0 then a else CreateColumn(CreateColumns(a, n - 1), n - 1)
  }

  /** The header ring: the `n` columns are created, then the last one and the root are linked. */
  function Headers(a: Arena, n: nat): (r: Arena)
    requires Valid(a) && n < Size(a)
    ensures Valid(r) && Size(r) == Size(a)
  {
    var a1 := CreateColumns(a, n);
    var last := if n == 0 then Root else Hdr(n - 1);
    var a2 := a1.(left := a1.left[Root := last]);
    a2.(right := a2.right[last := Root])
  }

  /**
    The assignments of createRow on plain nodes. Node `x` is made with
    `prev` on its left and inserted below the bottom node of column `h`. It
    is tagged with option `j`, and `prev` points right to it.
  */
  function MakeRowNode(a: Arena, x: nat, h: nat, j: nat, prev: nat): (r: Arena)
    requires Valid(a) && x < Size(a) && h < Size(a) && prev < Size(a)
    ensures Valid(r) && Size(r) == Size(a)
  {
    var a1 := NewNode(a, x, prev);
    var a2 := InsertBelow(a1, x, a1.up[h]);
    var a3 := a2.(opt := a2.opt[x := j]);
    a3.(right := a3.right[prev := x])
  }

  // ---------------------------------------------------------------------------
  // The header ring
  // ---------------------------------------------------------------------------

  /** The header ring is closed, and every header is its own column. */
  predicate HeaderLinks(a: Arena, n: nat)
    requires Valid(a) && n < Size(a)
  {
    forall x :: 0 <= x <= n ==>
      && a.left[x] == (if x == 0 then n else x - 1)
      && a.right[x] == (if x == n then 0 else x + 1)
      && a.col[x] == x
  }

  /**
    The first `k` headers link to their neighbours: the first header's left
    link is the root, and the root's right link is the first header. The
    later nodes still point to themselves.
  */
  predicate ColumnsLinked(a: Arena, k: nat)
    requires Valid(a)
  {
    forall x :: 0 <= x < Size(a) ==>
      && a.left[x] == (if 1 <= x <= k then x - 1 else x)
      && a.right[x] == (if x < k then x + 1 else x)
  }

  /** Every node is alone in its own vertical ring and column, with no rows. */
  predicate ColumnsEmpty(a: Arena)
    requires Valid(a)
  {
    forall x :: 0 <= x < Size(a) ==> a.up[x] == x && a.down[x] == x && a.col[x] == x && a.count[x] == 0
  }

  /** createColumn links the new header to the one before it. */
  lemma CreateColumnLinks(a: Arena, k: nat)
    requires Valid(a) && Hdr(k) < Size(a) && ColumnsLinked(a, k)
    ensures ColumnsLinked(CreateColumn(a, k), k + 1)
  {
    var r := CreateColumn(a, k);
    forall x | 0 <= x < Size(a)
      ensures r.left[x] == (if 1 <= x <= k + 1 then x - 1 else x)
      ensures r.right[x] == (if x < k + 1 then x + 1 else x)
    {
      assert a.left[x] == (if 1 <= x <= k then x - 1 else x);
      assert a.right[x] == (if x < k then x + 1 else x);
    }
  }

  /** createColumn makes the new header its own empty column. */
  lemma CreateColumnEmpty(a: Arena, k: nat)
    requires Valid(a) && Hdr(k) < Size(a) && ColumnsEmpty(a)
    ensures ColumnsEmpty(CreateColumn(a, k))
  {
  }

  /** items.reduce(createColumn, columns) on fresh nodes makes the first `k` headers. */
  lemma {:induction false} CreateColumnsLinks(size: nat, k: nat)
    requires k < size
    ensures ColumnsLinked(CreateColumns(Fresh(size), k), k)
    ensures ColumnsEmpty(CreateColumns(Fresh(size), k))
  {
    if k > 0 {
      CreateColumnsLinks(size, k - 1);
      CreateColumnLinks(CreateColumns(Fresh(size), k - 1), k - 1);
      CreateColumnEmpty(CreateColumns(Fresh(size), k - 1), k - 1);
    }
  }

  /** After the header loop and its closing links, the header ring is closed and every column is empty. */
  lemma HeadersLinks(size: nat, n: nat)
    requires n < size
    ensures var a := Headers(Fresh(size), n);
      && HeaderLinks(a, n)
      && forall x :: 0 <= x <= n ==> a.up[x] == x && a.down[x] == x && a.count[x] == 0
  {
    var a := Headers(Fresh(size), n);
    CreateColumnsLinks(size, n);
    var a1 := CreateColumns(Fresh(size), n);
    forall x | 0 <= x <= n
      ensures a.left[x] == (if x == 0 then n else x - 1)
      ensures a.right[x] == (if x == n then 0 else x + 1)
      ensures a.col[x] == x && a.up[x] == x && a.down[x] == x && a.count[x] == 0
    {
      assert a1.left[x] == (if 1 <= x <= n then x - 1 else x);
      assert a1.right[x] == (if x < n then x + 1 else x);
    }
  }

  // ---------------------------------------------------------------------------
  // One row node
  // ---------------------------------------------------------------------------

  /**
    What createRow changes in the vertical links. The new node `x` goes
    between the bottom node of column `h` and the header.
  */
  predicate VStepped(a: Arena, r: Arena, x: nat, h: nat)
    requires Valid(a) && x < Size(a) && h < Size(a)
  {
    var b := a.up[h];
    r.up == a.up[x := b][h := x] && r.down == a.down[x := h][b := x]
  }

  /** What createRow changes in the rows: `x` belongs to option `j` and has `prev` on its left, and `prev` points right to `x`. */
  predicate HStepped(a: Arena, r: Arena, x: nat, j: nat, prev: nat)
    requires Valid(a) && x < Size(a) && prev < Size(a)
  {
    r.left == a.left[x := prev] && r.right == a.right[x := x][prev := x] && r.opt == a.opt[x := j]
  }

  /** What createRow changes in the columns of the nodes: `x` joins column `h`, which counts one more row. */
  predicate CStepped(a: Arena, r: Arena, x: nat, h: nat)
    requires Valid(a) && x < Size(a) && h < Size(a)
  {
    r.col == a.col[x := h] && r.count == a.count[h := a.count[h] + 1]
  }

  /** Everything createRow changes. */
  predicate Stepped(a: Arena, r: Arena, x: nat, h: nat, j: nat, prev: nat)
    requires Valid(a) && x < Size(a) && h < Size(a) && prev < Size(a)
  {
    VStepped(a, r, x, h) && HStepped(a, r, x, j, prev) && CStepped(a, r, x, h)
  }

  /** The column ring of `h` lists `xs` and counts them; its nodes precede `next` and belong to the column. */
  predicate ColumnRing(a: Arena, h: nat, xs: seq<nat>, next: nat)
  {
    && VRing(a, h, xs)
    && h < |a.count| && a.count[h] == |xs|
    && (forall i :: 0 <= i < |xs| ==> xs[i] < next && xs[i] < |a.col| && a.col[xs[i]] == h)
  }

  /** A node inserted below the bottom of a column ring is the ring's new last node. */
  lemma RingGrows(a: Arena, r: Arena, h: nat, xs: seq<nat>, x: nat)
    requires Valid(a) && h < Size(a) && x < Size(a)
    requires VRing(a, h, xs) && x != h && x !in xs
    requires VStepped(a, r, x, h)
    ensures VRing(r, h, xs + [x])
  {
    DRingAppend(a.down, a.up, h, xs, x);
  }

  /** What createRow changes, when the bottom node of the column belongs to the column. */
  lemma MakeRowNodeEffect(a: Arena, x: nat, h: nat, j: nat, prev: nat)
    requires Valid(a) && x < Size(a) && h < Size(a) && prev < Size(a)
    requires x != h && a.up[h] != x && a.down[a.up[h]] == h && a.col[a.up[h]] == h
    ensures Stepped(a, MakeRowNode(a, x, h, j, prev), x, h, j, prev)
  {
    var a1 := NewNode(a, x, prev);
    var b := a.up[h];
    assert a1.up[h] == b && a1.down[b] == h && a1.col[b] == h;
    InsertBelowEffect(a1, x, b);
    assert a.up[x := x][x := b] == a.up[x := b];
    assert a.down[x := x][x := h] == a.down[x := h];
  }

  /** The column `g` of the new node gains it at its bottom and counts one more row. */
  lemma ColumnRingGrows(a: Arena, r: Arena, g: nat, xs: seq<nat>, next: nat, x: nat, h: nat)
    requires Valid(a) && x < Size(a) && h < Size(a) && g == h && h < x && next == x
    requires ColumnRing(a, g, xs, next) && a.col[g] == g
    requires VStepped(a, r, x, h) && CStepped(a, r, x, h)
    ensures ColumnRing(r, g, xs + [x], next + 1)
  {
    RingGrows(a, r, h, xs, x);
  }

  /** Another column keeps its ring: none of its nodes is the new node, the new node's header or that column's bottom. */
  lemma ColumnRingKept(a: Arena, r: Arena, g: nat, xs: seq<nat>, next: nat, x: nat, h: nat)
    requires Valid(a) && g < Size(a) && h < Size(a) && x < Size(a) && next == x
    requires ColumnRing(a, g, xs, next) && a.col[g] == g && a.col[h] == h && a.col[a.up[h]] == h
    requires g != h && g != x
    requires VStepped(a, r, x, h) && CStepped(a, r, x, h)
    ensures ColumnRing(r, g, xs, next + 1)
  {
    forall i | 0 <= i < |xs| ensures xs[i] != x && xs[i] != h && xs[i] != a.up[h] {
    }
    VRingFrame(a, r, g, xs);
  }

  /** createRow leaves the header ring alone: the new node and its left neighbour are row nodes. */
  lemma HeaderKept(a: Arena, r: Arena, n: nat, x: nat, h: nat, j: nat, prev: nat)
    requires Valid(a) && Valid(r) && Size(r) == Size(a) && n < x < Size(a) && n < prev < Size(a) && h < Size(a)
    requires HeaderLinks(a, n)
    requires HStepped(a, r, x, j, prev) && CStepped(a, r, x, h)
    ensures HeaderLinks(r, n)
  {
    forall y | 0 <= y <= n
      ensures r.left[y] == a.left[y] && r.right[y] == a.right[y] && r.col[y] == a.col[y]
    {
    }
  }
}
