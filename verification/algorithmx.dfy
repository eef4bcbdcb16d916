/**
  Knuth's Algorithm X as the search in src/dancinglinks.js performs it, stated
  on the abstract state the links encode: the sequence of items covered so far
  (in the order they were covered) and the stack of chosen options.

  While `cov` is covered, an option is live when it shares no item with `cov`;
  the rows of an uncovered column are its live options in option order, and
  its row count is their number. The module Links shows that the linked
  structure holds exactly these rings and counts.
*/
module AlgorithmX {
  import opened Seqs
  import opened Problem

  /** The indices 0 to n - 1 in increasing order. */
  function Range(n: nat): (r: seq<nat>)
    ensures |r| == n && forall i :: 0 <= i < n ==> r[i] == i
  {
    seq(n, i requires 0 <= i => i as nat)
  }

  /** An option is live while none of its items is covered. */
  predicate Live<Item(==)>(o: Opt<Item>, cov: seq<Item>)
  {
    forall x :: x in o.items ==> x !in cov
  }

  /** The options among the first `n` that contain `c` and are live, in option order. */
  function RowsUpTo<Item(==)>(opts: seq<Opt<Item>>, cov: seq<Item>, c: Item, n: nat): (r: seq<nat>)
    requires n <= |opts|
    ensures |r| <= n
    ensures forall i, k :: 0 <= i < k < |r| ==> r[i] < r[k]
    ensures forall j :: j in r <==> 0 <= j < n && c in opts[j].items && Live(opts[j], cov)
    ensures forall i :: 0 <= i < |r| ==> r[i] < n && c in opts[r[i]].items
  {
    if n == 0 then []
    else
      var r := RowsUpTo(opts, cov, c, n - 1);
      assert forall i :: 0 <= i < |r| ==> r[i] in r;
      if c in opts[n - 1].items && Live(opts[n - 1], cov) then r + [n - 1] else r
  }

  /**
    The vertical ring of column `c` while `cov` is covered: the live options
    containing `c`, top to bottom in the order the options were given.
  */
  function Rows<Item(==)>(opts: seq<Opt<Item>>, cov: seq<Item>, c: Item): (r: seq<nat>)
    ensures NoDup(r)
    ensures forall i, k :: 0 <= i < k < |r| ==> r[i] < r[k]
    ensures forall j :: j in r <==> 0 <= j < |opts| && c in opts[j].items && Live(opts[j], cov)
    ensures |r| <= |opts|
    ensures forall i :: 0 <= i < |r| ==> r[i] < |opts| && c in opts[r[i]].items && Live(opts[r[i]], cov)
  {
    var r := RowsUpTo(opts, cov, c, |opts|);
    assert forall i :: 0 <= i < |r| ==> r[i] in r;
    r
  }

  /** The header ring while `cov` is covered: the uncovered items in universe order. */
  function Active<Item(==,!new)>(u: seq<Item>, cov: seq<Item>): (r: seq<Item>)
    ensures forall x :: x in r <==> x in u && x !in cov
    ensures NoDup(u) ==> NoDup(r)
  {
    var r := Filter(x => x !in cov, u);
    assert NoDup(u) ==> NoDup(r) by {
      if NoDup(u) { FilterNoDup(x => x !in cov, u); }
    }
    r
  }

  /** With nothing covered, every item is active. */
  lemma ActiveNone<Item(!new)>(u: seq<Item>)
    ensures Active(u, []) == u
  {
    var cov: seq<Item> := [];
    FilterKeepsAll(x => x !in cov, u);
  }

  /** The row counts met when walking the header ring. */
  function Counts<Item(==)>(opts: seq<Opt<Item>>, cov: seq<Item>, act: seq<Item>): (r: seq<int>)
    ensures |r| == |act|
    ensures forall i :: 0 <= i < |act| ==> r[i] == |Rows(opts, cov, act[i])|
  {
    seq(|act|, i requires 0 <= i < |act| => |Rows(opts, cov, act[i])|)
  }

  // ---------------------------------------------------------------------------
  // selectColumn
  // ---------------------------------------------------------------------------

  /**
    The loop of selectColumn from position `i` of the header ring on, `best`
    being the column kept so far: a zero count is returned at once, otherwise
    the column kept is replaced only by a strictly smaller count.
  */
  function SelectFrom(counts: seq<int>, i: nat, best: Option<nat>): (r: Option<nat>)
    requires i <= |counts|
    requires best.Some? ==> best.value < i
    decreases |counts| - i
  {
    if i == |counts| then best
    else if counts[i] == 0 then Some(i)
    else if best.None? || counts[i] < counts[best.value] then SelectFrom(counts, i + 1, Some(i))
    else SelectFrom(counts, i + 1, best)
  }

  /** selectColumn: the position in the header ring of the column to branch on. */
  function SelectColumn(counts: seq<int>): Option<nat>
  {
    SelectFrom(counts, 0, None)
  }

  /** No zero before `i`, and `best` is the first position of the least count before `i`. */
  predicate SelectSoFar(counts: seq<int>, i: nat, best: Option<nat>)
    requires i <= |counts|
  {
    && (forall k :: 0 <= k < i ==> counts[k] != 0)
    && (best.None? <==> i == 0)
    && (best.Some? ==>
          && best.value < i
          && (forall k :: 0 <= k < i ==> counts[best.value] <= counts[k])
          && (forall k :: 0 <= k < best.value ==> counts[best.value] < counts[k]))
  }

  lemma {:induction false} SelectFromSpec(counts: seq<int>, i: nat, best: Option<nat>)
    requires i <= |counts| && SelectSoFar(counts, i, best)
    ensures var r := SelectFrom(counts, i, best);
      && (r.None? <==> counts == [])
      && (r.Some? ==> r.value < |counts|)
      && (r.Some? && counts[r.value] == 0 ==> forall k :: 0 <= k < r.value ==> counts[k] != 0)
      && (r.Some? && counts[r.value] != 0 ==>
            && (forall k :: 0 <= k < |counts| ==> counts[k] != 0 && counts[r.value] <= counts[k])
            && (forall k :: 0 <= k < r.value ==> counts[r.value] < counts[k]))
    decreases |counts| - i
  {
    if i < |counts| && counts[i] != 0 {
      if best.None? || counts[i] < counts[best.value] {
        SelectFromSpec(counts, i + 1, Some(i));
      } else {
        SelectFromSpec(counts, i + 1, best);
      }
    }
  }

  /**
    selectColumn returns nothing exactly when the header ring is empty; it
    returns the first column with no rows if there is one, and otherwise the
    first column of least row count.
  */
  lemma SelectColumnSpec(counts: seq<int>)
    ensures SelectColumn(counts).None? <==> counts == []
    ensures SelectColumn(counts).Some? ==> SelectColumn(counts).value < |counts|
    ensures (exists k :: 0 <= k < |counts| && counts[k] == 0) ==>
              && SelectColumn(counts).Some?
              && counts[SelectColumn(counts).value] == 0
              && forall k :: 0 <= k < SelectColumn(counts).value ==> counts[k] != 0
    ensures (forall k :: 0 <= k < |counts| ==> counts[k] != 0) && counts != [] ==>
              && SelectColumn(counts).Some?
              && (forall k :: 0 <= k < |counts| ==> counts[SelectColumn(counts).value] <= counts[k])
              && (forall k :: 0 <= k < SelectColumn(counts).value ==> counts[SelectColumn(counts).value] < counts[k])
  {
    SelectFromSpec(counts, 0, None);
  }

  // ---------------------------------------------------------------------------
  // The search
  // ---------------------------------------------------------------------------

  /**
    The items of a row met when walking right from the node of `c`: those
    after `c`, then those before it (the row is a circular list).
  */
  function Peers<Item(==,!new)>(items: seq<Item>, c: Item): (r: seq<Item>)
    requires c in items
    ensures |r| == |items| - 1
    ensures NoDup(items) ==> NoDup([c] + r) && forall x :: x in r <==> x in items && x != c
  {
    var p := IndexOf(items, c);
    var r := items[p + 1..] + items[..p];
    assert NoDup(items) ==> NoDup([c] + r) && forall x :: x in r <==> x in items && x != c by {
     if NoDup(items) {
      forall i, k | 0 <= i < k < |[c] + r| ensures ([c] + r)[i] != ([c] + r)[k] {
        var pi := if i == 0 then p else if i - 1 < |items| - p - 1 then p + i else i - 1 - (|items| - p - 1);
        var pk := if k - 1 < |items| - p - 1 then p + k else k - 1 - (|items| - p - 1);
        assert ([c] + r)[i] == items[pi];
        assert ([c] + r)[k] == items[pk];
      }
      assert forall x :: x in items ==> x == c || x in items[p + 1..] || x in items[..p] by {
        assert items == items[..p] + [c] + items[p + 1..];
      }
     }
    }
    r
  }

  /**
    The state the search keeps: options without repeated items over the
    duplicate-free universe `u`; `cov` lists distinct items of `u`; the stack
    holds valid, non-empty, pairwise disjoint options whose items are exactly
    the covered ones.
  */
  predicate SearchInv<Item(==,!new)>(opts: seq<Opt<Item>>, u: seq<Item>, cov: seq<Item>, stack: seq<nat>)
  {
    && (forall j :: 0 <= j < |opts| ==> NoDup(opts[j].items))
    && NoDup(u)
    && (forall j, x :: 0 <= j < |opts| && x in opts[j].items ==> x in u)
    && (forall x :: x in u ==> exists j :: 0 <= j < |opts| && x in opts[j].items)
    && NoDup(cov)
    && (forall x :: x in cov ==> x in u)
    && (forall i :: 0 <= i < |stack| ==> stack[i] < |opts| && opts[stack[i]].items != [])
    && (forall i, k :: 0 <= i < k < |stack| ==> Disjoint(opts[stack[i]], opts[stack[k]]))
    && ToSet(cov) == CoveredBy(opts, stack)
  }

  /** The covered items never outnumber the universe, and are fewer while some item is uncovered. */
  lemma CoveredBound<Item(!new)>(u: seq<Item>, cov: seq<Item>)
    requires NoDup(u) && NoDup(cov) && forall x :: x in cov ==> x in u
    ensures |cov| <= |u|
    ensures (exists x :: x in u && x !in cov) ==> |cov| < |u|
  {
    NoDupCard(u);
    NoDupCard(cov);
    var a, b := ToSet(cov), ToSet(u);
    assert a <= b;
    assert |b - a| == |b| - |a|;
    if exists x :: x in u && x !in cov {
      var x :| x in u && x !in cov;
      assert x in b - a;
    }
  }

  /** Choosing a live row of an uncovered column: push it and cover its column and its peers. */
  function Choose<Item(==,!new)>(opts: seq<Opt<Item>>, cov: seq<Item>, c: Item, j: nat): seq<Item>
    requires j < |opts| && c in opts[j].items
  {
    cov + [c] + Peers(opts[j].items, c)
  }

  lemma ChooseInv<Item(!new)>(opts: seq<Opt<Item>>, u: seq<Item>, cov: seq<Item>, stack: seq<nat>, c: Item, j: nat)
    requires SearchInv(opts, u, cov, stack)
    requires j < |opts| && c in opts[j].items && Live(opts[j], cov)
    ensures SearchInv(opts, u, Choose(opts, cov, c, j), stack + [j])
    ensures |Choose(opts, cov, c, j)| > |cov|
    ensures ToSet(Choose(opts, cov, c, j)) == ToSet(cov) + ToSet(opts[j].items)
  {
    var ps := [c] + Peers(opts[j].items, c);
    var cov' := Choose(opts, cov, c, j);
    assert cov' == cov + ps;
    assert forall x :: x in ps <==> x in opts[j].items;
    forall i, k | 0 <= i < k < |cov'| ensures cov'[i] != cov'[k] {
      if k >= |cov| && i < |cov| {
        assert cov'[k] in ps;
        assert cov'[i] in cov;
      } else if i >= |cov| {
        assert cov'[i] == ps[i - |cov|] && cov'[k] == ps[k - |cov|];
      }
    }
    var stack' := stack + [j];
    forall i, k | 0 <= i < k < |stack'| ensures Disjoint(opts[stack'[i]], opts[stack'[k]]) {
      if k == |stack| {
        forall x | x in opts[stack[i]].items ensures x !in opts[j].items {
          assert x in CoveredBy(opts, stack);
        }
      }
    }
    assert stack'[..|stack|] == stack;
    assert ToSet(cov') == ToSet(cov) + ToSet(opts[j].items);
  }

  /**
    search(): when the header ring is empty the stack is a solution; when the
    selected column has no rows the branch is a dead end; otherwise each row
    of the selected column is tried in turn, top to bottom.
  */
  function Search<Item(==,!new)>(opts: seq<Opt<Item>>, u: seq<Item>, cov: seq<Item>, stack: seq<nat>): seq<seq<nat>>
    requires SearchInv(opts, u, cov, stack)
    decreases |u| - |cov|, |opts| + 1
  {
    CoveredBound(u, cov);
    var act := Active(u, cov);
    match SelectColumn(Counts(opts, cov, act))
    case None => [stack]
    case Some(k) =>
      SelectColumnSpec(Counts(opts, cov, act));
      var rows := Rows(opts, cov, act[k]);
      if |rows| == 0 then []
      else Branches(opts, u, cov, stack, act[k], rows)
  }

  /** Every one of `rows` is a live option holding `c`. */
  predicate LiveRows<Item(==,!new)>(opts: seq<Opt<Item>>, cov: seq<Item>, c: Item, rows: seq<nat>)
  {
    forall i :: 0 <= i < |rows| ==> rows[i] < |opts| && c in opts[rows[i]].items && Live(opts[rows[i]], cov)
  }

  /** The first of some live rows is live, and so are the others. */
  lemma LiveRowsSplit<Item(!new)>(opts: seq<Opt<Item>>, cov: seq<Item>, c: Item, rows: seq<nat>)
    requires LiveRows(opts, cov, c, rows) && rows != []
    ensures rows[0] < |opts| && c in opts[rows[0]].items && Live(opts[rows[0]], cov)
    ensures LiveRows(opts, cov, c, rows[1..])
  {
  }

  /** The loop over the rows of the selected column `c`: each row's results, in row order. */
  function Branches<Item(==,!new)>(opts: seq<Opt<Item>>, u: seq<Item>, cov: seq<Item>, stack: seq<nat>, c: Item, rows: seq<nat>): seq<seq<nat>>
    requires SearchInv(opts, u, cov, stack)
    requires c in u && c !in cov
    requires |rows| <= |opts|
    requires LiveRows(opts, cov, c, rows)
    decreases |u| - |cov|, |rows|
  {
    if rows == [] then []
    else
      var j := rows[0];
      ChooseInv(opts, u, cov, stack, c, j);
      CoveredBound(u, Choose(opts, cov, c, j));
      Search(opts, u, Choose(opts, cov, c, j), stack + [j])
        + Branches(opts, u, cov, stack, c, rows[1..])
  }

  // ---------------------------------------------------------------------------
  // Soundness: every yielded stack is an exact cover
  // ---------------------------------------------------------------------------

  /**
    `t` extends the stack `stack` to a solution: it starts with `stack`, and
    its options are valid, non-empty, pairwise disjoint and cover all of `u`.
  */
  predicate Extends<Item(==,!new)>(opts: seq<Opt<Item>>, u: seq<Item>, stack: seq<nat>, t: seq<nat>)
  {
    && |stack| <= |t| && t[..|stack|] == stack
    && (forall i :: 0 <= i < |t| ==> t[i] < |opts| && opts[t[i]].items != [])
    && (forall i, k :: 0 <= i < k < |t| ==> Disjoint(opts[t[i]], opts[t[k]]))
    && CoveredBy(opts, t) == ToSet(u)
  }

  lemma {:induction false} SearchSound<Item(!new)>(opts: seq<Opt<Item>>, u: seq<Item>, cov: seq<Item>, stack: seq<nat>)
    requires SearchInv(opts, u, cov, stack)
    ensures forall t :: t in Search(opts, u, cov, stack) ==> Extends(opts, u, stack, t)
    decreases |u| - |cov|, |opts| + 1
  {
    CoveredBound(u, cov);
    var act := Active(u, cov);
    var counts := Counts(opts, cov, act);
    SelectColumnSpec(counts);
    match SelectColumn(counts)
    case None =>
      assert forall x :: x in u ==> x in ToSet(cov);
    case Some(k) =>
      var rows := Rows(opts, cov, act[k]);
      if |rows| != 0 {
        BranchesSound(opts, u, cov, stack, act[k], rows);
      }
  }

  /** A solution that extends the stack with one more option also extends the stack. */
  lemma ExtendsPop<Item(!new)>(opts: seq<Opt<Item>>, u: seq<Item>, stack: seq<nat>, j: nat, t: seq<nat>)
    requires Extends(opts, u, stack + [j], t)
    ensures Extends(opts, u, stack, t)
  {
    assert t[..|stack|] == t[..|stack| + 1][..|stack|];
  }

  lemma {:induction false} BranchesSound<Item(!new)>(opts: seq<Opt<Item>>, u: seq<Item>, cov: seq<Item>, stack: seq<nat>, c: Item, rows: seq<nat>)
    requires SearchInv(opts, u, cov, stack)
    requires c in u && c !in cov
    requires |rows| <= |opts|
    requires LiveRows(opts, cov, c, rows)
    ensures forall t :: t in Branches(opts, u, cov, stack, c, rows) ==> Extends(opts, u, stack, t)
    decreases |u| - |cov|, |rows|
  {
    if rows != [] {
      var j := rows[0];
      LiveRowsSplit(opts, cov, c, rows);
      BranchesUnfold(opts, u, cov, stack, c, rows);
      CoveredBound(u, Choose(opts, cov, c, j));
      SearchSound(opts, u, Choose(opts, cov, c, j), stack + [j]);
      BranchesSound(opts, u, cov, stack, c, rows[1..]);
      forall t | t in Search(opts, u, Choose(opts, cov, c, j), stack + [j]) ensures Extends(opts, u, stack, t) {
        ExtendsPop(opts, u, stack, j, t);
      }
    }
  }

  // ---------------------------------------------------------------------------
  // Completeness: every exact cover is yielded exactly once
  // ---------------------------------------------------------------------------

  /** A set of option indices is an exact cover of `u`: valid, non-empty, pairwise disjoint options that cover `u`. */
  predicate ExactSet<Item(==,!new)>(opts: seq<Opt<Item>>, u: seq<Item>, s: set<nat>)
  {
    && (forall j :: j in s ==> j < |opts| && opts[j].items != [])
    && (forall j, k :: j in s && k in s && j != k ==> Disjoint(opts[j], opts[k]))
    && (forall x :: x in u ==> exists j :: j in s && x in opts[j].items)
  }

  /** How many of the yielded stacks consist of exactly the options `s`, in any order. */
  function CountSet(sols: seq<seq<nat>>, s: set<nat>): nat
  {
    if sols == [] then 0
    else (if ToSet(sols[0]) == s then 1 else 0) + CountSet(sols[1..], s)
  }

  lemma {:induction false} CountSetAppend(a: seq<seq<nat>>, b: seq<seq<nat>>, s: set<nat>)
    ensures CountSet(a + b, s) == CountSet(a, s) + CountSet(b, s)
    decreases |a|
  {
    if a != [] {
      assert (a + b)[0] == a[0];
      assert (a + b)[1..] == a[1..] + b;
      CountSetAppend(a[1..], b, s);
    } else {
      assert a + b == b;
    }
  }

  lemma {:induction false} CountSetNone(sols: seq<seq<nat>>, s: set<nat>, j: nat)
    requires forall t :: t in sols ==> j in t
    requires j !in s
    ensures CountSet(sols, s) == 0
    decreases |sols|
  {
    if sols != [] {
      assert sols[0] in sols;
      assert j in ToSet(sols[0]);
      CountSetNone(sols[1..], s, j);
    }
  }

  /** An option disjoint from every option on the stack has no covered item. */
  lemma DisjointFromStack<Item(!new)>(opts: seq<Opt<Item>>, stack: seq<nat>, o: Opt<Item>)
    requires forall i :: 0 <= i < |stack| ==> stack[i] < |opts| && Disjoint(opts[stack[i]], o)
    ensures forall x :: x in o.items ==> x !in CoveredBy(opts, stack)
  {
  }

  /** The options still to be chosen for a target cover are live and each has an uncovered item. */
  lemma RestLive<Item(!new)>(opts: seq<Opt<Item>>, u: seq<Item>, cov: seq<Item>, stack: seq<nat>, rest: set<nat>)
    requires SearchInv(opts, u, cov, stack)
    requires ToSet(stack) !! rest
    requires ExactSet(opts, u, ToSet(stack) + rest)
    ensures forall j :: j in rest ==> Live(opts[j], cov) && opts[j].items[0] in u && opts[j].items[0] !in cov
  {
    forall j | j in rest ensures Live(opts[j], cov) {
      forall i | 0 <= i < |stack| ensures Disjoint(opts[stack[i]], opts[j]) {
        assert stack[i] in ToSet(stack);
      }
      DisjointFromStack(opts, stack, opts[j]);
    }
  }

  /** The option of the target cover that holds the uncovered item `c`. */
  lemma Owner<Item(!new)>(opts: seq<Opt<Item>>, u: seq<Item>, cov: seq<Item>, stack: seq<nat>, rest: set<nat>, c: Item)
    returns (s: nat)
    requires SearchInv(opts, u, cov, stack)
    requires ToSet(stack) !! rest
    requires ExactSet(opts, u, ToSet(stack) + rest)
    requires c in u && c !in cov
    ensures s in rest && s in Rows(opts, cov, c)
  {
    s :| s in ToSet(stack) + rest && c in opts[s].items;
    assert c !in CoveredBy(opts, stack);
    assert s !in ToSet(stack);
    RestLive(opts, u, cov, stack, rest);
  }

  /** A row of `c` other than its owner in the target is not in the target. */
  lemma OtherRowOutside<Item(!new)>(opts: seq<Opt<Item>>, u: seq<Item>, cov: seq<Item>, stack: seq<nat>, rest: set<nat>, c: Item, s: nat, j: nat)
    requires SearchInv(opts, u, cov, stack)
    requires ExactSet(opts, u, ToSet(stack) + rest)
    requires c !in cov
    requires s in rest && c in opts[s].items
    requires j < |opts| && c in opts[j].items && j != s
    ensures j !in ToSet(stack) + rest
  {
    assert c !in CoveredBy(opts, stack);
    assert j !in ToSet(stack);
    assert j in rest ==> Disjoint(opts[s], opts[j]);
  }

  /** When a column with rows is selected, the search is the loop over its rows. */
  lemma SearchBranches<Item(!new)>(opts: seq<Opt<Item>>, u: seq<Item>, cov: seq<Item>, stack: seq<nat>, k: nat)
    requires SearchInv(opts, u, cov, stack)
    requires SelectColumn(Counts(opts, cov, Active(u, cov))) == Some(k)
    requires k < |Active(u, cov)| && |Rows(opts, cov, Active(u, cov)[k])| != 0
    ensures Active(u, cov)[k] in u && Active(u, cov)[k] !in cov
    ensures Search(opts, u, cov, stack)
         == Branches(opts, u, cov, stack, Active(u, cov)[k], Rows(opts, cov, Active(u, cov)[k]))
  {
  }

  /** With nothing left uncovered, the stack alone is the target cover and is yielded once. */
  lemma CompleteAtLeaf<Item(!new)>(opts: seq<Opt<Item>>, u: seq<Item>, cov: seq<Item>, stack: seq<nat>, rest: set<nat>)
    requires SearchInv(opts, u, cov, stack)
    requires ToSet(stack) !! rest
    requires ExactSet(opts, u, ToSet(stack) + rest)
    requires SelectColumn(Counts(opts, cov, Active(u, cov))).None?
    ensures CountSet(Search(opts, u, cov, stack), ToSet(stack) + rest) == 1
  {
    SelectColumnSpec(Counts(opts, cov, Active(u, cov)));
    assert forall x :: x in u ==> x in cov;
    RestLive(opts, u, cov, stack, rest);
    assert rest == {};
    assert Search(opts, u, cov, stack) == [stack];
  }

  /** A row that is not the owner of `c` in the target yields nothing of the target. */
  lemma CompleteOtherRow<Item(!new)>(opts: seq<Opt<Item>>, u: seq<Item>, cov: seq<Item>, stack: seq<nat>, c: Item, rest: set<nat>, s: nat, j: nat)
    requires SearchInv(opts, u, cov, stack)
    requires c in u && c !in cov
    requires j < |opts| && c in opts[j].items && Live(opts[j], cov)
    requires ExactSet(opts, u, ToSet(stack) + rest)
    requires s in rest && c in opts[s].items && j != s
    ensures SearchInv(opts, u, Choose(opts, cov, c, j), stack + [j])
    ensures CountSet(Search(opts, u, Choose(opts, cov, c, j), stack + [j]), ToSet(stack) + rest) == 0
  {
    var cov' := Choose(opts, cov, c, j);
    ChooseInv(opts, u, cov, stack, c, j);
    OtherRowOutside(opts, u, cov, stack, rest, c, s, j);
    SearchSound(opts, u, cov', stack + [j]);
    var first := Search(opts, u, cov', stack + [j]);
    forall t | t in first ensures j in t {
      assert Extends(opts, u, stack + [j], t);
      assert t[|stack|] == (stack + [j])[|stack|];
    }
    CountSetNone(first, ToSet(stack) + rest, j);
  }

  lemma {:induction false} SearchComplete<Item(!new)>(opts: seq<Opt<Item>>, u: seq<Item>, cov: seq<Item>, stack: seq<nat>, rest: set<nat>)
    requires SearchInv(opts, u, cov, stack)
    requires ToSet(stack) !! rest
    requires ExactSet(opts, u, ToSet(stack) + rest)
    ensures CountSet(Search(opts, u, cov, stack), ToSet(stack) + rest) == 1
    decreases |u| - |cov|, |opts| + 3
  {
    var act := Active(u, cov);
    var counts := Counts(opts, cov, act);
    SelectColumnSpec(counts);
    match SelectColumn(counts)
    case None =>
      CompleteAtLeaf(opts, u, cov, stack, rest);
    case Some(k) =>
      var c := act[k];
      var rows := Rows(opts, cov, c);
      var s := Owner(opts, u, cov, stack, rest, c);
      assert |rows| != 0 by { assert s in rows; }
      SearchBranches(opts, u, cov, stack, k);
      BranchesComplete(opts, u, cov, stack, c, rows, rest, s);
  }

  /** The loop over rows: the first row's results, then the rest. */
  lemma BranchesUnfold<Item(!new)>(opts: seq<Opt<Item>>, u: seq<Item>, cov: seq<Item>, stack: seq<nat>, c: Item, rows: seq<nat>)
    requires SearchInv(opts, u, cov, stack)
    requires c in u && c !in cov
    requires 0 < |rows| <= |opts|
    requires LiveRows(opts, cov, c, rows)
    ensures SearchInv(opts, u, Choose(opts, cov, c, rows[0]), stack + [rows[0]])
    ensures Branches(opts, u, cov, stack, c, rows)
         == Search(opts, u, Choose(opts, cov, c, rows[0]), stack + [rows[0]]) + Branches(opts, u, cov, stack, c, rows[1..])
  {
    ChooseInv(opts, u, cov, stack, c, rows[0]);
  }

  /** Pushing an option of the remaining target moves it from the remainder to the stack. */
  lemma MoveToStack(stack: seq<nat>, rest: set<nat>, s: nat)
    requires ToSet(stack) !! rest && s in rest
    ensures ToSet(stack + [s]) !! rest - {s}
    ensures ToSet(stack + [s]) + (rest - {s}) == ToSet(stack) + rest
  {
    assert ToSet(stack + [s]) == ToSet(stack) + {s};
  }

  /** The row that owns `c` in the target yields the target exactly once. */
  lemma {:induction false} CompleteOwnerRow<Item(!new)>(opts: seq<Opt<Item>>, u: seq<Item>, cov: seq<Item>, stack: seq<nat>, c: Item, rest: set<nat>, s: nat)
    requires SearchInv(opts, u, cov, stack)
    requires c in u && c !in cov
    requires ToSet(stack) !! rest
    requires ExactSet(opts, u, ToSet(stack) + rest)
    requires s in rest && s < |opts| && c in opts[s].items && Live(opts[s], cov)
    ensures SearchInv(opts, u, Choose(opts, cov, c, s), stack + [s])
    ensures CountSet(Search(opts, u, Choose(opts, cov, c, s), stack + [s]), ToSet(stack) + rest) == 1
    decreases |u| - |cov|, 0
  {
    var cov' := Choose(opts, cov, c, s);
    ChooseInv(opts, u, cov, stack, c, s);
    CoveredBound(u, cov');
    MoveToStack(stack, rest, s);
    SearchComplete(opts, u, cov', stack + [s], rest - {s});
  }

  lemma {:induction false} BranchesComplete<Item(!new)>(opts: seq<Opt<Item>>, u: seq<Item>, cov: seq<Item>, stack: seq<nat>, c: Item, rows: seq<nat>, rest: set<nat>, s: nat)
    requires SearchInv(opts, u, cov, stack)
    requires c in u && c !in cov
    requires |rows| <= |opts| && NoDup(rows)
    requires LiveRows(opts, cov, c, rows)
    requires ToSet(stack) !! rest
    requires ExactSet(opts, u, ToSet(stack) + rest)
    requires s in rest && c in opts[s].items
    ensures CountSet(Branches(opts, u, cov, stack, c, rows), ToSet(stack) + rest) == if s in rows then 1 else 0
    decreases |u| - |cov|, |rows| + 2
  {
    if rows != [] {
      BranchesStep(opts, u, cov, stack, c, rows, rest, s);
      assert NoDup(rows[1..]);
      BranchesComplete(opts, u, cov, stack, c, rows[1..], rest, s);
      assert s in rows <==> s == rows[0] || s in rows[1..];
      assert s == rows[0] ==> s !in rows[1..];
    }
  }

  /** The loop's first row counts the target once when it owns `c`, and the other rows count the rest. */
  lemma BranchesStep<Item(!new)>(opts: seq<Opt<Item>>, u: seq<Item>, cov: seq<Item>, stack: seq<nat>, c: Item, rows: seq<nat>, rest: set<nat>, s: nat)
    requires SearchInv(opts, u, cov, stack)
    requires c in u && c !in cov
    requires 0 < |rows| <= |opts|
    requires LiveRows(opts, cov, c, rows)
    requires ToSet(stack) !! rest
    requires ExactSet(opts, u, ToSet(stack) + rest)
    requires s in rest && c in opts[s].items
    ensures LiveRows(opts, cov, c, rows[1..])
    ensures CountSet(Branches(opts, u, cov, stack, c, rows), ToSet(stack) + rest)
         == (if rows[0] == s then 1 else 0) + CountSet(Branches(opts, u, cov, stack, c, rows[1..]), ToSet(stack) + rest)
    decreases |u| - |cov|, |rows| + 1
  {
    var j := rows[0];
    LiveRowsSplit(opts, cov, c, rows);
    BranchesUnfold(opts, u, cov, stack, c, rows);
    FirstRowCount(opts, u, cov, stack, c, rest, s, j);
    CountSetAppend(Search(opts, u, Choose(opts, cov, c, j), stack + [j]), Branches(opts, u, cov, stack, c, rows[1..]), ToSet(stack) + rest);
  }

  /** One row of `c`: it yields the target once when it is the owner of `c`, and never otherwise. */
  lemma FirstRowCount<Item(!new)>(opts: seq<Opt<Item>>, u: seq<Item>, cov: seq<Item>, stack: seq<nat>, c: Item, rest: set<nat>, s: nat, j: nat)
    requires SearchInv(opts, u, cov, stack)
    requires c in u && c !in cov
    requires j < |opts| && c in opts[j].items && Live(opts[j], cov)
    requires ToSet(stack) !! rest
    requires ExactSet(opts, u, ToSet(stack) + rest)
    requires s in rest && c in opts[s].items
    ensures SearchInv(opts, u, Choose(opts, cov, c, j), stack + [j])
    ensures CountSet(Search(opts, u, Choose(opts, cov, c, j), stack + [j]), ToSet(stack) + rest) == if j == s then 1 else 0
    decreases |u| - |cov|, 1
  {
    if j == s {
      CompleteOwnerRow(opts, u, cov, stack, c, rest, s);
    } else {
      CompleteOtherRow(opts, u, cov, stack, c, rest, s, j);
    }
  }

  /** The stack is a dead end when some uncovered item has no live option: nothing is yielded below it. */
  lemma DeadEnd<Item(!new)>(opts: seq<Opt<Item>>, u: seq<Item>, cov: seq<Item>, stack: seq<nat>, c: Item)
    requires SearchInv(opts, u, cov, stack)
    requires c in u && c !in cov && |Rows(opts, cov, c)| == 0
    ensures Search(opts, u, cov, stack) == []
  {
    var act := Active(u, cov);
    var counts := Counts(opts, cov, act);
    var i :| 0 <= i < |act| && act[i] == c;
    assert counts[i] == 0;
    SelectColumnSpec(counts);
  }

  // ---------------------------------------------------------------------------
  // solve(options, givenOptions)
  // ---------------------------------------------------------------------------

  /** The outcome of placing the given options before the search. */
  datatype Placement<Item> =
    | Placed(cov: seq<Item>, stack: seq<nat>)
    | Impossible
    | Crash

  /**
    The loop over `givenOptions`: an unknown name, a name given twice (its
    entry is deleted once used) or an option that clashes with the options
    already placed makes the solve yield nothing; an option with no items has
    no first node, and reading its column throws. Otherwise the option's items
    are covered from its first node rightwards and its name is pushed.
    The clash test is the corrected one, that every item of the option is
    still uncovered (see GuardAsWritten for the test the source performs).
  */
  function PlaceGivens<Item(==)>(opts: seq<Opt<Item>>, gs: seq<string>, cov: seq<Item>, stack: seq<nat>): (r: Placement<Item>)
    decreases |gs|
  {
    if gs == [] then Placed(cov, stack)
    else match IndexOfName(opts, gs[0])
      case None => Impossible
      case Some(j) =>
        if j in stack then Impossible
        else if opts[j].items == [] then Crash
        else if !Live(opts[j], cov) then Impossible
        else PlaceGivens(opts, gs[1..], cov + opts[j].items, stack + [j])
  }

  /** One given placed: what the loop checked about it, and that the rest continues from there. */
  lemma PlaceGivensStep<Item>(opts: seq<Opt<Item>>, gs: seq<string>, cov: seq<Item>, stack: seq<nat>)
    returns (j: nat)
    requires gs != [] && PlaceGivens(opts, gs, cov, stack).Placed?
    ensures IndexOfName(opts, gs[0]) == Some(j) && j < |opts| && opts[j].name == gs[0]
    ensures j !in stack && opts[j].items != [] && Live(opts[j], cov)
    ensures PlaceGivens(opts, gs, cov, stack) == PlaceGivens(opts, gs[1..], cov + opts[j].items, stack + [j])
  {
    j := IndexOfName(opts, gs[0]).value;
  }

  /** Placing the givens keeps the search invariant. */
  lemma {:induction false} PlaceGivensInv<Item(!new)>(opts: seq<Opt<Item>>, u: seq<Item>, gs: seq<string>, cov: seq<Item>, stack: seq<nat>)
    requires SearchInv(opts, u, cov, stack)
    ensures PlaceGivens(opts, gs, cov, stack).Placed? ==>
      SearchInv(opts, u, PlaceGivens(opts, gs, cov, stack).cov, PlaceGivens(opts, gs, cov, stack).stack)
    decreases |gs|
  {
    if gs != [] && PlaceGivens(opts, gs, cov, stack).Placed? {
      var j := PlaceGivensStep(opts, gs, cov, stack);
      ChooseFirst(opts, cov, j);
      ChooseInv(opts, u, cov, stack, opts[j].items[0], j);
      PlaceGivensInv(opts, u, gs[1..], cov + opts[j].items, stack + [j]);
    }
  }

  /** Placing the givens pushes exactly the given names, in order, on top of the stack. */
  lemma {:induction false} PlaceGivensStack<Item>(opts: seq<Opt<Item>>, gs: seq<string>, cov: seq<Item>, stack: seq<nat>)
    requires forall i :: 0 <= i < |stack| ==> stack[i] < |opts|
    ensures PlaceGivens(opts, gs, cov, stack).Placed? ==>
      var p := PlaceGivens(opts, gs, cov, stack).stack;
      && |p| == |stack| + |gs| && p[..|stack|] == stack
      && (forall i :: 0 <= i < |p| ==> p[i] < |opts|)
      && Names(opts, p)[|stack|..] == gs
    decreases |gs|
  {
    if gs != [] && PlaceGivens(opts, gs, cov, stack).Placed? {
      var j := PlaceGivensStep(opts, gs, cov, stack);
      PlaceGivensStack(opts, gs[1..], cov + opts[j].items, stack + [j]);
      var p := PlaceGivens(opts, gs, cov, stack).stack;
      assert p[..|stack| + 1] == stack + [j];
      assert p[..|stack|] == (stack + [j])[..|stack|];
      var names := Names(opts, p);
      assert names[|stack|] == gs[0];
      assert names[|stack|..] == [gs[0]] + names[|stack| + 1..];
    }
  }

  /** The index stacks that solve yields, or None when it throws. */
  function SolveIndices<Item(==,!new)>(opts: seq<Opt<Item>>, gs: seq<string>): (r: Option<seq<seq<nat>>>)
    requires forall j :: 0 <= j < |opts| ==> NoDup(opts[j].items)
    ensures r.Some? ==> forall i, k :: 0 <= i < |r.value| && 0 <= k < |r.value[i]| ==> r.value[i][k] < |opts|
  {
    var u := Universe(opts);
    assert SearchInv(opts, u, [], []);
    PlaceGivensInv(opts, u, gs, [], []);
    match PlaceGivens(opts, gs, [], [])
    case Placed(cov, stack) =>
      SearchSound(opts, u, cov, stack);
      var sols := Search(opts, u, cov, stack);
      assert forall i :: 0 <= i < |sols| ==> Extends(opts, u, stack, sols[i]) by {
        forall i | 0 <= i < |sols| ensures Extends(opts, u, stack, sols[i]) { assert sols[i] in sols; }
      }
      Some(sols)
    case Impossible => Some([])
    case Crash => None
  }

  /** solve(options, givenOptions): the option names of every solution, or None when the source throws. */
  function Solve<Item(==,!new)>(opts: seq<Opt<Item>>, gs: seq<string>): (r: Option<seq<seq<string>>>)
    requires forall j :: 0 <= j < |opts| ==> NoDup(opts[j].items)
  {
    match SolveIndices(opts, gs)
    case None => None
    case Some(sols) => Some(seq(|sols|, i requires 0 <= i < |sols| => Names(opts, sols[i])))
  }

  // ---------------------------------------------------------------------------
  // What solve promises
  // ---------------------------------------------------------------------------

  /**
    Soundness: every stack solve yields is an exact cover of the items of the
    options, and its names start with the given names, in the given order.
  */
  lemma SolveSound<Item(!new)>(opts: seq<Opt<Item>>, gs: seq<string>)
    requires forall j :: 0 <= j < |opts| ==> NoDup(opts[j].items)
    ensures SolveIndices(opts, gs).Some? ==>
      forall t :: t in SolveIndices(opts, gs).value ==>
        && IsExactCover(opts, t)
        && |gs| <= |t|
        && Names(opts, t)[..|gs|] == gs
  {
    var p := PlaceGivens(opts, gs, [], []);
    if p.Placed? {
      var u := Universe(opts);
      SolvePlaced(opts, gs);
      PlaceGivensStack(opts, gs, [], []);
      SearchSound(opts, u, p.cov, p.stack);
      forall t | t in Search(opts, u, p.cov, p.stack)
        ensures IsExactCover(opts, t) && |gs| <= |t| && Names(opts, t)[..|gs|] == gs
      {
        ExtendsGivens(opts, p.stack, gs, t);
      }
    } else {
      SolveNotPlaced(opts, gs);
    }
  }

  /** A solution extending a stack of the given names is an exact cover starting with those names. */
  lemma ExtendsGivens<Item(!new)>(opts: seq<Opt<Item>>, stack: seq<nat>, gs: seq<string>, t: seq<nat>)
    requires Extends(opts, Universe(opts), stack, t)
    requires |stack| == |gs| && (forall i :: 0 <= i < |stack| ==> stack[i] < |opts|) && Names(opts, stack)[0..] == gs
    ensures IsExactCover(opts, t) && |gs| <= |t| && Names(opts, t)[..|gs|] == gs
  {
    assert Names(opts, t)[..|gs|] == Names(opts, stack);
  }

  /** When some given cannot be placed, solve yields nothing or throws. */
  lemma SolveNotPlaced<Item(!new)>(opts: seq<Opt<Item>>, gs: seq<string>)
    requires forall j :: 0 <= j < |opts| ==> NoDup(opts[j].items)
    requires !PlaceGivens(opts, gs, [], []).Placed?
    ensures SolveIndices(opts, gs) == if PlaceGivens(opts, gs, [], []).Crash? then None else Some([])
  {
  }

  /** Two different members of an exact cover share no item. */
  lemma ExactCoverSet<Item(!new)>(opts: seq<Opt<Item>>, sel: seq<nat>)
    requires IsExactCover(opts, sel)
    ensures ExactSet(opts, Universe(opts), ToSet(sel))
    ensures forall j, k :: j in sel && k in sel && j != k ==> Disjoint(opts[j], opts[k])
  {
    forall j, k | j in sel && k in sel && j != k ensures Disjoint(opts[j], opts[k]) {
      var a :| 0 <= a < |sel| && sel[a] == j;
      var b :| 0 <= b < |sel| && sel[b] == k;
      if b < a {
        assert Disjoint(opts[k], opts[j]);
      }
    }
    forall x | x in Universe(opts) ensures exists j :: j in ToSet(sel) && x in opts[j].items {
      assert x in CoveredBy(opts, sel);
      var i :| 0 <= i < |sel| && x in opts[sel[i]].items;
      assert sel[i] in ToSet(sel);
    }
  }

  /** Covering from the first node of a row covers the row's items in order. */
  lemma ChooseFirst<Item(!new)>(opts: seq<Opt<Item>>, cov: seq<Item>, j: nat)
    requires j < |opts| && opts[j].items != []
    ensures opts[j].items[0] in opts[j].items
    ensures Choose(opts, cov, opts[j].items[0], j) == cov + opts[j].items
  {
    var items := opts[j].items;
    assert IndexOf(items, items[0]) == 0;
    assert items == [items[0]] + Peers(items, items[0]);
  }

  /** An option named by the next given is not on a stack whose names the givens do not repeat. */
  lemma NotOnStack<Item>(opts: seq<Opt<Item>>, stack: seq<nat>, gs: seq<string>, j: nat)
    requires forall i :: 0 <= i < |stack| ==> stack[i] < |opts|
    requires gs != [] && NoDup(Names(opts, stack) + gs)
    requires j < |opts| && opts[j].name == gs[0]
    ensures j !in stack
  {
    var all := Names(opts, stack) + gs;
    forall k | 0 <= k < |stack| ensures stack[k] != j {
      assert all[k] != all[|stack|];
    }
  }

  /** The next given name of an exact cover names a live option of that cover not yet placed. */
  lemma GivenStep<Item(!new)>(opts: seq<Opt<Item>>, u: seq<Item>, gs: seq<string>, cov: seq<Item>, stack: seq<nat>, sel: seq<nat>)
    returns (j: nat)
    requires SearchInv(opts, u, cov, stack) && WellFormed(opts)
    requires IsExactCover(opts, sel)
    requires forall i :: 0 <= i < |stack| ==> stack[i] in sel
    requires gs != [] && NoDup(Names(opts, stack) + gs)
    requires forall g :: g in gs ==> exists i :: 0 <= i < |sel| && opts[sel[i]].name == g
    ensures IndexOfName(opts, gs[0]) == Some(j)
    ensures j in sel && j !in stack && opts[j].items != [] && Live(opts[j], cov)
  {
    var g := gs[0];
    assert g in gs;
    var i :| 0 <= i < |sel| && opts[sel[i]].name == g;
    j := IndexOfName(opts, g).value;
    assert j == sel[i];
    NotOnStack(opts, stack, gs, j);
    LiveInCover(opts, u, cov, stack, sel, j);
  }

  /** An option of an exact cover that holds the stack, not itself on the stack, is live. */
  lemma LiveInCover<Item(!new)>(opts: seq<Opt<Item>>, u: seq<Item>, cov: seq<Item>, stack: seq<nat>, sel: seq<nat>, j: nat)
    requires SearchInv(opts, u, cov, stack)
    requires IsExactCover(opts, sel)
    requires forall i :: 0 <= i < |stack| ==> stack[i] in sel
    requires j in sel && j !in stack
    ensures j < |opts| && opts[j].items != [] && Live(opts[j], cov)
  {
    ExactCoverSet(opts, sel);
    forall i | 0 <= i < |stack| ensures Disjoint(opts[stack[i]], opts[j]) {
      assert stack[i] in sel && stack[i] != j;
    }
    DisjointFromStack(opts, stack, opts[j]);
  }

  lemma NamesSnoc<Item>(opts: seq<Opt<Item>>, stack: seq<nat>, j: nat, gs: seq<string>)
    requires forall i :: 0 <= i < |stack| ==> stack[i] < |opts|
    requires j < |opts| && gs != [] && opts[j].name == gs[0]
    ensures Names(opts, stack + [j]) + gs[1..] == Names(opts, stack) + gs
  {
  }

  /** The next given is placed, and the rest of the givens meet the same conditions from there. */
  lemma GivenPlaced<Item(!new)>(opts: seq<Opt<Item>>, u: seq<Item>, gs: seq<string>, cov: seq<Item>, stack: seq<nat>, sel: seq<nat>)
    returns (j: nat)
    requires SearchInv(opts, u, cov, stack) && WellFormed(opts)
    requires IsExactCover(opts, sel)
    requires forall i :: 0 <= i < |stack| ==> stack[i] in sel
    requires gs != [] && NoDup(Names(opts, stack) + gs)
    requires forall g :: g in gs ==> exists i :: 0 <= i < |sel| && opts[sel[i]].name == g
    ensures j < |opts|
    ensures PlaceGivens(opts, gs, cov, stack) == PlaceGivens(opts, gs[1..], cov + opts[j].items, stack + [j])
    ensures SearchInv(opts, u, cov + opts[j].items, stack + [j])
    ensures forall i :: 0 <= i < |stack + [j]| ==> (stack + [j])[i] in sel
    ensures NoDup(Names(opts, stack + [j]) + gs[1..])
    ensures forall g :: g in gs[1..] ==> exists i :: 0 <= i < |sel| && opts[sel[i]].name == g
  {
    j := GivenStep(opts, u, gs, cov, stack, sel);
    PlaceNext(opts, u, gs, cov, stack, j);
    NamesSnoc(opts, stack, j, gs);
    assert forall g :: g in gs[1..] ==> g in gs;
  }

  /** A given that passes the loop's tests is covered and pushed, and the search invariant carries over. */
  lemma PlaceNext<Item(!new)>(opts: seq<Opt<Item>>, u: seq<Item>, gs: seq<string>, cov: seq<Item>, stack: seq<nat>, j: nat)
    requires SearchInv(opts, u, cov, stack)
    requires gs != [] && IndexOfName(opts, gs[0]) == Some(j)
    requires j !in stack && opts[j].items != [] && Live(opts[j], cov)
    ensures PlaceGivens(opts, gs, cov, stack) == PlaceGivens(opts, gs[1..], cov + opts[j].items, stack + [j])
    ensures SearchInv(opts, u, cov + opts[j].items, stack + [j])
  {
    ChooseFirst(opts, cov, j);
    ChooseInv(opts, u, cov, stack, opts[j].items[0], j);
  }

  /** Givens that are distinct names of options of one exact cover are all placed. */
  lemma {:induction false} PlaceGivensSucceeds<Item(!new)>(opts: seq<Opt<Item>>, u: seq<Item>, gs: seq<string>, cov: seq<Item>, stack: seq<nat>, sel: seq<nat>)
    requires SearchInv(opts, u, cov, stack) && WellFormed(opts)
    requires IsExactCover(opts, sel)
    requires forall i :: 0 <= i < |stack| ==> stack[i] in sel
    requires NoDup(Names(opts, stack) + gs)
    requires forall g :: g in gs ==> exists i :: 0 <= i < |sel| && opts[sel[i]].name == g
    ensures PlaceGivens(opts, gs, cov, stack).Placed?
    ensures forall j :: j in PlaceGivens(opts, gs, cov, stack).stack ==> j in sel
    decreases |gs|
  {
    if gs != [] {
      var j := GivenPlaced(opts, u, gs, cov, stack, sel);
      PlaceGivensSucceeds(opts, u, gs[1..], cov + opts[j].items, stack + [j], sel);
    }
  }

  /** When every given is placed, solve yields what the search yields from there. */
  lemma SolvePlaced<Item(!new)>(opts: seq<Opt<Item>>, gs: seq<string>)
    requires forall j :: 0 <= j < |opts| ==> NoDup(opts[j].items)
    requires PlaceGivens(opts, gs, [], []).Placed?
    ensures SearchInv(opts, Universe(opts), PlaceGivens(opts, gs, [], []).cov, PlaceGivens(opts, gs, [], []).stack)
    ensures SolveIndices(opts, gs)
         == Some(Search(opts, Universe(opts), PlaceGivens(opts, gs, [], []).cov, PlaceGivens(opts, gs, [], []).stack))
  {
    assert SearchInv(opts, Universe(opts), [], []);
    PlaceGivensInv(opts, Universe(opts), gs, [], []);
  }

  /**
    Completeness: when the given names are distinct and all belong to an exact
    cover, solve yields that cover exactly once (as a set of options, in
    whatever order the search chose them).
  */
  lemma SolveComplete<Item(!new)>(opts: seq<Opt<Item>>, gs: seq<string>, sel: seq<nat>)
    requires WellFormed(opts)
    requires IsExactCover(opts, sel)
    requires NoDup(gs)
    requires forall g :: g in gs ==> exists i :: 0 <= i < |sel| && opts[sel[i]].name == g
    ensures SolveIndices(opts, gs).Some?
    ensures CountSet(SolveIndices(opts, gs).value, ToSet(sel)) == 1
  {
    var cov, stack := PlacedInside(opts, gs, sel);
    SolvePlaced(opts, gs);
    CompleteFrom(opts, Universe(opts), cov, stack, sel);
  }

  /** Givens that name distinct options of an exact cover are placed, and the placement stays inside it. */
  lemma PlacedInside<Item(!new)>(opts: seq<Opt<Item>>, gs: seq<string>, sel: seq<nat>) returns (cov: seq<Item>, stack: seq<nat>)
    requires WellFormed(opts)
    requires IsExactCover(opts, sel)
    requires NoDup(gs)
    requires forall g :: g in gs ==> exists i :: 0 <= i < |sel| && opts[sel[i]].name == g
    ensures PlaceGivens(opts, gs, [], []) == Placed(cov, stack)
    ensures forall j :: j in stack ==> j in sel
  {
    var u := Universe(opts);
    assert SearchInv(opts, u, [], []);
    assert Names(opts, []) + gs == gs;
    PlaceGivensSucceeds(opts, u, gs, [], [], sel);
    cov, stack := PlaceGivens(opts, gs, [], []).cov, PlaceGivens(opts, gs, [], []).stack;
  }

  /** From any placement inside an exact cover, the search yields that cover exactly once. */
  lemma CompleteFrom<Item(!new)>(opts: seq<Opt<Item>>, u: seq<Item>, cov: seq<Item>, stack: seq<nat>, sel: seq<nat>)
    requires u == Universe(opts)
    requires SearchInv(opts, u, cov, stack)
    requires IsExactCover(opts, sel)
    requires forall j :: j in stack ==> j in sel
    ensures CountSet(Search(opts, u, cov, stack), ToSet(sel)) == 1
  {
    ExactCoverSet(opts, sel);
    var rest := ToSet(sel) - ToSet(stack);
    assert ToSet(stack) + rest == ToSet(sel);
    SearchComplete(opts, u, cov, stack, rest);
  }

  // ---------------------------------------------------------------------------
  // The given-option test as the source writes it
  // ---------------------------------------------------------------------------

  /**
    The items covered before `c` was. A column's ring stops changing once the
    column is covered, so a covered column still lists the options that were
    live just before it was covered.
  */
  function CoveredBefore<Item(==)>(cov: seq<Item>, c: Item): (r: seq<Item>)
    ensures c !in r
    ensures forall x :: x in r ==> x in cov
    ensures c !in cov ==> r == cov
    ensures c in cov ==> |r| < |cov| && r == cov[..|r|] && cov[|r|] == c
  {
    if c in cov then cov[..IndexOf(cov, c)] else cov
  }

  /**
    The test of the givens loop as the source writes it:
    `columnContains(row.column, row)` looks for the option's first node in the
    ring of the column of its first item, which only says that the first item
    was uncovered when that column was last covered.
  */
  predicate GuardAsWritten<Item(==)>(opts: seq<Opt<Item>>, cov: seq<Item>, j: nat)
    requires j < |opts|
  {
    opts[j].items != [] && j in Rows(opts, CoveredBefore(cov, opts[j].items[0]), opts[j].items[0])
  }

  /** Every option the corrected test admits (all its items uncovered), the written test admits too. */
  lemma GuardAsWrittenWeaker<Item>(opts: seq<Opt<Item>>, cov: seq<Item>, j: nat)
    requires j < |opts| && opts[j].items != []
    requires Live(opts[j], cov)
    ensures GuardAsWritten(opts, cov, j)
  {
    assert opts[j].items[0] in opts[j].items;
  }

  /**
    The written test admits an option that overlaps a given already placed:
    with A = [x, c] and B = [c, y], placing A covers x and c, yet B is still
    in the ring of its first item c (c was covered after x, when B was live).
    The source then covers c a second time and yields [A, B], which covers c
    twice; with the corrected test the givens [A, B] are impossible.
  */
  lemma GuardAsWrittenAdmitsOverlap()
    ensures var opts := [Opt("A", ['x', 'c']), Opt("B", ['c', 'y'])];
      && PlaceGivens(opts, ["A"], [], []) == Placed(['x', 'c'], [0])
      && GuardAsWritten(opts, ['x', 'c'], 1)
      && !Live(opts[1], ['x', 'c'])
      && !Disjoint(opts[0], opts[1])
      && PlaceGivens(opts, ["A", "B"], [], []) == Impossible
  {
    var opts := [Opt("A", ['x', 'c']), Opt("B", ['c', 'y'])];
    assert IndexOfName(opts, "A") == Some(0);
    assert IndexOfName(opts, "B") == Some(1);
    assert CoveredBefore(['x', 'c'], 'c') == ['x'];
    assert 1 in Rows(opts, ['x'], 'c');
    assert 'c' in opts[1].items && 'c' in ['x', 'c'];
  }
}
