/** Small sequence and string utilities shared by the rest of the model. */
module Seqs {

  /** A value that may be absent (JavaScript's `undefined` result of a failed lookup). */
  datatype Option<T> = None | Some(value: T)

  /** The elements of `xs` that satisfy `p`, in their original order. */
  function Filter<T(!new)>(p: T -> bool, xs: seq<T>): (r: seq<T>)
    ensures |r| <= |xs|
    ensures forall x :: x in r <==> x in xs && p(x)
    ensures IsSubsequence(r, xs)
  {
    if xs == [] then []
    else
      var rest := Filter(p, xs[1..]);
      assert xs == [xs[0]] + xs[1..];
      if p(xs[0]) then [xs[0]] + rest else rest
  }

  /** Filtering a non-empty list: its head, if kept, then the filtered tail. */
  lemma FilterUnfold<T(!new)>(p: T -> bool, xs: seq<T>)
    requires xs != []
    ensures Filter(p, xs) == (if p(xs[0]) then [xs[0]] else []) + Filter(p, xs[1..])
  {
  }

  /** A filter every element passes keeps the whole list. */
  lemma {:induction false} FilterKeepsAll<T(!new)>(p: T -> bool, xs: seq<T>)
    requires forall x :: x in xs ==> p(x)
    ensures Filter(p, xs) == xs
  {
    if xs != [] {
      FilterUnfold(p, xs);
      FilterKeepsAll(p, xs[1..]);
    }
  }

  /** Positions in a list's tail, as positions in the list. */
  function Shift(pr: seq<nat>): (r: seq<nat>)
    ensures |r| == |pr| && forall i :: 0 <= i < |pr| ==> r[i] == pr[i] + 1
  {
    seq(|pr|, i requires 0 <= i < |pr| => pr[i] + 1)
  }

  /** Positions of `rest` inside `xs[1..]` are, shifted, positions of `rest` inside `xs`. */
  lemma ShiftPositions<T>(xs: seq<T>, rest: seq<T>, pr: seq<nat>)
    requires xs != [] && |pr| == |rest| && Increasing(pr)
    requires forall i :: 0 <= i < |pr| ==> pr[i] < |xs| - 1 && xs[1..][pr[i]] == rest[i]
    ensures Increasing(Shift(pr)) && forall i :: 0 <= i < |pr| ==> 1 <= Shift(pr)[i] < |xs| && xs[Shift(pr)[i]] == rest[i]
  {
    var sh := Shift(pr);
    forall i | 0 <= i < |sh| ensures 1 <= sh[i] < |xs| && xs[sh[i]] == rest[i] {
      assert xs[1..][pr[i]] == rest[i];
    }
    forall a, b | 0 <= a < b < |sh| ensures sh[a] < sh[b] {
      assert pr[a] < pr[b];
    }
  }

  /** Putting the head's position 0 in front keeps the positions increasing and matching. */
  lemma HeadPositions<T>(xs: seq<T>, rest: seq<T>, sh: seq<nat>)
    requires xs != [] && |sh| == |rest| && Increasing(sh)
    requires forall i :: 0 <= i < |sh| ==> 1 <= sh[i] < |xs| && xs[sh[i]] == rest[i]
    ensures Increasing([0] + sh)
    ensures forall t :: 0 <= t < |sh| + 1 ==> ([0] + sh)[t] < |xs| && xs[([0] + sh)[t]] == ([xs[0]] + rest)[t]
  {
    var pos := [0] + sh;
    var r := [xs[0]] + rest;
    forall a, b | 0 <= a < b < |pos| ensures pos[a] < pos[b] {
      assert pos[b] == sh[b - 1];
      if a > 0 { assert pos[a] == sh[a - 1]; }
    }
    forall t | 0 <= t < |pos| ensures pos[t] < |xs| && xs[pos[t]] == r[t] {
      if t > 0 { assert pos[t] == sh[t - 1] && r[t] == rest[t - 1]; }
    }
  }

  /** Where the kept elements come from: strictly increasing positions of the input. */
  lemma {:induction false} FilterPositions<T(!new)>(p: T -> bool, xs: seq<T>) returns (pos: seq<nat>)
    ensures |pos| == |Filter(p, xs)| && Increasing(pos)
    ensures forall t :: 0 <= t < |pos| ==> pos[t] < |xs| && xs[pos[t]] == Filter(p, xs)[t]
    decreases |xs|
  {
    if xs == [] {
      return [];
    }
    var pr := FilterPositions(p, xs[1..]);
    var rest := Filter(p, xs[1..]);
    FilterUnfold(p, xs);
    ShiftPositions(xs, rest, pr);
    if p(xs[0]) {
      HeadPositions(xs, rest, Shift(pr));
      pos := [0] + Shift(pr);
    } else {
      pos := Shift(pr);
    }
  }

  /** Filtering keeps the order the kept elements have in a list without repeats. */
  lemma FilterOrder<T(!new)>(p: T -> bool, xs: seq<T>, t: nat, t': nat)
    requires NoDup(xs) && t < t' < |Filter(p, xs)|
    ensures IndexOf(xs, Filter(p, xs)[t]) < IndexOf(xs, Filter(p, xs)[t'])
  {
    var pos := FilterPositions(p, xs);
    IndexOfNoDup(xs, pos[t]);
    IndexOfNoDup(xs, pos[t']);
  }

  /** Filtering keeps every occurrence of a kept element and none of the others. */
  lemma {:induction false} FilterCount<T(!new)>(p: T -> bool, xs: seq<T>)
    ensures forall x :: multiset(Filter(p, xs))[x] == if p(x) then multiset(xs)[x] else 0
    decreases |xs|
  {
    if xs != [] {
      FilterCount(p, xs[1..]);
      assert xs == [xs[0]] + xs[1..];
      assert multiset(xs) == multiset{xs[0]} + multiset(xs[1..]);
    }
  }

  /** `xs` can be obtained from `ys` by deleting elements (order kept). */
  predicate IsSubsequence<T(==)>(xs: seq<T>, ys: seq<T>)
    decreases |ys|
  {
    if xs == [] then true
    else if ys == [] then false
    else if xs[0] == ys[0] then IsSubsequence(xs[1..], ys[1..])
    else IsSubsequence(xs, ys[1..])
  }

  /** The set of elements of a sequence. */
  function ToSet<T(!new)>(s: seq<T>): (r: set<T>)
    ensures forall x :: x in r <==> x in s
  {
    set x | x in s
  }

  /** Elements pairwise distinct. */
  predicate NoDup<T(==)>(xs: seq<T>)
  {
    forall i, j :: 0 <= i < j < |xs| ==> xs[i] != xs[j]
  }

  /** Concatenation of the strings in `xs` with `sep` between neighbours (Array.prototype.join). */
  function Join(xs: seq<string>, sep: string): (r: string)
    ensures xs == [] ==> r == []
    ensures |xs| == 1 ==> r == xs[0]
  {
    if xs == [] then []
    else if |xs| == 1 then xs[0]
    else Join(xs[..|xs| - 1], sep) + sep + xs[|xs| - 1]
  }

  /** Join adds one separator and the new last element when a string is appended. */
  lemma JoinSnoc(xs: seq<string>, x: string, sep: string)
    requires xs != []
    ensures Join(xs + [x], sep) == Join(xs, sep) + sep + x
  {
    assert (xs + [x])[..|xs|] == xs;
  }

  /** Join seen from the front: the first element, then a separator, then the rest. */
  lemma JoinCons(x: string, xs: seq<string>, sep: string)
    requires xs != []
    ensures Join([x] + xs, sep) == x + sep + Join(xs, sep)
    decreases |xs|
  {
    if |xs| == 1 {
      assert [x] + xs == [x, xs[0]];
      assert ([x] + xs)[..1] == [x];
    } else {
      var init := xs[..|xs| - 1];
      assert ([x] + xs)[..|xs|] == [x] + init;
      JoinCons(x, init, sep);
    }
  }

  /** In a duplicate-free sequence the first occurrence of `s[i]` is at `i`. */
  lemma IndexOfNoDup<T>(s: seq<T>, i: nat)
    requires NoDup(s) && i < |s|
    ensures IndexOf(s, s[i]) == i
  {
    var k := IndexOf(s, s[i]);
    assert s[k] == s[i];
  }

  /** Split `s` at every occurrence of the character `sep` (String.prototype.split with a one-character separator). */
  function SplitOn(s: string, sep: char): (r: seq<string>)
    ensures |r| >= 1
    ensures forall i :: 0 <= i < |r| ==> sep !in r[i]
    decreases |s|
  {
    if sep !in s then [s]
    else
      var i := IndexOf(s, sep);
      [s[..i]] + SplitOn(s[i + 1..], sep)
  }

  /** Position of the first `c` in `s`. */
  function IndexOf<T(==)>(s: seq<T>, c: T): (i: nat)
    requires c in s
    ensures i < |s| && s[i] == c && c !in s[..i]
  {
    if s[0] == c then 0 else
      assert s == [s[0]] + s[1..];
      1 + IndexOf(s[1..], c)
  }

  /** Splitting a joined list gives the list back, when no element contains the separator. */
  lemma {:induction false} SplitJoin(xs: seq<string>, sep: char)
    requires xs != []
    requires forall i :: 0 <= i < |xs| ==> sep !in xs[i]
    ensures SplitOn(Join(xs, [sep]), sep) == xs
    decreases |xs|
  {
    if |xs| == 1 {
    } else {
      var rest := xs[1..];
      assert xs == [xs[0]] + rest;
      JoinCons(xs[0], rest, [sep]);
      var s := Join(xs, [sep]);
      assert s == xs[0] + [sep] + Join(rest, [sep]);
      assert s[|xs[0]|] == sep;
      assert s[..|xs[0]|] == xs[0];
      assert sep in s;
      var i := IndexOf(s, sep);
      assert s[i + 1..] == Join(rest, [sep]);
      SplitJoin(rest, sep);
    }
  }

  lemma SplitOnUnfold(s: string, sep: char)
    requires sep in s
    ensures SplitOn(s, sep) == [s[..IndexOf(s, sep)]] + SplitOn(s[IndexOf(s, sep) + 1..], sep)
  {
  }

  lemma Around<T>(s: seq<T>, i: nat)
    requires i < |s|
    ensures s == s[..i] + [s[i]] + s[i + 1..]
  {
  }

  /** Joining the pieces of a split with the same separator gives the string back. */
  lemma {:induction false} JoinSplit(s: string, sep: char)
    ensures Join(SplitOn(s, sep), [sep]) == s
    decreases |s|
  {
    if sep in s {
      var i := IndexOf(s, sep);
      var rest := SplitOn(s[i + 1..], sep);
      SplitOnUnfold(s, sep);
      JoinSplit(s[i + 1..], sep);
      JoinCons(s[..i], rest, [sep]);
      Around(s, i);
    }
  }

  /** Filtering distributes over appending one element. */
  lemma {:induction false} FilterSnoc<T(!new)>(p: T -> bool, xs: seq<T>, x: T)
    ensures Filter(p, xs + [x]) == Filter(p, xs) + (if p(x) then [x] else [])
    decreases |xs|
  {
    if xs == [] {
      assert Filter(p, [x]) == (if p(x) then [x] else []);
    } else {
      var ys := xs + [x];
      assert ys[0] == xs[0];
      assert ys[1..] == xs[1..] + [x];
      FilterSnoc(p, xs[1..], x);
    }
  }

  /** First occurrences only, in order of first appearance (iteration order of a JavaScript Set built from `xs`). */
  function Dedup<T(==,!new)>(xs: seq<T>): (r: seq<T>)
    ensures NoDup(r)
    ensures forall x :: x in r <==> x in xs
    ensures |r| <= |xs|
  {
    if xs == [] then []
    else
      var init := xs[..|xs| - 1];
      var d := Dedup(init);
      assert xs == init + [xs[|xs| - 1]];
      if xs[|xs| - 1] in init then d else d + [xs[|xs| - 1]]
  }

  /** A duplicate-free sequence is its own first-occurrence list. */
  lemma {:induction false} DedupNoDup<T(!new)>(xs: seq<T>)
    requires NoDup(xs)
    ensures Dedup(xs) == xs
    decreases |xs|
  {
    if xs != [] {
      var init := xs[..|xs| - 1];
      assert NoDup(init);
      DedupNoDup(init);
      assert xs[|xs| - 1] !in init;
      assert xs == init + [xs[|xs| - 1]];
    }
  }

  /** The number of distinct elements is the length exactly when nothing repeats. */
  lemma {:induction false} DedupLength<T(!new)>(xs: seq<T>)
    ensures |Dedup(xs)| == |xs| <==> NoDup(xs)
    decreases |xs|
  {
    if xs == [] {
    } else {
      var init := xs[..|xs| - 1];
      var last := xs[|xs| - 1];
      DedupLength(init);
      assert xs == init + [last];
      if last in init {
        var j :| 0 <= j < |init| && init[j] == last;
        assert xs[j] == xs[|xs| - 1];
        assert !NoDup(xs);
      } else if NoDup(init) {
        assert NoDup(xs);
      } else {
        var i, j :| 0 <= i < j < |init| && init[i] == init[j];
        assert xs[i] == xs[j];
      }
    }
  }

  /** A duplicate-free sequence has as many distinct elements as entries. */
  lemma {:induction false} NoDupCard<T(!new)>(s: seq<T>)
    requires NoDup(s)
    ensures |ToSet(s)| == |s|
    decreases |s|
  {
    if s != [] {
      var init := s[..|s| - 1];
      assert NoDup(init);
      NoDupCard(init);
      assert ToSet(s) == ToSet(init) + {s[|s| - 1]};
      assert s[|s| - 1] !in ToSet(init);
    }
  }

  /** A subset as large as its superset is the whole superset. */
  lemma SubsetCard<T>(a: set<T>, b: set<T>)
    requires a <= b && |a| == |b|
    ensures a == b
  {
    assert |b - a| == |b| - |a|;
  }

  /** Equal multisets with equal heads have equal tails. */
  lemma MultisetTail<T>(a: seq<T>, b: seq<T>)
    requires a != [] && b != [] && a[0] == b[0]
    requires multiset(a) == multiset(b)
    ensures multiset(a[1..]) == multiset(b[1..])
  {
    assert a == [a[0]] + a[1..];
    assert b == [b[0]] + b[1..];
    assert multiset(a[1..]) == multiset(a) - multiset{a[0]};
    assert multiset(b[1..]) == multiset(b) - multiset{b[0]};
  }

  /** Filtering a duplicate-free sequence gives a duplicate-free sequence. */
  lemma {:induction false} FilterNoDup<T(!new)>(p: T -> bool, xs: seq<T>)
    requires NoDup(xs)
    ensures NoDup(Filter(p, xs))
    decreases |xs|
  {
    if xs != [] {
      assert NoDup(xs[1..]);
      FilterNoDup(p, xs[1..]);
      assert xs[0] !in xs[1..];
    }
  }

  /** Strictly increasing: the order of option indices in a column. */
  predicate Increasing(xs: seq<nat>)
  {
    forall i, k :: 0 <= i < k < |xs| ==> xs[i] < xs[k]
  }

  lemma HeadIn<T>(s: seq<T>)
    ensures s != [] ==> s[0] in s
  {
  }

  /** Two strictly increasing sequences with the same elements are equal. */
  lemma {:induction false} IncreasingUnique(xs: seq<nat>, ys: seq<nat>)
    requires Increasing(xs) && Increasing(ys)
    requires forall j :: j in xs <==> j in ys
    ensures xs == ys
    decreases |xs|
  {
    if xs == [] {
      HeadIn(ys);
    } else {
      assert xs[0] in ys;
      assert ys != [];
      assert ys[0] in xs;
      var i :| 0 <= i < |xs| && xs[i] == ys[0];
      var m :| 0 <= m < |ys| && ys[m] == xs[0];
      assert xs[0] <= xs[i] && ys[0] <= ys[m];
      forall j ensures j in xs[1..] <==> j in ys[1..] {
        assert xs == [xs[0]] + xs[1..];
        assert ys == [ys[0]] + ys[1..];
        if j in xs[1..] {
          var i :| 0 <= i < |xs[1..]| && xs[1..][i] == j;
          assert xs[i + 1] == j && j != xs[0];
          assert j in ys;
          var m :| 0 <= m < |ys| && ys[m] == j;
          assert m > 0 && ys[1..][m - 1] == j;
        }
        if j in ys[1..] {
          var i :| 0 <= i < |ys[1..]| && ys[1..][i] == j;
          assert ys[i + 1] == j && j != ys[0];
          assert j in xs;
          var m :| 0 <= m < |xs| && xs[m] == j;
          assert m > 0 && xs[1..][m - 1] == j;
        }
      }
      IncreasingUnique(xs[1..], ys[1..]);
      assert xs == [xs[0]] + xs[1..];
      assert ys == [ys[0]] + ys[1..];
    }
  }

  /** Dropping one position of a strictly increasing sequence. */
  lemma IncreasingRemove(xs: seq<nat>, i: nat)
    requires Increasing(xs) && i < |xs|
    ensures Increasing(xs[..i] + xs[i + 1..])
    ensures forall j :: j in xs[..i] + xs[i + 1..] <==> j in xs && j != xs[i]
  {
    var ys := xs[..i] + xs[i + 1..];
    assert forall k :: 0 <= k < |ys| ==> ys[k] == if k < i then xs[k] else xs[k + 1];
    forall j ensures j in ys <==> j in xs && j != xs[i] {
      if j in xs && j != xs[i] {
        var k :| 0 <= k < |xs| && xs[k] == j;
        if k < i { assert ys[k] == j; } else { assert ys[k - 1] == j; }
      }
    }
  }
}
