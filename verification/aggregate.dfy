/**
  Result aggregation of the front end (recordSolution in src/index.js):
  solutions are canonicalised by sorting their option names, deduplicated by
  that key, and each new key gets one display entry.
*/
module Aggregate {
  import opened Seqs
  import opened Words

  // ---------------------------------------------------------------------------
  // The default string order of Array.prototype.sort
  // ---------------------------------------------------------------------------

  /** Lexicographic order on strings, character by character; a prefix comes first. */
  predicate StrLe(a: string, b: string)
    decreases |a|
  {
    a == [] || (b != [] && (a[0] < b[0] || (a[0] == b[0] && StrLe(a[1..], b[1..]))))
  }

  lemma {:induction false} StrLeTotal(a: string, b: string)
    ensures StrLe(a, b) || StrLe(b, a)
    decreases |a|
  {
    if a != [] && b != [] && a[0] == b[0] {
      StrLeTotal(a[1..], b[1..]);
    }
  }

  lemma {:induction false} StrLeReflexive(a: string)
    ensures StrLe(a, a)
    decreases |a|
  {
    if a != [] {
      StrLeReflexive(a[1..]);
    }
  }

  lemma {:induction false} StrLeAntisymmetric(a: string, b: string)
    requires StrLe(a, b) && StrLe(b, a)
    ensures a == b
    decreases |a|
  {
    if a != [] {
      StrLeAntisymmetric(a[1..], b[1..]);
      assert a == [a[0]] + a[1..];
      assert b == [b[0]] + b[1..];
    }
  }

  lemma {:induction false} StrLeTransitive(a: string, b: string, c: string)
    requires StrLe(a, b) && StrLe(b, c)
    ensures StrLe(a, c)
    decreases |a|
  {
    if a != [] && a[0] == b[0] && b[0] == c[0] {
      StrLeTransitive(a[1..], b[1..], c[1..]);
    }
  }

  predicate SortedStrings(s: seq<string>)
  {
    forall i, j :: 0 <= i < j < |s| ==> StrLe(s[i], s[j])
  }

  /** A string no greater than the head of a sorted list may go in front of it. */
  lemma SortedFront(x: string, s: seq<string>)
    requires SortedStrings(s) && (s == [] || StrLe(x, s[0]))
    ensures SortedStrings([x] + s)
  {
    var r := [x] + s;
    forall i, j | 0 <= i < j < |r| ensures StrLe(r[i], r[j]) {
      if i == 0 {
        if j > 1 { StrLeTransitive(x, s[0], s[j - 1]); }
      } else {
        assert r[i] == s[i - 1] && r[j] == s[j - 1];
      }
    }
  }

  /** The head of a sorted list stays in front of the sorted insertion into its tail. */
  lemma SortedCons(x: string, s: seq<string>, rest: seq<string>)
    requires SortedStrings(s) && s != [] && StrLe(s[0], x)
    requires SortedStrings(rest) && multiset(rest) == multiset(s[1..]) + multiset{x}
    ensures SortedStrings([s[0]] + rest)
    ensures multiset([s[0]] + rest) == multiset(s) + multiset{x}
  {
    var r := [s[0]] + rest;
    assert s == [s[0]] + s[1..];
    forall i, j | 0 <= i < j < |r| ensures StrLe(r[i], r[j]) {
      if i == 0 {
        var y := rest[j - 1];
        assert y in multiset(rest);
        if y != x {
          assert y in multiset(s[1..]);
          var k :| 0 <= k < |s[1..]| && s[1..][k] == y;
          assert StrLe(s[0], s[k + 1]);
        }
      } else {
        assert r[i] == rest[i - 1] && r[j] == rest[j - 1];
      }
    }
  }

  function InsertString(x: string, s: seq<string>): (r: seq<string>)
    requires SortedStrings(s)
    ensures SortedStrings(r)
    ensures multiset(r) == multiset(s) + multiset{x}
    ensures |r| == |s| + 1 && (r[0] == x || (s != [] && r[0] == s[0]))
    decreases |s|
  {
    if s == [] || StrLe(x, s[0]) then
      SortedFront(x, s);
      [x] + s
    else
      StrLeTotal(x, s[0]);
      assert SortedStrings(s[1..]) by {
        forall i, j | 0 <= i < j < |s| - 1 ensures StrLe(s[1..][i], s[1..][j]) {
          assert s[1..][i] == s[i + 1] && s[1..][j] == s[j + 1];
        }
      }
      var rest := InsertString(x, s[1..]);
      SortedCons(x, s, rest);
      [s[0]] + rest
  }

  /** `Array.prototype.sort()` on strings: ascending lexicographic order, same elements. */
  function SortStrings(s: seq<string>): (r: seq<string>)
    ensures SortedStrings(r)
    ensures |r| == |s| && multiset(r) == multiset(s)
    decreases |s|
  {
    if s == [] then []
    else
      assert s == [s[0]] + s[1..];
      InsertString(s[0], SortStrings(s[1..]))
  }

  /** Two sorted sequences with the same elements are equal: sorting forgets the input order. */
  lemma {:induction false} SortedUnique(a: seq<string>, b: seq<string>)
    requires SortedStrings(a) && SortedStrings(b)
    requires multiset(a) == multiset(b)
    ensures a == b
    decreases |a|
  {
    if a == [] {
      assert |b| == |multiset(b)| == 0;
    } else {
      assert |b| == |multiset(b)| == |a|;
      // both heads are the least element
      assert a[0] in multiset(b);
      assert b[0] in multiset(a);
      var i :| 0 <= i < |b| && b[i] == a[0];
      var j :| 0 <= j < |a| && a[j] == b[0];
      StrLeReflexive(a[0]);
      assert StrLe(b[0], a[0]) by { if i > 0 { assert StrLe(b[0], b[i]); } }
      assert StrLe(a[0], b[0]) by { if j > 0 { assert StrLe(a[0], a[j]); } }
      StrLeAntisymmetric(a[0], b[0]);
      assert a == [a[0]] + a[1..];
      assert b == [b[0]] + b[1..];
      MultisetTail(a, b);
      SortedUnique(a[1..], b[1..]);
    }
  }

  // ---------------------------------------------------------------------------
  // recordSolution
  // ---------------------------------------------------------------------------

  /** `solution.sort().join(',')`: the canonical key of a solution. */
  function SolutionKey(solution: seq<string>): string
  {
    Join(SortStrings(solution), ",")
  }

  /** Names are words: none contains the key separator. */
  predicate CommaFree(solution: seq<string>)
  {
    forall i :: 0 <= i < |solution| ==> ',' !in solution[i]
  }

  /** Names are words: none is the empty string. */
  predicate NamesNonEmpty(solution: seq<string>)
  {
    forall i :: 0 <= i < |solution| ==> solution[i] != ""
  }

  /**
    Two solutions get the same key exactly when they hold the same names with
    the same multiplicities, whatever their order. The empty solution, which
    search yields for a work item without options, gets the empty key.
  */
  lemma SolutionKeyCanonical(s1: seq<string>, s2: seq<string>)
    requires NamesNonEmpty(s1) && NamesNonEmpty(s2)
    requires CommaFree(s1) && CommaFree(s2)
    ensures SolutionKey(s1) == SolutionKey(s2) <==> multiset(s1) == multiset(s2)
  {
    var t1 := SortStrings(s1);
    var t2 := SortStrings(s2);
    if s1 == [] || s2 == [] {
      KeyNonEmpty(s1);
      KeyNonEmpty(s2);
      assert |multiset(s1)| == |s1| && |multiset(s2)| == |s2|;
    } else {
      if multiset(s1) == multiset(s2) {
        SortedUnique(t1, t2);
      }
      if SolutionKey(s1) == SolutionKey(s2) {
        SortedCommaFree(s1);
        SortedCommaFree(s2);
        SplitJoin(t1, ',');
        SplitJoin(t2, ',');
      }
    }
  }

  /** The key is empty exactly for the empty solution, when no name is empty. */
  lemma KeyNonEmpty(s: seq<string>)
    requires NamesNonEmpty(s)
    ensures SolutionKey(s) == "" <==> s == []
  {
    var t := SortStrings(s);
    if s != [] {
      assert t[|t| - 1] in multiset(s);
      assert t[|t| - 1] != "";
      if |t| > 1 {
        assert SolutionKey(s) == Join(t[..|t| - 1], ",") + "," + t[|t| - 1];
      }
    }
  }

  lemma SortedCommaFree(s: seq<string>)
    requires CommaFree(s)
    ensures CommaFree(SortStrings(s))
  {
    var t := SortStrings(s);
    forall i | 0 <= i < |t| ensures ',' !in t[i] {
      assert t[i] in multiset(s);
    }
  }

  /** The key splits back into the sorted names. */
  lemma SolutionKeySplits(s: seq<string>)
    requires s != [] && CommaFree(s)
    ensures SplitOn(SolutionKey(s), ',') == SortStrings(s)
  {
    SortedCommaFree(s);
    SplitJoin(SortStrings(s), ',');
  }

  /** The anagram groups of the names, looked up in the normalized word map (`undefined` when absent). */
  function Lookups(m: seq<Entry>, names: seq<string>): (r: seq<Option<string>>)
    ensures |r| == |names|
    ensures forall i :: 0 <= i < |names| ==>
              (r[i].Some? <==> names[i] in Keys(m)) &&
              (r[i].Some? ==> exists j :: 0 <= j < |m| && m[j].key == names[i] && r[i].value == m[j].display)
  {
    seq(|names|, i requires 0 <= i < |names| =>
      match Find(m, names[i])
      case None => None
      case Some(j) => Some(m[j].display))
  }

  function Defined(xs: seq<Option<string>>): (r: seq<string>)
    ensures |r| <= |xs|
    ensures forall s :: s in r <==> Some(s) in xs
  {
    if xs == [] then []
    else
      assert forall s :: Some(s) in xs <==> Some(s) == xs[0] || Some(s) in xs[1..];
      (if xs[0].Some? then [xs[0].value] else []) + Defined(xs[1..])
  }

  /**
    `.sort().join(', ')` on looked-up groups: the defined groups in ascending
    order, then one empty string for every undefined lookup (sort puts
    `undefined` last and join prints it as the empty string).
  */
  function DisplayList(xs: seq<Option<string>>): (r: seq<string>)
    ensures |r| == |xs|
    ensures SortedStrings(r[..|Defined(xs)|])
    ensures multiset(r[..|Defined(xs)|]) == multiset(Defined(xs))
    ensures forall i :: |Defined(xs)| <= i < |r| ==> r[i] == ""
  {
    var d := Defined(xs);
    var r := SortStrings(d) + seq(|xs| - |d|, _ => "");
    assert r[..|d|] == SortStrings(d);
    r
  }

  /** The display form of a key: its names mapped to their anagram groups, sorted, joined by ", ". */
  function DisplayOf(m: seq<Entry>, key: string): string
  {
    Join(DisplayList(Lookups(m, SplitOn(key, ','))), ", ")
  }

  /** The aggregate: the set of keys seen and the display entries, in arrival order. */
  datatype Aggregate = Aggregate(seen: set<string>, display: seq<string>)

  /** One display entry per key: the invariant `displaySolutions.length === solutions.size`. */
  predicate Consistent(st: Aggregate)
  {
    |st.display| == |st.seen|
  }

  /** recordSolution: ignore a known key, otherwise remember it and append its display form. */
  function RecordSolution(m: seq<Entry>, st: Aggregate, solution: seq<string>): (r: Aggregate)
    ensures SolutionKey(solution) in r.seen
    ensures r.seen == st.seen + {SolutionKey(solution)}
    ensures SolutionKey(solution) in st.seen ==> r == st
    ensures SolutionKey(solution) !in st.seen ==>
              r.display == st.display + [DisplayOf(m, SolutionKey(solution))]
    ensures Consistent(st) ==> Consistent(r)
  {
    var key := SolutionKey(solution);
    if key in st.seen then st
    else Aggregate(st.seen + {key}, st.display + [DisplayOf(m, key)])
  }

  /** Two orderings of one solution are recorded identically. */
  lemma RecordPermutation(m: seq<Entry>, st: Aggregate, s1: seq<string>, s2: seq<string>)
    requires multiset(s1) == multiset(s2)
    ensures RecordSolution(m, st, s1) == RecordSolution(m, st, s2)
  {
    SortedUnique(SortStrings(s1), SortStrings(s2));
  }

  /** Recording a stream of solutions, in arrival order. */
  function RecordAll(m: seq<Entry>, st: Aggregate, solutions: seq<seq<string>>): Aggregate
    decreases |solutions|
  {
    if solutions == [] then st
    else RecordAll(m, RecordSolution(m, st, solutions[0]), solutions[1..])
  }

  /** The keys of a stream of solutions. */
  function KeysOf(solutions: seq<seq<string>>): (r: set<string>)
    ensures forall k :: k in r <==> exists i :: 0 <= i < |solutions| && SolutionKey(solutions[i]) == k
  {
    set i | 0 <= i < |solutions| :: SolutionKey(solutions[i])
  }

  /**
    However the solutions of the workers interleave, the aggregate ends with
    the same set of keys, one display entry per key.
  */
  lemma {:induction false} RecordAllSeen(m: seq<Entry>, st: Aggregate, solutions: seq<seq<string>>)
    ensures RecordAll(m, st, solutions).seen == st.seen + KeysOf(solutions)
    ensures Consistent(st) ==> Consistent(RecordAll(m, st, solutions))
    decreases |solutions|
  {
    if solutions != [] {
      var st' := RecordSolution(m, st, solutions[0]);
      RecordAllSeen(m, st', solutions[1..]);
      KeysOfCons(solutions);
      assert RecordAll(m, st, solutions) == RecordAll(m, st', solutions[1..]);
    }
  }

  lemma KeysOfCons(solutions: seq<seq<string>>)
    requires solutions != []
    ensures KeysOf(solutions) == {SolutionKey(solutions[0])} + KeysOf(solutions[1..])
  {
    forall k | k in KeysOf(solutions) ensures k in {SolutionKey(solutions[0])} + KeysOf(solutions[1..]) {
      var i :| 0 <= i < |solutions| && SolutionKey(solutions[i]) == k;
      if i > 0 { assert solutions[1..][i - 1] == solutions[i]; }
    }
    forall k | k in KeysOf(solutions[1..]) ensures k in KeysOf(solutions) {
      var i :| 0 <= i < |solutions[1..]| && SolutionKey(solutions[1..][i]) == k;
      assert solutions[i + 1] == solutions[1..][i];
    }
  }

  /** The empty aggregate a solve run starts from. */
  function Initial(): (r: Aggregate)
    ensures Consistent(r) && r.seen == {}
  {
    Aggregate({}, [])
  }
}
