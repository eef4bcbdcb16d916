/**
  From normalized words to work items (src/index.js): the option map, the
  missing-letter pre-flight check and the 26 sub-instances, one per letter
  that is left uncovered, sorted by descending option count.
*/
module Partition {
  import opened Seqs
  import opened Words
  import opened Problem

  /** `Object.fromEntries(words.map(word => [word, word.split('')]))`: each normalized word covers its own letters. */
  function OptionsOf(m: seq<Entry>): (r: seq<Opt<char>>)
    ensures |r| == |m|
    ensures forall j :: 0 <= j < |r| ==> r[j].name == m[j].key && r[j].items == m[j].key
  {
    seq(|m|, j requires 0 <= j < |m| => Opt(m[j].key, m[j].key))
  }

  /** Options built from words: the name of each option is the string of its items. */
  predicate WordOptions(opts: seq<Opt<char>>)
  {
    forall j :: 0 <= j < |opts| ==> opts[j].name == opts[j].items
  }

  /** `options` in solve(): the option map built from the lines of the word list (`allWords`). */
  function OptionsFromWords(allWords: seq<string>): seq<Opt<char>>
  {
    OptionsOf(NormalizedWordMap(FiveLetterWords(allWords)))
  }

  /**
    The options solve() builds: one per key of the normalized word map, in
    the map's order, with distinct names; each option covers the five
    distinct lower-case letters of its name; and a letter is used exactly when
    some five-letter word without a repeated letter contains it.
  */
  lemma OptionsFromWordsShape(allWords: seq<string>)
    ensures var m := NormalizedWordMap(FiveLetterWords(allWords));
      var opts := OptionsFromWords(allWords);
      && |opts| == |m|
      && WellFormed(opts)
      && WordOptions(opts)
      && (forall j :: 0 <= j < |opts| ==> opts[j].name == Keys(m)[j] && WordKey(opts[j].name))
      && (forall c :: c in UsedLetters(opts) <==> exists w :: w in allWords && KeptWord(w) && c in w)
  {
    var m := NormalizedWordMap(FiveLetterWords(allWords));
    FiveLetterWordMap(allWords);
    OptionsOfKeys(m);
    UsedLettersOfKeys(m, allWords);
  }

  /** Options made from distinct word keys are well formed word options. */
  lemma OptionsOfKeys(m: seq<Entry>)
    requires NoDup(Keys(m))
    requires forall i :: 0 <= i < |m| ==> WordKey(m[i].key)
    ensures var opts := OptionsOf(m);
      && WellFormed(opts) && WordOptions(opts)
      && forall j :: 0 <= j < |opts| ==> opts[j].name == Keys(m)[j] && WordKey(opts[j].name)
  {
    var opts := OptionsOf(m);
    forall j, k | 0 <= j < k < |opts| ensures opts[j].name != opts[k].name {
      assert opts[j].name == Keys(m)[j] && opts[k].name == Keys(m)[k];
    }
    forall j | 0 <= j < |opts| ensures NoDup(opts[j].items) {
      assert WordKey(m[j].key);
    }
  }

  /** The keys of `m` are exactly the keys of the five-letter words of `words` without a repeated letter. */
  ghost predicate KeysOfWords(m: seq<Entry>, words: seq<string>)
  {
    forall k :: k in Keys(m) <==> exists w :: w in words && KeptWord(w) && Key(w) == k
  }

  /** The letters the options of a map use are the letters of the words whose keys the map holds. */
  lemma UsedLettersOfKeys(m: seq<Entry>, words: seq<string>)
    requires KeysOfWords(m, words)
    ensures forall c :: c in UsedLetters(OptionsOf(m)) <==> exists w :: w in words && KeptWord(w) && c in w
  {
    forall c | c in UsedLetters(OptionsOf(m)) ensures exists w :: w in words && KeptWord(w) && c in w {
      var w := UsedLetterWord(m, words, c);
    }
    forall c, w | w in words && KeptWord(w) && c in w ensures c in UsedLetters(OptionsOf(m)) {
      WordLetterUsed(m, words, w, c);
    }
  }

  lemma UsedLetterWord(m: seq<Entry>, words: seq<string>, c: char) returns (w: string)
    requires KeysOfWords(m, words) && c in UsedLetters(OptionsOf(m))
    ensures w in words && KeptWord(w) && c in w
  {
    var opts := OptionsOf(m);
    var j :| 0 <= j < |opts| && c in opts[j].items;
    var k := Keys(m)[j];
    assert k in Keys(m);
    w :| w in words && KeptWord(w) && Key(w) == k;
  }

  lemma WordLetterUsed(m: seq<Entry>, words: seq<string>, w: string, c: char)
    requires KeysOfWords(m, words) && w in words && KeptWord(w) && c in w
    ensures c in UsedLetters(OptionsOf(m))
  {
    var opts := OptionsOf(m);
    assert Key(w) in Keys(m);
    var j :| 0 <= j < |Keys(m)| && Keys(m)[j] == Key(w);
    assert c in opts[j].items;
    assert opts[j] == OptionsOf(m)[j];
  }

  /** allChars: the letters 'a' to 'z' in order. */
  function Alphabet(): (r: seq<char>)
    ensures |r| == 26
    ensures StrictlySorted(r)
    ensures forall c :: c in r <==> IsLowerAscii(c)
  {
    var r := seq(26, i requires 0 <= i < 26 => ('a' as int + i) as char);
    assert forall c :: IsLowerAscii(c) ==> r[c as int - 'a' as int] == c;
    r
  }

  /** usedChars: every item that some option covers. */
  function UsedLetters(opts: seq<Opt<char>>): set<char>
  {
    ToSet(AllItems(opts))
  }

  /** The pre-flight verdict: ready to dispatch, or the letters no option covers. */
  datatype Preflight = Ready | MissingLetters(missing: seq<char>)

  /**
    The pre-flight check: unless exactly 26 distinct items are used, report the
    letters of the alphabet that no option covers, in alphabetical order.
  */
  function CheckLetters(opts: seq<Opt<char>>): (r: Preflight)
    ensures r.MissingLetters? <==> |UsedLetters(opts)| != 26
    ensures r.MissingLetters? ==>
              && StrictlySorted(r.missing)
              && forall c :: c in r.missing <==> IsLowerAscii(c) && c !in UsedLetters(opts)
  {
    var used := UsedLetters(opts);
    if |used| != 26 then
      var missing := Filter(c => c !in used, Alphabet());
      assert StrictlySorted(missing) by { FilterSorted(c => c !in used, Alphabet()); }
      MissingLetters(missing)
    else Ready
  }

  lemma {:induction false} FilterSorted(p: char -> bool, s: string)
    requires StrictlySorted(s)
    ensures StrictlySorted(Filter(p, s))
    decreases |s|
  {
    if s != [] {
      var tail := s[1..];
      assert StrictlySorted(tail);
      FilterSorted(p, tail);
      var rest := Filter(p, tail);
      forall i | 0 <= i < |rest| ensures s[0] < rest[i] {
        assert rest[i] in tail;
        var j :| 0 <= j < |tail| && tail[j] == rest[i];
        assert s[j + 1] == rest[i];
      }
      assert Filter(p, s) == if p(s[0]) then [s[0]] + rest else rest;
    }
  }

  /**
    For options made of lower-case letters the check passes exactly when every
    letter of the alphabet is used, and otherwise reports at least one letter.
  */
  lemma CheckLettersComplete(opts: seq<Opt<char>>)
    requires forall j :: 0 <= j < |opts| ==> forall x :: x in opts[j].items ==> IsLowerAscii(x)
    ensures CheckLetters(opts).Ready? <==> forall c :: IsLowerAscii(c) ==> c in UsedLetters(opts)
    ensures CheckLetters(opts).MissingLetters? ==> CheckLetters(opts).missing != []
  {
    var used := UsedLetters(opts);
    var all := ToSet(Alphabet());
    NoDupCard(Alphabet());
    assert used <= all;
    if |used| == 26 {
      SubsetCard(used, all);
    } else {
      assert (forall c :: IsLowerAscii(c) ==> c in used) ==> used == all;
      var c :| IsLowerAscii(c) && c !in used;
      assert c in CheckLetters(opts).missing;
    }
  }

  /**
    The missing-letter check on the options solve() builds: it passes exactly
    when every letter of the alphabet occurs in some five-letter word without
    a repeated letter.
  */
  lemma CheckLettersFromWords(allWords: seq<string>)
    ensures CheckLetters(OptionsFromWords(allWords)).Ready? <==>
              forall c :: IsLowerAscii(c) ==> exists w :: w in allWords && KeptWord(w) && c in w
  {
    var opts := OptionsFromWords(allWords);
    OptionsFromWordsShape(allWords);
    forall j | 0 <= j < |opts| ensures forall x :: x in opts[j].items ==> IsLowerAscii(x) {
      assert WordKey(opts[j].name);
    }
    CheckLettersComplete(opts);
  }

  // ---------------------------------------------------------------------------
  // Work items
  // ---------------------------------------------------------------------------

  /** A sub-instance: the options whose name avoids `letter`. The letter is kept for reasoning only. */
  datatype WorkItem = WorkItem(letter: char, options: seq<Opt<char>>)

  /** `Object.entries(options).filter(([word]) => !word.includes(char))` */
  function ItemFor(opts: seq<Opt<char>>, c: char): (r: WorkItem)
    ensures r.letter == c
    ensures forall o :: o in r.options <==> o in opts && c !in o.name
    ensures IsSubsequence(r.options, opts)
  {
    WorkItem(c, Filter((o: Opt<char>) => c !in o.name, opts))
  }

  /** One work item per letter, in alphabetical order (before sorting). */
  function ItemsByLetter(opts: seq<Opt<char>>): (r: seq<WorkItem>)
    ensures |r| == 26
    ensures forall i :: 0 <= i < 26 ==> r[i] == ItemFor(opts, Alphabet()[i])
  {
    seq(26, i requires 0 <= i < 26 => ItemFor(opts, Alphabet()[i]))
  }

  predicate SizesDescending(items: seq<WorkItem>)
  {
    forall i, j :: 0 <= i < j < |items| ==> |items[i].options| >= |items[j].options|
  }

  /** An item no smaller than the first of a descending list may go in front of it. */
  lemma SizesFront(x: WorkItem, s: seq<WorkItem>)
    requires SizesDescending(s) && (s == [] || |s[0].options| <= |x.options|)
    ensures SizesDescending([x] + s)
  {
    var r := [x] + s;
    forall i, j | 0 <= i < j < |r| ensures |r[i].options| >= |r[j].options| {
      assert r[j] == s[j - 1];
      if i > 0 { assert r[i] == s[i - 1]; }
    }
  }

  /** The first item of a descending list stays in front of the insertion into its tail. */
  lemma SizesCons(x: WorkItem, s: seq<WorkItem>, rest: seq<WorkItem>)
    requires SizesDescending(s) && s != [] && |s[0].options| > |x.options|
    requires SizesDescending(rest) && multiset(rest) == multiset(s[1..]) + multiset{x}
    ensures SizesDescending([s[0]] + rest)
    ensures multiset([s[0]] + rest) == multiset(s) + multiset{x}
  {
    var r := [s[0]] + rest;
    assert s == [s[0]] + s[1..];
    forall i, j | 0 <= i < j < |r| ensures |r[i].options| >= |r[j].options| {
      if i == 0 {
        var y := rest[j - 1];
        assert y in multiset(rest);
        if y != x {
          assert y in multiset(s[1..]);
          var k :| 0 <= k < |s[1..]| && s[1..][k] == y;
          assert s[k + 1] == y;
        }
      } else {
        assert r[i] == rest[i - 1] && r[j] == rest[j - 1];
      }
    }
  }

  lemma SizesTail(s: seq<WorkItem>)
    requires SizesDescending(s) && s != []
    ensures SizesDescending(s[1..])
  {
    forall i, j | 0 <= i < j < |s| - 1 ensures |s[1..][i].options| >= |s[1..][j].options| {
      assert s[1..][i] == s[i + 1] && s[1..][j] == s[j + 1];
    }
  }

  /** Insert one work item in front of the first item that is not larger (keeps equal sizes in order). */
  function InsertBySize(x: WorkItem, s: seq<WorkItem>): (r: seq<WorkItem>)
    requires SizesDescending(s)
    ensures SizesDescending(r)
    ensures multiset(r) == multiset(s) + multiset{x}
    ensures |r| == |s| + 1 && (r[0] == x || (s != [] && r[0] == s[0]))
    decreases |s|
  {
    if s == [] || |s[0].options| <= |x.options| then
      SizesFront(x, s);
      [x] + s
    else
      SizesTail(s);
      var rest := InsertBySize(x, s[1..]);
      SizesCons(x, s, rest);
      [s[0]] + rest
  }

  lemma LettersCons(w: WorkItem, s: seq<WorkItem>)
    ensures Letters([w] + s) == [w.letter] + Letters(s)
  {
  }

  lemma {:induction false} InsertBySizeLetters(x: WorkItem, s: seq<WorkItem>)
    requires SizesDescending(s)
    ensures multiset(Letters(InsertBySize(x, s))) == multiset(Letters(s)) + multiset{x.letter}
    decreases |s|
  {
    if s == [] || |s[0].options| <= |x.options| {
      LettersCons(x, s);
    } else {
      SizesTail(s);
      var rest := InsertBySize(x, s[1..]);
      InsertBySizeLetters(x, s[1..]);
      assert InsertBySize(x, s) == [s[0]] + rest;
      LettersCons(s[0], rest);
      LettersCons(s[0], s[1..]);
      assert s == [s[0]] + s[1..];
    }
  }

  /** `sort((a, b) => size(b) - size(a))`: descending option count. */
  function SortBySize(s: seq<WorkItem>): (r: seq<WorkItem>)
    ensures SizesDescending(r)
    ensures |r| == |s| && multiset(r) == multiset(s)
    ensures multiset(Letters(r)) == multiset(Letters(s))
    decreases |s|
  {
    if s == [] then []
    else
      assert s == [s[0]] + s[1..];
      assert Letters(s) == [s[0].letter] + Letters(s[1..]);
      InsertBySizeLetters(s[0], SortBySize(s[1..]));
      InsertBySize(s[0], SortBySize(s[1..]))
  }

  /**
    workItems: exactly 26 sub-instances in non-increasing order of size; every
    letter has exactly one, and the one for letter c holds exactly the options
    whose name avoids c, in their original order.
  */
  function WorkItems(opts: seq<Opt<char>>): (r: seq<WorkItem>)
    ensures |r| == 26
    ensures SizesDescending(r)
    ensures multiset(r) == multiset(ItemsByLetter(opts))
    ensures multiset(Letters(r)) == multiset(Alphabet())
    ensures forall i :: 0 <= i < |r| ==> r[i] == ItemFor(opts, r[i].letter) && IsLowerAscii(r[i].letter)
  {
    var r := SortBySize(ItemsByLetter(opts));
    assert Letters(ItemsByLetter(opts)) == Alphabet();
    forall i | 0 <= i < |r| ensures r[i] == ItemFor(opts, r[i].letter) && IsLowerAscii(r[i].letter) {
      assert r[i] in multiset(ItemsByLetter(opts));
      var k :| 0 <= k < 26 && ItemsByLetter(opts)[k] == r[i];
      assert Alphabet()[k] in Alphabet();
    }
    r
  }

  /** Every letter of the alphabet owns exactly one work item. */
  lemma OneItemPerLetter(opts: seq<Opt<char>>, c: char)
    requires IsLowerAscii(c)
    ensures multiset(Letters(WorkItems(opts)))[c] == 1
  {
    var byLetter := ItemsByLetter(opts);
    assert Letters(byLetter) == Alphabet();
    NoDupCount(Alphabet(), c);
  }

  function Letters(s: seq<WorkItem>): (r: seq<char>)
    ensures |r| == |s| && forall i :: 0 <= i < |s| ==> r[i] == s[i].letter
  {
    seq(|s|, i requires 0 <= i < |s| => s[i].letter)
  }

  lemma {:induction false} NoDupCount(s: seq<char>, c: char)
    requires StrictlySorted(s) && c in s
    ensures multiset(s)[c] == 1
    decreases |s|
  {
    assert s == [s[0]] + s[1..];
    if s[0] == c {
      assert c !in s[1..];
    } else {
      NoDupCount(s[1..], c);
    }
  }

  /** The letters an ordered selection of options covers. */
  function LettersOf(sel: seq<Opt<char>>): (r: set<char>)
    ensures forall c :: c in r <==> exists i :: 0 <= i < |sel| && c in sel[i].items
  {
    if sel == [] then {}
    else
      assert forall i :: 0 <= i < |sel| - 1 ==> sel[..|sel| - 1][i] == sel[i];
      LettersOf(sel[..|sel| - 1]) + ToSet(sel[|sel| - 1].items)
  }

  /**
    Exhaustive and disjoint partition: a selection of word options that covers
    every letter but `c` lies entirely inside the work item of `c`, and inside
    no other work item.
  */
  lemma PartitionByMissingLetter(opts: seq<Opt<char>>, sel: seq<Opt<char>>, c: char)
    requires WordOptions(opts)
    requires forall i :: 0 <= i < |sel| ==> sel[i] in opts
    requires IsLowerAscii(c)
    requires forall d :: d in LettersOf(sel) <==> IsLowerAscii(d) && d != c
    ensures forall i :: 0 <= i < |sel| ==> sel[i] in ItemFor(opts, c).options
    ensures forall d :: IsLowerAscii(d) && d != c ==>
              exists i :: 0 <= i < |sel| && sel[i] !in ItemFor(opts, d).options
  {
    forall i | 0 <= i < |sel| ensures sel[i] in ItemFor(opts, c).options {
      var j :| 0 <= j < |opts| && opts[j] == sel[i];
      assert sel[i].name == sel[i].items;
    }
    forall d | IsLowerAscii(d) && d != c
      ensures exists i :: 0 <= i < |sel| && sel[i] !in ItemFor(opts, d).options
    {
      assert d in LettersOf(sel);
      var i :| 0 <= i < |sel| && d in sel[i].items;
      var j :| 0 <= j < |opts| && opts[j] == sel[i];
      assert d in sel[i].name;
    }
  }
}
