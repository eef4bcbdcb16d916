/**
  Word-list preparation of the front end (src/index.js): splitting a word list
  into lines, trimming and lower-casing them, intersecting two lists, keeping
  the five-letter words and folding anagrams into one normalized word.
*/
module Words {
  import opened Seqs

  // ---------------------------------------------------------------------------
  // Characters
  // ---------------------------------------------------------------------------

  /** The ECMAScript WhiteSpace and LineTerminator code points: what String.prototype.trim strips. */
  predicate IsTrimmable(c: char)
  {
    || c == '\t' || c == '\n' || c == '\U{B}' || c == '\U{C}' || c == '\r'
    || c == ' ' || c == '\U{A0}' || c == '\U{1680}'
    || ('\U{2000}' <= c <= '\U{200A}')
    || c == '\U{2028}' || c == '\U{2029}' || c == '\U{202F}' || c == '\U{205F}'
    || c == '\U{3000}' || c == '\U{FEFF}'
  }

  predicate IsUpperAscii(c: char) { 'A' <= c <= 'Z' }

  predicate IsLowerAscii(c: char) { 'a' <= c <= 'z' }

  /** KELVIN SIGN, the one character outside ASCII that toLowerCase maps to an ASCII letter ('k'). */
  const Kelvin: char := '\U{212A}'

  /**
    Lower-case one character: the ASCII capitals and the Kelvin sign are
    mapped; every other character is kept.
  */
  function LowerChar(c: char): (r: char)
    ensures !IsUpperAscii(r) && r != Kelvin
    ensures IsUpperAscii(c) ==> IsLowerAscii(r) && r as int - c as int == 32
    ensures c == Kelvin ==> r == 'k'
    ensures !IsUpperAscii(c) && c != Kelvin ==> r == c
    ensures IsLowerAscii(r) <==> IsLowerAscii(c) || IsUpperAscii(c) || c == Kelvin
  {
    if IsUpperAscii(c) then (c as int + 32) as char
    else if c == Kelvin then 'k'
    else c
  }

  // ---------------------------------------------------------------------------
  // String.prototype.trim and toLowerCase
  // ---------------------------------------------------------------------------

  /** Index of the first character that trim keeps (|s| when there is none). */
  function TrimStart(s: string): (k: nat)
    ensures k <= |s|
    ensures forall i :: 0 <= i < k ==> IsTrimmable(s[i])
    ensures k < |s| ==> !IsTrimmable(s[k])
    decreases |s|
  {
    if s == [] || !IsTrimmable(s[0]) then 0 else 1 + TrimStart(s[1..])
  }

  /** One past the index of the last character at or after `lo` that trim keeps. */
  function TrimEnd(s: string, lo: nat): (k: nat)
    requires lo <= |s|
    ensures lo <= k <= |s|
    ensures forall i :: k <= i < |s| ==> IsTrimmable(s[i])
    ensures k > lo ==> !IsTrimmable(s[k - 1])
    decreases |s|
  {
    if |s| == lo || !IsTrimmable(s[|s| - 1]) then |s| else TrimEnd(s[..|s| - 1], lo)
  }

  /** String.prototype.trim: the longest slice of `s` with no whitespace at either end. */
  function Trim(s: string): (r: string)
    ensures |r| <= |s|
    ensures r == [] || (!IsTrimmable(r[0]) && !IsTrimmable(r[|r| - 1]))
    ensures TrimStart(s) + |r| <= |s| && r == s[TrimStart(s)..TrimStart(s) + |r|]
    ensures forall i :: 0 <= i < TrimStart(s) ==> IsTrimmable(s[i])
    ensures forall i :: TrimStart(s) + |r| <= i < |s| ==> IsTrimmable(s[i])
  {
    var lo := TrimStart(s);
    var hi := TrimEnd(s, lo);
    s[lo..hi]
  }

  /** Trimming twice changes nothing more. */
  lemma TrimIdempotent(s: string)
    ensures Trim(Trim(s)) == Trim(s)
  {
    var t := Trim(s);
    assert TrimStart(t) == 0;
    assert TrimEnd(t, 0) == |t|;
  }

  /** String.prototype.toLowerCase, restricted to the characters LowerChar maps. */
  function ToLower(s: string): (r: string)
    ensures |r| == |s|
    ensures forall i :: 0 <= i < |r| ==> r[i] == LowerChar(s[i])
  {
    seq(|s|, i requires 0 <= i < |s| => LowerChar(s[i]))
  }

  /** The per-line normalisation `word.trim().toLowerCase()`. */
  function NormalizeLine(line: string): (r: string)
    ensures forall i :: 0 <= i < |r| ==> !IsUpperAscii(r[i]) && r[i] != Kelvin
    ensures r == [] || (!IsTrimmable(r[0]) && !IsTrimmable(r[|r| - 1]))
  {
    ToLower(Trim(line))
  }

  /** Normalising a normalised line changes nothing. */
  lemma NormalizeLineIdempotent(line: string)
    ensures NormalizeLine(NormalizeLine(line)) == NormalizeLine(line)
  {
    var r := NormalizeLine(line);
    assert TrimStart(r) == 0;
    assert TrimEnd(r, 0) == |r|;
    assert ToLower(r) == r;
  }

  // ---------------------------------------------------------------------------
  // Splitting on the regular expression /\r?\n/
  // ---------------------------------------------------------------------------

  /** Drop one trailing carriage return: the optional `\r` of a `\r\n` separator. */
  function DropCR(p: string): (r: string)
    ensures p == r || p == r + ['\r']
  {
    if |p| > 0 && p[|p| - 1] == '\r' then p[..|p| - 1] else p
  }

  /**
    `s.split(/\r?\n/)`: the pieces between line feeds; a carriage return right
    before a line feed is part of the separator.
  */
  function SplitLines(s: string): (r: seq<string>)
    ensures |r| == |SplitOn(s, '\n')|
    ensures forall i :: 0 <= i < |r| ==> '\n' !in r[i]
  {
    var pieces := SplitOn(s, '\n');
    seq(|pieces|, i requires 0 <= i < |pieces| =>
      if i < |pieces| - 1 then DropCR(pieces[i]) else pieces[i])
  }

  /** Without carriage returns, joining the lines with line feeds restores the text. */
  lemma LinesJoin(s: string)
    requires '\r' !in s
    ensures Join(SplitLines(s), "\n") == s
  {
    var pieces := SplitOn(s, '\n');
    JoinSplit(s, '\n');
    PiecesInside(s, '\n');
    forall i | 0 <= i < |pieces| ensures '\r' !in pieces[i] {
      assert pieces[i] in pieces;
    }
    assert SplitLines(s) == pieces;
  }

  /** Every piece of a split is made of characters of the original string. */
  lemma {:induction false} PiecesInside(s: string, sep: char)
    ensures forall p, c :: p in SplitOn(s, sep) && c in p ==> c in s
    decreases |s|
  {
    if sep in s {
      var k := IndexOf(s, sep);
      SplitOnUnfold(s, sep);
      PiecesInside(s[k + 1..], sep);
      SliceMembers(s, 0, k);
      SliceMembers(s, k + 1, |s|);
      assert s[k + 1..|s|] == s[k + 1..];
    }
  }

  lemma SliceMembers(s: string, a: nat, b: nat)
    requires a <= b <= |s|
    ensures forall c :: c in s[a..b] ==> c in s
  {
    forall c | c in s[a..b] ensures c in s {
      var m :| 0 <= m < b - a && s[a..b][m] == c;
      assert s[a + m] == c;
    }
  }

  /** Splitting lines joined by line feeds gives them back, as long as none hides a separator. */
  lemma SplitJoinLines(lines: seq<string>)
    requires lines != []
    requires forall i :: 0 <= i < |lines| ==> '\n' !in lines[i]
    requires forall i :: 0 <= i < |lines| - 1 ==> lines[i] == [] || lines[i][|lines[i]| - 1] != '\r'
    ensures SplitLines(Join(lines, "\n")) == lines
  {
    SplitJoin(lines, '\n');
  }

  // ---------------------------------------------------------------------------
  // splitWordsString
  // ---------------------------------------------------------------------------

  /** A word list is either one text or, for the intersection list, a pair of texts. */
  datatype WordSource = OneList(text: string) | TwoLists(first: string, second: string)

  /** The normalised lines of one text. */
  function WordLines(text: string): (r: seq<string>)
    ensures |r| == |SplitLines(text)|
    ensures forall i :: 0 <= i < |r| ==> r[i] == NormalizeLine(SplitLines(text)[i])
  {
    var lines := SplitLines(text);
    seq(|lines|, i requires 0 <= i < |lines| => NormalizeLine(lines[i]))
  }

  /**
    splitWordsString: the normalised lines of a single list, or those of the
    second list that also occur in the first, in the second list's order and
    with its duplicates.
  */
  function SplitWords(src: WordSource): (r: seq<string>)
    ensures src.OneList? ==> r == WordLines(src.text)
    ensures src.TwoLists? ==>
              && IsSubsequence(r, WordLines(src.second))
              && forall w :: multiset(r)[w] ==
                   if w in WordLines(src.first) then multiset(WordLines(src.second))[w] else 0
  {
    match src
    case OneList(text) => WordLines(text)
    case TwoLists(first, second) =>
      var known := set w | w in WordLines(first);
      FilterCount(w => w in known, WordLines(second));
      Filter(w => w in known, WordLines(second))
  }

  // ---------------------------------------------------------------------------
  // Five-letter words and their anagram key
  // ---------------------------------------------------------------------------

  /** `/^[a-z]{5}$/.test(word)`. */
  predicate IsFiveLetterWord(w: string)
  {
    |w| == 5 && forall i :: 0 <= i < 5 ==> IsLowerAscii(w[i])
  }

  /** `allWords.filter(word => /^[a-z]{5}$/.test(word))`: the five-letter words, in order, repeats kept. */
  function FiveLetterWords(words: seq<string>): (r: seq<string>)
    ensures IsSubsequence(r, words)
    ensures forall w :: w in r <==> w in words && IsFiveLetterWord(w)
    ensures forall w :: multiset(r)[w] == if IsFiveLetterWord(w) then multiset(words)[w] else 0
  {
    FilterCount(IsFiveLetterWord, words);
    Filter(IsFiveLetterWord, words)
  }

  predicate Sorted(s: string)
  {
    forall i, j :: 0 <= i < j < |s| ==> s[i] <= s[j]
  }

  predicate StrictlySorted(s: string)
  {
    forall i, j :: 0 <= i < j < |s| ==> s[i] < s[j]
  }

  /** Insert `c` into a sorted string. */
  function InsertChar(c: char, s: string): (r: string)
    requires Sorted(s)
    ensures Sorted(r)
    ensures |r| == |s| + 1 && (r[0] == c || (s != [] && r[0] == s[0]))
    ensures multiset(r) == multiset(s) + multiset{c}
    decreases |s|
  {
    if s == [] || c <= s[0] then [c] + s
    else
      assert s == [s[0]] + s[1..];
      [s[0]] + InsertChar(c, s[1..])
  }

  /** The default sort of an array of one-character strings: ascending character order. */
  function SortChars(s: string): (r: string)
    ensures Sorted(r)
    ensures |r| == |s| && multiset(r) == multiset(s)
    decreases |s|
  {
    if s == [] then []
    else
      assert s == [s[0]] + s[1..];
      InsertChar(s[0], SortChars(s[1..]))
  }

  /** `[...new Set(word)].sort().join('')`: the distinct letters of a word in ascending order. */
  function Key(w: string): (r: string)
    ensures StrictlySorted(r)
    ensures forall c :: c in r <==> c in w
    ensures |r| == |Dedup(w)|
  {
    var d := Dedup(w);
    var r := SortChars(d);
    assert forall c :: c in r <==> c in multiset(r);
    assert forall c :: c in d <==> c in multiset(d);
    forall i, j | 0 <= i < j < |r| ensures r[i] < r[j] {
      SortedNoDup(d, r, i, j);
    }
    r
  }

  lemma SortedNoDup(d: string, r: string, i: int, j: int)
    requires NoDup(d) && Sorted(r) && multiset(r) == multiset(d)
    requires 0 <= i < j < |r|
    ensures r[i] < r[j]
  {
    if r[i] == r[j] {
      assert multiset(r)[r[i]] >= 2 by {
        var ri := r[..i] + r[i + 1..];
        assert r == r[..i] + [r[i]] + r[i + 1..];
        assert r[j] in ri by { assert ri[j - 1] == r[j]; }
        assert multiset(r) == multiset(ri) + multiset{r[i]};
      }
      DedupCount(d, r[i]);
    }
  }

  /** In a duplicate-free sequence every element occurs at most once. */
  lemma {:induction false} DedupCount(d: string, c: char)
    requires NoDup(d)
    ensures multiset(d)[c] <= 1
    decreases |d|
  {
    if d != [] {
      assert d == [d[0]] + d[1..];
      assert NoDup(d[1..]);
      DedupCount(d[1..], c);
      if d[0] == c {
        assert c !in d[1..];
      }
    }
  }

  lemma HeadIn(s: string)
    ensures s != [] ==> s[0] in s
  {
  }

  /** Two strictly sorted strings with the same characters are equal. */
  lemma {:induction false} StrictlySortedUnique(a: string, b: string)
    requires StrictlySorted(a) && StrictlySorted(b)
    requires forall c :: c in a <==> c in b
    ensures a == b
    decreases |a| + |b|
  {
    if a == [] || b == [] {
      HeadIn(a);
      HeadIn(b);
    } else {
      // both heads are the least character of the common set
      assert a[0] == b[0] by {
        assert a[0] in b;
        assert b[0] in a;
        var i :| 0 <= i < |b| && b[i] == a[0];
        var j :| 0 <= j < |a| && a[j] == b[0];
        assert b[0] <= a[0];
        assert a[0] <= b[0];
      }
      forall c ensures c in a[1..] <==> c in b[1..] {
        if c in a[1..] {
          var i :| 1 <= i < |a| && a[i] == c;
          assert c in b;
          assert c != b[0];
        }
        if c in b[1..] {
          var i :| 1 <= i < |b| && b[i] == c;
          assert c in a;
          assert c != a[0];
        }
      }
      StrictlySortedUnique(a[1..], b[1..]);
      assert a == [a[0]] + a[1..];
      assert b == [b[0]] + b[1..];
    }
  }

  /** Anagrams share their key. */
  lemma KeyOfAnagrams(w1: string, w2: string)
    requires multiset(w1) == multiset(w2)
    ensures Key(w1) == Key(w2)
  {
    forall c ensures c in Key(w1) <==> c in Key(w2) {
      assert c in w1 <==> c in multiset(w1);
      assert c in w2 <==> c in multiset(w2);
    }
    StrictlySortedUnique(Key(w1), Key(w2));
  }

  /** The key keeps every letter exactly when no letter repeats. */
  lemma KeyLength(w: string)
    ensures |Key(w)| == |w| <==> NoDup(w)
  {
    DedupLength(w);
  }

  // ---------------------------------------------------------------------------
  // normalizedWordMap
  // ---------------------------------------------------------------------------

  /** One entry of normalizedWordMap: a key and its anagrams joined by '/'. */
  datatype Entry = Entry(key: string, display: string)

  function Keys(m: seq<Entry>): (r: seq<string>)
    ensures |r| == |m|
    ensures forall i :: 0 <= i < |m| ==> r[i] == m[i].key
  {
    seq(|m|, i requires 0 <= i < |m| => m[i].key)
  }

  /** Map.get: the position of the entry for `k`, if there is one. */
  function Find(m: seq<Entry>, k: string): (r: Option<nat>)
    ensures r.None? <==> k !in Keys(m)
    ensures r.Some? ==> r.value < |m| && m[r.value].key == k
    decreases |m|
  {
    if m == [] then None
    else if m[|m| - 1].key == k then Some(|m| - 1)
    else
      assert Keys(m) == Keys(m[..|m| - 1]) + [m[|m| - 1].key];
      Find(m[..|m| - 1], k)
  }

  /** The loop body for one five-letter word: skip it when a letter repeats, else add or extend its entry. */
  function AddWord(m: seq<Entry>, w: string): seq<Entry>
  {
    var k := Key(w);
    if |k| != 5 then m
    else match Find(m, k)
      case None => m + [Entry(k, w)]
      case Some(i) => m[i := Entry(k, m[i].display + "/" + w)]
  }

  /** normalizedWordMap, built from the five-letter words in input order. */
  function NormalizedWordMap(words: seq<string>): seq<Entry>
  {
    if words == [] then []
    else AddWord(NormalizedWordMap(words[..|words| - 1]), words[|words| - 1])
  }

  /** Words kept by the normalisation: those whose key has five letters. */
  predicate Accepted(w: string) { |Key(w)| == 5 }

  /** The keys of the accepted words, in input order, with repetitions. */
  function AcceptedKeys(words: seq<string>): seq<string>
  {
    var kept := Filter(Accepted, words);
    seq(|kept|, i requires 0 <= i < |kept| => Key(kept[i]))
  }

  /** The words with key `k`, in input order. */
  function Anagrams(words: seq<string>, k: string): seq<string>
  {
    Filter(w => Key(w) == k, words)
  }

  lemma AcceptedKeysSnoc(words: seq<string>, w: string)
    ensures AcceptedKeys(words + [w]) == AcceptedKeys(words) + (if Accepted(w) then [Key(w)] else [])
  {
    FilterSnoc(Accepted, words, w);
  }

  lemma AnagramsSnoc(words: seq<string>, w: string, k: string)
    ensures Anagrams(words + [w], k) == Anagrams(words, k) + (if Key(w) == k then [w] else [])
  {
    FilterSnoc(u => Key(u) == k, words, w);
  }

  lemma InAcceptedKeys(words: seq<string>, k: string)
    requires |k| == 5
    ensures k in AcceptedKeys(words) <==> Anagrams(words, k) != []
  {
    var kept := Filter(Accepted, words);
    if k in AcceptedKeys(words) {
      var i :| 0 <= i < |kept| && Key(kept[i]) == k;
      assert kept[i] in words;
      assert kept[i] in Anagrams(words, k);
    }
    if Anagrams(words, k) != [] {
      var w := Anagrams(words, k)[0];
      assert w in Anagrams(words, k);
      assert w in kept;
      var i :| 0 <= i < |kept| && kept[i] == w;
      assert AcceptedKeys(words)[i] == k;
    }
  }

  lemma DedupSnoc<T(!new)>(xs: seq<T>, x: T)
    ensures Dedup(xs + [x]) == if x in xs then Dedup(xs) else Dedup(xs) + [x]
  {
    assert (xs + [x])[..|xs|] == xs;
  }

  /** The keys of the normalised map are the distinct keys of the accepted words, in order of first appearance. */
  lemma {:induction false} NormalizedWordMapKeys(words: seq<string>)
    ensures Keys(NormalizedWordMap(words)) == Dedup(AcceptedKeys(words))
    decreases |words|
  {
    if words != [] {
      var init := words[..|words| - 1];
      var w := words[|words| - 1];
      assert words == init + [w];
      NormalizedWordMapKeys(init);
      var m := NormalizedWordMap(init);
      assert NormalizedWordMap(words) == AddWord(m, w);
      AcceptedKeysSnoc(init, w);
      AddWordKeys(m, w);
      var ks := AcceptedKeys(init);
      assert AcceptedKeys(words) == ks + (if Accepted(w) then [Key(w)] else []);
      if Accepted(w) {
        DedupSnoc(ks, Key(w));
        assert Key(w) in Keys(m) <==> Key(w) in ks;
      } else {
        assert ks + [] == ks;
      }
    }
  }

  /** Adding a word appends its key exactly when it is accepted and new. */
  lemma AddWordKeys(m: seq<Entry>, w: string)
    ensures Keys(AddWord(m, w)) ==
              if Accepted(w) && Key(w) !in Keys(m) then Keys(m) + [Key(w)] else Keys(m)
  {
    var k := Key(w);
    if |k| == 5 {
      match Find(m, k)
      case None =>
        assert Keys(m + [Entry(k, w)]) == Keys(m) + [k];
      case Some(j) =>
        assert Keys(m[j := Entry(k, m[j].display + "/" + w)]) == Keys(m);
    }
  }

  /** Every entry of the normalised map displays all words with its key, joined by '/' in input order. */
  lemma {:induction false} NormalizedWordMapDisplay(words: seq<string>)
    ensures forall i :: 0 <= i < |NormalizedWordMap(words)| ==>
              var e := NormalizedWordMap(words)[i];
              |e.key| == 5 && e.display == Join(Anagrams(words, e.key), "/")
    decreases |words|
  {
    if words != [] {
      var init := words[..|words| - 1];
      var w := words[|words| - 1];
      assert words == init + [w];
      NormalizedWordMapDisplay(init);
      NormalizedWordMapKeys(init);
      var m := NormalizedWordMap(init);
      assert NormalizedWordMap(words) == AddWord(m, w);
      forall i | 0 <= i < |AddWord(m, w)|
        ensures |AddWord(m, w)[i].key| == 5
        ensures AddWord(m, w)[i].display == Join(Anagrams(init + [w], AddWord(m, w)[i].key), "/")
      {
        DisplayStep(init, m, w, i);
      }
    }
  }

  /** One step of the display invariant: adding word `w` keeps entry `i` equal to its anagram list. */
  lemma DisplayStep(init: seq<string>, m: seq<Entry>, w: string, i: nat)
    requires Keys(m) == Dedup(AcceptedKeys(init))
    requires forall i :: 0 <= i < |m| ==> |m[i].key| == 5 && m[i].display == Join(Anagrams(init, m[i].key), "/")
    requires i < |AddWord(m, w)|
    ensures |AddWord(m, w)[i].key| == 5
    ensures AddWord(m, w)[i].display == Join(Anagrams(init + [w], AddWord(m, w)[i].key), "/")
  {
    var m' := AddWord(m, w);
    var k := Key(w);
    if |k| == 5 {
      match Find(m, k)
      case None =>
        if i == |m| {
          DisplayNew(init, m, w);
        } else {
          DisplayOther(init, m, w, i);
        }
      case Some(j) =>
        if i == j {
          DisplayExtend(init, m, w, j);
        } else {
          assert m[i].key != k by { assert Keys(m)[i] != Keys(m)[j]; }
          DisplayOther(init, m, w, i);
        }
    } else {
      DisplayOther(init, m, w, i);
    }
  }

  lemma DisplayNew(init: seq<string>, m: seq<Entry>, w: string)
    requires Keys(m) == Dedup(AcceptedKeys(init))
    requires |Key(w)| == 5 && Find(m, Key(w)).None?
    ensures AddWord(m, w) == m + [Entry(Key(w), w)]
    ensures w == Join(Anagrams(init + [w], Key(w)), "/")
  {
    var k := Key(w);
    AnagramsSnoc(init, w, k);
    InAcceptedKeys(init, k);
    assert k !in Keys(m);
    assert Anagrams(init, k) == [];
  }

  lemma DisplayExtend(init: seq<string>, m: seq<Entry>, w: string, j: nat)
    requires Keys(m) == Dedup(AcceptedKeys(init))
    requires j < |m| && |m[j].key| == 5 && m[j].display == Join(Anagrams(init, m[j].key), "/")
    requires |Key(w)| == 5 && Find(m, Key(w)) == Some(j)
    ensures AddWord(m, w)[j] == Entry(Key(w), Join(Anagrams(init + [w], Key(w)), "/"))
  {
    var k := Key(w);
    AnagramsSnoc(init, w, k);
    InAcceptedKeys(init, k);
    assert k in Keys(m);
    JoinSnoc(Anagrams(init, k), w, "/");
  }

  lemma DisplayOther(init: seq<string>, m: seq<Entry>, w: string, i: nat)
    requires i < |m| && |m[i].key| == 5 && m[i].display == Join(Anagrams(init, m[i].key), "/")
    requires |Key(w)| != 5 || Key(w) != m[i].key
    ensures i < |AddWord(m, w)| && AddWord(m, w)[i] == m[i]
    ensures m[i].display == Join(Anagrams(init + [w], m[i].key), "/")
  {
    AddWordOther(m, w, i);
    AnagramsSnoc(init, w, m[i].key);
    assert Key(w) != m[i].key;
    assert Anagrams(init, m[i].key) + [] == Anagrams(init, m[i].key);
  }

  lemma AddWordOther(m: seq<Entry>, w: string, i: nat)
    requires i < |m|
    requires |Key(w)| != 5 || Key(w) != m[i].key
    ensures i < |AddWord(m, w)| && AddWord(m, w)[i] == m[i]
  {
    var k := Key(w);
    if |k| == 5 {
      match Find(m, k)
      case None =>
      case Some(j) =>
        assert j != i;
    }
  }

  // ---------------------------------------------------------------------------
  // The map built from all words
  // ---------------------------------------------------------------------------

  /** A normalized word as the filter and the key let it through: five strictly increasing lower-case letters. */
  predicate WordKey(k: string)
  {
    |k| == 5 && StrictlySorted(k) && forall c :: c in k ==> IsLowerAscii(c)
  }

  /** A word that yields an entry: five lower-case letters, none repeated. */
  predicate KeptWord(w: string)
  {
    IsFiveLetterWord(w) && NoDup(w)
  }

  /**
    The map solve() builds from all words: its keys are the distinct keys of
    the five-letter words without a repeated letter, in order of first
    appearance; every key is five strictly increasing lower-case letters, and a
    string is a key exactly when it is the key of such a word; every entry
    displays all five-letter words with its key, in input order.
  */
  lemma FiveLetterWordMap(words: seq<string>)
    ensures var fl := FiveLetterWords(words);
      var m := NormalizedWordMap(fl);
      && Keys(m) == Dedup(AcceptedKeys(fl))
      && NoDup(Keys(m))
      && (forall i :: 0 <= i < |m| ==> WordKey(m[i].key) && m[i].display == Join(Anagrams(fl, m[i].key), "/"))
      && (forall k :: k in Keys(m) <==> exists w :: w in words && KeptWord(w) && Key(w) == k)
  {
    var fl := FiveLetterWords(words);
    var m := NormalizedWordMap(fl);
    NormalizedWordMapKeys(fl);
    NormalizedWordMapDisplay(fl);
    forall k ensures k in Keys(m) <==> exists w :: w in words && KeptWord(w) && Key(w) == k {
      if exists w :: w in words && KeptWord(w) && Key(w) == k {
        var w :| w in words && KeptWord(w) && Key(w) == k;
        KeyLength(w);
        KeyAccepted(fl, w);
      }
      if k in Keys(m) {
        var w := AcceptedKeyOf(fl, k);
        KeyLength(w);
      }
    }
    forall i | 0 <= i < |m| ensures WordKey(m[i].key) {
      assert m[i].key == Keys(m)[i];
      var w := AcceptedKeyOf(fl, m[i].key);
      assert forall c :: c in w ==> IsLowerAscii(c);
    }
  }

  /** Every accepted key is the key of an accepted word. */
  lemma AcceptedKeyOf(words: seq<string>, k: string) returns (w: string)
    requires k in AcceptedKeys(words)
    ensures w in words && Accepted(w) && Key(w) == k
  {
    var kept := Filter(Accepted, words);
    var i :| 0 <= i < |kept| && AcceptedKeys(words)[i] == k;
    w := kept[i];
    assert w in kept;
  }

  /** The key of every accepted word is an accepted key. */
  lemma KeyAccepted(words: seq<string>, w: string)
    requires w in words && Accepted(w)
    ensures Key(w) in AcceptedKeys(words)
  {
    var kept := Filter(Accepted, words);
    assert w in kept;
    var i :| 0 <= i < |kept| && kept[i] == w;
    assert AcceptedKeys(words)[i] == Key(w);
  }
}
