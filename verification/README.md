# Five-letter-word exact cover: a Dafny model

The program finds sets of five English words with five distinct letters each
that together use 25 different letters. The front end (src/index.js) splits
a word list into lines, keeps the five-letter words, reduces each to its
sorted letter set (its "normalised word", which merges anagrams), checks that
all 26 letters occur, builds one work item per letter (the words that do not
contain that letter), sorts the work items by size and hands them to
workers, and records every solution once whatever the order of its words.
The solver (src/dancinglinks.js) is Knuth's Dancing Links implementation of
Algorithm X for exact cover, with optional "given" options placed first.

The model has three layers.

* `Words`, `Partition`, `Aggregate`, `Dispatch`: the pure parts of the front
  end, as functions on strings and sequences, and the dispatch loop as a
  state machine driven by worker messages.
* `Problem`, `AlgorithmX`: exact cover over options, and the search as
  solve() performs it on the abstract state (the covered items, in covering
  order, and the stack of chosen options), with the given-option test
  corrected as described under Findings. Soundness, completeness (every
  exact cover is yielded exactly once), the dead end and the givens loop are
  proved here.
* `Rings`, `Links`, `Layout`, `Covering`, `CoverState`, `CoverEffect`,
  `Assembly`, `BuildState`, `Construction`: the linked structure itself. Nodes live in an arena of index-addressed link
  arrays (`left`, `right`, `up`, `down`, `col`, `opt`, `count`); node 0 is the
  root, nodes 1..n the column headers in item order, then one node per item
  of each option. `Layout.Rep` says that an arena encodes an abstract state.
  Each splice of the `Node` class is a function on arenas, and cover/uncover
  are the source's loops, run with a step bound. `CoverEffect.CoverKeepsRep`
  proves that cover takes an arena encoding `cov` to one encoding
  `cov + [c]`, and that uncover right after it gives back the same arena,
  root row count included. `Construction.Build` replays the construction at
  the start of solve() (the header loop, then createRow for every item of
  every option) and ends in an arena encoding the state in which nothing is
  covered, which is where the search starts.

## Model

| member | source | states |
|---|---|---|
| Words.Trim | src/index.js:49 | the trimmed string is the slice of the input between its leading and trailing white space, and starts and ends with a non-white character |
| Words.LowerChar | src/index.js:49 | an upper-case ASCII letter is mapped to its lower-case letter (32 code points up) and the Kelvin sign to 'k', every other character is kept; the result is a lower-case ASCII letter exactly when the input is one of those or already lower-case |
| Words.NormalizeLineIdempotent | src/index.js:49 | trimming and lower-casing a line twice gives the same as doing it once |
| Words.SplitLines | src/index.js:9 | splitting on `/\r?\n/` gives one piece per line feed plus one, none containing a line feed |
| Words.LinesJoin | src/index.js:9 | without carriage returns, joining the split pieces with line feeds gives back the text |
| Words.SplitJoinLines | src/index.js:9 | splitting lines joined by line feeds gives back the lines, when none ends in a carriage return or holds a line feed |
| Words.SplitWords | src/index.js:46-55 | one list gives its normalised lines; two lists give the second's normalised lines that occur in the first, in order, each as often as in the second |
| Words.FiveLetterWords | src/index.js:67 | the kept words are a subsequence of the input; a word is kept, with all its repeats, exactly when it is five lower-case ASCII letters |
| Words.Key | src/index.js:75 | the normalised word is strictly sorted, has exactly the letters of the word, and is as long as the word's distinct letters |
| Words.KeyOfAnagrams | src/index.js:70-75 | words with the same letters get the same normalised word |
| Words.KeyLength | src/index.js:77 | the normalised word has the word's length exactly when no letter repeats |
| Words.NormalizedWordMapKeys | src/index.js:73-82 | the map's keys are the distinct normalised words of five letters, in order of first appearance |
| Words.NormalizedWordMapDisplay | src/index.js:73-82 | every entry displays all input words with its key, in input order, joined by '/' |
| Words.FiveLetterWordMap | src/index.js:67-82 | after the five-letter filter, the map's keys are distinct and in order of first appearance, each is five strictly increasing lower-case letters, a string is a key exactly when it is the key of a five-letter input word without a repeated letter, and each entry displays the five-letter words with its key |
| Partition.OptionsFromWordsShape | src/index.js:64-86 | the options built from the word list are one per map key, well formed (distinct names, no repeated item), each named by its own five distinct lower-case letters, and a letter is used exactly when some kept word contains it |
| Partition.Alphabet | src/index.js:88-89 | 26 letters, strictly increasing, exactly the lower-case ASCII letters |
| Partition.CheckLetters | src/index.js:91-96 | the list is rejected exactly when fewer than 26 letters are used; the missing letters are listed in alphabetical order, and are exactly the unused ones |
| Partition.CheckLettersFromWords | src/index.js:64-96 | on the options built from a word list, the check passes exactly when every lower-case letter occurs in a five-letter word without a repeated letter |
| Partition.CheckLettersComplete | src/index.js:91-96 | the list is accepted exactly when every lower-case letter is used, and a rejection names at least one letter |
| Partition.ItemFor | src/index.js:102 | the work item of a letter holds exactly the options whose word lacks that letter, in option order |
| Partition.SortBySize | src/index.js:103-104 | the sorted work items are a permutation of the input with option counts non-increasing |
| Partition.WorkItems | src/index.js:101-104 | 26 work items, one per letter, sorted by descending option count, each holding exactly the options without its letter |
| Partition.OneItemPerLetter | src/index.js:101-104 | every letter has exactly one work item |
| Partition.PartitionByMissingLetter | src/index.js:101-102 | a selection covering every letter but one lies inside that letter's work item and in no other |
| Aggregate.SolutionKeyCanonical | src/index.js:108 | two solutions, the empty one included, get the same key exactly when they hold the same words with the same multiplicities |
| Aggregate.SolutionKeySplits | src/index.js:108-113 | splitting a key on commas gives back the sorted words |
| Aggregate.RecordSolution | src/index.js:106-119 | the key is added to the seen set; a known key changes nothing; a new key appends its display line; the count of display lines keeps equal to the count of keys |
| Aggregate.RecordPermutation | src/index.js:106-109 | two orderings of the same words are recorded identically |
| Aggregate.RecordAllSeen | src/index.js:106-119 | after recording a run of solutions the seen set is the old one plus the keys of the run, and the display stays consistent |
| Aggregate.DisplayList | src/index.js:114-116 | the anagram groups found in the map come first, all of them and in ascending order, and each name missing from the map becomes an empty string at the end |
| Dispatch.Start | src/index.js:135-175 | the first min(workers, concurrency, items) workers are attached, worker n solving item n, and the state meets the invariant |
| Dispatch.StepInv | src/index.js:141-167 | every message keeps the invariant: each handed-out item is completed or being solved by exactly one attached worker, the counters agree, and the run resolves exactly when all items are completed |
| Dispatch.CompletedCounts | src/index.js:148-151 | a completed message from an attached worker counts its item once |
| Dispatch.ResolvedFinal | src/index.js:156-163 | once resolved, every item is completed, no worker is attached, and further messages change nothing |
| Dispatch.RunResolves | src/index.js:135-175 | a run whose workers keep completing resolves with every item completed exactly once |
| Problem.Universe | src/dancinglinks.js:85 | the items of the options, each once |
| AlgorithmX.SelectColumnSpec | src/dancinglinks.js:71-82 | nothing is selected exactly when the header ring is empty; otherwise the first column with no rows, or else the first column of least row count |
| AlgorithmX.SearchSound | src/dancinglinks.js:149-191 | every stack the search yields extends the current one to an exact cover of all items |
| AlgorithmX.SearchComplete | src/dancinglinks.js:149-191 | every exact cover extending the current stack is yielded exactly once |
| AlgorithmX.DeadEnd | src/dancinglinks.js:160-163 | when an uncovered item has no live option, nothing is yielded below the stack |
| AlgorithmX.ChooseInv | src/dancinglinks.js:172-178 | pushing a live row and covering its items keeps the stack disjoint and equal in items to the covered set |
| AlgorithmX.PlaceGivensStack | src/dancinglinks.js:131-145 | with the corrected given test (see Findings), placed givens push exactly the given names, in order |
| AlgorithmX.PlaceGivensInv | src/dancinglinks.js:131-145 | with the corrected given test (see Findings), placing the givens keeps the search invariant |
| AlgorithmX.SolveSound | src/dancinglinks.js:84-191 | with the corrected given test (see Findings), every yielded solution is an exact cover whose names start with the given names |
| AlgorithmX.SolveComplete | src/dancinglinks.js:84-191 | with the corrected given test (see Findings), every exact cover containing the (distinct) given names is yielded exactly once |
| AlgorithmX.GuardAsWrittenWeaker | src/dancinglinks.js:133 | every option the corrected given test admits, the written test admits too |
| AlgorithmX.GuardAsWrittenAdmitsOverlap | src/dancinglinks.js:123-145 | the written given test admits an option that overlaps a given already placed |
| Links.InsertBelowEffect | src/dancinglinks.js:12-18 | insertBelow links the node between the given node and the one below it, takes its column and adds one to that column's count |
| Links.VRoundTrip | src/dancinglinks.js:20-29 | reinsertVertically right after removeVertically restores the arena exactly, count included |
| Links.HRoundTrip | src/dancinglinks.js:31-38 | reinsertHorizontally right after removeHorizontally restores the arena exactly |
| Links.RemoveVRing | src/dancinglinks.js:20-24 | removing a node from a column ring leaves the ring without it and lowers the column count by one |
| Links.RemoveHRing | src/dancinglinks.js:31-34 | removing a node from a horizontal ring leaves the ring without it |
| Links.InsertBelowRing | src/dancinglinks.js:12-18 | inserting below the column's last node appends the node at the bottom of the column ring |
| Covering.UnlinkRoundTrip | src/dancinglinks.js:54-56 | relinking a row's peers right to left undoes unlinking them left to right |
| CoverState.RowUnlink | src/dancinglinks.js:52-57 | one turn of cover's row loop lowers the root count by one, removes the row from every other column it is in, and one turn of uncover's loop undoes it |
| CoverState.RowLoops | src/dancinglinks.js:49-69 | cover's row loop visits the column's rows top to bottom and uncover's loop bottom to top, giving back the state before the loop |
| CoverEffect.HdrPosition | src/dancinglinks.js:51 | covering an item removes exactly its header from the header ring, which keeps item order |
| CoverEffect.ColsAfterCover | src/dancinglinks.js:49-58 | after covering, the covered column and the columns of earlier covered items keep their rows, the others lose the rows of the covered column |
| CoverEffect.LiveSetCover | src/dancinglinks.js:53 | covering an item takes exactly its live rows out of the live options |
| Assembly.HeadersLinks | src/dancinglinks.js:90-99 | after the header loop and its closing links, the root and the headers form a ring in item order and every column is empty with a zero count |
| Construction.CreateRow | src/dancinglinks.js:105-112 | making the next node of an option links it right of the option's previous node, at the bottom of its item's column with the option tagged, changes nothing else, and keeps the build invariant one node further |
| Construction.CloseRowStep | src/dancinglinks.js:114-120 | closing an option's row (the scratch row header linked in and removed again) and counting it keeps the build invariant, one option further |
| Construction.AddOption | src/dancinglinks.js:102-121 | one iteration of the options loop takes the build invariant from option j to option j + 1 |
| Construction.MadeRows | src/dancinglinks.js:102-121 | before option j, each column holds exactly the nodes of the earlier options containing its item, in option order |
| Construction.RowRing | src/dancinglinks.js:114-119 | each closed row is a horizontal ring: walking right from any of its nodes meets its other nodes in cyclic order, and walking left meets them in reverse |
| Construction.BuildingRep | src/dancinglinks.js:85-121 | once every option is added, the arena encodes the state in which nothing is covered: the header ring holds every column in item order, each column its options in order, every row is a ring, and the root counts every option |
| Construction.Build | src/dancinglinks.js:85-121 | the structure solve() builds encodes the empty cover of the options' items, the state the search starts from |
| CoverEffect.CoverKeepsRep | src/dancinglinks.js:49-69 | cover turns an arena encoding `cov` into one encoding `cov + [c]` (header ring, columns and root count), and uncover right after restores the arena |

## Left out

- Everything that touches the browser: the DOM, the form, rendering intervals, `fetch`, `FileReader`, worker threads and timing. The word texts are parameters; the dispatch loop is a state machine whose messages are inputs.
- Words.LowerChar: only the ASCII capitals and the Kelvin sign (U+212A, which `toLowerCase` turns into 'k') are mapped; `toLowerCase` on other characters is not modelled. The lower case of every other character is either itself or holds a character outside 'a' to 'z', so the five-letter filter drops a line holding one either way.
- The periodic `yield` without a solution in search (src/dancinglinks.js:165-169) and the clock it reads: it yields control, not a solution, so the model drops it.
- The row-header node of each option (src/dancinglinks.js:107-119) is not in the arena: it is spliced out of its row before any search, and the arena holds the row ring it leaves behind. `Construction.CloseRow` makes the links that its insertion and removal leave.
- The maps `columnsByItem` and `rowsByOption` of the construction (src/dancinglinks.js:87, 101, 118) are lookups: the model finds a column by the item's position in the items and a row by its option's position.
- Construction.Build: requires that no option repeats an item. Options built from words never do (`Partition.OptionsFromWordsShape`); the source on such an option would put two nodes of one row in the same column.
- The arena version of selectColumn, columnContains and the search loop over arena states are not modelled as arena functions; the search is modelled on the abstract state, whose relation to the arena is `Layout.Rep`. `Construction.Build` shows the start state satisfies it, and `CoverEffect.CoverKeepsRep` carries it through cover and uncover.
- AlgorithmX.PlaceGivens: uses the corrected given test (every item of the option still uncovered) rather than `columnContains(row.column, row)` at src/dancinglinks.js:134; the test as written is `AlgorithmX.GuardAsWritten`, and `AlgorithmX.GuardAsWrittenAdmitsOverlap` shows an input on which the two differ and on which the source yields a non-cover.
- Covering.Cover: the source's loops run until they return to the column; the model bounds them by the arena size, and `CoverState.RowLoops` shows the bound is never reached on an encoded state.
- Integer widths: counts and indices are unbounded integers; the source's numbers never get near 2^53.

## Findings

| source | as written | input that shows it | evidently intended | confidence | as-written member | corrected member |
|---|---|---|---|---|---|---|
| src/dancinglinks.js:133 | a given option is accepted when its first node is still in the ring of its first item's column | options A = [x, c], B = [c, y], givens [A, B]: after A covers x then c, B is still in c's ring, so B is accepted although it shares c with A | accept a given only when none of its items is covered yet, so that impossible givens yield nothing | not executed | AlgorithmX.GuardAsWrittenAdmitsOverlap | AlgorithmX.PlaceGivensInv |
