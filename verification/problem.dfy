/**
  The exact-cover problem as the solver in src/dancinglinks.js receives it: an
  option map from option names to the ordered list of items each option covers.
  The item universe is whatever the options mention, in order of first appearance.
*/
module Problem {
  import opened Seqs

  /** One entry of the option map: a name and the items the option covers. */
  datatype Opt<Item> = Opt(name: string, items: seq<Item>)

  /** `Object.values(options).flat()`: every item of every option, option by option. */
  function AllItems<Item(!new)>(opts: seq<Opt<Item>>): (r: seq<Item>)
    ensures forall x :: x in r <==> exists j :: 0 <= j < |opts| && x in opts[j].items
  {
    if opts == [] then []
    else
      var init := opts[..|opts| - 1];
      var r := AllItems(init) + opts[|opts| - 1].items;
      assert forall j :: 0 <= j < |init| ==> opts[j] == init[j];
      r
  }

  /** `[...new Set(Object.values(options).flat())]`: the item universe in order of first appearance. */
  function Universe<Item(==,!new)>(opts: seq<Opt<Item>>): (r: seq<Item>)
    ensures NoDup(r)
    ensures forall x :: x in r <==> exists j :: 0 <= j < |opts| && x in opts[j].items
  {
    Dedup(AllItems(opts))
  }

  /** Names are distinct (they are the keys of a JavaScript object) and no option lists an item twice. */
  predicate WellFormed<Item(==,!new)>(opts: seq<Opt<Item>>)
  {
    && (forall j, k :: 0 <= j < k < |opts| ==> opts[j].name != opts[k].name)
    && (forall j :: 0 <= j < |opts| ==> NoDup(opts[j].items))
  }

  /** Two options share no item. */
  predicate Disjoint<Item(==,!new)>(o1: Opt<Item>, o2: Opt<Item>)
  {
    forall x :: x in o1.items ==> x !in o2.items
  }

  /** The items covered by the options chosen by index. */
  function CoveredBy<Item(==,!new)>(opts: seq<Opt<Item>>, sel: seq<nat>): (r: set<Item>)
    requires forall i :: 0 <= i < |sel| ==> sel[i] < |opts|
    ensures forall x :: x in r <==> exists i :: 0 <= i < |sel| && x in opts[sel[i]].items
  {
    if sel == [] then {}
    else
      var init := sel[..|sel| - 1];
      assert forall i :: 0 <= i < |init| ==> init[i] == sel[i];
      CoveredBy(opts, init) + ToSet(opts[sel[|sel| - 1]].items)
  }

  /**
    A selection of option indices is an exact cover: each index is valid and
    names a non-empty option, the chosen options pairwise share no item, and
    together they cover the whole universe.
  */
  predicate IsExactCover<Item(==,!new)>(opts: seq<Opt<Item>>, sel: seq<nat>)
  {
    && (forall i :: 0 <= i < |sel| ==> sel[i] < |opts| && opts[sel[i]].items != [])
    && (forall i, j :: 0 <= i < j < |sel| ==> Disjoint(opts[sel[i]], opts[sel[j]]))
    && CoveredBy(opts, sel) == ToSet(Universe(opts))
  }

  /** The names of the chosen options, in order. */
  function Names<Item>(opts: seq<Opt<Item>>, sel: seq<nat>): (r: seq<string>)
    requires forall i :: 0 <= i < |sel| ==> sel[i] < |opts|
    ensures |r| == |sel|
    ensures forall i :: 0 <= i < |sel| ==> r[i] == opts[sel[i]].name
  {
    seq(|sel|, i requires 0 <= i < |sel| => opts[sel[i]].name)
  }

  /** The position of the option called `name`, if any (`rowsByOption.get`). */
  function IndexOfName<Item>(opts: seq<Opt<Item>>, name: string): (r: Option<nat>)
    ensures r.Some? ==> r.value < |opts| && opts[r.value].name == name
    ensures r.None? ==> forall j :: 0 <= j < |opts| ==> opts[j].name != name
    decreases |opts|
  {
    if opts == [] then None
    else if opts[|opts| - 1].name == name then Some(|opts| - 1)
    else IndexOfName(opts[..|opts| - 1], name)
  }
}
