/**
  The dispatch loop of the front end (the promise at the end of `solve` in
  src/index.js) as a sequential state machine: workers are started with one
  work item each, and every `completed` message either hands the worker the
  next item or retires it; the run resolves when the last item is completed.
  Worker threads, timers and rendering are not modelled: a run is any order
  in which the messages of the attached workers arrive.
*/
module Dispatch {
  import opened Words
  import opened Aggregate

  /** A message from worker `w`. */
  datatype Event =
    | Completed(w: nat)
    | Solution(w: nat, names: seq<string>)

  /**
    `currentWorkItem`, `completedWorkItems` and `workItems.length`, together with
    what the counters summarise: the item each attached worker is solving, the
    items already completed, whether the promise has resolved, and the results.
  */
  datatype State = State(
    current: nat,
    completed: nat,
    total: nat,
    working: map<nat, nat>,
    done: set<nat>,
    resolved: bool,
    agg: Aggregate)

  /**
    Every item below `current` was handed out exactly once: it is either
    completed or being solved by exactly one attached worker; the counters
    agree with these sets; and the run has resolved exactly when some item
    existed and all are completed.
  */
  predicate Inv(s: State)
  {
    && Counters(s)
    && Assigned(s)
    && Injective(s.working)
    && (forall i :: i in s.done ==> 0 <= i < s.current)
    && HandedOut(s)
    && Consistent(s.agg)
  }

  /** The counters agree with the sets, and the run resolves exactly when all items are completed. */
  predicate Counters(s: State)
  {
    && s.current <= s.total
    && s.completed == |s.done|
    && s.completed + |s.working| == s.current
    && (s.resolved <==> 0 < s.total == s.completed)
  }

  /** Every attached worker solves an item already handed out and not yet completed. */
  predicate Assigned(s: State)
  {
    forall w :: w in s.working ==> s.working[w] < s.current && s.working[w] !in s.done
  }

  /** No two workers solve the same item. */
  predicate Injective(m: map<nat, nat>)
  {
    forall w1, w2 :: w1 in m && w2 in m && w1 != w2 ==> m[w1] != m[w2]
  }

  /** Every item handed out is completed or being solved. */
  predicate HandedOut(s: State)
  {
    forall i :: 0 <= i < s.current ==> i in s.done || i in s.working.Values
  }

  /** Some worker is still attached whenever the run has not resolved. */
  predicate Live(s: State)
  {
    !s.resolved ==> s.working != map[]
  }

  /** The worker loop: worker `n` is attached and given the next item while `n` is below the concurrency and items remain. */
  function StartFrom(n: nat, workers: nat, concurrency: int, s: State): (r: State)
    requires s.current <= s.total
    decreases workers - n
  {
    if n >= workers || n >= concurrency then s
    else if s.current < s.total then
      StartFrom(n + 1, workers, concurrency,
        s.(working := s.working[n := s.current], current := s.current + 1))
    else StartFrom(n + 1, workers, concurrency, s)
  }

  /**
    The start of a run over `total` items with `workers` worker threads and the
    chosen concurrency: workers 0, 1, ... each receive the item of their own
    number, as many as the smaller of the three bounds allows.
  */
  function Start(workers: nat, concurrency: int, total: nat): (r: State)
    ensures Inv(r)
    ensures r.total == total && r.completed == 0 && r.done == {} && !r.resolved
    ensures r.current == Min3(workers, concurrency, total)
    ensures forall w :: w in r.working <==> 0 <= w < r.current
    ensures forall w :: w in r.working ==> r.working[w] == w
    ensures total > 0 && workers > 0 && concurrency > 0 ==> Live(r)
  {
    var s0 := State(0, 0, total, map[], {}, false, Initial());
    StartLoop(0, workers, concurrency, s0);
    StartFrom(0, workers, concurrency, s0)
  }

  function Min3(a: nat, b: int, c: nat): nat
  {
    var m := if b < a as int then (if b < 0 then 0 else b) else a;
    if m < c then m else c
  }

  /** What the worker loop does from worker `n` on, when workers below `n` got items 0 to n - 1. */
  lemma {:induction false} StartLoop(n: nat, workers: nat, concurrency: int, s: State)
    requires s.current <= s.total && s.completed == 0 && s.done == {} && !s.resolved
    requires s.current == Min3(n, concurrency, s.total) && n <= workers
    requires forall w :: w in s.working <==> 0 <= w < s.current
    requires forall w :: w in s.working ==> s.working[w] == w
    requires Consistent(s.agg)
    ensures var r := StartFrom(n, workers, concurrency, s);
      && r.completed == 0 && r.done == {} && !r.resolved && r.total == s.total && r.agg == s.agg
      && r.current == Min3(workers, concurrency, s.total)
      && (forall w :: w in r.working <==> 0 <= w < r.current)
      && (forall w :: w in r.working ==> r.working[w] == w)
      && Inv(r)
    decreases workers - n
  {
    if n >= workers || n >= concurrency {
      WorkingCard(s.working, s.current);
      forall i | 0 <= i < s.current ensures i in s.working.Values {
        assert s.working[i] == i;
      }
    } else if s.current < s.total {
      var s' := s.(working := s.working[n := s.current], current := s.current + 1);
      StartLoop(n + 1, workers, concurrency, s');
    } else {
      StartLoop(n + 1, workers, concurrency, s);
    }
  }

  /** A map whose keys are exactly 0 to k - 1 has k entries. */
  lemma {:induction false} WorkingCard(m: map<nat, nat>, k: nat)
    requires forall w :: w in m <==> 0 <= w < k
    ensures |m| == k
    decreases k
  {
    if k > 0 {
      var m' := map w | w in m && w != k - 1 :: m[w];
      WorkingCard(m', k - 1);
      assert m.Keys == m'.Keys + {k - 1};
    }
  }

  /**
    The message handler. A `solution` is recorded; a `completed` counts the item
    and either posts the next item to the same worker or detaches it, resolving
    the run when every item is completed. Messages of detached workers are not
    heard.
  */
  function Step(m: seq<Entry>, s: State, e: Event): (r: State)
  {
    if e.w !in s.working then s
    else match e
      case Solution(w, names) => s.(agg := RecordSolution(m, s.agg, names))
      case Completed(w) => Complete(s, w)
  }

  /** The `completed` branch: count the worker's item, then post it the next item or detach it. */
  function Complete(s: State, w: nat): (r: State)
    requires w in s.working
  {
    var s1 := s.(completed := s.completed + 1, done := s.done + {s.working[w]});
    if s.current < s.total then
      s1.(working := s.working[w := s.current], current := s.current + 1)
    else
      s1.(working := s.working - {w}, resolved := s.resolved || s1.completed == s.total)
  }

  /** Every message keeps the invariant, and the counters only grow: `currentWorkItem` stays within the items. */
  lemma StepInv(m: seq<Entry>, s: State, e: Event)
    requires Inv(s)
    ensures var r := Step(m, s, e);
      && Inv(r)
      && r.total == s.total
      && s.current <= r.current <= r.total
      && s.completed <= r.completed
      && s.done <= r.done
      && (s.resolved ==> r.resolved)
  {
    if e.w in s.working && e.Completed? {
      if s.current < s.total {
        PostNextInv(s, e.w);
      } else {
        RetireInv(s, e.w);
      }
    }
  }

  lemma RemoveValues(m: map<nat, nat>, w: nat, i: nat)
    requires w in m && i in m.Values && i != m[w]
    ensures i in (m - {w}).Values
  {
    var w' :| w' in m && m[w'] == i;
    assert (m - {w})[w'] == i;
  }

  lemma UpdateValues(m: map<nat, nat>, w: nat, v: nat, i: nat)
    requires w in m && i in m.Values && i != m[w]
    ensures i in m[w := v].Values
  {
    var w' :| w' in m && m[w'] == i;
    assert m[w := v][w'] == i;
  }

  lemma RemoveCard(m: map<nat, nat>, w: nat)
    requires w in m
    ensures |m - {w}| == |m| - 1
  {
    assert (m - {w}).Keys == m.Keys - {w};
  }

  lemma UpdateCard(m: map<nat, nat>, w: nat, v: nat)
    requires w in m
    ensures |m[w := v]| == |m|
  {
    assert m[w := v].Keys == m.Keys;
  }

  /** A completed message while items remain: the worker gets item `current`. */
  lemma PostNextInv(s: State, w: nat)
    requires Inv(s) && w in s.working && s.current < s.total
    ensures Inv(Complete(s, w))
  {
    var item := s.working[w];
    var r := Complete(s, w);
    assert r.working == s.working[w := s.current] && r.done == s.done + {item};
    assert item !in s.done;
    UpdateCard(s.working, w, s.current);
    forall i | 0 <= i < r.current ensures i in r.done || i in r.working.Values {
      if i == s.current {
        assert r.working[w] == i;
      } else if i != item && i !in s.done {
        UpdateValues(s.working, w, s.current, i);
      }
    }
  }

  /** A completed message when no item remains: the worker is detached. */
  lemma RetireInv(s: State, w: nat)
    requires Inv(s) && w in s.working && s.current >= s.total
    ensures Inv(Complete(s, w))
  {
    var item := s.working[w];
    var r := Complete(s, w);
    assert r.working == s.working - {w} && r.done == s.done + {item};
    assert item !in s.done;
    RemoveCard(s.working, w);
    forall i | 0 <= i < r.current ensures i in r.done || i in r.working.Values {
      if i != item && i !in s.done {
        RemoveValues(s.working, w, i);
      }
    }
  }

  /** A run that has not resolved always has a worker whose message can arrive: dispatch cannot stall. */
  lemma StepLive(m: seq<Entry>, s: State, e: Event)
    requires Inv(s) && Live(s)
    ensures Live(Step(m, s, e))
  {
    var r := Step(m, s, e);
    StepInv(m, s, e);
    if e.w in s.working && e.Completed? && s.current >= s.total && !r.resolved {
      assert r.completed < r.total;
      assert |r.working| > 0;
    }
  }

  /** A completed message from an attached worker completes exactly one more item. */
  lemma CompletedCounts(m: seq<Entry>, s: State, w: nat)
    requires Inv(s) && w in s.working
    ensures Step(m, s, Completed(w)).completed == s.completed + 1
    ensures Step(m, s, Completed(w)).done == s.done + {s.working[w]}
    ensures !s.resolved
  {
  }

  /** Once resolved, every item was completed exactly once, no worker is attached, and nothing changes any more. */
  lemma ResolvedFinal(m: seq<Entry>, s: State, e: Event)
    requires Inv(s) && s.resolved
    ensures s.current == s.completed == s.total
    ensures forall i :: i in s.done <==> 0 <= i < s.total
    ensures s.working == map[]
    ensures Step(m, s, e) == s
  {
  }

  /** Completed messages from some attached worker, one after another, until the run resolves. */
  ghost function Drain(m: seq<Entry>, s: State): (r: State)
    requires Inv(s) && Live(s)
    ensures Inv(r) && r.resolved && r.total == s.total
    decreases s.total - s.completed
  {
    if s.resolved then s
    else
      var w :| w in s.working;
      var s' := Step(m, s, Completed(w));
      StepInv(m, s, Completed(w));
      StepLive(m, s, Completed(w));
      CompletedCounts(m, s, w);
      assert s'.total - s'.completed < s.total - s.completed;
      Drain(m, s')
  }

  /**
    Every run that starts at least one worker resolves, once every item has
    been completed exactly once.
  */
  lemma RunResolves(m: seq<Entry>, workers: nat, concurrency: int, total: nat)
    requires total > 0 && workers > 0 && concurrency > 0
    ensures var r := Drain(m, Start(workers, concurrency, total));
      r.resolved && r.completed == total && forall i :: i in r.done <==> 0 <= i < total
  {
    var s := Start(workers, concurrency, total);
    assert Inv(s) && Live(s) && s.total == total;
    var r := Drain(m, s);
    assert Inv(r) && r.resolved && r.total == total;
    ResolvedFinal(m, r, Completed(0));
  }
}
