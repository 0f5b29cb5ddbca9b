/**
  Where uniqueness and order of the ids end: fallback adds that pass 2^63 wrap the
  shared word around, and in time an id is returned a second time. For every start
  value and every largest clock reading this says exactly how many adds it takes.
*/
module CuidLimits {
  import opened Words
  import opened Cuid
  import opened CuidRuns
  import opened CuidWrap

  // -- All runs under a clock ----------------------------------------------------------------

  /** The runs under a clock that never passes hi, with at most n fallback adds. */
  ghost predicate Bounded(node: nat, start: int64, hi: int64, n: nat, acts: seq<Action>)
    requires node < 0x1000
  {
    Legal(Init(node, start), acts) && ClocksTo(acts, hi) && Adds(acts) <= n
  }

  ghost predicate AlwaysDistinct(node: nat, start: int64, hi: int64, n: nat)
    requires node < 0x1000
  {
    forall acts: seq<Action> :: Bounded(node, start, hi, n, acts) ==> Distinct(Execute(Init(node, start), acts).history)
  }

  ghost predicate AlwaysOrdered(node: nat, start: int64, hi: int64, n: nat)
    requires node < 0x1000
  {
    forall acts: seq<Action> :: Bounded(node, start, hi, n, acts) ==> Ordered(Execute(Init(node, start), acts).history)
  }

  lemma {:induction false} LargestTo(node: nat, start: int64, hi: int64, acts: seq<Action>)
    requires node < 0x1000 && ClocksTo(acts, hi)
    ensures Largest(node, start, acts) <= Max(start, Candidate(hi, node))
    decreases |acts|
  {
    hide Candidate;
    if acts != [] {
      LargestTo(node, start, hi, acts[..|acts| - 1]);
      var a := acts[|acts| - 1];
      if a.ReadClock? {
        CandidateMonotone(a.clock, hi, node);
      }
    }
  }

  lemma WithinBudget(node: nat, start: int64, hi: int64, n: nat, acts: seq<Action>)
    requires node < 0x1000 && Bounded(node, start, hi, n, acts)
    requires Max(start, Candidate(hi, node)) + TIME_STEP * n < LIMIT
    ensures InBudget(Execute(Init(node, start), acts))
  {
    hide Legal, Execute, Candidate, Largest;
    LargestTo(node, start, hi, acts);
    BudgetOfSchedule(node, start, acts);
  }

  /** How many adds keep the ids of all runs distinct. If the clock's largest id is ahead
      of the start value it can be taken at once, and again when adds from it have passed
      the limit. If it is not, adds have to wrap around first. Then the way leads back to
      the first id if the low bits agree, else once more from the clock's id to the limit,
      or by adds alone back to the first id. */
  predicate FewForDistinct(node: nat, start: int64, hi: int64, n: nat)
    requires node < 0x1000
  {
    var c := Candidate(hi, node);
    if c > start then n < AddsToLimit(c)
    else if Carries(start, node) then n <= AddsToLimit(c)
    else n < AddsToLimit(start) + AddsToLimit(c) && n <= CYCLE
  }

  /** How many keep them ordered: none may wrap around, except the very first. */
  predicate FewForOrder(node: nat, start: int64, hi: int64, n: nat)
    requires node < 0x1000
  {
    var c := Candidate(hi, node);
    if c > start then n < AddsToLimit(c)
    else if AddsToLimit(start) > 1 then n < AddsToLimit(start)
    else n <= AddsToLimit(c)
  }

  lemma AllDistinct(node: nat, start: int64, acts: seq<Action>)
    requires node < 0x1000 && Legal(Init(node, start), acts) && InBudget(Execute(Init(node, start), acts))
    ensures Distinct(Execute(Init(node, start), acts).history)
  {
    hide Legal, Execute;
    var h := Execute(Init(node, start), acts).history;
    forall i, j | 0 <= i < j < |h| && h[i].Returned? && h[j].Returned?
      ensures h[i].id != h[j].id
    {
      Unique(node, start, acts, i, j);
    }
  }

  lemma AllOrdered(node: nat, start: int64, acts: seq<Action>)
    requires node < 0x1000 && Legal(Init(node, start), acts) && InBudget(Execute(Init(node, start), acts))
    ensures Ordered(Execute(Init(node, start), acts).history)
  {
    hide Legal, Execute;
    var h := Execute(Init(node, start), acts).history;
    forall i, j, k | 0 <= i < j < k < |h| && h[i].Returned? && h[j].Begun? && h[k].Returned? && h[k].who == h[j].who
      ensures h[i].id < h[k].id
    {
      RealTimeOrder(node, start, acts, i, j, k);
    }
  }

  // -- Few adds are enough ----------------------------------------------------------------

  lemma FewBelow(c: int64, n: nat)
    ensures n < AddsToLimit(c) <==> c + TIME_STEP * n < LIMIT
  {}

  lemma CycleFromBelow(c: int64)
    ensures AddsToLimit(c) <= CYCLE && (c < -LIMIT + TIME_STEP ==> AddsToLimit(c) == CYCLE)
  {}

  /** From values with the same low bits the adds come to the same place. */
  lemma SamePlace(c: int64, start: int64, node: nat)
    requires Carries(c, node) && Carries(start, node)
    ensures c + TIME_STEP * AddsToLimit(c) == start + TIME_STEP * AddsToLimit(start)
    ensures Behind(start) <= c && (start - c) % TIME_STEP == 0
  {
    CycleFromBelow(c);
    var k := start / TIME_STEP - c / TIME_STEP;
    assert start - c == TIME_STEP * k;
    DivModUnique(k, TIME_STEP, 0);
    hide AddsToLimit;
    var x, y := AddsToLimit(c), AddsToLimit(start) + k;
    assert start + TIME_STEP * AddsToLimit(start) == c + TIME_STEP * y;
    SameStep(c, x, y);
  }

  lemma SameStep(c: int, x: int, y: int)
    requires LIMIT <= c + TIME_STEP * x < LIMIT + TIME_STEP && LIMIT <= c + TIME_STEP * y < LIMIT + TIME_STEP
    ensures x == y
  {}

  lemma FewInOneRound(node: nat, start: int64, hi: int64, n: nat)
    requires node < 0x1000 && Candidate(hi, node) <= start
    requires FewForDistinct(node, start, hi, n) || (AddsToLimit(start) == 1 && n <= AddsToLimit(Candidate(hi, node)))
    ensures OneWrapAtMost(start, Candidate(hi, node), n)
  {
    var c := Candidate(hi, node);
    hide AddsToLimit, Candidate;
    CycleFromBelow(c);
    if Carries(start, node) {
      SamePlace(c, start, node);
    }
  }

  lemma {:induction false} FewDistinct(node: nat, start: int64, hi: int64, n: nat, acts: seq<Action>)
    requires node < 0x1000 && Bounded(node, start, hi, n, acts) && FewForDistinct(node, start, hi, n)
    ensures Distinct(Execute(Init(node, start), acts).history)
  {
    hide Legal, Execute, Candidate, ClocksTo, Adds, AddsToLimit, OneRound, OneWrapAtMost, Distinct, StoresDiffer,
         ResultsFromStores;
    var c := Candidate(hi, node);
    if c > start {
      FewBelow(c, n);
      WithinBudget(node, start, hi, n, acts);
      AllDistinct(node, start, acts);
    } else {
      FewInOneRound(node, start, hi, n);
      var p := RoundKept(node, start, hi, n, acts);
      var s := Execute(Init(node, start), acts);
      if Carries(start, node) {
        SamePlace(c, start, node);
      }
      BehindStart(start);
      RoundsApart(s, start, c, p);
      Invariant(node, start, acts);
      DistinctFromStores(s);
    }
  }

  lemma BehindStart(start: int64)
    ensures Behind(start) <= start
  {
    CycleFromBelow(start);
  }

  lemma {:induction false} FewOrdered(node: nat, start: int64, hi: int64, n: nat, acts: seq<Action>)
    requires node < 0x1000 && Bounded(node, start, hi, n, acts) && FewForOrder(node, start, hi, n)
    ensures Ordered(Execute(Init(node, start), acts).history)
  {
    hide Legal, Execute, Candidate, ClocksTo, Adds, AddsToLimit, OneRound, OneWrapAtMost, Ordered, ResultsFromStores;
    var c := Candidate(hi, node);
    if c > start || AddsToLimit(start) > 1 {
      FewBelow(Max(c, start), n);
      WithinBudget(node, start, hi, n, acts);
      AllOrdered(node, start, acts);
    } else {
      AddsAtLeastOne(start);
      FewInOneRound(node, start, hi, n);
      var p := RoundKept(node, start, hi, n, acts);
      var s := Execute(Init(node, start), acts);
      OneBlock(s, start, c, p);
      Invariant(node, start, acts);
      OrderedFromStores(s, -LIMIT, LIMIT);
    }
  }

  lemma AddsAtLeastOne(c: int64)
    ensures AddsToLimit(c) >= 1
  {}

  /** When the very first add wraps around there are no stores before the wrap. */
  lemma OneBlock(s: System, start: int64, c: int, p: nat)
    requires OneRound(s, start, c, p) && AddsToLimit(start) == 1
    ensures Rising(s.history, 0, |s.history|, -LIMIT, LIMIT)
  {
    hide ThreadsTo, Stepped, Sorted;
  }

  // -- and more are too many ---------------------------------------------------------------

  /** The first id from a start value, under a clock that is behind. */
  function FirstId(start: int64): int64 { SignedWrap(start + TIME_STEP, WORD) }

  lemma ShownTwice(h: seq<Event>, s: System, t: System, id: int64)
    requires s.history + CallEvents(s, id) <= h && t.history + CallEvents(t, id) <= h
    requires |s.history| < |t.history|
    ensures HasEqualIds(h, id)
  {
    Shown(h, s, id);
    Shown(h, t, id);
  }

  /** Adds lead from x to the start value, and one more to the first id. */
  lemma {:induction false} BackToStart(s: System, clock: int64, start: int64) returns (acts: seq<Action>, g: System)
    requires Ready(s) && Candidate(clock, s.node) <= s.prev <= start && (start - s.prev) % TIME_STEP == 0
    ensures Legal(s, acts) && ClocksTo(acts, clock) && Adds(acts) == (start - s.prev) / TIME_STEP + 1
    ensures s.history <= g.history && Execute(s, acts).history == g.history + CallEvents(g, FirstId(start))
  {
    hide Legal, Execute, Candidate, SignedWrap, CallEvents;
    var a1 := Climb(s, clock, (start - s.prev) / TIME_STEP);
    g := Execute(s, a1);
    var a2 := FullCall(g, clock);
    Joined(s, a1, a2);
    acts := a1 + a2;
  }

  /** With the low bits of the node: around, the clock's id if it is new, and back. */
  lemma {:induction false} ComeBack(node: nat, start: int64, hi: int64) returns (acts: seq<Action>)
    requires node < 0x1000 && Candidate(hi, node) <= start && Carries(start, node)
    ensures Legal(Init(node, start), acts) && ClocksTo(acts, hi)
    ensures Adds(acts) == AddsToLimit(Candidate(hi, node)) + 1
    ensures HasEqualIds(Execute(Init(node, start), acts).history, FirstId(start))
  {
    hide Legal, Execute, Candidate, SignedWrap, AddsToLimit, CallEvents, HasEqualIds, Behind;
    var s0 := Init(node, start);
    var c := Candidate(hi, node);
    SamePlace(c, start, node);
    var low: System;
    acts, low := Around(s0, hi);
    var s := Execute(s0, acts);
    if c > s.prev {
      var take := FullCall(s, hi);
      Joined(s0, acts, take);
      acts := acts + take;
      s := Execute(s0, acts);
    }
    var back, g := BackToStart(s, hi, start);
    Joined(s0, acts, back);
    TwoFirst(s0, s, g, Execute(s, back).history, start);
    StepsBetween(c, start);
    acts := acts + back;
  }

  lemma TwoFirst(s0: System, s: System, g: System, h: seq<Event>, start: int64)
    requires s0.history + CallEvents(s0, FirstId(start)) <= s.history <= g.history
    requires h == g.history + CallEvents(g, FirstId(start))
    ensures HasEqualIds(h, FirstId(start))
  {
    hide CallEvents, HasEqualIds, FirstId;
    ShownTwice(h, s0, g, FirstId(start));
  }

  lemma StepsBetween(c: int64, start: int64)
    requires c + TIME_STEP * AddsToLimit(c) == start + TIME_STEP * AddsToLimit(start)
    ensures AddsToLimit(start) + (start - c) / TIME_STEP == AddsToLimit(c)
  {
    hide AddsToLimit;
    DivModUnique(AddsToLimit(c) - AddsToLimit(start), TIME_STEP, 0);
  }

  /** With other low bits: around, the clock's id, around, and the clock's id again. */
  lemma {:induction false} TwiceAround(node: nat, start: int64, hi: int64) returns (acts: seq<Action>)
    requires node < 0x1000 && Behind(start) < Candidate(hi, node) <= start
    ensures Legal(Init(node, start), acts) && ClocksTo(acts, hi)
    ensures Adds(acts) == AddsToLimit(start) + AddsToLimit(Candidate(hi, node))
    ensures var h := Execute(Init(node, start), acts).history; HasEqualIds(h, Candidate(hi, node)) && !Ordered(h)
  {
    hide Legal, Execute, Candidate, SignedWrap, AddsToLimit, CallEvents, HasEqualIds, Behind, Ordered;
    var s0 := Init(node, start);
    var low: System;
    acts, low := Around(s0, hi);
    var more := PastTheLimit(Execute(s0, acts), hi);
    Joined(s0, acts, more);
    acts := acts + more;
  }

  /** Thread 1 goes as far as the fallback, and stays there. */
  lemma Park(s: System, clock: int64) returns (acts: seq<Action>)
    requires Ready(s) && At(s, 1).Idle? && Candidate(clock, s.node) <= s.prev
    ensures Legal(s, acts) && ClocksTo(acts, clock) && Adds(acts) == 0
    ensures var r := Execute(s, acts); Ready(r) && r.node == s.node && r.prev == s.prev && At(r, 1) == Fallback
  {
    hide Legal, Execute, Candidate;
    acts := [Call(1), ReadClock(1, clock), Load(1), Swap(1)];
    Undisturbed(s, 1, clock);
    OthersStay(s, acts, 0);
    NoAdds(acts);
  }

  /** Its add takes the word one step on without a look at the clock. */
  lemma Unpark(s: System) returns (acts: seq<Action>)
    requires Ready(s) && At(s, 1) == Fallback && s.prev + TIME_STEP < LIMIT
    ensures Legal(s, acts) && ClocksTo(acts, -LIMIT) && Adds(acts) == 1
    ensures var r := Execute(s, acts);
      Ready(r) && r.node == s.node && r.prev == s.prev + TIME_STEP && s.history <= r.history
  {
    hide Legal, Execute, SignedWrap, Apply;
    acts := [Add(1)];
    NothingDone(s);
    NoAdds([]);
    Step(s, [], Add(1));
    assert [] + [Add(1)] == acts;
    WrapNotAbove(s.prev + TIME_STEP);
    AddApplied(s);
    OthersStay(s, acts, 0);
    HistoryKept(s, acts);
  }

  lemma AddApplied(s: System)
    requires Ready(s) && At(s, 1) == Fallback
    ensures var r := Apply(s, Add(1)); r.prev == SignedWrap(s.prev + TIME_STEP, WORD) && r.node == s.node
  {}

  /** By adds alone, under the earliest clock there is: once around and back. Should that
      clock be ahead right behind the wrap, another thread is in the fallback by then. */
  lemma {:induction false} Cycle(node: nat, start: int64) returns (acts: seq<Action>)
    requires node < 0x1000 && Candidate(-LIMIT, node) <= start
    requires Carries(start, node) ==> Candidate(-LIMIT, node) <= Behind(start)
    ensures Legal(Init(node, start), acts) && ClocksTo(acts, -LIMIT) && Adds(acts) == CYCLE + 1
    ensures HasEqualIds(Execute(Init(node, start), acts).history, FirstId(start))
  {
    hide Legal, Execute, Candidate, SignedWrap, AddsToLimit, CallEvents, HasEqualIds, Behind;
    var s0 := Init(node, start);
    var parked := Park(s0, -LIMIT);
    var s1 := Execute(s0, parked);
    var around, low := Around(s1, -LIMIT);
    Joined(s0, parked, around);
    acts := parked + around;
    var s := Execute(s0, acts);
    OthersStay(s1, around, 1);
    FromBehind(start);
    if Candidate(-LIMIT, node) > s.prev {
      EarliestBehind(node, start);
      var on := Unpark(s);
      Joined(s0, acts, on);
      acts := acts + on;
      s := Execute(s0, acts);
    }
    var back, g := BackToStart(s, -LIMIT, start);
    Joined(s0, acts, back);
    TwoFirst(s1, s, g, Execute(s, back).history, start);
    acts := acts + back;
  }

  /** The way from behind the limit to the start value. */
  lemma FromBehind(start: int64)
    ensures Behind(start) <= start && (start - Behind(start)) % TIME_STEP == 0
    ensures AddsToLimit(start) + (start - Behind(start)) / TIME_STEP == CYCLE
    ensures Behind(start) < start ==>
      && Behind(start) + TIME_STEP <= start && (start - (Behind(start) + TIME_STEP)) % TIME_STEP == 0
      && (start - (Behind(start) + TIME_STEP)) / TIME_STEP == (start - Behind(start)) / TIME_STEP - 1
  {
    CycleFromBelow(start);
    var k := CYCLE - AddsToLimit(start);
    assert start - Behind(start) == TIME_STEP * k;
    DivModUnique(k, TIME_STEP, 0);
    DivModUnique(k - 1, TIME_STEP, 0);
  }

  lemma EarliestBehind(node: nat, start: int64)
    requires node < 0x1000 && Behind(start) < Candidate(-LIMIT, node) <= start
    ensures Behind(start) < start && Candidate(-LIMIT, node) <= Behind(start) + TIME_STEP < LIMIT
  {}

  lemma EarliestClock(node: nat, hi: int64)
    requires node < 0x1000
    ensures Candidate(-LIMIT, node) == -LIMIT + node <= Candidate(hi, node)
  {
    CandidateMonotone(-LIMIT, hi, node);
    DivModUnique(-0x8_0000_0000_0000, 0x1000, 0);
  }

  lemma {:induction false} ManyEqual(node: nat, start: int64, hi: int64, n: nat) returns (acts: seq<Action>, id: int64)
    requires node < 0x1000 && !FewForDistinct(node, start, hi, n)
    ensures Bounded(node, start, hi, n, acts) && HasEqualIds(Execute(Init(node, start), acts).history, id)
  {
    hide Legal, Execute, Candidate, SignedWrap, AddsToLimit, CallEvents, HasEqualIds, Behind, Adds;
    var c := Candidate(hi, node);
    if c > start {
      acts := PastTheLimit(Init(node, start), hi);
      id := c;
    } else if Carries(start, node) {
      acts := ComeBack(node, start, hi);
      id := FirstId(start);
    } else if c > Behind(start) && n >= AddsToLimit(start) + AddsToLimit(c) {
      acts := TwiceAround(node, start, hi);
      id := c;
    } else {
      BelowIsCycle(start, c);
      EarliestClock(node, hi);
      acts := Cycle(node, start);
      id := FirstId(start);
    }
  }

  lemma BelowIsCycle(start: int64, c: int64)
    ensures c <= Behind(start) ==> AddsToLimit(c) == CYCLE
    ensures AddsToLimit(start) >= 1
  {
    CycleFromBelow(c);
  }

  lemma {:induction false} ManyUnordered(node: nat, start: int64, hi: int64, n: nat) returns (acts: seq<Action>)
    requires node < 0x1000 && !FewForOrder(node, start, hi, n)
    ensures Bounded(node, start, hi, n, acts) && !Ordered(Execute(Init(node, start), acts).history)
  {
    hide Legal, Execute, Candidate, SignedWrap, AddsToLimit, CallEvents, Behind, Adds, Ordered;
    var c := Candidate(hi, node);
    if c > start {
      acts := PastTheLimit(Init(node, start), hi);
    } else if AddsToLimit(start) > 1 {
      acts := FirstAndLast(node, start, hi);
    } else if c > Behind(start) {
      AddsAtLeastOne(start);
      acts := TwiceAround(node, start, hi);
    } else {
      AddsAtLeastOne(start);
      BelowIsCycle(start, c);
      acts := LowTwice(node, start, hi);
    }
  }

  /** The add that wraps around gives less than the first one. */
  lemma {:induction false} FirstAndLast(node: nat, start: int64, hi: int64) returns (acts: seq<Action>)
    requires node < 0x1000 && Candidate(hi, node) <= start && AddsToLimit(start) > 1
    ensures Legal(Init(node, start), acts) && ClocksTo(acts, hi) && Adds(acts) == AddsToLimit(start)
    ensures !Ordered(Execute(Init(node, start), acts).history)
  {
    hide Legal, Execute, Candidate, SignedWrap, AddsToLimit, CallEvents, Behind, Ordered;
    var s0 := Init(node, start);
    var low: System;
    acts, low := Around(s0, hi);
    OneStep(start);
    BehindStart(start);
    LaterLower(Execute(s0, acts).history, s0, low, FirstId(start), Behind(start));
  }

  lemma LaterLower(h: seq<Event>, s: System, t: System, x: int64, y: int64)
    requires s.history + CallEvents(s, x) <= h && t.history + CallEvents(t, y) <= h
    requires |s.history| + 3 <= |t.history| && y <= x
    ensures !Ordered(h)
  {
    hide CallEvents, Ordered;
    Shown(h, s, x);
    Shown(h, t, y);
    NotOrdered(h, |s.history| + 2, |t.history|, |t.history| + 2);
  }

  /** With the clock behind the wrap as well, the second wrap gives the same id as the
      first. */
  lemma {:induction false} LowTwice(node: nat, start: int64, hi: int64) returns (acts: seq<Action>)
    requires node < 0x1000 && Candidate(hi, node) <= Behind(start) && AddsToLimit(start) == 1
    ensures Legal(Init(node, start), acts) && ClocksTo(acts, hi) && Adds(acts) == CYCLE + 1
    ensures !Ordered(Execute(Init(node, start), acts).history)
  {
    hide Legal, Execute, Candidate, SignedWrap, AddsToLimit, CallEvents, Behind, Ordered;
    var s0 := Init(node, start);
    BehindStart(start);
    var first, low := Around(s0, hi);
    var s := Execute(s0, first);
    LowAgain(start);
    var again, last := Around(s, hi);
    Joined(s0, first, again);
    acts := first + again;
    LaterLower(Execute(s0, acts).history, low, last, Behind(start), Behind(start));
  }

  lemma LowAgain(start: int64)
    ensures AddsToLimit(Behind(start)) == CYCLE && Behind(Behind(start)) == Behind(start)
  {
    CycleFromBelow(Behind(start));
  }

  // -- Exactly when ------------------------------------------------------------------------

  /** Of all runs under a clock that never passes hi, with at most n fallback adds, the ids
      are distinct in every one exactly when the adds are few enough. */
  lemma {:induction false} UniqueExactly(node: nat, start: int64, hi: int64, n: nat)
    requires node < 0x1000
    ensures AlwaysDistinct(node, start, hi, n) <==> FewForDistinct(node, start, hi, n)
  {
    hide Legal, Execute, FewForDistinct, ClocksTo, Adds;
    if FewForDistinct(node, start, hi, n) {
      forall acts: seq<Action> | Bounded(node, start, hi, n, acts)
        ensures Distinct(Execute(Init(node, start), acts).history)
      {
        FewDistinct(node, start, hi, n, acts);
      }
    } else {
      var acts, id := ManyEqual(node, start, hi, n);
      assert !Distinct(Execute(Init(node, start), acts).history);
    }
  }

  /** The same for real-time order: a call that returns before another begins has the
      smaller id in every such run. */
  lemma {:induction false} OrderExactly(node: nat, start: int64, hi: int64, n: nat)
    requires node < 0x1000
    ensures AlwaysOrdered(node, start, hi, n) <==> FewForOrder(node, start, hi, n)
  {
    hide Legal, Execute, FewForOrder, ClocksTo, Adds, Ordered;
    if FewForOrder(node, start, hi, n) {
      forall acts: seq<Action> | Bounded(node, start, hi, n, acts)
        ensures Ordered(Execute(Init(node, start), acts).history)
      {
        FewOrdered(node, start, hi, n, acts);
      }
    } else {
      var acts := ManyUnordered(node, start, hi, n);
    }
  }

  /** On machine 0, from zero, with the clock at its largest reading, one add is enough
      for the same id to be returned twice. */
  lemma EqualIds() returns (acts: seq<Action>)
    ensures Legal(Init(0, 0), acts) && ClocksTo(acts, 0x7fff_ffff_ffff_ffff) && Adds(acts) == 1
    ensures HasEqualIds(Execute(Init(0, 0), acts).history, 0x7fff_ffff_ffff_f000)
  {
    hide Legal, Execute, HasEqualIds;
    acts := PastTheLimit(Init(0, 0), 0x7fff_ffff_ffff_ffff);
  }

  // -- Machines of a cluster ---------------------------------------------------------------

  predicate ClusterClocksFrom(moves: seq<Move>, lo: int) {
    forall i :: 0 <= i < |moves| && moves[i].action.ReadClock? ==> moves[i].action.clock >= lo
  }

  function MovesOf(k: nat, acts: seq<Action>): (r: seq<Move>)
    ensures |r| == |acts| && forall i :: 0 <= i < |acts| ==> r[i] == Move(k, acts[i])
  {
    seq(|acts|, i requires 0 <= i < |acts| => Move(k, acts[i]))
  }

  lemma OneMove(c: Cluster, before: seq<Move>, p: Cluster, m: Move, r: Cluster)
    requires (forall k :: k in c ==> c[k].node < 0x1000) && ClusterRun(c, before, p) && MachineStep(p, m, r)
    ensures ClusterRun(c, before + [m], r)
  {
    hide MachineStep;
    var moves := before + [m];
    assert moves[..|moves| - 1] == before && moves[|moves| - 1] == m;
    assert ClusterRun(c, moves[..|moves| - 1], p) && MachineStep(p, m, r);
  }

  /** One machine goes through a run of its own while the others stand still. */
  lemma {:induction false} OneMachine(c: Cluster, before: seq<Move>, p: Cluster, k: nat, acts: seq<Action>)
    requires (forall j :: j in c ==> c[j].node < 0x1000) && ClusterRun(c, before, p)
    requires k in p && p[k].node < 0x1000 && Legal(p[k], acts)
    ensures ClusterRun(c, before + MovesOf(k, acts), p[k := Execute(p[k], acts)])
    decreases |acts|
  {
    hide Apply, Enabled, ClusterRun;
    if acts == [] {
      assert before + MovesOf(k, acts) == before;
      assert p[k := Execute(p[k], acts)] == p;
    } else {
      var n := |acts| - 1;
      OneMachine(c, before, p, k, acts[..n]);
      var q := p[k := Execute(p[k], acts[..n])];
      OneMove(c, before + MovesOf(k, acts[..n]), q, Move(k, acts[n]), p[k := Execute(p[k], acts)]);
      assert before + MovesOf(k, acts) == before + MovesOf(k, acts[..n]) + [Move(k, acts[n])];
    }
  }

  ghost predicate Apart(r: Cluster, j: nat, k: nat)
    requires j in r && k in r
  {
    forall x: nat, y: nat :: BothReturned(r[j], x, r[k], y) ==> r[j].history[x].id != r[k].history[y].id
  }

  predicate BothReturned(s: System, x: nat, t: System, y: nat) {
    x < |s.history| && y < |t.history| && s.history[x].Returned? && t.history[y].Returned?
  }

  function TwoMachines(j: nat, k: nat): Cluster { map[j := Init(j, 0), k := Init(k, 0)] }

  ghost predicate AlwaysApart(j: nat, k: nat, lo: int)
    requires j < 0x1000 && k < 0x1000
  {
    forall moves: seq<Move>, r: Cluster ::
      ClusterRun(TwoMachines(j, k), moves, r) && ClusterClocksFrom(moves, lo) && j in r && k in r ==> Apart(r, j, k)
  }

  /** Under clocks before the epoch two machines can return the same bare time step. */
  lemma SameTimeStep(j: nat, k: nat) returns (moves: seq<Move>, r: Cluster)
    requires j < 0x1000 && k < 0x1000 && j != k
    ensures ClusterRun(TwoMachines(j, k), moves, r) && ClusterClocksFrom(moves, -1)
    ensures j in r && k in r && !Apart(r, j, k)
  {
    hide Legal, Execute, ClusterRun;
    var c := TwoMachines(j, k);
    WrapNotAbove(0x1000);
    var a := NegativeCall(j);
    var b := NegativeCall(k);
    NoMoves(c);
    OneMachine(c, [], c, j, a);
    var p := c[j := Execute(c[j], a)];
    OneMachine(c, [] + MovesOf(j, a), p, k, b);
    moves := [] + MovesOf(j, a) + MovesOf(k, b);
    r := p[k := Execute(p[k], b)];
    Shown(r[j].history, c[j], 0x1000);
    Shown(r[k].history, c[k], 0x1000);
    assert BothReturned(r[j], 2, r[k], 2) && r[j].history[2].id == 0x1000 == r[k].history[2].id;
  }

  lemma NoMoves(c: Cluster)
    requires forall k :: k in c ==> c[k].node < 0x1000
    ensures ClusterRun(c, [], c)
  {}

  lemma NegativeCall(node: nat) returns (acts: seq<Action>)
    requires node < 0x1000
    ensures Legal(Init(node, 0), acts) && ClocksFrom(acts, -1)
    ensures Execute(Init(node, 0), acts).history == Init(node, 0).history + CallEvents(Init(node, 0), 0x1000)
  {
    hide Legal, Execute, SignedWrap;
    var s := Init(node, 0);
    acts := [Call(0), ReadClock(0, -1), Load(0), Swap(0)];
    Undisturbed(s, 0, -1);
    Step(s, acts, Add(0));
    WrapNotAbove(0x1000);
    acts := acts + [Add(0)];
    Step(s, acts, Return(0));
    acts := acts + [Return(0)];
  }

  /** The ids of two different machines differ in all runs exactly when the clocks
      cannot be negative. */
  lemma {:induction false} ApartExactly(j: nat, k: nat, lo: int64)
    requires j < 0x1000 && k < 0x1000 && j != k
    ensures AlwaysApart(j, k, lo) <==> lo >= 0
  {
    hide ClusterRun;
    if lo >= 0 {
      forall moves: seq<Move>, r: Cluster |
        ClusterRun(TwoMachines(j, k), moves, r) && ClusterClocksFrom(moves, lo) && j in r && k in r
        ensures Apart(r, j, k)
      {
        forall x: nat, y: nat | BothReturned(r[j], x, r[k], y)
          ensures r[j].history[x].id != r[k].history[y].id
        {
          ClusterUnique(TwoMachines(j, k), moves, r, j, x, k, y);
        }
      }
    } else {
      var moves, r := SameTimeStep(j, k);
    }
  }
}
