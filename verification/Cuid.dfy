/**
  The cluster id generator: any number of threads run the same wait-free code
  against one shared word. A thread reads the clock, loads the word once, tries
  one compare-and-swap and otherwise falls back to one atomic add.

  The state carries three history variables that the code does not have: the
  events so far, the largest candidate seen, and the number of atomic adds.
*/
module Cuid {
  import opened Words

  const TIME_STEP := 0x1000
  const LIMIT := 0x8000_0000_0000_0000

  /** Where a thread stands in the code. Done remembers where its store is in the
      history. */
  datatype Thread =
    | Idle
    | Called
    | Timed(candidate: int64)
    | Loaded(candidate: int64, seen: int64)
    | Fallback
    | Done(id: int64, at: nat)

  datatype Event =
    | Begun(who: nat)
    | Stored(who: nat, id: int64)
    | Returned(who: nat, id: int64, at: nat)

  datatype System = System(
    node: nat, prev: int64, threads: map<nat, Thread>, history: seq<Event>, top: int, adds: nat)

  datatype Action =
    | Call(t: nat)
    | ReadClock(t: nat, clock: int64)
    | Load(t: nat)
    | Swap(t: nat)
    | Add(t: nat)
    | Return(t: nat)

  function At(s: System, t: nat): Thread { if t in s.threads then s.threads[t] else Idle }

  /** The time with its low twelve bits replaced by the node: in two's complement,
      masking the bits off subtracts the Euclidean remainder, also for a negative
      time, and combining with the node then adds it. */
  function Candidate(clock: int64, node: nat): (c: int64)
    requires node < 0x1000
    ensures c % 0x1000 == node && clock - 0x1000 < c - node <= clock
  {
    clock - clock % 0x1000 + node
  }

  predicate Enabled(s: System, a: Action) {
    match a
    case Call(t) => At(s, t).Idle?
    case ReadClock(t, _) => At(s, t).Called?
    case Load(t) => At(s, t).Timed?
    case Swap(t) => At(s, t).Loaded?
    case Add(t) => At(s, t).Fallback?
    case Return(t) => At(s, t).Done?
  }

  function Moved(s: System, t: nat, to: Thread): System { s.(threads := s.threads[t := to]) }

  /** A store into the shared word by thread t, which is then done. */
  function StoredBy(s: System, t: nat, id: int64): System {
    Moved(s, t, Done(id, |s.history|)).(prev := id, history := s.history + [Stored(t, id)])
  }

  function Apply(s: System, a: Action): System
    requires s.node < 0x1000 && Enabled(s, a)
  {
    match a
    case Call(t) => Moved(s, t, Called).(history := s.history + [Begun(t)])
    case ReadClock(t, clock) =>
      var c := Candidate(clock, s.node);
      Moved(s, t, Timed(c)).(top := Max(s.top, c))
    case Load(t) => Moved(s, t, Loaded(At(s, t).candidate, s.prev))
    case Swap(t) =>
      var p := At(s, t);
      if p.candidate > p.seen && s.prev == p.seen then StoredBy(s, t, p.candidate) else Moved(s, t, Fallback)
    case Add(t) => StoredBy(s, t, SignedWrap(s.prev + TIME_STEP, WORD)).(adds := s.adds + 1)
    case Return(t) =>
      var p := At(s, t);
      Moved(s, t, Idle).(history := s.history + [Returned(t, p.id, p.at)])
  }

  function Init(node: nat, start: int64): System { System(node, start, map[], [], start, 0) }

  /** The actions can be taken one after the other. */
  predicate Legal(s: System, acts: seq<Action>)
    requires s.node < 0x1000
    decreases |acts|, 0
  {
    acts == [] || (Legal(s, acts[..|acts| - 1]) && Enabled(Execute(s, acts[..|acts| - 1]), acts[|acts| - 1]))
  }

  function Execute(s: System, acts: seq<Action>): (r: System)
    requires s.node < 0x1000 && Legal(s, acts)
    ensures r.node == s.node
    decreases |acts|, 1
  {
    if acts == [] then s else Apply(Execute(s, acts[..|acts| - 1]), acts[|acts| - 1])
  }

  lemma NothingDone(s: System)
    requires s.node < 0x1000
    ensures Legal(s, []) && Execute(s, []) == s
  {}

  lemma Extend(s: System, acts: seq<Action>, a: Action)
    requires s.node < 0x1000 && Legal(s, acts) && Enabled(Execute(s, acts), a)
    ensures Legal(s, acts + [a]) && Execute(s, acts + [a]) == Apply(Execute(s, acts), a)
  {
    assert (acts + [a])[..|acts|] == acts;
  }

  /** A chain of states connected by the actions. */
  lemma {:induction false} Chain(s: System, acts: seq<Action>, states: seq<System>)
    requires s.node < 0x1000 && |states| == |acts| + 1 && states[0] == s
    requires forall i :: 0 <= i < |states| ==> states[i].node < 0x1000
    requires forall i :: 0 <= i < |acts| ==> Enabled(states[i], acts[i]) && states[i + 1] == Apply(states[i], acts[i])
    ensures Legal(s, acts) && Execute(s, acts) == states[|acts|]
    decreases |acts|
  {
    hide Apply, Enabled;
    if acts == [] {
      NothingDone(s);
    } else {
      var n := |acts| - 1;
      Chain(s, acts[..n], states[..|acts|]);
      Extend(s, acts[..n], acts[n]);
      assert acts[..n] + [acts[n]] == acts;
    }
  }

  // -- Drift -------------------------------------------------------------------------

  ghost predicate Drift(s: System) {
    && s.prev <= s.top + TIME_STEP * s.adds
    && forall t :: t in s.threads ==>
      && (s.threads[t].Timed? ==> s.threads[t].candidate <= s.top)
      && (s.threads[t].Loaded? ==> s.threads[t].candidate <= s.top)
  }

  lemma DriftStep(s: System, a: Action)
    requires s.node < 0x1000 && Drift(s) && Enabled(s, a)
    ensures Drift(Apply(s, a))
  {}

  lemma WrapNotAbove(x: int)
    requires -LIMIT <= x < WORD
    ensures SignedWrap(x, WORD) <= x
    ensures x < LIMIT ==> SignedWrap(x, WORD) == x
  {}

  /** At every reachable state the shared word is at most the largest candidate (or
      start value) plus one time step for every atomic add. */
  lemma {:induction false} DriftBound(node: nat, start: int64, acts: seq<Action>)
    requires node < 0x1000 && Legal(Init(node, start), acts)
    ensures Drift(Execute(Init(node, start), acts))
    decreases |acts|
  {
    if acts != [] {
      DriftBound(node, start, acts[..|acts| - 1]);
      DriftStep(Execute(Init(node, start), acts[..|acts| - 1]), acts[|acts| - 1]);
    }
  }

  /** While that sum stays below 2^63 no atomic add can overflow. */
  ghost predicate InBudget(s: System) { s.top + TIME_STEP * s.adds < LIMIT }

  /** The largest of the start value and the candidates of the schedule. */
  function Largest(node: nat, start: int64, acts: seq<Action>): int
    requires node < 0x1000
  {
    if acts == [] then start
    else
      var before, a := Largest(node, start, acts[..|acts| - 1]), acts[|acts| - 1];
      if a.ReadClock? then Max(before, Candidate(a.clock, node)) else before
  }

  function Adds(acts: seq<Action>): nat {
    if acts == [] then 0 else Adds(acts[..|acts| - 1]) + if acts[|acts| - 1].Add? then 1 else 0
  }

  /** The budget can be read off the schedule. */
  lemma {:induction false} BudgetOfSchedule(node: nat, start: int64, acts: seq<Action>)
    requires node < 0x1000 && Legal(Init(node, start), acts)
    ensures var s := Execute(Init(node, start), acts); s.top == Largest(node, start, acts) && s.adds == Adds(acts)
    ensures InBudget(Execute(Init(node, start), acts)) <==> Largest(node, start, acts) + TIME_STEP * Adds(acts) < LIMIT
    decreases |acts|
  {
    if acts != [] {
      BudgetOfSchedule(node, start, acts[..|acts| - 1]);
    }
  }

  lemma BudgetBefore(s: System, a: Action)
    requires s.node < 0x1000 && Enabled(s, a) && InBudget(Apply(s, a))
    ensures InBudget(s)
    ensures Drift(s) && a.Add? ==> Apply(s, a).prev == s.prev + TIME_STEP
  {}

  /** Undisturbed, a call stores the clock's id if it is new, and otherwise goes on to
      the fallback with the shared word untouched. */
  lemma Undisturbed(s: System, t: nat, clock: int64)
    requires s.node < 0x1000 && At(s, t).Idle?
    ensures var acts := [Call(t), ReadClock(t, clock), Load(t), Swap(t)]; var c := Candidate(clock, s.node);
      && Legal(s, acts)
      && var r := Execute(s, acts); var h := s.history + [Begun(t)];
         if c > s.prev then r.prev == c && At(r, t) == Done(c, |h|) && r.history == h + [Event.Stored(t, c)]
         else r.prev == s.prev && At(r, t) == Fallback && r.history == h
  {
    hide Apply, Enabled, Legal, Execute, Candidate;
    var c := Candidate(clock, s.node);
    var s1 := Moved(s, t, Called).(history := s.history + [Begun(t)]);
    var s2 := Moved(s1, t, Timed(c)).(top := Max(s1.top, c));
    var s3 := Moved(s2, t, Loaded(c, s.prev));
    var s4 := if c > s.prev then StoredBy(s3, t, c) else Moved(s3, t, Fallback);
    var acts := [Call(t), ReadClock(t, clock), Load(t), Swap(t)];
    var states := [s, s1, s2, s3, s4];
    UndisturbedStates(t, clock, states, acts);
    Chain(s, acts, states);
  }

  lemma UndisturbedStates(t: nat, clock: int64, s: seq<System>, acts: seq<Action>)
    requires |s| == 5 && s[0].node < 0x1000 && At(s[0], t).Idle?
    requires acts == [Call(t), ReadClock(t, clock), Load(t), Swap(t)]
    requires s[1] == Moved(s[0], t, Called).(history := s[0].history + [Begun(t)])
    requires var c := Candidate(clock, s[0].node);
      && s[2] == Moved(s[1], t, Timed(c)).(top := Max(s[1].top, c))
      && s[3] == Moved(s[2], t, Loaded(c, s[0].prev))
      && s[4] == if c > s[0].prev then StoredBy(s[3], t, c) else Moved(s[3], t, Fallback)
    ensures forall i :: 0 <= i < |acts| ==>
      s[i].node < 0x1000 && Enabled(s[i], acts[i]) && s[i + 1] == Apply(s[i], acts[i])
  {
    hide Candidate;
    assert s[1] == Apply(s[0], acts[0]);
    assert s[2] == Apply(s[1], acts[1]);
    assert s[3] == Apply(s[2], acts[2]);
    assert s[4] == Apply(s[3], acts[3]);
  }

  // -- Uniqueness and order ------------------------------------------------------------

  /** Nothing in the history from position i on, up to position j, is by thread t. */
  predicate Silent(h: seq<Event>, t: nat, i: nat, j: nat)
    requires j <= |h|
  {
    forall k :: i <= k < j ==> h[k].who != t
  }

  /** An id and the store it comes from: the thread stored it, and did nothing that
      shows in the history between then and position j. */
  predicate FromStore(h: seq<Event>, t: nat, id: int64, at: nat, j: nat)
    requires j <= |h|
  {
    at < j && h[at] == Event.Stored(t, id) && Silent(h, t, at + 1, j)
  }

  /** Stores strictly increase, from above the start value up to the present one. */
  ghost predicate StoresIncrease(s: System, start: int) {
    && start <= s.prev
    && (forall i :: 0 <= i < |s.history| && s.history[i].Stored? ==> start < s.history[i].id <= s.prev)
    && (forall i, j :: 0 <= i < j < |s.history| && s.history[i].Stored? && s.history[j].Stored? ==>
          s.history[i].id < s.history[j].id)
  }

  ghost predicate ResultsFromStores(s: System) {
    && (forall t :: t in s.threads && s.threads[t].Done? ==>
          FromStore(s.history, t, s.threads[t].id, s.threads[t].at, |s.history|))
    && (forall k :: 0 <= k < |s.history| && s.history[k].Returned? ==>
          FromStore(s.history, s.history[k].who, s.history[k].id, s.history[k].at, k))
  }

  lemma StoresStep(s: System, start: int, a: Action)
    requires s.node < 0x1000 && Enabled(s, a) && StoresIncrease(s, start)
    requires a.Add? ==> Apply(s, a).prev == s.prev + TIME_STEP
    ensures StoresIncrease(Apply(s, a), start)
    ensures Apply(s, a).prev != s.prev ==> Apply(s, a).prev > s.prev
  {}

  lemma HistoryGrows(s: System, a: Action)
    requires s.node < 0x1000 && Enabled(s, a)
    ensures |Apply(s, a).history| <= |s.history| + 1
    ensures s.history <= Apply(s, a).history
    ensures forall k :: |s.history| <= k < |Apply(s, a).history| ==> Apply(s, a).history[k].who == a.t
  {}

  lemma FromStoreKept(h: seq<Event>, g: seq<Event>, t: nat, id: int64, at: nat, j: nat, k: nat)
    requires j <= |h| && h <= g && j <= k <= |g| && FromStore(h, t, id, at, j)
    requires Silent(g, t, j, k)
    ensures FromStore(g, t, id, at, k)
  {}

  lemma ResultsStep(s: System, a: Action)
    requires s.node < 0x1000 && Enabled(s, a) && ResultsFromStores(s)
    ensures ResultsFromStores(Apply(s, a))
  {
    HistoryGrows(s, a);
    var r := Apply(s, a);
    var h, g := s.history, r.history;
    forall t | t in r.threads && r.threads[t].Done?
      ensures FromStore(g, t, r.threads[t].id, r.threads[t].at, |g|)
    {
      if t != a.t {
        FromStoreKept(h, g, t, s.threads[t].id, s.threads[t].at, |h|, |g|);
      }
    }
    forall k | 0 <= k < |g| && g[k].Returned?
      ensures FromStore(g, g[k].who, g[k].id, g[k].at, k)
    {
      if k < |h| {
        FromStoreKept(h, g, h[k].who, h[k].id, h[k].at, k, k);
      }
    }
  }

  /** What every run keeps: each result is the value its call stored; and, within the
      budget, stores strictly increase. */
  lemma {:induction false} Invariant(node: nat, start: int64, acts: seq<Action>)
    requires node < 0x1000 && Legal(Init(node, start), acts)
    ensures ResultsFromStores(Execute(Init(node, start), acts))
    ensures InBudget(Execute(Init(node, start), acts)) ==> StoresIncrease(Execute(Init(node, start), acts), start)
    decreases |acts|
  {
    if acts != [] {
      var before := acts[..|acts| - 1];
      var s := Execute(Init(node, start), before);
      var a := acts[|acts| - 1];
      DriftBound(node, start, before);
      Invariant(node, start, before);
      ResultsStep(s, a);
      if InBudget(Apply(s, a)) {
        BudgetBefore(s, a);
        StoresStep(s, start, a);
      }
    }
  }

  /** Within the budget no two calls return the same id, in any interleaving.
      (CuidLimits.UniqueExactly says for which clocks and how many adds that goes on.) */
  lemma Unique(node: nat, start: int64, acts: seq<Action>, i: nat, j: nat)
    requires node < 0x1000 && Legal(Init(node, start), acts) && InBudget(Execute(Init(node, start), acts))
    requires var h := Execute(Init(node, start), acts).history;
      i < j < |h| && h[i].Returned? && h[j].Returned?
    ensures var h := Execute(Init(node, start), acts).history; h[i].id != h[j].id
  {
    Invariant(node, start, acts);
    var s := Execute(Init(node, start), acts);
    DistinctResults(s, start, i, j);
  }

  lemma DistinctResults(s: System, start: int, i: nat, j: nat)
    requires StoresIncrease(s, start) && ResultsFromStores(s)
    requires i < j < |s.history| && s.history[i].Returned? && s.history[j].Returned?
    ensures s.history[i].id != s.history[j].id
  {}

  /** Within the budget a call that returns before another one begins gets the smaller id. */
  lemma RealTimeOrder(node: nat, start: int64, acts: seq<Action>, i: nat, j: nat, k: nat)
    requires node < 0x1000 && Legal(Init(node, start), acts) && InBudget(Execute(Init(node, start), acts))
    requires var h := Execute(Init(node, start), acts).history;
      i < j < k < |h| && h[i].Returned? && h[j].Begun? && h[k].Returned? && h[k].who == h[j].who
    ensures var h := Execute(Init(node, start), acts).history; h[i].id < h[k].id
  {
    Invariant(node, start, acts);
    var s := Execute(Init(node, start), acts);
    var h := s.history;
    assert FromStore(h, h[i].who, h[i].id, h[i].at, i);
    assert FromStore(h, h[k].who, h[k].id, h[k].at, k);
    if h[k].at < j {
      assert false;
    }
    assert h[h[i].at].id < h[h[k].at].id;
  }

  // -- Node bits -----------------------------------------------------------------------

  predicate Carries(id: int, node: nat) { id % 0x1000 == node }

  /** All clock readings among the actions are at least lo. */
  predicate ClocksFrom(acts: seq<Action>, lo: int) {
    forall i :: 0 <= i < |acts| && acts[i].ReadClock? ==> acts[i].clock >= lo
  }

  ghost predicate NodeBits(s: System) {
    && (s.prev == 0 || Carries(s.prev, s.node))
    && (forall t :: t in s.threads ==> ThreadBits(s, s.threads[t]))
    && (forall k :: 0 <= k < |s.history| && !s.history[k].Begun? ==> Carries(s.history[k].id, s.node))
  }

  /** A thread in the fallback branch implies that the shared word carries the node
      bits already, that is, that some swap has succeeded before. */
  ghost predicate ThreadBits(s: System, p: Thread) {
    match p
    case Timed(c) => Carries(c, s.node) && (Carries(0, s.node) || Carries(s.prev, s.node) || c > 0)
    case Loaded(c, seen) =>
      && Carries(c, s.node) && (seen == 0 || Carries(s.prev, s.node))
      && (Carries(0, s.node) || Carries(s.prev, s.node) || c > 0)
    case Fallback => Carries(s.prev, s.node)
    case Done(id, _) => Carries(id, s.node)
    case _ => true
  }

  /** What keeps the node bits: the word carries them, or the clock is not negative. */
  predicate GoodClock(s: System, a: Action) {
    a.ReadClock? && !Carries(s.prev, s.node) ==> a.clock >= 0
  }

  /** A wrap-around keeps the low bits. */
  lemma WrapKeepsBits(x: int)
    ensures SignedWrap(x, WORD) % 0x1000 == x % 0x1000
  {
    var y := SignedWrap(x, WORD);
    var j := x / WORD - y / WORD;
    assert y == x - j * WORD;
    DivModUnique(x / 0x1000 - j * 0x10_0000_0000_0000, 0x1000, x % 0x1000);
  }

  /** What a step does to the node bits of the word, and of a candidate. */
  lemma StepCarries(s: System, a: Action)
    requires s.node < 0x1000 && Enabled(s, a)
    ensures a.Add? && Carries(s.prev, s.node) ==> Carries(Apply(s, a).prev, s.node)
    ensures a.ReadClock? ==> Carries(Candidate(a.clock, s.node), s.node)
    ensures a.ReadClock? && a.clock >= 0 ==> Carries(0, s.node) || Candidate(a.clock, s.node) > 0
  {
    hide SignedWrap, Candidate;
    StepUp(s.prev, s.node);
    if a.Add? {
      WrapKeepsBits(s.prev + TIME_STEP);
    }
  }

  lemma StepUp(x: int, node: nat)
    ensures Carries(x, node) <==> Carries(x + TIME_STEP, node)
  {}

  lemma NodeBitsStep(s: System, a: Action)
    requires s.node < 0x1000 && Enabled(s, a) && NodeBits(s) && GoodClock(s, a)
    ensures NodeBits(Apply(s, a))
    ensures Carries(s.prev, s.node) ==> Carries(Apply(s, a).prev, s.node)
  {
    hide SignedWrap, Carries;
    var r := Apply(s, a);
    StepCarries(s, a);
    forall t | t in r.threads
      ensures ThreadBits(r, r.threads[t])
    {
      if t != a.t {
        assert r.threads[t] == s.threads[t];
      }
    }
  }

  /** Every id carries the node, when the shared word starts out carrying it, or
      starts at zero under clocks that are never negative; also when an add wraps. */
  lemma {:induction false} NodeBitsKept(node: nat, start: int64, acts: seq<Action>)
    requires node < 0x1000 && Legal(Init(node, start), acts)
    requires Carries(start, node) || (start == 0 && ClocksFrom(acts, 0))
    ensures var s := Execute(Init(node, start), acts);
      NodeBits(s) && (Carries(start, node) ==> Carries(s.prev, node))
    decreases |acts|
  {
    if acts != [] {
      var before := acts[..|acts| - 1];
      NodeBitsKept(node, start, before);
      NodeBitsStep(Execute(Init(node, start), before), acts[|acts| - 1]);
    }
  }

  ghost predicate ResultsCarry(node: nat, acts: seq<Action>)
    requires node < 0x1000 && Legal(Init(node, 0), acts)
  {
    var h := Execute(Init(node, 0), acts).history;
    forall k :: 0 <= k < |h| && h[k].Returned? ==> Carries(h[k].id, node)
  }

  /** The states of one call under a clock just before the epoch: the candidate is
      negative, so the thread falls back to a bare time step. */
  lemma NegativeStates(node: nat, s: seq<System>, acts: seq<Action>)
    requires 0 < node < 0x1000 && |s| == 7
    requires acts == [Call(0), ReadClock(0, -1), Load(0), Swap(0), Add(0), Return(0)]
    requires s[0] == Init(node, 0)
    requires s[1] == Moved(s[0], 0, Called).(history := [Begun(0)])
    requires s[2] == Moved(s[1], 0, Timed(node - 0x1000))
    requires s[3] == Moved(s[2], 0, Loaded(node - 0x1000, 0))
    requires s[4] == Moved(s[3], 0, Fallback)
    requires s[5] == Moved(s[4], 0, Done(0x1000, 1)).(
                       prev := 0x1000, history := [Begun(0), Event.Stored(0, 0x1000)], adds := 1)
    requires s[6] == Moved(s[5], 0, Idle).(history := [Begun(0), Event.Stored(0, 0x1000), Returned(0, 0x1000, 1)])
    ensures forall i :: 0 <= i < |acts| ==>
      s[i].node < 0x1000 && Enabled(s[i], acts[i]) && s[i + 1] == Apply(s[i], acts[i])
  {
    assert s[1] == Apply(s[0], acts[0]);
    assert s[2] == Apply(s[1], acts[1]);
    assert s[3] == Apply(s[2], acts[2]);
    assert s[4] == Apply(s[3], acts[3]);
    WrapNotAbove(0x1000);
    assert s[5] == Apply(s[4], acts[4]);
    assert s[6] == Apply(s[5], acts[5]);
  }

  lemma NegativeClock(node: nat) returns (acts: seq<Action>)
    requires 0 < node < 0x1000
    ensures Legal(Init(node, 0), acts) && ClocksFrom(acts, -1) && !ResultsCarry(node, acts)
  {
    hide Apply, Enabled, Legal, Execute;
    var s0 := Init(node, 0);
    var s1 := Moved(s0, 0, Called).(history := [Begun(0)]);
    var s2 := Moved(s1, 0, Timed(node - 0x1000));
    var s3 := Moved(s2, 0, Loaded(node - 0x1000, 0));
    var s4 := Moved(s3, 0, Fallback);
    var s5 := Moved(s4, 0, Done(0x1000, 1)).(prev := 0x1000, history := [Begun(0), Event.Stored(0, 0x1000)], adds := 1);
    var s6 := Moved(s5, 0, Idle).(history := [Begun(0), Event.Stored(0, 0x1000), Returned(0, 0x1000, 1)]);
    acts := [Call(0), ReadClock(0, -1), Load(0), Swap(0), Add(0), Return(0)];
    var states := [s0, s1, s2, s3, s4, s5, s6];
    NegativeStates(node, states, acts);
    Chain(s0, acts, states);
    assert s6.history[2] == Returned(0, 0x1000, 1);
  }

  ghost predicate AlwaysCarries(node: nat, lo: int)
    requires node < 0x1000
  {
    forall acts: seq<Action> :: Legal(Init(node, 0), acts) && ClocksFrom(acts, lo) ==> ResultsCarry(node, acts)
  }

  /** Starting from zero, all ids of all runs carry the node exactly when the clock
      cannot be negative or the node is number zero. */
  lemma NodeBitsExactly(node: nat, lo: int64)
    requires node < 0x1000
    ensures AlwaysCarries(node, lo) <==> lo >= 0 || node == 0
  {
    hide ClocksFrom;
    if lo >= 0 || node == 0 {
      forall acts: seq<Action> | Legal(Init(node, 0), acts) && ClocksFrom(acts, lo)
        ensures ResultsCarry(node, acts)
      {
        ClocksWeaker(acts, lo, 0);
        NodeBitsKept(node, 0, acts);
      }
    } else {
      var acts := NegativeClock(node);
      ClocksWeaker(acts, -1, lo);
    }
  }

  lemma ClocksWeaker(acts: seq<Action>, lo: int, bound: int)
    requires ClocksFrom(acts, lo)
    ensures bound <= lo ==> ClocksFrom(acts, bound)
  {}

  // -- The whole cluster -----------------------------------------------------------------

  /** The machines of the cluster by node number; they share nothing. */
  type Cluster = map<nat, System>

  datatype Move = Move(node: nat, action: Action)

  ghost predicate Machines(c: Cluster) {
    forall k :: k in c ==> k < 0x1000 && c[k] == Init(k, 0)
  }

  /** The moves of one machine, in order. */
  function Own(moves: seq<Move>, k: nat): seq<Action> {
    if moves == [] then []
    else
      var m := moves[|moves| - 1];
      Own(moves[..|moves| - 1], k) + if m.node == k then [m.action] else []
  }

  /** A legal interleaving of the machines, and the cluster after it. */
  ghost predicate ClusterRun(c: Cluster, moves: seq<Move>, r: Cluster)
    requires forall k :: k in c ==> c[k].node < 0x1000
    decreases |moves|
  {
    if moves == [] then r == c
    else
      var m := moves[|moves| - 1];
      exists p: Cluster :: ClusterRun(c, moves[..|moves| - 1], p) && MachineStep(p, m, r)
  }

  ghost predicate MachineStep(p: Cluster, m: Move, r: Cluster) {
    && m.node in p && p[m.node].node < 0x1000 && Enabled(p[m.node], m.action)
    && r == p[m.node := Apply(p[m.node], m.action)]
  }

  /** In an interleaving of the cluster every machine goes through a run of its own. */
  lemma {:induction false} Projection(c: Cluster, moves: seq<Move>, r: Cluster)
    requires (forall k :: k in c ==> c[k].node < 0x1000) && ClusterRun(c, moves, r)
    ensures r.Keys == c.Keys
    ensures forall k :: k in c ==> Legal(c[k], Own(moves, k)) && r[k] == Execute(c[k], Own(moves, k))
    decreases |moves|
  {
    hide Apply, Enabled, Legal, Execute;
    if moves == [] {
      forall k | k in c ensures Legal(c[k], []) && Execute(c[k], []) == c[k] { NothingDone(c[k]); }
    } else {
      var m := moves[|moves| - 1];
      var before := moves[..|moves| - 1];
      var p: Cluster :| ClusterRun(c, before, p) && MachineStep(p, m, r);
      Projection(c, before, p);
      forall k | k in c
        ensures Legal(c[k], Own(moves, k)) && r[k] == Execute(c[k], Own(moves, k))
      {
        if k == m.node {
          Extend(c[k], Own(before, k), m.action);
        } else {
          assert Own(moves, k) == Own(before, k);
        }
      }
    }
  }

  lemma {:induction false} OwnClocks(moves: seq<Move>, k: nat, lo: int)
    requires forall i :: 0 <= i < |moves| && moves[i].action.ReadClock? ==> moves[i].action.clock >= lo
    ensures ClocksFrom(Own(moves, k), lo)
    decreases |moves|
  {
    if moves != [] {
      OwnClocks(moves[..|moves| - 1], k, lo);
    }
  }

  /** All ids ever returned anywhere in the cluster are pairwise distinct: those of
      different machines always, those of one machine within its budget. */
  lemma ClusterUnique(c: Cluster, moves: seq<Move>, r: Cluster, j: nat, x: nat, k: nat, y: nat)
    requires Machines(c) && ClusterRun(c, moves, r)
    requires forall i :: 0 <= i < |moves| && moves[i].action.ReadClock? ==> moves[i].action.clock >= 0
    requires j in r && x < |r[j].history| && r[j].history[x].Returned?
    requires k in r && y < |r[k].history| && r[k].history[y].Returned?
    requires (j, x) != (k, y) && (j == k ==> InBudget(r[j]))
    ensures r[j].history[x].id != r[k].history[y].id
  {
    hide Apply, Enabled, Legal, Execute, ClusterRun, ClocksFrom;
    Projection(c, moves, r);
    if j == k {
      Unique(j, 0, Own(moves, j), if x < y then x else y, if x < y then y else x);
    } else {
      OwnClocks(moves, j, 0);
      OwnClocks(moves, k, 0);
      NodeBitsKept(j, 0, Own(moves, j));
      NodeBitsKept(k, 0, Own(moves, k));
    }
  }

  // -- Wait freedom ------------------------------------------------------------------------

  /** How many steps of its own a thread needs until its call has ended. */
  function Remaining(p: Thread): nat {
    match p
    case Idle => 0
    case Called => 5
    case Timed(_) => 4
    case Loaded(_, _) => 3
    case Fallback => 2
    case Done(_, _) => 1
  }

  predicate NextOf(s: System, t: nat, a: Action) { a.t == t && Enabled(s, a) }

  /** A thread inside a call can always take a step, whatever the others are doing; the
      step brings it nearer to the end, and steps of others do not touch it. */
  lemma AlwaysAStep(s: System, t: nat)
    requires s.node < 0x1000 && !At(s, t).Idle?
    ensures exists a :: NextOf(s, t, a)
    ensures forall a :: NextOf(s, t, a) ==> Remaining(At(Apply(s, a), t)) < Remaining(At(s, t))
    ensures forall a :: Enabled(s, a) && a.t != t ==> At(Apply(s, a), t) == At(s, t)
    ensures At(s, t).Called? ==> forall clock :: Enabled(s, ReadClock(t, clock))
  {
    var a := match At(s, t)
      case Called => ReadClock(t, 0)
      case Timed(_) => Load(t)
      case Loaded(_, _) => Swap(t)
      case Fallback => Add(t)
      case _ => Return(t);
    assert NextOf(s, t, a);
  }

  /** What a thread can do depends on nothing but its own place in the code; outside of a
      call it can begin one. */
  lemma FreeToMove(s: System, r: System, a: Action)
    requires At(s, a.t) == At(r, a.t)
    ensures Enabled(s, a) <==> Enabled(r, a)
    ensures At(s, a.t).Idle? <==> Enabled(s, Call(a.t))
  {}

  function Steps(acts: seq<Action>, t: nat): nat {
    if acts == [] then 0 else Steps(acts[..|acts| - 1], t) + if acts[|acts| - 1].t == t then 1 else 0
  }

  /** Wait freedom: as long as a call has not ended, its thread has taken at most as
      many steps as its place in the code allows, however many the others take. */
  lemma {:induction false} WaitFree(s: System, acts: seq<Action>, t: nat)
    requires s.node < 0x1000 && Legal(s, acts) && !At(s, t).Idle?
    requires forall i :: 0 <= i < |acts| ==> acts[i] != Action.Return(t)
    ensures !At(Execute(s, acts), t).Idle?
    ensures Steps(acts, t) + Remaining(At(Execute(s, acts), t)) <= Remaining(At(s, t))
    decreases |acts|
  {
    if acts != [] {
      WaitFree(s, acts[..|acts| - 1], t);
    }
  }

  // -- The code over the shared word -------------------------------------------------------

  /** The part of shared memory the generator uses, with its atomic operations. */
  class SharedState {
    const node: nat
    var prev: int64

    constructor (node: nat, prev: int64)
      ensures this.node == node && this.prev == prev
    {
      this.node, this.prev := node, prev;
    }

    method AtomicRead() returns (x: int64)
      ensures x == prev
    {
      x := prev;
    }

    method CompareAndSwap(expected: int64, x: int64) returns (ok: bool)
      modifies this`prev
      ensures ok <==> old(prev) == expected
      ensures prev == if ok then x else old(prev)
    {
      ok := prev == expected;
      if ok {
        prev := x;
      }
    }

    method AddRead(step: int64) returns (x: int64)
      modifies this`prev
      ensures x == prev == SignedWrap(old(prev) + step, WORD)
    {
      prev := SignedWrap(prev + step, WORD);
      x := prev;
    }

    /** The whole call when no other thread interferes: the clock's id if it is new,
        the next time step otherwise; always larger than before unless the add wraps. */
    method Next(clock: int64) returns (id: int64)
      requires node < 0x1000
      modifies this`prev
      ensures id == prev
      ensures Candidate(clock, node) > old(prev) ==> id == Candidate(clock, node)
      ensures Candidate(clock, node) <= old(prev) ==> id == SignedWrap(old(prev) + TIME_STEP, WORD)
      ensures old(prev) + TIME_STEP < LIMIT ==> id > old(prev)
    {
      var newId := Candidate(clock, node);
      var oldId := AtomicRead();
      if newId > oldId {
        var swapped := CompareAndSwap(oldId, newId);
        if swapped {
          return newId;
        }
      }
      WrapNotAbove(oldId + TIME_STEP);
      id := AddRead(TIME_STEP);
    }
  }

  /** The ids returned, in the order of the returns. */
  function Results(h: seq<Event>): seq<int64> {
    if h == [] then []
    else
      var e := h[|h| - 1];
      Results(h[..|h| - 1]) + if e.Returned? then [e.id] else []
  }

  lemma {:induction false} ResultsReturned(h: seq<Event>, x: int64)
    requires x in Results(h)
    ensures exists k :: 0 <= k < |h| && h[k].Returned? && h[k].id == x
  {
    if h != [] {
      var g := h[..|h| - 1];
      if x in Results(g) {
        ResultsReturned(g, x);
        var k :| 0 <= k < |g| && g[k].Returned? && g[k].id == x;
        assert h[k] == g[k];
      }
    }
  }

  lemma {:induction false} ResultsDistinct(h: seq<Event>)
    requires forall i, j :: 0 <= i < j < |h| && h[i].Returned? && h[j].Returned? ==> h[i].id != h[j].id
    ensures forall i, j :: 0 <= i < j < |Results(h)| ==> Results(h)[i] != Results(h)[j]
  {
    if h != [] {
      var g := h[..|h| - 1];
      ResultsDistinct(g);
      var last := h[|h| - 1];
      if last.Returned? && last.id in Results(g) {
        ResultsReturned(g, last.id);
        assert false;
      }
    }
  }

  lemma RunDistinct(node: nat, start: int64, acts: seq<Action>)
    requires node < 0x1000 && Legal(Init(node, start), acts) && InBudget(Execute(Init(node, start), acts))
    ensures var r := Results(Execute(Init(node, start), acts).history);
      forall i, j :: 0 <= i < j < |r| ==> r[i] != r[j]
  {
    var h := Execute(Init(node, start), acts).history;
    forall i, j | 0 <= i < j < |h| && h[i].Returned? && h[j].Returned?
      ensures h[i].id != h[j].id
    {
      Unique(node, start, acts, i, j);
    }
    ResultsDistinct(h);
  }

  /** One step of one thread, performed on the shared word. events counts the events so
      far, which is where the next store stands. */
  method Perform(shared: SharedState, p: Thread, a: Action, events: nat, ghost s: System) returns (to: Thread)
    requires shared.node == s.node < 0x1000 && shared.prev == s.prev
    requires Enabled(s, a) && p == At(s, a.t) && events == |s.history|
    modifies shared`prev
    ensures shared.prev == Apply(s, a).prev && Apply(s, a).threads == s.threads[a.t := to]
  {
    match a
    case Call(_) => to := Called;
    case ReadClock(_, clock) => to := Timed(Candidate(clock, shared.node));
    case Load(_) =>
      var seen := shared.AtomicRead();
      to := Loaded(p.candidate, seen);
    case Swap(_) =>
      to := Fallback;
      if p.candidate > p.seen {
        var swapped := shared.CompareAndSwap(p.seen, p.candidate);
        if swapped {
          to := Done(p.candidate, events);
        }
      }
    case Add(_) =>
      var id := shared.AddRead(TIME_STEP);
      to := Done(id, events);
    case Return(_) => to := Idle;
  }

  /** Any number of threads run the code against the shared word in the order of the
      schedule. The word and the ids returned are those of the model, so within the
      budget all ids are distinct. */
  method Interleave(shared: SharedState, schedule: seq<Action>) returns (results: seq<int64>)
    requires shared.node < 0x1000 && Legal(Init(shared.node, shared.prev), schedule)
    modifies shared`prev
    ensures var s := Execute(Init(shared.node, old(shared.prev)), schedule);
      && shared.prev == s.prev
      && results == Results(s.history)
      && (InBudget(s) ==> forall i, j :: 0 <= i < j < |results| ==> results[i] != results[j])
  {
    hide Apply, Enabled, InBudget;
    ghost var start := Init(shared.node, shared.prev);
    ghost var s := start;
    var threads: map<nat, Thread> := map[];
    var events := 0;
    results := [];
    for i := 0 to |schedule|
      invariant Legal(start, schedule[..i]) && s == Execute(start, schedule[..i])
      invariant s.prev == shared.prev && s.threads == threads && |s.history| == events
      invariant results == Results(s.history)
    {
      var a := schedule[i];
      assert Legal(start, schedule[..i + 1]) by { Prefix(start, schedule, i + 1); }
      assert schedule[..i + 1][..i] == schedule[..i];
      var p := if a.t in threads then threads[a.t] else Idle;
      OneEvent(s, a);
      var to := Perform(shared, p, a, events, s);
      threads := threads[a.t := to];
      if a.Call? || to.Done? || a.Return? {
        events := events + 1;
      }
      if a.Return? {
        results := results + [p.id];
      }
      s := Apply(s, a);
    }
    assert schedule[..|schedule|] == schedule;
    if InBudget(s) {
      RunDistinct(shared.node, old(shared.prev), schedule);
    }
  }

  lemma {:induction false} Prefix(s: System, acts: seq<Action>, n: nat)
    requires s.node < 0x1000 && Legal(s, acts) && n <= |acts|
    ensures Legal(s, acts[..n])
    decreases |acts|
  {
    if n < |acts| {
      Prefix(s, acts[..|acts| - 1], n);
      assert acts[..|acts| - 1][..n] == acts[..n];
    } else {
      assert acts[..n] == acts;
    }
  }

  /** Which steps show in the history, and what they add to the results. */
  lemma OneEvent(s: System, a: Action)
    requires s.node < 0x1000 && Enabled(s, a)
    ensures var r := Apply(s, a);
      && |r.history| == |s.history| + (if a.Call? || At(r, a.t).Done? || a.Return? then 1 else 0)
      && (a.Return? ==> At(s, a.t).Done?)
      && Results(r.history) == Results(s.history) + if a.Return? then [At(s, a.t).id] else []
  {}
}
