/**
  Runs of the id generator put together call by call, up to the one that passes 2^63,
  wraps the shared word around, and takes the clock's id a second time.
*/
module CuidRuns {
  import opened Words
  import opened Cuid

  /** All clock readings among the actions are at most hi. */
  predicate ClocksTo(acts: seq<Action>, hi: int) {
    forall i :: 0 <= i < |acts| && acts[i].ReadClock? ==> acts[i].clock <= hi
  }

  lemma CandidateMonotone(a: int64, b: int64, node: nat)
    requires a <= b && node < 0x1000
    ensures Candidate(a, node) <= Candidate(b, node)
  {
    assert a == 0x1000 * (a / 0x1000) + a % 0x1000;
    assert b == 0x1000 * (b / 0x1000) + b % 0x1000;
  }

  // -- Runs put together ---------------------------------------------------------------

  lemma {:induction false} Joined(s: System, a: seq<Action>, b: seq<Action>)
    requires s.node < 0x1000 && Legal(s, a) && Legal(Execute(s, a), b)
    ensures Legal(s, a + b) && Execute(s, a + b) == Execute(Execute(s, a), b)
    ensures Adds(a + b) == Adds(a) + Adds(b)
    decreases |b|
  {
    hide Apply, Enabled;
    if b == [] {
      assert a + b == a;
    } else {
      Joined(s, a, b[..|b| - 1]);
      assert (a + b)[..|a + b| - 1] == a + b[..|b| - 1];
    }
  }

  lemma {:induction false} HistoryKept(s: System, acts: seq<Action>)
    requires s.node < 0x1000 && Legal(s, acts)
    ensures s.history <= Execute(s, acts).history
    decreases |acts|
  {
    if acts != [] {
      HistoryKept(s, acts[..|acts| - 1]);
      HistoryGrows(Execute(s, acts[..|acts| - 1]), acts[|acts| - 1]);
      hide Apply, Enabled;
    }
  }

  /** Thread 0 is outside of any call. */
  predicate Ready(s: System) { s.node < 0x1000 && At(s, 0).Idle? }

  /** The id of a call that nobody disturbs. */
  function NextId(s: System, clock: int64): int64
    requires s.node < 0x1000
  {
    var c := Candidate(clock, s.node);
    if c > s.prev then c else SignedWrap(s.prev + TIME_STEP, WORD)
  }

  function CallEvents(s: System, id: int64): (r: seq<Event>)
    ensures |r| == 3
  {
    [Begun(0), Event.Stored(0, id), Returned(0, id, |s.history| + 1)]
  }

  lemma {:induction false} NoAdds(acts: seq<Action>)
    requires forall i :: 0 <= i < |acts| ==> !acts[i].Add?
    ensures Adds(acts) == 0
  {
    if acts != [] {
      NoAdds(acts[..|acts| - 1]);
    }
  }

  lemma AddsMore(acts: seq<Action>, a: Action)
    ensures Adds(acts + [a]) == Adds(acts) + if a.Add? then 1 else 0
  {
    assert (acts + [a])[..|acts|] == acts;
  }

  lemma Step(s: System, acts: seq<Action>, a: Action)
    requires s.node < 0x1000 && Legal(s, acts) && Enabled(Execute(s, acts), a)
    ensures Legal(s, acts + [a]) && Execute(s, acts + [a]) == Apply(Execute(s, acts), a)
    ensures Adds(acts + [a]) == Adds(acts) + if a.Add? then 1 else 0
  {
    hide Legal, Execute, Apply, Enabled;
    Extend(s, acts, a);
    AddsMore(acts, a);
  }

  /** Thread 0 takes all the actions. */
  predicate Alone(acts: seq<Action>) { forall i :: 0 <= i < |acts| ==> acts[i].t == 0 }

  lemma {:induction false} OthersStay(s: System, acts: seq<Action>, t: nat)
    requires s.node < 0x1000 && Legal(s, acts) && forall i :: 0 <= i < |acts| ==> acts[i].t != t
    ensures At(Execute(s, acts), t) == At(s, t)
    decreases |acts|
  {
    hide Enabled;
    if acts != [] {
      OthersStay(s, acts[..|acts| - 1], t);
    }
  }

  /** One call of thread 0 that nobody disturbs. */
  lemma FullCall(s: System, clock: int64) returns (acts: seq<Action>)
    requires Ready(s)
    ensures Legal(s, acts) && ClocksTo(acts, clock) && Alone(acts)
    ensures var r := Execute(s, acts); var id := NextId(s, clock);
      && Ready(r) && r.prev == id && r.node == s.node
      && r.history == s.history + CallEvents(s, id)
    ensures Adds(acts) == if Candidate(clock, s.node) > s.prev then 0 else 1
  {
    hide Legal, Execute, SignedWrap;
    acts := [Call(0), ReadClock(0, clock), Load(0), Swap(0)];
    Undisturbed(s, 0, clock);
    NoAdds(acts);
    if Candidate(clock, s.node) <= s.prev {
      Step(s, acts, Add(0));
      acts := acts + [Add(0)];
    }
    Step(s, acts, Return(0));
    acts := acts + [Return(0)];
  }

  /** Calls under a clock that is behind: each adds one time step. */
  lemma {:induction false} Climb(s: System, clock: int64, k: nat) returns (acts: seq<Action>)
    requires Ready(s) && Candidate(clock, s.node) <= s.prev && s.prev + TIME_STEP * k < LIMIT
    ensures Legal(s, acts) && ClocksTo(acts, clock) && Alone(acts) && Adds(acts) == k
    ensures var r := Execute(s, acts);
      Ready(r) && r.node == s.node && r.prev == s.prev + TIME_STEP * k && s.history <= r.history
    decreases k
  {
    hide Legal, Execute, Candidate;
    if k == 0 {
      NothingDone(s);
      acts := [];
      NoAdds(acts);
    } else {
      var first := FullCall(s, clock);
      WrapNotAbove(s.prev + TIME_STEP);
      var more := Climb(Execute(s, first), clock, k - 1);
      Joined(s, first, more);
      acts := first + more;
    }
  }

  // -- A second time the same id -----------------------------------------------------------

  ghost predicate HasEqualIds(h: seq<Event>, id: int64) {
    exists i, j :: 0 <= i < j < |h| && h[i].Returned? && h[j].Returned? && h[i].id == h[j].id == id
  }

  ghost predicate Distinct(h: seq<Event>) {
    forall i, j :: 0 <= i < j < |h| && h[i].Returned? && h[j].Returned? ==> h[i].id != h[j].id
  }

  ghost predicate Ordered(h: seq<Event>) {
    forall i, j, k ::
      0 <= i < j < k < |h| && h[i].Returned? && h[j].Begun? && h[k].Returned? && h[k].who == h[j].who ==>
        h[i].id < h[k].id
  }

  /** How many adds it takes to pass the limit from c. */
  function AddsToLimit(c: int64): (m: nat)
    ensures m >= 1 && c + TIME_STEP * (m - 1) < LIMIT <= c + TIME_STEP * m
  {
    (LIMIT - c + TIME_STEP - 1) / TIME_STEP
  }

  /** The events of a call in a history that has gone on. */
  lemma Shown(h: seq<Event>, s: System, id: int64)
    requires s.history + CallEvents(s, id) <= h
    ensures var n := |s.history|;
      n + 2 < |h| && h[n] == Begun(0) && h[n + 2] == Returned(0, id, n + 1)
  {
    var g := s.history + CallEvents(s, id);
    assert forall i :: 0 <= i < |g| ==> h[i] == g[i];
  }

  lemma NotOrdered(h: seq<Event>, i: nat, j: nat, k: nat)
    requires i < j < k < |h| && h[i].Returned? && h[j].Begun? && h[k].Returned? && h[k].who == h[j].who
    requires h[k].id <= h[i].id
    ensures !Ordered(h)
  {}

  /** The id after the wrap is not above the clock's, which is then taken once more,
      unless the wrapped id is that very one. */
  lemma Wrapped(c: int64, low: int64)
    requires low == c + TIME_STEP * (AddsToLimit(c) - 1)
    ensures SignedWrap(low + TIME_STEP, WORD) <= c <= low
  {
    var x := low + TIME_STEP;
    DivModUnique(0, WORD, x);
    assert SignedWrap(x, WORD) == x - WORD;
  }

  /** Calls of one thread under a clock that stands at hi: the first takes the clock's
      id, the next ones add up to the limit, and the last add wraps around. */
  lemma {:induction false} ToTheWrap(s0: System, hi: int64) returns (acts: seq<Action>, low: System)
    requires Ready(s0) && Candidate(hi, s0.node) > s0.prev
    ensures Legal(s0, acts) && ClocksTo(acts, hi) && Adds(acts) == AddsToLimit(Candidate(hi, s0.node))
    ensures var c := Candidate(hi, s0.node); var r := Execute(s0, acts);
      && Ready(r) && r.node == s0.node && r.prev <= c
      && low.node == s0.node && s0.history + CallEvents(s0, c) <= low.history
      && r.history == low.history + CallEvents(low, r.prev)
  {
    hide Legal, Execute, Candidate, SignedWrap, AddsToLimit, CallEvents;
    var c := Candidate(hi, s0.node);
    var a1 := FullCall(s0, hi);
    var s1 := Execute(s0, a1);
    var a2 := Climb(s1, hi, AddsToLimit(c) - 1);
    low := Execute(s1, a2);
    Wrapped(c, low.prev);
    var a3 := FullCall(low, hi);
    Joined(s0, a1, a2);
    Joined(s0, a1 + a2, a3);
    acts := a1 + a2 + a3;
  }

  /** The wrapped id is out of order, and either it is the clock's id again or the next
      call takes that once more. */
  lemma {:induction false} PastTheLimit(s0: System, hi: int64) returns (acts: seq<Action>)
    requires Ready(s0) && Candidate(hi, s0.node) > s0.prev
    ensures Legal(s0, acts) && ClocksTo(acts, hi) && Adds(acts) == AddsToLimit(Candidate(hi, s0.node))
    ensures var h := Execute(s0, acts).history; HasEqualIds(h, Candidate(hi, s0.node)) && !Ordered(h)
  {
    hide Legal, Execute, Candidate, SignedWrap, AddsToLimit, CallEvents, Ordered;
    var c := Candidate(hi, s0.node);
    var low: System;
    acts, low := ToTheWrap(s0, hi);
    var s := Execute(s0, acts);
    if s.prev < c {
      var more := FullCall(s, hi);
      Joined(s0, acts, more);
      Shown(Execute(s, more).history, s, c);
      acts := acts + more;
    }
    var h := Execute(s0, acts).history;
    Shown(h, s0, c);
    Shown(h, low, s.prev);
    NotOrdered(h, |s0.history| + 2, |low.history|, |low.history| + 2);
  }

  /** So many time steps go once around the word. */
  const CYCLE := 0x10_0000_0000_0000

  /** Where the adds from a start value come out behind 2^63. */
  function Behind(start: int64): (w: int64)
    ensures w == start + TIME_STEP * AddsToLimit(start) - WORD && w < -LIMIT + TIME_STEP
  {
    start + TIME_STEP * AddsToLimit(start) - WORD
  }

  // -- Once around -------------------------------------------------------------------------

  lemma StartsBehind(c: int64)
    ensures SignedWrap(c + TIME_STEP * AddsToLimit(c), WORD) == Behind(c)
  {
    DivModUnique(0, WORD, c + TIME_STEP * AddsToLimit(c));
  }

  lemma OneStep(c: int64)
    ensures AddsToLimit(c) == 1 ==> SignedWrap(c + TIME_STEP, WORD) == Behind(c)
    ensures AddsToLimit(c) > 1 ==> SignedWrap(c + TIME_STEP, WORD) == c + TIME_STEP < LIMIT
  {
    StartsBehind(c);
    if AddsToLimit(c) > 1 {
      WrapNotAbove(c + TIME_STEP);
    }
  }

  /** Calls under a clock that is behind, up to the add that wraps around. The first one
      is shown, and so is the last one if it is another. */
  lemma {:induction false} Around(s: System, clock: int64) returns (acts: seq<Action>, low: System)
    requires Ready(s) && Candidate(clock, s.node) <= s.prev
    ensures Legal(s, acts) && ClocksTo(acts, clock) && Alone(acts) && Adds(acts) == AddsToLimit(s.prev)
    ensures var r := Execute(s, acts); var w := Behind(s.prev);
      && Ready(r) && r.node == s.node && r.prev == w
      && s.history + CallEvents(s, SignedWrap(s.prev + TIME_STEP, WORD)) <= r.history
      && r.history == low.history + CallEvents(low, w)
      && (AddsToLimit(s.prev) > 1 ==> |low.history| >= |s.history| + 3)
  {
    hide Legal, Execute, Candidate, SignedWrap, AddsToLimit, CallEvents, Behind;
    var m := AddsToLimit(s.prev);
    var a1 := FullCall(s, clock);
    OneStep(s.prev);
    low := s;
    acts := a1;
    if m > 1 {
      var s1 := Execute(s, a1);
      var a2 := Climb(s1, clock, m - 2);
      low := Execute(s1, a2);
      StartsBehind(s.prev);
      var a3 := FullCall(low, clock);
      Joined(s, a1, a2);
      Joined(s, a1 + a2, a3);
      acts := a1 + a2 + a3;
    }
  }
}
