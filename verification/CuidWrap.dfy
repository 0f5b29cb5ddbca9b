/**
  What runs keep when the shared word starts ahead of every clock reading: no swap
  succeeds until adds have wrapped the word around once. From then on stores increase
  anew, and while a second wrap is out of reach they stay clear of the first ones.
*/
module CuidWrap {
  import opened Words
  import opened Cuid
  import opened CuidRuns

  // -- The state of one round -----------------------------------------------------------

  ghost predicate ThreadsTo(s: System, c: int) {
    forall t :: t in s.threads ==>
      && (s.threads[t].Timed? ==> s.threads[t].candidate <= c && Carries(s.threads[t].candidate, s.node))
      && (s.threads[t].Loaded? ==> s.threads[t].candidate <= c && Carries(s.threads[t].candidate, s.node))
  }

  /** The stores from place i on, up to place j, have increasing ids from lo to hi. */
  ghost predicate Rising(h: seq<Event>, i: nat, j: nat, lo: int, hi: int)
    requires j <= |h|
  {
    && (forall k :: i <= k < j && h[k].Stored? ==> lo <= h[k].id <= hi)
    && (forall k, l :: i <= k < l < j && h[k].Stored? && h[l].Stored? ==> h[k].id < h[l].id)
  }

  /** All stores up to place j lead away from the start value in time steps. */
  ghost predicate Stepped(h: seq<Event>, j: nat, start: int)
    requires j <= |h|
  {
    forall k :: 0 <= k < j && h[k].Stored? ==> (h[k].id - start) % TIME_STEP == 0
  }

  /** The stores from place i on carry the node, or come from adds alone. */
  ghost predicate Sorted(h: seq<Event>, i: nat, node: nat, top: int) {
    forall k :: i <= k < |h| && h[k].Stored? ==> Carries(h[k].id, node) || h[k].id <= top
  }

  /** The history up to place p is from before the wrap, the rest from after it. */
  ghost predicate OneRound(s: System, start: int64, c: int, p: nat) {
    var m, w := AddsToLimit(start), Behind(start);
    && p <= |s.history| && ThreadsTo(s, c) && Stepped(s.history, p, start)
    && if s.adds < m then
         && p == |s.history| && s.prev == start + TIME_STEP * s.adds
         && Rising(s.history, 0, p, start + 1, s.prev)
       else
         var byAdds := w + TIME_STEP * (s.adds - m);
         && Rising(s.history, 0, p, start + 1, start + TIME_STEP * (m - 1))
         && w <= s.prev <= Max(w, c) + TIME_STEP * (s.adds - m)
         && Rising(s.history, p, |s.history|, w, s.prev)
         && (Carries(s.prev, s.node) || s.prev <= byAdds)
         && Sorted(s.history, p, s.node, byAdds)
  }

  // -- One step --------------------------------------------------------------------------

  lemma ThreadsStep(s: System, a: Action, c: int)
    requires s.node < 0x1000 && Enabled(s, a) && ThreadsTo(s, c)
    requires a.ReadClock? ==> Candidate(a.clock, s.node) <= c
    ensures ThreadsTo(Apply(s, a), c)
  {}

  predicate Stores(s: System, a: Action) {
    a.Add? || (a.Swap? && At(s, a.t).Loaded? && At(s, a.t).candidate > At(s, a.t).seen == s.prev)
  }

  /** Whatever stores nothing leaves word and counter alone. */
  lemma QuietStep(s: System, a: Action)
    requires s.node < 0x1000 && Enabled(s, a) && !Stores(s, a)
    ensures var r := Apply(s, a);
      && r.prev == s.prev && r.adds == s.adds && r.node == s.node
      && (r.history == s.history ||
          (|r.history| == |s.history| + 1 && r.history == s.history + [r.history[|s.history|]] &&
           !r.history[|s.history|].Stored?))
  {}

  lemma StoreStep(s: System, a: Action)
    requires s.node < 0x1000 && Enabled(s, a) && Stores(s, a)
    ensures var r := Apply(s, a);
      && r.history == s.history + [Event.Stored(a.t, r.prev)] && r.node == s.node
      && r.adds == s.adds + (if a.Add? then 1 else 0)
      && r.prev == if a.Add? then SignedWrap(s.prev + TIME_STEP, WORD) else At(s, a.t).candidate
  {}

  lemma RisingQuiet(h: seq<Event>, e: Event, i: nat, lo: int, hi: int)
    requires !e.Stored? && i <= |h| && Rising(h, i, |h|, lo, hi)
    ensures Rising(h + [e], i, |h| + 1, lo, hi)
  {}

  lemma RisingStore(h: seq<Event>, t: nat, id: int64, i: nat, lo: int, hi: int)
    requires i <= |h| && Rising(h, i, |h|, lo, hi) && lo <= id && hi < id
    ensures Rising(h + [Event.Stored(t, id)], i, |h| + 1, lo, id)
  {}

  lemma RisingKept(h: seq<Event>, e: Event, i: nat, j: nat, lo: int, hi: int)
    requires j <= |h| && Rising(h, i, j, lo, hi)
    ensures Rising(h + [e], i, j, lo, hi)
  {}

  lemma SteppedMore(h: seq<Event>, e: Event, j: nat, start: int)
    requires j <= |h| && Stepped(h, j, start)
    ensures Stepped(h + [e], j, start)
    ensures j == |h| && (e.Stored? ==> (e.id - start) % TIME_STEP == 0) ==> Stepped(h + [e], j + 1, start)
  {}

  lemma SortedMore(h: seq<Event>, e: Event, i: nat, node: nat, top: int, more: int)
    requires Sorted(h, i, node, top) && top <= more
    requires e.Stored? ==> Carries(e.id, node) || e.id <= more
    ensures Sorted(h + [e], i, node, more)
  {}

  lemma WholeSteps(k: int)
    ensures (TIME_STEP * k) % TIME_STEP == 0
  {
    DivModUnique(k, TIME_STEP, 0);
  }

  lemma NoWrap(x: int)
    requires -LIMIT <= x < LIMIT
    ensures SignedWrap(x, WORD) == x
  {
    WrapNotAbove(x);
  }

  lemma OneWrap(x: int)
    requires LIMIT <= x < WORD
    ensures SignedWrap(x, WORD) == x - WORD
  {
    DivModUnique(0, WORD, x);
  }

  lemma {:induction false} QuietRound(s: System, a: Action, start: int64, c: int, p: nat) returns (q: nat)
    requires s.node < 0x1000 && Enabled(s, a) && !Stores(s, a) && OneRound(s, start, c, p)
    requires ThreadsTo(Apply(s, a), c)
    ensures OneRound(Apply(s, a), start, c, q)
  {
    hide Apply, Enabled, ThreadsTo, Rising, Stepped, Sorted, AddsToLimit, Stores;
    QuietStep(s, a);
    var h, g, m := s.history, Apply(s, a).history, AddsToLimit(start);
    q := if s.adds < m then |g| else p;
    if g != h {
      var e := g[|h|];
      SteppedMore(h, e, p, start);
      if s.adds < m {
        RisingQuiet(h, e, 0, start + 1, s.prev);
      } else {
        var byAdds := Behind(start) + TIME_STEP * (s.adds - m);
        RisingKept(h, e, 0, p, start + 1, start + TIME_STEP * (m - 1));
        RisingQuiet(h, e, p, Behind(start), s.prev);
        SortedMore(h, e, p, s.node, byAdds, byAdds);
      }
    }
  }

  /** A store before the wrap is an add. */
  lemma {:induction false} EarlyStore(s: System, a: Action, start: int64, c: int, p: nat) returns (q: nat)
    requires s.node < 0x1000 && Enabled(s, a) && Stores(s, a) && OneRound(s, start, c, p)
    requires ThreadsTo(Apply(s, a), c) && c <= start && s.adds < AddsToLimit(start)
    ensures OneRound(Apply(s, a), start, c, q)
  {
    hide Apply, Enabled, Rising, Stepped, Sorted, AddsToLimit;
    StoreStep(s, a);
    var h, r, m := s.history, Apply(s, a), AddsToLimit(start);
    var id := s.prev + TIME_STEP;
    var e := Event.Stored(a.t, r.prev);
    assert a.Add?;
    assert id == start + TIME_STEP * (s.adds + 1);
    SteppedMore(h, e, p, start);
    if s.adds + 1 < m {
      NoWrap(id);
      WholeSteps(s.adds + 1);
      RisingStore(h, a.t, id, 0, start + 1, s.prev);
      q := |h| + 1;
    } else {
      OneWrap(id);
      RisingKept(h, e, 0, p, start + 1, s.prev);
      NothingRising(h, r.prev);
      RisingStore(h, a.t, r.prev, |h|, r.prev, r.prev - 1);
      NothingSorted(h, s.node, r.prev);
      SortedMore(h, e, |h|, s.node, r.prev, r.prev);
      q := |h|;
    }
  }

  lemma NothingRising(h: seq<Event>, w: int)
    ensures Rising(h, |h|, |h|, w, w - 1)
  {}

  lemma NothingSorted(h: seq<Event>, node: nat, top: int)
    ensures Sorted(h, |h|, node, top)
  {}

  /** A store after it is a swap or another add. */
  lemma {:induction false} LateStore(s: System, a: Action, start: int64, c: int, p: nat)
    requires s.node < 0x1000 && Enabled(s, a) && Stores(s, a) && OneRound(s, start, c, p)
    requires ThreadsTo(Apply(s, a), c) && s.adds >= AddsToLimit(start)
    requires a.Add? ==> Max(Behind(start), c) + TIME_STEP * (s.adds + 1 - AddsToLimit(start)) < LIMIT
    ensures OneRound(Apply(s, a), start, c, p)
  {
    hide Apply, Enabled, Rising, Stepped, Sorted, AddsToLimit, Carries;
    StoreStep(s, a);
    var h, r, m, w := s.history, Apply(s, a), AddsToLimit(start), Behind(start);
    var e := Event.Stored(a.t, r.prev);
    var before := w + TIME_STEP * (s.adds - m);
    var byAdds := w + TIME_STEP * (r.adds - m);
    if a.Add? {
      NoWrap(s.prev + TIME_STEP);
      StepUp(s.prev, s.node);
    } else {
      assert a.t in s.threads;
    }
    SteppedMore(h, e, p, start);
    RisingKept(h, e, 0, p, start + 1, start + TIME_STEP * (m - 1));
    RisingStore(h, a.t, r.prev, p, w, s.prev);
    SortedMore(h, e, p, s.node, before, byAdds);
  }

  // -- All runs ----------------------------------------------------------------------------

  lemma ClockOfLast(node: nat, hi: int64, acts: seq<Action>)
    requires node < 0x1000 && acts != [] && ClocksTo(acts, hi)
    ensures ClocksTo(acts[..|acts| - 1], hi)
    ensures var a := acts[|acts| - 1]; a.ReadClock? ==> Candidate(a.clock, node) <= Candidate(hi, node)
  {
    var a := acts[|acts| - 1];
    if a.ReadClock? {
      CandidateMonotone(a.clock, hi, node);
    }
  }

  /** n adds are too few for a second wrap. */
  predicate OneWrapAtMost(start: int64, c: int, n: nat) {
    n > AddsToLimit(start) ==> Max(Behind(start), c) + TIME_STEP * (n - AddsToLimit(start)) < LIMIT
  }

  lemma Started(node: nat, start: int64, c: int)
    ensures OneRound(Init(node, start), start, c, 0)
  {}

  lemma {:induction false} RoundKept(node: nat, start: int64, hi: int64, n: nat, acts: seq<Action>) returns (p: nat)
    requires node < 0x1000 && Legal(Init(node, start), acts) && ClocksTo(acts, hi) && Adds(acts) <= n
    requires Candidate(hi, node) <= start && OneWrapAtMost(start, Candidate(hi, node), n)
    ensures var s := Execute(Init(node, start), acts);
      s.adds == Adds(acts) && OneRound(s, start, Candidate(hi, node), p)
    decreases |acts|
  {
    hide Apply, Enabled, OneRound, Candidate, ClocksTo, AddsToLimit, Stores, ThreadsTo;
    var c := Candidate(hi, node);
    if acts == [] {
      Started(node, start, c);
      p := 0;
    } else {
      var before, a := acts[..|acts| - 1], acts[|acts| - 1];
      var s := Execute(Init(node, start), before);
      ClockOfLast(node, hi, acts);
      var q := RoundKept(node, start, hi, n, before);
      p := RoundStep(s, a, start, c, q, n);
    }
  }

  lemma {:induction false} RoundStep(s: System, a: Action, start: int64, c: int, p: nat, n: nat) returns (q: nat)
    requires s.node < 0x1000 && Enabled(s, a) && OneRound(s, start, c, p) && c <= start
    requires a.ReadClock? ==> Candidate(a.clock, s.node) <= c
    requires OneWrapAtMost(start, c, n) && s.adds + (if a.Add? then 1 else 0) <= n
    ensures OneRound(Apply(s, a), start, c, q)
    ensures Apply(s, a).adds == s.adds + if a.Add? then 1 else 0
  {
    hide Apply, Enabled, Candidate, AddsToLimit, Stores, Rising, Stepped, Sorted;
    ThreadsStep(s, a, c);
    hide ThreadsTo;
    if !Stores(s, a) {
      QuietStep(s, a);
      AddStores(s, a);
      q := QuietRound(s, a, start, c, p);
    } else {
      StoreStep(s, a);
      if s.adds < AddsToLimit(start) {
        q := EarlyStore(s, a, start, c, p);
      } else {
        LateStore(s, a, start, c, p);
        q := p;
      }
    }
  }

  lemma AddStores(s: System, a: Action)
    ensures a.Add? ==> Stores(s, a)
  {}

  // -- What that means for the ids ---------------------------------------------------------

  ghost predicate StoresDiffer(h: seq<Event>) {
    forall i, j :: 0 <= i < j < |h| && h[i].Stored? && h[j].Stored? ==> h[i].id != h[j].id
  }

  lemma DistinctFromStores(s: System)
    requires ResultsFromStores(s) && StoresDiffer(s.history)
    ensures Distinct(s.history)
  {
    var h := s.history;
    forall i, j | 0 <= i < j < |h| && h[i].Returned? && h[j].Returned?
      ensures h[i].id != h[j].id
    {
      assert FromStore(h, h[i].who, h[i].id, h[i].at, i);
      assert FromStore(h, h[j].who, h[j].id, h[j].at, j);
    }
  }

  lemma OrderedFromStores(s: System, lo: int, hi: int)
    requires ResultsFromStores(s) && Rising(s.history, 0, |s.history|, lo, hi)
    ensures Ordered(s.history)
  {
    var h := s.history;
    forall i, j, k | 0 <= i < j < k < |h| && h[i].Returned? && h[j].Begun? && h[k].Returned? && h[k].who == h[j].who
      ensures h[i].id < h[k].id
    {
      assert FromStore(h, h[i].who, h[i].id, h[i].at, i);
      assert FromStore(h, h[k].who, h[k].id, h[k].at, k);
      if h[k].at < j {
        assert false;
      }
    }
  }

  /** An id from before the wrap is a whole number of steps above the start value. */
  lemma StepAbove(id: int, start: int)
    requires id > start && (id - start) % TIME_STEP == 0
    ensures id >= start + TIME_STEP && id % TIME_STEP == start % TIME_STEP
  {
    var k := (id - start) / TIME_STEP;
    assert id - start == TIME_STEP * k && k >= 1;
    assert id == TIME_STEP * (start / TIME_STEP + k) + start % TIME_STEP;
    DivModUnique(start / TIME_STEP + k, TIME_STEP, start % TIME_STEP);
  }

  /** The second round stays clear of the first while it has not come back to the start
      value, or can do so with other low bits only. */
  lemma {:induction false} RoundsApart(s: System, start: int64, c: int, p: nat)
    requires OneRound(s, start, c, p)
    requires s.adds > AddsToLimit(start) ==>
      if Carries(start, s.node) then Max(Behind(start), c) + TIME_STEP * (s.adds - AddsToLimit(start)) <= start
      else s.adds <= CYCLE
    requires s.adds == AddsToLimit(start) ==> Max(Behind(start), c) <= start
    ensures StoresDiffer(s.history)
  {
    hide ThreadsTo, AddsToLimit;
    var h, m := s.history, AddsToLimit(start);
    if s.adds >= m {
      forall i, j | 0 <= i < p <= j < |h| && h[i].Stored? && h[j].Stored?
        ensures h[i].id != h[j].id
      {
        StepAbove(h[i].id, start);
      }
    }
  }
}
