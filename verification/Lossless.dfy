/** Losslessness: a contiguous range comes through whole however it is striped, and a gap that
    is repaired in time costs nothing. */
module Lossless {
  import opened SeqNum
  import opened Reassembly
  import opened ReassemblyRuns
  import opened ReassemblyGuarantees

  ghost function NumberOf<T>(e: Event<T>): set<int> {
    if e.Arrive? then {e.n} else {}
  }

  ghost function Numbers<T>(evs: seq<Event<T>>): set<int> {
    if evs == [] then {} else NumberOf(evs[0]) + Numbers(evs[1..])
  }

  /** No tick of the run finds the present gap old enough to give up on. */
  ghost predicate NoTimeout<T>(c: Config, r: Rx<T>, evs: seq<Event<T>>)
    requires c.Valid() && Inv(c, r)
    decreases |evs|
  {
    evs != [] ==>
      && !(evs[0].Tick? && SkipDue(c, r, evs[0].now))
      && NoTimeout(c, Step(c, r, evs[0]), evs[1..])
  }

  /** The arrival finds the buffer full, so that its gap is stepped over at once. */
  ghost predicate Overflows<T>(c: Config, r: Rx<T>, e: Event<T>) {
    r.started && e.Arrive? && r.next < e.n && e.n !in r.pend && |r.pend| == c.maxPend
  }

  ghost predicate NoOverflow<T>(c: Config, r: Rx<T>, evs: seq<Event<T>>)
    requires c.Valid() && Inv(c, r)
    decreases |evs|
  {
    evs != [] ==> !Overflows(c, r, evs[0]) && NoOverflow(c, Step(c, r, evs[0]), evs[1..])
  }

  /** When the start is chosen, `a` has arrived (or was in `seen`). */
  ghost predicate StartKnows<T>(c: Config, r: Rx<T>, seen: set<int>, a: int, evs: seq<Event<T>>)
    requires c.Valid() && Inv(c, r)
    decreases |evs|
  {
    evs != [] ==>
      var q := Step(c, r, evs[0]);
      var now := seen + NumberOf(evs[0]);
      (!r.started && q.started ==> a in now) && StartKnows(c, q, now, a, evs[1..])
  }

  /** No arrival of the run reaches `b`, nor, while no start is chosen, falls below `a`. */
  ghost predicate Within<T>(evs: seq<Event<T>>, a: int, b: int, started: bool) {
    forall e :: e in evs && e.Arrive? ==> e.n < b && (started || a <= e.n)
  }

  /** The stretch of numbers from `a` up to `b` that is to come through, in an epoch that starts
      at `start` and has lost `lost` before. */
  datatype Stretch = Stretch(start: int, lost: set<int>, a: int, b: int)

  /** Nothing of `seen` is missing: it waits, or everything up to it has gone out. */
  ghost predicate Whole<T>(r: Rx<T>, seen: set<int>, g: Stretch) {
    && r.lost == g.lost && (forall k :: k in seen ==> k < g.b)
    && (forall k :: k in r.pend ==> k in seen && g.a <= k)
    && (forall k :: k in seen && k !in r.pend ==> r.started && k < r.next)
    && (r.started ==> r.start == g.start && g.a <= r.next && (r.next == g.a || r.next - 1 in seen))
    && (!r.started ==> g.start == g.a && g.lost == {})
  }

  lemma DrainWhole<T>(r: Rx<T>, clock: Instant, seen: set<int>, g: Stretch)
    requires Ready(r) && r.started && r.start == g.start && g.a <= r.next && r.lost == g.lost
    requires forall k :: k in seen ==> k < g.b
    requires forall k :: k in r.pend ==> k in seen
    requires forall k :: k in seen && k !in r.pend ==> k < r.next
    requires r.next == g.a || r.next - 1 in seen || r.next in r.pend
    ensures Whole(Drain(r, clock), seen, g)
  {
    DrainRun(r, clock);
    var q := Drain(r, clock);
    if r.next < q.next {
      assert q.next - 1 in r.pend;
    }
  }

  lemma LatchWhole<T>(r: Rx<T>, now: Instant, clock: Instant, seen: set<int>, g: Stretch)
    requires !r.started && r.pend != map[] && r.maxSeen in r.pend && forall k :: k in r.pend ==> k <= r.maxSeen
    requires Whole(r, seen, g) && g.a in seen
    ensures Whole(Latch(r, now, clock), seen, g)
  {
    var lowest := Least(r.pend.Keys);
    assert g.a in r.pend;
    DrainWhole(r.(started := true, next := lowest, start := lowest, blockedSince := now), clock, seen, g);
  }

  lemma LatchStarts<T>(r: Rx<T>, now: Instant, clock: Instant)
    requires r.pend != map[] && r.maxSeen in r.pend && forall k :: k in r.pend ==> k <= r.maxSeen
    ensures Latch(r, now, clock).started && Latch(r, now, clock).start == Least(r.pend.Keys)
  {
    var lowest := Least(r.pend.Keys);
    DrainRun(r.(started := true, next := lowest, start := lowest, blockedSince := now), clock);
  }

  lemma PushWhole<T>(c: Config, r: Rx<T>, n: int, v: T, now: Instant, clock: Instant, seen: set<int>, all: set<int>, g: Stretch)
    requires c.Valid() && Inv(c, r) && n < g.b && (r.started || g.a <= n)
    requires g.b - g.a <= c.maxPend || !Overflows(c, r, Arrive(n, v, now, clock))
    requires Whole(r, seen, g) && forall k :: k in all <==> k in seen || k == n
    requires !r.started && Push(c, r, n, v, now, clock).started ==> g.a in all
    ensures Whole(Push(c, r, n, v, now, clock), all, g)
  {
    var s := NoteSeen(r, n, now);
    NotedWhole(c, r, n, now, seen, g);
    hide Whole, Drain, PushAhead, PushSettling, NoteSeen, Inv;
    if s.started && n == s.next {
      PassWhole(s, n, v, clock, seen, all, g);
    } else if (s.started && n < s.next) || n in s.pend {
      AlreadyWhole(s, n, seen, all, g);
    } else {
      HoldWhole(c, s, n, v, now, clock, seen, all, g);
    }
  }

  lemma NotedWhole<T>(c: Config, r: Rx<T>, n: int, now: Instant, seen: set<int>, g: Stretch)
    requires Inv(c, r) && Whole(r, seen, g)
    ensures var s := NoteSeen(r, n, now);
      && Whole(s, seen, g) && s.started == r.started && s.next == r.next && s.pend == r.pend && |s.pend| <= c.maxPend
      && (r.started ==> g.a <= s.next && forall k :: k in s.pend ==> s.next < k)
      && n <= s.maxSeen && (n == s.maxSeen || s.maxSeen in s.pend || (r.started && n < r.next))
      && forall k :: k in s.pend ==> k <= s.maxSeen
  {
  }

  lemma PassWhole<T>(s: Rx<T>, n: int, v: T, clock: Instant, seen: set<int>, all: set<int>, g: Stretch)
    requires s.started && s.next == n < g.b && Whole(s, seen, g) && forall k :: k in all <==> k in seen || k == n
    requires (forall k :: k in s.pend ==> n < k <= s.maxSeen) && (s.maxSeen == n || s.maxSeen in s.pend)
    ensures Whole(Drain(s.(next := n + 1, stats := Delivering(s.stats, 1), output := s.output + [v]), clock), all, g)
  {
    DrainWhole(s.(next := n + 1, stats := Delivering(s.stats, 1), output := s.output + [v]), clock, all, g);
  }

  lemma AlreadyWhole<T>(s: Rx<T>, n: int, seen: set<int>, all: set<int>, g: Stretch)
    requires n < g.b && Whole(s, seen, g) && (n in s.pend || (s.started && n < s.next))
    requires forall k :: k in all <==> k in seen || k == n
    ensures Whole(s, all, g)
  {
  }

  lemma HoldWhole<T>(c: Config, s: Rx<T>, n: int, v: T, now: Instant, clock: Instant, seen: set<int>, all: set<int>, g: Stretch)
    requires g.a <= n < g.b && n !in s.pend && Whole(s, seen, g)
    requires g.b - g.a <= c.maxPend || !s.started || |s.pend| < c.maxPend
    requires forall k :: k in all <==> k in seen || k == n
    requires if s.started then s.next < n && forall k :: k in s.pend ==> s.next < k
      else n <= s.maxSeen && (n == s.maxSeen || s.maxSeen in s.pend) && forall k :: k in s.pend ==> k <= s.maxSeen
    requires !s.started && PushSettling(c, s, n, v, now, clock).started ==> g.a in all
    ensures Whole(if s.started then PushAhead(c, s, n, v, now, clock) else PushSettling(c, s, n, v, now, clock), all, g)
  {
    var h := Hold(s, n, v, now);
    HeldWhole(s, n, v, now, seen, all, g);
    FitsInRange(h.pend.Keys, g.a, g.b);
    if !s.started && !(now - h.firstSeen < c.settle && |h.pend| <= c.maxPend) {
      LatchStarts(h, now, clock);
      LatchWhole(h, now, clock, all, g);
    }
    hide Whole, Hold, Latch;
  }

  lemma HeldWhole<T>(s: Rx<T>, n: int, v: T, now: Instant, seen: set<int>, all: set<int>, g: Stretch)
    requires g.a <= n < g.b && n !in s.pend && Whole(s, seen, g)
    requires forall k :: k in all <==> k in seen || k == n
    ensures var h := Hold(s, n, v, now);
      && Whole(h, all, g) && h.started == s.started && |h.pend| == |s.pend| + 1
      && n in h.pend && h.maxSeen == s.maxSeen && h.next == s.next && h.firstSeen == s.firstSeen
      && forall k :: k in h.pend <==> k in s.pend || k == n
  {
  }

  lemma FitsInRange(s: set<int>, a: int, b: int)
    requires forall k :: k in s ==> a <= k < b
    ensures a < b ==> |s| <= b - a
  {
    assert Range(a, b) * s == s;
    assert |Range(a, b) - s| == |Range(a, b)| - |s|;
  }

  lemma TickWhole<T>(c: Config, r: Rx<T>, now: Instant, clock: Instant, seen: set<int>, g: Stretch)
    requires c.Valid() && Inv(c, r) && Whole(r, seen, g) && !SkipDue(c, r, now)
    requires !r.started && TickStep(c, r, now, clock).started ==> g.a in seen
    ensures Whole(TickStep(c, r, now, clock), seen, g)
  {
    if !r.started && r.pend != map[] && now - r.firstSeen >= c.settle {
      LatchStarts(r, now, clock);
      LatchWhole(r, now, clock, seen, g);
    }
  }

  lemma StepWhole<T>(c: Config, r: Rx<T>, e: Event<T>, seen: set<int>, all: set<int>, g: Stretch)
    requires c.Valid() && Inv(c, r) && e != Handshake && (g.b - g.a <= c.maxPend || !Overflows(c, r, e))
    requires Whole(r, seen, g) && all == seen + NumberOf(e)
    requires e.Arrive? ==> e.n < g.b && (r.started || g.a <= e.n)
    requires e.Tick? ==> !SkipDue(c, r, e.now)
    requires !r.started && Step(c, r, e).started ==> g.a in all
    ensures Whole(Step(c, r, e), all, g) && (r.started ==> Step(c, r, e).started)
  {
    if r.started {
      StepForward(c, r, e);
    }
    match e
    case Arrive(n, v, now, clock) => PushWhole(c, r, n, v, now, clock, seen, all, g);
    case Tick(now, clock) =>
      assert all == seen;
      TickWhole(c, r, now, clock, seen, g);
  }

  lemma {:induction false} RunWhole<T>(c: Config, r: Rx<T>, evs: seq<Event<T>>, seen: set<int>, g: Stretch, started: bool)
    requires c.Valid() && Inv(c, r) && OneEpoch(evs) && (g.b - g.a <= c.maxPend || NoOverflow(c, r, evs))
    requires NoTimeout(c, r, evs) && StartKnows(c, r, seen, g.a, evs)
    requires Whole(r, seen, g) && Within(evs, g.a, g.b, started) && (started ==> r.started)
    ensures Whole(Run(c, r, evs), seen + Numbers(evs), g)
    decreases |evs|
  {
    if evs == [] {
      assert seen + Numbers(evs) == seen;
    } else {
      var q, all := Step(c, r, evs[0]), seen + NumberOf(evs[0]);
      assert evs[0] in evs;
      StepWhole(c, r, evs[0], seen, all, g);
      RunWhole(c, q, evs[1..], all, g, started);
      assert all + Numbers(evs[1..]) == seen + Numbers(evs);
    }
  }

  lemma WholeAtTheEnd<T>(c: Config, q: Rx<T>, seen: set<int>, g: Stretch)
    requires Inv(c, q) && q.started && g.a < g.b && Whole(q, seen, g) && Range(g.a, g.b) <= seen
    ensures q.pend == map[] && q.next == g.b
  {
    assert q.next !in q.pend && q.next !in seen;
    assert q.next !in Range(g.a, g.b);
  }

  lemma {:induction false} NumbersWithin<T>(evs: seq<Event<T>>, a: int, b: int)
    requires Numbers(evs) <= Range(a, b)
    ensures Within(evs, a, b, false)
  {
    if evs != [] {
      assert NumberOf(evs[0]) <= Range(a, b);
      NumbersWithin(evs[1..], a, b);
      assert evs[0].Arrive? ==> evs[0].n in NumberOf(evs[0]);
      assert forall e :: e in evs ==> e == evs[0] || e in evs[1..];
    }
  }

  /** However a contiguous range is striped, reordered and duplicated, the epoch delivers exactly
      that range in order, holds nothing back and acknowledges its top, as long as no gap times out
      or overflows the buffer; a range no longer than the buffer never does. */
  lemma StripingIsLossless<T(!new)>(c: Config, r: Rx<T>, evs: seq<Event<T>>, a: int, b: int, f: int -> T)
    requires c.Valid() && Inv(c, r) && !r.started && r.pend == map[]
    requires OneEpoch(evs) && Carries(evs, f)
    requires a < b && (b - a <= c.maxPend || NoOverflow(c, r, evs)) && Numbers(evs) == Range(a, b)
    requires NoTimeout(c, r, evs) && StartKnows(c, r, {}, a, evs)
    requires Run(c, r, evs).started
    ensures var q := Run(c, r, evs);
      && q.output == Expected(f, a, b, {}) && q.pend == map[]
      && q.next - 1 == b - 1 && q.lost == {} && q.stats.skipped == r.stats.skipped
  {
    var g := Stretch(a, {}, a, b);
    NumbersWithin(evs, a, b);
    RunWhole(c, r, evs, {}, g, false);
    WholeAtTheEnd(c, Run(c, r, evs), {} + Numbers(evs), g);
    OutputIsExact(c, r, evs, f);
    CountersFollowHistory(c, r, evs);
  }

  lemma {:induction false} StartedKnows<T>(c: Config, r: Rx<T>, seen: set<int>, a: int, evs: seq<Event<T>>)
    requires c.Valid() && Inv(c, r) && r.started && OneEpoch(evs)
    ensures StartKnows(c, r, seen, a, evs)
    decreases |evs|
  {
    if evs != [] {
      StepForward(c, r, evs[0]);
      StartedKnows(c, Step(c, r, evs[0]), seen + NumberOf(evs[0]), a, evs[1..]);
    }
  }

  /** A gap whose missing numbers all arrive before it times out, in any order, any number of
      times and among any other arrivals below `b`, closes completely and costs nothing, if it does
      not overflow the buffer; and if nothing newer arrives, nothing is left waiting. */
  lemma RepairClosesGap<T>(c: Config, r: Rx<T>, evs: seq<Event<T>>, b: int)
    requires c.Valid() && Inv(c, r) && r.started && r.pend != map[]
    requires OneEpoch(evs) && NoTimeout(c, r, evs)
    requires b - r.next <= c.maxPend || NoOverflow(c, r, evs)
    requires r.maxSeen < b && Within(evs, r.next, b, true)
    requires forall k :: r.next <= k <= r.maxSeen && k !in r.pend ==> k in Numbers(evs)
    ensures var q := Run(c, r, evs);
      && q.lost == r.lost && r.maxSeen < q.next
      && (b == r.maxSeen + 1 ==> q.pend == map[] && q.next == b)
  {
    var g := Stretch(r.start, r.lost, r.next, b);
    var seen := r.pend.Keys;
    StartedKnows(c, r, seen, r.next, evs);
    RunWhole(c, r, evs, seen, g, true);
    RunForward(c, r, evs);
    var q := Run(c, r, evs);
    assert q.next !in q.pend && q.next !in seen + Numbers(evs);
    if b == r.maxSeen + 1 {
      WholeAtTheEnd(c, q, seen + Numbers(evs), g);
    }
  }

  /** A run that is over within `skipAfter` of its beginning has no timeout. */
  lemma {:induction false} ShortRunsDoNotTimeOut<T>(c: Config, r: Rx<T>, evs: seq<Event<T>>, t: Instant)
    requires c.Valid() && Inv(c, r) && OneEpoch(evs) && (r.blockedSince == 0 || t <= r.blockedSince)
    requires forall e :: e in evs ==> t <= e.now < t + c.skipAfter && t <= e.clock
    ensures NoTimeout(c, r, evs)
    decreases |evs|
  {
    if evs != [] {
      var q := Step(c, r, evs[0]);
      assert evs[0] in evs;
      StepBlockedSince(c, r, evs[0]);
      ShortRunsDoNotTimeOut(c, q, evs[1..], t);
    }
  }
}
