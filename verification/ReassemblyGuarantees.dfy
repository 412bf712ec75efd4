/** What the reassembler promises over whole runs: conservation, exact and spaced requests,
    bounded stalls, and losslessness however the packets are striped. */
module ReassemblyGuarantees {
  import opened SeqNum
  import opened Reassembly
  import opened ReassemblyRuns

  // ---------------------------------------------------------------- conservation

  /** Packets the reassembler has accounted for or still holds. */
  ghost function Handled<T>(r: Rx<T>): int {
    r.stats.delivered + r.stats.duplicated + r.stats.late + |r.pend|
  }

  /** The counters move with the history, and no packet appears or vanishes. */
  ghost predicate SameLedger<T>(r: Rx<T>, q: Rx<T>) {
    && q.stats.delivered - r.stats.delivered == |q.output| - |r.output|
    && q.stats.skipped - r.stats.skipped == |q.lost| - |r.lost|
    && Handled(q) == Handled(r)
  }

  lemma DrainLedger<T>(r: Rx<T>, clock: Instant)
    requires Ready(r)
    ensures SameLedger(r, Drain(r, clock))
  {
    DrainRun(r, clock);
  }

  lemma SkipLedger<T>(r: Rx<T>, now: Instant, clock: Instant)
    requires r.started && r.pend != map[] && Ordered(r) && forall k :: k in r.lost ==> k < r.next
    ensures r.next < Least(r.pend.Keys) && SameLedger(r, SkipToLowest(r, now, clock))
  {
    var lowest := Least(r.pend.Keys);
    assert r.lost !! Range(r.next, lowest);
    DrainLedger(StepOver(r, lowest, now), clock);
  }

  lemma LatchLedger<T>(r: Rx<T>, now: Instant, clock: Instant)
    requires r.pend != map[] && r.maxSeen in r.pend && forall k :: k in r.pend ==> k <= r.maxSeen
    ensures SameLedger(r, Latch(r, now, clock))
  {
    var lowest := Least(r.pend.Keys);
    DrainLedger(r.(started := true, next := lowest, start := lowest, blockedSince := now), clock);
  }

  /** As above, with one packet more accounted for. */
  ghost predicate OneMore<T>(r: Rx<T>, q: Rx<T>) {
    && q.stats.delivered - r.stats.delivered == |q.output| - |r.output|
    && q.stats.skipped - r.stats.skipped == |q.lost| - |r.lost|
    && Handled(q) == Handled(r) + 1
  }

  lemma PushLedger<T>(c: Config, r: Rx<T>, n: int, v: T, now: Instant, clock: Instant)
    requires c.Valid() && Inv(c, r)
    ensures OneMore(r, Push(c, r, n, v, now, clock))
  {
    var s := NoteSeen(r, n, now);
    assert SameLedger(r, s);
    if s.started && n == s.next {
      PassLedger(s, n, v, clock);
    } else if n !in s.pend && !(s.started && n < s.next) {
      HoldLedger(s, n, v, now);
      if s.started {
        AheadLedger(c, s, n, v, now, clock);
      } else {
        SettlingLedger(c, s, n, v, now, clock);
      }
    }
  }

  lemma PassLedger<T>(s: Rx<T>, n: int, v: T, clock: Instant)
    requires s.started && n == s.next
    requires (forall k :: k in s.pend ==> n < k <= s.maxSeen) && (s.maxSeen == n || s.maxSeen in s.pend)
    ensures OneMore(s, Passed(s, n, v, clock))
  {
    DrainLedger(s.(next := n + 1, stats := Delivering(s.stats, 1), output := s.output + [v]), clock);
  }

  lemma HoldLedger<T>(s: Rx<T>, n: int, v: T, now: Instant)
    requires n !in s.pend
    ensures OneMore(s, Hold(s, n, v, now)) && n in Hold(s, n, v, now).pend
  {
    assert |Hold(s, n, v, now).pend| == |s.pend| + 1;
  }

  lemma AheadLedger<T>(c: Config, s: Rx<T>, n: int, v: T, now: Instant, clock: Instant)
    requires s.started && s.next < n <= s.maxSeen && n !in s.pend && (n == s.maxSeen || s.maxSeen in s.pend)
    requires (forall k :: k in s.pend ==> s.next < k <= s.maxSeen) && forall k :: k in s.lost ==> k < s.next
    ensures OneMore(s, PushAhead(c, s, n, v, now, clock))
  {
    HoldForward(s, n, v, now);
    HoldLedger(s, n, v, now);
    hide Hold, Forward, Ordered, OneMore, SameLedger, SkipToLowest;
    if |Hold(s, n, v, now).pend| > c.maxPend {
      SkipLedger(Hold(s, n, v, now), now, clock);
      OneMoreThen(s, Hold(s, n, v, now), SkipToLowest(Hold(s, n, v, now), now, clock));
    }
  }

  lemma OneMoreThen<T>(r: Rx<T>, h: Rx<T>, q: Rx<T>)
    requires OneMore(r, h) && SameLedger(h, q)
    ensures OneMore(r, q)
  {
  }

  lemma SettlingLedger<T>(c: Config, s: Rx<T>, n: int, v: T, now: Instant, clock: Instant)
    requires !s.started && n !in s.pend && n <= s.maxSeen && (n == s.maxSeen || s.maxSeen in s.pend)
    requires forall k :: k in s.pend ==> k <= s.maxSeen
    ensures OneMore(s, PushSettling(c, s, n, v, now, clock))
  {
    var h := Hold(s, n, v, now);
    HoldLedger(s, n, v, now);
    if !(now - h.firstSeen < c.settle && |h.pend| <= c.maxPend) {
      LatchLedger(h, now, clock);
    }
  }

  lemma TickLedger<T>(c: Config, r: Rx<T>, now: Instant, clock: Instant)
    requires Inv(c, r)
    ensures SameLedger(r, TickStep(c, r, now, clock))
  {
    var a := Ask(c, r, now, SEQ_LIST_MAX);
    if a.started && SkipDue(c, a, now) {
      SkipLedger(a, now, clock);
    } else if !a.started && a.pend != map[] && now - a.firstSeen >= c.settle {
      LatchLedger(a, now, clock);
    }
  }

  ghost function Arrivals<T>(evs: seq<Event<T>>): nat {
    if evs == [] then 0 else Arrivals(evs[1..]) + if evs[0].Arrive? then 1 else 0
  }

  /** Packets thrown away by the resets of a run. */
  ghost function Discarded<T>(c: Config, r: Rx<T>, evs: seq<Event<T>>): nat
    requires c.Valid() && Inv(c, r)
    decreases |evs|
  {
    if evs == [] then 0
    else Discarded(c, Step(c, r, evs[0]), evs[1..]) + if evs[0].Handshake? then |r.pend| else 0
  }

  /** Over any run, resets included, every packet offered was delivered, was a duplicate, was
      late, is still pending, or was held at a reset. */
  lemma {:induction false} PacketsConserved<T>(c: Config, r: Rx<T>, evs: seq<Event<T>>)
    requires c.Valid() && Inv(c, r)
    ensures Handled(Run(c, r, evs)) + Discarded(c, r, evs) == Handled(r) + Arrivals(evs)
    decreases |evs|
  {
    if evs != [] {
      match evs[0] {
        case Arrive(n, v, now, clock) => PushLedger(c, r, n, v, now, clock);
        case Tick(now, clock) => TickLedger(c, r, now, clock);
        case Handshake =>
      }
      PacketsConserved(c, Step(c, r, evs[0]), evs[1..]);
    }
  }

  lemma {:induction false} CountersFollowHistory<T>(c: Config, r: Rx<T>, evs: seq<Event<T>>)
    requires c.Valid() && Inv(c, r) && OneEpoch(evs)
    ensures var q := Run(c, r, evs);
      && q.stats.delivered - r.stats.delivered == |q.output| - |r.output|
      && q.stats.skipped - r.stats.skipped == |q.lost| - |r.lost|
    decreases |evs|
  {
    if evs != [] {
      match evs[0] {
        case Arrive(n, v, now, clock) => PushLedger(c, r, n, v, now, clock);
        case Tick(now, clock) => TickLedger(c, r, now, clock);
      }
      CountersFollowHistory(c, Step(c, r, evs[0]), evs[1..]);
    }
  }

  /** Since the start was chosen, `next` has moved by exactly what was delivered plus what was skipped. */
  lemma NumbersConserved<T>(c: Config, r: Rx<T>, evs: seq<Event<T>>)
    requires c.Valid() && Inv(c, r) && !r.started && OneEpoch(evs)
    ensures var q := Run(c, r, evs);
      q.started ==> q.next - q.start == (q.stats.delivered - r.stats.delivered) + (q.stats.skipped - r.stats.skipped)
  {
    CountersFollowHistory(c, r, evs);
  }

  // ---------------------------------------------------------------- requests

  /** `g` is the first `limit` of the absent numbers from `s` to `top`, in increasing order. */
  ghost predicate FirstAbsent<T>(pend: map<int, T>, s: int, top: int, limit: int, g: seq<int>) {
    && (forall i :: 0 <= i < |g| ==> s <= g[i] <= top && g[i] !in pend)
    && (forall i, j :: 0 <= i < j < |g| ==> g[i] < g[j])
    && |g| <= limit
    && (forall k :: s <= k <= top && k !in pend && k !in g ==> |g| == limit && (g == [] || g[|g| - 1] < k))
  }

  lemma {:induction false} GapsAreFirstAbsent<T>(pend: map<int, T>, s: int, top: int, limit: nat)
    ensures FirstAbsent(pend, s, top, limit, Gaps(pend, s, top, limit))
    decreases top - s
  {
    if s <= top && limit > 0 {
      if s in pend {
        GapsAreFirstAbsent(pend, s + 1, top, limit);
      } else {
        GapsAreFirstAbsent(pend, s + 1, top, limit - 1);
        FirstAbsentCons(pend, s, top, limit, Gaps(pend, s + 1, top, limit - 1));
      }
    }
  }

  lemma FirstAbsentCons<T>(pend: map<int, T>, s: int, top: int, limit: nat, rest: seq<int>)
    requires s <= top && s !in pend && limit > 0 && FirstAbsent(pend, s + 1, top, limit - 1, rest)
    ensures FirstAbsent(pend, s, top, limit, [s] + rest)
  {
    var g := [s] + rest;
    assert g[0] == s && forall k :: k in rest ==> k in g;
    assert rest != [] ==> g[|g| - 1] == rest[|rest| - 1];
  }

  /** When a request is due it names exactly the first `limit` missing numbers, `next` first. */
  lemma RequestIsExact<T>(c: Config, r: Rx<T>, now: Instant, limit: int)
    requires Inv(c, r) && 0 < limit
    ensures var g := AskList(c, r, now, limit);
      && (g != [] <==> AskDue(c, r, now))
      && (g != [] ==> g[0] == r.next && FirstAbsent(r.pend, r.next, r.maxSeen, limit, g))
      && (g != [] ==> r.maxSeen in r.pend && forall k :: k in r.pend ==> k <= r.maxSeen)
  {
    GapsAreFirstAbsent(r.pend, r.next, r.maxSeen, limit);
  }

  /** Two requests of one epoch are at least `retransmitAfter` apart, whatever happens between. */
  lemma {:induction false} RequestsAreSpaced<T>(c: Config, r: Rx<T>, evs: seq<Event<T>>, now: Instant)
    requires c.Valid() && Inv(c, r) && OneEpoch(evs) && r.started && r.lastRequest != 0
    ensures var q := Run(c, r, evs);
      && r.lastRequest <= q.lastRequest
      && (AskDue(c, q, now) ==> now - r.lastRequest >= c.retransmitAfter)
    decreases |evs|
  {
    if evs != [] {
      StepForward(c, r, evs[0]);
      StepKeepsRequest(c, r, evs[0]);
      RequestsAreSpaced(c, Step(c, r, evs[0]), evs[1..], now);
    }
  }

  lemma StepKeepsRequest<T>(c: Config, r: Rx<T>, e: Event<T>)
    requires c.Valid() && Inv(c, r) && e != Handshake && r.started
    ensures Step(c, r, e).lastRequest == if e.Tick? && AskDue(c, r, e.now) then e.now else r.lastRequest
  {
    match e
    case Arrive(n, v, now, clock) => PushSets(c, r, n, v, now, clock);
    case Tick(now, clock) => TickSets(c, r, now, clock);
  }

  // ---------------------------------------------------------------- bounded stall

  /** How many ticks of the run give up on a gap. */
  ghost function GiveUps<T>(c: Config, r: Rx<T>, evs: seq<Event<T>>): nat
    requires c.Valid() && Inv(c, r)
    decreases |evs|
  {
    if evs == [] then 0
    else GiveUps(c, Step(c, r, evs[0]), evs[1..]) + if evs[0].Tick? && SkipDue(c, r, evs[0].now) then 1 else 0
  }

  lemma {:induction false} GiveUpsAdvance<T>(c: Config, r: Rx<T>, evs: seq<Event<T>>)
    requires c.Valid() && Inv(c, r) && OneEpoch(evs) && r.started
    ensures Run(c, r, evs).next >= r.next + 2 * GiveUps(c, r, evs)
    decreases |evs|
  {
    if evs != [] {
      StepForward(c, r, evs[0]);
      if evs[0].Tick? && SkipDue(c, r, evs[0].now) {
        SkipForward(Ask(c, r, evs[0].now, SEQ_LIST_MAX), evs[0].now, evs[0].clock);
      }
      GiveUpsAdvance(c, Step(c, r, evs[0]), evs[1..]);
    }
  }

  /** A pending packet is delivered, never given up, and at the latest after half as many
      give-ups as there are numbers between `next` and it, whatever else arrives meanwhile. */
  lemma StallIsBounded<T>(c: Config, r: Rx<T>, evs: seq<Event<T>>, p: int)
    requires c.Valid() && Inv(c, r) && OneEpoch(evs) && r.started && p in r.pend
    ensures var q := Run(c, r, evs);
      && (p in q.pend ==> 2 * GiveUps(c, r, evs) < p - r.next)
      && (p !in q.pend ==> q.start <= p < q.next && p !in q.lost)
  {
    RunForward(c, r, evs);
    GiveUpsAdvance(c, r, evs);
  }

  // ---------------------------------------------------------------- a gap's time

  /** As long as `next` stays, so does the gap's clock, whatever arrives ahead of it or again. */
  lemma StepKeepsGapClock<T>(c: Config, r: Rx<T>, e: Event<T>)
    requires c.Valid() && Inv(c, r) && r.started && r.pend != map[] && e != Handshake
    ensures var q := Step(c, r, e);
      q.next == r.next ==> q.blockedSince == r.blockedSince && q.pend != map[]
  {
    match e
    case Arrive(n, v, now, clock) =>
      var s := NoteSeen(r, n, now);
      if n == s.next {
        PassMoves(s, n, v, clock);
      } else if n > s.next {
        AheadKeepsGapClock(c, s, n, v, now, clock);
      }
    case Tick(now, clock) =>
      var a := Ask(c, r, now, SEQ_LIST_MAX);
      if SkipDue(c, a, now) {
        SkipForward(a, now, clock);
      }
  }

  lemma PassMoves<T>(s: Rx<T>, n: int, v: T, clock: Instant)
    requires s.started && n == s.next && forall k :: k in s.lost ==> k < n
    requires (forall k :: k in s.pend ==> n < k <= s.maxSeen) && (s.maxSeen == n || s.maxSeen in s.pend)
    ensures s.next < Passed(s, n, v, clock).next
  {
    DrainRun(s.(next := n + 1, stats := Delivering(s.stats, 1), output := s.output + [v]), clock);
  }

  lemma AheadKeepsGapClock<T>(c: Config, s: Rx<T>, n: int, v: T, now: Instant, clock: Instant)
    requires s.started && s.pend != map[] && s.blockedSince != 0
    requires s.next < n <= s.maxSeen && (n == s.maxSeen || s.maxSeen in s.pend)
    requires (forall k :: k in s.pend ==> s.next < k <= s.maxSeen) && forall k :: k in s.lost ==> k < s.next
    ensures var q := PushAhead(c, s, n, v, now, clock);
      q.next == s.next ==> q.blockedSince == s.blockedSince && q.pend != map[]
  {
    if n !in s.pend {
      HoldForward(s, n, v, now);
      var h := Hold(s, n, v, now);
      if |h.pend| > c.maxPend {
        hide Hold;
        SkipForward(h, now, clock);
      }
    }
  }

  lemma {:induction false} RunKeepsGapClock<T>(c: Config, r: Rx<T>, evs: seq<Event<T>>)
    requires c.Valid() && Inv(c, r) && r.started && r.pend != map[] && OneEpoch(evs)
    ensures var q := Run(c, r, evs);
      q.next == r.next ==> q.blockedSince == r.blockedSince && q.pend != map[]
    decreases |evs|
  {
    if evs != [] {
      var t := Step(c, r, evs[0]);
      StepForward(c, r, evs[0]);
      StepKeepsGapClock(c, r, evs[0]);
      RunForward(c, t, evs[1..]);
      if t.next == r.next {
        RunKeepsGapClock(c, t, evs[1..]);
      }
    }
  }

  /** A gap is given up in time and not before: whatever has come meanwhile, a tick at `skipAfter` or
      more from the moment it began to block finds it repaired or ends it, and an earlier tick
      leaves it, and all numbers, alone. */
  lemma GapsEndInTime<T>(c: Config, r: Rx<T>, evs: seq<Event<T>>, now: Instant, clock: Instant)
    requires c.Valid() && Inv(c, r) && r.started && r.pend != map[] && OneEpoch(evs)
    ensures var before, after := Run(c, r, evs), TickStep(c, Run(c, r, evs), now, clock);
      && (now - r.blockedSince >= c.skipAfter ==> r.next < after.next)
      && (before.next == r.next && now - r.blockedSince < c.skipAfter ==> after.next == r.next && after.lost == before.lost)
  {
    var q := Run(c, r, evs);
    RunKeepsGapClock(c, r, evs);
    RunForward(c, r, evs);
    var a := Ask(c, q, now, SEQ_LIST_MAX);
    hide Run, Forward;
    if SkipDue(c, a, now) {
      SkipMoves(c, a, now, clock);
    }
  }

  lemma SkipMoves<T>(c: Config, a: Rx<T>, now: Instant, clock: Instant)
    requires a.started && a.pend != map[] && Ordered(a) && forall k :: k in a.lost ==> k < a.next
    ensures a.next < Least(a.pend.Keys) && a.next < SkipToLowest(a, now, clock).next
  {
    SkipForward(a, now, clock);
  }

  // ---------------------------------------------------------------- what a call sets

  /** A gap's clock is never set back before the call that starts it. */
  lemma StepBlockedSince<T>(c: Config, r: Rx<T>, e: Event<T>)
    requires c.Valid() && Inv(c, r) && e != Handshake
    ensures Step(c, r, e).blockedSince in {0, r.blockedSince, e.now, e.clock}
  {
    match e
    case Arrive(n, v, now, clock) => PushSets(c, r, n, v, now, clock);
    case Tick(now, clock) => TickSets(c, r, now, clock);
  }

  /** The present gap is still the same one, or it is a new one and nothing is known to be asked;
      its clock then was set by one of the readings `a` and `b`, or is unset. */
  ghost predicate SameGapOr<T>(r: Rx<T>, q: Rx<T>, a: int, b: int) {
    q.lastRequest == r.lastRequest && q.stats.requested == r.stats.requested
    && (if q.blockedSince == r.blockedSince && q.asked == r.asked then true else q.asked == {} && q.blockedSince in {0, a, b})
  }

  /** A new gap: nothing is known to be asked, and its clock starts at `clock` if it blocks at all. */
  ghost predicate SetsGap<T>(r: Rx<T>, q: Rx<T>, clock: int) {
    q.asked == {} && q.blockedSince in {0, clock} && q.lastRequest == r.lastRequest
  }

  ghost predicate SameTallies<T>(r: Rx<T>, q: Rx<T>) {
    q.stats.late == r.stats.late && q.stats.duplicated == r.stats.duplicated && q.stats.requested == r.stats.requested
  }

  /** The operator's tallies tell what happened: late are exactly the arrivals below `next`,
      duplicated exactly those of a number that is waiting, and nothing else moves them. */
  lemma ArrivalIsTallied<T>(c: Config, r: Rx<T>, n: int, v: T, now: Instant, clock: Instant)
    requires c.Valid() && Inv(c, r)
    ensures var q := Push(c, r, n, v, now, clock);
      && q.stats.late == r.stats.late + (if r.started && n < r.next then 1 else 0)
      && q.stats.duplicated == r.stats.duplicated + (if n in r.pend then 1 else 0)
      && q.stats.requested == r.stats.requested
  {
    var s := NoteSeen(r, n, now);
    if s.started && n == s.next {
      PassSets(s, n, v, clock);
    } else if n !in s.pend && !(s.started && n < s.next) {
      if s.started {
        AheadSets(c, s, n, v, now, clock);
      } else {
        SettlingSets(c, s, n, v, now, clock);
      }
    }
  }

  /** And `requested` counts exactly the numbers named in requests. */
  lemma TickIsTallied<T>(c: Config, r: Rx<T>, now: Instant, clock: Instant)
    requires Inv(c, r)
    ensures var q := TickStep(c, r, now, clock);
      && q.stats.requested == r.stats.requested + |AskList(c, r, now, SEQ_LIST_MAX)|
      && q.stats.late == r.stats.late && q.stats.duplicated == r.stats.duplicated
  {
    TickSets(c, r, now, clock);
  }

  lemma PushSets<T>(c: Config, r: Rx<T>, n: int, v: T, now: Instant, clock: Instant)
    requires c.Valid() && Inv(c, r)
    ensures SameGapOr(r, Push(c, r, n, v, now, clock), now, clock)
  {
    var s := NoteSeen(r, n, now);
    assert SameGapOr(r, s, now, clock);
    if s.started && n == s.next {
      PassSets(s, n, v, clock);
    } else if n !in s.pend && !(s.started && n < s.next) {
      if s.started {
        AheadSets(c, s, n, v, now, clock);
      } else {
        SettlingSets(c, s, n, v, now, clock);
      }
    }
  }

  lemma PassSets<T>(s: Rx<T>, n: int, v: T, clock: Instant)
    requires s.started && n == s.next
    requires (forall k :: k in s.pend ==> n < k <= s.maxSeen) && (s.maxSeen == n || s.maxSeen in s.pend)
    ensures var q := Passed(s, n, v, clock);
      SetsGap(s, q, clock) && SameTallies(s, q)
  {
    DrainRun(s.(next := n + 1, stats := Delivering(s.stats, 1), output := s.output + [v]), clock);
  }

  lemma AheadSets<T>(c: Config, s: Rx<T>, n: int, v: T, now: Instant, clock: Instant)
    requires s.started && s.next < n <= s.maxSeen && n !in s.pend && (n == s.maxSeen || s.maxSeen in s.pend)
    requires forall k :: k in s.pend ==> s.next < k <= s.maxSeen
    ensures var q := PushAhead(c, s, n, v, now, clock);
      SameGapOr(s, q, now, clock) && SameTallies(s, q)
  {
    HoldForward(s, n, v, now);
    assert SameGapOr(s, Hold(s, n, v, now), now, clock) && Hold(s, n, v, now).lastRequest == s.lastRequest;
    hide Hold, Forward, Ordered;
    if |Hold(s, n, v, now).pend| > c.maxPend {
      SkipSets(Hold(s, n, v, now), now, clock);
    }
  }

  lemma SettlingSets<T>(c: Config, s: Rx<T>, n: int, v: T, now: Instant, clock: Instant)
    requires !s.started && n !in s.pend && n <= s.maxSeen && (n == s.maxSeen || s.maxSeen in s.pend)
    requires forall k :: k in s.pend ==> k <= s.maxSeen
    ensures var q := PushSettling(c, s, n, v, now, clock);
      SameGapOr(s, q, now, clock) && SameTallies(s, q)
  {
    var h := Hold(s, n, v, now);
    assert n in h.pend;
    if !(now - h.firstSeen < c.settle && |h.pend| <= c.maxPend) {
      LatchSets(h, now, clock);
    }
  }

  lemma TickSets<T>(c: Config, r: Rx<T>, now: Instant, clock: Instant)
    requires Inv(c, r)
    ensures var a, q := Ask(c, r, now, SEQ_LIST_MAX), TickStep(c, r, now, clock);
      SameGapOr(a, q, now, clock) && SameTallies(a, q)
  {
    var a := Ask(c, r, now, SEQ_LIST_MAX);
    if a.started && SkipDue(c, a, now) {
      SkipSets(a, now, clock);
    } else if !a.started && a.pend != map[] && now - a.firstSeen >= c.settle {
      LatchSets(a, now, clock);
    }
  }

  /** Skipping forgets what was asked and restarts the gap's clock. */
  lemma SkipSets<T>(r: Rx<T>, now: Instant, clock: Instant)
    requires r.started && r.pend != map[] && Ordered(r)
    ensures r.next < Least(r.pend.Keys)
    ensures var q := SkipToLowest(r, now, clock);
      SetsGap(r, q, clock) && SameTallies(r, q)
  {
    DrainRun(StepOver(r, Least(r.pend.Keys), now), clock);
  }

  lemma LatchSets<T>(r: Rx<T>, now: Instant, clock: Instant)
    requires r.pend != map[] && r.maxSeen in r.pend && forall k :: k in r.pend ==> k <= r.maxSeen
    ensures var q := Latch(r, now, clock);
      SetsGap(r, q, clock) && SameTallies(r, q)
  {
    var lowest := Least(r.pend.Keys);
    DrainRun(r.(started := true, next := lowest, start := lowest, blockedSince := now), clock);
  }
}
