/** The settle window: nothing starts before it is over, and when it is over the start is the lowest
    number that came in it. So a striped beginning is lossless as long as its lowest number comes in
    the window, which is a matter of times alone. */
module Settling {
  import opened SeqNum
  import opened Reassembly
  import opened ReassemblyRuns
  import opened ReassemblyGuarantees
  import opened Lossless
  import SilentSkip

  /** The stamp of the first arrival (0 while there is none), one event later. */
  ghost function Noted<T>(first: int, e: Event<T>): int {
    if first == 0 && e.Arrive? then e.now else first
  }

  ghost function First<T>(first: int, evs: seq<Event<T>>): int
    decreases |evs|
  {
    if evs == [] then first else First(Noted(first, evs[0]), evs[1..])
  }

  /** Every arrival is stamped, and every tick after the first one comes, less than `settle` after it. */
  ghost predicate Early<T>(settle: int, first: int, evs: seq<Event<T>>)
    decreases |evs|
  {
    evs != [] ==> Soon(settle, first, evs[0]) && Early(settle, Noted(first, evs[0]), evs[1..])
  }

  ghost predicate Soon<T>(settle: int, first: int, e: Event<T>) {
    e != Handshake && (Noted(first, e) != 0 ==> e.now - Noted(first, e) < settle)
  }

  /** Nothing is started or put out; what has come is held. */
  ghost predicate Waits<T>(r: Rx<T>, first: int, seen: set<int>) {
    !r.started && r.output == [] && r.pend.Keys == seen && r.firstSeen == first
  }

  // ---------------------------------------------------------------- while the window is open

  lemma StepWaits<T>(c: Config, r: Rx<T>, e: Event<T>, first: int, seen: set<int>)
    requires c.Valid() && Inv(c, r) && Waits(r, first, seen) && Soon(c.settle, first, e)
    requires |seen + NumberOf(e)| <= c.maxPend
    ensures Waits(Step(c, r, e), Noted(first, e), seen + NumberOf(e))
  {
    StepStarts(c, r, e, first, seen);
    if e.Arrive? && e.n !in seen {
      assert |seen + NumberOf(e)| == |seen| + 1;
    }
    hide Waits, Step;
  }

  lemma {:induction false} RunWaits<T>(c: Config, r: Rx<T>, evs: seq<Event<T>>, first: int, seen: set<int>)
    requires c.Valid() && Inv(c, r) && Waits(r, first, seen) && Early(c.settle, first, evs)
    requires |seen + Numbers(evs)| <= c.maxPend
    ensures Waits(Run(c, r, evs), First(first, evs), seen + Numbers(evs))
    decreases |evs|
  {
    if evs == [] {
      assert seen + Numbers(evs) == seen;
    } else {
      NumbersSplit(seen, evs);
      StepWaits(c, r, evs[0], first, seen);
      hide Waits, Soon, Noted, Step;
      RunWaits(c, Step(c, r, evs[0]), evs[1..], Noted(first, evs[0]), seen + NumberOf(evs[0]));
    }
  }

  lemma NumbersSplit<T>(seen: set<int>, evs: seq<Event<T>>)
    requires evs != []
    ensures seen + NumberOf(evs[0]) + Numbers(evs[1..]) == seen + Numbers(evs)
    ensures |seen + NumberOf(evs[0])| <= |seen + Numbers(evs)|
  {
    var s, t := seen + NumberOf(evs[0]), seen + Numbers(evs);
    assert s <= t && t * s == s;
    assert |t - s| == |t| - |s|;
  }

  /** From creation: as long as the window is open and no more numbers than the cap have come,
      nothing is started, nothing is put out, and exactly what has come is held. */
  lemma NothingStartsInTheWindow<T>(c: Config, evs: seq<Event<T>>)
    requires c.Valid() && Early(c.settle, 0, evs) && |Numbers(evs)| <= c.maxPend
    ensures var q := Run(c, Fresh<T>(), evs);
      !q.started && q.output == [] && q.pend.Keys == Numbers(evs)
  {
    assert {} + Numbers(evs) == Numbers(evs);
    RunWaits(c, Fresh<T>(), evs, 0, {});
  }

  // ---------------------------------------------------------------- when it is over

  /** The event ends the window: a tick with something held, or a new number, `settle` or more
      after the first arrival; or a new number for which there is no room. */
  ghost predicate EndsWindow<T>(c: Config, first: int, seen: set<int>, e: Event<T>) {
    match e
    case Arrive(n, _, now, _) => n !in seen && (now - Noted(first, e) >= c.settle || |seen| == c.maxPend)
    case Tick(now, _) => seen != {} && now - first >= c.settle
    case Handshake => false
  }

  /** The next event starts the epoch if and only if it ends the window; else what has come waits on. */
  ghost predicate StartsOrWaits<T>(c: Config, q: Rx<T>, e: Event<T>, first: int, seen: set<int>) {
    var all := seen + NumberOf(e);
    && (q.started <==> EndsWindow(c, first, seen, e))
    && (if q.started then all != {} && q.start == Least(all) else e != Handshake ==> Waits(q, Noted(first, e), all))
  }

  lemma StepStarts<T>(c: Config, r: Rx<T>, e: Event<T>, first: int, seen: set<int>)
    requires c.Valid() && Inv(c, r) && Waits(r, first, seen)
    ensures StartsOrWaits(c, Step(c, r, e), e, first, seen)
  {
    match e
    case Arrive(n, v, now, clock) =>
      if n in seen {
        assert n in r.pend && seen + NumberOf(e) == seen;
      } else {
        NewNumberStarts(c, r, e, first, seen);
      }
    case Tick(now, clock) =>
      assert seen + NumberOf(e) == seen;
      if seen != {} && now - first >= c.settle {
        LatchStarts(r, now, clock);
      }
    case Handshake =>
  }

  lemma NewNumberStarts<T>(c: Config, r: Rx<T>, e: Event<T>, first: int, seen: set<int>)
    requires c.Valid() && Inv(c, r) && Waits(r, first, seen) && e.Arrive? && e.n !in seen
    ensures StartsOrWaits(c, Step(c, r, e), e, first, seen)
  {
    NewNumberWaits(c, r, e, first, seen);
    var h := Hold(NoteSeen(r, e.n, e.now), e.n, e.v, e.now);
    if EndsWindow(c, first, seen, e) {
      LatchStarts(h, e.now, e.clock);
    }
    hide Latch, Inv, Hold, NoteSeen, Noted;
  }

  lemma NewNumberWaits<T>(c: Config, r: Rx<T>, e: Event<T>, first: int, seen: set<int>)
    requires Inv(c, r) && Waits(r, first, seen) && e.Arrive? && e.n !in seen
    ensures !NoteSeen(r, e.n, e.now).started && NoteSeen(r, e.n, e.now).pend == r.pend
    ensures var h := Hold(NoteSeen(r, e.n, e.now), e.n, e.v, e.now);
      && Waits(h, Noted(first, e), seen + NumberOf(e)) && |h.pend| == |seen| + 1
      && h.maxSeen in h.pend && forall k :: k in h.pend ==> k <= h.maxSeen
  {
    assert Hold(NoteSeen(r, e.n, e.now), e.n, e.v, e.now).pend.Keys == seen + NumberOf(e);
  }

  /** Whatever has come in the window: the next event starts the epoch if and only if it ends the
      window, and then the start is the lowest number that has come. */
  lemma StartsExactlyWhenTheWindowEnds<T>(c: Config, evs: seq<Event<T>>, e: Event<T>)
    requires c.Valid() && Early(c.settle, 0, evs) && |Numbers(evs)| <= c.maxPend
    ensures var q, all := Step(c, Run(c, Fresh<T>(), evs), e), Numbers(evs) + NumberOf(e);
      && (q.started <==> EndsWindow(c, First(0, evs), Numbers(evs), e))
      && (q.started ==> all != {} && q.start == Least(all))
  {
    assert {} + Numbers(evs) == Numbers(evs);
    RunWaits(c, Fresh<T>(), evs, 0, {});
    StepStarts(c, Run(c, Fresh<T>(), evs), e, First(0, evs), Numbers(evs));
  }

  // ---------------------------------------------------------------- lossless from times alone

  lemma {:induction false} SeenIsKnown<T>(c: Config, r: Rx<T>, seen: set<int>, a: int, evs: seq<Event<T>>)
    requires c.Valid() && Inv(c, r) && a in seen
    ensures StartKnows(c, r, seen, a, evs)
    decreases |evs|
  {
    if evs != [] {
      SeenIsKnown(c, Step(c, r, evs[0]), seen + NumberOf(evs[0]), a, evs[1..]);
    }
  }

  /** When the start is chosen, every number that came in the window is known. */
  lemma {:induction false} EarlyIsKnown<T>(c: Config, r: Rx<T>, evs: seq<Event<T>>, k: nat, a: int, first: int, seen: set<int>)
    requires c.Valid() && Inv(c, r) && Waits(r, first, seen) && k <= |evs|
    requires Early(c.settle, first, evs[..k]) && |seen + Numbers(evs[..k])| <= c.maxPend
    requires a in seen + Numbers(evs[..k])
    ensures StartKnows(c, r, seen, a, evs)
    decreases k
  {
    if k == 0 || a in seen {
      assert evs[..0] == [];
      SeenIsKnown(c, r, seen, a, evs);
    } else {
      assert evs[..k][0] == evs[0] && evs[..k][1..] == evs[1..][..k - 1];
      NumbersSplit(seen, evs[..k]);
      StepWaits(c, r, evs[0], first, seen);
      EarlyIsKnown(c, Step(c, r, evs[0]), evs[1..], k - 1, a, Noted(first, evs[0]), seen + NumberOf(evs[0]));
    }
  }

  /** While nothing is started the clock of the window is the first arrival's stamp. */
  lemma {:induction false} FirstSeenIsFirst<T>(c: Config, r: Rx<T>, evs: seq<Event<T>>)
    requires c.Valid() && Inv(c, r) && !r.started && OneEpoch(evs)
    ensures var q := Run(c, r, evs);
      !q.started ==> q.firstSeen == First(r.firstSeen, evs) && q.pend.Keys == r.pend.Keys + Numbers(evs)
    decreases |evs|
  {
    if evs == [] {
      assert r.pend.Keys + Numbers(evs) == r.pend.Keys;
    } else {
      var t := Step(c, r, evs[0]);
      StepStarts(c, r, evs[0], r.firstSeen, r.pend.Keys);
      if t.started {
        RunForward(c, t, evs[1..]);
      } else {
        NumbersSplit(r.pend.Keys, evs);
        FirstSeenIsFirst(c, t, evs[1..]);
      }
    }
  }

  /** A striped beginning, from its times alone: the range comes in any order with any duplicates
      within SkipAfter of some moment, its lowest number within the settle window, and a tick after
      the window ends the run. Then the epoch delivers exactly the range, in order, and holds
      nothing back. */
  lemma StripedInTime<T(!new)>(c: Config, evs: seq<Event<T>>, k: nat, t: Instant, a: int, b: int, f: int -> T)
    requires c.Valid() && OneEpoch(evs) && Carries(evs, f) && a < b && Numbers(evs) == Range(a, b)
    requires forall e :: e in evs ==> t <= e.now < t + c.skipAfter && t <= e.clock
    requires k < |evs| && Early(c.settle, 0, evs[..k]) && a in Numbers(evs[..k]) && |Numbers(evs[..k])| <= c.maxPend
    requires b - a <= c.maxPend || NoOverflow(c, Fresh<T>(), evs)
    requires evs[|evs| - 1].Tick? && evs[|evs| - 1].now - First(0, evs[..|evs| - 1]) >= c.settle
    ensures var q := Run(c, Fresh<T>(), evs);
      q.output == Expected(f, a, b, {}) && q.pend == map[] && q.next == b && q.lost == {}
  {
    var r := Fresh<T>();
    assert {} + Numbers(evs[..k]) == Numbers(evs[..k]);
    EarlyIsKnown(c, r, evs, k, a, 0, {});
    ShortRunsDoNotTimeOut(c, r, evs, t);
    LastTickStarts(c, evs);
    StripingIsLossless(c, r, evs, a, b, f);
  }

  lemma LastTickStarts<T>(c: Config, evs: seq<Event<T>>)
    requires c.Valid() && OneEpoch(evs) && Numbers(evs) != {}
    requires evs[|evs| - 1].Tick? && evs[|evs| - 1].now - First(0, evs[..|evs| - 1]) >= c.settle
    ensures Run(c, Fresh<T>(), evs).started
  {
    var r, init, e := Fresh<T>(), evs[..|evs| - 1], evs[|evs| - 1];
    assert evs == init + [e];
    SilentSkip.RunSnoc(c, r, init, e);
    FirstSeenIsFirst(c, r, init);
    var q := Run(c, r, init);
    if q.started {
      StepForward(c, q, e);
    } else {
      NumbersSnoc(init, e);
      assert {} + Numbers(init) == Numbers(init);
      StepStarts(c, q, e, q.firstSeen, q.pend.Keys);
    }
  }

  lemma {:induction false} NumbersSnoc<T>(evs: seq<Event<T>>, e: Event<T>)
    ensures Numbers(evs + [e]) == Numbers(evs) + NumberOf(e)
    decreases |evs|
  {
    if evs == [] {
      assert evs + [e] == [e];
    } else {
      assert (evs + [e])[1..] == evs[1..] + [e];
      NumbersSnoc(evs[1..], e);
    }
  }
}
