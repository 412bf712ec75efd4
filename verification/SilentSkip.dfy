/** No silent skip: what a tick gives up on was asked for first. Exactly when: the request
    delay and the most that a stamp may lag behind the clock do not exceed the skip delay. */
module SilentSkip {
  import opened Sequences
  import opened SeqNum
  import opened Reassembly
  import opened ReassemblyRuns
  import opened ReassemblyGuarantees

  /** A call at clock reading `clock`, after the reading `t`, on behalf of a stamp that may have
      been taken up to `lag` before `t`: arrivals and ticks are stamped before they are queued. */
  ghost predicate InTime(t: int, lag: nat, now: int, clock: int) {
    t <= now + lag && now <= clock && t <= clock
  }

  /** No stamp of the run lags further behind the clock than `lag`; with a lag of 0 the times
      never run backwards. */
  ghost predicate Lagging<T>(t: int, lag: nat, evs: seq<Event<T>>)
    decreases |evs|
  {
    evs != [] ==>
      if evs[0].Handshake? then Lagging(t, lag, evs[1..])
      else InTime(t, lag, evs[0].now, evs[0].clock) && Lagging(evs[0].clock, lag, evs[1..])
  }

  /** The last reading of a run that began no earlier than `t`. */
  ghost function EndTime<T>(t: int, evs: seq<Event<T>>): int
    decreases |evs|
  {
    if evs == [] then t
    else EndTime(if evs[0].Handshake? then t else evs[0].clock, evs[1..])
  }

  /** `k` is among the first numbers of the gap that a request can name. */
  ghost predicate Nameable<T>(r: Rx<T>, k: int) {
    r.next <= k < r.next + SEQ_LIST_MAX && forall j :: j in r.pend ==> k < j
  }

  /** The present gap has been asked for since it began to block. */
  ghost predicate GapAsked<T>(r: Rx<T>) {
    forall k :: Nameable(r, k) ==> k in r.asked
  }

  /** At time `t`: a request made later than the lag allows for the present gap's clock to be
      older than it was a request for this gap. */
  ghost predicate Timely<T>(r: Rx<T>, t: int, lag: nat) {
    && 0 <= t && r.lastRequest <= t
    && (0 < r.blockedSince && r.blockedSince + lag < r.lastRequest ==> GapAsked(r))
  }

  lemma DrainTimely<T>(r: Rx<T>, clock: Instant, lag: nat)
    requires Ready(r) && r.lastRequest <= clock
    ensures Timely(Drain(r, clock), clock, lag)
  {
    DrainRun(r, clock);
  }

  lemma SkipTimely<T>(r: Rx<T>, now: Instant, clock: Instant, lag: nat)
    requires r.started && r.pend != map[] && Ordered(r) && r.lastRequest <= clock
    ensures r.next < Least(r.pend.Keys) && Timely(SkipToLowest(r, now, clock), clock, lag)
  {
    DrainTimely(StepOver(r, Least(r.pend.Keys), now), clock, lag);
  }

  lemma LatchTimely<T>(r: Rx<T>, now: Instant, clock: Instant, lag: nat)
    requires r.pend != map[] && r.maxSeen in r.pend && forall k :: k in r.pend ==> k <= r.maxSeen
    requires r.lastRequest <= clock
    ensures Timely(Latch(r, now, clock), clock, lag)
  {
    var lowest := Least(r.pend.Keys);
    DrainTimely(r.(started := true, next := lowest, start := lowest, blockedSince := now), clock, lag);
  }

  lemma PushTimely<T>(c: Config, r: Rx<T>, n: int, v: T, now: Instant, clock: Instant, t: int, lag: nat)
    requires c.Valid() && Inv(c, r) && Timely(r, t, lag) && InTime(t, lag, now, clock)
    ensures Timely(Push(c, r, n, v, now, clock), clock, lag)
  {
    var s := NoteSeen(r, n, now);
    assert GapAsked(r) ==> GapAsked(s) by {
      assert forall k :: Nameable(s, k) ==> Nameable(r, k);
    }
    if s.started && n == s.next {
      DrainTimely(s.(next := n + 1, stats := Delivering(s.stats, 1), output := s.output + [v]), clock, lag);
    } else if !(s.started && n < s.next) && n !in s.pend {
      HoldTimely(c, s, n, v, now, clock, t, lag);
    }
  }

  lemma HoldTimely<T>(c: Config, s: Rx<T>, n: int, v: T, now: Instant, clock: Instant, t: int, lag: nat)
    requires n !in s.pend && Timely(s, t, lag) && InTime(t, lag, now, clock)
    requires if s.started then s.next < n <= s.maxSeen && forall k :: k in s.pend ==> s.next < k <= s.maxSeen
      else n <= s.maxSeen && forall k :: k in s.pend ==> k <= s.maxSeen
    requires n == s.maxSeen || s.maxSeen in s.pend
    ensures Timely(if s.started then PushAhead(c, s, n, v, now, clock) else PushSettling(c, s, n, v, now, clock), clock, lag)
  {
    var h := Hold(s, n, v, now);
    assert n in h.pend;
    assert forall k :: Nameable(h, k) ==> Nameable(s, k) by {
      assert forall j :: j in s.pend ==> j in h.pend;
    }
    if h.started && |h.pend| > c.maxPend {
      SkipTimely(h, now, clock, lag);
    } else if !h.started && !(now - h.firstSeen < c.settle && |h.pend| <= c.maxPend) {
      LatchTimely(h, now, clock, lag);
    }
  }

  /** A request names the whole nameable part of the gap. */
  lemma AskAsks<T>(c: Config, r: Rx<T>, now: Instant)
    requires Inv(c, r) && AskDue(c, r, now)
    ensures GapAsked(Ask(c, r, now, SEQ_LIST_MAX))
  {
    forall k | Nameable(r, k)
      ensures k in AskList(c, r, now, SEQ_LIST_MAX)
    {
      assert r.maxSeen in r.pend;
      NameableIsNamed(r.pend, r.next, r.maxSeen, SEQ_LIST_MAX, k);
    }
    var a := Ask(c, r, now, SEQ_LIST_MAX);
    assert forall k :: Nameable(a, k) ==> Nameable(r, k);
  }

  lemma {:induction false} NameableIsNamed<T>(pend: map<int, T>, s: int, top: int, limit: int, k: int)
    requires s <= k < s + limit && k <= top && forall j :: j in pend ==> k < j
    ensures k in Gaps(pend, s, top, limit)
    decreases k - s
  {
    if s < k {
      NameableIsNamed(pend, s + 1, top, limit - 1, k);
    }
  }

  lemma AskTimely<T>(c: Config, r: Rx<T>, now: Instant, clock: Instant, t: int, lag: nat)
    requires Inv(c, r) && Timely(r, t, lag) && InTime(t, lag, now, clock)
    ensures Timely(Ask(c, r, now, SEQ_LIST_MAX), clock, lag)
  {
    if AskDue(c, r, now) {
      AskAsks(c, r, now);
    }
  }

  lemma TickTimely<T>(c: Config, r: Rx<T>, now: Instant, clock: Instant, t: int, lag: nat)
    requires c.Valid() && Inv(c, r) && Timely(r, t, lag) && InTime(t, lag, now, clock)
    ensures Timely(TickStep(c, r, now, clock), clock, lag)
  {
    AskTimely(c, r, now, clock, t, lag);
    var a := Ask(c, r, now, SEQ_LIST_MAX);
    if a.started && SkipDue(c, a, now) {
      SkipTimely(a, now, clock, lag);
    } else if !a.started && a.pend != map[] && now - a.firstSeen >= c.settle {
      LatchTimely(a, now, clock, lag);
    }
  }

  lemma {:induction false} RunTimely<T>(c: Config, r: Rx<T>, evs: seq<Event<T>>, t: int, lag: nat)
    requires c.Valid() && Inv(c, r) && Timely(r, t, lag) && Lagging(t, lag, evs)
    ensures Timely(Run(c, r, evs), EndTime(t, evs), lag)
    decreases |evs|
  {
    if evs != [] {
      match evs[0] {
        case Arrive(n, v, now, clock) => PushTimely(c, r, n, v, now, clock, t, lag);
        case Tick(now, clock) => TickTimely(c, r, now, clock, t, lag);
        case Handshake =>
      }
      RunTimely(c, Step(c, r, evs[0]), evs[1..], if evs[0].Handshake? then t else evs[0].clock, lag);
    }
  }

  /** What this tick gives up on without ever having named it in a request since the gap began
      to block, though a request could have: the skip nobody is told of. */
  ghost function SkippedSilently<T>(c: Config, r: Rx<T>, now: Instant, clock: Instant): set<int>
    requires Inv(c, r)
  {
    set k | k in TickStep(c, r, now, clock).lost && k !in r.lost && k < r.next + SEQ_LIST_MAX
            && k !in Ask(c, r, now, SEQ_LIST_MAX).asked
  }

  /** A tick that gives up on a gap asks for it in the same tick or has asked since it began. */
  lemma TickAsksFirst<T>(c: Config, r: Rx<T>, now: Instant, clock: Instant, t: int, lag: nat)
    requires c.Valid() && Inv(c, r) && Timely(r, t, lag) && c.retransmitAfter + lag <= c.skipAfter
    ensures SkippedSilently(c, r, now, clock) == {}
  {
    var a := Ask(c, r, now, SEQ_LIST_MAX);
    if r.started && SkipDue(c, r, now) {
      SkipForward(a, now, clock);
      if AskDue(c, r, now) {
        AskAsks(c, r, now);
      }
      assert GapAsked(a);
      forall k | k in SkippedSilently(c, r, now, clock)
        ensures false
      {
        assert k in Range(a.next, Least(a.pend.Keys));
        assert Nameable(a, k);
      }
    } else if !r.started && r.pend != map[] && now - r.firstSeen >= c.settle {
      var lowest := Least(r.pend.Keys);
      DrainRun(a.(started := true, next := lowest, start := lowest, blockedSince := now), clock);
    }
  }

  /** Over every run from creation whose stamps lag no further than the delays leave room for. */
  lemma NoSilentSkip<T>(c: Config, evs: seq<Event<T>>, now: Instant, clock: Instant, lag: nat)
    requires c.Valid() && c.retransmitAfter + lag <= c.skipAfter && Lagging(0, lag, evs)
    ensures SkippedSilently(c, Run(c, Fresh<T>(), evs), now, clock) == {}
  {
    RunTimely(c, Fresh<T>(), evs, 0, lag);
    TickAsksFirst(c, Run(c, Fresh<T>(), evs), now, clock, EndTime(0, evs), lag);
  }

  /** Outside ticks only the memory cap gives numbers up. */
  lemma OnlyTheCapSkipsOtherwise<T>(c: Config, r: Rx<T>, n: int, v: T, now: Instant, clock: Instant)
    requires c.Valid() && Inv(c, r)
    requires Push(c, r, n, v, now, clock).lost != r.lost
    ensures r.started && r.next < n && n !in r.pend && |r.pend| == c.maxPend
  {
    var s := NoteSeen(r, n, now);
    if s.started && n == s.next {
      DrainRun(s.(next := n + 1, stats := Delivering(s.stats, 1), output := s.output + [v]), clock);
    } else if !(s.started && n < s.next) && n !in s.pend {
      var h := Hold(s, n, v, now);
      assert n in h.pend && |h.pend| == |s.pend| + 1;
      if !h.started && !(now - h.firstSeen < c.settle && |h.pend| <= c.maxPend) {
        DrainRun(h.(started := true, next := Least(h.pend.Keys), start := Least(h.pend.Keys), blockedSince := now), clock);
      }
    }
  }

  /** Event `i` of the run is a tick, not before `since`, whose request names `k`. */
  ghost predicate NamedAt<T>(c: Config, evs: seq<Event<T>>, i: int, k: int, since: int)
    requires c.Valid()
  {
    0 <= i < |evs| && evs[i].Tick? && since <= evs[i].now && k in AskList(c, Run(c, Fresh<T>(), evs[..i]), evs[i].now, SEQ_LIST_MAX)
  }

  /** `asked` is what the run's own requests named: each number in it was in the list of some
      tick of the run, made no earlier than the moment the present gap began to block. */
  lemma {:induction false} AskedWasRequested<T>(c: Config, evs: seq<Event<T>>, k: int)
    requires c.Valid() && k in Run(c, Fresh<T>(), evs).asked
    ensures exists i :: NamedAt(c, evs, i, k, Run(c, Fresh<T>(), evs).blockedSince)
    decreases |evs|
  {
    if evs == [] {
      assert false;
    } else {
      var init, e := SplitLast(evs);
      hide Run, NamedAt;
      if k in Run(c, Fresh<T>(), init).asked {
        AskedWasRequested(c, init, k);
      }
      AskedSnoc(c, init, e, k);
    }
  }

  lemma AskedSnoc<T>(c: Config, init: seq<Event<T>>, e: Event<T>, k: int)
    requires c.Valid() && k in Run(c, Fresh<T>(), init + [e]).asked
    requires k in Run(c, Fresh<T>(), init).asked ==> exists i :: NamedAt(c, init, i, k, Run(c, Fresh<T>(), init).blockedSince)
    ensures exists i :: NamedAt(c, init + [e], i, k, Run(c, Fresh<T>(), init + [e]).blockedSince)
  {
    hide Run, Step, AskList, NamedAt;
    var r, since := Run(c, Fresh<T>(), init), Run(c, Fresh<T>(), init + [e]).blockedSince;
    RunSnoc(c, Fresh<T>(), init, e);
    StepAsked(c, r, e);
    if e.Tick? && AskDue(c, r, e.now) && k in AskList(c, r, e.now, SEQ_LIST_MAX) {
      NamedLast(c, init, e, k, since);
    } else {
      var i :| NamedAt(c, init, i, k, r.blockedSince);
      NamedStays(c, init, e, i, k, since);
    }
  }

  lemma NamedLast<T>(c: Config, init: seq<Event<T>>, e: Event<T>, k: int, since: int)
    requires c.Valid() && e.Tick? && since <= e.now && k in AskList(c, Run(c, Fresh<T>(), init), e.now, SEQ_LIST_MAX)
    ensures NamedAt(c, init + [e], |init|, k, since)
  {
    assert (init + [e])[..|init|] == init;
  }

  lemma NamedStays<T>(c: Config, init: seq<Event<T>>, e: Event<T>, i: int, k: int, since: int)
    requires c.Valid() && NamedAt(c, init, i, k, since)
    ensures NamedAt(c, init + [e], i, k, since)
  {
    assert (init + [e])[..i] == init[..i];
  }

  lemma {:induction false} RunSnoc<T>(c: Config, r: Rx<T>, evs: seq<Event<T>>, e: Event<T>)
    requires c.Valid() && Inv(c, r)
    ensures Run(c, r, evs + [e]) == Step(c, Run(c, r, evs), e)
    decreases |evs|
  {
    if evs == [] {
      assert evs + [e] == [e];
    } else {
      assert (evs + [e])[1..] == evs[1..] + [e];
      RunSnoc(c, Step(c, r, evs[0]), evs[1..], e);
    }
  }

  /** After any call, what remains asked was asked by it or stays asked for the same gap. */
  lemma StepAsked<T>(c: Config, r: Rx<T>, e: Event<T>)
    requires c.Valid() && Inv(c, r)
    ensures var q := Step(c, r, e);
      q.asked == {} || (q.blockedSince == r.blockedSince && q.asked == r.asked) || (e.Tick? && AskDue(c, r, e.now) &&
        q.blockedSince == r.blockedSince <= e.now && q.asked == r.asked + (set k | k in AskList(c, r, e.now, SEQ_LIST_MAX)))
  {
    hide Push, Expire, AskList;
    match e
    case Arrive(n, v, now, clock) => PushSets(c, r, n, v, now, clock);
    case Tick(now, clock) => TickSets(c, r, now, clock);
    case Handshake =>
  }

  // ---------------------------------------------------------------- the exact condition

  /** Everything below `m` is done with and nothing is held. */
  ghost predicate Idle<T>(r: Rx<T>, m: int) {
    r.started && r.next == m && r.pend == map[] && r.maxSeen == m - 1 && r.blockedSince == 0 && r.asked == {}
  }

  ghost predicate OnlyZero<T>(r: Rx<T>) {
    Idle(r, 1) && r.lastRequest == 0
  }

  ghost function Opening<T>(c: Config, v: T): seq<Event<T>>
    requires c.Valid()
  {
    [Arrive(0, v, 1, 1), Tick(1 + c.settle, 1 + c.settle)]
  }

  lemma OpeningDelivers<T>(c: Config, v: T)
    requires c.Valid()
    ensures OnlyZero(Run(c, Fresh<T>(), Opening(c, v)))
  {
    var r0 := Fresh<T>();
    var evs := Opening(c, v);
    var h := Hold(NoteSeen(r0, 0, 1), 0, v, 1);
    assert h.pend == map[0 := v] && |h.pend| == 1;
    assert h.pend.Keys == {0};
    forall now: Instant, clock: Instant
      ensures OnlyZero(Latch(h, now, clock))
    {
      var l := h.(started := true, next := 0, start := 0, blockedSince := now);
      DrainRun(l, clock);
      assert Latch(h, now, clock) == Drain(l, clock);
      assert 1 !in h.pend && 0 in h.pend;
      assert Drain(l, clock).next == 1;
    }
    var r1 := Step(c, r0, evs[0]);
    assert r1 == if c.settle == 0 then Latch(h, 1, 1) else h;
    assert OnlyZero(Step(c, r1, evs[1]));
    assert evs[1..][1..] == [];
    assert Run(c, r0, evs) == Run(c, r1, evs[1..]) == Step(c, r1, evs[1]);
  }

  /** Packet `m + 1` is held because `m` is missing since `since`. */
  ghost predicate Gap<T>(r: Rx<T>, m: int, v: T, since: int) {
    r.started && r.next == m && r.pend == map[m + 1 := v] && r.maxSeen == m + 1 && r.blockedSince == since
  }

  /** A packet arrives with the one before it missing: the gap's clock is the arrival's stamp. */
  lemma GapOpens<T>(c: Config, r: Rx<T>, m: int, v: T, now: Instant, clock: Instant)
    requires c.Valid() && Inv(c, r) && Idle(r, m)
    ensures var q := Push(c, r, m + 1, v, now, clock);
      Gap(q, m, v, now) && q.lastRequest == r.lastRequest && q.asked == {} && q.lost == r.lost
  {
    var s := NoteSeen(r, m + 1, now);
    assert |Hold(s, m + 1, v, now).pend| == 1;
  }

  lemma GapCloses<T>(c: Config, r: Rx<T>, m: int, v: T, since: int, now: Instant, clock: Instant)
    requires c.Valid() && Inv(c, r) && Gap(r, m, v, since)
    ensures var q := Push(c, r, m, v, now, clock);
      Idle(q, m + 2) && q.lastRequest == r.lastRequest
  {
    var p := r.(next := m + 1, stats := Delivering(r.stats, 1), output := r.output + [v]);
    DrainRun(p, clock);
    assert NoteSeen(r, m, now) == r && m + 1 in p.pend && m + 2 !in p.pend;
    assert Drain(p, clock).next == m + 2;
  }

  /** A tick that gives up on a gap nobody has asked for. */
  lemma UnaskedGapIsLost<T>(c: Config, r: Rx<T>, m: int, v: T, since: int, now: Instant, clock: Instant)
    requires c.Valid() && Inv(c, r) && Gap(r, m, v, since) && r.asked == {}
    requires SkipDue(c, r, now) && !AskDue(c, r, now)
    ensures m in SkippedSilently(c, r, now, clock)
  {
    SkipForward(r, now, clock);
    assert r.pend.Keys == {m + 1};
    assert m in Range(m, Least(r.pend.Keys));
  }

  lemma {:induction false} LaggingSnoc<T>(t: int, lag: nat, evs: seq<Event<T>>, e: Event<T>)
    requires Lagging(t, lag, evs) && e != Handshake && InTime(EndTime(t, evs), lag, e.now, e.clock)
    ensures Lagging(t, lag, evs + [e]) && EndTime(t, evs + [e]) == e.clock
    decreases |evs|
  {
    if evs == [] {
      assert evs + [e] == [e] && [e][1..] == [];
    } else {
      assert (evs + [e])[1..] == evs[1..] + [e];
      LaggingSnoc(if evs[0].Handshake? then t else evs[0].clock, lag, evs[1..], e);
    }
  }

  lemma OpeningTimes<T>(c: Config, v: T, lag: nat)
    requires c.Valid()
    ensures Lagging(0, lag, Opening(c, v)) && EndTime(0, Opening(c, v)) == 1 + c.settle
  {
    var e := Arrive(0, v, 1, 1);
    LaggingSnoc(0, lag, [], e);
    assert [] + [e] == [e];
    LaggingSnoc(0, lag, [e], Tick(1 + c.settle, 1 + c.settle));
    assert [e] + [Tick(1 + c.settle, 1 + c.settle)] == Opening(c, v);
  }

  /** The run, in time so far, leaves the reassembler in state `r` at clock reading `t`. */
  ghost predicate Reaches<T>(c: Config, lag: nat, evs: seq<Event<T>>, r: Rx<T>, t: int)
    requires c.Valid()
  {
    Lagging(0, lag, evs) && EndTime(0, evs) == t && Inv(c, r) && Run(c, Fresh<T>(), evs) == r
  }

  lemma ReachesMore<T>(c: Config, lag: nat, evs: seq<Event<T>>, r: Rx<T>, t: int, e: Event<T>)
    requires c.Valid() && Reaches(c, lag, evs, r, t) && e != Handshake && InTime(t, lag, e.now, e.clock)
    ensures Reaches(c, lag, evs + [e], Step(c, r, e), e.clock)
  {
    RunSnoc(c, Fresh<T>(), evs, e);
    LaggingSnoc(0, lag, evs, e);
  }

  lemma ReachesOpening<T>(c: Config, lag: nat, v: T) returns (r: Rx<T>)
    requires c.Valid()
    ensures Reaches(c, lag, Opening(c, v), r, 1 + c.settle) && OnlyZero(r)
  {
    OpeningTimes(c, v, lag);
    OpeningDelivers(c, v);
    r := Run(c, Fresh<T>(), Opening(c, v));
  }

  /** A tick of the run, in time, that gives up on a number nobody asked for. */
  ghost predicate Silent<T>(c: Config, lag: nat, evs: seq<Event<T>>, now: Instant, clock: Instant)
    requires c.Valid()
  {
    Lagging(0, lag, evs) && InTime(EndTime(0, evs), lag, now, clock)
    && SkippedSilently(c, Run(c, Fresh<T>(), evs), now, clock) != {}
  }

  /** Who gives up before asking loses the first gap silently. */
  lemma SkippingFirstIsSilent<T>(c: Config, v: T, lag: nat) returns (evs: seq<Event<T>>, now: Instant)
    requires c.Valid() && c.skipAfter < c.retransmitAfter
    ensures Silent(c, lag, evs, now, now)
  {
    var t := 1 + c.settle;
    var e := Arrive(2, v, t, t);
    evs, now := Opening(c, v) + [e], t + c.skipAfter;
    var r := ReachesOpening(c, lag, v);
    ReachesMore(c, lag, Opening(c, v), r, t, e);
    GapOpens(c, r, 1, v, t, t);
    UnaskedGapIsLost(c, Step(c, r, e), 1, v, t, now, now);
  }

  /** A gap is asked for, and then over: repaired, or given up by the tick that asked. */
  lemma AskedGapEnds<T>(c: Config, r: Rx<T>, m: int, v: T, since: int, now: Instant)
    requires c.Valid() && Inv(c, r) && Gap(r, m, v, since) && AskDue(c, r, now)
    ensures var q := Step(c, Step(c, r, Tick(now, now)), Arrive(m, v, now, now));
      Idle(q, m + 2) && q.lastRequest == now
  {
    var a := Ask(c, r, now, SEQ_LIST_MAX);
    var s := Step(c, r, Tick(now, now));
    if SkipDue(c, a, now) {
      GapSkipped(c, a, m, v, now);
    } else {
      GapCloses(c, s, m, v, since, now, now);
    }
  }

  lemma GapSkipped<T>(c: Config, r: Rx<T>, m: int, v: T, now: Instant)
    requires c.Valid() && Inv(c, r) && r.started && r.next == m && r.pend == map[m + 1 := v] && r.maxSeen == m + 1
    ensures m < Least(r.pend.Keys)
    ensures var q := SkipToLowest(r, now, now);
      Idle(q, m + 2) && q.lastRequest == r.lastRequest
  {
    assert r.pend.Keys == {m + 1};
    var s := StepOver(r, m + 1, now);
    DrainRun(s, now);
    assert m + 1 in s.pend && m + 2 !in s.pend;
    assert Drain(s, now).next == m + 2;
  }

  /** A stamp older than a request already made, by more than the delays leave room for, makes
      that request count for a gap it never named, and the gap is given up unasked. */
  lemma LateStampIsSilent<T>(c: Config, v: T, lag: nat) returns (evs: seq<Event<T>>, now: Instant)
    requires c.Valid() && c.retransmitAfter <= c.skipAfter < c.retransmitAfter + lag
    ensures Silent(c, lag, evs, now, now)
  {
    var t: Instant := 1 + c.settle + c.skipAfter;
    var asked, back := t + c.retransmitAfter, c.skipAfter - c.retransmitAfter + 1;
    var r0 := ReachesOpening(c, lag, v);
    var e1, e2, e3, e4 := Arrive(2, v, t, t), Tick(asked, asked), Arrive(1, v, asked, asked), Arrive(4, v, asked - back, asked);
    var evs1, r1 := Opening(c, v) + [e1], Step(c, r0, e1);
    ReachesMore(c, lag, Opening(c, v), r0, 1 + c.settle, e1);
    GapOpens(c, r0, 1, v, t, t);
    var r2 := Step(c, r1, e2);
    ReachesMore(c, lag, evs1, r1, t, e2);
    var r3 := Step(c, r2, e3);
    ReachesMore(c, lag, evs1 + [e2], r2, asked, e3);
    AskedGapEnds(c, r1, 1, v, t, asked);
    var r4 := Step(c, r3, e4);
    ReachesMore(c, lag, evs1 + [e2] + [e3], r3, asked, e4);
    GapOpens(c, r3, 3, v, asked - back, asked);
    evs, now := evs1 + [e2] + [e3] + [e4], asked + c.retransmitAfter - 1;
    UnaskedGapIsLost(c, r4, 3, v, asked - back, now, now);
  }

  ghost predicate NeverSilent<T(!new)>(c: Config, lag: nat)
    requires c.Valid()
  {
    forall evs: seq<Event<T>>, now: Instant, clock: Instant :: !Silent(c, lag, evs, now, clock)
  }

  /** The configuration decides how late stamps may be: over all runs whose stamps lag at most
      `lag` behind the clock, the reassembler never skips silently exactly when the request delay
      and the lag together do not exceed the skip delay. */
  lemma NeverSilentExactlyWithinTheLag<T(!new)>(c: Config, v: T, lag: nat)
    requires c.Valid()
    ensures NeverSilent<T>(c, lag) <==> c.retransmitAfter + lag <= c.skipAfter
  {
    if c.retransmitAfter + lag <= c.skipAfter {
      forall evs: seq<Event<T>>, now: Instant, clock: Instant
        ensures !Silent(c, lag, evs, now, clock)
      {
        if Lagging(0, lag, evs) {
          NoSilentSkip(c, evs, now, clock, lag);
        }
      }
    } else if c.skipAfter < c.retransmitAfter {
      var evs, now := SkippingFirstIsSilent(c, v, lag);
    } else {
      var evs, now := LateStampIsSilent(c, v, lag);
    }
  }
}
