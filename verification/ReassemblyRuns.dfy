/** Whole runs of the reassembler as the session drives it: packets arrive, the timer asks for
    gaps and then gives up on old ones, and a handshake resets it. */
module ReassemblyRuns {
  import opened SeqNum
  import opened Reassembly

  datatype Event<T> =
    | Arrive(n: int, v: T, now: Instant, clock: Instant)
    | Tick(now: Instant, clock: Instant)
    | Handshake

  /** One timer tick: ask first, then give up. */
  ghost function TickStep<T>(c: Config, r: Rx<T>, now: Instant, clock: Instant): Rx<T>
    requires Inv(c, r)
  {
    Expire(c, Ask(c, r, now, SEQ_LIST_MAX), now, clock)
  }

  ghost function Step<T>(c: Config, r: Rx<T>, e: Event<T>): (q: Rx<T>)
    requires c.Valid() && Inv(c, r)
    ensures Inv(c, q)
  {
    match e
    case Arrive(n, v, now, clock) =>
      PushKeepsInv(c, r, n, v, now, clock);
      Push(c, r, n, v, now, clock)
    case Tick(now, clock) =>
      ExpireKeepsInv(c, Ask(c, r, now, SEQ_LIST_MAX), now, clock);
      TickStep(c, r, now, clock)
    case Handshake =>
      Cleared(r)
  }

  ghost function Run<T>(c: Config, r: Rx<T>, evs: seq<Event<T>>): (q: Rx<T>)
    requires c.Valid() && Inv(c, r)
    ensures Inv(c, q)
    decreases |evs|
  {
    if evs == [] then r else Run(c, Step(c, r, evs[0]), evs[1..])
  }

  ghost predicate OneEpoch<T>(evs: seq<Event<T>>) {
    Handshake !in evs
  }

  // ---------------------------------------------------------------- what one call changes

  /** `next` stays or moves forward; what it passes over was delivered or given up, and only
      numbers that were not being held are given up. */
  ghost predicate Forward<T>(r: Rx<T>, q: Rx<T>) {
    && q.started && q.start == r.start && r.next <= q.next && r.maxSeen <= q.maxSeen
    && r.output <= q.output && r.lost <= q.lost
    && (forall k :: k in q.lost && k !in r.lost ==> r.next <= k < q.next && k !in r.pend)
    && (forall k :: k in r.pend ==> if k < q.next then k !in q.lost else k in q.pend && q.pend[k] == r.pend[k])
  }

  lemma SkipForward<T>(r: Rx<T>, now: Instant, clock: Instant)
    requires r.started && r.pend != map[] && Ordered(r) && forall k :: k in r.lost ==> k < r.next
    ensures r.next < Least(r.pend.Keys)
    ensures var q := SkipToLowest(r, now, clock);
      Forward(r, q) && Least(r.pend.Keys) < q.next && q.lost == r.lost + Range(r.next, Least(r.pend.Keys))
  {
    var s := StepOver(r, Least(r.pend.Keys), now);
    DrainRun(s, clock);
    assert s.next in s.pend;
  }

  lemma PushForward<T>(c: Config, r: Rx<T>, n: int, v: T, now: Instant, clock: Instant)
    requires c.Valid() && Inv(c, r) && r.started
    ensures Forward(r, Push(c, r, n, v, now, clock))
  {
    var s := NoteSeen(r, n, now);
    assert Forward(r, s);
    if n == s.next {
      PassForward(s, n, v, clock);
      ForwardTrans(r, s, Passed(s, n, v, clock));
    } else if n > s.next {
      AheadForward(c, s, n, v, now, clock);
      ForwardTrans(r, s, PushAhead(c, s, n, v, now, clock));
    }
  }

  /** The packet waited for goes through, with what was waiting for it. */
  ghost function Passed<T>(s: Rx<T>, n: int, v: T, clock: Instant): Rx<T> {
    Drain(s.(next := n + 1, stats := Delivering(s.stats, 1), output := s.output + [v]), clock)
  }

  lemma PassForward<T>(s: Rx<T>, n: int, v: T, clock: Instant)
    requires s.started && n == s.next && forall k :: k in s.lost ==> k < n
    requires (forall k :: k in s.pend ==> n < k <= s.maxSeen) && (s.maxSeen == n || s.maxSeen in s.pend)
    ensures Forward(s, Passed(s, n, v, clock)) && forall k :: k in Passed(s, n, v, clock).lost ==> k < Passed(s, n, v, clock).next
  {
    var p := s.(next := n + 1, stats := Delivering(s.stats, 1), output := s.output + [v]);
    DrainRun(p, clock);
    hide Drain;
    assert s.output <= p.output;
  }

  lemma AheadForward<T>(c: Config, s: Rx<T>, n: int, v: T, now: Instant, clock: Instant)
    requires s.started && s.next < n <= s.maxSeen && (n == s.maxSeen || s.maxSeen in s.pend)
    requires (forall k :: k in s.pend ==> s.next < k <= s.maxSeen) && forall k :: k in s.lost ==> k < s.next
    ensures var q := PushAhead(c, s, n, v, now, clock);
      Forward(s, q) && forall k :: k in q.lost ==> k < q.next
  {
    if n !in s.pend {
      HoldForward(s, n, v, now);
      hide Forward, Hold, Ordered;
      if |Hold(s, n, v, now).pend| > c.maxPend {
        HeldSkipForward(s, Hold(s, n, v, now), now, clock);
      }
    }
  }

  lemma HoldForward<T>(s: Rx<T>, n: int, v: T, now: Instant)
    requires s.started && s.next < n <= s.maxSeen && n !in s.pend && (n == s.maxSeen || s.maxSeen in s.pend)
    requires forall k :: k in s.pend ==> s.next < k <= s.maxSeen
    ensures var h := Hold(s, n, v, now);
      Forward(s, h) && Ordered(h) && h.started && h.pend != map[] && h.lost == s.lost && h.next == s.next
  {
    assert n in Hold(s, n, v, now).pend;
  }

  lemma HeldSkipForward<T>(s: Rx<T>, h: Rx<T>, now: Instant, clock: Instant)
    requires Forward(s, h) && h.started && h.pend != map[] && Ordered(h) && forall k :: k in h.lost ==> k < h.next
    ensures h.next < Least(h.pend.Keys)
    ensures var q := SkipToLowest(h, now, clock);
      Forward(s, q) && forall k :: k in q.lost ==> k < q.next
  {
    SkipForward(h, now, clock);
    LostBehind(h, SkipToLowest(h, now, clock));
    hide Forward, SkipToLowest, Ordered;
    ForwardTrans(s, h, SkipToLowest(h, now, clock));
  }

  lemma LostBehind<T>(r: Rx<T>, q: Rx<T>)
    requires Forward(r, q) && forall k :: k in r.lost ==> k < r.next
    ensures forall k :: k in q.lost ==> k < q.next
  {
  }

  lemma TickForward<T>(c: Config, r: Rx<T>, now: Instant, clock: Instant)
    requires Inv(c, r) && r.started
    ensures Forward(r, TickStep(c, r, now, clock))
  {
    var a := Ask(c, r, now, SEQ_LIST_MAX);
    if SkipDue(c, a, now) {
      SkipForward(a, now, clock);
    }
  }

  lemma StepForward<T>(c: Config, r: Rx<T>, e: Event<T>)
    requires c.Valid() && Inv(c, r) && e != Handshake && r.started
    ensures Forward(r, Step(c, r, e))
  {
    match e
    case Arrive(n, v, now, clock) => PushForward(c, r, n, v, now, clock);
    case Tick(now, clock) => TickForward(c, r, now, clock);
  }

  lemma {:induction false} RunForward<T>(c: Config, r: Rx<T>, evs: seq<Event<T>>)
    requires c.Valid() && Inv(c, r) && OneEpoch(evs) && r.started
    ensures Forward(r, Run(c, r, evs))
    decreases |evs|
  {
    if evs != [] {
      StepForward(c, r, evs[0]);
      RunForward(c, Step(c, r, evs[0]), evs[1..]);
      ForwardTrans(r, Step(c, r, evs[0]), Run(c, r, evs));
    }
  }

  lemma ForwardTrans<T>(r: Rx<T>, s: Rx<T>, q: Rx<T>)
    requires Forward(r, s) && Forward(s, q)
    requires forall k :: k in s.lost ==> k < s.next
    requires forall k :: k in q.lost ==> k < q.next
    ensures Forward(r, q)
  {
  }

  // ---------------------------------------------------------------- what is delivered

  /** The values of the numbers from `lo` up to `hi`, in order, without those given up. */
  ghost function Expected<T>(f: int -> T, lo: int, hi: int, lost: set<int>): seq<T>
    decreases hi - lo
  {
    if hi <= lo then []
    else if hi - 1 in lost then Expected(f, lo, hi - 1, lost)
    else Expected(f, lo, hi - 1, lost) + [f(hi - 1)]
  }

  /** What is held and what was handed over are the peer's values for their numbers. */
  ghost predicate Faithful<T>(r: Rx<T>, f: int -> T) {
    && (forall k :: k in r.pend ==> r.pend[k] == f(k))
    && (r.started ==> r.output == Expected(f, r.start, r.next, r.lost))
  }

  lemma {:induction false} ExpectedSkips<T>(f: int -> T, lo: int, mid: int, hi: int, lost: set<int>)
    requires lo <= mid <= hi && forall k :: k in lost ==> k < mid
    ensures Expected(f, lo, hi, lost + Range(mid, hi)) == Expected(f, lo, mid, lost)
    decreases hi - mid
  {
    if mid < hi {
      ExpectedSkips(f, lo, mid, hi - 1, lost);
      ExpectedSame(f, lo, hi - 1, lost + Range(mid, hi), lost + Range(mid, hi - 1));
    } else {
      assert lost + Range(mid, hi) == lost;
    }
  }

  lemma {:induction false} ExpectedSame<T>(f: int -> T, lo: int, hi: int, a: set<int>, b: set<int>)
    requires forall k :: lo <= k < hi ==> (k in a <==> k in b)
    ensures Expected(f, lo, hi, a) == Expected(f, lo, hi, b)
    decreases hi - lo
  {
    if lo < hi {
      ExpectedSame(f, lo, hi - 1, a, b);
    }
  }

  lemma {:induction false} DrainFaithful<T>(r: Rx<T>, clock: Instant, f: int -> T)
    requires Ready(r) && r.started && r.start <= r.next && Faithful(r, f)
    requires forall k :: k in r.lost ==> k < r.next
    ensures Faithful(Drain(r, clock), f)
    decreases |r.pend|
  {
    if r.next in r.pend {
      var d := DeliverNext(r);
      assert r.pend == d.pend[r.next := r.pend[r.next]];
      DrainFaithful(d, clock, f);
    }
  }

  lemma SkipFaithful<T>(r: Rx<T>, now: Instant, clock: Instant, f: int -> T)
    requires r.started && r.pend != map[] && Ordered(r) && r.start <= r.next && Faithful(r, f)
    requires forall k :: k in r.lost ==> k < r.next
    ensures r.next < Least(r.pend.Keys) && Faithful(SkipToLowest(r, now, clock), f)
  {
    var lowest := Least(r.pend.Keys);
    ExpectedSkips(f, r.start, r.next, lowest, r.lost);
    DrainFaithful(StepOver(r, lowest, now), clock, f);
  }

  lemma LatchFaithful<T>(r: Rx<T>, now: Instant, clock: Instant, f: int -> T)
    requires !r.started && r.pend != map[] && r.lost == {} && r.output == [] && Faithful(r, f)
    requires r.maxSeen in r.pend && forall k :: k in r.pend ==> k <= r.maxSeen
    ensures Faithful(Latch(r, now, clock), f)
  {
    var lowest := Least(r.pend.Keys);
    DrainFaithful(r.(started := true, next := lowest, start := lowest, blockedSince := now), clock, f);
  }

  lemma PushFaithful<T>(c: Config, r: Rx<T>, n: int, now: Instant, clock: Instant, f: int -> T)
    requires c.Valid() && Inv(c, r) && Faithful(r, f)
    ensures Faithful(Push(c, r, n, f(n), now, clock), f)
  {
    var s := NoteSeen(r, n, now);
    assert Faithful(s, f);
    if !s.started {
      SettlingFaithful(c, s, n, now, clock, f);
    } else if n == s.next {
      PassFaithful(s, n, clock, f);
    } else if n > s.next {
      AheadFaithful(c, s, n, now, clock, f);
    }
  }

  lemma PassFaithful<T>(s: Rx<T>, n: int, clock: Instant, f: int -> T)
    requires s.started && s.start <= n == s.next && Faithful(s, f) && forall k :: k in s.lost ==> k < n
    requires (forall k :: k in s.pend ==> n < k <= s.maxSeen) && (s.maxSeen == n || s.maxSeen in s.pend)
    ensures Faithful(Passed(s, n, f(n), clock), f)
  {
    DrainFaithful(s.(next := n + 1, stats := Delivering(s.stats, 1), output := s.output + [f(n)]), clock, f);
  }

  lemma SettlingFaithful<T>(c: Config, r: Rx<T>, n: int, now: Instant, clock: Instant, f: int -> T)
    requires !r.started && r.lost == {} && r.output == [] && Faithful(r, f)
    requires n <= r.maxSeen && (n == r.maxSeen || r.maxSeen in r.pend) && forall k :: k in r.pend ==> k <= r.maxSeen
    ensures Faithful(PushSettling(c, r, n, f(n), now, clock), f)
  {
    if n !in r.pend {
      var h := Hold(r, n, f(n), now);
      assert n in h.pend && h.maxSeen in h.pend;
      if !(now - h.firstSeen < c.settle && |h.pend| <= c.maxPend) {
        LatchFaithful(h, now, clock, f);
      }
    }
  }

  lemma AheadFaithful<T>(c: Config, r: Rx<T>, n: int, now: Instant, clock: Instant, f: int -> T)
    requires r.started && r.start <= r.next && Faithful(r, f) && forall k :: k in r.lost ==> k < r.next
    requires r.next < n <= r.maxSeen && (n == r.maxSeen || r.maxSeen in r.pend)
    requires forall k :: k in r.pend ==> r.next < k <= r.maxSeen
    ensures Faithful(PushAhead(c, r, n, f(n), now, clock), f)
  {
    if n !in r.pend {
      var h := Hold(r, n, f(n), now);
      assert n in h.pend && h.maxSeen in h.pend;
      if |h.pend| > c.maxPend {
        SkipFaithful(h, now, clock, f);
      }
    }
  }

  lemma ExpireFaithful<T>(c: Config, r: Rx<T>, now: Instant, clock: Instant, f: int -> T)
    requires Inv(c, r) && Faithful(r, f)
    ensures Faithful(Expire(c, r, now, clock), f)
  {
    if r.started && SkipDue(c, r, now) {
      SkipFaithful(r, now, clock, f);
    } else if !r.started && r.pend != map[] && now - r.firstSeen >= c.settle {
      LatchFaithful(r, now, clock, f);
    }
  }

  lemma TickFaithful<T>(c: Config, r: Rx<T>, now: Instant, clock: Instant, f: int -> T)
    requires c.Valid() && Inv(c, r) && Faithful(r, f)
    ensures Faithful(TickStep(c, r, now, clock), f)
  {
    ExpireFaithful(c, Ask(c, r, now, SEQ_LIST_MAX), now, clock, f);
  }

  /** Every arrival carries the peer's value for its number. */
  ghost predicate Carries<T(!new)>(evs: seq<Event<T>>, f: int -> T) {
    forall e :: e in evs && e.Arrive? ==> e.v == f(e.n)
  }

  /** In every run of one epoch, whatever arrives in whatever order and however often, the
      output is exactly the values from the start to `next`, in order, without those given up. */
  lemma {:induction false} OutputIsExact<T(!new)>(c: Config, r: Rx<T>, evs: seq<Event<T>>, f: int -> T)
    requires c.Valid() && Inv(c, r) && OneEpoch(evs) && Carries(evs, f) && Faithful(r, f)
    ensures Faithful(Run(c, r, evs), f)
    decreases |evs|
  {
    if evs != [] {
      match evs[0] {
        case Arrive(n, v, now, clock) =>
          assert v == f(n);
          PushFaithful(c, r, n, now, clock, f);
        case Tick(now, clock) =>
          TickFaithful(c, r, now, clock, f);
      }
      OutputIsExact(c, Step(c, r, evs[0]), evs[1..], f);
    }
  }
}
