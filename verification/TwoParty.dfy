/** Sender and receiver of one handshake epoch over a network that loses, repeats and reorders
    data frames, acknowledgements and retransmit requests. Whatever was once put on the network
    stays deliverable for ever and any number of times, and may as well never arrive. The sender
    half is what Sender.Downlink keeps, the receiver half is the reassembler that
    Receiver.Reorder follows. */
module TwoParty {
  import opened SeqNum
  import opened Bytes
  import opened Reassembly
  import opened ReassemblyRuns
  import opened ReassemblyGuarantees
  import opened Lossless
  import opened SilentSkip
  import opened Receiver
  import opened Sender

  type Packet = seq<byte>

  datatype Sys = Sys(
    sent: seq<Packet>, acked: int,
    rx: Rx<Packet>,
    air: map<int, Packet>, acks: set<int>, requests: set<seq<int>>)

  datatype Action =
    | Send(p: Packet, legUp: bool)
    | DataArrives(n: int, now: Instant, clock: Instant)
    | TimerTicks(now: Instant, clock: Instant, ackDue: bool)
    | AckArrives(a: int)
    | RequestArrives(list: seq<int>)

  ghost function Start(): Sys {
    Sys([], -1, Fresh<Packet>(), map[], {}, {})
  }

  /** The number is in the sender's stash. */
  ghost predicate Stashed(limit: int, s: Sys, k: int) {
    WindowStart(|s.sent|, s.acked, limit) <= k < |s.sent|
  }

  /** What may happen next: anything the network can deliver, within the half window that
      32-bit numbers can tell apart. */
  ghost predicate Enabled(s: Sys, e: Action) {
    match e
    case Send(p, legUp) => true
    case DataArrives(n, now, clock) => n in s.air && Fits(s.rx, n)
    case TimerTicks(now, clock, ackDue) => true
    case AckArrives(a) => a in s.acks && |s.sent| - a <= HALF
    case RequestArrives(list) => list in s.requests && forall k :: k in list ==> Near(k, |s.sent|)
  }

  ghost function Next(c: Config, limit: int, s: Sys, e: Action): (s': Sys)
    requires c.Valid() && Inv(c, s.rx) && Enabled(s, e)
    ensures Inv(c, s'.rx)
  {
    match e
    case Send(p, legUp) =>
      s.(sent := s.sent + [p], air := if legUp then s.air[|s.sent| := p] else s.air)
    case DataArrives(n, now, clock) =>
      PushKeepsInv(c, s.rx, n, s.air[n], now, clock);
      s.(rx := Push(c, s.rx, n, s.air[n], now, clock))
    case TimerTicks(now, clock, ackDue) =>
      var list := AskList(c, s.rx, now, SEQ_LIST_MAX);
      ExpireKeepsInv(c, Ask(c, s.rx, now, SEQ_LIST_MAX), now, clock);
      var rx := TickStep(c, s.rx, now, clock);
      s.(rx := rx,
         requests := if list == [] then s.requests else s.requests + {list},
         acks := if ackDue && rx.started then s.acks + {rx.next - 1} else s.acks)
    case AckArrives(a) =>
      s.(acked := if a > s.acked then a else s.acked)
    case RequestArrives(list) =>
      s.(air := Resend(limit, s, list))
  }

  /** Every requested number that is stashed goes on the network again. */
  ghost function Resend(limit: int, s: Sys, list: seq<int>): (air: map<int, Packet>)
    ensures forall k :: k in air <==> k in s.air || (k in list && 0 <= k && Stashed(limit, s, k))
    ensures forall k :: k in air ==> air[k] == if k in list && 0 <= k && Stashed(limit, s, k) then s.sent[k] else s.air[k]
  {
    map k | k in s.air.Keys + (set k | k in list && 0 <= k && Stashed(limit, s, k))
      :: if k in list && 0 <= k && Stashed(limit, s, k) then s.sent[k] else s.air[k]
  }

  // ---------------------------------------------------------------- the invariant

  /** The peer's value for a number. */
  ghost function Value(sent: seq<Packet>): int -> Packet {
    k => if 0 <= k < |sent| then sent[k] else []
  }

  ghost predicate Good(c: Config, s: Sys) {
    && Inv(c, s.rx)
    && OnlySent(s) && Faithful(s.rx, Value(s.sent))
    && AcksBehind(s)
    && (forall list :: list in s.requests ==> AllSent(list, |s.sent|))
  }

  ghost predicate AllSent(list: seq<int>, top: int) {
    forall k :: k in list ==> 0 <= k < top
  }

  /** The network and the receiver hold nothing but what was sent, under its own number. */
  ghost predicate OnlySent(s: Sys) {
    && (forall k :: k in s.air ==> 0 <= k < |s.sent| && s.air[k] == s.sent[k])
    && Below(s.rx, |s.sent|)
  }

  /** No acknowledgement, in flight or taken in, reaches the number the receiver waits for. */
  ghost predicate AcksBehind(s: Sys) {
    && (forall a :: a in s.acks ==> s.rx.started && 0 <= a < s.rx.next)
    && -1 <= s.acked && (s.acked >= 0 ==> s.rx.started && s.acked < s.rx.next)
  }

  lemma {:induction false} ExpectedGrows(sent: seq<Packet>, p: Packet, lo: int, hi: int, lost: set<int>)
    requires hi <= |sent|
    ensures Expected(Value(sent + [p]), lo, hi, lost) == Expected(Value(sent), lo, hi, lost)
    decreases hi - lo
  {
    if lo < hi {
      ExpectedGrows(sent, p, lo, hi - 1, lost);
    }
  }

  lemma SendKeepsGood(c: Config, limit: int, s: Sys, p: Packet, legUp: bool)
    requires c.Valid() && Good(c, s)
    ensures Good(c, Next(c, limit, s, Send(p, legUp)))
  {
    if s.rx.started {
      ExpectedGrows(s.sent, p, s.rx.start, s.rx.next, s.rx.lost);
    }
  }

  /** The receiver knows numbers below `top` only. */
  ghost predicate Below(r: Rx<Packet>, top: int) {
    && (forall k :: k in r.pend ==> 0 <= k < top)
    && (r.started ==> 0 <= r.start && r.next <= top && r.maxSeen < top)
  }

  /** A step within the epoch cannot have gone further than the highest number seen. */
  lemma ForwardStays(c: Config, r: Rx<Packet>, q: Rx<Packet>, top: int)
    requires Inv(c, q) && Forward(r, q) && 0 <= r.start && q.maxSeen < top
    ensures Below(q, top)
  {
  }

  lemma PushStays(c: Config, r: Rx<Packet>, n: int, v: Packet, now: Instant, clock: Instant, top: int)
    requires c.Valid() && Inv(c, r) && Below(r, top) && 0 <= n < top
    ensures var q := Push(c, r, n, v, now, clock);
      Below(q, top) && (r.started ==> q.started && r.next <= q.next)
  {
    PushKeepsInv(c, r, n, v, now, clock);
    if r.started {
      PushForward(c, r, n, v, now, clock);
      PushTop(c, r, n, v, now, clock);
      hide Push;
      ForwardStays(c, r, Push(c, r, n, v, now, clock), top);
    } else {
      var s := NoteSeen(r, n, now);
      var h := Hold(s, n, v, now);
      if n !in s.pend && !(now - h.firstSeen < c.settle && |h.pend| <= c.maxPend) {
        LatchStays(h, now, clock, top);
      }
    }
  }

  lemma LatchStays(h: Rx<Packet>, now: Instant, clock: Instant, top: int)
    requires h.pend != map[] && h.maxSeen in h.pend && forall k :: k in h.pend ==> 0 <= k < top && k <= h.maxSeen
    ensures Below(Latch(h, now, clock), top)
  {
    var lowest := Least(h.pend.Keys);
    DrainRun(h.(started := true, next := lowest, start := lowest, blockedSince := now), clock);
  }

  /** The highest number seen is the only bound there is on what is pending. */
  lemma PushTop(c: Config, r: Rx<Packet>, n: int, v: Packet, now: Instant, clock: Instant)
    requires c.Valid() && Inv(c, r) && r.started
    ensures Push(c, r, n, v, now, clock).maxSeen == if n > r.maxSeen then n else r.maxSeen
  {
    hide Accounted, Settling;
    var s := NoteSeen(r, n, now);
    if n == s.next {
      DrainRun(s.(next := n + 1, stats := Delivering(s.stats, 1), output := s.output + [v]), clock);
    } else if n > s.next && n !in s.pend {
      SkipTop(Hold(s, n, v, now), now, clock);
    }
  }

  lemma SkipTop(h: Rx<Packet>, now: Instant, clock: Instant)
    requires h.started && h.pend != map[] && Ordered(h)
    ensures h.next < Least(h.pend.Keys) && SkipToLowest(h, now, clock).maxSeen == h.maxSeen
  {
    DrainRun(StepOver(h, Least(h.pend.Keys), now), clock);
  }

  lemma DataKeepsGood(c: Config, limit: int, s: Sys, n: int, now: Instant, clock: Instant)
    requires c.Valid() && Good(c, s) && Enabled(s, DataArrives(n, now, clock))
    ensures Good(c, Next(c, limit, s, DataArrives(n, now, clock)))
  {
    PushKeepsInv(c, s.rx, n, s.air[n], now, clock);
    PushFaithful(c, s.rx, n, now, clock, Value(s.sent));
    PushStays(c, s.rx, n, s.air[n], now, clock, |s.sent|);
  }

  lemma TickStays(c: Config, r: Rx<Packet>, now: Instant, clock: Instant, top: int)
    requires c.Valid() && Inv(c, r) && Below(r, top)
    ensures var q := TickStep(c, r, now, clock);
      Inv(c, q) && Below(q, top) && (r.started ==> q.started && r.next <= q.next)
  {
    ExpireKeepsInv(c, Ask(c, r, now, SEQ_LIST_MAX), now, clock);
    if r.started {
      TickForward(c, r, now, clock);
      TickTop(c, r, now, clock);
      hide TickStep;
      ForwardStays(c, r, TickStep(c, r, now, clock), top);
    } else if r.pend != map[] && now - r.firstSeen >= c.settle {
      LatchStays(r, now, clock, top);
    }
  }

  lemma TickTop(c: Config, r: Rx<Packet>, now: Instant, clock: Instant)
    requires Inv(c, r) && r.started
    ensures TickStep(c, r, now, clock).maxSeen == r.maxSeen
  {
    var a := Ask(c, r, now, SEQ_LIST_MAX);
    if SkipDue(c, a, now) {
      SkipTop(a, now, clock);
    }
  }

  /** What a tick asks for was sent. */
  lemma AskedWasSent(c: Config, r: Rx<Packet>, now: Instant, top: int)
    requires Inv(c, r) && Below(r, top)
    ensures AllSent(AskList(c, r, now, SEQ_LIST_MAX), top)
  {
    RequestIsExact(c, r, now, SEQ_LIST_MAX);
    var list := AskList(c, r, now, SEQ_LIST_MAX);
    hide AskList;
    forall k | k in list
      ensures 0 <= k < top
    {
      var i :| 0 <= i < |list| && list[i] == k;
    }
  }

  lemma TickKeepsGood(c: Config, limit: int, s: Sys, now: Instant, clock: Instant, ackDue: bool)
    requires c.Valid() && Good(c, s)
    ensures Good(c, Next(c, limit, s, TimerTicks(now, clock, ackDue)))
  {
    var t := Next(c, limit, s, TimerTicks(now, clock, ackDue));
    TickStays(c, s.rx, now, clock, |s.sent|);
    TickFaithful(c, s.rx, now, clock, Value(s.sent));
    AskedWasSent(c, s.rx, now, |s.sent|);
    TickFields(c, limit, s, now, clock, ackDue);
    assert t.rx.started ==> 0 < t.rx.next by {
      hide TickStep, AskList, Next, Faithful;
    }
    AcksStay(s, t);
    hide *;
    StaysGood(c, s, t, AskList(c, s.rx, now, SEQ_LIST_MAX));
  }

  lemma StaysGood(c: Config, s: Sys, t: Sys, list: seq<int>)
    requires Good(c, s) && t.sent == s.sent && t.air == s.air
    requires Inv(c, t.rx) && Below(t.rx, |s.sent|) && Faithful(t.rx, Value(s.sent)) && AcksBehind(t)
    requires AllSent(list, |s.sent|) && (t.requests == s.requests || t.requests == s.requests + {list})
    ensures Good(c, t)
  {
    hide Inv, Below, Faithful, AcksBehind, AllSent;
  }

  /** A tick changes nothing but the receiver and what it has asked for and acknowledged. */
  lemma TickFields(c: Config, limit: int, s: Sys, now: Instant, clock: Instant, ackDue: bool)
    requires c.Valid() && Inv(c, s.rx)
    ensures var t, list := Next(c, limit, s, TimerTicks(now, clock, ackDue)), AskList(c, s.rx, now, SEQ_LIST_MAX);
      && t.sent == s.sent && t.acked == s.acked && t.air == s.air && t.rx == TickStep(c, s.rx, now, clock)
      && (t.requests == s.requests || t.requests == s.requests + {list})
      && (t.acks == s.acks || (t.rx.started && t.acks == s.acks + {t.rx.next - 1}))
  {
    hide TickStep, AskList, Inv;
  }

  lemma AcksStay(s: Sys, t: Sys)
    requires AcksBehind(s) && t.acked == s.acked && (s.rx.started ==> t.rx.started && s.rx.next <= t.rx.next)
    requires t.acks == s.acks || (t.rx.started && 0 < t.rx.next && t.acks == s.acks + {t.rx.next - 1})
    ensures AcksBehind(t)
  {
  }

  lemma AckKeepsGood(c: Config, limit: int, s: Sys, a: int)
    requires c.Valid() && Good(c, s) && Enabled(s, AckArrives(a))
    ensures Good(c, Next(c, limit, s, AckArrives(a)))
  {
  }

  lemma RequestKeepsGood(c: Config, limit: int, s: Sys, list: seq<int>)
    requires c.Valid() && Good(c, s) && Enabled(s, RequestArrives(list))
    ensures Good(c, Next(c, limit, s, RequestArrives(list)))
  {
  }

  /** The invariant holds after every step of sender, receiver and network. */
  lemma StepKeepsGood(c: Config, limit: int, s: Sys, e: Action)
    requires c.Valid() && Good(c, s) && Enabled(s, e)
    ensures Good(c, Next(c, limit, s, e))
  {
    match e
    case Send(p, legUp) => SendKeepsGood(c, limit, s, p, legUp);
    case DataArrives(n, now, clock) => DataKeepsGood(c, limit, s, n, now, clock);
    case TimerTicks(now, clock, ackDue) => TickKeepsGood(c, limit, s, now, clock, ackDue);
    case AckArrives(a) => AckKeepsGood(c, limit, s, a);
    case RequestArrives(list) => RequestKeepsGood(c, limit, s, list);
  }

  // ---------------------------------------------------------------- every run of an epoch

  /** The actions can happen one after the other from `s`. */
  ghost predicate Possible(c: Config, limit: int, s: Sys, es: seq<Action>)
    requires c.Valid() && Inv(c, s.rx)
    decreases |es|
  {
    es != [] ==> Enabled(s, es[0]) && Possible(c, limit, Next(c, limit, s, es[0]), es[1..])
  }

  /** Where they lead. A run of the epoch is one from `Start()`. */
  ghost function RunOf(c: Config, limit: int, s: Sys, es: seq<Action>): (q: Sys)
    requires c.Valid() && Inv(c, s.rx) && Possible(c, limit, s, es)
    ensures Inv(c, q.rx)
    decreases |es|
  {
    if es == [] then s else RunOf(c, limit, Next(c, limit, s, es[0]), es[1..])
  }

  lemma StartIsGood(c: Config)
    requires c.Valid()
    ensures Good(c, Start())
  {
  }

  lemma {:induction false} RunIsGood(c: Config, limit: int, s: Sys, es: seq<Action>)
    requires c.Valid() && Good(c, s) && Possible(c, limit, s, es)
    ensures Good(c, RunOf(c, limit, s, es)) && |s.sent| <= |RunOf(c, limit, s, es).sent|
    decreases |es|
  {
    if es == [] {
    } else {
      StepKeepsGood(c, limit, s, es[0]);
      RunIsGood(c, limit, Next(c, limit, s, es[0]), es[1..]);
    }
  }

  /** Two-party safety: the receiver has output exactly what was sent under the numbers from its
      start to `next`, in sending order and once each, without those it gave up; and everything it
      passed over it either output or gave up. */
  lemma OutputIsWhatWasSent(c: Config, s: Sys)
    requires Good(c, s) && s.rx.started
    ensures 0 <= s.rx.start < s.rx.next <= |s.sent|
    ensures s.rx.output == Expected(Value(s.sent), s.rx.start, s.rx.next, s.rx.lost)
    ensures |s.rx.output| + |s.rx.lost| == s.rx.next - s.rx.start
  {
  }

  /** Acknowledgements never free what can still be asked for: whenever a request is due, every
      number it names is stashed if and only if the sender is at most `limit` frames past the
      receiver's `next`. Delay, loss and reordering of acknowledgements do not enter. */
  lemma AskedIsStashed(c: Config, limit: int, s: Sys, now: Instant)
    requires c.Valid() && 0 < limit && Good(c, s) && AskDue(c, s.rx, now)
    ensures (forall k :: k in AskList(c, s.rx, now, SEQ_LIST_MAX) ==> Stashed(limit, s, k)) <==> |s.sent| - s.rx.next <= limit
  {
    AskedRange(c, s, now);
    assert s.rx.next in AskList(c, s.rx, now, SEQ_LIST_MAX);
  }

  /** The same for requests however late they arrive: of the numbers a request names, those the
      receiver still waits for are stashed; what can be missed, it no longer needs. */
  lemma LateRequestsAreServed(c: Config, limit: int, s: Sys, list: seq<int>, k: int)
    requires 0 < limit && Good(c, s) && list in s.requests && k in list
    requires |s.sent| - s.rx.next <= limit
    ensures s.rx.started && s.rx.next <= k ==> Stashed(limit, s, k)
  {
  }

  /** All three hold in every state of every run of an epoch. */
  lemma EveryRunIsSafe(c: Config, limit: int, es: seq<Action>, now: Instant, list: seq<int>, k: int)
    requires c.Valid() && 0 < limit && Possible(c, limit, Start(), es)
    ensures var s := RunOf(c, limit, Start(), es);
      && (s.rx.started ==> s.rx.output == Expected(Value(s.sent), s.rx.start, s.rx.next, s.rx.lost))
      && (AskDue(c, s.rx, now) ==>
            ((forall k :: k in AskList(c, s.rx, now, SEQ_LIST_MAX) ==> Stashed(limit, s, k)) <==> |s.sent| - s.rx.next <= limit))
      && (list in s.requests && k in list && s.rx.started && s.rx.next <= k && |s.sent| - s.rx.next <= limit ==> Stashed(limit, s, k))
  {
    StartIsGood(c);
    RunIsGood(c, limit, Start(), es);
    var s := RunOf(c, limit, Start(), es);
    if AskDue(c, s.rx, now) {
      AskedIsStashed(c, limit, s, now);
    }
    hide AskDue, AskList, RunOf, Possible, Inv;
  }

  lemma AskedRange(c: Config, s: Sys, now: Instant)
    requires c.Valid() && Good(c, s) && AskDue(c, s.rx, now)
    ensures AskList(c, s.rx, now, SEQ_LIST_MAX) != [] && s.acked < s.rx.next && AskList(c, s.rx, now, SEQ_LIST_MAX)[0] == s.rx.next
    ensures forall k :: k in AskList(c, s.rx, now, SEQ_LIST_MAX) ==> 0 <= s.rx.next <= k < |s.sent|
  {
    var list := AskList(c, s.rx, now, SEQ_LIST_MAX);
    RequestIsExact(c, s.rx, now, SEQ_LIST_MAX);
    forall k | k in list
      ensures s.rx.next <= k < |s.sent|
    {
      var i :| 0 <= i < |list| && list[i] == k;
    }
  }

  // ---------------------------------------------------------------- a repair round

  /** A tick's request reaches a sender that still has all it names. */
  lemma RequestCanArrive(c: Config, limit: int, s: Sys, now: Instant, clock: Instant, ackDue: bool)
    requires c.Valid() && 0 < limit <= HALF && Good(c, s) && AskDue(c, s.rx, now)
    requires |s.sent| - s.rx.next <= limit
    ensures var list, asked := AskList(c, s.rx, now, SEQ_LIST_MAX), Next(c, limit, s, TimerTicks(now, clock, ackDue));
      && Good(c, asked) && asked.sent == s.sent && asked.rx == TickStep(c, s.rx, now, clock)
      && Enabled(asked, RequestArrives(list)) && forall k :: k in list ==> 0 <= k && Stashed(limit, asked, k)
  {
    AskedRange(c, s, now);
    AskedIsNear(c, limit, s, now);
    TickIsSent(c, limit, s, now, clock, ackDue);
    hide *;
    RequestReaches(limit, s, Next(c, limit, s, TimerTicks(now, clock, ackDue)), AskList(c, s.rx, now, SEQ_LIST_MAX));
  }

  lemma RequestReaches(limit: int, s: Sys, t: Sys, list: seq<int>)
    requires t.sent == s.sent && t.acked == s.acked && list in t.requests
    requires forall k :: k in list ==> 0 <= k && Near(k, |s.sent|) && Stashed(limit, s, k)
    ensures Enabled(t, RequestArrives(list)) && forall k :: k in list ==> 0 <= k && Stashed(limit, t, k)
  {
  }

  lemma AskedIsNear(c: Config, limit: int, s: Sys, now: Instant)
    requires c.Valid() && 0 < limit <= HALF && Good(c, s) && AskDue(c, s.rx, now)
    requires |s.sent| - s.rx.next <= limit
    ensures forall k :: k in AskList(c, s.rx, now, SEQ_LIST_MAX) ==> 0 <= k && Near(k, |s.sent|) && Stashed(limit, s, k)
  {
    AskedRange(c, s, now);
    hide Good, AskDue, AskList;
  }

  lemma TickIsSent(c: Config, limit: int, s: Sys, now: Instant, clock: Instant, ackDue: bool)
    requires c.Valid() && Good(c, s)
    ensures var list, asked := AskList(c, s.rx, now, SEQ_LIST_MAX), Next(c, limit, s, TimerTicks(now, clock, ackDue));
      && Good(c, asked) && asked.sent == s.sent && asked.acked == s.acked && asked.rx == TickStep(c, s.rx, now, clock)
      && (list != [] ==> list in asked.requests)
  {
    StepKeepsGood(c, limit, s, TimerTicks(now, clock, ackDue));
    hide Good, TickStep, AskDue, AskList, Inv;
  }

  lemma RequestIsAnswered(c: Config, limit: int, s: Sys, list: seq<int>, k: int)
    requires c.Valid() && Inv(c, s.rx) && Enabled(s, RequestArrives(list)) && k in list && 0 <= k && Stashed(limit, s, k)
    ensures var q := Next(c, limit, s, RequestArrives(list));
      k in q.air && q.air[k] == s.sent[k]
  {
    hide Inv, Enabled;
  }

  /** A tick asks for the gap, and the request gets through and is served. */
  ghost function AskAndServe(c: Config, limit: int, s: Sys, now: Instant, clock: Instant, ackDue: bool): (q: Sys)
    requires c.Valid() && 0 < limit <= HALF && Good(c, s) && AskDue(c, s.rx, now)
    requires |s.sent| - s.rx.next <= limit
  {
    RequestCanArrive(c, limit, s, now, clock, ackDue);
    Next(c, limit, Next(c, limit, s, TimerTicks(now, clock, ackDue)), RequestArrives(AskList(c, s.rx, now, SEQ_LIST_MAX)))
  }

  lemma ServedIsGood(c: Config, limit: int, s: Sys, now: Instant, clock: Instant, ackDue: bool)
    requires c.Valid() && 0 < limit <= HALF && Good(c, s) && AskDue(c, s.rx, now)
    requires |s.sent| - s.rx.next <= limit
    ensures var q := AskAndServe(c, limit, s, now, clock, ackDue);
      Good(c, q) && Inv(c, q.rx) && q.sent == s.sent && q.rx == TickStep(c, s.rx, now, clock)
  {
    var asked := Next(c, limit, s, TimerTicks(now, clock, ackDue));
    RequestCanArrive(c, limit, s, now, clock, ackDue);
    StepKeepsGood(c, limit, asked, RequestArrives(AskList(c, s.rx, now, SEQ_LIST_MAX)));
    hide Good, TickStep, AskDue, AskList, Inv, Enabled, Resend;
  }

  /** The served request puts everything it named back on the network, unaltered, so nothing but
      the network stands between the receiver and the numbers it asked for. */
  lemma ServedRequestIsOnTheAir(c: Config, limit: int, s: Sys, now: Instant, clock: Instant, ackDue: bool, k: int)
    requires c.Valid() && 0 < limit <= HALF && Good(c, s) && AskDue(c, s.rx, now)
    requires |s.sent| - s.rx.next <= limit
    requires k in AskList(c, s.rx, now, SEQ_LIST_MAX)
    ensures var q := AskAndServe(c, limit, s, now, clock, ackDue);
      0 <= k < |s.sent| && k in q.air && q.air[k] == s.sent[k]
  {
    RequestCanArrive(c, limit, s, now, clock, ackDue);
    hide Good, Next, Inv, TickStep, Ask, AskDue, AskList, Enabled;
    RequestIsAnswered(c, limit, Next(c, limit, s, TimerTicks(now, clock, ackDue)), AskList(c, s.rx, now, SEQ_LIST_MAX), k);
  }

  /** What the receiver sees of an action. */
  ghost function Seen(s: Sys, e: Action): seq<Event<Packet>>
    requires Enabled(s, e)
  {
    match e
    case DataArrives(n, now, clock) => [Arrive(n, s.air[n], now, clock)]
    case TimerTicks(now, clock, _) => [Tick(now, clock)]
    case _ => []
  }

  ghost function SeenAll(c: Config, limit: int, s: Sys, es: seq<Action>): seq<Event<Packet>>
    requires c.Valid() && Inv(c, s.rx) && Possible(c, limit, s, es)
    decreases |es|
  {
    if es == [] then [] else Seen(s, es[0]) + SeenAll(c, limit, Next(c, limit, s, es[0]), es[1..])
  }

  ghost function ArrivedIn(es: seq<Action>): set<int> {
    if es == [] then {} else ArrivedIn(es[1..]) + if es[0].DataArrives? then {es[0].n} else {}
  }

  /** The receiver's part of a run is its own run on what it sees, which is what arrives, and
      nothing that was not sent by the end of it. */
  lemma {:induction false} ReceiverRuns(c: Config, limit: int, s: Sys, es: seq<Action>)
    requires c.Valid() && Good(c, s) && Possible(c, limit, s, es)
    ensures var q, evs := RunOf(c, limit, s, es), SeenAll(c, limit, s, es);
      && q.rx == Run(c, s.rx, evs) && OneEpoch(evs) && Numbers(evs) == ArrivedIn(es)
      && Within(evs, 0, |q.sent|, true)
    decreases |es|
  {
    if es == [] {
    } else {
      var t := Next(c, limit, s, es[0]);
      StepKeepsGood(c, limit, s, es[0]);
      RunIsGood(c, limit, s, es);
      ReceiverRuns(c, limit, t, es[1..]);
      ReceiverSteps(c, limit, s, es[0], SeenAll(c, limit, t, es[1..]), |RunOf(c, limit, s, es).sent|);
    }
  }

  lemma ReceiverSteps(c: Config, limit: int, s: Sys, e: Action, rest: seq<Event<Packet>>, b: int)
    requires c.Valid() && Good(c, s) && Enabled(s, e) && OneEpoch(rest) && Within(rest, 0, b, true) && |s.sent| <= b
    ensures var evs := Seen(s, e) + rest;
      && Run(c, s.rx, evs) == Run(c, Next(c, limit, s, e).rx, rest) && OneEpoch(evs)
      && Numbers(evs) == Numbers(rest) + (if e.DataArrives? then {e.n} else {})
      && Within(evs, 0, b, true)
  {
    SeenIsStepped(c, limit, s, e);
    hide *;
    var first := Seen(s, e);
    if first == [] {
      assert first + rest == rest;
    } else {
      assert first == [first[0]];
      RunCons(c, s.rx, first[0], rest, b);
    }
  }

  lemma SeenIsStepped(c: Config, limit: int, s: Sys, e: Action)
    requires c.Valid() && Good(c, s) && Enabled(s, e)
    ensures Inv(c, s.rx) && |Seen(s, e)| <= 1
    ensures var number := if e.DataArrives? then {e.n} else {};
      if Seen(s, e) == [] then Next(c, limit, s, e).rx == s.rx && number == {}
      else var a := Seen(s, e)[0];
        a != Handshake && Next(c, limit, s, e).rx == Step(c, s.rx, a) && NumberOf(a) == number && (a.Arrive? ==> a.n < |s.sent|)
  {
  }

  lemma RunCons<T>(c: Config, r: Rx<T>, e: Event<T>, rest: seq<Event<T>>, b: int)
    requires c.Valid() && Inv(c, r) && e != Handshake && OneEpoch(rest)
    requires Within(rest, 0, b, true) && (e.Arrive? ==> e.n < b)
    ensures Run(c, r, [e] + rest) == Run(c, Step(c, r, e), rest)
    ensures Numbers([e] + rest) == NumberOf(e) + Numbers(rest)
    ensures OneEpoch([e] + rest) && Within([e] + rest, 0, b, true)
  {
    assert ([e] + rest)[1..] == rest;
  }

  /** Repair, from end to end: a tick asks for a whole gap while the sender still has it, the
      request is served, and everything it named gets through before the gap times out, however
      it is reordered and whatever else is sent, lost, repeated, asked and acknowledged meanwhile.
      Then the gap is over, nothing was given up, and what was sent up to there has been output. */
  lemma ServedGapCloses(c: Config, limit: int, s: Sys, now: Instant, clock: Instant, ackDue: bool, es: seq<Action>)
    requires c.Valid() && 0 < limit <= HALF && Good(c, s) && AskDue(c, s.rx, now) && !SkipDue(c, s.rx, now)
    requires |s.sent| - s.rx.next <= limit
    requires forall k :: s.rx.next <= k <= s.rx.maxSeen && k !in s.rx.pend ==> k in AskList(c, s.rx, now, SEQ_LIST_MAX)
    requires var q := AskAndServe(c, limit, s, now, clock, ackDue);
      && Inv(c, q.rx) && Possible(c, limit, q, es)
      && (forall k :: k in AskList(c, s.rx, now, SEQ_LIST_MAX) ==> k in ArrivedIn(es))
      && NoTimeout(c, q.rx, SeenAll(c, limit, q, es))
      && (NoOverflow(c, q.rx, SeenAll(c, limit, q, es)) || |RunOf(c, limit, q, es).sent| - s.rx.next <= c.maxPend)
    ensures var end := RunOf(c, limit, AskAndServe(c, limit, s, now, clock, ackDue), es);
      && end.rx.lost == s.rx.lost && s.rx.maxSeen < end.rx.next
      && end.rx.output == Expected(Value(end.sent), s.rx.start, end.rx.next, s.rx.lost)
  {
    var q := AskAndServe(c, limit, s, now, clock, ackDue);
    ServedIsGood(c, limit, s, now, clock, ackDue);
    hide AskAndServe;
    var end, evs := RunOf(c, limit, q, es), SeenAll(c, limit, q, es);
    assert q.rx == Ask(c, s.rx, now, SEQ_LIST_MAX);
    ReceiverRuns(c, limit, q, es);
    RunIsGood(c, limit, q, es);
    RepairClosesGap(c, q.rx, evs, |end.sent|);
    RunForward(c, q.rx, evs);
    OutputIsWhatWasSent(c, end);
  }

  // ---------------------------------------------------------------- falling behind

  ghost function Sends(n: nat): seq<Action> {
    seq(n, _ => Send([], true))
  }

  lemma {:induction false} RunSnocs(c: Config, limit: int, s: Sys, es: seq<Action>, e: Action)
    requires c.Valid() && Inv(c, s.rx) && Possible(c, limit, s, es) && Enabled(RunOf(c, limit, s, es), e)
    ensures Possible(c, limit, s, es + [e])
    ensures RunOf(c, limit, s, es + [e]) == Next(c, limit, RunOf(c, limit, s, es), e)
    decreases |es|
  {
    if es == [] {
      assert es + [e] == [e];
    } else {
      assert (es + [e])[1..] == es[1..] + [e];
      RunSnocs(c, limit, Next(c, limit, s, es[0]), es[1..], e);
    }
  }

  lemma {:induction false} SendsRun(c: Config, limit: int, n: nat)
    requires c.Valid()
    ensures Possible(c, limit, Start(), Sends(n))
    ensures var s := RunOf(c, limit, Start(), Sends(n));
      && |s.sent| == n && s.acked == -1 && s.rx == Fresh<Packet>()
      && forall k :: 0 <= k < n ==> k in s.air && s.air[k] == []
  {
    if n == 0 {
    } else {
      SendsRun(c, limit, n - 1);
      assert Sends(n) == Sends(n - 1) + [Send([], true)];
      hide RunOf, Possible, Sends;
      RunSnocs(c, limit, Start(), Sends(n - 1), Send([], true));
    }
  }

  /** A run in which `n` frames are sent and the receiver has seen 0 and 2 only. */
  lemma OneIsMissing(c: Config, limit: nat, n: nat) returns (es: seq<Action>)
    requires c.Valid() && 0 < limit && 3 <= n
    ensures Possible(c, limit, Start(), es)
    ensures var s := RunOf(c, limit, Start(), es);
      |s.sent| == n && Gap(s.rx, 1, [], 1 + c.settle) && s.rx.lastRequest == 0
  {
    var t := 1 + c.settle;
    var e1, e2, e3 := DataArrives(0, 1, 1), TimerTicks(t, t, false), DataArrives(2, t, t);
    var es0 := Sends(n);
    SendsRun(c, limit, n);
    var s0 := RunOf(c, limit, Start(), es0);
    hide RunOf, Possible, Push, TickStep;
    RunSnocs(c, limit, Start(), es0, e1);
    var s1 := Next(c, limit, s0, e1);
    RunSnocs(c, limit, Start(), es0 + [e1], e2);
    var s2 := Next(c, limit, s1, e2);
    OpeningIsSeen(c, s1.rx, s2.rx);
    RunSnocs(c, limit, Start(), es0 + [e1] + [e2], e3);
    GapOpens(c, s2.rx, 1, [], t, t);
    es := es0 + [e1] + [e2] + [e3];
  }

  /** The other side of `AskedIsStashed` is reached too: with any configuration and any limit there
      is a run in which a request is due and the number it begins with is no longer stashed. */
  lemma FallingBehindLosesTheStash(c: Config, limit: nat) returns (es: seq<Action>, now: Instant)
    requires c.Valid() && 0 < limit
    ensures Possible(c, limit, Start(), es)
    ensures var s := RunOf(c, limit, Start(), es);
      && AskDue(c, s.rx, now) && |s.sent| - s.rx.next == limit + 1
      && s.rx.next in AskList(c, s.rx, now, SEQ_LIST_MAX) && !Stashed(limit, s, s.rx.next)
  {
    es := OneIsMissing(c, limit, limit + 2);
    now := 1 + c.settle + c.retransmitAfter;
    var s := RunOf(c, limit, Start(), es);
    StartIsGood(c);
    RunIsGood(c, limit, Start(), es);
    hide Good, RunOf, Possible;
    AskedRange(c, s, now);
    assert s.rx.next in AskList(c, s.rx, now, SEQ_LIST_MAX);
  }

  /** And so is the situation `ServedGapCloses` speaks of: with any configuration that asks before
      it gives up and any limit above 1 there is a run with a gap that is asked for, served and
      repaired. */
  lemma RepairHappens(c: Config, limit: nat) returns (es: seq<Action>, now: Instant)
    requires c.Valid() && 1 < limit <= HALF && c.retransmitAfter < c.skipAfter
    ensures Possible(c, limit, Start(), es) && Good(c, RunOf(c, limit, Start(), es))
    ensures var s := RunOf(c, limit, Start(), es);
      && AskDue(c, s.rx, now) && |s.sent| - s.rx.next <= limit && s.rx.next == 1
      && var q := AskAndServe(c, limit, s, now, now, false);
      && Inv(c, q.rx) && Possible(c, limit, q, [DataArrives(1, now, now)])
      && var end := RunOf(c, limit, q, [DataArrives(1, now, now)]);
      2 < end.rx.next && end.rx.lost == s.rx.lost
  {
    es := OneIsMissing(c, limit, 3);
    now := 1 + c.settle + c.retransmitAfter;
    StartIsGood(c);
    RunIsGood(c, limit, Start(), es);
    RepairFrom(c, limit, RunOf(c, limit, Start(), es), now);
  }

  lemma RepairFrom(c: Config, limit: nat, s: Sys, now: Instant)
    requires c.Valid() && 1 < limit <= HALF && c.retransmitAfter < c.skipAfter && Good(c, s) && |s.sent| == 3
    requires Gap(s.rx, 1, [], now - c.retransmitAfter) && s.rx.lastRequest == 0
    ensures AskDue(c, s.rx, now)
    ensures var q := AskAndServe(c, limit, s, now, now, false);
      && Inv(c, q.rx) && Possible(c, limit, q, [DataArrives(1, now, now)])
      && var end := RunOf(c, limit, q, [DataArrives(1, now, now)]);
      2 < end.rx.next && end.rx.lost == s.rx.lost
  {
    hide *;
    GapIsAsked(c, s, now);
    var q := AskAndServe(c, limit, s, now, now, false);
    ServedIsGood(c, limit, s, now, now, false);
    ServedRequestIsOnTheAir(c, limit, s, now, now, false, 1);
    OneArrival(c, limit, q, 1, now);
    ServedGapCloses(c, limit, s, now, now, false, [DataArrives(1, now, now)]);
  }

  lemma GapIsAsked(c: Config, s: Sys, now: Instant)
    requires c.Valid() && c.retransmitAfter < c.skipAfter && Good(c, s)
    requires Gap(s.rx, 1, [], now - c.retransmitAfter) && s.rx.lastRequest == 0
    ensures s.rx.next == 1 && s.rx.maxSeen == 2 && s.rx.pend == map[2 := []]
    ensures AskDue(c, s.rx, now) && !SkipDue(c, s.rx, now) && AskList(c, s.rx, now, SEQ_LIST_MAX) == [1]
    ensures var r := TickStep(c, s.rx, now, now);
      r.started && r.next == 1 && r.pend == map[2 := []] && r.maxSeen == 2
  {
    assert Gaps(s.rx.pend, 3, 2, SEQ_LIST_MAX - 1) == [];
    assert Gaps(s.rx.pend, 2, 2, SEQ_LIST_MAX - 1) == [];
  }

  lemma OneArrival(c: Config, limit: int, q: Sys, n: int, now: Instant)
    requires c.Valid() && Inv(c, q.rx) && n in q.air && q.rx.started && n == q.rx.next && 0 <= q.rx.maxSeen - n < HALF
    ensures var es := [DataArrives(n, now, now)];
      && Possible(c, limit, q, es) && ArrivedIn(es) == {n}
      && NoTimeout(c, q.rx, SeenAll(c, limit, q, es)) && NoOverflow(c, q.rx, SeenAll(c, limit, q, es))
  {
    var e := DataArrives(n, now, now);
    var t, a := Next(c, limit, q, e), Arrive(n, q.air[n], now, now);
    assert [e][1..] == [];
    assert ArrivedIn([]) == {} && Possible(c, limit, t, []);
    assert SeenAll(c, limit, t, []) == [] && [a] + [] == [a] && [a][1..] == [];
    assert SeenAll(c, limit, q, [e]) == [a];
  }

  lemma OpeningIsSeen(c: Config, r1: Rx<Packet>, r2: Rx<Packet>)
    requires c.Valid() && Inv(c, r1) && r1 == Step(c, Fresh<Packet>(), Arrive(0, [], 1, 1))
    requires r2 == Step(c, r1, Tick(1 + c.settle, 1 + c.settle))
    ensures OnlyZero(r2)
  {
    OpeningDelivers<Packet>(c, []);
    var evs := Opening<Packet>(c, []);
    assert evs[1..][1..] == [];
    assert Run(c, Fresh<Packet>(), evs) == Run(c, r1, evs[1..]) == Step(c, r1, evs[1]);
  }
}
