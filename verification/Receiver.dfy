/** The receiver's reassembler as the program runs it: uint32 numbers, a map of pending
    packets and signed differences. Every call is proved to take exactly the step that the
    unbounded reassembler of Reassembly.dfy takes, across any number of wraps. */
module Receiver {
  import opened SeqNum
  import opened Reassembly

  // ---------------------------------------------------------------- pending map on the wire

  /** `wire` holds the packets of `pend` under their wire numbers, all near `base`. */
  ghost predicate Mirrors<T>(wire: map<u32, T>, pend: map<int, T>, base: int) {
    (forall k :: Carried(wire, pend, base, k)) && (forall w :: Sourced(wire, pend, base, w))
  }

  ghost predicate Carried<T>(wire: map<u32, T>, pend: map<int, T>, base: int, k: int) {
    k in pend ==> Near(k, base) && Wrap(k) in wire && wire[Wrap(k)] == pend[k]
  }

  ghost predicate Sourced<T>(wire: map<u32, T>, pend: map<int, T>, base: int, w: u32) {
    w in wire ==> Unwrap(w, base) in pend
  }

  lemma MirrorLookup<T>(wire: map<u32, T>, pend: map<int, T>, base: int, n: int)
    requires Mirrors(wire, pend, base) && Near(n, base)
    ensures Wrap(n) in wire <==> n in pend
    ensures n in pend ==> wire[Wrap(n)] == pend[n]
  {
    UnwrapWrap(n, base);
    assert Carried(wire, pend, base, n) && Sourced(wire, pend, base, Wrap(n));
  }

  lemma MirrorInsert<T>(wire: map<u32, T>, pend: map<int, T>, base: int, n: int, v: T)
    requires Mirrors(wire, pend, base) && Near(n, base)
    ensures Mirrors(wire[Wrap(n) := v], pend[n := v], base)
  {
    var wire', pend' := wire[Wrap(n) := v], pend[n := v];
    forall k
      ensures Carried(wire', pend', base, k)
    {
      assert Carried(wire, pend, base, k);
      if k in pend && Wrap(k) == Wrap(n) {
        WrapInjective(k, n, base);
      }
    }
    forall w
      ensures Sourced(wire', pend', base, w)
    {
      UnwrapWrap(n, base);
      assert Sourced(wire, pend, base, w);
    }
  }

  lemma MirrorRemove<T>(wire: map<u32, T>, pend: map<int, T>, base: int, n: int)
    requires Mirrors(wire, pend, base) && Near(n, base)
    ensures Mirrors(wire - {Wrap(n)}, pend - {n}, base)
  {
    var wire', pend' := wire - {Wrap(n)}, pend - {n};
    forall k
      ensures Carried(wire', pend', base, k)
    {
      assert Carried(wire, pend, base, k);
      if k in pend && Wrap(k) == Wrap(n) {
        WrapInjective(k, n, base);
      }
    }
    forall w
      ensures Sourced(wire', pend', base, w)
    {
      assert Sourced(wire, pend, base, w);
    }
  }

  lemma MirrorRebase<T>(wire: map<u32, T>, pend: map<int, T>, base: int, base': int)
    requires Mirrors(wire, pend, base)
    requires forall k :: k in pend ==> Near(k, base')
    ensures Mirrors(wire, pend, base')
  {
    forall k
      ensures Carried(wire, pend, base', k)
    {
      assert Carried(wire, pend, base, k);
    }
    forall w
      ensures Sourced(wire, pend, base', w)
    {
      assert Sourced(wire, pend, base, w);
      if w in wire {
        UnwrapWrap(Unwrap(w, base), base');
      }
    }
  }

  lemma {:induction false} MirrorSize<T>(wire: map<u32, T>, pend: map<int, T>, base: int)
    requires Mirrors(wire, pend, base)
    ensures |wire| == |pend|
    decreases |pend|
  {
    if pend == map[] {
      assert wire == map[] by {
        forall w: u32
          ensures w !in wire
        {
          assert Sourced(wire, pend, base, w);
        }
      }
    } else {
      var n := Least(pend.Keys);
      assert Carried(wire, pend, base, n);
      MirrorRemove(wire, pend, base, n);
      MirrorSize(wire - {Wrap(n)}, pend - {n}, base);
      assert wire == (wire - {Wrap(n)})[Wrap(n) := wire[Wrap(n)]];
      assert pend == (pend - {n})[n := pend[n]];
    }
  }

  // ---------------------------------------------------------------- the half-window assumption

  /** All numbers the reassembler is holding span less than half the number space. */
  ghost predicate Narrow<T>(r: Rx<T>) {
    && (forall k :: k in r.pend ==> r.maxSeen - k < HALF)
    && (r.started ==> r.maxSeen - r.next < HALF)
  }

  /** What is assumed of an arriving number: it is comparable with `next` and with the highest
      number seen or, while no start is chosen, with every number held so far. */
  ghost predicate Fits<T>(r: Rx<T>, n: int) {
    if r.started then Near(n, r.next) && Near(n, r.maxSeen)
    else forall k :: k in r.pend ==> -HALF < n - k < HALF
  }

  /** The number the pending map is read against. */
  ghost function Base<T>(r: Rx<T>): int {
    if r.started then r.next else r.maxSeen
  }

  /** A quarter-space bound on the arrivals keeps every one of them within the assumption. */
  lemma QuarterWindowFits<T>(c: Config, r: Rx<T>, n: int)
    requires Inv(c, r) && r.started
    requires r.maxSeen - r.next < HALF / 2 && -(HALF / 2) <= n - r.next < HALF / 2
    ensures Fits(r, n) && (if n > r.maxSeen then n else r.maxSeen) - r.next < HALF / 2
  {
  }

  /** Why lateness alone is not enough: `Push` compares with the highest number seen before it
      looks at `next`, so a late number may pass for a new highest one, exactly when it lies more
      than half the number space below the true one. */
  lemma LateNumberRaisesMaxSeenExactly(n: int, next: int, maxSeen: int)
    requires n < next <= maxSeen + 1 && Near(n, next) && maxSeen - next < HALF
    ensures Diff(Wrap(n), Wrap(next)) < 0
    ensures Diff(Wrap(n), Wrap(maxSeen)) > 0 <==> maxSeen - n > HALF
  {
    hide SeqNum.Wrap, SeqNum.Diff;
    DiffIsTrueDifference(n, next);
    if maxSeen - n > HALF {
      DiffBeyondHalf(n, maxSeen);
    } else {
      DiffIsTrueDifference(n, maxSeen);
    }
  }

  const MILLISECOND: int := 1_000_000

  class Reorder<T> {
    const cfg: Config

    var next: u32
    var started: bool
    var firstSeen: int
    var pend: map<u32, T>
    var blockedSince: int
    var lastRequest: int
    var stats: Stats
    var maxSeen: u32

    ghost var model: Rx<T>

    /** The fields are the model's, with sequence numbers wrapped. */
    ghost predicate Agrees()
      reads this
    {
      && started == model.started
      && next == Wrap(model.next) && maxSeen == Wrap(model.maxSeen)
      && firstSeen == model.firstSeen && blockedSince == model.blockedSince && lastRequest == model.lastRequest
      && stats == model.stats
      && Mirrors(pend, model.pend, Base(model))
    }

    ghost predicate Valid()
      reads this
    {
      cfg.Valid() && Inv(cfg, model) && Narrow(model) && Agrees()
    }

    constructor (maxPending: int, retransmitAfter: int, skipAfter: int, settle: int)
      ensures Valid() && model == Fresh<T>()
      ensures cfg.maxPend == if maxPending <= 0 then 4096 else maxPending
      ensures cfg.retransmitAfter == if retransmitAfter <= 0 then 60 * MILLISECOND else retransmitAfter
      ensures cfg.skipAfter == if skipAfter <= 0 then 1500 * MILLISECOND else skipAfter
      ensures cfg.settle == if settle == 0 then 25 * MILLISECOND else if settle < 0 then 0 else settle
    {
      cfg := Config(
        if maxPending <= 0 then 4096 else maxPending,
        if retransmitAfter <= 0 then 60 * MILLISECOND else retransmitAfter,
        if skipAfter <= 0 then 1500 * MILLISECOND else skipAfter,
        if settle == 0 then 25 * MILLISECOND else if settle < 0 then 0 else settle);
      next, started, firstSeen, pend := 0, false, 0, map[];
      blockedSince, lastRequest := 0, 0;
      stats := Stats(0, 0, 0, 0, 0);
      maxSeen := 0;
      model := Fresh<T>();
    }

    /** Offer a packet. `n` is the unwrapped number behind `num`, `clock` the reading drain takes. */
    method Push(num: u32, v: T, now: Instant, clock: Instant, ghost n: int) returns (out: seq<T>)
      requires Valid() && num == Wrap(n) && Fits(model, n)
      modifies this
      ensures Valid()
      ensures model == Reassembly.Push(cfg, old(model), n, v, now, clock)
      ensures model.output == old(model.output) + out
    {
      PushKeepsInv(cfg, model, n, v, now, clock);
      if !started {
        out := PushSettling(num, v, now, clock, n);
      } else {
        out := PushStarted(num, v, now, clock, n);
      }
    }

    /** The half of `Push` that runs until a start is chosen. */
    method PushSettling(num: u32, v: T, now: Instant, clock: Instant, ghost n: int) returns (out: seq<T>)
      requires Valid() && num == Wrap(n) && Fits(model, n) && !started
      modifies this
      ensures Agrees() && Narrow(model)
      ensures model == Reassembly.Push(cfg, old(model), n, v, now, clock)
      ensures model.output == old(model.output) + out
    {
      out := [];
      if firstSeen == 0 {
        firstSeen, maxSeen := now, num;
        model := model.(firstSeen := now, maxSeen := n);
        MirrorRebase(pend, model.pend, old(model).maxSeen, n);
      }
      NoteHighest(num, n);
      MirrorLookup(pend, model.pend, model.maxSeen, n);
      if num in pend {
        CountDuplicate();
        return;
      }
      HoldPacket(num, v, now, n);
      MirrorSize(pend, model.pend, model.maxSeen);
      if now - firstSeen < cfg.settle && |pend| <= cfg.maxPend {
        return;
      }
      out := LatchLowest(now, clock);
    }

    /** The half of `Push` that runs once a start is chosen. */
    method PushStarted(num: u32, v: T, now: Instant, clock: Instant, ghost n: int) returns (out: seq<T>)
      requires Valid() && num == Wrap(n) && Fits(model, n) && started
      modifies this
      ensures Agrees() && Narrow(model)
      ensures model == Reassembly.Push(cfg, old(model), n, v, now, clock)
      ensures model.output == old(model.output) + out
    {
      out := [];
      NoteHighest(num, n);
      DiffIsTrueDifference(n, model.next);
      hide SeqNum.Wrap, SeqNum.Diff, Mirrors, Drain, Reassembly.PushAhead;
      var d := Diff(num, next);
      if d < 0 {
        stats := stats.(late := stats.late + 1);
        model := model.(stats := stats);
        return;
      }
      if d == 0 {
        PassNext(v);
        out := DrainInto([v], clock);
        return;
      }
      out := PushAhead(num, v, now, clock, n);
    }

    /** A packet ahead of `next` waits its turn, unless it is already waiting. */
    method PushAhead(num: u32, v: T, now: Instant, clock: Instant, ghost n: int) returns (out: seq<T>)
      requires started && Agrees() && Narrow(model) && num == Wrap(n) && Near(n, model.next)
      requires forall k :: k in model.pend ==> model.next < k <= model.maxSeen
      requires model.next < n <= model.maxSeen && (n == model.maxSeen || model.maxSeen in model.pend)
      modifies this
      ensures Agrees() && Narrow(model)
      ensures model == Reassembly.PushAhead(cfg, old(model), n, v, now, clock)
      ensures model.output == old(model.output) + out
    {
      MirrorLookup(pend, model.pend, model.next, n);
      if num in pend {
        CountDuplicate();
        return [];
      }
      HoldPacket(num, v, now, n);
      assert n in model.pend && Ordered(model);
      out := Relieve(now, clock);
    }

    /** Past the cap the oldest gap is given up at once; up to the cap nothing happens. */
    method Relieve(now: Instant, clock: Instant) returns (out: seq<T>)
      requires started && Agrees() && Narrow(model) && Ordered(model) && model.pend != map[]
      modifies this
      ensures Agrees() && Narrow(model)
      ensures model == if |old(model).pend| > cfg.maxPend then SkipToLowest(old(model), now, clock) else old(model)
      ensures model.output == old(model.output) + out
    {
      MirrorSize(pend, model.pend, model.next);
      out := [];
      if |pend| > cfg.maxPend {
        out := Skip(now, clock);
      }
    }

    /** Raise the highest number seen. */
    method NoteHighest(num: u32, ghost n: int)
      requires Agrees() && num == Wrap(n) && Near(n, model.maxSeen)
      requires started ==> Narrow(model) && Near(n, model.next)
      requires !started ==> forall k :: k in model.pend ==> k <= model.maxSeen && -HALF < n - k < HALF
      modifies this
      ensures Agrees()
      ensures model == old(model).(maxSeen := if n > old(model).maxSeen then n else old(model).maxSeen)
    {
      DiffIsTrueDifference(n, model.maxSeen);
      if Diff(num, maxSeen) > 0 {
        maxSeen := num;
        model := model.(maxSeen := n);
        if !started {
          MirrorRebase(pend, model.pend, old(model).maxSeen, n);
        }
      }
    }

    /** A packet that is already waiting. */
    method CountDuplicate()
      requires Agrees()
      modifies this
      ensures Agrees()
      ensures model == Reassembly.CountDuplicate(old(model))
    {
      stats := stats.(duplicated := stats.duplicated + 1);
      model := model.(stats := stats);
    }

    /** Put a packet in the pending map; the first one to be blocked starts the gap's clock. */
    method HoldPacket(num: u32, v: T, now: Instant, ghost n: int)
      requires Agrees() && num == Wrap(n) && Near(n, Base(model))
      modifies this
      ensures Agrees()
      ensures model == Hold(old(model), n, v, now)
    {
      MirrorInsert(pend, model.pend, Base(model), n, v);
      pend := pend[num := v];
      model := Hold(model, n, v, now);
      if started && blockedSince == 0 {
        blockedSince := now;
      }
    }

    /** The packet at `next` goes straight through. */
    method PassNext(v: T)
      requires Agrees() && started && Narrow(model)
      requires forall k :: k in model.pend ==> model.next < k <= model.maxSeen
      modifies this
      ensures Agrees()
      ensures model == old(model).(next := old(model).next + 1, stats := Delivering(old(model).stats, 1), output := old(model).output + [v])
    {
      StepsWrap(model.next);
      MirrorRebase(pend, model.pend, model.next, model.next + 1);
      next := Inc(next);
      stats := Delivering(stats, 1);
      model := model.(next := model.next + 1, stats := stats, output := model.output + [v]);
    }

    /** Choose the lowest number held as the start and deliver what is contiguous from it. */
    method LatchLowest(now: Instant, clock: Instant) returns (out: seq<T>)
      requires !started && Agrees() && Narrow(model) && model.pend != map[]
      requires model.maxSeen in model.pend && forall k :: k in model.pend ==> k <= model.maxSeen
      modifies this
      ensures Agrees() && Narrow(model)
      ensures model == Latch(old(model), now, clock)
      ensures model.output == old(model.output) + out
    {
      var lowest, ok := Lowest();
      ghost var least := Least(model.pend.Keys);
      MirrorRebase(pend, model.pend, model.maxSeen, least);
      started, next, blockedSince := true, lowest, now;
      model := model.(started := true, next := least, start := least, blockedSince := now);
      out := DrainInto([], clock);
    }

    /** Hand over the run that starts at `next`, behind what is handed over already. */
    method DrainInto(prefix: seq<T>, clock: Instant) returns (out: seq<T>)
      requires started && Agrees() && Narrow(model) && Ready(model)
      modifies this
      ensures Agrees() && Narrow(model)
      ensures model == Drain(old(model), clock)
      ensures prefix <= out && model.output == old(model.output) + out[|prefix|..]
    {
      hide Mirrors, SeqNum.Wrap, Ready, Narrow;
      out := prefix;
      NextIsPending();
      while next in pend
        invariant started && Agrees() && Narrow(model) && Ready(model)
        invariant next in pend <==> model.next in model.pend
        invariant Drain(model, clock) == Drain(old(model), clock)
        invariant prefix <= out && model.output == old(model.output) + out[|prefix|..]
        decreases |pend|
      {
        var v := TakeNext();
        out := out + [v];
        NextIsPending();
      }
      RestartClock(clock);
    }

    lemma NextIsPending()
      requires Agrees() && started
      ensures next in pend <==> model.next in model.pend
    {
      MirrorLookup(pend, model.pend, model.next, model.next);
    }

    /** Drained: the clock of the next gap starts, if something is still waiting. */
    method RestartClock(clock: Instant)
      requires started && Agrees() && Narrow(model) && Ready(model) && model.next !in model.pend
      modifies this
      ensures Agrees() && Narrow(model)
      ensures model == Drain(old(model), clock) && model.output == old(model.output)
    {
      MirrorSize(pend, model.pend, model.next);
      blockedSince := if |pend| == 0 then 0 else clock;
      model := Drain(model, clock);
    }

    /** Take the packet waiting at `next`. */
    method TakeNext() returns (v: T)
      requires started && Agrees() && Narrow(model) && Ready(model) && model.next in model.pend
      modifies this
      ensures started && Agrees() && Narrow(model) && Ready(model) && |pend| < old(|pend|)
      ensures model == DeliverNext(old(model)) && v == old(model).pend[old(model).next]
    {
      StepsWrap(model.next);
      MirrorLookup(pend, model.pend, model.next, model.next);
      MirrorRemove(pend, model.pend, model.next, model.next);
      MirrorRebase(pend - {next}, model.pend - {model.next}, model.next, model.next + 1);
      v := pend[next];
      assert |pend| == |pend - {next}| + 1 by {
        assert pend == (pend - {next})[next := v];
      }
      pend := pend - {next};
      next := Inc(next);
      stats := Delivering(stats, 1);
      model := DeliverNext(model);
    }

    /** What is missing, for a retransmit request: at most `limit` numbers, rate limited. */
    method Missing(now: Instant, limit: int) returns (out: seq<u32>)
      requires Valid()
      modifies this
      ensures Valid()
      ensures model == Ask(cfg, old(model), now, limit)
      ensures out == WrapAll(AskList(cfg, old(model), now, limit))
    {
      MirrorSize(pend, model.pend, Base(model));
      if !started || |pend| == 0 || blockedSince == 0 {
        return [];
      }
      if now - blockedSince < cfg.retransmitAfter {
        return [];
      }
      if lastRequest != 0 && now - lastRequest < cfg.retransmitAfter {
        return [];
      }
      out := Absent(limit);
      lastRequest := now;
      stats := stats.(requested := stats.requested + |out|);
      model := Ask(cfg, model, now, limit);
    }

    /** Everything absent from `next` up to the highest number seen, cut at `limit`. */
    method Absent(limit: int) returns (out: seq<u32>)
      requires started && Agrees() && Narrow(model) && Ordered(model)
      ensures out == WrapAll(Gaps(model.pend, model.next, model.maxSeen, limit))
    {
      out := [];
      var s := next;
      ghost var n, top := model.next, model.maxSeen;
      ghost var all, found := Gaps(model.pend, n, top, limit), [];
      DiffIsTrueDifference(n, top);
      hide Mirrors, Gaps, WrapAll, SeqNum.Wrap, SeqNum.Diff, Inc;
      WrapNone();
      while Diff(s, maxSeen) <= 0 && |out| < limit
        invariant model.next <= n <= top + 1 && s == Wrap(n) && Diff(s, maxSeen) == n - top
        invariant all == found + Gaps(model.pend, n, top, limit - |found|)
        invariant out == WrapAll(found) && |out| == |found|
        decreases top - n
      {
        MirrorLookup(pend, model.pend, model.next, n);
        GapsStep(model.pend, found, n, top, limit);
        WrapOneMore(found, n);
        if s !in pend {
          out, found := out + [s], found + [n];
        }
        StepsWrap(n);
        DiffIsTrueDifference(n + 1, top);
        s, n := Inc(s), n + 1;
      }
      GapsEnd(model.pend, n, top, limit - |found|);
      assert found + [] == found;
    }

    /** Give up on a gap that has blocked too long; before the start, end the settle window. */
    method Expire(now: Instant, clock: Instant) returns (out: seq<T>)
      requires Valid()
      modifies this
      ensures Valid()
      ensures model == Reassembly.Expire(cfg, old(model), now, clock)
      ensures model.output == old(model.output) + out
    {
      ExpireKeepsInv(cfg, model, now, clock);
      MirrorSize(pend, model.pend, Base(model));
      out := [];
      if !started {
        if |pend| > 0 && now - firstSeen >= cfg.settle {
          out := LatchLowest(now, clock);
        }
        return;
      }
      if |pend| == 0 || blockedSince == 0 {
        return;
      }
      if now - blockedSince < cfg.skipAfter {
        return;
      }
      out := Skip(now, clock);
    }

    /** Advance `next` to the lowest pending number and drain. */
    method Skip(now: Instant, clock: Instant) returns (out: seq<T>)
      requires started && Agrees() && Narrow(model) && Ordered(model) && model.pend != map[]
      modifies this
      ensures Agrees() && Narrow(model)
      ensures model == SkipToLowest(old(model), now, clock)
      ensures model.output == old(model.output) + out
    {
      var lowest, ok := Lowest();
      ghost var least := Least(model.pend.Keys);
      DiffIsTrueDifference(least, model.next);
      var n := Diff(lowest, next);
      if n > 0 {
        stats := stats.(skipped := stats.skipped + n);
      }
      MirrorRebase(pend, model.pend, model.next, least);
      next, blockedSince := lowest, now;
      model := StepOver(model, least, now);
      out := DrainInto([], clock);
    }

    /** The lowest pending number, the map being visited in an arbitrary order. */
    method Lowest() returns (best: u32, ok: bool)
      requires Agrees() && Narrow(model) && forall k :: k in model.pend ==> k <= model.maxSeen
      ensures ok <==> model.pend != map[]
      ensures ok ==> best == Wrap(Least(model.pend.Keys))
    {
      hide Mirrors, Unwrap, SeqNum.Diff, SeqNum.Wrap, Narrow, Least;
      best := 0;
      var first := true;
      var todo := pend.Keys;
      ghost var least := 0;
      ghost var base := Base(model);
      while todo != {}
        invariant todo <= pend.Keys
        invariant first <==> todo == pend.Keys
        invariant !first ==> least in model.pend && best == Wrap(least)
        invariant !first ==> forall w :: w in pend && w !in todo ==> least <= Unwrap(w, base)
        decreases |todo|
      {
        var s :| s in todo;
        todo := todo - {s};
        ComparesTruly(s, least);
        if first || Diff(s, best) < 0 {
          best, first := s, false;
          least := Unwrap(s, base);
        }
      }
      ok := !first;
      LeastOfAll(least);
    }

    /** Two pending numbers compare on the wire as they do unwrapped. */
    lemma ComparesTruly(s: u32, least: int)
      requires Agrees() && Narrow(model) && s in pend && forall k :: k in model.pend ==> k <= model.maxSeen
      ensures var n := Unwrap(s, Base(model));
        n in model.pend && Wrap(n) == s && (least in model.pend ==> Diff(s, Wrap(least)) == n - least)
    {
      assert Sourced(pend, model.pend, Base(model), s);
      DiffIsTrueDifference(Unwrap(s, Base(model)), least);
    }

    /** A pending number at or below every number on the wire is the least one. */
    lemma LeastOfAll(least: int)
      requires Agrees()
      ensures pend.Keys == {} <==> model.pend == map[]
      ensures least in model.pend && (forall w :: w in pend ==> least <= Unwrap(w, Base(model))) ==> least == Least(model.pend.Keys)
    {
      MirrorSize(pend, model.pend, Base(model));
      forall k | k in model.pend
        ensures Wrap(k) in pend && Unwrap(Wrap(k), Base(model)) == k
      {
        assert Carried(pend, model.pend, Base(model), k);
        UnwrapWrap(k, Base(model));
      }
    }

    /** The cumulative acknowledgement to advertise. */
    method Ack() returns (num: u32, ok: bool)
      requires Valid()
      ensures ok <==> model.started
      ensures ok ==> num == Wrap(model.next - 1)
      ensures !ok ==> num == 0
    {
      if !started {
        return 0, false;
      }
      StepsWrap(model.next);
      return Dec(next), true;
    }

    /** How many packets are waiting: never more than the cap. */
    method Pending() returns (n: nat)
      requires Valid()
      ensures n == |model.pend| <= cfg.maxPend
    {
      MirrorSize(pend, model.pend, Base(model));
      n := |pend|;
    }

    /** Back to the initial state, as every accepted handshake demands; counters survive. */
    method Reset()
      requires Valid()
      modifies this
      ensures Valid()
      ensures model == Cleared(old(model))
    {
      started := false;
      next := 0;
      maxSeen := 0;
      pend := map[];
      blockedSince := 0;
      lastRequest := 0;
      firstSeen := 0;
      model := Cleared(model);
    }
  }

  lemma GapsStep<T>(pend: map<int, T>, found: seq<int>, n: int, top: int, limit: int)
    requires n <= top && |found| < limit
    ensures found + Gaps(pend, n, top, limit - |found|) ==
      if n in pend then found + Gaps(pend, n + 1, top, limit - |found|)
      else (found + [n]) + Gaps(pend, n + 1, top, limit - |found + [n]|)
  {
  }

  lemma WrapNone()
    ensures WrapAll([]) == []
  {
  }

  lemma WrapOneMore(ns: seq<int>, n: int)
    ensures WrapAll(ns + [n]) == WrapAll(ns) + [Wrap(n)]
  {
  }

  lemma GapsEnd<T>(pend: map<int, T>, n: int, top: int, limit: int)
    requires n > top || limit <= 0
    ensures Gaps(pend, n, top, limit) == []
  {
  }
}
