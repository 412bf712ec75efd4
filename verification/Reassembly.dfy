/** The reassembler over unbounded sequence numbers: the reference that the uint32 class
    in Receiver.dfy is proved to follow step for step, and the object that every claim about
    whole runs is stated on. Besides the program's own fields a state carries the history
    those claims speak of: where the epoch started, what was given up, what was delivered,
    and which numbers were asked for since the present gap began to block. */
module Reassembly {

  /** A clock reading. The zero `time.Time` means "unset" and is never read off a clock. */
  type Instant = t: int | 0 < t witness 1

  datatype Config = Config(maxPend: int, retransmitAfter: int, skipAfter: int, settle: int) {
    /** What the constructor's defaulting guarantees. */
    predicate Valid() {
      0 < maxPend && 0 < retransmitAfter && 0 < skipAfter && 0 <= settle
    }
  }

  /** The operator-facing counters; a reset leaves them alone. */
  datatype Stats = Stats(delivered: nat, duplicated: nat, late: nat, skipped: nat, requested: nat)

  datatype Rx<T> = Rx(
    started: bool, next: int, pend: map<int, T>, maxSeen: int,
    firstSeen: int, blockedSince: int, lastRequest: int,
    stats: Stats,
    start: int, lost: set<int>, output: seq<T>, asked: set<int>)

  /** A state as the constructor or a reset leaves it; counters survive a reset. */
  ghost function Cleared<T>(r: Rx<T>): Rx<T> {
    r.(started := false, next := 0, pend := map[], maxSeen := 0,
       firstSeen := 0, blockedSince := 0, lastRequest := 0,
       start := 0, lost := {}, output := [], asked := {})
  }

  ghost function Fresh<T>(): Rx<T> {
    Rx(false, 0, map[], 0, 0, 0, 0, Stats(0, 0, 0, 0, 0), 0, {}, [], {})
  }

  // ---------------------------------------------------------------- steps

  ghost function Least(s: set<int>): (m: int)
    requires s != {}
    ensures m in s && forall k :: k in s ==> m <= k
  {
    assert (forall k :: k !in s) ==> s == {};
    var k :| k in s;
    if s == {k} then k
    else
      var m := Least(s - {k});
      assert forall j :: j in s ==> j == k || j in s - {k};
      if k < m then k else m
  }

  ghost function Range(lo: int, hi: int): (s: set<int>)
    ensures forall k :: k in s <==> lo <= k < hi
    ensures |s| == if lo < hi then hi - lo else 0
    decreases hi - lo
  {
    if lo >= hi then {} else Range(lo, hi - 1) + {hi - 1}
  }

  function Delivering(s: Stats, n: nat): Stats {
    s.(delivered := s.delivered + n)
  }

  /** Hand over the packet waiting at `next`. */
  ghost function DeliverNext<T>(r: Rx<T>): Rx<T>
    requires r.next in r.pend
  {
    r.(next := r.next + 1, pend := r.pend - {r.next},
       stats := Delivering(r.stats, 1), output := r.output + [r.pend[r.next]])
  }

  ghost function Drain<T>(r: Rx<T>, clock: Instant): Rx<T>
    decreases |r.pend|
  {
    if r.next in r.pend then
      Drain(DeliverNext(r), clock)
    else
      r.(blockedSince := if r.pend == map[] then 0 else clock, asked := {})
  }

  ghost function Latch<T>(r: Rx<T>, now: Instant, clock: Instant): Rx<T>
    requires r.pend != map[]
  {
    var lowest := Least(r.pend.Keys);
    Drain(r.(started := true, next := lowest, start := lowest, blockedSince := now), clock)
  }

  ghost function SkipToLowest<T>(r: Rx<T>, now: Instant, clock: Instant): Rx<T>
    requires r.pend != map[] && r.next <= Least(r.pend.Keys)
  {
    var lowest := Least(r.pend.Keys);
    Drain(StepOver(r, lowest, now), clock)
  }

  /** Give up everything below `lowest`. */
  ghost function StepOver<T>(r: Rx<T>, lowest: int, now: Instant): Rx<T>
    requires r.next <= lowest
  {
    r.(next := lowest, blockedSince := now, lost := r.lost + Range(r.next, lowest),
       stats := r.stats.(skipped := r.stats.skipped + (lowest - r.next)))
  }

  ghost function NoteSeen<T>(r: Rx<T>, n: int, now: Instant): Rx<T> {
    if !r.started && r.firstSeen == 0 then r.(firstSeen := now, maxSeen := n)
    else if n > r.maxSeen then r.(maxSeen := n)
    else r
  }

  ghost function Hold<T>(r: Rx<T>, n: int, v: T, now: Instant): Rx<T> {
    var held := r.(pend := r.pend[n := v]);
    if r.started && r.blockedSince == 0 then held.(blockedSince := now, asked := {}) else held
  }

  ghost function Push<T>(c: Config, r: Rx<T>, n: int, v: T, now: Instant, clock: Instant): Rx<T>
    requires c.Valid() && Inv(c, r)
  {
    var s := NoteSeen(r, n, now);
    if !s.started then
      PushSettling(c, s, n, v, now, clock)
    else if n < s.next then
      s.(stats := s.stats.(late := s.stats.late + 1))
    else if n == s.next then
      Drain(s.(next := n + 1, stats := Delivering(s.stats, 1), output := s.output + [v]), clock)
    else
      PushAhead(c, s, n, v, now, clock)
  }

  ghost function CountDuplicate<T>(r: Rx<T>): Rx<T> {
    r.(stats := r.stats.(duplicated := r.stats.duplicated + 1))
  }

  /** A packet that arrives while no start is chosen. */
  ghost function PushSettling<T>(c: Config, r: Rx<T>, n: int, v: T, now: Instant, clock: Instant): Rx<T> {
    if n in r.pend then
      CountDuplicate(r)
    else
      var h := Hold(r, n, v, now);
      assert n in h.pend;
      if now - h.firstSeen < c.settle && |h.pend| <= c.maxPend then h else Latch(h, now, clock)
  }

  /** A packet ahead of `next`: it waits, and past the memory cap the gap is stepped over. */
  ghost function PushAhead<T>(c: Config, r: Rx<T>, n: int, v: T, now: Instant, clock: Instant): Rx<T>
    requires r.next < n && forall k :: k in r.pend ==> r.next < k
  {
    if n in r.pend then
      CountDuplicate(r)
    else
      var h := Hold(r, n, v, now);
      if |h.pend| > c.maxPend then SkipToLowest(h, now, clock) else h
  }

  /** The numbers from `s` to `top` that are not pending, in order, at most `limit` of them. */
  ghost function Gaps<T>(pend: map<int, T>, s: int, top: int, limit: int): (g: seq<int>)
    decreases top - s
  {
    if s > top || limit <= 0 then []
    else if s in pend then Gaps(pend, s + 1, top, limit)
    else [s] + Gaps(pend, s + 1, top, limit - 1)
  }

  ghost predicate AskDue<T>(c: Config, r: Rx<T>, now: Instant) {
    && r.started && r.pend != map[] && r.blockedSince != 0
    && now - r.blockedSince >= c.retransmitAfter
    && (r.lastRequest == 0 || now - r.lastRequest >= c.retransmitAfter)
  }

  ghost function AskList<T>(c: Config, r: Rx<T>, now: Instant, limit: int): seq<int> {
    if AskDue(c, r, now) then Gaps(r.pend, r.next, r.maxSeen, limit) else []
  }

  ghost function Ask<T>(c: Config, r: Rx<T>, now: Instant, limit: int): Rx<T> {
    if AskDue(c, r, now) then
      var g := AskList(c, r, now, limit);
      r.(lastRequest := now, stats := r.stats.(requested := r.stats.requested + |g|), asked := r.asked + (set k | k in g))
    else r
  }

  ghost predicate SkipDue<T>(c: Config, r: Rx<T>, now: Instant) {
    r.started && r.pend != map[] && r.blockedSince != 0 && now - r.blockedSince >= c.skipAfter
  }

  ghost function Expire<T>(c: Config, r: Rx<T>, now: Instant, clock: Instant): Rx<T>
    requires Inv(c, r)
  {
    if !r.started then
      if r.pend != map[] && now - r.firstSeen >= c.settle then Latch(r, now, clock) else r
    else if SkipDue(c, r, now) then SkipToLowest(r, now, clock)
    else r
  }

  // ---------------------------------------------------------------- invariant

  /** What every call keeps. */
  ghost predicate Inv<T>(c: Config, r: Rx<T>) {
    && |r.pend| <= c.maxPend
    && (r.started ==> Blocking(r) && Ordered(r) && Accounted(r))
    && (!r.started ==> Settling(r))
  }

  /** Pending numbers lie strictly ahead of `next`, and `maxSeen` is the highest of them. */
  ghost predicate Ordered<T>(r: Rx<T>) {
    && (forall k :: k in r.pend ==> r.next < k <= r.maxSeen)
    && (if r.pend == map[] then r.maxSeen == r.next - 1 else r.maxSeen in r.pend)
  }

  ghost predicate Blocking<T>(r: Rx<T>) {
    0 <= r.blockedSince && 0 <= r.lastRequest && (r.blockedSince == 0 <==> r.pend == map[])
  }

  /** Every number from `start` to `next` was either delivered or given up. */
  ghost predicate Accounted<T>(r: Rx<T>) {
    && r.start < r.next
    && (forall k :: k in r.lost ==> r.start < k < r.next)
    && r.next - r.start == |r.output| + |r.lost|
  }

  ghost predicate Settling<T>(r: Rx<T>) {
    && 0 <= r.firstSeen && (r.firstSeen == 0 <==> r.pend == map[])
    && r.blockedSince == 0 && r.lastRequest == 0
    && (r.pend != map[] ==> r.maxSeen in r.pend && forall k :: k in r.pend ==> k <= r.maxSeen)
    && r.lost == {} && r.output == [] && r.asked == {}
  }

  // ---------------------------------------------------------------- each call keeps it

  /** Pending numbers at or ahead of `next`: the state drain starts from. */
  ghost predicate Ready<T>(r: Rx<T>) {
    && (forall k :: k in r.pend ==> r.next <= k <= r.maxSeen)
    && (r.maxSeen == r.next - 1 || r.maxSeen in r.pend)
  }

  /** `q` is `r` with exactly the contiguous run at `next` moved out, in order. */
  ghost predicate Drained<T>(r: Rx<T>, q: Rx<T>, clock: Instant) {
    && r.next <= q.next && q.next !in r.pend
    && q == r.(next := q.next, pend := q.pend, output := q.output, blockedSince := q.blockedSince, asked := {},
               stats := Delivering(r.stats, q.next - r.next))
    && q.blockedSince == (if q.pend == map[] then 0 else clock)
    && |q.pend| + (q.next - r.next) == |r.pend|
    && Kept(r.pend, q.pend, q.next)
    && HandedOver(r, q)
  }

  /** `rest` is what remains of `pend` from `cut` up. */
  ghost predicate Kept<T>(pend: map<int, T>, rest: map<int, T>, cut: int) {
    && (forall k :: k in rest <==> k in pend && cut <= k)
    && (forall k :: k in rest ==> rest[k] == pend[k])
  }

  ghost predicate HandedOver<T>(r: Rx<T>, q: Rx<T>) {
    && |q.output| == |r.output| + (q.next - r.next) && r.output <= q.output
    && (forall k :: r.next <= k < q.next ==> k in r.pend && q.output[|r.output| + k - r.next] == r.pend[k])
  }

  lemma HandedOverStep<T>(r: Rx<T>, q: Rx<T>)
    requires r.next in r.pend && r.next < q.next && HandedOver(DeliverNext(r), q)
    ensures HandedOver(r, q)
  {
    var d := DeliverNext(r);
    assert d.output[|r.output|] == q.output[|r.output|];
    forall k | r.next <= k < q.next
      ensures k in r.pend && q.output[|r.output| + k - r.next] == r.pend[k]
    {
      if k > r.next {
        assert k in d.pend;
      }
    }
  }

  /** Drain stops at the first gap and not before. */
  lemma {:induction false} DrainRun<T>(r: Rx<T>, clock: Instant)
    requires Ready(r)
    ensures Drained(r, Drain(r, clock), clock) && Ordered(Drain(r, clock))
    decreases |r.pend|
  {
    if r.next in r.pend {
      var d := DeliverNext(r);
      assert r.pend == d.pend[r.next := r.pend[r.next]];
      assert |r.pend| == |d.pend| + 1;
      DrainRun(d, clock);
      DrainedStep(r, Drain(d, clock), clock);
    }
  }

  lemma DrainedStep<T>(r: Rx<T>, q: Rx<T>, clock: Instant)
    requires r.next in r.pend && |r.pend| == |DeliverNext(r).pend| + 1 && forall k :: k in r.pend ==> r.next <= k
    requires Drained(DeliverNext(r), q, clock)
    ensures Drained(r, q, clock)
  {
    HandedOverStep(r, q);
    hide HandedOver;
  }

  lemma DrainKeepsInv<T>(c: Config, r: Rx<T>, clock: Instant)
    requires Ready(r) && r.started && 0 <= r.lastRequest
    requires r.start <= r.next && r.next - r.start == |r.output| + |r.lost|
    requires forall k :: k in r.lost ==> r.start < k < r.next
    requires |r.pend| <= c.maxPend || (r.next in r.pend && |r.pend| <= c.maxPend + 1)
    requires r.start < r.next || r.next in r.pend
    ensures Inv(c, Drain(r, clock))
  {
    DrainRun(r, clock);
    if r.next in r.pend {
      assert Drain(r, clock).next != r.next;
    }
  }

  lemma PushKeepsInv<T>(c: Config, r: Rx<T>, n: int, v: T, now: Instant, clock: Instant)
    requires c.Valid() && Inv(c, r)
    ensures Inv(c, Push(c, r, n, v, now, clock))
  {
    var s := NoteSeen(r, n, now);
    if !s.started {
      PushSettlingKeepsInv(c, s, n, v, now, clock);
    } else if n == s.next {
      DrainKeepsInv(c, s.(next := n + 1, stats := Delivering(s.stats, 1), output := s.output + [v]), clock);
    } else if n > s.next {
      PushAheadKeepsInv(c, s, n, v, now, clock);
    }
  }

  lemma PushSettlingKeepsInv<T>(c: Config, r: Rx<T>, n: int, v: T, now: Instant, clock: Instant)
    requires !r.started && |r.pend| <= c.maxPend
    requires r.firstSeen > 0 && n <= r.maxSeen && (n == r.maxSeen || r.maxSeen in r.pend)
    requires r.blockedSince == 0 && r.lastRequest == 0 && r.lost == {} && r.output == [] && r.asked == {}
    requires forall k :: k in r.pend ==> k <= r.maxSeen
    ensures Inv(c, PushSettling(c, r, n, v, now, clock))
  {
    if n !in r.pend {
      var h := Hold(r, n, v, now);
      assert |h.pend| == |r.pend| + 1;
      if !(now - h.firstSeen < c.settle && |h.pend| <= c.maxPend) {
        LatchKeepsInv(c, h, now, clock);
      }
    }
  }

  lemma PushAheadKeepsInv<T>(c: Config, r: Rx<T>, n: int, v: T, now: Instant, clock: Instant)
    requires r.started && |r.pend| <= c.maxPend && Accounted(r) && Blocking(r)
    requires forall k :: k in r.pend ==> r.next < k <= r.maxSeen
    requires r.next < n <= r.maxSeen && (n == r.maxSeen || r.maxSeen in r.pend)
    ensures Inv(c, PushAhead(c, r, n, v, now, clock))
  {
    if n !in r.pend {
      var h := Hold(r, n, v, now);
      assert |h.pend| == |r.pend| + 1;
      if |h.pend| > c.maxPend {
        SkipKeepsInv(c, h, now, clock);
      }
    }
  }

  lemma SkipKeepsInv<T>(c: Config, r: Rx<T>, now: Instant, clock: Instant)
    requires r.started && r.pend != map[] && |r.pend| <= c.maxPend + 1
    requires Ordered(r) && Blocking(r) && Accounted(r)
    ensures r.next < Least(r.pend.Keys)
    ensures Inv(c, SkipToLowest(r, now, clock))
  {
    var lowest := Least(r.pend.Keys);
    assert r.lost !! Range(r.next, lowest);
    DrainKeepsInv(c, StepOver(r, lowest, now), clock);
  }

  lemma LatchKeepsInv<T>(c: Config, r: Rx<T>, now: Instant, clock: Instant)
    requires !r.started && r.pend != map[] && |r.pend| <= c.maxPend + 1
    requires r.maxSeen in r.pend && forall k :: k in r.pend ==> k <= r.maxSeen
    requires r.lost == {} && r.output == [] && 0 <= r.lastRequest
    ensures Inv(c, Latch(r, now, clock))
  {
    var lowest := Least(r.pend.Keys);
    DrainKeepsInv(c, r.(started := true, next := lowest, start := lowest, blockedSince := now), clock);
  }

  lemma ExpireKeepsInv<T>(c: Config, r: Rx<T>, now: Instant, clock: Instant)
    requires Inv(c, r)
    ensures Inv(c, Expire(c, r, now, clock))
  {
    if !r.started && r.pend != map[] && now - r.firstSeen >= c.settle {
      LatchKeepsInv(c, r, now, clock);
    } else if r.started && SkipDue(c, r, now) {
      SkipKeepsInv(c, r, now, clock);
    }
  }
}
