/** Choosing the leg for the next downlink packet: the ranking, the scan over a map in arbitrary
    order, and the smoothed round-trip time the ranking reads. */
module Legs {
  import opened Bytes

  /** What the ranking looks at: the smoothed round trip (0 while unmeasured) and the last receipt. */
  datatype Rank = Rank(rtt: int, lastRx: int)

  /** Measured before unmeasured, then the shorter round trip, then the more recent packet. */
  predicate Better(a: Rank, b: Rank) {
    if a.rtt != 0 && b.rtt == 0 then true
    else if a.rtt == 0 && b.rtt != 0 then false
    else if a.rtt != b.rtt && a.rtt != 0 then a.rtt < b.rtt
    else a.lastRx > b.lastRx
  }

  predicate Tied(a: Rank, b: Rank) {
    !Better(a, b) && !Better(b, a)
  }

  /** The ranking is a strict weak order, whatever the values. */
  lemma BetterIsStrictWeakOrder(a: Rank, b: Rank, c: Rank)
    ensures !Better(a, a)
    ensures Better(a, b) ==> !Better(b, a)
    ensures Better(a, b) && Better(b, c) ==> Better(a, c)
    ensures Tied(a, b) && Tied(b, c) ==> Tied(a, c)
    ensures Tied(a, b) <==> a == b
  {
  }

  /** What the ranking is for: a measured leg always beats an unmeasured one, the shorter round trip
      the longer one, and between equals the one heard from more recently. */
  lemma BetterMeans(a: Rank, b: Rank)
    ensures a.rtt != 0 && b.rtt == 0 ==> Better(a, b)
    ensures a.rtt != 0 && b.rtt != 0 && a.rtt < b.rtt ==> Better(a, b)
    ensures a.rtt == b.rtt && a.lastRx > b.lastRx ==> Better(a, b)
  {
  }

  // ---------------------------------------------------------------- round-trip time

  /** Go's integer division truncates toward zero. */
  function TruncDiv(x: int, d: int): int
    requires d > 0
  {
    if x >= 0 then x / d else -((-x) / d)
  }

  /** The first sample is taken as it is; then 7/8 old and 1/8 new. */
  function Smooth(rtt: int, sample: int): int {
    if rtt == 0 then sample else TruncDiv(rtt * 7 + sample, 8)
  }

  function Smoothed(samples: seq<int>): int {
    if samples == [] then 0 else Smooth(Smoothed(samples[..|samples| - 1]), samples[|samples| - 1])
  }

  /** Seven parts of the old value and one of the sample, rounded toward zero, also below it. */
  lemma SmoothWeighs(rtt: int, sample: int)
    requires rtt != 0
    ensures rtt * 7 + sample >= 0 ==> 0 <= rtt * 7 + sample - 8 * Smooth(rtt, sample) < 8
    ensures rtt * 7 + sample <= 0 ==> -8 < rtt * 7 + sample - 8 * Smooth(rtt, sample) <= 0
  {
  }

  /** So on a link whose round trip has settled at `sample`, an eighth of what the value lies above
      it goes with every measurement, down to rounding. */
  lemma SmoothApproaches(rtt: int, sample: int)
    requires 0 < sample
    ensures sample <= rtt ==> 0 <= Smooth(rtt, sample) - sample && 8 * (Smooth(rtt, sample) - sample) <= 7 * (rtt - sample)
    ensures 0 < rtt <= sample ==> 0 <= sample - Smooth(rtt, sample) && 8 * (sample - Smooth(rtt, sample)) < 7 * (sample - rtt) + 8
    ensures rtt == 0 ==> Smooth(rtt, sample) == sample
  {
  }

  /** However many positive samples come in, the smoothed value stays within their range, so a leg
      once measured never looks unmeasured again. */
  lemma {:induction false} SmoothedStaysInRange(samples: seq<int>, lo: int, hi: int)
    requires samples != [] && 0 < lo && forall i :: 0 <= i < |samples| ==> lo <= samples[i] <= hi
    ensures lo <= Smoothed(samples) <= hi && Smoothed(samples) != 0
  {
    var init := samples[..|samples| - 1];
    assert samples[|samples| - 1] <= hi;
    if init != [] {
      SmoothedStaysInRange(init, lo, hi);
    }
  }

  ghost function Lowest(s: seq<int>): (m: int)
    requires s != []
    ensures m in s && forall i :: 0 <= i < |s| ==> m <= s[i]
  {
    if |s| == 1 then s[0]
    else
      var m := Lowest(s[..|s| - 1]);
      if s[|s| - 1] < m then s[|s| - 1] else m
  }

  ghost function Highest(s: seq<int>): (m: int)
    requires s != []
    ensures m in s && forall i :: 0 <= i < |s| ==> s[i] <= m
  {
    if |s| == 1 then s[0]
    else
      var m := Highest(s[..|s| - 1]);
      if m < s[|s| - 1] then s[|s| - 1] else m
  }

  /** A round trip of ten seconds or more is not believed. */
  const MAX_SAMPLE: int := 10_000_000_000

  /** `int64(x)` on a uint64. */
  function Int64(x: u64): int {
    if x < 0x8000_0000_0000_0000 then x else x - 0x1_0000_0000_0000_0000
  }

  // ---------------------------------------------------------------- legs

  class Leg {
    const kind: string
    var rtt: int
    var lastRx: int
    var closed: bool

    /** Every round trip observed on the leg. */
    ghost var samples: seq<int>

    ghost predicate Valid()
      reads this
    {
      rtt == Smoothed(samples)
    }

    ghost predicate Positive()
      reads this
    {
      forall i :: 0 <= i < |samples| ==> 0 < samples[i]
    }

    /** The leg's value lies between the least and the greatest of its samples. */
    ghost predicate InRange()
      reads this
    {
      samples != [] ==> Lowest(samples) <= rtt <= Highest(samples)
    }

    /** What the caller's filter on samples keeps. */
    ghost predicate Plausible()
      reads this
    {
      InRange() && forall i :: 0 <= i < |samples| ==> 0 < samples[i] < MAX_SAMPLE
    }

    constructor (k: string)
      ensures Valid() && Plausible() && kind == k && samples == [] && rtt == 0 && lastRx == 0 && !closed
    {
      kind, rtt, lastRx, closed, samples := k, 0, 0, false, [];
    }

    function Standing(): Rank
      reads this
    {
      Rank(rtt, lastRx)
    }

    /** Fold a sample into the smoothed round trip, which stays in the range of the samples as
        long as they are positive. */
    method ObserveRTT(sample: int)
      requires Valid()
      modifies `rtt, `samples
      ensures Valid() && samples == old(samples) + [sample]
      ensures Positive() ==> InRange() && rtt > 0
    {
      assert (samples + [sample])[..|samples|] == samples;
      samples := samples + [sample];
      if rtt == 0 {
        rtt := sample;
      } else {
        rtt := TruncDiv(rtt * 7 + sample, 8);
      }
      if Positive() {
        SmoothedStaysInRange(samples, Lowest(samples), Highest(samples));
      }
    }

    /** The client echoes our clock: what has passed since is a round trip, if it is plausible. So
        a leg is measured from its first plausible echo on, never looks unmeasured again, and never
        slower or faster than any round trip observed on it. */
    method HandleRTTAck(serverMS: u64, at: int)
      requires Valid() && Plausible()
      modifies `rtt, `samples
      ensures Valid() && Plausible()
      ensures var sample := at - Int64(serverMS) * 1_000_000;
        samples == old(samples) + if serverMS != 0 && 0 < sample < MAX_SAMPLE then [sample] else []
      ensures 0 <= rtt < MAX_SAMPLE && (rtt != 0 <==> samples != [])
    {
      hide Lowest, Highest, Int64;
      var sample := at - Int64(serverMS) * 1_000_000;
      if serverMS != 0 && 0 < sample < MAX_SAMPLE {
        ObserveRTT(sample);
      }
    }
  }

  ghost predicate Eligible(legs: set<Leg>, kind: string, l: Leg)
    reads l
  {
    l in legs && !l.closed && (kind == "" || l.kind == kind)
  }

  /** `best` is an eligible leg that no eligible leg beats. */
  ghost predicate Unbeaten(legs: set<Leg>, kind: string, best: Leg)
    reads legs, best
  {
    Eligible(legs, kind, best) && forall l :: l in legs && Eligible(legs, kind, l) ==> !Better(l.Standing(), best.Standing())
  }

  /** In plain terms: an unbeaten leg is measured if any eligible one is, none of those has a shorter
      round trip, and of those with the same none was heard from more recently. */
  lemma UnbeatenMeans(legs: set<Leg>, kind: string, best: Leg, l: Leg)
    requires best in legs && Unbeaten(legs, kind, best) && l in legs && Eligible(legs, kind, l)
    ensures l.rtt != 0 ==> best.rtt != 0 && best.rtt <= l.rtt
    ensures l.rtt == best.rtt ==> l.lastRx <= best.lastRx
  {
    BetterMeans(l.Standing(), best.Standing());
    hide Better;
  }

  /** The best open leg of the wanted kind; of any kind if there is none; none if all are closed. */
  method PickLeg(legs: set<Leg>, kind: string) returns (best: Leg?)
    ensures best == null <==> forall l :: l in legs ==> l.closed
    ensures best != null ==>
      if exists l :: l in legs && Eligible(legs, kind, l) then Unbeaten(legs, kind, best) else Unbeaten(legs, "", best)
    decreases kind != ""
  {
    best := null;
    var todo := legs;
    while todo != {}
      invariant todo <= legs
      invariant best == null ==> forall l :: l in legs - todo ==> !Eligible(legs, kind, l)
      invariant best != null ==> best in legs - todo && Unbeaten(legs - todo, kind, best)
      decreases |todo|
    {
      ghost var seen := legs - todo;
      var l :| l in todo;
      todo := todo - {l};
      assert legs - todo == seen + {l};
      if l.closed || (kind != "" && l.kind != kind) {
        continue;
      }
      if best == null || Better(l.Standing(), best.Standing()) {
        ChampionFalls(seen, kind, best, l);
        best := l;
      }
    }
    assert legs - todo == legs;
    if best == null && kind != "" {
      best := PickLeg(legs, "");
    }
  }

  /** A leg that beats the best so far is beaten by none of those already seen. */
  lemma ChampionFalls(seen: set<Leg>, kind: string, best: Leg?, l: Leg)
    requires best != null ==> best in seen && Unbeaten(seen, kind, best) && Better(l.Standing(), best.Standing())
    requires best == null ==> forall s :: s in seen ==> !Eligible(seen, kind, s)
    ensures forall s :: s in seen && Eligible(seen, kind, s) ==> !Better(s.Standing(), l.Standing())
  {
    if best != null {
      forall s | s in seen && Eligible(seen, kind, s)
        ensures !Better(s.Standing(), l.Standing())
      {
        BetterIsStrictWeakOrder(s.Standing(), l.Standing(), best.Standing());
      }
    }
  }
}
