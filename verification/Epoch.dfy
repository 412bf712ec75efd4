/** The two classes wired together: a sender and a receiver object, driven by what the network
    brings, take exactly the steps of the two-party system, on wire numbers and wire bytes. So
    what TwoParty proves of every run holds of the objects. */
module Epoch {
  import opened SeqNum
  import opened Bytes
  import opened Frames
  import opened Bodies
  import opened Reassembly
  import opened ReassemblyRuns
  import opened ReassemblyGuarantees
  import opened Receiver
  import opened Sender
  import opened TwoParty

  class Epoch {
    const down: Downlink
    const up: Reorder<Packet>

    ghost var sys: Sys

    ghost predicate Valid()
      reads this, down, down.stash, up
    {
      && down.Valid() && up.Valid() && Good(up.cfg, sys)
      && sys.sent == down.sent && sys.acked == down.acked && sys.rx == up.model
    }

    /** The parts of `Valid`, which the methods below pass around whole. */
    lemma Parts()
      requires Valid()
      ensures down.Valid() && up.Valid() && up.cfg.Valid() && Good(up.cfg, sys)
      ensures sys.sent == down.sent && sys.acked == down.acked && sys.rx == up.model && -1 <= sys.acked
    {
    }

    lemma Whole()
      requires down.Valid() && up.Valid() && Good(up.cfg, sys)
      requires sys.sent == down.sent && sys.acked == down.acked && sys.rx == up.model
      ensures Valid()
    {
    }

    lemma LoIsWindowStart()
      ensures down.Lo() == WindowStart(|down.sent|, down.acked, down.limit)
    {
    }

    constructor (d: Downlink, u: Reorder<Packet>)
      requires d.Valid() && u.Valid() && d.sent == [] && d.acked == -1 && u.model == Fresh<Packet>()
      ensures Valid() && down == d && up == u && sys == Start()
    {
      down, up := d, u;
      sys := Start();
      StartIsGood(u.cfg);
    }

    /** Number, stash and put on the network one frame, if a leg is up to carry it. */
    method Send(flow: Flow, op: u16, data: seq<byte>, legUp: bool) returns (p: Packet)
      requires Valid()
      modifies this, down, down.stash
      ensures Valid() && down.stash == old(down.stash)
      ensures sys == Next(up.cfg, down.limit, old(sys), TwoParty.Send(p, legUp))
      ensures p == Encode(DownFrame(down.magic, down.icgId, |old(sys).sent|, flow, op, data))
    {
      hide Good, Downlink.Valid, Encode, DownFrame, IsDownFrame;
      p := down.SendTCPDown(flow, op, data);
      StepKeepsGood(up.cfg, down.limit, sys, TwoParty.Send(p, legUp));
      sys := Next(up.cfg, down.limit, sys, TwoParty.Send(p, legUp));
    }

    /** A packet that was once on the network arrives; its number is read from its own bytes. */
    method DataArrives(p: Packet, now: Instant, clock: Instant, ghost n: int) returns (out: seq<Packet>)
      requires Valid() && Enabled(sys, TwoParty.DataArrives(n, now, clock)) && p == sys.air[n]
      modifies this, up
      ensures Valid()
      ensures sys == Next(up.cfg, down.limit, old(sys), TwoParty.DataArrives(n, now, clock))
      ensures sys.rx.output == old(sys).rx.output + out
    {
      hide Good, Encode, ParseTCPBody, Holds;
      Parts();
      DataMoves(up.cfg, down.limit, sys, n, now, clock);
      assert CarriesNumber(down.sent[n], n);
      var num := ParseTCPBody(p[HDR_LEN..]).value.num;
      hide *;
      out := up.Push(num, p, now, clock, n);
      sys := Next(up.cfg, down.limit, sys, TwoParty.DataArrives(n, now, clock));
      Whole();
    }

    /** A tick asks, gives up, and acknowledges. The request's payload reads back as the very
        list that was missing. */
    method TimerTicks(now: Instant, clock: Instant, ackDue: bool)
      returns (request: seq<byte>, out: seq<Packet>, ack: u32, acks: bool)
      requires Valid()
      modifies this, up
      ensures Valid()
      ensures sys == Next(up.cfg, down.limit, old(sys), TwoParty.TimerTicks(now, clock, ackDue))
      ensures sys.rx.output == old(sys).rx.output + out
      ensures var list := AskList(up.cfg, old(sys).rx, now, SEQ_LIST_MAX);
        if list == [] then request == [] else SeqList(request) == Ok(WrapAll(list)) && |request| == SEQ_LIST_LEN
      ensures acks <==> ackDue && sys.rx.started
      ensures acks ==> ack == Wrap(sys.rx.next - 1)
    {
      hide *;
      Parts();
      TickMoves(up.cfg, down.limit, sys, now, clock, ackDue);
      request, out, ack, acks := TickReceiver(up, now, clock, ackDue);
      assert down.Valid();
      sys := Next(up.cfg, down.limit, sys, TwoParty.TimerTicks(now, clock, ackDue));
      Whole();
    }

    /** So the objects keep what the system promises. What the receiver has put out is what this
        sender sent, in order and once each, without what was given up. */
    lemma OutputIsWhatWasSent()
      requires Valid() && up.model.started
      ensures var m := up.model;
        && 0 <= m.start < m.next <= |down.sent| && |m.output| + |m.lost| == m.next - m.start
        && m.output == Expected(Value(down.sent), m.start, m.next, m.lost)
    {
      TwoParty.OutputIsWhatWasSent(up.cfg, sys);
    }

    /** And whatever `Missing` asks for is in the sender's stash, as it was sent, if and only if the
        sender is at most its limit past the receiver's `next`. */
    lemma AskedIsInTheStash(now: Instant)
      requires Valid() && AskDue(up.cfg, up.model, now) && |down.sent| - up.model.next <= HALF
      ensures var list, stash := AskList(up.cfg, up.model, now, SEQ_LIST_MAX), down.stash.m;
        && ((forall k :: k in list ==> Wrap(k) in stash) <==> |down.sent| - up.model.next <= down.limit)
        && forall k :: k in list && Wrap(k) in stash ==> 0 <= k < |down.sent| && stash[Wrap(k)] == down.sent[k]
    {
      var list := AskList(up.cfg, up.model, now, SEQ_LIST_MAX);
      AskedIsStashed(up.cfg, down.limit, sys, now);
      AskedRange(up.cfg, sys, now);
      LoIsWindowStart();
      hide Good, AskList, AskDue, Reorder.Valid, Wrap;
      forall k | k in list
        ensures Wrap(k) in down.stash.m <==> Stashed(down.limit, sys, k)
        ensures Wrap(k) in down.stash.m ==> down.stash.m[Wrap(k)] == down.sent[k]
      {
        WindowLookup(down.stash.m, down.stash.order, down.sent, down.Lo(), k);
      }
    }

    /** An acknowledgement that was once sent arrives, however late. */
    method AckArrives(num: u32, ghost a: int)
      requires Valid() && Enabled(sys, TwoParty.AckArrives(a)) && num == Wrap(a)
      modifies this, down, down.stash
      ensures Valid() && down.stash == old(down.stash)
      ensures sys == Next(up.cfg, down.limit, old(sys), TwoParty.AckArrives(a))
    {
      StepKeepsGood(up.cfg, down.limit, sys, TwoParty.AckArrives(a));
      assert 0 <= a < |down.sent|;
      hide Good, Downlink.Valid;
      down.HandleAck(num, a);
      sys := Next(up.cfg, down.limit, sys, TwoParty.AckArrives(a));
    }

    /** A request that was once sent arrives: what is still stashed of it goes out again. */
    method RequestArrives(body: seq<byte>, ghost list: seq<int>) returns (frames: seq<Packet>)
      requires Valid() && Enabled(sys, TwoParty.RequestArrives(list)) && SeqList(body) == Ok(WrapAll(list))
      modifies this, down`retransmitsServed, down.stash
      ensures Valid() && down.stash == old(down.stash)
      ensures sys == Next(up.cfg, down.limit, old(sys), TwoParty.RequestArrives(list))
      ensures forall k :: k in list && 0 <= k && Stashed(down.limit, sys, k) ==>
        sys.sent[k] in frames && k in sys.air && sys.air[k] == sys.sent[k]
      ensures forall f :: f in frames ==>
        exists k :: k in list && 0 <= k && Stashed(down.limit, sys, k) && k in sys.air && f == sys.air[k]
    {
      hide *;
      Parts();
      RequestMoves(up.cfg, down.limit, sys, list);
      frames := down.ServeRetransmit(body, list);
      LoIsWindowStart();
      AnswersAreAired(up.cfg, down.limit, sys, list, frames);
      assert up.Valid();
      sys := Next(up.cfg, down.limit, sys, TwoParty.RequestArrives(list));
      Whole();
    }
  }

  /** What a sender answers to a request is exactly what the system puts on the network again. */
  lemma AnswersAreAired(c: Config, limit: int, s: Sys, list: seq<int>, frames: seq<Packet>)
    requires c.Valid() && Inv(c, s.rx) && Enabled(s, TwoParty.RequestArrives(list)) && -1 <= s.acked
    requires Answers(frames, s.sent, WindowStart(|s.sent|, s.acked, limit), list)
    ensures var t := Next(c, limit, s, TwoParty.RequestArrives(list));
      && (forall k :: k in list && 0 <= k && Stashed(limit, t, k) ==> t.sent[k] in frames && k in t.air && t.air[k] == t.sent[k])
      && (forall f :: f in frames ==> exists k :: k in list && 0 <= k && Stashed(limit, t, k) && k in t.air && f == t.air[k])
  {
    var lo, t := WindowStart(|s.sent|, s.acked, limit), Next(c, limit, s, TwoParty.RequestArrives(list));
    AnswersAreExactly(frames, s.sent, lo, list);
    hide Answers, Inv, Enabled;
    forall f | f in frames
      ensures exists k :: k in list && 0 <= k && Stashed(limit, t, k) && k in t.air && f == t.air[k]
    {
      var k :| k in list && lo <= k < |s.sent| && f == s.sent[k];
      assert Stashed(limit, t, k) && k in t.air;
    }
  }

  /** An arrival touches the receiver alone, and what arrives was sent. */
  lemma DataMoves(c: Config, limit: int, s: Sys, n: int, now: Instant, clock: Instant)
    requires c.Valid() && Good(c, s) && Enabled(s, TwoParty.DataArrives(n, now, clock))
    ensures Inv(c, s.rx) && Receiver.Fits(s.rx, n) && 0 <= n < |s.sent| && s.air[n] == s.sent[n]
    ensures var t := Next(c, limit, s, TwoParty.DataArrives(n, now, clock));
      Good(c, t) && t.sent == s.sent && t.acked == s.acked && t.rx == Push(c, s.rx, n, s.air[n], now, clock)
  {
    StepKeepsGood(c, limit, s, TwoParty.DataArrives(n, now, clock));
    hide Push, Inv;
  }

  /** A tick touches the receiver alone, a served request neither party's own state. */
  lemma TickMoves(c: Config, limit: int, s: Sys, now: Instant, clock: Instant, ackDue: bool)
    requires c.Valid() && Good(c, s)
    ensures c.Valid() && Inv(c, s.rx) && Enabled(s, TwoParty.TimerTicks(now, clock, ackDue))
    ensures var t := Next(c, limit, s, TwoParty.TimerTicks(now, clock, ackDue));
      Good(c, t) && t.sent == s.sent && t.acked == s.acked && t.rx == TickStep(c, s.rx, now, clock)
  {
    StepKeepsGood(c, limit, s, TwoParty.TimerTicks(now, clock, ackDue));
  }

  lemma RequestMoves(c: Config, limit: int, s: Sys, list: seq<int>)
    requires c.Valid() && Good(c, s) && Enabled(s, TwoParty.RequestArrives(list))
    ensures Inv(c, s.rx) && forall i :: 0 <= i < |list| ==> Near(list[i], |s.sent|)
    ensures var t := Next(c, limit, s, TwoParty.RequestArrives(list));
      Good(c, t) && t.sent == s.sent && t.acked == s.acked && t.rx == s.rx
  {
    StepKeepsGood(c, limit, s, TwoParty.RequestArrives(list));
  }

  /** Ask for what is missing, in a payload that reads back as the very list. */
  method RequestGaps(up: Reorder<Packet>, now: Instant) returns (request: seq<byte>)
    requires up.Valid()
    modifies up
    ensures up.Valid() && up.model == Ask(up.cfg, old(up.model), now, SEQ_LIST_MAX)
    ensures var list := AskList(up.cfg, old(up.model), now, SEQ_LIST_MAX);
      if list == [] then request == [] else SeqList(request) == Ok(WrapAll(list)) && |request| == SEQ_LIST_LEN
  {
    hide SeqList, Reassembly.Ask;
    RequestIsExact(up.cfg, up.model, now, SEQ_LIST_MAX);
    var missing := up.Missing(now, SEQ_LIST_MAX);
    request := [];
    if |missing| > 0 {
      request := AppendSeqList([], missing);
      assert request[0..] == request;
    }
  }

  /** The receiver's part of a tick: ask, give up, and acknowledge if it is time. */
  method TickReceiver(up: Reorder<Packet>, now: Instant, clock: Instant, ackDue: bool)
    returns (request: seq<byte>, out: seq<Packet>, ack: u32, acks: bool)
    requires up.Valid()
    modifies up
    ensures up.Valid() && Inv(up.cfg, old(up.model)) && up.model == TickStep(up.cfg, old(up.model), now, clock)
    ensures up.model.output == old(up.model).output + out
    ensures var list := AskList(up.cfg, old(up.model), now, SEQ_LIST_MAX);
      if list == [] then request == [] else SeqList(request) == Ok(WrapAll(list)) && |request| == SEQ_LIST_LEN
    ensures acks <==> ackDue && up.model.started
    ensures acks ==> ack == Wrap(up.model.next - 1)
  {
    hide SeqList, Reassembly.Expire, SeqNum.Wrap;
    request := RequestGaps(up, now);
    out := up.Expire(now, clock);
    ack, acks := 0, false;
    if ackDue {
      ack, acks := up.Ack();
    }
  }
}
