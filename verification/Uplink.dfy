/** The receiving half of a session's TCP path: a body is parsed, goes through the reassembler,
    and whatever becomes deliverable goes through the flow table, in that order. */
module Uplink {
  import opened Sequences
  import opened SeqNum
  import opened Bytes
  import opened Bodies
  import Reassembly
  import ReassemblyRuns
  import opened Receiver
  import opened Flows

  /** What has happened since the last handshake. */
  ghost function EpochEvents(evs: seq<Event>): (r: seq<Event>)
    ensures |r| <= |evs|
  {
    if evs == [] || evs[|evs| - 1].Handshake? then []
    else EpochEvents(evs[..|evs| - 1]) + [evs[|evs| - 1]]
  }

  /** What had happened by then. */
  ghost function Before(evs: seq<Event>): seq<Event> {
    evs[..|evs| - |EpochEvents(evs)|]
  }

  lemma EpochSnoc(max: int, evs: seq<Event>, e: Event)
    ensures Run(max, evs + [e]) == Step(max, Run(max, evs), e)
    ensures EpochEvents(evs + [e]) == if e.Handshake? then [] else EpochEvents(evs) + [e]
    ensures Before(evs + [e]) == if e.Handshake? then evs + [e] else Before(evs)
    ensures Delivered(EpochEvents(evs + [e])) ==
      if e.Handshake? then [] else Delivered(EpochEvents(evs)) + if e.Deliver? then [e.c] else []
  {
    assert (evs + [e])[..|evs|] == evs;
    var r := EpochEvents(evs);
    assert (r + [e])[..|r|] == r;
  }

  ghost function Deliveries(cs: seq<Chunk>): (evs: seq<Event>)
    ensures |evs| == |cs|
  {
    seq(|cs|, i requires 0 <= i < |cs| => Deliver(cs[i]))
  }

  lemma DeliveriesSnoc(evs: seq<Event>, cs: seq<Chunk>, c: Chunk)
    ensures evs + Deliveries(cs + [c]) == evs + Deliveries(cs) + [Deliver(c)]
  {
    var all := Deliveries(cs + [c]);
    assert all[..|cs|] == Deliveries(cs) && all[|cs|] == Deliver(c);
    assert all == Deliveries(cs) + [Deliver(c)];
  }

  lemma {:induction false} EpochGrows(evs: seq<Event>, cs: seq<Chunk>)
    ensures Delivered(EpochEvents(evs + Deliveries(cs))) == Delivered(EpochEvents(evs)) + cs
  {
    hide Delivered, EpochEvents, Deliveries;
    if cs == [] {
      assert Deliveries(cs) == [] && evs + [] == evs;
    } else {
      var most, c := cs[..|cs| - 1], cs[|cs| - 1];
      assert cs == most + [c];
      EpochGrows(evs, most);
      OneMoreDelivered(evs, most, c);
      Regroup(Delivered(EpochEvents(evs)), most, [c]);
    }
  }

  lemma OneMoreDelivered(evs: seq<Event>, most: seq<Chunk>, c: Chunk)
    ensures Delivered(EpochEvents(evs + Deliveries(most + [c]))) == Delivered(EpochEvents(evs + Deliveries(most))) + [c]
  {
    DeliveriesSnoc(evs, most, c);
    hide *;
    EpochSnoc(0, evs + Deliveries(most), Deliver(c));
  }

  /** What a tuple's flows have been handed since the last handshake is its share of what came out
      of the reassembler since then, and that share depends on nothing before the handshake. */
  lemma {:induction false} EpochHands(max: int, evs: seq<Event>, flow: Flow)
    ensures var before, now, since := Run(max, Before(evs)).handed, Run(max, evs), EpochEvents(evs);
      && before <= now.handed && now.flows.Keys == OpenTuples(max, since)
      && HandedTo(now.handed[|before|..], flow) == PayloadsTaken(Delivered(since), Taken(max, since), flow)
  {
    if evs == [] {
    } else {
      var init, e := evs[..|evs| - 1], evs[|evs| - 1];
      assert evs == init + [e];
      EpochSnoc(max, init, e);
      if !e.Handshake? {
        EpochHands(max, init, flow);
        EpochStep(max, Run(max, init), Run(max, Before(init)).handed, EpochEvents(init), e, flow);
      } else {
        assert Before(evs) == evs && EpochEvents(evs) == [];
      }
    }
  }

  lemma EpochStep(max: int, t: Table, before: seq<Handed>, since: seq<Event>, e: Event, flow: Flow)
    requires before <= t.handed && t.flows.Keys == OpenTuples(max, since)
    requires HandedTo(t.handed[|before|..], flow) == PayloadsTaken(Delivered(since), Taken(max, since), flow)
    ensures var now := Step(max, t, e);
      && before <= now.handed && (!e.Handshake? ==> now.flows.Keys == OpenTuples(max, since + [e]))
      && HandedTo(now.handed[|before|..], flow) == PayloadsTaken(Delivered(since + [e]), Taken(max, since + [e]), flow)
  {
    StepHands(max, t, e);
    StepOpens(max, t, e);
    ShareGrows(max, t, t.handed[|before|..], since, e, flow);
    assert OpenTuples(max, since + [e]) == Step(max, t, e).flows.Keys || e.Handshake? by {
      assert (since + [e])[..|since|] == since;
    }
    hide *;
    SuffixGrows(before, t.handed, NewlyHanded(max, t, e));
  }

  /** The number and the chunk in the bytes of a body: the LAN client's address and port are the
      body's source, at 6 and 14, the server's its destination, at 10 and 16. */
  ghost function NumberIn(body: seq<byte>): int
    requires |body| >= 18
  {
    body[0] + 0x100 * (body[1] as int) + 0x1_0000 * (body[2] as int) + 0x100_0000 * (body[3] as int)
  }

  ghost function ChunkIn(body: seq<byte>): Chunk
    requires |body| >= 18
  {
    var client := AddrPort(Addr4(body[6], body[7], body[8], body[9]), 0x100 * (body[14] as int) + body[15]);
    var server := AddrPort(Addr4(body[10], body[11], body[12], body[13]), 0x100 * (body[16] as int) + body[17]);
    Chunk(Flow(client, server), body[4] + 0x100 * (body[5] as int), body[18..])
  }

  /** The chunk a parsed body carries. */
  function ChunkOf(p: TCPBody): Chunk {
    Chunk(p.UpFlow(), p.opcode, p.data)
  }

  lemma ParsedAsItIs(body: seq<byte>)
    ensures ParseTCPBody(body).Ok? <==> |body| >= 18
    ensures |body| >= 18 ==> ParseTCPBody(body).value.num == NumberIn(body) && ChunkOf(ParseTCPBody(body).value) == ChunkIn(body)
  {
    if |body| >= 18 {
      TCPBodyLayout(body);
    }
  }

  class Uplink {
    const reorder: Reorder<Chunk>
    const table: FlowTable
    /** Everything the flow table has been told. */
    ghost var history: seq<Event>
    /** The peer's numbering since the last handshake, and whether all that came in agrees with it. */
    ghost var peer: int -> Chunk
    ghost var honest: bool

    /** The flow table has been told exactly what the reassembler put out this epoch, in order. */
    ghost predicate Valid()
      reads this, reorder, table
    {
      && reorder.Valid()
      && table.State() == Run(table.max, history)
      && Delivered(EpochEvents(history)) == reorder.model.output
      && (honest ==> ReassemblyRuns.Faithful(reorder.model, peer))
    }

    constructor (r: Reorder<Chunk>, t: FlowTable, ghost numbering: int -> Chunk)
      requires r.Valid() && r.model == Reassembly.Fresh<Chunk>() && t.State() == Run(t.max, [])
      ensures Valid() && reorder == r && table == t && history == [] && peer == numbering && honest
    {
      reorder, table, history, peer, honest := r, t, [], numbering, true;
    }

    /** Ingest one TCP body; one too short to parse changes nothing. */
    method HandleTCPUp(body: seq<byte>, now: Reassembly.Instant, clock: Reassembly.Instant, ghost n: int)
      requires Valid()
      requires |body| >= 18 ==> NumberIn(body) == Wrap(n) && Fits(reorder.model, n)
      modifies this, reorder, table
      ensures Valid() && peer == old(peer)
      ensures honest == (old(honest) && (|body| >= 18 ==> ChunkIn(body) == peer(n)))
      ensures if |body| >= 18 then
          reorder.model == Reassembly.Push(reorder.cfg, old(reorder.model), n, ChunkIn(body), now, clock)
        else reorder.model == old(reorder.model) && table.State() == old(table.State())
      ensures old(reorder.model).output <= reorder.model.output
      ensures history == old(history) + Deliveries(reorder.model.output[|old(reorder.model).output|..])
    {
      ParsedAsItIs(body);
      hide ParseTCPBody, ChunkIn, NumberIn, ReassemblyRuns.Faithful, Reassembly.Push, EpochEvents, Delivered;
      var p := ParseTCPBody(body);
      if p.Err? {
        assert reorder.model.output[|reorder.model.output|..] == [];
        assert history == history + Deliveries([]);
        return;
      }
      var c := ChunkOf(p.value);
      if honest && c == peer(n) {
        ReassemblyRuns.PushFaithful(reorder.cfg, reorder.model, n, now, clock, peer);
      }
      honest := honest && c == peer(n);
      var ready := reorder.Push(p.value.num, c, now, clock, n);
      DeliverAll(ready);
      assert reorder.model.output[|old(reorder.model).output|..] == ready;
    }

    /** What a timer tick gives up waiting for lets the rest through. */
    method Expire(now: Reassembly.Instant, clock: Reassembly.Instant)
      requires Valid()
      modifies this, reorder, table
      ensures Valid() && peer == old(peer) && honest == old(honest)
      ensures reorder.model == Reassembly.Expire(reorder.cfg, old(reorder.model), now, clock)
      ensures old(reorder.model).output <= reorder.model.output
      ensures history == old(history) + Deliveries(reorder.model.output[|old(reorder.model).output|..])
    {
      hide ReassemblyRuns.Faithful, Reassembly.Expire, EpochEvents, Delivered;
      if honest {
        ReassemblyRuns.ExpireFaithful(reorder.cfg, reorder.model, now, clock, peer);
      }
      var ready := reorder.Expire(now, clock);
      DeliverAll(ready);
      assert reorder.model.output[|old(reorder.model).output|..] == ready;
    }

    /** Hand a run of deliverable chunks to the flow table, one by one. */
    method DeliverAll(ready: seq<Chunk>)
      requires reorder.Valid() && table.State() == Run(table.max, history)
      requires reorder.model.output == Delivered(EpochEvents(history)) + ready
      requires honest ==> ReassemblyRuns.Faithful(reorder.model, peer)
      modifies `history, table
      ensures Valid() && history == old(history) + Deliveries(ready)
    {
      hide Flows.Run, Flows.Step, EpochEvents, Delivered, Deliveries, ReassemblyRuns.Faithful;
      ghost var before := history;
      TakeEnds(ready);
      assert history == before + Deliveries([]);
      for i := 0 to |ready|
        invariant reorder.Valid() && reorder.model == old(reorder.model)
        invariant table.State() == Run(table.max, history)
        invariant history == before + Deliveries(ready[..i])
      {
        EpochSnoc(table.max, history, Deliver(ready[i]));
        DeliveriesSnoc(before, ready[..i], ready[i]);
        TakeMore(ready, i);
        table.DeliverTCP(ready[i]);
        history := history + [Deliver(ready[i])];
      }
      EpochGrows(before, ready);
    }

    method HandleUpstreamClosed(flow: Flow)
      requires Valid()
      modifies `history, table
      ensures Valid() && history == old(history) + [UpstreamClosed(flow)]
    {
      hide Run, Step, EpochEvents, Delivered, ReassemblyRuns.Faithful;
      EpochSnoc(table.max, history, UpstreamClosed(flow));
      table.HandleUpstreamClosed(flow);
      history := history + [UpstreamClosed(flow)];
    }

    /** A handshake starts a new epoch with a numbering of its own. */
    method ResetForHandshake(ghost numbering: int -> Chunk)
      requires Valid()
      modifies this, reorder, table
      ensures Valid() && history == old(history) + [Handshake] && peer == numbering && honest
      ensures reorder.model == Reassembly.Cleared(old(reorder.model)) && table.flows == map[]
    {
      hide Run, EpochEvents, Delivered;
      EpochSnoc(table.max, history, Handshake);
      reorder.Reset();
      table.ResetForHandshake();
      history, peer, honest := history + [Handshake], numbering, true;
    }

    /** The peer's stream as far as it has come out: its chunks from the start to `next`, in the
        order of their numbers and once each, without those given up. */
    ghost function Stream(): seq<Chunk>
      reads this, reorder
    {
      var m := reorder.model;
      if m.started then ReassemblyRuns.Expected(peer, m.start, m.next, m.lost) else []
    }

    /** End to end, over every epoch in which each number came with the peer's chunk for it: a
        tuple's flows have been handed exactly that tuple's payload chunks of the peer's stream, in
        order, minus those refused at the limit, and while the stream uses no more tuples than the
        limit, all of them. */
    lemma FlowsGetTheStream(flow: Flow)
      requires Valid() && honest
      ensures var before, taken := Run(table.max, Before(history)).handed, Taken(table.max, EpochEvents(history));
        && before <= table.handed && |taken| == |Stream()|
        && HandedTo(table.handed[|before|..], flow) == PayloadsTaken(Stream(), taken, flow)
        && (|Tuples(Stream())| <= table.max ==> HandedTo(table.handed[|before|..], flow) == PayloadsOf(Stream(), flow))
    {
      hide EpochEvents, Delivered, Taken, HandedTo, PayloadsTaken, PayloadsOf, Tuples, Run;
      assert table.State().handed == table.handed;
      assert Stream() == reorder.model.output;
      EpochHands(table.max, history, flow);
      if |Tuples(Stream())| <= table.max {
        NothingRefusedWithinTheLimit(table.max, EpochEvents(history), flow);
      }
    }
  }
}
