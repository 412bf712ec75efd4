/** Demultiplexing: the chunks that come out of the reassembler are handed to one flow per tuple,
    with a bound on how many flows a session may have open. Claims about a flow stop at the hand
    over: what its writer does with the chunk afterwards is not part of this model. */
module Flows {
  import opened SeqNum
  import opened Bytes
  import opened Bodies

  datatype Chunk = Chunk(flow: Flow, op: u16, data: seq<byte>)

  /** One call of `enqueue`: the tuple, the flow instance that was called, and the bytes. */
  datatype Handed = Handed(flow: Flow, id: nat, data: seq<byte>)

  datatype Event =
    | Deliver(c: Chunk)
    | UpstreamClosed(flow: Flow)
    | Handshake

  /** The flow table, with everything it has ever done: instances dialled and closed, chunks
      handed over, and DISCONNECTs sent down. */
  datatype Table = Table(flows: map<Flow, nat>, dialled: nat, closed: set<nat>, handed: seq<Handed>, disconnects: seq<Flow>)

  // ---------------------------------------------------------------- steps

  ghost function Open(max: int, t: Table, flow: Flow): Table {
    if flow in t.flows then t
    else if |t.flows| >= max then t.(disconnects := t.disconnects + [flow])
    else t.(flows := t.flows[flow := t.dialled], dialled := t.dialled + 1)
  }

  ghost function Close(t: Table, flow: Flow): Table {
    if flow in t.flows then t.(closed := t.closed + {t.flows[flow]}, flows := t.flows - {flow}) else t
  }

  ghost function Step(max: int, t: Table, e: Event): Table {
    match e
    case Deliver(c) =>
      if c.op == TCP_CONNECT then Open(max, t, c.flow)
      else if c.op == TCP_PAYLOAD then
        var o := Open(max, t, c.flow);
        if c.flow in o.flows then o.(handed := o.handed + [Handed(c.flow, o.flows[c.flow], c.data)]) else o
      else if c.op == TCP_DISCONNECT then Close(t, c.flow)
      else t
    case UpstreamClosed(flow) =>
      var k := Close(t, flow);
      k.(disconnects := k.disconnects + [flow])
    case Handshake =>
      t.(flows := map[], closed := t.closed + t.flows.Values)
  }

  ghost function Run(max: int, evs: seq<Event>): Table {
    if evs == [] then Table(map[], 0, {}, [], [])
    else Step(max, Run(max, evs[..|evs| - 1]), evs[|evs| - 1])
  }

  // ---------------------------------------------------------------- the class

  class FlowTable {
    const max: int
    var flows: map<Flow, nat>
    var dialled: nat
    var closed: set<nat>
    var handed: seq<Handed>
    var disconnects: seq<Flow>

    ghost function State(): Table
      reads this
    {
      Table(flows, dialled, closed, handed, disconnects)
    }

    constructor (limit: int)
      ensures max == limit && State() == Run(limit, [])
    {
      max, flows, dialled, closed, handed, disconnects := limit, map[], 0, {}, [], [];
    }

    /** The flow for a tuple, dialled now if there is none and room for one. */
    method OpenFlow(flow: Flow) returns (id: nat, ok: bool)
      modifies this
      ensures State() == Open(max, old(State()), flow)
      ensures ok <==> flow in flows
      ensures ok ==> id == flows[flow]
    {
      if flow in flows {
        return flows[flow], true;
      }
      if |flows| >= max {
        disconnects := disconnects + [flow];
        return 0, false;
      }
      id := dialled;
      flows := flows[flow := id];
      dialled := dialled + 1;
      return id, true;
    }

    /** Close a tuple's flow, if it has one, and forget it. */
    method CloseFlow(flow: Flow)
      modifies this
      ensures State() == Close(old(State()), flow)
    {
      if flow in flows {
        closed := closed + {flows[flow]};
        flows := flows - {flow};
      }
    }

    /** Act on one chunk, in sequence order. A payload opens its flow lazily. */
    method DeliverTCP(c: Chunk)
      modifies this
      ensures State() == Step(max, old(State()), Deliver(c))
    {
      if c.op == TCP_CONNECT {
        var id, ok := OpenFlow(c.flow);
      } else if c.op == TCP_PAYLOAD {
        var id, ok := OpenFlow(c.flow);
        if !ok {
          return;
        }
        handed := handed + [Handed(c.flow, id, c.data)];
      } else if c.op == TCP_DISCONNECT {
        CloseFlow(c.flow);
      }
    }

    /** The upstream ended or could not be dialled: the peer is told in any case. */
    method HandleUpstreamClosed(flow: Flow)
      modifies this
      ensures State() == Step(max, old(State()), UpstreamClosed(flow))
    {
      CloseFlow(flow);
      disconnects := disconnects + [flow];
    }

    /** A handshake closes every flow. */
    method ResetForHandshake()
      modifies this
      ensures State() == Step(max, old(State()), Handshake)
    {
      var todo := flows.Keys;
      while todo != {}
        invariant todo <= flows.Keys && flows == old(flows)
        invariant dialled == old(dialled) && handed == old(handed) && disconnects == old(disconnects)
        invariant closed == old(closed) + set k | k in flows && k !in todo :: flows[k]
        decreases |todo|
      {
        var k :| k in todo;
        closed := closed + {flows[k]};
        todo := todo - {k};
      }
      assert flows.Values == set k | k in flows && k !in todo :: flows[k];
      flows := map[];
    }
  }

  // ---------------------------------------------------------------- what a run guarantees

  /** Every instance ever dialled is open under one tuple or has been closed, and not both. */
  ghost predicate Sound(max: int, t: Table) {
    && |t.flows| <= (if max < 0 then 0 else max)
    && |t.flows| + |t.closed| == t.dialled
    && (forall i :: i in t.closed ==> i < t.dialled)
    && (forall f :: f in t.flows ==> t.flows[f] < t.dialled && t.flows[f] !in t.closed)
    && OneTupleEach(t.flows)
  }

  ghost predicate OneTupleEach(flows: map<Flow, nat>) {
    forall f, g :: f in flows && g in flows && f != g ==> flows[f] != flows[g]
  }

  lemma OpenIsSound(max: int, t: Table, flow: Flow)
    requires Sound(max, t)
    ensures Sound(max, Open(max, t, flow))
  {
    var o := Open(max, t, flow);
    if flow !in t.flows && |t.flows| < max {
      assert |o.flows| == |t.flows| + 1;
    }
  }

  lemma CloseIsSound(max: int, t: Table, flow: Flow)
    requires Sound(max, t)
    ensures Sound(max, Close(t, flow))
  {
    if flow in t.flows {
      var k := Close(t, flow);
      assert t.flows == k.flows[flow := t.flows[flow]];
      assert |t.flows| == |k.flows| + 1;
    }
  }

  lemma {:induction false} ValuesCount(flows: map<Flow, nat>)
    requires OneTupleEach(flows)
    ensures |flows.Values| == |flows|
  {
    if flows == map[] {
      assert flows.Values == {};
    } else {
      assert |flows.Keys| > 0;
      var f :| f in flows;
      var rest := flows - {f};
      ValuesCount(rest);
      ValuesSplit(flows, f);
    }
  }

  lemma ValuesSplit(flows: map<Flow, nat>, f: Flow)
    requires OneTupleEach(flows) && f in flows
    ensures |flows| == |flows - {f}| + 1 && |flows.Values| == |(flows - {f}).Values| + 1
  {
    var rest := flows - {f};
    assert flows.Keys == rest.Keys + {f};
    assert flows.Values == rest.Values + {flows[f]} by {
      assert forall g :: g in flows ==> g == f || g in rest;
    }
    assert flows[f] !in rest.Values;
  }

  lemma ResetIsSound(max: int, t: Table)
    requires Sound(max, t)
    ensures Sound(max, Step(max, t, Handshake))
  {
    ValuesCount(t.flows);
    assert t.closed !! t.flows.Values;
  }

  /** In every reachable state the table is within the limit, tuples have instances of their own,
      and an instance is open in the table or has been closed: never both, never neither. */
  lemma {:induction false} TableIsSound(max: int, evs: seq<Event>)
    ensures Sound(max, Run(max, evs))
  {
    if evs != [] {
      var t, e := Run(max, evs[..|evs| - 1]), evs[|evs| - 1];
      TableIsSound(max, evs[..|evs| - 1]);
      StepIsSound(max, t, e);
    }
  }

  lemma StepIsSound(max: int, t: Table, e: Event)
    requires Sound(max, t)
    ensures Sound(max, Step(max, t, e))
  {
    match e
    case Deliver(c) =>
      OpenIsSound(max, t, c.flow);
      CloseIsSound(max, t, c.flow);
    case UpstreamClosed(flow) => CloseIsSound(max, t, flow);
    case Handshake => ResetIsSound(max, t);
  }

  // ---------------------------------------------------------------- what the flows are handed

  /** What one event hands over: a payload chunk, if its tuple has a flow or there is room for one. */
  ghost function NewlyHanded(max: int, t: Table, e: Event): seq<Handed> {
    if e.Deliver? && e.c.op == TCP_PAYLOAD && (e.c.flow in t.flows || |t.flows| < max) then
      [Handed(e.c.flow, Open(max, t, e.c.flow).flows[e.c.flow], e.c.data)]
    else []
  }

  lemma StepHands(max: int, t: Table, e: Event)
    ensures Step(max, t, e).handed == t.handed + NewlyHanded(max, t, e)
  {
  }

  /** Every instance serves one tuple, an open one the tuple it is open under. */
  ghost predicate OneTupleServed(t: Table) {
    && (forall i :: 0 <= i < |t.handed| ==> t.handed[i].id < t.dialled)
    && (forall i, j :: 0 <= i < j < |t.handed| && t.handed[i].id == t.handed[j].id ==> t.handed[i].flow == t.handed[j].flow)
    && (forall f, i :: f in t.flows && 0 <= i < |t.handed| && t.handed[i].id == t.flows[f] ==> t.handed[i].flow == f)
  }

  /** In every reachable state, whatever tuples came, went and came again: no instance has been
      handed chunks of two tuples, and an open one has been handed its own tuple's only. */
  lemma {:induction false} InstancesServeOneTuple(max: int, evs: seq<Event>)
    ensures OneTupleServed(Run(max, evs))
  {
    if evs != [] {
      var t, e := Run(max, evs[..|evs| - 1]), evs[|evs| - 1];
      InstancesServeOneTuple(max, evs[..|evs| - 1]);
      TableIsSound(max, evs[..|evs| - 1]);
      StepServesOne(max, t, e);
    }
  }

  lemma StepServesOne(max: int, t: Table, e: Event)
    requires Sound(max, t) && OneTupleServed(t)
    ensures OneTupleServed(Step(max, t, e))
  {
    match e
    case Deliver(c) => DeliveryServesOne(max, t, c);
    case UpstreamClosed(flow) => CloseServesOne(t, flow);
    case Handshake =>
  }

  lemma DeliveryServesOne(max: int, t: Table, c: Chunk)
    requires Sound(max, t) && OneTupleServed(t)
    ensures OneTupleServed(Step(max, t, Deliver(c)))
  {
    OpenServesOne(max, t, c.flow);
    CloseServesOne(t, c.flow);
    hide OneTupleServed, OneTupleEach, Sound, Open, Close;
    var o := Open(max, t, c.flow);
    if c.op == TCP_PAYLOAD && c.flow in o.flows {
      HandingServesOne(o, c.flow, c.data);
    }
  }

  lemma CloseServesOne(t: Table, flow: Flow)
    requires OneTupleServed(t)
    ensures OneTupleServed(Close(t, flow))
  {
  }

  lemma OpenServesOne(max: int, t: Table, flow: Flow)
    requires Sound(max, t) && OneTupleServed(t)
    ensures OneTupleServed(Open(max, t, flow)) && OneTupleEach(Open(max, t, flow).flows)
    ensures forall f :: f in Open(max, t, flow).flows ==> Open(max, t, flow).flows[f] < Open(max, t, flow).dialled
  {
  }

  lemma HandingServesOne(t: Table, flow: Flow, data: seq<byte>)
    requires OneTupleServed(t) && OneTupleEach(t.flows) && flow in t.flows && t.flows[flow] < t.dialled
    ensures OneTupleServed(t.(handed := t.handed + [Handed(flow, t.flows[flow], data)]))
  {
  }

  /** What may end a tuple's flow: its DISCONNECT, its upstream's end, or a handshake. */
  ghost predicate Ends(e: Event, flow: Flow) {
    match e
    case Deliver(c) => c.op == TCP_DISCONNECT && c.flow == flow
    case UpstreamClosed(f) => f == flow
    case Handshake => true
  }

  /** Nothing else touches an open flow: it stays the instance it is. */
  lemma OpenFlowStays(max: int, t: Table, e: Event, flow: Flow)
    requires flow in t.flows && !Ends(e, flow)
    ensures var t' := Step(max, t, e);
      flow in t'.flows && t'.flows[flow] == t.flows[flow]
  {
  }

  lemma {:induction false} OpenFlowLasts(max: int, evs: seq<Event>, i: nat, flow: Flow)
    requires i <= |evs| && flow in Run(max, evs[..i]).flows
    requires forall m :: i <= m < |evs| ==> !Ends(evs[m], flow)
    ensures flow in Run(max, evs).flows && Run(max, evs).flows[flow] == Run(max, evs[..i]).flows[flow]
  {
    if i == |evs| {
      assert evs[..i] == evs;
    } else {
      var init, e := evs[..|evs| - 1], evs[|evs| - 1];
      assert init[..i] == evs[..i];
      OpenFlowLasts(max, init, i, flow);
      OpenFlowStays(max, Run(max, init), e, flow);
    }
  }

  /** Handing over leaves the flow open under the instance that was called. */
  lemma HandedIsOpen(max: int, t: Table, e: Event, h: Handed)
    requires Step(max, t, e).handed == t.handed + [h]
    ensures var t' := Step(max, t, e);
      h.flow in t'.flows && t'.flows[h.flow] == h.id && (h.flow in t.flows ==> t.flows[h.flow] == h.id) && !Ends(e, h.flow)
  {
    StepHands(max, t, e);
    assert NewlyHanded(max, t, e) == [h] by {
      assert (t.handed + NewlyHanded(max, t, e))[|t.handed|..] == NewlyHanded(max, t, e);
      assert (t.handed + [h])[|t.handed|..] == [h];
    }
  }

  /** One stream, one connection: two hand-overs of a tuple with nothing between them that may end
      its flow go to one and the same instance. */
  lemma OneConnectionPerStream(max: int, evs: seq<Event>, i: nat, j: nat, h: Handed, g: Handed)
    requires i < j < |evs| && h.flow == g.flow
    requires Run(max, evs[..i + 1]).handed == Run(max, evs[..i]).handed + [h]
    requires Run(max, evs[..j + 1]).handed == Run(max, evs[..j]).handed + [g]
    requires forall m :: i < m < j ==> !Ends(evs[m], h.flow)
    ensures h.id == g.id
  {
    hide *;
    RunAt(max, evs, i);
    RunAt(max, evs, j);
    HandedIsOpen(max, Run(max, evs[..i]), evs[i], h);
    Prefixes(evs, i + 1, j);
    OpenFlowLasts(max, evs[..j], i + 1, h.flow);
    HandedIsOpen(max, Run(max, evs[..j]), evs[j], g);
  }

  lemma RunAt(max: int, evs: seq<Event>, i: nat)
    requires i < |evs|
    ensures Run(max, evs[..i + 1]) == Step(max, Run(max, evs[..i]), evs[i])
  {
    assert evs[..i + 1][..i] == evs[..i];
  }

  lemma Prefixes(evs: seq<Event>, i: nat, j: nat)
    requires i <= j <= |evs|
    ensures evs[..j][..i] == evs[..i] && forall m :: 0 <= m < j ==> evs[..j][m] == evs[m]
  {
  }

  /** Once closed, an instance is handed nothing more, and it never opens again. */
  lemma {:induction false} ClosedInstancesStaySilent(max: int, evs: seq<Event>, k: nat, id: nat)
    requires k <= |evs| && id in Run(max, evs[..k]).closed
    ensures var before, now := Run(max, evs[..k]).handed, Run(max, evs);
      && id in now.closed && before <= now.handed
      && forall i :: |before| <= i < |now.handed| ==> now.handed[i].id != id
  {
    if k == |evs| {
      assert evs[..k] == evs;
    } else {
      var init, e := evs[..|evs| - 1], evs[|evs| - 1];
      assert init[..k] == evs[..k];
      ClosedInstancesStaySilent(max, init, k, id);
      TableIsSound(max, init);
      StepHands(max, Run(max, init), e);
    }
  }

  /** What a tuple's flows have been handed. */
  ghost function HandedTo(handed: seq<Handed>, flow: Flow): seq<seq<byte>> {
    if handed == [] then []
    else
      var n := |handed| - 1;
      HandedTo(handed[..n], flow) + if handed[n].flow == flow then [handed[n].data] else []
  }

  /** The tuples with an open flow, told from the events alone. */
  ghost function OpenTuples(max: int, evs: seq<Event>): set<Flow> {
    if evs == [] then {}
    else
      var open := OpenTuples(max, evs[..|evs| - 1]);
      match evs[|evs| - 1]
      case Deliver(c) =>
        if c.op == TCP_CONNECT || c.op == TCP_PAYLOAD then (if |open| < max then open + {c.flow} else open)
        else if c.op == TCP_DISCONNECT then open - {c.flow}
        else open
      case UpstreamClosed(flow) => open - {flow}
      case Handshake => {}
  }

  lemma {:induction false} OpenTuplesAreTheTable(max: int, evs: seq<Event>)
    ensures Run(max, evs).flows.Keys == OpenTuples(max, evs)
    ensures |Run(max, evs).flows| == |OpenTuples(max, evs)|
  {
    if evs != [] {
      var init, e := evs[..|evs| - 1], evs[|evs| - 1];
      OpenTuplesAreTheTable(max, init);
      StepOpens(max, Run(max, init), e);
    }
    assert |Run(max, evs).flows| == |Run(max, evs).flows.Keys|;
  }

  lemma StepOpens(max: int, t: Table, e: Event)
    ensures Step(max, t, e).flows.Keys ==
      match e
      case Deliver(c) =>
        if c.op == TCP_CONNECT || c.op == TCP_PAYLOAD then (if |t.flows.Keys| < max then t.flows.Keys + {c.flow} else t.flows.Keys)
        else if c.op == TCP_DISCONNECT then t.flows.Keys - {c.flow}
        else t.flows.Keys
      case UpstreamClosed(flow) => t.flows.Keys - {flow}
      case Handshake => {}
  {
    assert |t.flows| == |t.flows.Keys|;
  }

  /** A chunk that asks for a flow its tuple does not have. */
  ghost predicate Asks(open: set<Flow>, e: Event) {
    e.Deliver? && (e.c.op == TCP_CONNECT || e.c.op == TCP_PAYLOAD) && e.c.flow !in open
  }

  /** How many connections the events call for: one for each such chunk there was room for. */
  ghost function Dials(max: int, evs: seq<Event>): nat {
    if evs == [] then 0
    else
      var init, e := evs[..|evs| - 1], evs[|evs| - 1];
      Dials(max, init) + if Asks(OpenTuples(max, init), e) && |OpenTuples(max, init)| < max then 1 else 0
  }

  /** The tuples the peer has to be told the end of: those there was no room for, and those whose
      upstream has ended. */
  ghost function Refused(max: int, evs: seq<Event>): seq<Flow> {
    if evs == [] then []
    else
      var init, e := evs[..|evs| - 1], evs[|evs| - 1];
      Refused(max, init) +
        if Asks(OpenTuples(max, init), e) && |OpenTuples(max, init)| >= max then [e.c.flow]
        else if e.UpstreamClosed? then [e.flow]
        else []
  }

  /** No connection is dialled without need, and the peer is sent a DISCONNECT exactly for each
      refused chunk and each ended upstream, in order. */
  lemma {:induction false} DialsAndDisconnectsAreDue(max: int, evs: seq<Event>)
    ensures Run(max, evs).dialled == Dials(max, evs) && Run(max, evs).disconnects == Refused(max, evs)
  {
    if evs == [] {
    } else {
      var init, e := evs[..|evs| - 1], evs[|evs| - 1];
      DialsAndDisconnectsAreDue(max, init);
      OpenTuplesAreTheTable(max, init);
      StepDials(max, Run(max, init), e);
    }
  }

  lemma StepDials(max: int, t: Table, e: Event)
    ensures var t', open := Step(max, t, e), t.flows.Keys;
      && t'.dialled == t.dialled + (if Asks(open, e) && |open| < max then 1 else 0)
      && t'.disconnects == t.disconnects +
           (if Asks(open, e) && |open| >= max then [e.c.flow] else if e.UpstreamClosed? then [e.flow] else [])
  {
    assert |t.flows| == |t.flows.Keys|;
  }

  /** The chunks that came out of the reassembler, in order. */
  ghost function Delivered(evs: seq<Event>): seq<Chunk> {
    if evs == [] then []
    else
      var e := evs[|evs| - 1];
      Delivered(evs[..|evs| - 1]) + if e.Deliver? then [e.c] else []
  }

  /** For each of them, whether its tuple had a flow then or there was room for one. */
  ghost function Taken(max: int, evs: seq<Event>): (b: seq<bool>)
    ensures |b| == |Delivered(evs)|
  {
    if evs == [] then []
    else
      var init, e := evs[..|evs| - 1], evs[|evs| - 1];
      Taken(max, init) +
        if e.Deliver? then [e.c.flow in OpenTuples(max, init) || |OpenTuples(max, init)| < max] else []
  }

  /** The payload chunks of one tuple among those of `cs` that were taken, in order. */
  ghost function PayloadsTaken(cs: seq<Chunk>, taken: seq<bool>, flow: Flow): seq<seq<byte>>
    requires |cs| == |taken|
  {
    if cs == [] then []
    else
      var n := |cs| - 1;
      PayloadsTaken(cs[..n], taken[..n], flow) +
        if taken[n] && cs[n].op == TCP_PAYLOAD && cs[n].flow == flow then [cs[n].data] else []
  }

  /** All the payload chunks of one tuple, in order. */
  ghost function PayloadsOf(cs: seq<Chunk>, flow: Flow): seq<seq<byte>> {
    PayloadsTaken(cs, seq(|cs|, _ => true), flow)
  }

  lemma PayloadsSnoc(cs: seq<Chunk>, taken: seq<bool>, c: Chunk, b: bool, flow: Flow)
    requires |cs| == |taken|
    ensures PayloadsTaken(cs + [c], taken + [b], flow) ==
      PayloadsTaken(cs, taken, flow) + if b && c.op == TCP_PAYLOAD && c.flow == flow then [c.data] else []
  {
    assert (cs + [c])[..|cs|] == cs && (taken + [b])[..|cs|] == taken;
  }

  lemma HandedSnoc(handed: seq<Handed>, h: Handed, flow: Flow)
    ensures HandedTo(handed + [h], flow) == HandedTo(handed, flow) + if h.flow == flow then [h.data] else []
  {
    assert (handed + [h])[..|handed|] == handed;
  }

  /** One event adds to what a tuple's flows are handed what it adds to the tuple's share. */
  lemma ShareGrows(max: int, t: Table, handed: seq<Handed>, evs: seq<Event>, e: Event, flow: Flow)
    requires t.flows.Keys == OpenTuples(max, evs)
    requires HandedTo(handed, flow) == PayloadsTaken(Delivered(evs), Taken(max, evs), flow)
    ensures HandedTo(handed + NewlyHanded(max, t, e), flow) == PayloadsTaken(Delivered(evs + [e]), Taken(max, evs + [e]), flow)
  {
    hide OpenTuples, Open, HandedTo, PayloadsTaken;
    assert (evs + [e])[..|evs|] == evs && |t.flows| == |t.flows.Keys|;
    var cs, b, h := Delivered(evs), Taken(max, evs), NewlyHanded(max, t, e);
    if e.Deliver? {
      var taken := e.c.flow in t.flows || |t.flows| < max;
      PayloadsSnoc(cs, b, e.c, taken, flow);
      assert Delivered(evs + [e]) == cs + [e.c] && Taken(max, evs + [e]) == b + [taken];
    } else {
      assert Delivered(evs + [e]) == cs && Taken(max, evs + [e]) == b;
    }
    if h == [] {
      assert handed + h == handed;
    } else {
      HandedSnoc(handed, h[0], flow);
    }
  }

  /** Over any interleaving, a tuple's flows are handed exactly that tuple's payload chunks, in
      order, minus those refused at the limit. */
  lemma {:induction false} EachFlowGetsItsOwn(max: int, evs: seq<Event>, flow: Flow)
    ensures HandedTo(Run(max, evs).handed, flow) == PayloadsTaken(Delivered(evs), Taken(max, evs), flow)
  {
    hide OpenTuples, NewlyHanded, Step, Taken;
    if evs == [] {
      assert Run(max, evs).handed == [] && Delivered(evs) == [];
    } else {
      var init, e := evs[..|evs| - 1], evs[|evs| - 1];
      EachFlowGetsItsOwn(max, init, flow);
      OpenTuplesAreTheTable(max, init);
      StepHands(max, Run(max, init), e);
      ShareGrows(max, Run(max, init), Run(max, init).handed, init, e, flow);
      assert init + [e] == evs;
      hide Delivered, HandedTo, PayloadsTaken;
    }
  }

  ghost function Tuples(cs: seq<Chunk>): set<Flow> {
    set c | c in cs :: c.flow
  }

  /** While the tuples in use are no more than the limit, no chunk is refused at all. */
  lemma NothingRefusedWithinTheLimit(max: int, evs: seq<Event>, flow: Flow)
    requires |Tuples(Delivered(evs))| <= max
    ensures PayloadsTaken(Delivered(evs), Taken(max, evs), flow) == PayloadsOf(Delivered(evs), flow)
    ensures HandedTo(Run(max, evs).handed, flow) == PayloadsOf(Delivered(evs), flow)
  {
    EachFlowGetsItsOwn(max, evs, flow);
    AllTaken(max, evs, Tuples(Delivered(evs)));
    assert Taken(max, evs) == seq(|Delivered(evs)|, _ => true);
  }

  lemma {:induction false} AllTaken(max: int, evs: seq<Event>, all: set<Flow>)
    requires Tuples(Delivered(evs)) <= all && |all| <= max
    ensures forall i :: 0 <= i < |Taken(max, evs)| ==> Taken(max, evs)[i]
    ensures OpenTuples(max, evs) <= all
  {
    if evs != [] {
      var init, e := evs[..|evs| - 1], evs[|evs| - 1];
      assert forall c :: c in Delivered(init) ==> c in Delivered(evs);
      AllTaken(max, init, all);
      if e.Deliver? {
        assert e.c in Delivered(evs) && e.c.flow in Tuples(Delivered(evs));
        var open := OpenTuples(max, init);
        if e.c.flow !in open {
          Smaller(open, all, e.c.flow);
        }
      }
    }
  }

  lemma Smaller(a: set<Flow>, b: set<Flow>, x: Flow)
    requires a <= b && x in b && x !in a
    ensures |a| < |b|
  {
    assert b * a == a && x in b - a;
    assert |b - a| == |b| - |a|;
  }
}
