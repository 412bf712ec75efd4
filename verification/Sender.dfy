/** The sending half of a session: consecutive numbering, the stash, and what acknowledgements
    and retransmit requests do to it. Unwrapped numbers count from 0 at each handshake. */
module Sender {
  import opened Sequences
  import opened SeqNum
  import opened Bytes
  import opened Frames
  import opened Bodies
  import opened SendStash

  const TYPE_TCP_DOWN: byte := 2
  const MAX_CHUNK: int := 1400

  /** The frame that carries number `n` of the epoch. */
  function DownFrame(magic: u32, icgId: u32, n: int, flow: Flow, op: u16, data: seq<byte>): Frame {
    Frame(magic, icgId, TYPE_TCP_DOWN, 0, 0, EncodeTCPBody(flow.DownBody(Wrap(n), op, data)))
  }

  /** The number a stashed frame carries in its body. */
  ghost predicate CarriesNumber(enc: seq<byte>, n: int) {
    |enc| >= HDR_LEN && match ParseTCPBody(enc[HDR_LEN..]) case Ok(t) => t.num == Wrap(n) case Err(_) => false
  }

  lemma DownFrameCarries(magic: u32, icgId: u32, n: int, flow: Flow, op: u16, data: seq<byte>)
    ensures CarriesNumber(Encode(DownFrame(magic, icgId, n, flow, op, data)), n)
  {
    ParseEncodedTCPBody(flow.DownBody(Wrap(n), op, data));
  }

  /** The bytes of a downlink frame: magic, length, opaque id, type 2, opcode 0 and number 0 at their
      offsets, then a body with the epoch's number, the opcode given, the server as the source, the
      client as the destination, and the data. */
  ghost predicate IsDownFrame(enc: seq<byte>, magic: u32, icgId: u32, n: int, flow: Flow, op: u16, data: seq<byte>) {
    && |enc| == 36 + |data|
    && FromLe32(enc) == magic && FromLe32(enc[4..]) == Wrap(28 + |data|) && FromLe32(enc[8..]) == icgId
    && enc[12] == 2 && enc[13] == 0 && FromBe32(enc[14..]) == 0
    && ParseTCPBody(enc[18..]) == Ok(TCPBody(Wrap(n), op, flow.server, flow.client, data))
  }

  lemma DownFrameBytes(magic: u32, icgId: u32, n: int, flow: Flow, op: u16, data: seq<byte>)
    requires magic != 0
    ensures IsDownFrame(Encode(DownFrame(magic, icgId, n, flow, op, data)), magic, icgId, n, flow, op, data)
  {
    var f := DownFrame(magic, icgId, n, flow, op, data);
    ParseEncodedTCPBody(flow.DownBody(Wrap(n), op, data));
    EncodedLayout(f, []);
    assert Encode(f) + [] == Encode(f);
    hide Encode, EncodeTCPBody, ParseTCPBody, FromLe32, FromBe32;
  }

  // ---------------------------------------------------------------- the window

  /** The lowest number still stashed, given the highest acknowledged one. */
  function WindowStart(sent: nat, acked: int, limit: int): int {
    if acked + 1 > sent - limit then acked + 1 else sent - limit
  }

  /** The stash holds exactly the numbers from `lo` up to the last one sent, in order, each with
      the frame that was sent under it. */
  ghost predicate Holds(m: map<u32, seq<byte>>, order: seq<u32>, sent: seq<seq<byte>>, lo: int) {
    && 0 <= lo <= |sent| && |order| == |sent| - lo && m.Keys == Elements(order)
    && forall i :: 0 <= i < |order| ==> order[i] == Wrap(lo + i) && order[i] in m && m[order[i]] == sent[lo + i]
  }

  /** A number is in the stash exactly when it is in the window. */
  lemma WindowLookup(m: map<u32, seq<byte>>, order: seq<u32>, sent: seq<seq<byte>>, lo: int, k: int)
    requires Holds(m, order, sent, lo) && |sent| - lo <= HALF && Near(k, |sent|)
    ensures Wrap(k) in m <==> lo <= k < |sent|
    ensures lo <= k < |sent| ==> m[Wrap(k)] == sent[k]
  {
    if lo <= k < |sent| {
      assert order[k - lo] == Wrap(k);
    } else if Wrap(k) in m {
      assert Wrap(k) in Elements(order);
      var i :| 0 <= i < |order| && order[i] == Wrap(k);
      WrapInjective(k, lo + i, |sent|);
    }
  }

  /** Stashing the next number keeps the window, evicting its oldest number at the cap. */
  lemma PutKeepsWindow(m: map<u32, seq<byte>>, order: seq<u32>, sent: seq<seq<byte>>, lo: int, enc: seq<byte>)
    requires Holds(m, order, sent, lo) && |sent| - lo <= HALF
    ensures Wrap(|sent|) !in m && |order| == |sent| - lo
    ensures Holds(m[Wrap(|sent|) := enc], order + [Wrap(|sent|)], sent + [enc], lo)
    ensures order != [] ==> Holds(m[Wrap(|sent|) := enc] - {order[0]}, order[1..] + [Wrap(|sent|)], sent + [enc], lo + 1)
  {
    var n := Wrap(|sent|);
    WindowLookup(m, order, sent, lo, |sent|);
    var m', order' := m[n := enc], order + [n];
    assert Elements(order') == Elements(order) + {n};
    assert forall i :: 0 <= i < |order| ==> order'[i] == order[i];
    if order != [] {
      assert order'[1..] == order[1..] + [n];
      EvictKeepsWindow(m', order', sent + [enc], lo);
    }
  }

  lemma EvictKeepsWindow(m: map<u32, seq<byte>>, order: seq<u32>, sent: seq<seq<byte>>, lo: int)
    requires Holds(m, order, sent, lo) && |sent| - lo <= HALF + 1 && order != []
    ensures Holds(m - {order[0]}, order[1..], sent, lo + 1)
  {
    forall i, j | 0 <= i < j < |order|
      ensures order[i] != order[j]
    {
      if order[i] == order[j] {
        WrapInjective(lo + i, lo + j, |sent| - 1);
      }
    }
    ElementsTail(order);
    assert forall i :: 0 <= i < |order| - 1 ==> order[1..][i] == order[i + 1];
  }

  ghost predicate Consecutive(order: seq<u32>, lo: int) {
    forall i :: 0 <= i < |order| ==> order[i] == Wrap(lo + i)
  }

  /** The part of a window from `lo` that lies ahead of `a`. */
  ghost function Ahead(order: seq<u32>, lo: int, a: int): seq<u32> {
    if a < lo then order else if a + 1 - lo <= |order| then order[a + 1 - lo..] else []
  }

  lemma AheadSnoc(init: seq<u32>, q: u32, lo: int, a: int)
    ensures Ahead(init + [q], lo, a) == if lo + |init| <= a then Ahead(init, lo, a) else Ahead(init, lo, a) + [q]
  {
  }

  lemma UnackedSnoc(init: seq<u32>, q: u32, ack: u32)
    ensures Unacked(init + [q], ack) == if Diff(q, ack) <= 0 then Unacked(init, ack) else Unacked(init, ack) + [q]
  {
    assert (init + [q])[..|init|] == init;
  }

  /** An acknowledgement drops exactly the part of the window it covers. */
  lemma {:induction false} UnackedWindow(order: seq<u32>, lo: int, a: int)
    requires Consecutive(order, lo) && -HALF <= lo - a && lo + |order| - a <= HALF
    ensures Unacked(order, Wrap(a)) == Ahead(order, lo, a)
    decreases |order|
  {
    if order == [] {
    } else {
      var init, last := SplitLast(order);
      hide SeqNum.Diff, SeqNum.Wrap, Unacked, Ahead;
      assert Consecutive(init, lo) by {
        assert forall i :: 0 <= i < |init| ==> init[i] == order[i];
      }
      assert last == order[|init|];
      UnackedWindow(init, lo, a);
      DiffIsTrueDifference(lo + |init|, a);
      UnackedSnoc(init, last, Wrap(a));
      AheadSnoc(init, last, lo, a);
    }
  }

  lemma AckKeepsWindow(m: map<u32, seq<byte>>, order: seq<u32>, sent: seq<seq<byte>>, lo: int, a: int)
    requires Holds(m, order, sent, lo) && |sent| - lo <= HALF && -1 <= a < |sent| && |sent| - a <= HALF
    ensures Holds(Released(m, Wrap(a)), Unacked(order, Wrap(a)), sent, if a < lo then lo else a + 1)
  {
    hide SeqNum.Diff, SeqNum.Wrap, SendStash.Unacked, SendStash.Released;
    assert Consecutive(order, lo);
    UnackedWindow(order, lo, a);
    FreedAll(m, order, Wrap(a));
    var lo' := if a < lo then lo else a + 1;
    var order' := Unacked(order, Wrap(a));
    forall i | 0 <= i < |order'|
      ensures order'[i] == Wrap(lo' + i) && order'[i] in Released(m, Wrap(a)) && m[order'[i]] == sent[lo' + i]
    {
      assert order'[i] == order[lo' - lo + i] && order'[i] in Elements(order');
    }
  }

  /** Why an acknowledgement must not be older than half the number space: one that is frees a
      number it does not cover, and exactly then. */
  lemma StaleAckFreesExactly(k: int, a: int)
    requires 0 < k - a < 0x1_0000_0000
    ensures Diff(Wrap(k), Wrap(a)) <= 0 <==> k - a >= HALF
  {
    hide SeqNum.Wrap, SeqNum.Diff;
    if k - a >= HALF {
      DiffBeyondHalf(k, a);
    } else {
      DiffIsTrueDifference(k, a);
    }
  }

  // ---------------------------------------------------------------- the sender

  class Downlink {
    const magic: u32
    const icgId: u32
    const limit: int
    var downTCPSeq: u32
    var stash: Stash
    var framesOut: nat
    var retransmitsServed: nat

    /** The encodings sent this epoch, by number, and the highest number acknowledged (or -1). */
    ghost var sent: seq<seq<byte>>
    ghost var acked: int

    ghost function Lo(): int
      reads this
    {
      WindowStart(|sent|, acked, limit)
    }

    ghost predicate Valid()
      reads this, stash
    {
      && 0 < limit <= HALF && magic != 0 && stash.Valid() && stash.limit == limit
      && downTCPSeq == Wrap(|sent|) && -1 <= acked < |sent|
      && Holds(stash.m, stash.order, sent, Lo())
      && forall n :: 0 <= n < |sent| ==> CarriesNumber(sent[n], n)
    }

    constructor (m: u32, id: u32, stashLimit: int)
      requires stashLimit <= HALF
      ensures Valid() && sent == [] && fresh(stash) && magic == Magic(m) && icgId == id
      ensures limit == if stashLimit <= 0 then 8192 else stashLimit
    {
      magic, icgId, limit := Magic(m), id, if stashLimit <= 0 then 8192 else stashLimit;
      downTCPSeq, framesOut, retransmitsServed := 0, 0, 0;
      stash := new Stash(stashLimit);
      sent, acked := [], -1;
    }

    /** A handshake starts the numbering over with an empty stash. */
    method ResetForHandshake()
      requires Valid()
      modifies this
      ensures Valid() && sent == [] && acked == -1 && fresh(stash) && stash.m == map[]
    {
      stash := new Stash(limit);
      downTCPSeq := 0;
      sent, acked := [], -1;
    }

    /** Number, frame, stash and hand out one downlink frame. */
    method SendTCPDown(flow: Flow, op: u16, data: seq<byte>) returns (enc: seq<byte>)
      requires Valid()
      modifies this, stash
      ensures Valid() && stash == old(stash)
      ensures IsDownFrame(enc, magic, icgId, |old(sent)|, flow, op, data)
      ensures enc == Encode(DownFrame(magic, icgId, |old(sent)|, flow, op, data))
      ensures sent == old(sent) + [enc] && acked == old(acked) && framesOut == old(framesOut) + 1
    {
      hide Holds, Frames.Encode, Bodies.EncodeTCPBody, CarriesNumber, IsDownFrame, SeqNum.Wrap;
      var num := downTCPSeq;
      DownFrameBytes(magic, icgId, |sent|, flow, op, data);
      DownFrameCarries(magic, icgId, |sent|, flow, op, data);
      StepsWrap(|sent|);
      downTCPSeq := Inc(downTCPSeq);
      enc := Encode(Frame(magic, icgId, TYPE_TCP_DOWN, 0, 0, EncodeTCPBody(flow.DownBody(num, op, data))));
      PutKeepsWindow(stash.m, stash.order, sent, Lo(), enc);
      stash.Put(num, enc);
      framesOut := framesOut + 1;
      sent := sent + [enc];
    }

    /** Upstream data goes out in chunks, numbered consecutively. */
    method HandleUpstreamData(flow: Flow, data: seq<byte>) returns (encs: seq<seq<byte>>)
      requires Valid()
      modifies this, stash
      ensures Valid() && stash == old(stash) && acked == old(acked)
      ensures encs == Encodings(magic, icgId, |old(sent)|, flow, data)
      ensures sent == old(sent) + encs
    {
      hide Valid, Encodings, Frames.Encode, DownFrame, IsDownFrame, EncodeTCPBody, Lo, WindowStart;
      encs := [];
      var off := 0;
      ghost var n, rest := |sent|, data;
      while off < |data|
        invariant 0 <= off && Valid() && stash == old(stash) && acked == old(acked)
        invariant sent == old(sent) + encs && n == |sent|
        invariant rest == if off < |data| then data[off..] else []
        invariant Encodings(magic, icgId, |old(sent)|, flow, data) == encs + Encodings(magic, icgId, n, flow, rest)
        decreases |data| - off
      {
        var end := if off + MAX_CHUNK < |data| then off + MAX_CHUNK else |data|;
        NextChunk(magic, icgId, n, flow, rest);
        SlicesOf(data, off, end);
        var enc := SendTCPDown(flow, TCP_PAYLOAD, data[off..end]);
        Regroup(encs, [enc], Encodings(magic, icgId, n + 1, flow, data[end..]));
        Regroup(old(sent), encs, [enc]);
        encs := encs + [enc];
        off, n, rest := off + MAX_CHUNK, n + 1, data[end..];
      }
      NoChunk(magic, icgId, n, flow);
    }

    /** A cumulative acknowledgement, however late or stale, within half the number space. */
    method HandleAck(num: u32, ghost a: int)
      requires Valid() && num == Wrap(a) && -1 <= a < |sent| && |sent| - a <= HALF
      modifies this, stash
      ensures Valid() && stash == old(stash) && sent == old(sent)
      ensures acked == if a > old(acked) then a else old(acked)
    {
      hide Holds, CarriesNumber, SendStash.Unacked, SendStash.Released;
      AckKeepsWindow(stash.m, stash.order, sent, Lo(), a);
      stash.AckUpTo(num);
      acked := if a > acked then a else acked;
    }

    /** A request for one number is served exactly when the number is in the window. */
    method ResendOne(num: u32, ghost k: int) returns (frame: seq<byte>, served: bool)
      requires Valid() && num == Wrap(k) && Near(k, |sent|)
      modifies `retransmitsServed, stash
      ensures Valid() && stash == old(stash)
      ensures served <==> Lo() <= k < |sent|
      ensures served ==> frame == sent[k]
      ensures retransmitsServed == old(retransmitsServed) + if served then 1 else 0
    {
      WindowLookup(stash.m, stash.order, sent, Lo(), k);
      frame, served := stash.Get(num);
      if served {
        retransmitsServed := retransmitsServed + 1;
      }
    }

    /** A well-formed request resends, in its order, the frames of all those numbers it names that
        are in the window and nothing else; a malformed one resends nothing. */
    method ServeRetransmit(body: seq<byte>, ghost ks: seq<int>) returns (frames: seq<seq<byte>>)
      requires Valid()
      requires SeqList(body).Ok? ==> SeqList(body).value == WrapAll(ks) && forall i :: 0 <= i < |ks| ==> Near(ks[i], |sent|)
      modifies `retransmitsServed, stash
      ensures Valid() && stash == old(stash)
      ensures Answers(frames, sent, Lo(), if SeqList(body).Ok? then ks else [])
      ensures retransmitsServed == old(retransmitsServed) + |frames|
    {
      hide Answers, SeqList, Holds, CarriesNumber;
      frames := [];
      NothingAnswered(sent, Lo());
      var r := ParseSeqList(body);
      if r.Err? {
        return;
      }
      TakeEnds(ks);
      for i := 0 to |r.value|
        invariant Valid() && stash == old(stash)
        invariant Answers(frames, sent, Lo(), ks[..i]) && retransmitsServed == old(retransmitsServed) + |frames|
      {
        var frame, served := ResendOne(r.value[i], ks[i]);
        TakeMore(ks, i);
        OneMoreAnswered(frames, sent, Lo(), ks[..i], ks[i]);
        if served {
          frames := frames + [frame];
        }
      }
    }
  }

  /** How many of the first `i` numbers of `ks` are in the window. */
  ghost function Hits(ks: seq<int>, i: nat, lo: int, hi: int): nat
    requires i <= |ks|
  {
    if i == 0 then 0 else Hits(ks, i - 1, lo, hi) + if lo <= ks[i - 1] < hi then 1 else 0
  }

  /** Each number in the window is answered, at its place among those that are, with what was sent
      under it; and there are no other answers. */
  ghost predicate Answers(frames: seq<seq<byte>>, sent: seq<seq<byte>>, lo: nat, ks: seq<int>) {
    && |frames| == Hits(ks, |ks|, lo, |sent|)
    && forall i :: 0 <= i < |ks| ==> AnswerAt(frames, sent, lo, ks, i)
  }

  ghost predicate AnswerAt(frames: seq<seq<byte>>, sent: seq<seq<byte>>, lo: nat, ks: seq<int>, i: nat)
    requires i < |ks|
  {
    lo <= ks[i] < |sent| ==> Hits(ks, i, lo, |sent|) < |frames| && frames[Hits(ks, i, lo, |sent|)] == sent[ks[i]]
  }

  lemma NothingAnswered(sent: seq<seq<byte>>, lo: nat)
    ensures Answers([], sent, lo, [])
  {
  }

  lemma {:induction false} HitsSnoc(ks: seq<int>, k: int, i: nat, lo: int, hi: int)
    requires i <= |ks|
    ensures Hits(ks + [k], i, lo, hi) == Hits(ks, i, lo, hi)
  {
    if i > 0 {
      HitsSnoc(ks, k, i - 1, lo, hi);
    }
  }

  lemma OneMoreAnswered(frames: seq<seq<byte>>, sent: seq<seq<byte>>, lo: nat, ks: seq<int>, k: int)
    requires Answers(frames, sent, lo, ks)
    ensures Answers(if lo <= k < |sent| then frames + [sent[k]] else frames, sent, lo, ks + [k])
  {
    var frames', ks' := if lo <= k < |sent| then frames + [sent[k]] else frames, ks + [k];
    HitsSnoc(ks, k, |ks|, lo, |sent|);
    assert Hits(ks', |ks'|, lo, |sent|) == |frames'|;
    hide Hits;
    forall i | 0 <= i < |ks'|
      ensures AnswerAt(frames', sent, lo, ks', i)
    {
      HitsSnoc(ks, k, if i <= |ks| then i else 0, lo, |sent|);
      if i < |ks| {
        assert AnswerAt(frames, sent, lo, ks, i);
      }
    }
  }

  /** So an answered request leaves no stashed number it names unanswered, and answers nothing else. */
  lemma AnswersAreExactly(frames: seq<seq<byte>>, sent: seq<seq<byte>>, lo: nat, ks: seq<int>)
    requires Answers(frames, sent, lo, ks)
    ensures forall k :: k in ks && lo <= k < |sent| ==> sent[k] in frames
    ensures forall f :: f in frames ==> exists k :: k in ks && lo <= k < |sent| && f == sent[k]
  {
    forall k | k in ks && lo <= k < |sent|
      ensures sent[k] in frames
    {
      var i :| 0 <= i < |ks| && ks[i] == k;
      assert AnswerAt(frames, sent, lo, ks, i);
      assert frames[Hits(ks, i, lo, |sent|)] == sent[k];
    }
    forall p | 0 <= p < |frames|
      ensures exists k :: k in ks && lo <= k < |sent| && frames[p] == sent[k]
    {
      var i := HitAt(ks, |ks|, lo, |sent|, p);
      assert AnswerAt(frames, sent, lo, ks, i);
      assert ks[i] in ks && frames[p] == sent[ks[i]];
    }
  }

  lemma {:induction false} HitAt(ks: seq<int>, n: nat, lo: int, hi: int, p: nat) returns (i: nat)
    requires n <= |ks| && p < Hits(ks, n, lo, hi)
    ensures i < n && lo <= ks[i] < hi && Hits(ks, i, lo, hi) == p
  {
    if lo <= ks[n - 1] < hi && Hits(ks, n - 1, lo, hi) == p {
      i := n - 1;
    } else {
      i := HitAt(ks, n - 1, lo, hi, p);
    }
  }

  /** Stream data cut into frames: full chunks and what is left over. */
  function Chunks(data: seq<byte>): seq<seq<byte>> {
    if data == [] then []
    else if |data| <= MAX_CHUNK then [data]
    else [data[..MAX_CHUNK]] + Chunks(data[MAX_CHUNK..])
  }

  function DownFrames(magic: u32, icgId: u32, n: int, flow: Flow, chunks: seq<seq<byte>>): seq<Frame>
    decreases |chunks|
  {
    if chunks == [] then []
    else [DownFrame(magic, icgId, n, flow, TCP_PAYLOAD, chunks[0])] + DownFrames(magic, icgId, n + 1, flow, chunks[1..])
  }

  function EncodeAll(fs: seq<Frame>): seq<seq<byte>> {
    if fs == [] then [] else [Encode(fs[0])] + EncodeAll(fs[1..])
  }

  /** What upstream data becomes from number `n` on. */
  function Encodings(magic: u32, icgId: u32, n: int, flow: Flow, data: seq<byte>): seq<seq<byte>> {
    EncodeAll(DownFrames(magic, icgId, n, flow, Chunks(data)))
  }

  lemma NextChunk(magic: u32, icgId: u32, n: int, flow: Flow, data: seq<byte>)
    requires data != []
    ensures var k := if |data| < MAX_CHUNK then |data| else MAX_CHUNK;
      Encodings(magic, icgId, n, flow, data) ==
        [Encode(DownFrame(magic, icgId, n, flow, TCP_PAYLOAD, data[..k]))] + Encodings(magic, icgId, n + 1, flow, data[k..])
  {
    hide Frames.Encode, DownFrame;
    var k := if |data| < MAX_CHUNK then |data| else MAX_CHUNK;
    assert |data| <= MAX_CHUNK ==> data[..k] == data && data[k..] == [];
    assert Chunks(data) == [data[..k]] + Chunks(data[k..]);
    var fs := DownFrames(magic, icgId, n, flow, Chunks(data));
    assert fs[1..] == DownFrames(magic, icgId, n + 1, flow, Chunks(data[k..]));
  }

  lemma NoChunk(magic: u32, icgId: u32, n: int, flow: Flow)
    ensures Encodings(magic, icgId, n, flow, []) == []
  {
  }
}
