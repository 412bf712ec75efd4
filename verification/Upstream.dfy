/** From upstream data to frame bytes and back: whatever the data, the bytes a session puts out
    for it are deframed into the frames it numbered, and the frames carry exactly the data. */
module Upstream {
  import opened SeqNum
  import opened Bytes
  import opened Frames
  import opened Bodies
  import opened Deframer
  import opened Sender

  ghost function Join(bs: seq<seq<byte>>): seq<byte> {
    if bs == [] then [] else bs[0] + Join(bs[1..])
  }

  lemma {:induction false} ChunksCover(data: seq<byte>)
    ensures Join(Chunks(data)) == data
    ensures forall i :: 0 <= i < |Chunks(data)| ==> 1 <= |Chunks(data)[i]| <= 1400
    ensures forall i :: 0 <= i < |Chunks(data)| - 1 ==> |Chunks(data)[i]| == 1400
  {
    if |data| > MAX_CHUNK {
      ChunksCover(data[MAX_CHUNK..]);
      assert data == data[..MAX_CHUNK] + data[MAX_CHUNK..];
    } else if data != [] {
      assert [data][1..] == [] && data + [] == data;
    }
  }

  lemma {:induction false} JoinIsConcat(fs: seq<Frame>)
    ensures Join(EncodeAll(fs)) == Concat(fs)
  {
    if fs != [] {
      JoinIsConcat(fs[1..]);
      assert EncodeAll(fs)[1..] == EncodeAll(fs[1..]);
    }
  }

  lemma {:induction false} DownFrameAt(magic: u32, icgId: u32, n: int, flow: Flow, chunks: seq<seq<byte>>, i: nat)
    requires i < |chunks|
    ensures var fs := DownFrames(magic, icgId, n, flow, chunks);
      |fs| == |chunks| && fs[i] == DownFrame(magic, icgId, n + i, flow, TCP_PAYLOAD, chunks[i])
    decreases |chunks|
  {
    if i > 0 {
      DownFrameAt(magic, icgId, n + 1, flow, chunks[1..], i - 1);
    } else if |chunks| > 1 {
      DownFrameAt(magic, icgId, n + 1, flow, chunks[1..], 0);
    }
  }

  /** What the client sees of one chunk: the next number, a payload opcode, the tuple swapped. */
  ghost predicate Carries(f: Frame, n: int, flow: Flow, chunk: seq<byte>) {
    f.typ == TYPE_TCP_DOWN && f.num == 0
    && ParseTCPBody(f.body) == Ok(TCPBody(Wrap(n), TCP_PAYLOAD, flow.server, flow.client, chunk))
  }

  /** For any upstream data, the bytes put out deframe cleanly into one frame per chunk with
      consecutive numbers, the swapped tuple, 1 to 1400 bytes each, and the data in all. */
  lemma UpstreamComesThrough(magic: u32, icgId: u32, n: int, flow: Flow, data: seq<byte>)
    requires magic != 0
    ensures var encs := Encodings(magic, icgId, n, flow, data);
      var frames, chunks := Deframe(Join(encs), magic), Chunks(data);
      && Clean(Join(encs), magic)
      && |frames| == |chunks| && Join(chunks) == data
      && forall i :: 0 <= i < |chunks| ==> Carries(frames[i], n + i, flow, chunks[i]) && 1 <= |chunks[i]| <= MAX_CHUNK
  {
    var chunks := Chunks(data);
    var fs := DownFrames(magic, icgId, n, flow, chunks);
    ChunksCover(data);
    JoinIsConcat(fs);
    if chunks != [] {
      DownFrameAt(magic, icgId, n, flow, chunks, 0);
    }
    forall i | 0 <= i < |fs|
      ensures Fits(fs[i], magic) && Carries(fs[i], n + i, flow, chunks[i])
    {
      DownFrameAt(magic, icgId, n, flow, chunks, i);
      ParseEncodedTCPBody(flow.DownBody(Wrap(n + i), TCP_PAYLOAD, chunks[i]));
    }
    hide Frames.Decode, Frames.Encode, Carries, DownFrames;
    assert Concat(fs) + [] == Concat(fs);
    DeframesConcat(fs, [], magic);
    CleanConcat(fs, [], magic);
    ShortEnds([], magic);
  }
}
