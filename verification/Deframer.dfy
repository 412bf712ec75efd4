/** Deframing a byte stream. `Deframe` is the reference: look at the whole stream, take a frame
    where one starts, otherwise move on by one byte. The incremental reader with its compacting
    buffer and its resynchronising scan is proved to return exactly those frames, however the
    stream is cut into reads. */
module Deframer {
  import opened Sequences
  import opened SeqNum
  import opened Bytes
  import opened Frames

  ghost function Deframe(s: seq<byte>, magic: u32): seq<Frame>
    decreases |s|
  {
    match Decode(s, magic)
    case Got(f, n) => EncodeDecode(s, magic); [f] + Deframe(s[n..], magic)
    case Short => []
    case _ => Deframe(s[1..], magic)
  }

  /** The reference never meets a byte that does not start a frame. */
  ghost predicate Clean(s: seq<byte>, magic: u32)
    decreases |s|
  {
    match Decode(s, magic)
    case Got(f, n) => EncodeDecode(s, magic); Clean(s[n..], magic)
    case Short => true
    case _ => false
  }

  // ---------------------------------------------------------------- the reference

  ghost predicate MagicAt(s: seq<byte>, i: nat, magic: u32) {
    i + 4 <= |s| && s[i..i + 4] == Le32(Magic(magic))
  }

  lemma MagicAtMeans(s: seq<byte>, i: nat, magic: u32)
    requires i + 4 <= |s|
    ensures MagicAt(s, i, magic) <==> FromLe32(s[i..]) == Magic(magic)
  {
    FromLe32Prefix(s[i..i + 4], s[i..]);
    assert s[i..][..4] == s[i..i + 4];
    Le32Bytes(s[i..]);
  }

  /** Bytes at which no magic starts cost the reference nothing but time. */
  lemma {:induction false} SkipsNoise(s: seq<byte>, j: nat, magic: u32)
    requires j <= |s| && forall i: nat :: i < j ==> !MagicAt(s, i, magic)
    ensures Deframe(s, magic) == Deframe(s[j..], magic)
    decreases j
  {
    if j == 0 {
      assert s[j..] == s;
    } else if |s| >= OUTER_LEN {
      MagicAtMeans(s, 0, magic);
      assert s[0..] == s && Decode(s, magic) == BadMagic;
      forall i: nat | i < j - 1
        ensures !MagicAt(s[1..], i, magic)
      {
        assert !MagicAt(s, i + 1, magic);
        if i + 5 <= |s| {
          SameFour(s[1..], i, s, i + 1);
        }
      }
      SkipsNoise(s[1..], j - 1, magic);
      assert s[1..][j - 1..] == s[j..];
    }
  }

  ghost function Concat(fs: seq<Frame>): seq<byte> {
    if fs == [] then [] else Encode(fs[0]) + Concat(fs[1..])
  }

  ghost predicate Fits(f: Frame, magic: u32) {
    f.magic == Magic(magic) && |f.body| <= MAX_BODY_LEN - SUB_HDR_LEN
  }

  /** Frames written back to back are read back, with whatever follows left to be deframed. */
  lemma {:induction false} DeframesConcat(fs: seq<Frame>, rest: seq<byte>, magic: u32)
    requires forall i :: 0 <= i < |fs| ==> Fits(fs[i], magic)
    ensures Deframe(Concat(fs) + rest, magic) == fs + Deframe(rest, magic)
  {
    if fs == [] {
      assert Concat(fs) + rest == rest;
    } else {
      hide Deframe, Concat, Fits;
      assert forall i :: 0 <= i < |fs| - 1 ==> fs[1..][i] == fs[i + 1];
      DeframesConcat(fs[1..], rest, magic);
      DeframesCons(fs, rest, Deframe(rest, magic), magic);
    }
  }

  lemma DeframesCons(fs: seq<Frame>, rest: seq<byte>, more: seq<Frame>, magic: u32)
    requires fs != [] && Fits(fs[0], magic) && Deframe(Concat(fs[1..]) + rest, magic) == fs[1..] + more
    ensures Deframe(Concat(fs) + rest, magic) == fs + more
  {
    hide Frames.Decode, Frames.Encode;
    var tail := Concat(fs[1..]) + rest;
    ConcatCons(fs, rest);
    DeframesOne(fs[0], tail, magic);
    hide Concat, Deframe;
    SplitFirst(fs);
    Regroup([fs[0]], fs[1..], more);
  }

  /** Nor is anything in them mistaken for a desynchronisation. */
  lemma {:induction false} CleanConcat(fs: seq<Frame>, rest: seq<byte>, magic: u32)
    requires forall i :: 0 <= i < |fs| ==> Fits(fs[i], magic)
    ensures Clean(Concat(fs) + rest, magic) <==> Clean(rest, magic)
  {
    if fs == [] {
      assert Concat(fs) + rest == rest;
    } else {
      ConcatCons(fs, rest);
      DeframesOne(fs[0], Concat(fs[1..]) + rest, magic);
      CleanConcat(fs[1..], rest, magic);
    }
  }

  lemma ConcatCons(fs: seq<Frame>, rest: seq<byte>)
    requires fs != []
    ensures Concat(fs) + rest == Encode(fs[0]) + (Concat(fs[1..]) + rest)
  {
  }

  lemma DeframesOne(f: Frame, tail: seq<byte>, magic: u32)
    requires Fits(f, magic)
    ensures Deframe(Encode(f) + tail, magic) == [f] + Deframe(tail, magic)
    ensures Clean(Encode(f) + tail, magic) <==> Clean(tail, magic)
  {
    DecodeEncode(f, tail, magic);
    assert (Encode(f) + tail)[HDR_LEN + |f.body|..] == tail;
  }

  /** After noise in which no magic starts, not even one that runs on into the first frame,
      every frame is recovered. */
  lemma RecoversAfterNoise(noise: seq<byte>, fs: seq<Frame>, magic: u32)
    requires forall i :: 0 <= i < |fs| ==> Fits(fs[i], magic)
    requires forall i: nat :: i < |noise| ==> !MagicAt(noise + Concat(fs), i, magic)
    ensures Deframe(noise + Concat(fs), magic) == fs
  {
    SkipsNoise(noise + Concat(fs), |noise|, magic);
    assert (noise + Concat(fs))[|noise|..] == Concat(fs) + [];
    DeframesConcat(fs, [], magic);
  }

  /** More generally, any stretch at no byte of which a frame can start is skipped byte by byte,
      magics with impossible lengths included. */
  lemma {:induction false} SkipsBadBytes(s: seq<byte>, j: nat, magic: u32)
    requires j <= |s| && forall i: nat :: i < j ==> Decode(s[i..], magic) in {BadMagic, BadBodyLen}
    ensures Deframe(s, magic) == Deframe(s[j..], magic)
    decreases j
  {
    hide Frames.Decode, Deframe;
    if j == 0 {
      assert s[0..] == s;
    } else {
      assert s[0..] == s;
      StepsOver(s, magic);
      forall i: nat | i < j - 1
        ensures Decode(s[1..][i..], magic) in {BadMagic, BadBodyLen}
      {
        assert s[1..][i..] == s[i + 1..];
      }
      SkipsBadBytes(s[1..], j - 1, magic);
      assert s[1..][j - 1..] == s[j..];
    }
  }

  lemma RecoversAfterBadBytes(noise: seq<byte>, fs: seq<Frame>, magic: u32)
    requires forall i :: 0 <= i < |fs| ==> Fits(fs[i], magic)
    requires forall i: nat :: i < |noise| ==> Decode((noise + Concat(fs))[i..], magic) in {BadMagic, BadBodyLen}
    ensures Deframe(noise + Concat(fs), magic) == fs
  {
    hide Frames.Decode, Concat;
    SkipsBadBytes(noise + Concat(fs), |noise|, magic);
    assert (noise + Concat(fs))[|noise|..] == Concat(fs) + [];
    DeframesConcat(fs, [], magic);
    ShortEnds([], magic);
  }

  /** The stream is the frames read from it, back to back, and an unfinished rest. */
  ghost predicate NothingSkipped(s: seq<byte>, fs: seq<Frame>, magic: u32) {
    Concat(fs) <= s && Decode(s[|Concat(fs)|..], magic) == Short
  }

  /** Framing is never lost exactly when the frames read account for every byte. */
  lemma {:induction false} CleanMeansNothingSkipped(s: seq<byte>, magic: u32)
    ensures Clean(s, magic) <==> NothingSkipped(s, Deframe(s, magic), magic)
    decreases |s|
  {
    var fs := Deframe(s, magic);
    if Decode(s, magic).Got? {
      var d := Decode(s, magic);
      EncodeDecode(s, magic);
      CleanMeansNothingSkipped(s[d.n..], magic);
      FirstAccounts(s, d.n, fs, magic);
    } else if Decode(s, magic) == Short {
      assert s[0..] == s && Concat([]) == [];
    } else if NothingSkipped(s, fs, magic) {
      DeframedFit(s, magic);
      assert s == Concat(fs) + s[|Concat(fs)|..];
      CleanConcat(fs, s[|Concat(fs)|..], magic);
    }
  }

  lemma FirstAccounts(s: seq<byte>, n: nat, fs: seq<Frame>, magic: u32)
    requires fs != [] && n <= |s| && Encode(fs[0]) == s[..n]
    ensures NothingSkipped(s, fs, magic) <==> NothingSkipped(s[n..], fs[1..], magic)
  {
    hide Frames.Decode, Frames.Encode;
    var c := Concat(fs[1..]);
    assert Concat(fs) == s[..n] + c;
    PrefixDrops(s, n, c);
  }

  lemma {:induction false} DeframedFit(s: seq<byte>, magic: u32)
    ensures forall i :: 0 <= i < |Deframe(s, magic)| ==> Fits(Deframe(s, magic)[i], magic)
    decreases |s|
  {
    match Decode(s, magic)
    case Got(f, n) =>
      EncodeDecode(s, magic);
      DeframedFit(s[n..], magic);
    case Short =>
    case _ =>
      DeframedFit(s[1..], magic);
  }

  /** What is in the buffer settles the front of the stream unless it is short. */
  lemma WindowDecides(w: seq<byte>, source: seq<byte>, magic: u32)
    requires Decode(w, magic) != Short
    ensures var d := Decode(w, magic);
      if d.Got? then
        && HDR_LEN <= d.n <= |w|
        && Deframe(w + source, magic) == [d.frame] + Deframe(w[d.n..] + source, magic)
        && (Clean(w + source, magic) <==> Clean(w[d.n..] + source, magic))
      else Decode(w + source, magic) == d && !Clean(w + source, magic) && |w| >= OUTER_LEN
  {
    DecodeExtends(w, source, magic);
    if Decode(w, magic).Got? {
      EncodeDecode(w, magic);
      var n := Decode(w, magic).n;
      assert (w + source)[n..] == w[n..] + source;
    }
  }

  lemma ShortEnds(w: seq<byte>, magic: u32)
    requires w == [] || Decode(w, magic) == Short
    ensures Deframe(w, magic) == [] && Clean(w, magic)
    ensures |w| < OUTER_LEN + MAX_BODY_LEN
  {
  }

  lemma FourBytes(w: seq<byte>, k: nat, b: seq<byte>)
    requires k + 4 <= |w| && |b| == 4
    ensures w[k..k + 4] == b <==> w[k] == b[0] && w[k + 1] == b[1] && w[k + 2] == b[2] && w[k + 3] == b[3]
  {
    var s := w[k..k + 4];
    assert s[0] == w[k] && s[1] == w[k + 1] && s[2] == w[k + 2] && s[3] == w[k + 3];
  }

  lemma SameFour(s: seq<byte>, i: nat, w: seq<byte>, k: nat)
    requires i + 4 <= |s| && k + 4 <= |w| && s[i] == w[k] && s[i + 1] == w[k + 1] && s[i + 2] == w[k + 2] && s[i + 3] == w[k + 3]
    ensures s[i..i + 4] == w[k..k + 4]
  {
    FourBytes(s, i, w[k..k + 4]);
  }

  /** Leaving a bad position, the scan may jump to any `j` that has no magic before it. */
  lemma ScanSkips(w: seq<byte>, source: seq<byte>, j: nat, magic: u32)
    requires |w| >= OUTER_LEN && 1 <= j <= |w| - 3
    requires Decode(w + source, magic) in {BadMagic, BadBodyLen}
    requires forall k: nat :: 1 <= k < j ==> !MagicAt(w, k, magic)
    ensures Deframe(w + source, magic) == Deframe(w[j..] + source, magic)
  {
    var rest := (w + source)[1..];
    DropFront(w, source, j);
    hide Deframe, Frames.Decode, MagicAt;
    StepsOver(w + source, magic);
    forall i: nat | i < j - 1
      ensures !MagicAt(rest, i, magic)
    {
      assert !MagicAt(w, i + 1, magic);
      NoMagicEither(w, source, i, magic);
    }
    SkipsNoise(rest, j - 1, magic);
  }

  lemma StepsOver(s: seq<byte>, magic: u32)
    requires s != [] && Decode(s, magic) in {BadMagic, BadBodyLen}
    ensures Deframe(s, magic) == Deframe(s[1..], magic)
  {
  }

  lemma NoMagicEither(w: seq<byte>, source: seq<byte>, i: nat, magic: u32)
    requires i + 5 <= |w| && !MagicAt(w, i + 1, magic)
    ensures !MagicAt((w + source)[1..], i, magic)
  {
    SameFour((w + source)[1..], i, w, i + 1);
  }

  // ---------------------------------------------------------------- the reader

  datatype Next = Next(frame: Frame) | Eof | TooLong
  datatype Fill = Filled | Ended | NoRoom

  class StreamReader {
    const magic: u32
    const buf: array<byte>
    var start: nat
    var end: nat
    var resyncs: nat
    /** What the connection will still deliver. */
    var source: seq<byte>

    ghost predicate Valid()
      reads this
    {
      start <= end <= buf.Length && buf.Length == 2 * MAX_BODY_LEN && magic != 0
    }

    /** Every byte not yet consumed, read or unread. */
    ghost function Todo(): seq<byte>
      reads this, buf
      requires Valid()
    {
      buf[start..end] + source
    }

    constructor (stream: seq<byte>, m: u32)
      ensures Valid() && fresh(buf) && Todo() == stream && magic == Magic(m) && resyncs == 0
    {
      magic := Magic(m);
      buf := new byte[2 * MAX_BODY_LEN](_ => 0);
      start, end, resyncs := 0, 0, 0;
      source := stream;
    }

    /** The next frame: the reference's next one, whatever sizes the reads turn out to have. */
    method NextFrame() returns (r: Next)
      requires Valid()
      modifies this, buf
      ensures Valid() && !r.TooLong?
      ensures r.Next? ==> Deframe(old(Todo()), magic) == [r.frame] + Deframe(Todo(), magic) && |Todo()| < |old(Todo())|
      ensures r.Eof? ==> Deframe(old(Todo()), magic) == [] && source == []
      ensures Clean(old(Todo()), magic) <==> resyncs == old(resyncs) && (r.Next? ==> Clean(Todo(), magic))
      ensures resyncs >= old(resyncs)
    {
      hide Frames.Decode;
      ghost var all := Todo();
      while true
        invariant Valid()
        invariant Deframe(Todo(), magic) == Deframe(all, magic) && |Todo()| <= |all|
        invariant resyncs >= old(resyncs)
        invariant if resyncs == old(resyncs) then Todo() == all else !Clean(all, magic)
        decreases |Todo()|, |source|
      {
        if end > start {
          ghost var w := buf[start..end];
          var d := Decode(buf[start..end], magic);
          if d != Short {
            WindowDecides(w, source, magic);
          }
          match d {
            case Got(f, n) =>
              start := start + n;
              assert buf[start..end] == w[n..];
              return Next(f);
            case Short =>
            case _ =>
              Resync();
              continue;
          }
        }
        ShortEnds(buf[start..end], magic);
        var filled := FillBuffer();
        if filled == NoRoom {
          return TooLong;
        } else if filled == Ended {
          assert Todo() == buf[start..end];
          return Eof;
        }
      }
    }

    /** Move to the next place in the buffer where the magic stands, or keep the last three
        bytes: the magic may straddle the next read. */
    method Resync()
      requires Valid() && end - start >= OUTER_LEN
      requires Decode(Todo(), magic) in {BadMagic, BadBodyLen}
      modifies `start, `resyncs
      ensures Valid() && resyncs == old(resyncs) + 1
      ensures old(start) < start <= end && buf[start..end] == old(buf[start..end])[start - old(start)..]
      ensures Deframe(Todo(), magic) == Deframe(old(Todo()), magic)
    {
      hide Frames.Decode;
      ghost var w := buf[start..end];
      var i := FindMagic();
      assert buf[start..end] == w;
      ScanSkips(w, source, i - start, magic);
      assert w[i - start..] == buf[i..end];
      assert Deframe(buf[i..end] + source, magic) == Deframe(w + source, magic);
      resyncs := resyncs + 1;
      if i + 4 <= end {
        start := i;
      } else {
        // Three bytes may be the front of a magic whose rest is still unread.
        var keep: int := end - 3;
        if keep < start {
          keep := start;
        }
        start := keep;
      }
    }

    /** The first place after `start` where the whole magic stands, or the last three bytes. */
    method FindMagic() returns (i: nat)
      requires Valid() && end - start >= OUTER_LEN
      ensures start + 1 <= i <= end - 3
      ensures forall k: nat :: 1 <= k < i - start ==> !MagicAt(buf[start..end], k, magic)
      ensures i + 4 <= end ==> MagicAt(buf[start..end], i - start, magic)
    {
      var want := Le32(magic);
      ghost var w := buf[start..end];
      i := start + 1;
      while i + 4 <= end
        invariant start + 1 <= i <= end - 3
        invariant forall k: nat :: 1 <= k < i - start ==> !MagicAt(w, k, magic)
      {
        FourBytes(w, i - start, want);
        if buf[i] == want[0] && buf[i + 1] == want[1] && buf[i + 2] == want[2] && buf[i + 3] == want[3] {
          return;
        }
        i := i + 1;
      }
    }

    /** Compact, then read once: any non-empty prefix of what is still to come that fits. */
    method FillBuffer() returns (r: Fill)
      requires Valid()
      modifies this, buf
      ensures Valid() && Todo() == old(Todo()) && resyncs == old(resyncs)
      ensures r == NoRoom <==> old(end - start) == buf.Length
      ensures r == Filled ==> |source| < |old(source)|
      ensures r == Ended ==> source == [] && buf[start..end] == old(buf[start..end])
    {
      if start > 0 {
        Compact();
      }
      if end == buf.Length {
        return NoRoom;
      }
      if source == [] {
        return Ended;
      }
      var n :| 1 <= n <= |source| && n <= buf.Length - end;
      ReadInto(n);
      return Filled;
    }

    /** One read of `n` bytes behind what is buffered. */
    method ReadInto(n: nat)
      requires Valid() && 1 <= n <= |source| && n <= buf.Length - end
      modifies `end, `source, buf
      ensures Valid() && Todo() == old(Todo()) && source == old(source)[n..]
    {
      ghost var w, s := buf[start..end], source;
      forall i | 0 <= i < n {
        buf[end + i] := source[i];
      }
      end, source := end + n, source[n..];
      assert buf[start..end] == w + s[..n];
    }

    /** Slide the unconsumed bytes to the front of the buffer. */
    method Compact()
      requires Valid()
      modifies `start, `end, buf
      ensures Valid() && start == 0 && end == old(end - start)
      ensures buf[..end] == old(buf[start..end])
    {
      forall i | 0 <= i < end - start {
        buf[i] := buf[start + i];
      }
      end := end - start;
      start := 0;
    }
  }

  /** Reading a connection to its end yields the reference's frames for every way of cutting it
      into reads; the reader loses framing at all exactly when the reference does. */
  method ReadAll(stream: seq<byte>, magic: u32) returns (frames: seq<Frame>, resyncs: nat)
    ensures frames == Deframe(stream, Magic(magic))
    ensures resyncs == 0 <==> Clean(stream, Magic(magic))
  {
    hide Frames.Decode, Deframe, Clean;
    var reader := new StreamReader(stream, magic);
    frames := [];
    while true
      invariant reader.Valid() && reader.magic == Magic(magic) && fresh(reader) && fresh(reader.buf)
      invariant Deframe(stream, Magic(magic)) == frames + Deframe(reader.Todo(), Magic(magic))
      invariant Clean(stream, Magic(magic)) <==> reader.resyncs == 0 && Clean(reader.Todo(), Magic(magic))
      decreases |reader.Todo()|
    {
      var r := reader.NextFrame();
      if !r.Next? {
        return frames, reader.resyncs;
      }
      Regroup(frames, [r.frame], Deframe(reader.Todo(), Magic(magic)));
      frames := frames + [r.frame];
    }
  }
}
