/** The frame codec: an 8-byte outer header (magic and body length, little-endian), a 10-byte
    sub-header (opaque id, type, opcode, big-endian number) and the payload. */
module Frames {
  import opened Sequences
  import opened SeqNum
  import opened Bytes

  const DEFAULT_MAGIC: u32 := 0x1234_5678
  const OUTER_LEN: int := 8
  const SUB_HDR_LEN: int := 10
  const HDR_LEN: int := 18
  const MAX_BODY_LEN: int := 8192

  datatype Frame = Frame(magic: u32, icgId: u32, typ: byte, opcode: byte, num: u32, body: seq<byte>)

  /** A magic of 0 stands for the default one. */
  function Magic(m: u32): (r: u32)
    ensures r != 0 && (m != 0 ==> r == m) && (m == 0 ==> r == 0x1234_5678)
  {
    if m == 0 then DEFAULT_MAGIC else m
  }

  function Encode(f: Frame): (b: seq<byte>)
    ensures |b| == HDR_LEN + |f.body| && b[..4] == Le32(Magic(f.magic)) && b[HDR_LEN..] == f.body
  {
    Le32(Magic(f.magic)) + Le32(Wrap(SUB_HDR_LEN + |f.body|)) + Le32(f.icgId) + [f.typ, f.opcode] + Be32(f.num) + f.body
  }

  datatype Decoded =
    | Got(frame: Frame, n: nat)
    | Short
    | BadMagic
    | BadBodyLen

  function Decode(buf: seq<byte>, magic: u32): Decoded {
    if |buf| < OUTER_LEN then Short
    else if FromLe32(buf) != Magic(magic) then BadMagic
    else
      var bodyLen := FromLe32(buf[4..]);
      if bodyLen < SUB_HDR_LEN || bodyLen > MAX_BODY_LEN then BadBodyLen
      else if |buf| < OUTER_LEN + bodyLen then Short
      else
        var b := buf[OUTER_LEN..OUTER_LEN + bodyLen];
        Got(Frame(Magic(magic), FromLe32(b), b[4], b[5], FromBe32(b[6..]), b[SUB_HDR_LEN..]), OUTER_LEN + bodyLen)
  }

  /** Where the pieces of an encoding lie. */
  lemma EncodedLayout(f: Frame, rest: seq<byte>)
    ensures var b := Encode(f) + rest;
      && FromLe32(b) == Magic(f.magic) && FromLe32(b[4..]) == Wrap(SUB_HDR_LEN + |f.body|)
      && FromLe32(b[8..]) == f.icgId && b[12] == f.typ && b[13] == f.opcode && FromBe32(b[14..]) == f.num
      && b[18..] == f.body + rest
  {
    var b := Encode(f) + rest;
    FromLe32Prefix(Le32(Magic(f.magic)), b);
    assert b[..4] == Le32(Magic(f.magic));
    FromLe32Prefix(Le32(Wrap(SUB_HDR_LEN + |f.body|)), b[4..]);
    assert b[4..][..4] == Le32(Wrap(SUB_HDR_LEN + |f.body|));
    FromLe32Prefix(Le32(f.icgId), b[8..]);
    assert b[8..][..4] == Le32(f.icgId);
    FromBe32Prefix(Be32(f.num), b[14..]);
    assert b[14..][..4] == Be32(f.num);
  }

  lemma FromLe32Prefix(p: seq<byte>, b: seq<byte>)
    requires |p| == 4 && |b| >= 4
    ensures p == b[..4] ==> FromLe32(p) == FromLe32(b)
  {
    if p == b[..4] {
      assert p[0] == b[0] && p[1] == b[1] && p[2..][0] == b[2..][0] && p[2..][1] == b[2..][1];
    }
  }

  lemma FromBe32Prefix(p: seq<byte>, b: seq<byte>)
    requires |p| == 4 && |b| >= 4
    ensures p == b[..4] ==> FromBe32(p) == FromBe32(b)
  {
    if p == b[..4] {
      assert p[0] == b[0] && p[1] == b[1] && p[2..][0] == b[2..][0] && p[2..][1] == b[2..][1];
    }
  }

  /** A frame comes back whole from the front of any buffer exactly when its body fits the
      length bound; otherwise the decoder refuses the length. */
  lemma DecodeEncode(f: Frame, rest: seq<byte>, magic: u32)
    requires Magic(magic) == Magic(f.magic) && SUB_HDR_LEN + |f.body| < 0x1_0000_0000
    ensures Decode(Encode(f) + rest, magic) ==
      if |f.body| <= 8182 then Got(f.(magic := Magic(f.magic)), 18 + |f.body|) else BadBodyLen
  {
    EncodedLayout(f, rest);
    hide Encode, FromLe32, FromBe32, Decode;
    if |f.body| <= MAX_BODY_LEN - SUB_HDR_LEN {
      DecodesTo(Encode(f) + rest, f, magic);
    } else {
      TooLong(Encode(f) + rest, magic);
    }
  }

  lemma TooLong(b: seq<byte>, magic: u32)
    requires |b| >= HDR_LEN && FromLe32(b) == Magic(magic) && FromLe32(b[4..]) > MAX_BODY_LEN
    ensures Decode(b, magic) == BadBodyLen
  {
  }

  /** A buffer that holds a frame's fields where they belong decodes to the frame. */
  lemma DecodesTo(b: seq<byte>, f: Frame, magic: u32)
    requires |b| >= HDR_LEN + |f.body| && |f.body| <= MAX_BODY_LEN - SUB_HDR_LEN
    requires FromLe32(b) == Magic(magic) && FromLe32(b[4..]) == SUB_HDR_LEN + |f.body|
    requires FromLe32(b[8..]) == f.icgId && b[12] == f.typ && b[13] == f.opcode && FromBe32(b[14..]) == f.num
    requires f.body <= b[18..]
    ensures Decode(b, magic) == Got(f.(magic := Magic(magic)), HDR_LEN + |f.body|)
  {
    SubHeaderReads(b, |f.body|);
    hide FromLe32, FromBe32;
    assert b[18..][..|f.body|] == f.body;
  }

  /** The sub-header and the body read the same in the frame as in the buffer. */
  lemma SubHeaderReads(b: seq<byte>, n: nat)
    requires |b| >= HDR_LEN + n
    ensures var c := b[OUTER_LEN..HDR_LEN + n];
      && FromLe32(c) == FromLe32(b[8..]) && c[4] == b[12] && c[5] == b[13] && FromBe32(c[6..]) == FromBe32(b[14..])
      && c[SUB_HDR_LEN..] == b[18..][..n]
  {
    var c := b[OUTER_LEN..HDR_LEN + n];
    SlicesOf(b, HDR_LEN, HDR_LEN + n);
    SliceOfSlice(b, OUTER_LEN, HDR_LEN + n, SUB_HDR_LEN);
    FromLe32Prefix(b[8..][..4], b[8..]);
    FromLe32Prefix(b[8..][..4], c);
    FromBe32Prefix(b[14..][..4], b[14..]);
    FromBe32Prefix(b[14..][..4], c[6..]);
    assert b[8..][..4] == c[..4] && b[14..][..4] == c[6..][..4];
  }

  /** The decoder accepts nothing but encodings: what it consumed is the frame's encoding. */
  lemma EncodeDecode(buf: seq<byte>, magic: u32)
    requires Decode(buf, magic).Got?
    ensures var d := Decode(buf, magic);
      HDR_LEN <= d.n <= |buf| && Encode(d.frame) == buf[..d.n] && d.frame.magic == Magic(magic)
  {
    var d := Decode(buf, magic);
    var b := buf[OUTER_LEN..d.n];
    Le32Bytes(buf);
    Le32Bytes(buf[4..]);
    assert Wrap(SUB_HDR_LEN + |d.frame.body|) == FromLe32(buf[4..]);
    SubHeaderBytes(b);
    assert buf[..d.n] == buf[..4] + buf[4..][..4] + b;
    assert Encode(d.frame) == buf[..4] + buf[4..][..4] + (Le32(FromLe32(b)) + [b[4], b[5]] + Be32(FromBe32(b[6..])) + b[SUB_HDR_LEN..]);
  }

  lemma SubHeaderBytes(b: seq<byte>)
    requires |b| >= SUB_HDR_LEN
    ensures Le32(FromLe32(b)) + [b[4], b[5]] + Be32(FromBe32(b[6..])) + b[SUB_HDR_LEN..] == b
  {
    Le32Bytes(b);
    Be32Bytes(b[6..]);
    assert b == b[..4] + [b[4], b[5]] + b[6..][..4] + b[SUB_HDR_LEN..];
  }

  /** More bytes behind the buffer never change a verdict other than "short". */
  lemma DecodeExtends(buf: seq<byte>, more: seq<byte>, magic: u32)
    requires Decode(buf, magic) != Short
    ensures Decode(buf + more, magic) == Decode(buf, magic)
  {
    var all := buf + more;
    FromLe32Prefix(buf[..4], buf);
    FromLe32Prefix(buf[..4], all);
    assert buf[..4] == all[..4];
    FromLe32Prefix(buf[4..][..4], buf[4..]);
    FromLe32Prefix(buf[4..][..4], all[4..]);
    assert buf[4..][..4] == all[4..][..4];
    var n := OUTER_LEN + FromLe32(buf[4..]);
    if n <= |buf| {
      assert buf[OUTER_LEN..n] == all[OUTER_LEN..n];
    }
  }
}
