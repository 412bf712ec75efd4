/** The bodies inside frames: TCP data with its mixed byte orders, the fixed-size list of a
    retransmit request, and the round-trip probe with its split timestamps. */
module Bodies {
  import opened SeqNum
  import opened Bytes
  import opened Frames

  datatype BodyError = BodyShort | TooMany

  // ---------------------------------------------------------------- TCP data

  const TCP_HDR_LEN: int := 18

  const TCP_CONNECT: u16 := 0
  const TCP_DISCONNECT: u16 := 1
  const TCP_PAYLOAD: u16 := 3

  datatype Addr4 = Addr4(a: byte, b: byte, c: byte, d: byte)
  datatype AddrPort = AddrPort(addr: Addr4, port: u16)

  datatype TCPBody = TCPBody(num: u32, opcode: u16, src: AddrPort, dst: AddrPort, data: seq<byte>) {
    /** An uplink body names the LAN client first. */
    function UpFlow(): Flow {
      Flow(src, dst)
    }
  }

  datatype Flow = Flow(client: AddrPort, server: AddrPort) {
    /** A downlink body carries the tuple swapped. */
    function DownBody(num: u32, opcode: u16, data: seq<byte>): TCPBody {
      TCPBody(num, opcode, server, client, data)
    }
  }

  function AddrBytes(a: Addr4): (b: seq<byte>)
    ensures |b| == 4 && AddrOf(b) == a
  {
    [a.a, a.b, a.c, a.d]
  }

  function AddrOf(b: seq<byte>): Addr4
    requires |b| >= 4
  {
    Addr4(b[0], b[1], b[2], b[3])
  }

  function EncodeTCPBody(t: TCPBody): (b: seq<byte>)
    ensures |b| == TCP_HDR_LEN + |t.data|
  {
    Le32(t.num) + Le16(t.opcode) + AddrBytes(t.src.addr) + AddrBytes(t.dst.addr) + Be16(t.src.port) + Be16(t.dst.port) + t.data
  }

  function ParseTCPBody(b: seq<byte>): Result<TCPBody, BodyError> {
    if |b| < TCP_HDR_LEN then Err(BodyShort)
    else Ok(TCPBody(
      FromLe32(b), FromLe16(b[4..]),
      AddrPort(AddrOf(b[6..10]), FromBe16(b[14..])),
      AddrPort(AddrOf(b[10..14]), FromBe16(b[16..])),
      b[TCP_HDR_LEN..]))
  }

  lemma ParseEncodedTCPBody(t: TCPBody)
    ensures ParseTCPBody(EncodeTCPBody(t)) == Ok(t)
  {
    var b := EncodeTCPBody(t);
    FromLe32Prefix(Le32(t.num), b);
    assert b[..4] == Le32(t.num);
    assert b[4..][0] == Le16(t.opcode)[0] && b[4..][1] == Le16(t.opcode)[1];
    assert b[6..10] == AddrBytes(t.src.addr) && b[10..14] == AddrBytes(t.dst.addr);
    assert b[14..][0] == Be16(t.src.port)[0] && b[14..][1] == Be16(t.src.port)[1];
    assert b[16..][0] == Be16(t.dst.port)[0] && b[16..][1] == Be16(t.dst.port)[1];
  }

  /** Every body long enough to parse is the encoding of what it parses to. */
  lemma EncodeParsedTCPBody(b: seq<byte>)
    ensures match ParseTCPBody(b)
      case Ok(t) => EncodeTCPBody(t) == b
      case Err(_) => |b| < TCP_HDR_LEN
  {
    if |b| >= TCP_HDR_LEN {
      var t := ParseTCPBody(b).value;
      Le32Bytes(b);
      Le16Bytes(b[4..]);
      Be16Bytes(b[14..]);
      Be16Bytes(b[16..]);
      assert AddrBytes(t.src.addr) == b[6..10] && AddrBytes(t.dst.addr) == b[10..14];
      assert b == b[..4] + b[4..][..2] + b[6..10] + b[10..14] + b[14..][..2] + b[16..][..2] + b[TCP_HDR_LEN..];
    }
  }

  /** Which bytes of a body hold what: little-endian number and opcode, then the two addresses
      side by side, then the two ports, big-endian, then the data. */
  lemma TCPBodyLayout(b: seq<byte>)
    requires |b| >= TCP_HDR_LEN == 18
    ensures ParseTCPBody(b).Ok?
    ensures var t := ParseTCPBody(b).value;
      && t.num == b[0] + 0x100 * (b[1] as int) + 0x1_0000 * (b[2] as int) + 0x100_0000 * (b[3] as int)
      && t.opcode == b[4] + 0x100 * (b[5] as int)
      && t.src.addr == Addr4(b[6], b[7], b[8], b[9]) && t.dst.addr == Addr4(b[10], b[11], b[12], b[13])
      && t.src.port == 0x100 * (b[14] as int) + b[15] && t.dst.port == 0x100 * (b[16] as int) + b[17]
      && t.data == b[18..]
  {
  }

  /** An answer goes back: what is built for the flow of a parsed body carries its destination as
      the source and its source as the destination, byte for byte. */
  lemma AnswerGoesBack(b: seq<byte>, num: u32, opcode: u16, data: seq<byte>)
    requires ParseTCPBody(b).Ok?
    ensures var t := ParseTCPBody(b).value;
      var d := t.UpFlow().DownBody(num, opcode, data);
      && d.src == t.dst && d.dst == t.src && d.num == num && d.opcode == opcode && d.data == data
      && var r := EncodeTCPBody(d);
      && r[6..10] == b[10..14] && r[10..14] == b[6..10] && r[14..16] == b[16..18] && r[16..18] == b[14..16]
      && r[18..] == data
  {
    var r := EncodeTCPBody(ParseTCPBody(b).value.UpFlow().DownBody(num, opcode, data));
    Be16Bytes(b[14..]);
    Be16Bytes(b[16..]);
    assert b[14..][..2] == b[14..16] && b[16..][..2] == b[16..18];
  }

  // ---------------------------------------------------------------- retransmit requests

  const SEQ_LIST_LEN: int := 204

  /** The `k`-th number of a list payload. */
  function Entry(b: seq<byte>, k: nat): u32
    requires 8 + 4 * k <= |b|
  {
    FromBe32(b[4 + 4 * k..])
  }

  /** The list a payload declares, if it holds it. */
  function SeqList(b: seq<byte>): Result<seq<u32>, BodyError> {
    if |b| < 4 then Err(BodyShort)
    else
      var n := FromBe32(b);
      if n > SEQ_LIST_MAX then Err(TooMany)
      else if |b| < 4 + 4 * n then Err(BodyShort)
      else Ok(seq(n, i requires 0 <= i < n => Entry(b, i)))
  }

  ghost predicate EntryIs(b: seq<byte>, k: nat, num: u32)
    requires 8 + 4 * k <= |b|
  {
    var at := 4 + 4 * k;
    num == 0x100_0000 * (b[at] as int) + 0x1_0000 * (b[at + 1] as int) + 0x100 * (b[at + 2] as int) + b[at + 3]
  }

  /** Which payloads are lists, and which bytes hold the count and the numbers, big-endian. */
  lemma SeqListLayout(b: seq<byte>)
    ensures SeqList(b) == Err(BodyShort) || SeqList(b) == Err(TooMany) || SeqList(b).Ok?
    ensures |b| < 4 ==> SeqList(b) == Err(BodyShort)
    ensures |b| >= 4 ==>
      var n := 0x100_0000 * (b[0] as int) + 0x1_0000 * (b[1] as int) + 0x100 * (b[2] as int) + b[3];
      && (SeqList(b) == Err(TooMany) <==> n > 50)
      && (SeqList(b).Ok? <==> n <= 50 && |b| >= 4 + 4 * n)
      && (SeqList(b).Ok? ==> |SeqList(b).value| == n && forall k :: 0 <= k < n ==> EntryIs(b, k, SeqList(b).value[k]))
  {
    if |b| >= 4 {
      BigEndian(b);
    }
    if SeqList(b).Ok? {
      forall k | 0 <= k < |SeqList(b).value|
        ensures EntryIs(b, k, SeqList(b).value[k])
      {
        BigEndian(b[4 + 4 * k..]);
      }
    }
  }

  /** The numbers a request names; more than `SEQ_LIST_MAX` or fewer bytes than declared is an error. */
  method ParseSeqList(b: seq<byte>) returns (r: Result<seq<u32>, BodyError>)
    ensures r == SeqList(b)
  {
    if |b| < 4 {
      return Err(BodyShort);
    }
    var n := FromBe32(b);
    if n > SEQ_LIST_MAX {
      return Err(TooMany);
    }
    if |b| < 4 + 4 * n {
      return Err(BodyShort);
    }
    var out := new u32[n](_ => 0);
    for i := 0 to n
      invariant forall k :: 0 <= k < i ==> out[k] == Entry(b, k)
    {
      out[i] := Entry(b, i);
    }
    assert out[..] == seq(n, k requires 0 <= k < n => Entry(b, k));
    r := Ok(out[..]);
  }

  /** `binary.BigEndian.PutUint32(b[at:], x)` */
  method PutBe32(b: array<byte>, at: nat, x: u32)
    requires at + 4 <= b.Length
    modifies b
    ensures b[..] == old(b[..])[..at] + Be32(x) + old(b[..])[at + 4..]
  {
    var w := Be32(x);
    b[at], b[at + 1], b[at + 2], b[at + 3] := w[0], w[1], w[2], w[3];
  }

  /** A request always fills the fixed payload, zero-padded, and reads back as the first
      `SEQ_LIST_MAX` numbers given. */
  method AppendSeqList(dst: seq<byte>, nums: seq<u32>) returns (r: seq<byte>)
    ensures |r| == |dst| + SEQ_LIST_LEN && dst <= r
    ensures var first := if |nums| <= SEQ_LIST_MAX then nums else nums[..SEQ_LIST_MAX];
      SeqList(r[|dst|..]) == Ok(first) && forall k :: |dst| + 4 + 4 * |first| <= k < |r| ==> r[k] == 0
  {
    hide Bytes.Be32, Bytes.FromBe32, SeqList, Filled;
    var first := if |nums| > SEQ_LIST_MAX then nums[..SEQ_LIST_MAX] else nums;
    var b := new byte[SEQ_LIST_LEN](_ => 0);
    PutBe32(b, 0, |first|);
    assert b[..][..4] == Be32(|first|);
    CountWritten(b[..], first);
    for i := 0 to |first|
      invariant Filled(b[..], first, i)
    {
      ghost var before := b[..];
      PutBe32(b, 4 + 4 * i, first[i]);
      EntryWritten(before, b[..], first, i);
    }
    FilledParses(b[..], first);
    r := dst + b[..];
    assert r[|dst|..] == b[..];
  }

  /** The payload holds the count and the first `i` entries, and is zero behind them. */
  ghost predicate Filled(b: seq<byte>, nums: seq<u32>, i: nat)
    requires |nums| <= SEQ_LIST_MAX
  {
    && |b| == SEQ_LIST_LEN && i <= |nums| && FromBe32(b) == |nums|
    && (forall k :: 0 <= k < i ==> Entry(b, k) == nums[k])
    && (forall k :: 4 + 4 * i <= k < SEQ_LIST_LEN ==> b[k] == 0)
  }

  lemma CountWritten(b: seq<byte>, nums: seq<u32>)
    requires |b| == SEQ_LIST_LEN && |nums| <= SEQ_LIST_MAX
    requires b[..4] == Be32(|nums|) && forall k :: 4 <= k < SEQ_LIST_LEN ==> b[k] == 0
    ensures Filled(b, nums, 0)
  {
    FromBe32Prefix(Be32(|nums|), b);
  }

  /** Writing entry `i` leaves the count and the entries before it as they were. */
  lemma EntryWritten(before: seq<byte>, after: seq<byte>, nums: seq<u32>, i: nat)
    requires |nums| <= SEQ_LIST_MAX && i < |nums| && Filled(before, nums, i)
    requires after == before[..4 + 4 * i] + Be32(nums[i]) + before[8 + 4 * i..]
    ensures Filled(after, nums, i + 1)
  {
    SameBe32(before, after, 0);
    FromBe32Prefix(Be32(nums[i]), after[4 + 4 * i..]);
    assert after[4 + 4 * i..][..4] == Be32(nums[i]);
    forall k | 0 <= k < i
      ensures Entry(after, k) == Entry(before, k)
    {
      SameBe32(before, after, 4 + 4 * k);
    }
  }

  lemma FilledParses(b: seq<byte>, nums: seq<u32>)
    requires |nums| <= SEQ_LIST_MAX && Filled(b, nums, |nums|)
    ensures SeqList(b) == Ok(nums) && |b| == SEQ_LIST_LEN && forall k :: 4 + 4 * |nums| <= k < SEQ_LIST_LEN ==> b[k] == 0
  {
    assert nums == seq(|nums|, i requires 0 <= i < |nums| => Entry(b, i));
  }

  lemma SameBe32(s: seq<byte>, t: seq<byte>, at: nat)
    requires |s| == |t| && at + 4 <= |s|
    requires forall k :: at <= k < at + 4 ==> s[k] == t[k]
    ensures FromBe32(s[at..]) == FromBe32(t[at..])
    ensures at == 0 ==> FromBe32(s) == FromBe32(t)
  {
    var p, q := s[at..], t[at..];
    assert p[0] == q[0] && p[1] == q[1] && p[2..][0] == q[2..][0] && p[2..][1] == q[2..][1];
    if at == 0 {
      assert p == s && q == t;
    }
  }

  // ---------------------------------------------------------------- round-trip probe

  const RTT_BODY_LEN: int := 25

  datatype RTTBody = RTTBody(num: u32, clientMS: u64, serverMS: u64, trailer: seq<byte>) {
    ghost predicate Valid() {
      |trailer| == 5
    }

    /** Our clock goes in; everything the client sent is echoed. */
    function Reply(nowMS: int): RTTBody {
      this.(serverMS := nowMS % 0x1_0000_0000_0000_0000)
    }
  }

  /** High word first, each word little-endian. */
  function SplitMS(b: seq<byte>): u64
    requires |b| >= 8
  {
    0x1_0000_0000 * (FromLe32(b) as int) + FromLe32(b[4..])
  }

  function PutSplitMS(v: u64): (b: seq<byte>)
    ensures |b| == 8
  {
    Le32(v / 0x1_0000_0000) + Le32(v % 0x1_0000_0000)
  }

  lemma SplitMSRoundTrip(v: u64, rest: seq<byte>)
    ensures SplitMS(PutSplitMS(v) + rest) == v
  {
    var hi, lo := Le32(v / 0x1_0000_0000), Le32(v % 0x1_0000_0000);
    var b := PutSplitMS(v) + rest;
    FromLe32Prefix(hi, b);
    assert b[..4] == hi;
    FromLe32Prefix(lo, b[4..]);
    assert b[4..][..4] == lo;
  }

  function EncodeRTTBody(r: RTTBody): seq<byte> {
    Le32(r.num) + PutSplitMS(r.clientMS) + PutSplitMS(r.serverMS) + r.trailer
  }

  function ParseRTTBody(b: seq<byte>): Result<RTTBody, BodyError> {
    if |b| < RTT_BODY_LEN then Err(BodyShort)
    else Ok(RTTBody(FromLe32(b), SplitMS(b[4..]), SplitMS(b[12..]), b[20..25]))
  }

  lemma ParseEncodedRTTBody(r: RTTBody)
    requires r.Valid()
    ensures ParseRTTBody(EncodeRTTBody(r)) == Ok(r)
  {
    var b := EncodeRTTBody(r);
    FromLe32Prefix(Le32(r.num), b);
    assert b[..4] == Le32(r.num);
    SplitMSRoundTrip(r.clientMS, b[12..]);
    assert b[4..] == PutSplitMS(r.clientMS) + b[12..];
    SplitMSRoundTrip(r.serverMS, b[20..]);
    assert b[12..] == PutSplitMS(r.serverMS) + b[20..];
    assert b[20..25] == r.trailer;
  }

  /** The bytes of a timestamp: four of the high word, then four of the low word, each little-endian. */
  lemma SplitMSLayout(b: seq<byte>)
    requires |b| >= 8
    ensures SplitMS(b) ==
      0x1_0000_0000 * (b[0] + 0x100 * (b[1] as int) + 0x1_0000 * (b[2] as int) + 0x100_0000 * (b[3] as int)) +
      b[4] + 0x100 * (b[5] as int) + 0x1_0000 * (b[6] as int) + 0x100_0000 * (b[7] as int)
  {
    LittleEndian(b);
    LittleEndian(b[4..]);
    hide FromLe32;
  }

  lemma SplitMSBytes(b: seq<byte>)
    requires |b| >= 8
    ensures PutSplitMS(SplitMS(b)) == b[..8]
  {
    Le32Bytes(b);
    Le32Bytes(b[4..]);
    hide FromLe32, Le32;
    assert SplitMS(b) / 0x1_0000_0000 == FromLe32(b) && SplitMS(b) % 0x1_0000_0000 == FromLe32(b[4..]);
    SliceSplits(b, 4, 8);
  }

  lemma SliceSplits(b: seq<byte>, i: nat, j: nat)
    requires i <= j <= |b|
    ensures b[..i] + b[i..][..j - i] == b[..j]
  {
  }

  /** The client reads back from our reply the number, timestamp and trailer it sent, bit for bit,
      and our clock beside them: all bytes but 12 to 19 are the probe's own. */
  lemma ReplyEchoesTheProbe(b: seq<byte>, nowMS: int)
    requires ParseRTTBody(b).Ok? && 0 <= nowMS < 0x1_0000_0000_0000_0000
    ensures var probe := ParseRTTBody(b).value;
      var reply := EncodeRTTBody(probe.Reply(nowMS));
      && |b| >= 25 && reply == b[..12] + PutSplitMS(nowMS) + b[20..25]
      && ParseRTTBody(reply) == Ok(RTTBody(probe.num, probe.clientMS, nowMS, probe.trailer))
  {
    var probe := RTTBody(FromLe32(b), SplitMS(b[4..]), SplitMS(b[12..]), b[20..25]);
    assert ParseRTTBody(b).value == probe;
    assert probe.Reply(nowMS) == probe.(serverMS := nowMS);
    hide *;
    ParseEncodedRTTBody(probe.(serverMS := nowMS));
    ReplyBytes(b, nowMS);
  }

  lemma ReplyBytes(b: seq<byte>, nowMS: u64)
    requires |b| >= 25
    ensures EncodeRTTBody(RTTBody(FromLe32(b), SplitMS(b[4..]), nowMS, b[20..25])) == b[..12] + PutSplitMS(nowMS) + b[20..25]
  {
    Le32Bytes(b);
    SplitMSBytes(b[4..]);
    SliceSplits(b, 4, 12);
    hide SplitMS, PutSplitMS, FromLe32, Le32;
  }

  /** And from an echo of our reply the server reads the clock it put there, out of bytes 12 to 19. */
  lemma EchoHoldsOurClock(echo: seq<byte>, reply: seq<byte>, nowMS: int)
    requires |reply| == 25 && reply[12..20] == PutSplitMS(nowMS % 0x1_0000_0000_0000_0000)
    requires |echo| >= 25 && echo[..25] == reply
    ensures ParseRTTBody(echo).Ok? && ParseRTTBody(echo).value.serverMS == nowMS % 0x1_0000_0000_0000_0000
    ensures ParseRTTBody(echo).value.trailer == reply[20..25]
  {
    SplitMSRoundTrip(nowMS % 0x1_0000_0000_0000_0000, echo[20..]);
    assert echo[12..20] == echo[..25][12..20] == reply[12..20];
    assert echo[12..] == echo[12..20] + echo[20..];
    assert echo[20..25] == echo[..25][20..25];
  }
}
