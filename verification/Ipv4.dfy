/** The IPv4 and UDP helpers: building a packet with both checksums, and reading one. */
module Ipv4 {
  import opened SeqNum
  import opened Bytes
  import opened Bodies
  import opened Checksum

  // ---------------------------------------------------------------- reading

  datatype IPv4 = IPv4(src: Addr4, dst: Addr4, proto: byte, ttl: byte, id: u16, payload: seq<byte>)

  /** `Faults` is the slice expression out of range: a declared total below the header length
      passes every check before it. */
  datatype Parsed<+T> = Read(value: T) | Truncated | NotIPv4 | Fragmented | NotUDP | Faults

  function ParseIPv4(b: seq<byte>): Parsed<IPv4> {
    if |b| < 20 then Truncated
    else if b[0] / 16 != 4 then NotIPv4
    else
      var ihl := b[0] % 16 * 4;
      if ihl < 20 || |b| < ihl then Truncated
      else
        var total := FromBe16(b[2..]);
        if (total < ihl || total > |b|) && total > |b| then Truncated
        else
          var flags := FromBe16(b[6..]);
          if flags % 0x2000 != 0 || flags / 0x2000 % 2 != 0 then Fragmented
          else if total < ihl then Faults
          else Read(IPv4(AddrOf(b[12..16]), AddrOf(b[16..20]), b[9], b[8], FromBe16(b[4..]), b[ihl..total]))
  }

  datatype UDPDatagram = UDPDatagram(src: AddrPort, dst: AddrPort, data: seq<byte>)

  function ParseUDP(p: IPv4): Parsed<UDPDatagram> {
    var b := p.payload;
    if p.proto as int != PROTO_UDP then NotUDP
    else if |b| < 8 then Truncated
    else
      var ln := FromBe16(b[4..]);
      var ln := if ln < 8 || ln > |b| then |b| else ln;
      Read(UDPDatagram(AddrPort(p.src, FromBe16(b)), AddrPort(p.dst, FromBe16(b[2..])), b[8..ln]))
  }

  /** What a parsed packet says about the bytes: every field is where section 3.1 of RFC 791 has
      it, the payload is the part of the buffer from the header's end to the declared total, and a
      padded buffer is tolerated. */
  lemma ParsedPacketIsInTheBuffer(b: seq<byte>)
    requires ParseIPv4(b).Read?
    ensures var p := ParseIPv4(b).value;
      var ihl, total := b[0] % 16 * 4, 0x100 * (b[2] as int) + b[3];
      && p.src == Addr4(b[12], b[13], b[14], b[15]) && p.dst == Addr4(b[16], b[17], b[18], b[19])
      && p.ttl == b[8] && p.proto == b[9] && p.id == 0x100 * (b[4] as int) + b[5]
      && 20 <= ihl <= total <= |b| && b[0] / 16 == 4
      && |p.payload| == total - ihl && b[..ihl] + p.payload == b[..total]
      && b[6] / 32 % 2 == 0 && b[6] % 32 == 0 && b[7] == 0
  {
    var flags := FromBe16(b[6..]);
    assert flags == 256 * (b[6] as int) + b[7];
  }

  /** What a parsed datagram says about the bytes: ports and data are where RFC 768 has them, and the
      declared length ends the data whenever it can be right. */
  lemma ParsedDatagramIsInThePayload(p: IPv4)
    requires ParseUDP(p).Read?
    ensures var d, b := ParseUDP(p).value, p.payload;
      && p.proto == 17 && |b| >= 8
      && d.src == AddrPort(p.src, 0x100 * (b[0] as int) + b[1]) && d.dst == AddrPort(p.dst, 0x100 * (b[2] as int) + b[3])
      && var len := 0x100 * (b[4] as int) + b[5];
      if 8 <= len <= |b| then b[..8] + d.data == b[..len] else b[..8] + d.data == b
  {
  }

  /** The verdicts on what is not read: too short or cut off, another version, a fragment. */
  lemma RefusalsAreExact(b: seq<byte>)
    ensures |b| < 20 ==> ParseIPv4(b) == Truncated
    ensures |b| >= 20 ==>
      var ihl, total := b[0] % 16 * 4, 0x100 * (b[2] as int) + b[3];
      && (ParseIPv4(b) == NotIPv4 <==> b[0] / 16 != 4)
      && (ParseIPv4(b) == Truncated <==> b[0] / 16 == 4 && (ihl < 20 || |b| < ihl || |b| < total))
      && var fragment := b[6] % 32 != 0 || b[7] != 0 || b[6] / 32 % 2 != 0;
      (ParseIPv4(b) == Fragmented <==> b[0] / 16 == 4 && 20 <= ihl <= |b| && total <= |b| && fragment)
  {
    if |b| >= 20 {
      BigEndian(b[2..]);
      BigEndian(b[6..]);
      FlagBits(b[6], b[7]);
    }
    hide FromBe16;
  }

  /** The low thirteen bits are the offset, and the one above them says that more follows. */
  lemma FlagBits(hi: byte, lo: byte)
    ensures var flags := 0x100 * (hi as int) + lo;
      && (flags % 0x2000 != 0 <==> hi % 32 != 0 || lo != 0)
      && (flags / 0x2000 % 2 != 0 <==> hi / 32 % 2 != 0)
  {
  }

  /** The parser faults exactly on an unfragmented IPv4 header that is longer than the total it declares. */
  lemma FaultsExactlyWhen(b: seq<byte>)
    ensures ParseIPv4(b) == Faults <==>
      && |b| >= 20 && b[0] / 16 == 4 && 20 <= b[0] % 16 * 4 <= |b|
      && FromBe16(b[2..]) < b[0] % 16 * 4
      && FromBe16(b[6..]) % 0x2000 == 0 && FromBe16(b[6..]) / 0x2000 % 2 == 0
  {
  }

  // ---------------------------------------------------------------- the layout of a built packet

  function Header(total: u16, id: u16, ttl: byte, c: u16, src: Addr4, dst: Addr4): (b: seq<byte>)
    ensures |b| == 20
  {
    [0x45, 0] + Be16(total) + Be16(id) + [0, 0, ttl, PROTO_UDP] + Be16(c) + AddrBytes(src) + AddrBytes(dst)
  }

  function UDPHeader(srcPort: u16, dstPort: u16, len: u16, c: u16): (b: seq<byte>)
    ensures |b| == 8
  {
    Be16(srcPort) + Be16(dstPort) + Be16(len) + Be16(c)
  }

  lemma Be16Sum(x: u16)
    ensures WordSum(Be16(x)) == x
  {
  }

  /** The checksum field contributes its own value to the sum. */
  lemma HeaderSum(total: u16, id: u16, ttl: byte, c: u16, src: Addr4, dst: Addr4)
    ensures WordSum(Header(total, id, ttl, c, src, dst)) == WordSum(Header(total, id, ttl, 0, src, dst)) + c
  {
    hide Bytes.Be16, WordSum;
    var a := [0x45, 0] + Be16(total) + Be16(id) + [0, 0, ttl, PROTO_UDP];
    var z := AddrBytes(src) + AddrBytes(dst);
    forall x: u16
      ensures Header(total, id, ttl, x, src, dst) == a + (Be16(x) + z)
      ensures WordSum(Header(total, id, ttl, x, src, dst)) == WordSum(a) + x + WordSum(z)
    {
      assert Header(total, id, ttl, x, src, dst) == a + (Be16(x) + z);
      WordSumSplits(a, Be16(x) + z);
      WordSumSplits(Be16(x), z);
      Be16Sum(x);
    }
  }

  lemma UDPSum(srcPort: u16, dstPort: u16, len: u16, c: u16, data: seq<byte>)
    ensures WordSum(UDPHeader(srcPort, dstPort, len, c) + data) == WordSum(UDPHeader(srcPort, dstPort, len, 0) + data) + c
  {
    hide Bytes.Be16, WordSum;
    var a := Be16(srcPort) + Be16(dstPort) + Be16(len);
    forall x: u16
      ensures WordSum(UDPHeader(srcPort, dstPort, len, x) + data) == WordSum(a) + x + WordSum(data)
    {
      assert UDPHeader(srcPort, dstPort, len, x) + data == a + (Be16(x) + data);
      WordSumSplits(a, Be16(x) + data);
      WordSumSplits(Be16(x), data);
      Be16Sum(x);
    }
  }

  /** The largest payload an IPv4 total length can declare. */
  const MAX_DATA: int := 65_507

  lemma ParsesHeader(total: u16, id: u16, ttl: byte, c: u16, src: Addr4, dst: Addr4, rest: seq<byte>)
    requires total == 20 + |rest|
    ensures ParseIPv4(Header(total, id, ttl, c, src, dst) + rest) == Read(IPv4(src, dst, PROTO_UDP, ttl, id, rest))
  {
    var b := Header(total, id, ttl, c, src, dst) + rest;
    assert b[2..][0] == Be16(total)[0] && b[2..][1] == Be16(total)[1];
    assert b[4..][0] == Be16(id)[0] && b[4..][1] == Be16(id)[1];
    assert b[6..][0] == 0 && b[6..][1] == 0 && b[8] == ttl && b[9] as int == PROTO_UDP && b[0] == 0x45;
    assert b[12..16] == AddrBytes(src) && b[16..20] == AddrBytes(dst) && b[20..20 + |rest|] == rest;
  }

  lemma ParsesUDP(p: IPv4, srcPort: u16, dstPort: u16, c: u16, data: seq<byte>)
    requires p.proto as int == PROTO_UDP && 8 + |data| <= 0xffff
    requires p.payload == UDPHeader(srcPort, dstPort, 8 + |data|, c) + data
    ensures ParseUDP(p) == Read(UDPDatagram(AddrPort(p.src, srcPort), AddrPort(p.dst, dstPort), data))
  {
    var b := p.payload;
    assert b[0] == Be16(srcPort)[0] && b[1] == Be16(srcPort)[1];
    assert b[2..][0] == Be16(dstPort)[0] && b[2..][1] == Be16(dstPort)[1];
    assert b[4..][0] == Be16(8 + |data|)[0] && b[4..][1] == Be16(8 + |data|)[1];
    assert b[8..|b|] == data;
  }

  /** Such buffers exist: any header that declares a total below its own length, whatever follows. */
  lemma ShortTotalFaults(total: u16, id: u16, ttl: byte, c: u16, src: Addr4, dst: Addr4, rest: seq<byte>)
    requires total < 20
    ensures ParseIPv4(Header(total, id, ttl, c, src, dst) + rest) == Faults
  {
    var b := Header(total, id, ttl, c, src, dst) + rest;
    assert b[2..][0] == Be16(total)[0] && b[2..][1] == Be16(total)[1];
    assert b[6..][0] == 0 && b[6..][1] == 0 && b[0] == 0x45;
  }

  // ---------------------------------------------------------------- building

  /** The packet verifies, in its header and over the pseudo-header, and reads back as given. */
  ghost predicate WellBuilt(r: seq<byte>, src: AddrPort, dst: AddrPort, id: u16, ttl: byte, data: seq<byte>) {
    && |r| == 28 + |data|
    && Verifies(WordSum(r[..20]))
    && Verifies(WordSum(PseudoHeader(AddrBytes(src.addr), AddrBytes(dst.addr), |r| - 20) + r[20..]))
    && FromBe16(r[26..]) != 0 && PlainHeaders(r)
    && ReadsBack(r, src, dst, id, ttl, data)
  }

  /** Version 4, no options, no type of service, no fragmentation, UDP, and both lengths in full. */
  ghost predicate PlainHeaders(r: seq<byte>) {
    && |r| >= 28 && r[0] == 0x45 && r[1] == 0 && r[6] == 0 && r[7] == 0 && r[9] == 17
    && FromBe16(r[2..]) == |r| && FromBe16(r[24..]) == |r| - 20
  }

  ghost predicate ReadsBack(r: seq<byte>, src: AddrPort, dst: AddrPort, id: u16, ttl: byte, data: seq<byte>) {
    var ip := ParseIPv4(r);
    && ip.Read? && ip.value.id == id && ip.value.ttl == ttl && ip.value.src == src.addr && ip.value.dst == dst.addr
    && ParseUDP(ip.value) == Read(UDPDatagram(src, dst, data))
  }

  lemma LayoutReadsBack(src: AddrPort, dst: AddrPort, id: u16, ttl: byte, data: seq<byte>, c: u16, u: u16)
    requires |data| <= MAX_DATA
    ensures ReadsBack(Header(28 + |data|, id, ttl, c, src.addr, dst.addr) + (UDPHeader(src.port, dst.port, 8 + |data|, u) + data),
                      src, dst, id, ttl, data)
  {
    hide Header, UDPHeader, ParseIPv4, ParseUDP;
    var p := UDPHeader(src.port, dst.port, 8 + |data|, u) + data;
    ParsesHeader(28 + |data|, id, ttl, c, src.addr, dst.addr, p);
    ParsesUDP(IPv4(src.addr, dst.addr, PROTO_UDP, ttl, id, p), src.port, dst.port, u, data);
  }

  lemma LayoutIsPlain(src: AddrPort, dst: AddrPort, id: u16, ttl: byte, data: seq<byte>, c: u16, u: u16)
    requires |data| <= MAX_DATA
    ensures PlainHeaders(Header(28 + |data|, id, ttl, c, src.addr, dst.addr) + (UDPHeader(src.port, dst.port, 8 + |data|, u) + data))
  {
    var h, p := Header(28 + |data|, id, ttl, c, src.addr, dst.addr), UDPHeader(src.port, dst.port, 8 + |data|, u) + data;
    var r := h + p;
    assert r[2..][0] == Be16(28 + |data|)[0] && r[2..][1] == Be16(28 + |data|)[1];
    assert r[24..][0] == p[4] == Be16(8 + |data|)[0] && r[24..][1] == p[5] == Be16(8 + |data|)[1];
  }

  lemma LayoutIsWellBuilt(src: AddrPort, dst: AddrPort, id: u16, ttl: byte, data: seq<byte>, c: u16, u: u16)
    requires |data| <= MAX_DATA && u != 0
    requires var len := 8 + |data|;
      && c == 0xffff - Fold(WordSum(Header(20 + len, id, ttl, 0, src.addr, dst.addr)))
      && Verifies(WordSum(PseudoHeader(AddrBytes(src.addr), AddrBytes(dst.addr), len) + (UDPHeader(src.port, dst.port, len, 0) + data)) + u)
    ensures WellBuilt(Header(28 + |data|, id, ttl, c, src.addr, dst.addr) + (UDPHeader(src.port, dst.port, 8 + |data|, u) + data),
                      src, dst, id, ttl, data)
  {
    hide WordSum, Verifies, Fold, Header, ReadsBack, PseudoHeader, PlainHeaders;
    var len := 8 + |data|;
    var h, p := Header(20 + len, id, ttl, c, src.addr, dst.addr), UDPHeader(src.port, dst.port, len, u) + data;
    HeaderSum(20 + len, id, ttl, c, src.addr, dst.addr);
    UDPSum(src.port, dst.port, len, u, data);
    ComplementVerifies(WordSum(Header(20 + len, id, ttl, 0, src.addr, dst.addr)));
    LayoutReadsBack(src, dst, id, ttl, data, c, u);
    LayoutIsPlain(src, dst, id, ttl, data, c, u);
    PseudoHeaderLayout(AddrBytes(src.addr), AddrBytes(dst.addr), len);
    WordSumSplits(PseudoHeader(AddrBytes(src.addr), AddrBytes(dst.addr), len), p);
    WordSumSplits(PseudoHeader(AddrBytes(src.addr), AddrBytes(dst.addr), len), UDPHeader(src.port, dst.port, len, 0) + data);
    assert (h + p)[..20] == h && (h + p)[20..] == p;
    assert (h + p)[26..][0] == Be16(u)[0] && (h + p)[26..][1] == Be16(u)[1];
  }

  /** `copy(b[at:], w)` */
  method PutBytes(b: array<byte>, at: nat, w: seq<byte>)
    requires at + |w| <= b.Length
    modifies b
    ensures b[..] == old(b[..])[..at] + w + old(b[..])[at + |w|..]
  {
    forall i | 0 <= i < |w| {
      b[at + i] := w[i];
    }
  }

  /** Every field of the IP header but the checksum, over zeroes. */
  method FillHeader(b: array<byte>, total: u16, src: Addr4, dst: Addr4, id: u16, ttl: byte)
    requires b.Length >= 28 && forall i :: 0 <= i < b.Length ==> b[i] == 0
    modifies b
    ensures b[..] == Header(total, id, ttl, 0, src, dst) + old(b[20..])
  {
    ZeroBytes();
    hide Bytes.Be16, AddrBytes;
    ghost var z := b[..];
    var front, addrs := [0x45, 0] + Be16(total) + Be16(id), AddrBytes(src) + AddrBytes(dst);
    FieldsAssemble(z, front, [ttl, PROTO_UDP], addrs);
    HeaderRegroups(total, id, ttl, src, dst, z[20..]);
    hide Header;
    PutBytes(b, 0, front);
    PutBytes(b, 8, [ttl, PROTO_UDP]);
    PutBytes(b, 12, addrs);
  }

  /** Three fields written over zeroes, one after the other. */
  lemma FieldsAssemble(z: seq<byte>, front: seq<byte>, mid: seq<byte>, addrs: seq<byte>)
    requires |z| >= 28 && forall i :: 0 <= i < |z| ==> z[i] == 0
    requires |front| == 6 && |mid| == 2 && |addrs| == 8
    ensures var s1 := z[..0] + front + z[6..];
      var s2 := s1[..8] + mid + s1[10..];
      s2[..12] + addrs + s2[20..] == front + [0, 0] + mid + [0, 0] + addrs + z[20..]
  {
    var s1 := z[..0] + front + z[6..];
    assert s1[..8] == front + [0, 0] && s1[10..] == z[10..];
    var s2 := s1[..8] + mid + s1[10..];
    assert s2[..12] == front + [0, 0] + mid + [0, 0] && s2[20..] == z[20..];
  }

  lemma HeaderRegroups(total: u16, id: u16, ttl: byte, src: Addr4, dst: Addr4, rest: seq<byte>)
    ensures ([0x45, 0] + Be16(total) + Be16(id)) + [0, 0] + [ttl, PROTO_UDP] + [0, 0] + (AddrBytes(src) + AddrBytes(dst)) + rest
      == Header(total, id, ttl, 0, src, dst) + rest
  {
    ZeroBytes();
    hide Bytes.Be16, AddrBytes;
  }

  /** Every field of the UDP header but the checksum, over zeroes, and the data. */
  method FillUDP(b: array<byte>, srcPort: u16, dstPort: u16, len: u16, data: seq<byte>)
    requires b.Length == 28 + |data| && forall i :: 20 <= i < b.Length ==> b[i] == 0
    modifies b
    ensures b[..] == old(b[..20]) + (UDPHeader(srcPort, dstPort, len, 0) + data)
  {
    ghost var s := b[..];
    var ports := Be16(srcPort) + Be16(dstPort) + Be16(len);
    DatagramAssembles(s, ports, data);
    UDPHeaderRegroups(srcPort, dstPort, len, s[..20], data);
    hide UDPHeader;
    PutBytes(b, 28, data);
    PutBytes(b, 20, ports);
  }

  lemma DatagramAssembles(s: seq<byte>, ports: seq<byte>, data: seq<byte>)
    requires |s| == 28 + |data| && |ports| == 6 && forall i :: 20 <= i < |s| ==> s[i] == 0
    ensures var t := s[..28] + data + s[28 + |data|..];
      t[..20] + ports + t[26..] == s[..20] + ports + [0, 0] + data
  {
    var t := s[..28] + data + s[28 + |data|..];
    assert t[..20] == s[..20] && t[26..] == [0, 0] + data;
  }

  lemma UDPHeaderRegroups(srcPort: u16, dstPort: u16, len: u16, front: seq<byte>, data: seq<byte>)
    ensures front + (Be16(srcPort) + Be16(dstPort) + Be16(len)) + [0, 0] + data == front + (UDPHeader(srcPort, dstPort, len, 0) + data)
  {
    ZeroBytes();
    hide Bytes.Be16;
  }

  lemma ZeroBytes()
    ensures Be16(0) == [0, 0]
  {
  }

  /** A complete packet for the client's kernel: both checksums verify, the UDP one is never 0,
      and it parses back to its tuple and data. */
  method BuildUDPPacket(src: AddrPort, dst: AddrPort, id: u16, ttl: byte, data: seq<byte>) returns (r: seq<byte>)
    ensures |r| == 28 + |data|
    ensures |data| <= MAX_DATA ==> WellBuilt(r, src, dst, id, if ttl == 0 then 64 else ttl, data)
  {
    hide Header, UDPHeader, WellBuilt, Bytes.Be16, Verifies, Fold, WordSum, PseudoHeader, AddrBytes;
    var total := 28 + |data|;
    var live := if ttl == 0 then 64 else ttl;
    var b := new byte[total](_ => 0);
    FillHeader(b, total % 0x1_0000, src.addr, dst.addr, id, live);
    FillUDP(b, src.port, dst.port, (8 + |data|) % 0x1_0000, data);
    ghost var s, p := b[..], b[20..];
    assert p == UDPHeader(src.port, dst.port, (8 + |data|) % 0x1_0000, 0) + data;
    var c := InternetChecksum(b[..20]);
    PutBytes(b, 10, Be16(c));
    assert b[20..] == p;
    var u := UdpChecksum(AddrBytes(src.addr), AddrBytes(dst.addr), b[20..]);
    PutBytes(b, 26, Be16(u));
    r := b[..];
    if |data| <= MAX_DATA {
      ChecksumsInPlace(s, total, id, live, c, u, src, dst, data);
      LayoutIsWellBuilt(src, dst, id, live, data, c, u);
    }
  }

  /** Writing the two checksums over their zeroed fields gives the final layout. */
  lemma ChecksumsInPlace(s: seq<byte>, total: u16, id: u16, ttl: byte, c: u16, u: u16, src: AddrPort, dst: AddrPort, data: seq<byte>)
    requires total == 28 + |data|
    requires s == Header(total, id, ttl, 0, src.addr, dst.addr) + (UDPHeader(src.port, dst.port, 8 + |data|, 0) + data)
    ensures var t := s[..10] + Be16(c) + s[12..];
      t[..26] + Be16(u) + t[28..] ==
        Header(total, id, ttl, c, src.addr, dst.addr) + (UDPHeader(src.port, dst.port, 8 + |data|, u) + data)
  {
    hide Bytes.Be16;
  }

  /** No packet at all can carry more data than that through the parsers, so the round trip holds
      exactly up to the bound. */
  lemma RoundTripExactlyUpToMaxData(r: seq<byte>, src: AddrPort, dst: AddrPort, id: u16, ttl: byte, data: seq<byte>)
    requires ReadsBack(r, src, dst, id, ttl, data)
    ensures |data| <= MAX_DATA
  {
    ParsedPacketIsInTheBuffer(r);
  }
}
