/** One's-complement arithmetic of the Internet checksum (section 1 of RFC 1071): the uint32
    accumulator of the program, the fold, and why a packet carrying its checksum verifies. */
module Checksum {
  import opened SeqNum
  import opened Bytes

  /** The 16-bit big-endian words of `b` added up, an odd last byte padded with zero. */
  ghost function WordSum(b: seq<byte>): nat {
    if |b| == 0 then 0
    else if |b| == 1 then 256 * (b[0] as int)
    else 256 * (b[0] as int) + b[1] + WordSum(b[2..])
  }

  lemma {:induction false} WordSumSplits(a: seq<byte>, b: seq<byte>)
    requires |a| % 2 == 0
    ensures WordSum(a + b) == WordSum(a) + WordSum(b)
    decreases |a|
  {
    if a == [] {
      assert a + b == b;
    } else {
      assert (a + b)[2..] == a[2..] + b;
      WordSumSplits(a[2..], b);
    }
  }

  lemma {:induction false} WordSumBound(b: seq<byte>)
    ensures WordSum(b) <= 65535 * ((|b| + 1) / 2)
    decreases |b|
  {
    if |b| > 1 {
      WordSumBound(b[2..]);
    }
  }

  /** One word is its two bytes, big-endian, and an odd last byte counts as if a zero followed it. */
  lemma {:induction false} WordsAreBigEndian(x: byte, y: byte, b: seq<byte>)
    ensures WordSum([x, y]) == 0x100 * (x as int) + y
    ensures |b| % 2 == 1 ==> WordSum(b + [0]) == WordSum(b)
    decreases |b|
  {
    assert [x, y][2..] == [];
    if |b| == 1 {
      assert (b + [0])[2..] == [];
    } else if |b| > 1 {
      assert (b + [0])[2..] == b[2..] + [0];
      WordsAreBigEndian(x, y, b[2..]);
    }
  }

  /** Carries folded back in until none is left. */
  ghost function Fold(s: nat): u16 {
    if s < 0x1_0000 then s else Fold(s % 0x1_0000 + s / 0x1_0000)
  }

  /** The fold keeps the value modulo 65535 and never turns a positive sum into 0. */
  lemma {:induction false} FoldKeepsResidue(s: nat)
    ensures Fold(s) % 65535 == s % 65535
    ensures Fold(s) == 0 <==> s == 0
  {
    if s >= 0x1_0000 {
      var t := s % 0x1_0000 + s / 0x1_0000;
      FoldKeepsResidue(t);
      CarryKeepsResidue(s / 0x1_0000, s % 0x1_0000);
    }
  }

  lemma CarryKeepsResidue(hi: nat, lo: nat)
    ensures (0x1_0000 * hi + lo) % 65535 == (hi + lo) % 65535
  {
    assert 0x1_0000 * hi + lo == 65535 * hi + (hi + lo);
  }

  /** A sum that includes its checksum verifies when it folds to all ones. */
  ghost predicate Verifies(sum: nat) {
    Fold(sum) == 0xffff
  }

  lemma VerifiesMeans(sum: nat)
    ensures Verifies(sum) <==> sum > 0 && sum % 65535 == 0
  {
    FoldKeepsResidue(sum);
  }

  /** Adding the complement of the fold makes any sum verify; so does all ones in place of 0. */
  lemma ComplementVerifies(sum: nat)
    ensures Verifies(sum + (0xffff - Fold(sum)))
    ensures Fold(sum) == 0xffff ==> Verifies(sum + 0xffff)
  {
    FoldKeepsResidue(sum);
    VerifiesMeans(sum + (0xffff - Fold(sum)));
    VerifiesMeans(sum + 0xffff);
    hide Fold, Verifies;
    ComplementResidue(sum, Fold(sum));
  }

  lemma ComplementResidue(s: nat, f: u16)
    requires s % 65535 == f as int % 65535
    ensures (s + (0xffff - f)) % 65535 == 0
    ensures f == 0xffff ==> (s + 0xffff) % 65535 == 0
  {
    var q := s / 65535;
    assert s == 65535 * q + s % 65535;
    if f == 0xffff {
      assert s + 0xffff == 65535 * (q + 1);
    } else {
      assert s + (0xffff - f) == 65535 * (q + 1);
    }
  }

  /** Reducing on the way or at the end is the same. */
  lemma WrapAdds(a: int, b: int)
    ensures Wrap(Wrap(a) + b) == Wrap(a + b)
  {
  }

  /** One loop over the words of `b`, on a uint32 accumulator. */
  method AddWords(acc: u32, b: seq<byte>) returns (sum: u32)
    ensures sum == Wrap(acc + WordSum(b))
  {
    WrapAdds(acc, 0);
    sum := acc;
    ghost var done, words := 0, 0;
    var i := 0;
    assert b[0..] == b && acc == Wrap(acc);
    hide SeqNum.Wrap, WordSum;
    while i + 1 < |b|
      invariant 0 <= i <= |b| && i == 2 * words
      invariant sum == Wrap(acc + done) && done + WordSum(b[i..]) == WordSum(b)
      decreases |b| - i
    {
      var w: int := 256 * (b[i] as int) + b[i + 1];
      NextWord(b, i);
      WrapAdds(acc + done, w);
      sum := Wrap(sum + w);
      done, words := done + w, words + 1;
      i := i + 2;
    }
    LastWord(b, i, words);
    if |b| % 2 == 1 {
      WrapAdds(acc + done, 256 * (b[|b| - 1] as int));
      sum := Wrap(sum + 256 * (b[|b| - 1] as int));
    }
  }

  lemma NextWord(b: seq<byte>, i: nat)
    requires i + 1 < |b|
    ensures WordSum(b[i..]) == 256 * (b[i] as int) + b[i + 1] + WordSum(b[i + 2..])
  {
    assert b[i..][2..] == b[i + 2..];
  }

  lemma LastWord(b: seq<byte>, i: nat, words: nat)
    requires i == 2 * words && i <= |b| <= i + 1
    ensures WordSum(b[i..]) == if |b| % 2 == 1 then 256 * (b[|b| - 1] as int) else 0
  {
    if |b| % 2 == 1 {
      assert b[i..] == [b[|b| - 1]];
    } else {
      assert b[i..] == [];
    }
  }

  /** The carry loop: it ends, and the accumulator never overflows on the way. */
  method FoldCarries(acc: u32) returns (sum: u16)
    ensures sum == Fold(acc)
  {
    var s: int := acc;
    while s / 0x1_0000 != 0
      invariant 0 <= s < 0x1_0000_0000 && Fold(s) == Fold(acc)
      decreases s
    {
      s := s % 0x1_0000 + s / 0x1_0000;
    }
    sum := s;
  }

  /** The largest length for which no input can overflow the accumulator. */
  const MAX_EXACT: int := 131_074

  /** The complement of the folded sum, exact for every input that cannot overflow the accumulator. */
  method InternetChecksum(b: seq<byte>) returns (c: u16)
    ensures c == 0xffff - Fold(Wrap(WordSum(b)))
    ensures |b| <= MAX_EXACT ==> c == 0xffff - Fold(WordSum(b))
  {
    hide Fold, WordSum;
    var sum := AddWords(0, b);
    var f := FoldCarries(sum);
    WordSumBound(b);
    c := 0xffff - f;
  }

  /** Two bytes more and the accumulator can overflow: the bound is sharp. */
  lemma OverflowBeyondTheBound(b: seq<byte>)
    requires |b| == MAX_EXACT + 2 && forall i :: 0 <= i < |b| ==> b[i] == 255
    ensures Fold(Wrap(WordSum(b))) != Fold(WordSum(b))
  {
    AllOnes(b);
    hide WordSum, Fold;
    assert WordSum(b) == 65535 * 65538 && Wrap(WordSum(b)) == 65534;
    FoldKeepsResidue(WordSum(b));
    FoldKeepsResidue(65534);
  }

  lemma {:induction false} AllOnes(b: seq<byte>)
    requires |b| % 2 == 0 && forall i :: 0 <= i < |b| ==> b[i] == 255
    ensures WordSum(b) == 65535 * (|b| / 2)
    decreases |b|
  {
    if b != [] {
      AllOnes(b[2..]);
    }
  }

  // ---------------------------------------------------------------- UDP

  const PROTO_UDP: int := 17

  /** The pseudo-header of RFC 768: source, destination, zero, protocol and UDP length. */
  ghost function PseudoHeader(src: seq<byte>, dst: seq<byte>, udpLen: nat): seq<byte> {
    src + dst + [0, PROTO_UDP] + [udpLen / 0x100 % 0x100, udpLen % 0x100]
  }

  lemma PseudoHeaderLayout(src: seq<byte>, dst: seq<byte>, udpLen: u16)
    requires |src| == 4 && |dst| == 4
    ensures var p := PseudoHeader(src, dst, udpLen);
      |p| == 12 && p[..4] == src && p[4..8] == dst && p[8] == 0 && p[9] == 17 && 0x100 * (p[10] as int) + p[11] == udpLen
  {
  }

  lemma PseudoSum(src: seq<byte>, dst: seq<byte>, udp: seq<byte>)
    requires |src| == 4 && |dst| == 4 && |udp| <= 0xffff
    ensures WordSum(PseudoHeader(src, dst, |udp|) + udp) == WordSum(src) + WordSum(dst) + PROTO_UDP + |udp| + WordSum(udp)
  {
    var proto, len := [0, PROTO_UDP], [|udp| / 0x100 % 0x100, |udp| % 0x100];
    WordsAreBigEndian(0, PROTO_UDP, []);
    LengthWord(|udp|);
    SumOfFive(src, dst, proto, len, udp);
    hide WordSum;
  }

  lemma LengthWord(n: u16)
    ensures WordSum([n / 0x100 % 0x100, n % 0x100]) == n
  {
    WordsAreBigEndian(n / 0x100 % 0x100, n % 0x100, []);
    hide WordSum;
  }

  lemma SumOfFive(a: seq<byte>, b: seq<byte>, c: seq<byte>, d: seq<byte>, e: seq<byte>)
    requires |a| % 2 == |b| % 2 == |c| % 2 == |d| % 2 == 0
    ensures WordSum(a + b + c + d + e) == WordSum(a) + WordSum(b) + WordSum(c) + WordSum(d) + WordSum(e)
  {
    hide WordSum;
    WordSumSplits(a + b + c + d, e);
    WordSumSplits(a + b + c, d);
    WordSumSplits(a + b, c);
    WordSumSplits(a, b);
  }

  /** The UDP checksum makes pseudo-header and datagram together verify; 0 would mean "none", so
      all ones stands in for it. */
  method UdpChecksum(src: seq<byte>, dst: seq<byte>, udp: seq<byte>) returns (c: u16)
    requires |src| == 4 && |dst| == 4
    ensures c != 0
    ensures |udp| <= 0xffff ==> Verifies(WordSum(PseudoHeader(src, dst, |udp|) + udp) + c)
  {
    hide Fold, WordSum, PseudoHeader, Verifies, Wrap;
    ghost var a, d, u := WordSum(src), WordSum(dst), WordSum(udp);
    var sum := AddWords(0, src);
    WrapAdds(a, d);
    sum := AddWords(sum, dst);
    WrapAdds(a + d, PROTO_UDP);
    sum := Wrap(sum + PROTO_UDP);
    WrapAdds(a + d + PROTO_UDP, |udp|);
    WrapAdds(|udp|, sum);
    sum := Wrap(sum + Wrap(|udp|));
    WrapAdds(a + d + PROTO_UDP + |udp|, u);
    sum := AddWords(sum, udp);
    var f := FoldCarries(sum);
    c := 0xffff - f;
    if |udp| <= 0xffff {
      PseudoSum(src, dst, udp);
      PartsAreSmall(src, dst, udp);
      ComplementVerifies(a + d + PROTO_UDP + |udp| + u);
    }
    if c == 0 {
      c := 0xffff;
    }
  }

  lemma PartsAreSmall(src: seq<byte>, dst: seq<byte>, udp: seq<byte>)
    requires |src| == 4 && |dst| == 4 && |udp| <= 0xffff
    ensures var sum := WordSum(src) + WordSum(dst) + PROTO_UDP + |udp| + WordSum(udp);
      Wrap(sum) == sum
  {
    hide WordSum;
    WordSumBound(src);
    WordSumBound(dst);
    WordSumBound(udp);
  }
}
