/** Fixed-width integers as bytes, in the two byte orders the protocol mixes. */
module Bytes {
  import opened SeqNum

  type byte = n: int | 0 <= n < 256
  type u16 = n: int | 0 <= n < 0x1_0000
  type u64 = n: int | 0 <= n < 0x1_0000_0000_0000_0000

  datatype Result<+T, +E> = Ok(value: T) | Err(error: E)

  function Le16(x: u16): (b: seq<byte>)
    ensures |b| == 2 && FromLe16(b) == x
  {
    [x % 256, x / 256]
  }

  function FromLe16(b: seq<byte>): u16
    requires |b| >= 2
  {
    b[0] + 256 * (b[1] as int)
  }

  function Le32(x: u32): (b: seq<byte>)
    ensures |b| == 4 && FromLe32(b) == x
  {
    Le16(x % 0x1_0000) + Le16(x / 0x1_0000)
  }

  function FromLe32(b: seq<byte>): (x: u32)
    requires |b| >= 4
  {
    FromLe16(b) + 0x1_0000 * (FromLe16(b[2..]) as int)
  }

  function Be16(x: u16): (b: seq<byte>)
    ensures |b| == 2 && FromBe16(b) == x
  {
    [x / 256, x % 256]
  }

  function FromBe16(b: seq<byte>): u16
    requires |b| >= 2
  {
    256 * (b[0] as int) + b[1]
  }

  function Be32(x: u32): (b: seq<byte>)
    ensures |b| == 4 && FromBe32(b) == x
  {
    Be16(x / 0x1_0000) + Be16(x % 0x1_0000)
  }

  function FromBe32(b: seq<byte>): (x: u32)
    requires |b| >= 4
  {
    0x1_0000 * (FromBe16(b) as int) + FromBe16(b[2..])
  }

  /** Little-endian: the first byte weighs least. */
  lemma LittleEndian(b: seq<byte>)
    requires |b| >= 2
    ensures FromLe16(b) == b[0] + 0x100 * (b[1] as int)
    ensures |b| >= 4 ==> FromLe32(b) == b[0] + 0x100 * (b[1] as int) + 0x1_0000 * (b[2] as int) + 0x100_0000 * (b[3] as int)
  {
  }

  /** Big-endian: the first byte weighs most. */
  lemma BigEndian(b: seq<byte>)
    requires |b| >= 2
    ensures FromBe16(b) == 0x100 * (b[0] as int) + b[1]
    ensures |b| >= 4 ==> FromBe32(b) == 0x100_0000 * (b[0] as int) + 0x1_0000 * (b[1] as int) + 0x100 * (b[2] as int) + b[3]
  {
  }

  /** The other direction: the bytes are determined by the number. */
  lemma Le16Bytes(b: seq<byte>)
    requires |b| >= 2
    ensures Le16(FromLe16(b)) == b[..2]
  {
  }

  lemma Le32Bytes(b: seq<byte>)
    requires |b| >= 4
    ensures Le32(FromLe32(b)) == b[..4]
  {
    assert FromLe32(b) % 0x1_0000 == FromLe16(b) && FromLe32(b) / 0x1_0000 == FromLe16(b[2..]);
    Le16Bytes(b);
    Le16Bytes(b[2..]);
    assert b[..4] == b[..2] + b[2..][..2];
  }

  lemma Be16Bytes(b: seq<byte>)
    requires |b| >= 2
    ensures Be16(FromBe16(b)) == b[..2]
  {
  }

  lemma Be32Bytes(b: seq<byte>)
    requires |b| >= 4
    ensures Be32(FromBe32(b)) == b[..4]
  {
    assert FromBe32(b) / 0x1_0000 == FromBe16(b) && FromBe32(b) % 0x1_0000 == FromBe16(b[2..]);
    Be16Bytes(b);
    Be16Bytes(b[2..]);
    hide Be16, FromBe16;
    assert b[..4] == b[..2] + b[2..][..2];
  }
}
