/** Sequence numbers on the wire are 32-bit and wrap. Every comparison goes
    through a signed 32-bit difference, and this module says exactly when that
    difference tells the truth about the unbounded ("unwrapped") numbers. */
module SeqNum {

  /** The most numbers one retransmit request can name. */
  const SEQ_LIST_MAX: int := 50

  /** Half of the number space. */
  const HALF: int := 0x8000_0000

  type u32 = n: int | 0 <= n < 0x1_0000_0000

  /** The wire form of an unwrapped number. */
  function Wrap(n: int): u32 {
    n % 0x1_0000_0000
  }

  /** `w + 1` on uint32. */
  function Inc(w: u32): u32 {
    if w == 0xffff_ffff then 0 else w + 1
  }

  /** `w - 1` on uint32. */
  function Dec(w: u32): u32 {
    if w == 0 then 0xffff_ffff else w - 1
  }

  lemma StepsWrap(n: int)
    ensures Inc(Wrap(n)) == Wrap(n + 1)
    ensures Dec(Wrap(n)) == Wrap(n - 1)
  {
  }

  /** `int32(a - b)` on uint32 operands. */
  function Diff(a: u32, b: u32): (d: int)
  {
    var d := (a - b) % 0x1_0000_0000;
    if d < 0x8000_0000 then d else d - 0x1_0000_0000
  }

  /** `n` lies in the half window about `base` that the signed difference can see. */
  predicate Near(n: int, base: int) {
    -0x8000_0000 <= n - base < 0x8000_0000
  }

  /** The one number near `base` whose wire form is `w`. */
  function Unwrap(w: u32, base: int): (n: int)
    ensures Wrap(n) == w && Near(n, base)
  {
    base + Diff(w, Wrap(base))
  }

  function WrapAll(ns: seq<int>): seq<u32> {
    seq(|ns|, i requires 0 <= i < |ns| => Wrap(ns[i]))
  }

  /** The signed difference is the true difference exactly inside the half window. */
  lemma DiffIsTrueDifference(a: int, b: int)
    ensures Diff(Wrap(a), Wrap(b)) == a - b <==> Near(a, b)
  {
    assert (Wrap(a) - Wrap(b)) % 0x1_0000_0000 == (a - b) % 0x1_0000_0000;
  }

  /** Beyond the half window, and up to a whole turn, the signed difference has the wrong sign. */
  lemma DiffBeyondHalf(a: int, b: int)
    requires HALF <= a - b < 0x1_0000_0000 || -0x1_0000_0000 < a - b < -HALF
    ensures if a > b then Diff(Wrap(a), Wrap(b)) == a - b - 0x1_0000_0000 < 0
      else Diff(Wrap(a), Wrap(b)) == a - b + 0x1_0000_0000 > 0
  {
    var turn := if a > b then -0x1_0000_0000 else 0x1_0000_0000;
    assert Wrap(a + turn) == Wrap(a);
    DiffIsTrueDifference(a + turn, b);
  }

  lemma UnwrapWrap(n: int, base: int)
    requires Near(n, base)
    ensures Unwrap(Wrap(n), base) == n
  {
    DiffIsTrueDifference(n, base);
  }

  /** Two numbers near a common base never share a wire form. */
  lemma WrapInjective(a: int, b: int, base: int)
    requires Near(a, base) && Near(b, base) && Wrap(a) == Wrap(b)
    ensures a == b
  {
    UnwrapWrap(a, base);
    UnwrapWrap(b, base);
  }

  /** The signed order is no order at all on the whole of uint32 (three numbers can
      each be "ahead" of the next), which is why a window has to be assumed. */
  lemma DiffIsNotTransitive()
    ensures exists a: u32, b: u32, c: u32 :: Diff(b, a) > 0 && Diff(c, b) > 0 && Diff(a, c) > 0
  {
    var a: u32, b: u32, c: u32 := 0, 0x6000_0000, 0xc000_0000;
    assert Diff(b, a) > 0 && Diff(c, b) > 0 && Diff(a, c) > 0;
  }
}
