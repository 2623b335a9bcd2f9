/** Names shared by all parts: optional values, bytes and 32-bit unsigned integers. */
module Common {

  datatype Option<T> = None | Some(value: T)

  const UINT: nat := 0x1_0000_0000

  type Byte = x: int | 0 <= x < 256
  type Uint = x: int | 0 <= x < UINT

  /** The four bytes of a 32-bit integer. */
  lemma Digits(v: Uint)
    ensures v == v % 0x100 + 0x100 * (v / 0x100 % 0x100) + 0x1_0000 * (v / 0x1_0000 % 0x100) + 0x100_0000 * (v / 0x100_0000)
    ensures v / 0x100_0000 < 256
  {
    var x := v / 0x100;
    var y := x / 0x100;
    assert y == v / 0x1_0000 && y / 0x100 == v / 0x100_0000;
  }

  /** The numbers from lo to hi - 1. */
  ghost function Numbers(lo: nat, hi: nat): (s: set<nat>)
    requires lo <= hi
    ensures |s| == hi - lo && forall c: nat :: c in s <==> lo <= c < hi
    decreases hi - lo
  {
    if lo == hi then {} else {lo} + Numbers(lo + 1, hi)
  }
}
