/** Fixed-width integers of the Rust source, as ranges of unbounded integers,
    the Option type used by every decoder of the model, and the facts about
    Euclidean division the bit-packing proofs rest on. */
module Bytes {

  /** Rust's `u8`: the type of a byte and of a packet's TTL. */
  type uint8 = x: int | 0 <= x < 0x100

  /** Rust's `u32`: the type of a latency in milliseconds. */
  type uint32 = x: int | 0 <= x < 0x1_0000_0000

  type byte = uint8

  datatype Option<+T> = None | Some(value: T)

  /** Euclidean division is unique: q and r are the quotient and remainder
      of q * d + r whenever r is a remainder. */
  lemma {:induction false} DivMod(q: int, r: int, d: int)
    requires 0 < d && 0 <= r < d
    ensures (q * d + r) / d == q && (q * d + r) % d == r
  {
    var n := q * d + r;
    var q', r' := n / d, n % d;
    assert n == q' * d + r';
    assert (q - q') * d == r' - r;
    NonZeroMultiple(q - q', d);
  }

  /** A non-zero multiple of d is at least d away from zero. */
  lemma {:induction false} NonZeroMultiple(a: int, d: int)
    requires 0 < d
    ensures a >= 1 ==> a * d >= d
    ensures a <= -1 ==> a * d <= -d
  {
    if a >= 1 {
      assert a * d == (a - 1) * d + d;
    }
    if a <= -1 {
      assert a * d == (a + 1) * d - d;
    }
  }
}
