/**
 * The integer operations the frame assembler is written with: masking a value
 * to its low byte, shifting left, and bitwise or. The receiver works on the
 * host language's unbounded non-negative integers, so they are modelled on
 * `nat` and defined bit by bit rather than on a fixed-width bit-vector.
 */
module Bits {

  /** One octet of the serial stream. */
  type byte = b: int | 0 <= b < 256

  /** 2 to the power `n`. */
  function Pow2(n: nat): (r: nat)
    ensures r >= 1
  {
    if n == 0 then 1 else 2 * Pow2(n - 1)
  }

  /** `value & 0xFF`: the low eight bits of an integer, in two's complement for a negative one. */
  function Mask(value: int): (b: byte)
    ensures 0 <= value < 256 ==> b == value
    ensures (value - b) % 256 == 0
  {
    value % 256
  }

  /** `x << n` on a non-negative integer. */
  function Shl(x: nat, n: nat): (r: nat)
    ensures r % Pow2(n) == 0 && r / Pow2(n) == x
    ensures n == 0 ==> r == x
  {
    MultipleDivides(x, Pow2(n));
    x * Pow2(n)
  }

  /** A multiple of `p` leaves no remainder, and dividing it by `p` gives the factor back. */
  lemma MultipleDivides(x: nat, p: nat)
    requires p >= 1
    ensures (x * p) % p == 0 && (x * p) / p == x
  {
    DivUnique(x * p, p, x, 0);
  }

  /** Quotient and remainder are the only pair with `a == p * q + r` and `0 <= r < p`. */
  lemma DivUnique(a: int, p: nat, q: int, r: int)
    requires p >= 1 && a == p * q + r && 0 <= r < p
    ensures a / p == q && a % p == r
  {
    var q', r' := a / p, a % p;
    assert a == p * q' + r' && 0 <= r' < p;
    if q' < q {
      MulMono(q - q', p);
    } else if q' > q {
      MulMono(q' - q, p);
    }
  }

  /** A positive multiple of `p` is at least `p`. */
  lemma MulMono(a: nat, p: nat)
    requires a >= 1
    ensures a * p >= p
  {
  }

  /** `a | b` on non-negative integers, computed from the lowest bit up. */
  function Or(a: nat, b: nat): (r: nat)
    ensures a <= r && b <= r && r <= a + b
    decreases a + b
  {
    if a == 0 then b
    else if b == 0 then a
    else 2 * Or(a / 2, b / 2) + (if a % 2 == 1 || b % 2 == 1 then 1 else 0)
  }

  /**
   * Or-ing a value into bits that are all zero is addition: when `a` fits in
   * `k` bits, `a | (b << k) == a + (b << k)`.
   */
  lemma {:induction false} OrDisjoint(a: nat, b: nat, k: nat)
    requires a < Pow2(k)
    ensures Or(a, Shl(b, k)) == a + Shl(b, k)
  {
    if k == 0 || a == 0 || b == 0 {
    } else {
      var c := b * Pow2(k - 1);
      assert Shl(b, k) == 2 * c;
      assert a / 2 < Pow2(k - 1);
      OrDisjoint(a / 2, b, k - 1);
      assert Or(a, Shl(b, k)) == 2 * Or(a / 2, c) + a % 2;
    }
  }

  /** Or-ing a high byte shifted by eight onto a low byte gives their little-endian value, an unsigned 16-bit number. */
  lemma LittleEndianOr(lo: byte, hi: byte)
    ensures Or(lo, Shl(hi, 8)) == lo + 256 * hi
    ensures 0 <= lo + 256 * hi < 65536
  {
    OrDisjoint(lo, hi, 8);
  }
}
