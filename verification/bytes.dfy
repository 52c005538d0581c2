/** Go's `byte` and the two operations the packing loop performs on it:
    a left shift that drops bits pushed past position 7, and OR-ing in a
    one in the lowest position. */
module Bytes {

  /** An 8-bit unsigned value, Go's `byte`. */
  type byte = x: int | 0 <= x < 256

  /** A single binary digit. */
  type Bit = x: int | 0 <= x <= 1

  function Pow2(k: nat): (p: nat)
    ensures p >= 1
  {
    if k == 0 then 1 else 2 * Pow2(k - 1)
  }

  /** v moved up k binary positions, that is v * 2^k, on unbounded
      integers. */
  function ShiftUp(v: nat, k: nat): nat {
    if k == 0 then v else 2 * ShiftUp(v, k - 1)
  }

  lemma {:induction false} Pow2Monotone(a: nat, b: nat)
    requires a <= b
    ensures Pow2(a) <= Pow2(b)
    decreases b - a
  {
    if a < b {
      Pow2Monotone(a, b - 1);
    }
  }

  /** Shifting 2^a up by b positions gives 2^(a + b). */
  lemma {:induction false} ShiftUpPow2(a: nat, b: nat)
    ensures ShiftUp(Pow2(a), b) == Pow2(a + b)
    decreases b
  {
    if b > 0 {
      ShiftUpPow2(a, b - 1);
    }
  }

  lemma {:induction false} ShiftUpZero(k: nat)
    ensures ShiftUp(0, k) == 0
    decreases k
  {
    if k > 0 {
      ShiftUpZero(k - 1);
    }
  }

  /** Shifting up keeps strict order. */
  lemma {:induction false} ShiftUpStrict(a: nat, b: nat, k: nat)
    requires a < b
    ensures ShiftUp(a, k) < ShiftUp(b, k)
    decreases k
  {
    if k > 0 {
      ShiftUpStrict(a, b, k - 1);
    }
  }

  /** Shifting up distributes over addition. */
  lemma {:induction false} ShiftUpAdd(a: nat, b: nat, k: nat)
    ensures ShiftUp(a + b, k) == ShiftUp(a, k) + ShiftUp(b, k)
    decreases k
  {
    if k > 0 {
      ShiftUpAdd(a, b, k - 1);
    }
  }

  /** A value below 2^(8 - k) still fits in a byte after k shifts. */
  lemma ShiftUpFits(b: nat, k: nat)
    requires k <= 8 && b < Pow2(8 - k)
    ensures ShiftUp(b, k) < 256
  {
    ShiftUpStrict(b, Pow2(8 - k), k);
    ShiftUpPow2(8 - k, k);
    assert Pow2(8) == 256;
  }

  /** `b << k` on a Go byte: k single-position shifts, each dropping the
      bit pushed past position 7. When the value fits in the remaining
      8 - k positions nothing is lost. */
  function Shl(b: byte, k: nat): (r: byte)
    ensures k <= 8 && b < Pow2(8 - k) ==> r == ShiftUp(b, k)
    decreases k
  {
    if k == 0 then b
    else
      ShlStep(b, k);
      Shl((2 * b) % 256, k - 1)
  }

  lemma ShlStep(b: byte, k: nat)
    requires k > 0
    ensures k <= 8 && b < Pow2(8 - k) ==>
              && (2 * b) % 256 == 2 * b
              && 2 * b < Pow2(8 - (k - 1))
              && ShiftUp(2 * b, k - 1) == ShiftUp(b, k)
  {
    if k <= 8 && b < Pow2(8 - k) {
      Pow2Monotone(8 - k, 7);
      assert Pow2(7) == 128;
      ShiftUpAdd(b, b, k - 1);
    }
  }

  /** `b | 1` on a Go byte: the lowest bit becomes one and every other
      bit is kept. */
  function OrOne(b: byte): (r: byte)
    ensures r % 2 == 1
    ensures r / 2 == b / 2
  {
    if b % 2 == 1 then b else b + 1
  }
}
