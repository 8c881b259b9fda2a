/** Overflow checks for size computations in 32-bit signed integers. */
module Sizes {
  import opened Bits

  const INT_MAX: int := 0x7FFF_FFFF
  type int32 = x: int | -0x8000_0000 <= x < 0x8000_0000

  predicate AddSizesValid(a: int32, b: int32) {
    b >= 0 && a <= INT_MAX - b
  }

  predicate Mul2SizesValid(a: int32, b: int32) {
    if a < 0 || b < 0 then false
    else if b == 0 then true
    else a <= INT_MAX / b
  }

  /** The product check is exact: it accepts the non-negative factors whose product fits. */
  lemma Mul2SizesExact(a: int32, b: int32)
    ensures Mul2SizesValid(a, b) <==> a >= 0 && b >= 0 && a * b <= 0x7FFF_FFFF
    ensures a >= 0 && b >= 0 ==> a * b >= 0
  {
    if a >= 0 && b > 0 {
      DivAtLeast(INT_MAX, b, a);
      MulMonotone(0, a, b);
    }
  }

  /** `a * b + add`; the product is only formed when it is known to fit. */
  predicate Mad2SizesValid(a: int32, b: int32, add: int32) {
    Mul2SizesExact(a, b);
    Mul2SizesValid(a, b) && AddSizesValid(a * b, add)
  }

  predicate Mad3SizesValid(a: int32, b: int32, c: int32, add: int32) {
    Mul2SizesExact(a, b);
    Mul2SizesValid(a, b) && (Mul2SizesExact(a * b, c); Mul2SizesValid(a * b, c) && AddSizesValid(a * b * c, add))
  }

  predicate Mad4SizesValid(a: int32, b: int32, c: int32, d: int32, add: int32) {
    Mul2SizesExact(a, b);
    Mul2SizesValid(a, b) &&
    (Mul2SizesExact(a * b, c);
     Mul2SizesValid(a * b, c) &&
     (Mul2SizesExact(a * b * c, d); Mul2SizesValid(a * b * c, d) && AddSizesValid(a * b * c * d, add)))
  }

  lemma Mad2SizesExact(a: int32, b: int32, add: int32)
    ensures Mad2SizesValid(a, b, add) <==> a >= 0 && b >= 0 && add >= 0 && a * b + add <= 0x7FFF_FFFF
  {
    Mul2SizesExact(a, b);
  }

  /** The chained checks are exact too: every partial product has to fit. */
  lemma Mad3SizesExact(a: int32, b: int32, c: int32, add: int32)
    ensures Mad3SizesValid(a, b, c, add) <==>
            a >= 0 && b >= 0 && c >= 0 && add >= 0 && a * b <= 0x7FFF_FFFF && a * b * c + add <= 0x7FFF_FFFF
  {
    Mul2SizesExact(a, b);
    if Mul2SizesValid(a, b) { Mul2SizesExact(a * b, c); }
  }

  lemma Mad4SizesExact(a: int32, b: int32, c: int32, d: int32, add: int32)
    ensures Mad4SizesValid(a, b, c, d, add) <==>
            && a >= 0 && b >= 0 && c >= 0 && d >= 0 && add >= 0
            && a * b <= 0x7FFF_FFFF && a * b * c <= 0x7FFF_FFFF && a * b * c * d + add <= 0x7FFF_FFFF
  {
    Mul2SizesExact(a, b);
    if Mul2SizesValid(a, b) {
      Mul2SizesExact(a * b, c);
      if Mul2SizesValid(a * b, c) { Mul2SizesExact(a * b * c, d); }
    }
  }

  /** With no factor zero the final result decides alone: the check accepts exactly what fits. */
  lemma Mad4SizesPositive(a: int32, b: int32, c: int32, d: int32, add: int32)
    requires a >= 1 && b >= 1 && c >= 1 && d >= 1 && add >= 0
    ensures Mad4SizesValid(a, b, c, d, add) <==> a * b * c * d + add <= 0x7FFF_FFFF
  {
    Mad4SizesExact(a, b, c, d, add);
    MulMonotone(1, a, b);
    MulMonotone(1, c, a * b);
    MulMonotone(1, d, a * b * c);
  }

  lemma Mad3SizesPositive(a: int32, b: int32, c: int32, add: int32)
    requires a >= 1 && b >= 1 && c >= 1 && add >= 0
    ensures Mad3SizesValid(a, b, c, add) <==> a * b * c + add <= 0x7FFF_FFFF
  {
    Mad3SizesExact(a, b, c, add);
    MulMonotone(1, a, b);
    MulMonotone(1, c, a * b);
  }
}
