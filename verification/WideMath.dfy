/**
  MultThenDivU64x64x32 from FdtBusDxe/Utils.c: multiply two 64-bit numbers and
  divide by a 32-bit one without ever forming the 128-bit product.
 */
module WideMath {
  import opened Uefi
  import opened Arithmetic

  datatype QuotRem = QuotRem(quotient: u64, remainder: u32)

  /** DivU64x32Remainder. */
  function DivU64x32(dividend: u64, divisor: u32): (r: QuotRem)
    requires divisor != 0
    ensures dividend == divisor * r.quotient + r.remainder && r.remainder < divisor
  {
    QuotientBounds(dividend, divisor);
    QuotRem(dividend / divisor, dividend % divisor)
  }

  /** Halves the larger factor whenever the product overflows and doubles the
      partial quotient, dropping carries out of bit 63. */
  function MultThenDiv(multiplicand: u64, multiplier: u64, divisor: u32): (r: QuotRem)
    requires multiplier != 0 && divisor != 0
    ensures r.remainder < divisor
    decreases multiplicand * multiplier
  {
    if multiplicand > MAX_UINT64 / multiplier then
      var larger, smaller := Max(multiplicand, multiplier), Min(multiplicand, multiplier);
      OverflowHalves(multiplicand, multiplier);
      var half := MultThenDiv(larger / 2, smaller, divisor);
      Recombine(larger, smaller, divisor, half)
    else
      ProductFits(multiplicand, multiplier, MAX_UINT64);
      DivU64x32(multiplicand * multiplier, divisor)
  }

  /** The part of an overflowing call behind the recursion. */
  function Recombine(larger: u64, smaller: u64, divisor: u32, half: QuotRem): (r: QuotRem)
    requires divisor != 0 && half.remainder < divisor
    ensures r.remainder < divisor
  {
    var doubled := Wrap64(2 * half.quotient);
    var low := if larger % 2 == 1 then DivU64x32(smaller, divisor) else QuotRem(0, 0);
    var quotient := Wrap64(doubled + low.quotient);
    var carry := DivU64x32(low.remainder + 2 * half.remainder, divisor);
    QuotRem(Wrap64(quotient + carry.quotient), carry.remainder)
  }

  ghost predicate IsQuotRem(product: nat, divisor: nat, q: nat, r: nat) {
    product == divisor * q + r && r < divisor
  }

  /** For every nonzero multiplier and divisor the result is the exact quotient
      modulo 2^64 and the exact remainder. */
  lemma {:induction false} MultThenDivIsExact(multiplicand: u64, multiplier: u64, divisor: u32)
    requires multiplier != 0 && divisor != 0
    ensures MultThenDiv(multiplicand, multiplier, divisor)
            == QuotRem(Wrap64(multiplicand * multiplier / divisor), multiplicand * multiplier % divisor)
  {
    var q := ExactQuotient(multiplicand, multiplier, divisor);
    var r := MultThenDiv(multiplicand, multiplier, divisor).remainder;
    DivisionIsUnique(multiplicand * multiplier, divisor, q, r);
  }

  lemma {:induction false} ExactQuotient(multiplicand: u64, multiplier: u64, divisor: u32) returns (q: nat)
    requires multiplier != 0 && divisor != 0
    ensures var r := MultThenDiv(multiplicand, multiplier, divisor);
            r.quotient == Wrap64(q) && IsQuotRem(multiplicand * multiplier, divisor, q, r.remainder)
    decreases multiplicand * multiplier
  {
    hide IsQuotRem, Recombine;
    if multiplicand > MAX_UINT64 / multiplier {
      var larger, smaller := Max(multiplicand, multiplier), Min(multiplicand, multiplier);
      OverflowHalves(multiplicand, multiplier);
      var half := MultThenDiv(larger / 2, smaller, divisor);
      var h := ExactQuotient(larger / 2, smaller, divisor);
      q := RecombineIsExact(larger, smaller, divisor, half, h);
    } else {
      ProductFits(multiplicand, multiplier, MAX_UINT64);
      q := DivU64x32(multiplicand * multiplier, divisor).quotient;
      Direct(multiplicand * multiplier, divisor);
    }
  }

  lemma Direct(product: u64, divisor: u32)
    requires divisor != 0
    ensures var r := DivU64x32(product, divisor); IsQuotRem(product, divisor, r.quotient, r.remainder)
    ensures Wrap64(DivU64x32(product, divisor).quotient) == DivU64x32(product, divisor).quotient
  {}

  /** 2 * (half quotient) + (low quotient) + carry is the quotient of the whole product. */
  lemma RecombineIsExact(larger: u64, smaller: u64, divisor: u32, half: QuotRem, h: nat) returns (q: nat)
    requires divisor != 0 && half.remainder < divisor
    requires half.quotient == Wrap64(h) && IsQuotRem(larger / 2 * smaller, divisor, h, half.remainder)
    ensures var r := Recombine(larger, smaller, divisor, half);
            r.quotient == Wrap64(q) && IsQuotRem(larger * smaller, divisor, q, r.remainder)
  {
    var low := if larger % 2 == 1 then DivU64x32(smaller, divisor) else QuotRem(0, 0);
    var carry := DivU64x32(low.remainder + 2 * half.remainder, divisor);
    q := 2 * h + low.quotient + carry.quotient;
    WrapsCombine(h, low.quotient, carry.quotient);
    ProductOfHalves(larger, smaller);
    Regroup(divisor, h, half.remainder, low.quotient, low.remainder, carry.quotient, carry.remainder);
  }

  lemma OverflowHalves(a: nat, b: nat)
    requires b > 0 && a > MAX_UINT64 / b
    ensures 0 < Min(a, b) && Max(a, b) * Min(a, b) == a * b
    ensures Max(a, b) / 2 * Min(a, b) < a * b
  {
    QuotientBounds(MAX_UINT64, b);
    var larger, smaller := Max(a, b), Min(a, b);
    MulSign(larger - larger / 2, smaller);
    assert larger * smaller - larger / 2 * smaller == (larger - larger / 2) * smaller;
  }

  lemma ProductOfHalves(larger: nat, smaller: nat)
    ensures larger * smaller == 2 * (larger / 2 * smaller) + (if larger % 2 == 1 then smaller else 0)
  {
    var h := larger / 2;
    assert larger == 2 * h + larger % 2;
    assert (2 * h) * smaller == 2 * (h * smaller);
  }

  lemma Regroup(d: nat, q: nat, r: nat, lq: nat, lr: nat, cq: nat, cr: nat)
    requires lr + 2 * r == d * cq + cr
    ensures 2 * (d * q + r) + (d * lq + lr) == d * (2 * q + lq + cq) + cr
  {
    assert d * (2 * q + lq + cq) == 2 * (d * q) + d * lq + d * cq;
  }

  lemma WrapsCombine(q: nat, lq: nat, cq: nat)
    ensures Wrap64(Wrap64(Wrap64(2 * Wrap64(q)) + lq) + cq) == Wrap64(2 * q + lq + cq)
  {}
}
