/**
  Address-space allocation for the PCI host bridge: the GCD allocator services
  and AllocateResource from PciHostBridgeFdtDxe/HostBridge.c.
 */
module GcdSpace {
  import opened Uefi
  import opened Arithmetic

  predicate Within(a: nat, base: nat, length: nat) { base <= a < base + length }

  function Interval(base: nat, length: nat): set<nat> {
    set a | base <= a < base + length && Within(a, base, length)
  }

  predicate Aligned(x: nat, bits: nat) { x % Pow2(bits) == 0 }

  /** ALIGN_VALUE for an alignment that is a power of two. */
  function AlignUp(value: nat, alignment: nat): nat
    requires alignment > 0
  {
    value + (alignment - value % alignment) % alignment
  }

  /** One GCD space (memory-mapped I/O or port I/O): the addresses of that type
      nobody has allocated, and those allocated to this driver. */
  class Space {
    var free: set<nat>
    var owned: set<nat>

    constructor (free: set<nat>)
      ensures this.free == free && owned == {}
    {
      this.free := free;
      this.owned := {};
    }

    /** AllocateMemorySpace / AllocateIoSpace with EfiGcdAllocateAddress. */
    method AllocateAddress(bitsOfAlignment: nat, length: nat, base: nat) returns (ok: bool)
      modifies this
      ensures ok <==> 0 < length && Aligned(base, bitsOfAlignment) && Interval(base, length) <= old(free)
      ensures ok ==> free == old(free) - Interval(base, length) && owned == old(owned) + Interval(base, length)
      ensures !ok ==> free == old(free) && owned == old(owned)
    {
      ok := 0 < length && Aligned(base, bitsOfAlignment) && Interval(base, length) <= free;
      if ok {
        free, owned := free - Interval(base, length), owned + Interval(base, length);
      }
    }

    /** FreeMemorySpace / FreeIoSpace. */
    method Free(base: nat, length: nat) returns (status: Status)
      modifies this
      ensures status == (if 0 < length && Interval(base, length) <= old(owned) then Success else NotFound)
      ensures status == Success ==>
                free == old(free) + Interval(base, length) && owned == old(owned) - Interval(base, length)
      ensures status != Success ==> free == old(free) && owned == old(owned)
    {
      if 0 < length && Interval(base, length) <= owned {
        free, owned := free + Interval(base, length), owned - Interval(base, length);
        return Success;
      }
      return NotFound;
    }
  }

  /** An allocation the request could be given: aligned, inside [base, limit] and free. */
  predicate Candidate(free: set<nat>, b: nat, length: nat, bits: nat, base: nat, limit: nat) {
    && 0 < length && base <= b && Aligned(b, bits)
    && b + length <= limit + 1
    && Interval(b, length) <= free
  }

  lemma AlignedGap(b: nat, b': nat, a: nat)
    requires a > 0 && b % a == 0 && b' % a == 0 && b <= b' < b + a
    ensures b == b'
  {
    var q, q' := b / a, b' / a;
    assert b' - b == (q' - q) * a;
    MulSign(q' - q, a);
  }

  lemma AlignUpIsNext(value: nat, a: nat)
    requires a > 0
    ensures value <= AlignUp(value, a) < value + a && AlignUp(value, a) % a == 0
  {
    var q, r := value / a, value % a;
    assert value == q * a + r;
    if r == 0 {
      assert (a - r) % a == 0;
      assert AlignUp(value, a) == value;
    } else {
      assert (a - r) % a == a - r by { SmallModulo(a - r, a); }
      assert AlignUp(value, a) == (q + 1) * a;
      MultipleModulo(q + 1, a);
    }
  }

  lemma SmallModulo(x: nat, a: nat)
    requires x < a
    ensures x % a == x
  {}

  lemma FirstAligned(value: nat, bits: nat)
    ensures Aligned(AlignUp(value, Pow2(bits)), bits)
    ensures value <= AlignUp(value, Pow2(bits)) < value + Pow2(bits)
  {
    AlignUpIsNext(value, Pow2(bits));
  }

  lemma NextAligned(b: nat, bits: nat)
    requires Aligned(b, bits)
    ensures Aligned(b + Pow2(bits), bits)
  {
    var a := Pow2(bits);
    assert b + a == (b / a + 1) * a;
    MultipleModulo(b / a + 1, a);
  }

  /** No candidate lies below b. */
  ghost predicate NoneBelow(free: set<nat>, b: nat, length: nat, bits: nat, base: nat, limit: nat) {
    forall x :: 0 <= x < b ==> !Candidate(free, x, length, bits, base, limit)
  }

  ghost predicate None(free: set<nat>, length: nat, bits: nat, base: nat, limit: nat) {
    forall x: nat :: !Candidate(free, x, length, bits, base, limit)
  }

  lemma NoneBelowAlignUp(free: set<nat>, length: nat, bits: nat, base: nat, limit: nat)
    ensures NoneBelow(free, AlignUp(base, Pow2(bits)), length, bits, base, limit)
  {
    var a := Pow2(bits);
    AlignUpIsNext(base, a);
    forall x | 0 <= x < AlignUp(base, a) ensures !Candidate(free, x, length, bits, base, limit) {
      if Candidate(free, x, length, bits, base, limit) {
        AlignedGap(x, AlignUp(base, a), a);
        assert false;
      }
    }
  }

  lemma NoneBelowNext(free: set<nat>, b: nat, length: nat, bits: nat, base: nat, limit: nat)
    requires Aligned(b, bits) && NoneBelow(free, b, length, bits, base, limit)
    requires !Candidate(free, b, length, bits, base, limit)
    ensures NoneBelow(free, b + Pow2(bits), length, bits, base, limit)
  {
    forall x | 0 <= x < b + Pow2(bits) ensures !Candidate(free, x, length, bits, base, limit) {
      if x >= b && Candidate(free, x, length, bits, base, limit) {
        AlignedGap(b, x, Pow2(bits));
      }
    }
  }

  lemma NoneAbove(free: set<nat>, b: nat, length: nat, bits: nat, base: nat, limit: nat)
    requires NoneBelow(free, b, length, bits, base, limit) && b + length > limit + 1
    ensures None(free, length, bits, base, limit)
  {
    forall x: nat ensures !Candidate(free, x, length, bits, base, limit) {
      if x < b {
        assert !Candidate(free, x, length, bits, base, limit);
      }
    }
  }

  lemma WrapSmall(x: nat)
    requires x < TWO_64
    ensures Wrap64(x) == x
  {}

  lemma WrapsOnce(x: nat)
    requires TWO_64 <= x < 2 * TWO_64
    ensures Wrap64(x) == x - TWO_64
  {}

  lemma WrapStep(x: nat, a: nat)
    ensures Wrap64(Wrap64(x) + a) == Wrap64(x + a)
  {}

  /** The first aligned address from the base on at which the request would reach behind
      the window. */
  function FirstBeyond(length: nat, bits: nat, base: nat, limit: nat): nat {
    AlignUp(Max(base, limit + 2 - length), Pow2(bits))
  }

  lemma FirstBeyondIs(length: nat, bits: nat, base: nat, limit: nat)
    ensures var f := FirstBeyond(length, bits, base, limit);
            && base <= f && Aligned(f, bits) && f + length > limit + 1
            && forall x :: base <= x < f && Aligned(x, bits) ==> x + length <= limit + 1
  {
    hide AlignUp, Pow2, Aligned;
    var from, f := Max(base, limit + 2 - length), FirstBeyond(length, bits, base, limit);
    FirstAligned(from, bits);
    forall x | base <= x < f && Aligned(x, bits) ensures x + length <= limit + 1 {
      if x >= from {
        AlignedBelow(x, f, bits);
      }
    }
  }

  /** Aligned addresses are a whole step apart. */
  lemma AlignedBelow(x: nat, y: nat, bits: nat)
    requires Aligned(x, bits) && Aligned(y, bits) && x < y
    ensures x + Pow2(bits) <= y
  {
    if y < x + Pow2(bits) {
      AlignedGap(x, y, Pow2(bits));
    }
  }

  /** The search of a window ends where it should: behind the last place in it the 64-bit
      loop test fails.  For a window that ends with the address space it always does. */
  predicate Stops(length: nat, bits: nat, base: nat, limit: nat) {
    base >= limit || limit == MAX_UINT64 || StopsAt(FirstBeyond(length, bits, base, limit), length, limit)
  }

  /** The loop test fails at x, which may lie behind 2^64. */
  predicate StopsAt(x: nat, length: nat, limit: nat) {
    Wrap64(Wrap64(x) + length) > Wrap64(limit + 1)
  }

  /** The n-th address the loop comes to while everything is refused. */
  function Nth(bits: nat, base: nat, n: nat): u64 { Wrap64(AlignUp(base, Pow2(bits)) + n * Pow2(bits)) }

  /** While everything is refused, the loop tries its n-th address. */
  predicate Tries(length: nat, bits: nat, base: nat, limit: nat, n: nat) {
    forall m :: 0 <= m <= n ==> !StopsAt(Nth(bits, base, m), length, limit)
  }

  predicate LiesIn(b: nat, length: nat, base: nat, limit: nat) { base <= b && b + length <= limit + 1 }

  /** It never tries an address outside the window. */
  ghost predicate StaysInside(length: nat, bits: nat, base: nat, limit: nat) {
    forall n: nat :: Tries(length, bits, base, limit, n) ==> LiesIn(Nth(bits, base, n), length, base, limit)
  }

  /** It gives up after finitely many refusals. */
  ghost predicate GivesUp(length: nat, bits: nat, base: nat, limit: nat) {
    exists n: nat :: !Tries(length, bits, base, limit, n)
  }

  lemma {:induction false} NthAligned(bits: nat, base: nat, n: nat)
    ensures Aligned(AlignUp(base, Pow2(bits)) + n * Pow2(bits), bits)
  {
    hide AlignUp, Pow2;
    if n == 0 {
      FirstAligned(base, bits);
    } else {
      NthAligned(bits, base, n - 1);
      NextAligned(AlignUp(base, Pow2(bits)) + (n - 1) * Pow2(bits), bits);
      assert n * Pow2(bits) == (n - 1) * Pow2(bits) + Pow2(bits);
    }
  }

  /** An aligned address at or above the base is one of those. */
  lemma AlignedIsNth(bits: nat, base: nat, x: nat) returns (n: nat)
    requires base <= x && Aligned(x, bits)
    ensures x == AlignUp(base, Pow2(bits)) + n * Pow2(bits)
  {
    var a, first := Pow2(bits), AlignUp(base, Pow2(bits));
    AlignUpIsNext(base, a);
    hide AlignUp, Pow2;
    if x < first {
      AlignedGap(x, first, a);
    }
    var q, q0 := x / a, first / a;
    assert x == q * a && first == q0 * a;
    if q < q0 {
      MulSign(q0 - q, a);
    }
    n := q - q0;
    assert n * a == q * a - q0 * a;
  }

  /** 2^64 itself is aligned to every power of two up to it. */
  lemma {:induction false} TopIsAligned(bits: nat)
    requires bits < 64
    ensures Pow2(bits) <= TWO_64 / 2 && TWO_64 % Pow2(bits) == 0
  {
    Pow2Adds(bits, 64 - bits);
    Pow2Of64();
    DivisionIsUnique(TWO_64, Pow2(bits), Pow2(64 - bits), 0);
    Pow2Adds(bits, 63 - bits);
    assert Pow2(64 - bits) == 2 * Pow2(63 - bits);
    MulMonotonic(1, Pow2(63 - bits), Pow2(bits));
    assert Pow2(bits) * Pow2(64 - bits) == 2 * (Pow2(bits) * Pow2(63 - bits));
  }

  /** The first address behind the window is 2^64 at most. */
  lemma BeyondIsBelowTop(length: nat, bits: nat, base: u64, limit: u64)
    requires bits < 64 && base < limit < MAX_UINT64
    ensures FirstBeyond(length, bits, base, limit) <= TWO_64
  {
    TopIsAligned(bits);
    FirstAligned(Max(base, limit + 2 - length), bits);
    hide AlignUp, Pow2, Aligned;
    if FirstBeyond(length, bits, base, limit) > TWO_64 {
      AlignedBelow(TWO_64, FirstBeyond(length, bits, base, limit), bits);
    }
  }

  /** Below the first address behind the window everything tried lies inside it. */
  lemma TriedInside(length: u64, bits: nat, base: u64, limit: u64, x: nat)
    requires bits < 64 && base < limit < MAX_UINT64
    requires base <= x < FirstBeyond(length, bits, base, limit) && Aligned(x, bits)
    ensures Wrap64(x) == x && !StopsAt(x, length, limit) && LiesIn(x, length, base, limit)
  {
    hide FirstBeyond, Aligned;
    FirstBeyondIs(length, bits, base, limit);
    WrapSmall(x);
    WrapSmall(x + length);
  }

  /** The addresses before the last-th one, if that is the first behind the window. */
  lemma TriesAllBefore(length: u64, bits: nat, base: u64, limit: u64, last: nat, n: nat)
    requires bits < 64 && base < limit < MAX_UINT64 && n < last
    requires AlignUp(base, Pow2(bits)) + last * Pow2(bits) == FirstBeyond(length, bits, base, limit)
    ensures !StopsAt(Nth(bits, base, n), length, limit) && LiesIn(Nth(bits, base, n), length, base, limit)
  {
    FirstAligned(base, bits);
    hide AlignUp, Pow2, Aligned, FirstBeyond, StopsAt;
    NthAligned(bits, base, n);
    OneMoreFits(n, last, Pow2(bits));
    TriedInside(length, bits, base, limit, AlignUp(base, Pow2(bits)) + n * Pow2(bits));
  }

  lemma StopsAtWrapped(x: nat, length: nat, limit: nat)
    ensures StopsAt(Wrap64(x), length, limit) <==> StopsAt(x, length, limit)
  {
    WrapSmall(Wrap64(x));
  }

  /** From base 0 the addresses come round again after the last aligned one. */
  lemma RoundAgain(length: u64, bits: nat, limit: u64, n: nat)
    requires bits < 64 && 0 < limit < MAX_UINT64 && FirstBeyond(length, bits, 0, limit) == TWO_64
    ensures !StopsAt(Nth(bits, 0, n), length, limit)
  {
    hide AlignUp, Pow2, FirstBeyond, StopsAt;
    NthAligned(bits, 0, n);
    TopIsAligned(bits);
    var x, a := AlignUp(0, Pow2(bits)) + n * Pow2(bits), Pow2(bits);
    WrappedModulo(x, a);
    TriedInside(length, bits, 0, limit, Wrap64(x));
  }

  lemma WrappedModulo(x: nat, a: nat)
    requires a > 0 && TWO_64 % a == 0
    ensures Wrap64(x) % a == x % a
  {
    var k, q := x / TWO_64, TWO_64 / a;
    assert TWO_64 == q * a;
    assert x == k * TWO_64 + Wrap64(x);
    var w := Wrap64(x);
    QuotientBounds(w, a);
    assert k * TWO_64 == a * (k * q);
    assert a * (k * q) + a * (w / a) == a * (k * q + w / a);
    DivisionIsUnique(x, a, k * q + w / a, w % a);
  }

  /** While every place is refused, the search of a window that ends before 2^64 tries
      no address outside the window, and ends, if and only if it stops at the first
      address behind the window; from a base other than 0 that is also what decides
      whether it stays inside. */
  lemma StaysIffStops(length: u64, bits: nat, base: u64, limit: u64)
    requires bits < 64 && base < limit < MAX_UINT64
    ensures StaysInside(length, bits, base, limit) && GivesUp(length, bits, base, limit) <==> Stops(length, bits, base, limit)
    ensures 0 < base ==> (StaysInside(length, bits, base, limit) <==> Stops(length, bits, base, limit))
  {
    hide AlignUp, Pow2, Aligned, FirstBeyond, StopsAt, LiesIn;
    var f := FirstBeyond(length, bits, base, limit);
    FirstBeyondIs(length, bits, base, limit);
    BeyondIsBelowTop(length, bits, base, limit);
    var last := AlignedIsNth(bits, base, f);
    StopsAtWrapped(f, length, limit);
    forall n: nat | n < last
      ensures !StopsAt(Nth(bits, base, n), length, limit) && LiesIn(Nth(bits, base, n), length, base, limit)
    {
      TriesAllBefore(length, bits, base, limit, last, n);
    }
    if Stops(length, bits, base, limit) {
      assert StopsAt(Nth(bits, base, last), length, limit);
      assert !Tries(length, bits, base, limit, last);
    } else {
      assert Tries(length, bits, base, limit, last);
      LeavesOrCirculates(length, bits, base, limit);
    }
  }

  lemma LeavesOrCirculates(length: u64, bits: nat, base: u64, limit: u64)
    requires bits < 64 && base < limit < MAX_UINT64
    ensures var f := FirstBeyond(length, bits, base, limit);
            || !LiesIn(Wrap64(f), length, base, limit)
            || (base == 0 && !GivesUp(length, bits, base, limit))
  {
    hide AlignUp, Pow2, Aligned, FirstBeyond, StopsAt;
    var f := FirstBeyond(length, bits, base, limit);
    FirstBeyondIs(length, bits, base, limit);
    BeyondIsBelowTop(length, bits, base, limit);
    if f < TWO_64 {
      WrapSmall(f);
    } else if base == 0 {
      forall n: nat ensures !StopsAt(Nth(bits, 0, n), length, limit) {
        RoundAgain(length, bits, limit, n);
      }
    }
  }

  lemma OneMoreTry(length: nat, bits: nat, base: nat, limit: nat, n: nat)
    requires !StopsAt(Nth(bits, base, n), length, limit) && (n > 0 ==> Tries(length, bits, base, limit, n - 1))
    ensures Tries(length, bits, base, limit, n)
  {}

  lemma SumWraps(x: u64, length: u64)
    ensures Wrap64(x) == x
    ensures Wrap64(Wrap64(x) + length) == if x + length < TWO_64 then x + length else x + length - TWO_64
  {
    WrapSmall(x);
    if x + length < TWO_64 {
      WrapSmall(x + length);
    } else {
      WrapsOnce(x + length);
    }
  }

  lemma AlignUpIs(value: nat, a: nat, q: nat)
    requires a > 0 && value <= q * a < value + a
    ensures AlignUp(value, a) == q * a
  {
    AlignUpIsNext(value, a);
    MultipleModulo(q, a);
    hide AlignUp;
    var next := AlignUp(value, a);
    if next <= q * a {
      AlignedGap(next, q * a, a);
    } else {
      AlignedGap(q * a, next, a);
    }
  }

  /** A search that goes on at address 0, below its window. */
  lemma LeavesDownwards()
    ensures var base: u64, limit: u64 := TWO_64 - 0x2000, MAX_UINT64 - 1;
            !Stops(0x800, 12, base, limit) && Tries(0x800, 12, base, limit, 2) && Nth(12, base, 2) == 0
  {
    Pow2Of16();
    AlignUpIs(TWO_64 - 0x2000, 0x1000, TWO_64 / 0x1000 - 2);
    AlignUpIs(TWO_64 - 0x800, 0x1000, TWO_64 / 0x1000);
    WrapsOnce(TWO_64);
    SumWraps(TWO_64 - 0x2000, 0x800);
    SumWraps(TWO_64 - 0x1000, 0x800);
    SumWraps(0, 0x800);
    WrapSmall(MAX_UINT64);
    hide Pow2, AlignUp, Wrap64;
    var base: u64, limit: u64 := TWO_64 - 0x2000, MAX_UINT64 - 1;
    assert Nth(12, base, 0) == base && Nth(12, base, 1) == TWO_64 - 0x1000 && Nth(12, base, 2) == 0;
    OneMoreTry(0x800, 12, base, limit, 0);
    OneMoreTry(0x800, 12, base, limit, 1);
    OneMoreTry(0x800, 12, base, limit, 2);
  }

  /** A search whose last place reaches up to 2^64, out of a window that ends earlier. */
  lemma LeavesUpwards()
    ensures var base: u64, limit: u64 := TWO_64 - 6 * TWO_32, TWO_64 - TWO_32 - 1;
            && !Stops(5 * TWO_32, 32, base, limit) && Tries(5 * TWO_32, 32, base, limit, 1)
            && base < Nth(32, base, 1) && Nth(32, base, 1) + 5 * TWO_32 > limit + 1
  {
    Pow2Of64();
    AlignUpIs(TWO_64 - 6 * TWO_32, TWO_32, TWO_32 - 6);
    AlignUpIs(TWO_64 - 6 * TWO_32 + 1, TWO_32, TWO_32 - 5);
    SumWraps(TWO_64 - 6 * TWO_32, 5 * TWO_32);
    SumWraps(TWO_64 - 5 * TWO_32, 5 * TWO_32);
    WrapSmall(TWO_64 - TWO_32);
    hide Pow2, AlignUp, Wrap64;
    var base: u64, limit: u64 := TWO_64 - 6 * TWO_32, TWO_64 - TWO_32 - 1;
    assert Nth(32, base, 0) == base && Nth(32, base, 1) == TWO_64 - 5 * TWO_32;
    OneMoreTry(5 * TWO_32, 32, base, limit, 0);
    OneMoreTry(5 * TWO_32, 32, base, limit, 1);
  }

  /** A search that stops, although its window ends within one step of 2^64. */
  lemma StopsNearTheTop()
    ensures Stops(0xC000_0000, 32, TWO_64 - 2 * TWO_32, TWO_64 - 0x8000_0000 - 1)
  {
    Pow2Of64();
    AlignUpIs(TWO_64 - 0x1_4000_0000 + 1, TWO_32, TWO_32 - 1);
    SumWraps(TWO_64 - TWO_32, 0xC000_0000);
    WrapSmall(TWO_64 - 0x8000_0000);
    hide Pow2, AlignUp, Wrap64;
  }

  /** The address behind an address just refused, in a window that ends before 2^64. */
  lemma NextInWindow(free: set<nat>, x: nat, length: nat, bits: nat, base: nat, limit: nat)
    requires Stops(length, bits, base, limit) && base < limit < MAX_UINT64
    requires base <= x <= FirstBeyond(length, bits, base, limit) && Aligned(x, bits) && !StopsAt(x, length, limit)
    ensures Wrap64(x) == x && x + length <= limit + 1 && x + Pow2(bits) <= FirstBeyond(length, bits, base, limit)
    ensures Aligned(x + Pow2(bits), bits)
    ensures NoneBelow(free, x, length, bits, base, limit) && !Candidate(free, x, length, bits, base, limit) ==>
              NoneBelow(free, x + Pow2(bits), length, bits, base, limit)
  {
    hide AlignUp, Pow2, Aligned, NoneBelow, Candidate, FirstBeyond, StopsAt, Wrap64;
    FirstBeyondIs(length, bits, base, limit);
    AlignedBelow(x, FirstBeyond(length, bits, base, limit), bits);
    WrapSmall(x);
    NextAligned(x, bits);
    if NoneBelow(free, x, length, bits, base, limit) && !Candidate(free, x, length, bits, base, limit) {
      NoneBelowNext(free, x, length, bits, base, limit);
    }
  }

  /** The search of a window that ends with the address space: one place is tried at most,
      the first aligned one, and only if the request fills the rest exactly. */
  lemma LastPlace(length: u64, bits: nat, base: u64)
    requires bits < 64 && !StopsAt(AlignUp(base, Pow2(bits)), length, MAX_UINT64)
    ensures 0 < length ==> AlignUp(base, Pow2(bits)) + length == TWO_64
    ensures StopsAt(AlignUp(base, Pow2(bits)) + Pow2(bits), length, MAX_UINT64)
  {
    hide AlignUp, Pow2;
    var x, a := AlignUp(base, Pow2(bits)), Pow2(bits);
    FirstAligned(base, bits);
    TopIsAligned(bits);
    if x > TWO_64 {
      AlignedBelow(TWO_64, x, bits);
    }
    StepFromEnd(x, length, a);
  }

  /** The loop test of the last window holds for an end of 0 only, and then not one step on. */
  lemma StepFromEnd(x: nat, length: u64, a: nat)
    requires x <= TWO_64 && 0 < a < TWO_64 && !StopsAt(x, length, MAX_UINT64)
    ensures 0 < length ==> x + length == TWO_64
    ensures StopsAt(x + a, length, MAX_UINT64)
  {
    WrapStep(x + a, length);
    if x + length == TWO_64 {
      WrapsOnce(x + length + a);
    }
  }

  lemma NoneAboveLast(free: set<nat>, f: nat, length: nat, bits: nat, base: nat, limit: nat)
    requires NoneBelow(free, f, length, bits, base, limit) && f == FirstBeyond(length, bits, base, limit)
    ensures None(free, length, bits, base, limit)
  {
    FirstBeyondIs(length, bits, base, limit);
    NoneAbove(free, f, length, bits, base, limit);
  }

  /** The request fills the address space from its first aligned place on, and may have it. */
  predicate Fills(free: set<nat>, length: nat, bits: nat, base: nat) {
    && AlignUp(base, Pow2(bits)) + length == TWO_64
    && Candidate(free, AlignUp(base, Pow2(bits)), length, bits, base, MAX_UINT64)
  }

  /** Asking for the place at x, where the loop test holds, asks for a candidate. */
  lemma ProbeAt(free: set<nat>, x: nat, length: u64, bits: nat, base: nat, limit: u64)
    requires bits < 64 && base < limit && base <= x && Aligned(x, bits) && !StopsAt(x, length, limit)
    requires if limit == MAX_UINT64 then x == AlignUp(base, Pow2(bits))
             else Stops(length, bits, base, limit) && x <= FirstBeyond(length, bits, base, limit)
    ensures Aligned(x + Pow2(bits), bits)
    ensures Candidate(free, x, length, bits, base, limit) <==> 0 < length && Interval(Wrap64(x), length) <= free
    ensures 0 < length ==> Wrap64(x) == x < MAX_UINT64
    ensures limit != MAX_UINT64 ==> Wrap64(x) == x && x + Pow2(bits) <= FirstBeyond(length, bits, base, limit)
    ensures limit != MAX_UINT64 && NoneBelow(free, x, length, bits, base, limit)
            && !Candidate(free, x, length, bits, base, limit) ==>
              NoneBelow(free, x + Pow2(bits), length, bits, base, limit)
    ensures limit == MAX_UINT64 ==>
              && StopsAt(x + Pow2(bits), length, limit)
              && (Fills(free, length, bits, base) <==> Candidate(free, x, length, bits, base, limit))
  {
    hide AlignUp, Pow2, Aligned, NoneBelow, FirstBeyond, Interval, StopsAt, Stops, Wrap64;
    NextAligned(x, bits);
    if 0 < length && x < TWO_64 {
      WrapSmall(x);
    }
    if limit == MAX_UINT64 {
      LastPlace(length, bits, base);
      NotTheLast(base, bits);
    } else {
      NextInWindow(free, x, length, bits, base, limit);
    }
  }

  /** The first aligned address is not the very last one. */
  lemma NotTheLast(base: nat, bits: nat)
    requires base < MAX_UINT64 && bits < 64
    ensures AlignUp(base, Pow2(bits)) != MAX_UINT64
  {
    FirstAligned(base, bits);
    TopIsAligned(bits);
    hide AlignUp, Pow2;
    if AlignUp(base, Pow2(bits)) == MAX_UINT64 {
      AlignedBelow(MAX_UINT64, TWO_64, bits);
    }
  }

  lemma FirstIsBefore(length: nat, bits: nat, base: nat, limit: nat)
    ensures AlignUp(base, Pow2(bits)) <= FirstBeyond(length, bits, base, limit)
  {
    FirstAligned(base, bits);
    FirstBeyondIs(length, bits, base, limit);
    hide AlignUp, Pow2;
    if FirstBeyond(length, bits, base, limit) < AlignUp(base, Pow2(bits)) {
      AlignedBelow(FirstBeyond(length, bits, base, limit), AlignUp(base, Pow2(bits)), bits);
    }
  }

  /** Where the loop test fails, nothing is left to try. */
  lemma SearchedAll(free: set<nat>, x: nat, length: u64, bits: nat, base: nat, limit: u64)
    requires StopsAt(x, length, limit) && Aligned(x, bits) && NoneBelow(free, x, length, bits, base, limit)
    requires base < limit && base <= x
    requires limit == MAX_UINT64 ==> x == AlignUp(base, Pow2(bits))
    requires limit != MAX_UINT64 ==> x <= FirstBeyond(length, bits, base, limit)
    ensures limit != MAX_UINT64 ==> None(free, length, bits, base, limit)
    ensures limit == MAX_UINT64 ==> !Fills(free, length, bits, base)
  {
    FirstBeyondIs(length, bits, base, limit);
    hide AlignUp, Pow2, Aligned, FirstBeyond, Interval, NoneBelow, None;
    if limit != MAX_UINT64 {
      NoneAboveLast(free, x, length, bits, base, limit);
    }
  }

  /** AllocateResource: the lowest candidate in the window, or MAX_UINT64 if there is
      none.  All arithmetic is 64-bit.  In a window that ends with the address space only
      a request that fills it from its first aligned address on is tried; the window of
      a disabled aperture, which starts at 0, has no such request. */
  method AllocateResource(space: Space, length: u64, bitsOfAlignment: nat, baseAddress: u64, limit: u64)
    returns (r: u64)
    requires bitsOfAlignment < 64 && Stops(length, bitsOfAlignment, baseAddress, limit)
    modifies space
    ensures r != MAX_UINT64 ==>
              && baseAddress < limit
              && Candidate(old(space.free), r, length, bitsOfAlignment, baseAddress, limit)
              && NoneBelow(old(space.free), r, length, bitsOfAlignment, baseAddress, limit)
    ensures r == MAX_UINT64 && baseAddress < limit != MAX_UINT64 ==>
              None(old(space.free), length, bitsOfAlignment, baseAddress, limit)
    ensures limit == MAX_UINT64 ==>
              var first := AlignUp(baseAddress, Pow2(bitsOfAlignment));
              r == if baseAddress < limit && first + length == TWO_64
                      && Candidate(old(space.free), first, length, bitsOfAlignment, baseAddress, limit)
                   then first else MAX_UINT64
    ensures r == MAX_UINT64 ==> space.free == old(space.free) && space.owned == old(space.owned)
    ensures r != MAX_UINT64 ==>
              && space.free == old(space.free) - Interval(r, length)
              && space.owned == old(space.owned) + Interval(r, length)
  {
    hide Interval, NoneBelow, None, Pow2, AlignUp, Aligned, Candidate, FirstBeyond, Stops, Wrap64;
    var a := Pow2(bitsOfAlignment);
    if baseAddress < limit {
      var b := Wrap64(AlignUp(baseAddress, a));
      ghost var x, f, first := AlignUp(baseAddress, a), FirstBeyond(length, bitsOfAlignment, baseAddress, limit), true;
      FirstAligned(baseAddress, bitsOfAlignment);
      NoneBelowAlignUp(space.free, length, bitsOfAlignment, baseAddress, limit);
      FirstIsBefore(length, bitsOfAlignment, baseAddress, limit);
      while Wrap64(b + length) <= Wrap64(limit + 1)
        invariant b == Wrap64(x) && baseAddress <= x && Aligned(x, bitsOfAlignment)
        invariant space.free == old(space.free) && space.owned == old(space.owned)
        invariant limit != MAX_UINT64 ==> x <= f && NoneBelow(space.free, x, length, bitsOfAlignment, baseAddress, limit)
        invariant limit == MAX_UINT64 ==>
                    if first then x == AlignUp(baseAddress, a) && NoneBelow(space.free, x, length, bitsOfAlignment, baseAddress, limit)
                    else StopsAt(x, length, limit) && !Fills(space.free, length, bitsOfAlignment, baseAddress)
        decreases if limit == MAX_UINT64 then (if first then 1 else 0) else f - x
      {
        ProbeAt(space.free, x, length, bitsOfAlignment, baseAddress, limit);
        var ok := space.AllocateAddress(bitsOfAlignment, length, b);
        if ok {
          return b;
        }
        WrapStep(x, a);
        b := Wrap64(b + a);
        x, first := x + a, false;
      }
      if limit != MAX_UINT64 || first {
        SearchedAll(space.free, x, length, bitsOfAlignment, baseAddress, limit);
      }
    }
    return MAX_UINT64;
  }
}
