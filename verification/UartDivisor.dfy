/**
  Choice of the UART divisor (VerifyUartParameters in PciSioSerialDxe/SerialIo.c).
 */
module UartDivisor {
  import opened Uefi
  import opened Arithmetic

  /** EFI_PARITY_TYPE and EFI_STOP_BITS_TYPE by their numeric values. */
  const NO_PARITY: nat := 1
  const SPACE_PARITY: nat := 5
  const ONE_STOP_BIT: nat := 1
  const ONE_FIVE_STOP_BITS: nat := 2
  const TWO_STOP_BITS: nat := 3

  predicate ValidFormat(dataBits: u8, parity: nat, stopBits: nat) {
    && 5 <= dataBits <= 8
    && NO_PARITY <= parity <= SPACE_PARITY
    && ONE_STOP_BIT <= stopBits <= TWO_STOP_BITS
    && !(dataBits == 5 && stopBits == TWO_STOP_BITS)
    && !(6 <= dataBits <= 8 && stopBits == ONE_FIVE_STOP_BITS)
  }

  /** Five data bits go with one or one and a half stop bits, six to eight with one or two,
      and every parity with either. */
  lemma FormatMeans(dataBits: u8, parity: nat, stopBits: nat)
    ensures ValidFormat(dataBits, parity, stopBits) <==>
            && (parity == 1 || parity == 2 || parity == 3 || parity == 4 || parity == 5)
            && (|| (dataBits == 5 && (stopBits == 1 || stopBits == 2))
                || (dataBits == 6 && (stopBits == 1 || stopBits == 3))
                || (dataBits == 7 && (stopBits == 1 || stopBits == 3))
                || (dataBits == 8 && (stopBits == 1 || stopBits == 3)))
  {}

  /** FALSE, TRUE without outputs, or TRUE with a divisor and the rate it stands for. */
  datatype Verdict = Rejected | Unchecked | Accepted(divisor: u64, actualBaudRate: u64)

  /** What is stored for the caller. */
  datatype Report = NotReported | Reported(rate: u64)

  /** The integer nearest to clock / step, ties up, but at least 1. */
  function Nearest(clock: nat, step: nat): nat
    requires step > 0
  {
    var n := clock / step + (if 2 * (clock % step) >= step then 1 else 0);
    if n == 0 then 1 else n
  }

  /** clock / step rounded up. */
  function Ceiling(clock: nat, step: nat): nat
    requires step > 0
  {
    clock / step + (if clock % step > 0 then 1 else 0)
  }

  function Distance(a: nat, b: nat): nat { if a <= b then b - a else a - b }

  /** No other divisor is closer. */
  lemma NearestIsNearest(clock: nat, step: nat, other: nat)
    requires step > 0 && other > 0
    ensures Distance(step * Nearest(clock, step), clock) <= Distance(step * other, clock)
  {
    var q, r, n := clock / step, clock % step, Nearest(clock, step);
    assert clock == q * step + r;
    if other <= q {
      MulMonotonic(other, q, step);
    } else {
      MulMonotonic(q + 1, other, step);
    }
    assert step * (q + 1) == step * q + step;
    assert n == q || n == q + 1;
    assert step * q == q * step;
  }

  /** It is at most half a step off, and a quotient half way between two integers goes up;
      only a clock of less than half a step has no such divisor, and gets 1. */
  lemma NearestRoundsUp(clock: nat, step: nat)
    requires step > 0
    ensures var n := Nearest(clock, step);
            && n >= 1 && 2 * clock < 2 * (step * n) + step
            && (2 * clock >= step ==> 2 * (step * n) <= 2 * clock + step)
            && (2 * clock < step ==> n == 1)
  {
    var q, r := clock / step, clock % step;
    assert clock == step * q + r;
    assert step * (q + 1) == step * q + step;
    if q > 0 {
      MulMonotonic(1, q, step);
    }
  }

  /** The ceiling is the smallest divisor whose exact rate does not exceed the request. */
  lemma CeilingIsLeast(clock: nat, step: nat, other: nat)
    requires step > 0
    ensures clock <= step * Ceiling(clock, step)
    ensures other < Ceiling(clock, step) ==> step * other < clock
  {
    var q, r := clock / step, clock % step;
    assert clock == step * q + r;
    assert step * (q + 1) == step * q + step;
    if other < Ceiling(clock, step) {
      MulMonotonic(other + 1, Ceiling(clock, step), step);
      assert step * (other + 1) == step * other + step;
    }
  }

  function Quotient(x: nat, d: nat): nat
    requires d > 0
  {
    x / d
  }

  /** The rate a divisor yields, as the driver computes it. */
  function Rate(clock: nat, divisor: nat): nat
    requires divisor > 0
  {
    Quotient(clock, 16 * divisor)
  }

  /** The rate is what sixteen times the divisor goes into the clock. */
  lemma RateIsQuotient(clock: nat, divisor: nat)
    requires divisor > 0
    ensures 16 * divisor * Rate(clock, divisor) <= clock < 16 * divisor * Rate(clock, divisor) + 16 * divisor
  {
    QuotientBounds(clock, 16 * divisor);
  }

  /** Whether a divisor is too large or too small shows in its rate. */
  lemma RateTells(clock: nat, baudRate: nat, divisor: nat)
    requires divisor > 0 && baudRate > 0
    ensures Rate(clock, divisor) < baudRate ==> clock < 16 * baudRate * divisor
    ensures Rate(clock, divisor) > baudRate ==> clock > 16 * baudRate * divisor
    ensures clock <= 16 * baudRate * divisor ==> Rate(clock, divisor) <= baudRate
  {
    assert baudRate * (16 * divisor) == 16 * baudRate * divisor;
    QuotientTells(clock, 16 * divisor, baudRate);
    QuotientTells(clock, 16 * divisor, baudRate + 1);
    assert (baudRate + 1) * (16 * divisor) == 16 * baudRate * divisor + 16 * divisor;
  }

  /** The nearest divisor is the ceiling, or one less when it is too small. */
  lemma NearestOrNext(clock: nat, step: nat)
    requires step > 0 && clock > 0
    ensures clock <= step * Nearest(clock, step) ==> Nearest(clock, step) == Ceiling(clock, step)
    ensures clock > step * Nearest(clock, step) ==> Nearest(clock, step) + 1 == Ceiling(clock, step)
  {
    var q, r := clock / step, clock % step;
    assert clock == step * q + r;
    assert step * (q + 1) == step * q + step;
  }

  /** The requested rate as a percentage of the computed one. */
  function Percent(baudRate: nat, computed: nat): nat
    requires computed > 0
  {
    baudRate * 100 / computed
  }

  /** Below 2^57 the 64-bit products do not wrap. */
  lemma NoOverflow(baudRate: nat)
    requires baudRate < 0x200_0000_0000_0000
    ensures Wrap64(baudRate * 100) == baudRate * 100 && Wrap64(16 * baudRate) == 16 * baudRate
  {}

  /** Within four percent. */
  predicate Close(baudRate: nat, computed: nat)
    requires computed > 0
  {
    96 <= Percent(baudRate, computed) <= 104
  }

  /** Close means that a hundred times the request is at least 96 times the rate and less
      than 105 times the rate. */
  lemma CloseMeans(baudRate: nat, computed: nat)
    requires computed > 0
    ensures Close(baudRate, computed) <==> 96 * computed <= 100 * baudRate < 105 * computed
  {
    QuotientTells(baudRate * 100, computed, 96);
    QuotientTells(baudRate * 100, computed, 105);
  }

  lemma FarIsOneSided(baudRate: nat, computed: nat)
    requires computed > 0 && !Close(baudRate, computed)
    ensures computed != baudRate
  {
    QuotientTells(baudRate * 100, computed, 100);
    QuotientTells(baudRate * 100, computed, 101);
  }

  /** The rate of the nearest divisor is close enough. */
  predicate NearestIsClose(clock: nat, baudRate: nat)
    requires baudRate > 0
  {
    var rate := Rate(clock, Nearest(clock, 16 * baudRate));
    rate > 0 && Close(baudRate, rate)
  }

  /** A rate that is served by a lower one, more than four percent off the nearest. */
  predicate Degraded(clock: nat, baudRate: nat)
    requires baudRate > 0
  {
    var nearest, ceiling := Nearest(clock, 16 * baudRate), Ceiling(clock, 16 * baudRate);
    && nearest <= MAX_UINT16 && Rate(clock, nearest) > 0 && !NearestIsClose(clock, baudRate)
    && 1 <= ceiling <= MAX_UINT16 && Rate(clock, ceiling) > 0
  }

  /** When TRUE is announced: such a rate is acceptable only to a caller who gives a place
      for the rate in its stead. */
  predicate Announced(clock: nat, baudRate: nat, hasActual: bool)
    requires baudRate > 0
  {
    var nearest := Nearest(clock, 16 * baudRate);
    || (nearest <= MAX_UINT16 && Rate(clock, nearest) > 0 && NearestIsClose(clock, baudRate))
    || (hasActual && Degraded(clock, baudRate))
  }

  /** With the usual clock, a request for 100000 baud is served with 57600. */
  lemma DegradedRateExists()
    ensures Degraded(1_843_200, 100_000) && Rate(1_843_200, Ceiling(1_843_200, 1_600_000)) == 57_600
  {}

  /** VerifyUartParameters.  The nearest divisor is taken when its rate is within
      four percent and the request is then reported as met exactly; otherwise the
      divisor is the ceiling, so that the reported rate never exceeds the request.  The
      caller may give no place for the rate, which changes nothing but that none is
      reported. */
  method VerifyUartParameters(clockRate: u32, baudRate: u64, dataBits: u8, parity: nat, stopBits: nat, hasActual: bool)
    returns (v: Verdict, reported: Report)
    requires 0 < baudRate < 0x200_0000_0000_0000
    ensures !ValidFormat(dataBits, parity, stopBits) ==> v == Rejected
    ensures ValidFormat(dataBits, parity, stopBits) && clockRate == 0 ==> v == Unchecked
    ensures ValidFormat(dataBits, parity, stopBits) && clockRate > 0 ==>
              var nearest := Nearest(clockRate, 16 * baudRate);
              var ceiling := Ceiling(clockRate, 16 * baudRate);
              && (v.Accepted? <==>
                    && nearest <= MAX_UINT16 && Rate(clockRate, nearest) > 0
                    && (NearestIsClose(clockRate, baudRate) ||
                        (1 <= ceiling <= MAX_UINT16 && Rate(clockRate, ceiling) > 0)))
              && (!v.Accepted? ==> v == Rejected)
              && (v.Accepted? && NearestIsClose(clockRate, baudRate) ==>
                    v.divisor == nearest && v.actualBaudRate == baudRate)
              && (v.Accepted? && !NearestIsClose(clockRate, baudRate) ==>
                    v.divisor == ceiling >= 1 && v.actualBaudRate == Rate(clockRate, ceiling))
    ensures v.Accepted? ==> 1 <= v.divisor <= MAX_UINT16 && 1 <= v.actualBaudRate <= baudRate
    ensures reported == if hasActual && v.Accepted? then Reported(v.actualBaudRate) else NotReported
    ensures ValidFormat(dataBits, parity, stopBits) && clockRate > 0 ==>
              ((v.Accepted? <==> Announced(clockRate, baudRate, hasActual)) <==> hasActual || !Degraded(clockRate, baudRate))
  {
    reported := NotReported;
    if !ValidFormat(dataBits, parity, stopBits) {
      return Rejected, reported;
    }
    if clockRate == 0 {
      return Unchecked, reported;
    }
    hide Nearest, Ceiling, Rate, Percent, Close;
    var divisor := Round(clockRate, baudRate);
    if divisor > MAX_UINT16 {
      return Rejected, reported;
    }
    if divisor == 0 {
      divisor := 1;
    }
    v := ChooseDivisor(clockRate, baudRate, divisor);
    if hasActual && v.Accepted? {
      reported := Reported(v.actualBaudRate);
    }
  }

  /** The clock rate divided by sixteen times the baud rate, rounded. */
  method Round(clockRate: u32, baudRate: u64) returns (divisor: nat)
    requires 0 < baudRate < 0x200_0000_0000_0000
    ensures Nearest(clockRate, 16 * baudRate) == if divisor == 0 then 1 else divisor
  {
    var step := Wrap64(16 * baudRate);
    assert step == 16 * baudRate;
    divisor := clockRate / step;
    var remainder := clockRate % step;
    if remainder >= Wrap64(8 * baudRate) {
      divisor := divisor + 1;
    }
  }

  /** The part of VerifyUartParameters behind the choice of the nearest divisor. */
  method ChooseDivisor(clockRate: u32, baudRate: u64, nearest: nat) returns (v: Verdict)
    requires 0 < baudRate < 0x200_0000_0000_0000 && clockRate > 0
    requires 1 <= nearest <= MAX_UINT16 && nearest == Nearest(clockRate, 16 * baudRate)
    ensures var ceiling := Ceiling(clockRate, 16 * baudRate);
            && (v.Accepted? <==>
                  && Rate(clockRate, nearest) > 0
                  && (NearestIsClose(clockRate, baudRate) ||
                      (1 <= ceiling <= MAX_UINT16 && Rate(clockRate, ceiling) > 0)))
            && (!v.Accepted? ==> v == Rejected)
            && (v.Accepted? && NearestIsClose(clockRate, baudRate) ==>
                  v.divisor == nearest && v.actualBaudRate == baudRate)
            && (v.Accepted? && !NearestIsClose(clockRate, baudRate) ==>
                  v.divisor == ceiling >= 1 && v.actualBaudRate == Rate(clockRate, ceiling))
    ensures v.Accepted? ==> 1 <= v.divisor <= MAX_UINT16 && 1 <= v.actualBaudRate <= baudRate
  {
    NearestOrNext(clockRate, 16 * baudRate);
    RateTells(clockRate, baudRate, nearest);
    CeilingIsLeast(clockRate, 16 * baudRate, 0);
    hide Nearest, Ceiling, Rate, Wrap64;
    var computed := Rate(clockRate, nearest);
    if computed == 0 {
      return Rejected;
    }
    NoOverflow(baudRate);
    var percent := Wrap64(baudRate * 100) / computed;
    if 96 <= percent <= 104 {
      return Accepted(nearest, baudRate);
    }
    FarIsOneSided(baudRate, computed);
    hide Percent;
    if computed < baudRate {
      return Accepted(nearest, computed);
    }
    if nearest == MAX_UINT16 {
      return Rejected;
    }
    var next := nearest + 1;
    RateTells(clockRate, baudRate, next);
    computed := Rate(clockRate, next);
    if computed == 0 {
      return Rejected;
    }
    return Accepted(next, computed);
  }
}
