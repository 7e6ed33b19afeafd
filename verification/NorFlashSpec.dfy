/**
  What a block write leaves in the flash, as a function of the old flash, the
  old contents of the driver's shadow buffer and the caller's data.  The
  method in NorFlash.dfy is proved to compute exactly this; here the result
  is compared with the plain "replace these bytes" a caller expects.
 */
module NorFlashSpec {
  import opened NorFlashChip

  const BOUNDARY: nat := 128

  /** Offset & ~BOUNDARY_OF_32_WORDS. */
  function WindowStart(off: nat): nat { off - off % BOUNDARY }

  /** (NumBytes | BOUNDARY_OF_32_WORDS) + 1. */
  function Widened(n: nat): nat { n - n % BOUNDARY + BOUNDARY }

  /** The size test that selects the path without an erase. */
  predicate TriesInPlace(off: nat, n: nat) { n + off % BOUNDARY <= 2 * BOUNDARY }

  /** The old data read back covers every byte the write may program. */
  predicate Covered(off: nat, n: nat) { off % BOUNDARY + n <= BOUNDARY || BOUNDARY <= n }

  /** Where the volume lies in the flash. */
  datatype Geometry = Geometry(startLba: nat, blockSize: nat, lastBlock: nat, regionBase: nat, size: nat)

  /** A write into one existing block of the flash; for a short one, the old data around
      it can be read and programmed. */
  predicate CanWrite(g: Geometry, block: nat, offset: nat, n: nat) {
    && offset < g.blockSize && 0 < n && offset + n <= g.blockSize && block <= g.lastBlock
    && (TriesInPlace(offset, n) ==>
          && g.regionBase % BOUNDARY == 0
          && Span(block, g.blockSize) + WindowStart(offset) + Widened(n) <= g.size)
  }

  /** The shadow buffer after the old data was read into its front. */
  function Refilled(mem: seq<bv8>, shadow: seq<bv8>, at: nat, n: nat): (r: seq<bv8>)
    requires at + n <= |mem| && n <= |shadow|
    ensures |r| == |shadow|
  {
    mem[at..at + n] + shadow[n..]
  }

  /** No bit has to go from 0 to 1. */
  predicate OnlyClears(buffer: seq<bv8>, at: nat, data: seq<bv8>)
    requires at + |data| <= |buffer|
  {
    forall i :: 0 <= i < |data| ==> !buffer[at + i] & data[i] == 0
  }

  /** One or two 128-byte program operations out of the patched buffer. */
  function ProgramWindows(mem: seq<bv8>, at: nat, buffer: seq<bv8>, two: bool): (r: seq<bv8>)
    requires 2 * BOUNDARY <= |buffer|
    ensures |r| == |mem|
  {
    var first := Programmed(mem, at, buffer[..BOUNDARY]);
    if two then Programmed(first, at + BOUNDARY, buffer[BOUNDARY..2 * BOUNDARY]) else first
  }

  ghost predicate Fits(mem: seq<bv8>, shadow: seq<bv8>, blk: nat, off: nat, n: nat) {
    && 0 < n && 3 * BOUNDARY <= |shadow|
    && off + n <= |shadow|
    && blk + |shadow| <= |mem|
    && |shadow| % BOUNDARY == 0
    && (TriesInPlace(off, n) ==> blk + WindowStart(off) + Widened(n) <= |mem|)
  }

  function WriteResult(mem: seq<bv8>, shadow: seq<bv8>, blk: nat, off: nat, data: seq<bv8>): (r: seq<bv8>)
    requires Fits(mem, shadow, blk, off, |data|)
    ensures |r| == |mem|
  {
    var d := off % BOUNDARY;
    if TriesInPlace(off, |data|) then
      var prior := Refilled(mem, shadow, blk + WindowStart(off), Widened(|data|));
      if OnlyClears(prior, d, data) then
        ProgramWindows(mem, blk + WindowStart(off), Overwritten(prior, d, data), d + |data| > BOUNDARY)
      else Overwritten(mem, blk + off, data)
    else Overwritten(mem, blk + off, data)
  }

  /** The write takes the path without an erase: it is short, and the old data as read
      back into the shadow buffer only loses bits. */
  predicate TakesInPlace(mem: seq<bv8>, shadow: seq<bv8>, blk: nat, off: nat, data: seq<bv8>) {
    && TriesInPlace(off, |data|) && blk + WindowStart(off) + Widened(|data|) <= |mem|
    && Widened(|data|) <= |shadow| && off % BOUNDARY + |data| <= |shadow|
    && OnlyClears(Refilled(mem, shadow, blk + WindowStart(off), Widened(|data|)), off % BOUNDARY, data)
  }

  /** The block holds nothing but ones after the write, and starts where chunks can. */
  predicate Skips(g: Geometry, mem: seq<bv8>, block: nat, off: nat, data: seq<bv8>) {
    var at := Span(block, g.blockSize);
    var r := Overwritten(mem, at + off, data);
    && g.regionBase % BOUNDARY == 0 && g.blockSize % BOUNDARY == 0
    && forall i :: at <= i < at + g.blockSize && i < |r| ==> r[i] == 0xFF
  }

  /** The addressed bytes of the flash only lose bits. */
  predicate OnlyClearsFlash(mem: seq<bv8>, at: nat, data: seq<bv8>) {
    at + |data| <= |mem| && forall i :: 0 <= i < |data| ==> !mem[at + i] & data[i] == 0
  }

  lemma ClearsAlike(mem: seq<bv8>, shadow: seq<bv8>, at: nat, n: nat, d: nat, data: seq<bv8>)
    requires at + n <= |mem| && n <= |shadow| && d + |data| <= n
    ensures OnlyClears(Refilled(mem, shadow, at, n), d, data) <==> OnlyClearsFlash(mem, at + d, data)
  {
    var prior := Refilled(mem, shadow, at, n);
    forall i | 0 <= i < |data| ensures !prior[d + i] & data[i] == 0 <==> !mem[at + d + i] & data[i] == 0 {
      assert prior[d + i] == mem[at + d + i];
    }
  }

  /** Under the guard the flash alone decides which path is taken. */
  lemma FlashDecidesPath(mem: seq<bv8>, shadow: seq<bv8>, blk: nat, off: nat, data: seq<bv8>)
    requires Fits(mem, shadow, blk, off, |data|) && Covered(off, |data|)
    ensures TakesInPlace(mem, shadow, blk, off, data)
            <==> TriesInPlace(off, |data|) && OnlyClearsFlash(mem, blk + off, data)
  {
    hide OnlyClears, Refilled, OnlyClearsFlash;
    if TriesInPlace(off, |data|) {
      ClearsAlike(mem, shadow, blk + WindowStart(off), Widened(|data|), off % BOUNDARY, data);
      assert blk + WindowStart(off) + off % BOUNDARY == blk + off;
    }
  }

  lemma InPlaceResult(mem: seq<bv8>, shadow: seq<bv8>, refilled: seq<bv8>, blk: nat, off: nat, data: seq<bv8>)
    requires Fits(mem, shadow, blk, off, |data|) && TriesInPlace(off, |data|)
    requires refilled == Refilled(mem, shadow, blk + WindowStart(off), Widened(|data|))
    ensures WriteResult(mem, shadow, blk, off, data)
            == if OnlyClears(refilled, off % BOUNDARY, data) then
                 ProgramWindows(mem, blk + WindowStart(off), Overwritten(refilled, off % BOUNDARY, data),
                                |data| + off % BOUNDARY > BOUNDARY)
               else Overwritten(mem, blk + off, data)
  {}

  lemma ProgrammedInside(mem: seq<bv8>, at: nat, data: seq<bv8>, i: nat)
    requires at <= i < at + |data| && i < |mem|
    ensures Programmed(mem, at, data)[i] == mem[i] & data[i - at]
  {}

  lemma ProgrammedOutside(mem: seq<bv8>, at: nat, data: seq<bv8>, i: nat)
    requires !(at <= i < at + |data|) && i < |mem|
    ensures Programmed(mem, at, data)[i] == mem[i]
  {}

  lemma LowWindowAt(mem: seq<bv8>, at: nat, buffer: seq<bv8>, two: bool, i: nat)
    requires 2 * BOUNDARY <= |buffer| && at <= i < at + BOUNDARY && i < |mem|
    ensures ProgramWindows(mem, at, buffer, two)[i] == mem[i] & buffer[i - at]
  {
    hide Programmed;
    var low, high := buffer[..BOUNDARY], buffer[BOUNDARY..2 * BOUNDARY];
    ProgrammedInside(mem, at, low, i);
    ProgrammedOutside(Programmed(mem, at, low), at + BOUNDARY, high, i);
  }

  lemma HighWindowAt(mem: seq<bv8>, at: nat, buffer: seq<bv8>, i: nat)
    requires 2 * BOUNDARY <= |buffer| && at + BOUNDARY <= i < at + 2 * BOUNDARY && i < |mem|
    ensures ProgramWindows(mem, at, buffer, true)[i] == mem[i] & buffer[i - at]
  {
    hide Programmed;
    var low, high := buffer[..BOUNDARY], buffer[BOUNDARY..2 * BOUNDARY];
    ProgrammedOutside(mem, at, low, i);
    ProgrammedInside(Programmed(mem, at, low), at + BOUNDARY, high, i);
  }

  lemma WindowsOutsideAt(mem: seq<bv8>, at: nat, buffer: seq<bv8>, two: bool, i: nat)
    requires 2 * BOUNDARY <= |buffer| && !(at <= i < at + (if two then 2 * BOUNDARY else BOUNDARY)) && i < |mem|
    ensures ProgramWindows(mem, at, buffer, two)[i] == mem[i]
  {
    hide Programmed;
    var low, high := buffer[..BOUNDARY], buffer[BOUNDARY..2 * BOUNDARY];
    ProgrammedOutside(mem, at, low, i);
    if two {
      ProgrammedOutside(Programmed(mem, at, low), at + BOUNDARY, high, i);
    }
  }

  lemma ClearingPrograms(x: bv8, y: bv8)
    ensures x & x == x
    ensures !x & y == 0 ==> x & y == y
  {}

  /** The old data covers the programmed windows, so programming changes
      nothing but the addressed bytes. */
  lemma {:induction false} InPlaceIsExact(mem: seq<bv8>, at: nat, prior: seq<bv8>, d: nat, data: seq<bv8>, two: bool)
    requires 2 * BOUNDARY <= |prior|
    requires 0 < |data| && d < BOUNDARY && two == (d + |data| > BOUNDARY) && d + |data| <= 2 * BOUNDARY
    requires at + (if two then 2 * BOUNDARY else BOUNDARY) <= |mem|
    requires forall j :: 0 <= j < (if two then 2 * BOUNDARY else BOUNDARY) ==> prior[j] == mem[at + j]
    requires OnlyClears(prior, d, data)
    ensures ProgramWindows(mem, at, Overwritten(prior, d, data), two) == Overwritten(mem, at + d, data)
  {
    hide ProgramWindows;
    var buffer := Overwritten(prior, d, data);
    var r := ProgramWindows(mem, at, buffer, two);
    forall i | 0 <= i < |mem| ensures r[i] == Overwritten(mem, at + d, data)[i] {
      if at <= i < at + (if two then 2 * BOUNDARY else BOUNDARY) {
        if i < at + BOUNDARY {
          LowWindowAt(mem, at, buffer, two, i);
        } else {
          HighWindowAt(mem, at, buffer, i);
        }
        var j := i - at;
        assert prior[j] == mem[at + j];
        ClearingPrograms(mem[i], buffer[j]);
      } else {
        WindowsOutsideAt(mem, at, buffer, two, i);
      }
    }
  }

  lemma {:induction false} CoveredWriteIsExact(mem: seq<bv8>, shadow: seq<bv8>, blk: nat, off: nat, data: seq<bv8>)
    requires Fits(mem, shadow, blk, off, |data|)
    requires Covered(off, |data|)
    ensures WriteResult(mem, shadow, blk, off, data) == Overwritten(mem, blk + off, data)
  {
    hide ProgramWindows, Overwritten;
    var d, n, w := off % BOUNDARY, |data|, blk + WindowStart(off);
    if TriesInPlace(off, n) {
      var prior := Refilled(mem, shadow, w, Widened(n));
      if OnlyClears(prior, d, data) {
        assert d + n > BOUNDARY ==> Widened(n) >= 2 * BOUNDARY;
        InPlaceIsExact(mem, w, prior, d, data, d + n > BOUNDARY);
        assert w + d == blk + off;
      }
    }
  }

  /** Outside the guard the bytes behind the write are programmed from whatever
      the shadow buffer held before, so some flash loses data. */
  lemma {:induction false} UncoveredWriteLosesData(size: nat, blockSize: nat, blk: nat, off: nat, n: nat)
    returns (mem: seq<bv8>, shadow: seq<bv8>, data: seq<bv8>)
    requires Fits(seq(size, _ => 0xFF), seq(blockSize, _ => 0), blk, off, n)
    requires !Covered(off, n)
    ensures |mem| == size && |shadow| == blockSize && |data| == n
    ensures WriteResult(mem, shadow, blk, off, data) != Overwritten(mem, blk + off, data)
  {
    mem, shadow, data := seq(size, _ => 0xFF), seq(blockSize, _ => 0), seq(n, _ => 0);
    hide ProgramWindows;
    var d, w := off % BOUNDARY, blk + WindowStart(off);
    var prior := Refilled(mem, shadow, w, Widened(n));
    assert OnlyClears(prior, d, data);
    var buffer := Overwritten(prior, d, data);
    var i := w + d + n;
    assert prior[d + n] == shadow[d + n];
    assert buffer[d + n] == 0;
    HighWindowAt(mem, w, buffer, i);
    ClearingPrograms(mem[i], 0);
    assert WriteResult(mem, shadow, blk, off, data)[i] == 0;
    assert Overwritten(mem, blk + off, data)[i] == 0xFF;
  }

  ghost predicate AlwaysExact(size: nat, blockSize: nat, blk: nat, off: nat, n: nat)
    requires Fits(seq(size, _ => 0xFF), seq(blockSize, _ => 0), blk, off, n)
  {
    forall mem: seq<bv8>, shadow: seq<bv8>, data: seq<bv8> ::
      |mem| == size && |shadow| == blockSize && |data| == n ==>
        WriteResult(mem, shadow, blk, off, data) == Overwritten(mem, blk + off, data)
  }

  /** A write of n bytes at off replaces exactly those bytes, whatever the flash,
      the stale shadow buffer and the data are, if and only if it stays in one
      128-byte window or is at least 128 bytes long. */
  lemma ExactIffCovered(size: nat, blockSize: nat, blk: nat, off: nat, n: nat)
    requires Fits(seq(size, _ => 0xFF), seq(blockSize, _ => 0), blk, off, n)
    ensures AlwaysExact(size, blockSize, blk, off, n) <==> Covered(off, n)
  {
    if Covered(off, n) {
      forall mem: seq<bv8>, shadow: seq<bv8>, data: seq<bv8> | |mem| == size && |shadow| == blockSize && |data| == n
        ensures WriteResult(mem, shadow, blk, off, data) == Overwritten(mem, blk + off, data)
      {
        CoveredWriteIsExact(mem, shadow, blk, off, data);
      }
    } else {
      var mem, shadow, data := UncoveredWriteLosesData(size, blockSize, blk, off, n);
    }
  }

  /** Some byte of the write that lies in the first window needs a bit set. */
  predicate SetsInFirstWindow(mem: seq<bv8>, at: nat, d: nat, data: seq<bv8>)
    requires at + BOUNDARY <= |mem|
  {
    exists i :: 0 <= i < |data| && d + i < BOUNDARY && !mem[at + d + i] & data[i] != 0
  }

  /** The bytes of the write in the second window only clear bits, and there is nothing
      behind them to lose. */
  predicate SecondWindowSafe(mem: seq<bv8>, at: nat, d: nat, data: seq<bv8>)
    requires at + 2 * BOUNDARY <= |mem| && d + |data| <= 2 * BOUNDARY
  {
    && (forall i :: 0 <= i < |data| && BOUNDARY <= d + i ==> !mem[at + d + i] & data[i] == 0)
    && (forall i :: at + d + |data| <= i < at + 2 * BOUNDARY ==> mem[i] == 0)
  }

  /** What a caller who knows the flash can check before an uncovered write. */
  predicate SafeUncovered(mem: seq<bv8>, blk: nat, off: nat, data: seq<bv8>) {
    var at, d := blk + WindowStart(off), off % BOUNDARY;
    && at + 2 * BOUNDARY <= |mem| && d + |data| <= 2 * BOUNDARY
    && (SetsInFirstWindow(mem, at, d, data) || SecondWindowSafe(mem, at, d, data))
  }

  /** The write replaces exactly the addressed bytes of this flash, whatever is left
      over in the shadow buffer. */
  predicate SafeOn(mem: seq<bv8>, blk: nat, off: nat, data: seq<bv8>) {
    Covered(off, |data|) || SafeUncovered(mem, blk, off, data)
  }

  /** The old data of an uncovered write fills the first window only. */
  lemma UncoveredShape(off: nat, n: nat)
    requires !Covered(off, n)
    ensures n < BOUNDARY && BOUNDARY < off % BOUNDARY + n < 2 * BOUNDARY && TriesInPlace(off, n) && Widened(n) == BOUNDARY
  {}

  /** The patched buffer: flash in the first window, stale bytes in the second. */
  lemma PriorAt(mem: seq<bv8>, shadow: seq<bv8>, at: nat, j: nat)
    requires at + BOUNDARY <= |mem| && 2 * BOUNDARY <= |shadow| && j < 2 * BOUNDARY
    ensures Refilled(mem, shadow, at, BOUNDARY)[j] == if j < BOUNDARY then mem[at + j] else shadow[j]
  {}

  /** A bit to be set in the first window sends the write down the erase path. */
  lemma SettingIsExact(mem: seq<bv8>, shadow: seq<bv8>, blk: nat, off: nat, data: seq<bv8>)
    requires Fits(mem, shadow, blk, off, |data|) && !Covered(off, |data|)
    requires SetsInFirstWindow(mem, blk + WindowStart(off), off % BOUNDARY, data)
    ensures WriteResult(mem, shadow, blk, off, data) == Overwritten(mem, blk + off, data)
  {
    hide ProgramWindows, Overwritten;
    UncoveredShape(off, |data|);
    var at, d := blk + WindowStart(off), off % BOUNDARY;
    var prior := Refilled(mem, shadow, at, BOUNDARY);
    var i :| 0 <= i < |data| && d + i < BOUNDARY && !mem[at + d + i] & data[i] != 0;
    PriorAt(mem, shadow, at, d + i);
    hide Refilled;
    assert !OnlyClears(prior, d, data);
  }

  lemma AndZero(x: bv8)
    ensures 0 & x == 0 && x & 0 == 0
  {}

  lemma OverwrittenAt(mem: seq<bv8>, at: nat, data: seq<bv8>, i: nat)
    requires i < |mem|
    ensures Overwritten(mem, at, data)[i] == if at <= i < at + |data| then data[i - at] else mem[i]
  {}

  /** The patched buffer, byte by byte. */
  lemma PatchedAt(mem: seq<bv8>, shadow: seq<bv8>, at: nat, d: nat, data: seq<bv8>, j: nat)
    requires at + BOUNDARY <= |mem| && 2 * BOUNDARY <= |shadow|
    requires d < BOUNDARY < d + |data| <= 2 * BOUNDARY && j < 2 * BOUNDARY
    ensures var patched := Overwritten(Refilled(mem, shadow, at, BOUNDARY), d, data);
            patched[j] == if d <= j < d + |data| then data[j - d] else if j < BOUNDARY then mem[at + j] else shadow[j]
  {
    OverwrittenAt(Refilled(mem, shadow, at, BOUNDARY), d, data, j);
    PriorAt(mem, shadow, at, j);
    hide Overwritten, Refilled;
  }

  /** What programming two windows leaves of a byte. */
  lemma WindowsAt(mem: seq<bv8>, at: nat, buffer: seq<bv8>, j: nat)
    requires at + 2 * BOUNDARY <= |mem| && 2 * BOUNDARY <= |buffer| && j < 2 * BOUNDARY
    ensures ProgramWindows(mem, at, buffer, true)[at + j] == mem[at + j] & buffer[j]
  {
    var i := at + j;
    assert i - at == j;
    hide ProgramWindows;
    if j < BOUNDARY {
      LowWindowAt(mem, at, buffer, true, i);
    } else {
      HighWindowAt(mem, at, buffer, i);
    }
  }

  /** With a safe second window the path without an erase is exact. */
  lemma SafeWindowIsExact(mem: seq<bv8>, shadow: seq<bv8>, blk: nat, off: nat, data: seq<bv8>)
    requires Fits(mem, shadow, blk, off, |data|) && !Covered(off, |data|)
    requires blk + WindowStart(off) + 2 * BOUNDARY <= |mem| && off % BOUNDARY + |data| <= 2 * BOUNDARY
    requires SecondWindowSafe(mem, blk + WindowStart(off), off % BOUNDARY, data)
    ensures WriteResult(mem, shadow, blk, off, data) == Overwritten(mem, blk + off, data)
  {
    hide WriteResult, ProgramWindows, Refilled, Overwritten, OnlyClears, SecondWindowSafe;
    UncoveredShape(off, |data|);
    var at, d := blk + WindowStart(off), off % BOUNDARY;
    var prior := Refilled(mem, shadow, at, BOUNDARY);
    InPlaceResult(mem, shadow, prior, blk, off, data);
    if OnlyClears(prior, d, data) {
      SafeWindow(mem, shadow, at, d, data);
      assert at + d == blk + off;
    }
  }

  lemma SafeWindow(mem: seq<bv8>, shadow: seq<bv8>, at: nat, d: nat, data: seq<bv8>)
    requires at + 2 * BOUNDARY <= |mem| && 2 * BOUNDARY <= |shadow|
    requires d < BOUNDARY < d + |data| <= 2 * BOUNDARY
    requires OnlyClears(Refilled(mem, shadow, at, BOUNDARY), d, data) && SecondWindowSafe(mem, at, d, data)
    ensures ProgramWindows(mem, at, Overwritten(Refilled(mem, shadow, at, BOUNDARY), d, data), true)
            == Overwritten(mem, at + d, data)
  {
    hide ProgramWindows, Refilled, Overwritten, OnlyClears, SecondWindowSafe;
    var r := ProgramWindows(mem, at, Overwritten(Refilled(mem, shadow, at, BOUNDARY), d, data), true);
    forall i | 0 <= i < |mem| ensures r[i] == Overwritten(mem, at + d, data)[i] {
      SafeWindowAt(mem, shadow, at, d, data, i);
    }
  }

  lemma SafeWindowAt(mem: seq<bv8>, shadow: seq<bv8>, at: nat, d: nat, data: seq<bv8>, i: nat)
    requires at + 2 * BOUNDARY <= |mem| && 2 * BOUNDARY <= |shadow| && i < |mem|
    requires d < BOUNDARY < d + |data| <= 2 * BOUNDARY
    requires OnlyClears(Refilled(mem, shadow, at, BOUNDARY), d, data) && SecondWindowSafe(mem, at, d, data)
    ensures ProgramWindows(mem, at, Overwritten(Refilled(mem, shadow, at, BOUNDARY), d, data), true)[i]
            == Overwritten(mem, at + d, data)[i]
  {
    hide ProgramWindows, Refilled, Overwritten, SecondWindowSafe, OnlyClears;
    OverwrittenAt(mem, at + d, data, i);
    if at + d <= i < at + d + |data| {
      SafeByteTaken(mem, shadow, at, d, data, i - at - d);
    } else if at <= i < at + 2 * BOUNDARY {
      SafeByteStays(mem, shadow, at, d, data, i - at);
    } else {
      WindowsOutsideAt(mem, at, Overwritten(Refilled(mem, shadow, at, BOUNDARY), d, data), true, i);
    }
  }

  lemma SafeByteTaken(mem: seq<bv8>, shadow: seq<bv8>, at: nat, d: nat, data: seq<bv8>, k: nat)
    requires at + 2 * BOUNDARY <= |mem| && 2 * BOUNDARY <= |shadow| && k < |data|
    requires d < BOUNDARY < d + |data| <= 2 * BOUNDARY
    requires OnlyClears(Refilled(mem, shadow, at, BOUNDARY), d, data) && SecondWindowSafe(mem, at, d, data)
    ensures ProgramWindows(mem, at, Overwritten(Refilled(mem, shadow, at, BOUNDARY), d, data), true)[at + d + k] == data[k]
  {
    hide ProgramWindows, Refilled, Overwritten, SecondWindowSafe, OnlyClears;
    WindowsAt(mem, at, Overwritten(Refilled(mem, shadow, at, BOUNDARY), d, data), d + k);
    PatchedAt(mem, shadow, at, d, data, d + k);
    SafeByteClears(mem, shadow, at, d, data, k);
  }

  lemma SafeByteStays(mem: seq<bv8>, shadow: seq<bv8>, at: nat, d: nat, data: seq<bv8>, j: nat)
    requires at + 2 * BOUNDARY <= |mem| && 2 * BOUNDARY <= |shadow| && j < 2 * BOUNDARY
    requires d < BOUNDARY < d + |data| <= 2 * BOUNDARY && !(d <= j < d + |data|)
    requires SecondWindowSafe(mem, at, d, data)
    ensures ProgramWindows(mem, at, Overwritten(Refilled(mem, shadow, at, BOUNDARY), d, data), true)[at + j] == mem[at + j]
  {
    hide ProgramWindows, Refilled, Overwritten;
    var i, patched := at + j, Overwritten(Refilled(mem, shadow, at, BOUNDARY), d, data);
    WindowsAt(mem, at, patched, j);
    PatchedAt(mem, shadow, at, d, data, j);
    if j < BOUNDARY {
      ClearingPrograms(mem[i], mem[i]);
    } else {
      assert mem[i] == 0;
      AndZero(patched[j]);
    }
  }

  lemma SafeByteClears(mem: seq<bv8>, shadow: seq<bv8>, at: nat, d: nat, data: seq<bv8>, k: nat)
    requires at + 2 * BOUNDARY <= |mem| && 2 * BOUNDARY <= |shadow| && k < |data|
    requires d < BOUNDARY < d + |data| <= 2 * BOUNDARY
    requires OnlyClears(Refilled(mem, shadow, at, BOUNDARY), d, data) && SecondWindowSafe(mem, at, d, data)
    ensures mem[at + d + k] & data[k] == data[k]
  {
    PriorAt(mem, shadow, at, d + k);
    hide Refilled;
    assert !mem[at + d + k] & data[k] == 0 by {
      if d + k < BOUNDARY {
        assert !Refilled(mem, shadow, at, BOUNDARY)[d + k] & data[k] == 0;
      }
    }
    ClearingPrograms(mem[at + d + k], data[k]);
  }

  /** A shadow buffer under which an unsafe uncovered write goes wrong: nothing in it
      stops the path without an erase, and it clears everything behind the write. */
  function SpoilingShadow(blockSize: nat, d: nat, n: nat): (s: seq<bv8>)
    ensures |s| == blockSize && forall j :: d + n <= j < blockSize ==> s[j] == 0
  {
    seq(blockSize, j requires 0 <= j < blockSize => if d + n <= j then 0 else 0xFF)
  }

  lemma OnesCover(x: bv8)
    ensures !0xFF & x == 0
  {}

  lemma ProgrammedNotSet(x: bv8, y: bv8)
    ensures x & y == y ==> !x & y == 0
  {}

  lemma SpoilingPasses(mem: seq<bv8>, blockSize: nat, at: nat, d: nat, data: seq<bv8>)
    requires at + 2 * BOUNDARY <= |mem| && 2 * BOUNDARY <= blockSize
    requires d < BOUNDARY < d + |data| <= 2 * BOUNDARY && !SetsInFirstWindow(mem, at, d, data)
    ensures OnlyClears(Refilled(mem, SpoilingShadow(blockSize, d, |data|), at, BOUNDARY), d, data)
  {
    var shadow := SpoilingShadow(blockSize, d, |data|);
    var prior := Refilled(mem, shadow, at, BOUNDARY);
    forall i | 0 <= i < |data| ensures !prior[d + i] & data[i] == 0 {
      PriorAt(mem, shadow, at, d + i);
      OnesCover(data[i]);
    }
  }

  lemma UnsafeWriteGoesWrong(mem: seq<bv8>, blockSize: nat, blk: nat, off: nat, data: seq<bv8>)
    requires Fits(mem, SpoilingShadow(blockSize, off % BOUNDARY, |data|), blk, off, |data|)
    requires blk + WindowStart(off) + 2 * BOUNDARY <= |mem|
    requires !SafeOn(mem, blk, off, data)
    ensures WriteResult(mem, SpoilingShadow(blockSize, off % BOUNDARY, |data|), blk, off, data)
            != Overwritten(mem, blk + off, data)
  {
    hide WriteResult, ProgramWindows, Refilled, Overwritten, OnlyClears, SetsInFirstWindow, SecondWindowSafe, SpoilingShadow;
    UncoveredShape(off, |data|);
    var at, d := blk + WindowStart(off), off % BOUNDARY;
    var shadow := SpoilingShadow(blockSize, d, |data|);
    var prior := Refilled(mem, shadow, at, BOUNDARY);
    SpoilingPasses(mem, blockSize, at, d, data);
    InPlaceResult(mem, shadow, prior, blk, off, data);
    UnsafeWindowGoesWrong(mem, shadow, at, d, data);
    assert at + d == blk + off;
  }

  lemma UnsafeWindowGoesWrong(mem: seq<bv8>, shadow: seq<bv8>, at: nat, d: nat, data: seq<bv8>)
    requires at + 2 * BOUNDARY <= |mem| && 2 * BOUNDARY <= |shadow|
    requires d < BOUNDARY < d + |data| <= 2 * BOUNDARY
    requires forall j :: d + |data| <= j < |shadow| ==> shadow[j] == 0
    requires !SecondWindowSafe(mem, at, d, data)
    ensures ProgramWindows(mem, at, Overwritten(Refilled(mem, shadow, at, BOUNDARY), d, data), true)
            != Overwritten(mem, at + d, data)
  {
    hide ProgramWindows, Refilled, Overwritten;
    if i :| 0 <= i < |data| && BOUNDARY <= d + i && !mem[at + d + i] & data[i] != 0 {
      SetBitStaysClear(mem, shadow, at, d, data, i);
    } else {
      var i :| at + d + |data| <= i < at + 2 * BOUNDARY && mem[i] != 0;
      TailIsCleared(mem, shadow, at, d, data, i);
    }
  }

  lemma SetBitStaysClear(mem: seq<bv8>, shadow: seq<bv8>, at: nat, d: nat, data: seq<bv8>, i: nat)
    requires at + 2 * BOUNDARY <= |mem| && 2 * BOUNDARY <= |shadow|
    requires d < BOUNDARY < d + |data| <= 2 * BOUNDARY
    requires i < |data| && BOUNDARY <= d + i && !mem[at + d + i] & data[i] != 0
    ensures ProgramWindows(mem, at, Overwritten(Refilled(mem, shadow, at, BOUNDARY), d, data), true)
            != Overwritten(mem, at + d, data)
  {
    var patched := Overwritten(Refilled(mem, shadow, at, BOUNDARY), d, data);
    WindowsAt(mem, at, patched, d + i);
    PatchedAt(mem, shadow, at, d, data, d + i);
    OverwrittenAt(mem, at + d, data, at + d + i);
    hide ProgramWindows, Refilled, Overwritten;
    var x, y := mem[at + d + i], data[i];
    assert patched[d + i] == y;
    assert x & y != y by { ProgrammedNotSet(x, y); }
  }

  lemma TailIsCleared(mem: seq<bv8>, shadow: seq<bv8>, at: nat, d: nat, data: seq<bv8>, i: nat)
    requires at + 2 * BOUNDARY <= |mem| && 2 * BOUNDARY <= |shadow|
    requires d < BOUNDARY < d + |data| <= 2 * BOUNDARY
    requires at + d + |data| <= i < at + 2 * BOUNDARY && mem[i] != 0 && shadow[i - at] == 0
    ensures ProgramWindows(mem, at, Overwritten(Refilled(mem, shadow, at, BOUNDARY), d, data), true)
            != Overwritten(mem, at + d, data)
  {
    var patched := Overwritten(Refilled(mem, shadow, at, BOUNDARY), d, data);
    WindowsAt(mem, at, patched, i - at);
    PatchedAt(mem, shadow, at, d, data, i - at);
    OverwrittenAt(mem, at + d, data, i);
    hide ProgramWindows, Refilled, Overwritten;
    assert patched[i - at] == 0;
    AndZero(mem[i]);
  }

  /** Whatever is left over in the shadow buffer, the write replaces its bytes on this flash. */
  ghost predicate ExactForAllStale(mem: seq<bv8>, blockSize: nat, blk: nat, off: nat, data: seq<bv8>)
    requires Fits(mem, seq(blockSize, _ => 0), blk, off, |data|)
  {
    forall shadow: seq<bv8> :: |shadow| == blockSize ==>
      WriteResult(mem, shadow, blk, off, data) == Overwritten(mem, blk + off, data)
  }

  /** On a given flash, a write replaces exactly the addressed bytes for every stale
      shadow buffer if and only if it is safe there. */
  lemma ExactIffSafe(mem: seq<bv8>, blockSize: nat, blk: nat, off: nat, data: seq<bv8>)
    requires Fits(mem, seq(blockSize, _ => 0), blk, off, |data|)
    ensures ExactForAllStale(mem, blockSize, blk, off, data) <==> SafeOn(mem, blk, off, data)
  {
    hide WriteResult, Overwritten, SpoilingShadow, SetsInFirstWindow, SecondWindowSafe;
    if SafeOn(mem, blk, off, data) {
      forall shadow: seq<bv8> | |shadow| == blockSize
        ensures WriteResult(mem, shadow, blk, off, data) == Overwritten(mem, blk + off, data)
      {
        SafeWriteIsExact(mem, shadow, blk, off, data);
      }
    } else {
      UncoveredRoom(|mem|, blockSize, blk, off, |data|);
      UnsafeWriteGoesWrong(mem, blockSize, blk, off, data);
    }
  }

  lemma SafeWriteIsExact(mem: seq<bv8>, shadow: seq<bv8>, blk: nat, off: nat, data: seq<bv8>)
    requires Fits(mem, shadow, blk, off, |data|) && SafeOn(mem, blk, off, data)
    ensures WriteResult(mem, shadow, blk, off, data) == Overwritten(mem, blk + off, data)
  {
    hide WriteResult, Overwritten, SetsInFirstWindow, SecondWindowSafe;
    if Covered(off, |data|) {
      CoveredWriteIsExact(mem, shadow, blk, off, data);
    } else if SetsInFirstWindow(mem, blk + WindowStart(off), off % BOUNDARY, data) {
      SettingIsExact(mem, shadow, blk, off, data);
    } else {
      SafeWindowIsExact(mem, shadow, blk, off, data);
    }
  }

  /** Two windows of an uncovered write lie inside the block. */
  lemma UncoveredRoom(size: nat, blockSize: nat, blk: nat, off: nat, n: nat)
    requires blk + blockSize <= size && off + n <= blockSize && blockSize % BOUNDARY == 0 && !Covered(off, n)
    ensures blk + WindowStart(off) + 2 * BOUNDARY <= size
  {}
}
