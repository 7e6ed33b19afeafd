/**
  What the block services promise a caller in plain numbers: bits of the status register,
  byte offsets as products of block numbers and block sizes, and the words sent to the chips.
 */
module NorFlashServices {
  import opened Uefi
  import opened Arithmetic
  import opened NorFlashChip
  import opened NorFlashSpec
  import opened NorFlashRegister
  import opened NorFlash
  import opened NorFlashFvb
  import opened NorFlashRuns

  /** The command words of two 16-bit chips side by side. */
  lemma CommandWords()
    ensures Bytes(DualCmd(CMD_READ_DEVICE_ID)) == [0x90, 0, 0x90, 0]
    ensures Bytes(DualCmd(CMD_READ_STATUS_REGISTER)) == [0x70, 0, 0x70, 0]
    ensures Bytes(DualCmd(CMD_CLEAR_STATUS_REGISTER)) == [0x50, 0, 0x50, 0]
    ensures Bytes(DualCmd(CMD_READ_ARRAY)) == [0xFF, 0, 0xFF, 0]
    ensures Bytes(DualCmd(CMD_WORD_PROGRAM_SETUP)) == [0x40, 0, 0x40, 0]
    ensures Bytes(DualCmd(CMD_BUFFERED_PROGRAM_SETUP)) == [0xE8, 0, 0xE8, 0]
    ensures Bytes(DualCmd(CMD_CONFIRM)) == [0xD0, 0, 0xD0, 0]
    ensures Bytes(DualCmd(CMD_BLOCK_ERASE_SETUP)) == [0x20, 0, 0x20, 0]
    ensures Bytes(DualCmd(CMD_LOCK_BLOCK_SETUP)) == [0x60, 0, 0x60, 0]
  {}

  /** What is left over, by the bits of both chips' status registers: block locked 0x02, VPP
      0x08, program 0x10, erase 0x20. */
  lemma RegisterBits(s: ChipState)
    ensures var x := s.srLo | s.srHi;
            && (RegisterOf(s) == LockError <==> x & 0x02 != 0)
            && (RegisterOf(s) == BothErrors <==> x & 0x02 == 0 && (x & 0x08 != 0 || x & 0x30 == 0x30))
            && (RegisterOf(s) == ProgramError <==> x & 0x3A == 0x10)
            && (RegisterOf(s) == EraseError <==> x & 0x3A == 0x20)
            && (RegisterOf(s) == Healthy <==> x & 0x3A == 0)
  {
    ReportedBits(s.srLo, s.srHi);
  }

  lemma ReportedBits(lo: bv8, hi: bv8)
    ensures var w, x := Word(lo | 0x80, 0, hi | 0x80, 0), lo | hi;
            && (Reports(w, 0x02) <==> x & 0x02 != 0) && (Reports(w, 0x08) <==> x & 0x08 != 0)
            && (Reports(w, 0x10) <==> x & 0x10 != 0) && (Reports(w, 0x20) <==> x & 0x20 != 0)
  {}

  /** The chips granted their buffer whenever they were asked. */
  predicate AlwaysGranted(s: ChipState, s': ChipState) {
    forall i :: |s.answers| <= i < |s'.answers| ==> s'.answers[i]
  }

  lemma GrantedIsNotRanOut(s: ChipState, s': ChipState)
    requires AlwaysGranted(s, s')
    ensures !RanOut(s, s')
  {
    var first := |s'.answers| - MAX_BUFFERED_PROG_ITERATIONS;
    if |s.answers| <= first {
      assert s'.answers[first];
    }
  }

  /** Running out takes ten million requests for the buffer, the last of them apart all refused. */
  lemma RanOutMeans(s: ChipState, s': ChipState)
    requires RanOut(s, s')
    ensures |s'.answers| >= |s.answers| + 10_000_000
    ensures forall i :: |s'.answers| - 10_000_000 <= i < |s'.answers| - 1 ==> !s'.answers[i]
  {}

  /** Both chips show no error at all. */
  predicate NoErrorShown(s: ChipState) { (s.srLo | s.srHi) & 0x3A == 0 }

  /** Room for the windows a short write is programmed in. */
  lemma RoomForWindows(offset: nat, n: nat)
    ensures WindowStart(offset) + Widened(n) <= offset + n + 128
  {}

  /** A write inside an existing block, at least 128 bytes away from the end of the flash
      unless it is a long one, succeeds on chips that show no error, have no fault and grant
      their buffer, and then byte (startLba + lba) * blockSize + offset + j of the flash is
      byte j of the data and every other byte is as it was. */
  lemma CleanWriteSucceeds(g: Geometry, s: ChipState, lba: nat, offset: nat, data: seq<bv8>, status: Status, s': ChipState)
    requires Step(g, s, Request.Write(lba, offset, data), status, s')
    requires NoErrorShown(s) && s'.faults == s.faults && AlwaysGranted(s, s')
    requires 0 < |data| && offset + |data| <= g.blockSize && g.startLba + lba <= g.lastBlock
    requires g.regionBase % 128 == 0 && g.size == (g.lastBlock + 1) * g.blockSize
    requires offset % 128 + |data| <= 128 || |data| >= 128
    requires var at := (g.startLba + lba) * g.blockSize + offset;
             at + |data| + 128 <= g.size || offset % 128 + |data| > 256
    ensures status == Success
    ensures var at := (g.startLba + lba) * g.blockSize + offset;
            && |s'.mem| == |s.mem|
            && forall i :: 0 <= i < |s.mem| ==> s'.mem[i] == if at <= i < at + |data| then data[i - at] else s.mem[i]
  {
    hide Span, RegisterOf, RanOut, TakesInPlace, Skips, InReach, Returns, AlwaysGranted, Accumulates, WindowStart, Widened;
    SpanIsProduct(g.startLba + lba, g.blockSize);
    RegisterBits(s);
    GrantedIsNotRanOut(s, s');
    RoomForWindows(offset, |data|);
    assert CanWrite(g, g.startLba + lba, offset, |data|);
    var stale :| |stale| == g.blockSize && WritesOver(g, s, stale, lba, offset, data, true, status, s');
    assert Exact(g, s.mem, Request.Write(lba, offset, data));
  }

  /** What a read delivers, byte by byte. */
  lemma ReadDelivers(mem: seq<bv8>, before: seq<bv8>, block: nat, blockSize: nat, offset: nat, n: nat, k: nat)
    requires block * blockSize + offset + n <= |mem| && n <= |before| && k < |before|
    ensures Span(block, blockSize) + offset + n <= |mem|
    ensures Refilled(mem, before, Span(block, blockSize) + offset, n)[k] ==
              if k < n then mem[block * blockSize + offset + k] else before[k]
  {
    SpanIsProduct(block, blockSize);
  }

  /** An erase of existing blocks succeeds under the same conditions, and leaves ones on
      exactly the bytes from (startLba + start) * blockSize on, count blocks long, of each
      tuple. */
  lemma CleanEraseSucceeds(g: Geometry, s: ChipState, list: seq<LbaRange>, status: Status, s': ChipState, i: nat)
    requires Step(g, s, Erase(list), status, s') && NoErrorShown(s) && s'.faults == s.faults
    requires list != [] && i < |s.mem|
    requires forall k :: 0 <= k < |list| ==> list[k].count > 0 && g.startLba + list[k].start + list[k].count <= g.lastBlock + 1
    ensures status == Success && |s'.mem| == |s.mem|
    ensures s'.mem[i] ==
              if exists k :: 0 <= k < |list| && InBlocks(g.startLba + list[k].start, list[k].count, g.blockSize, i) then 0xFF
              else s.mem[i]
  {
    RegisterBits(s);
    hide Span, RegisterOf, InReach, Returns;
    assert ListValid(list, g.startLba, g.lastBlock);
    assert Exact(g, s.mem, Erase(list));
    assert status == Success;
    forall k | 0 <= k < |list|
      ensures InRange(list[k], g.startLba, g.blockSize, i) <==>
              InBlocks(g.startLba + list[k].start, list[k].count, g.blockSize, i)
    {
      RangeIsProduct(list[k], g.startLba, g.blockSize, i);
    }
    hide InRange, InBlocks;
  }

  /** Byte i lies in one of `count` blocks from block number `first` on. */
  predicate InBlocks(first: nat, count: nat, blockSize: nat, i: nat) {
    first * blockSize <= i < first * blockSize + count * blockSize
  }

  lemma RangeIsProduct(r: LbaRange, startLba: nat, blockSize: nat, i: nat)
    ensures InRange(r, startLba, blockSize, i) <==> InBlocks(startLba + r.start, r.count, blockSize, i)
  {
    SpanIsProduct(startLba + r.start, blockSize);
    SpanIsProduct(r.count, blockSize);
  }
}
