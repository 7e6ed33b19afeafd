/**
  The access check of the PCI root bridge and the register access behind it
  (PciHostBridgeFdtDxe/RootBridge.c, FbpUtilsLib.h and FdtBusDxe/DtIo.c).
 */
module RootBridgeIo {
  import opened Uefi
  import opened Arithmetic
  import opened GcdSpace
  import opened PciRange
  import opened HostBridge

  datatype OperationType = IoOperation | MemOperation | MemOperationNoBuffer | PciOperation

  /** EFI_DT_REG. */
  datatype DtReg = DtReg(busBase: u128, translatedBase: u128, length: u128, indirect: bool)

  /** Everything the check looks at. */
  datatype Bridge = Bridge(
    ap: Apertures, vgaIo1: Range, vgaIo2: Range, vgaMem: Range,
    busRange: Range, noExtendedConfigSpace: bool, configReg: DtReg)

  const WIDTH_MAXIMUM: nat := 12

  /** The FIFO widths access one address over and over. */
  predicate IsFifo(width: nat) { 4 <= width <= 7 }

  function SizeOf(width: nat): (size: nat)
    ensures 1 <= size <= 8
  {
    if width % 4 == 0 then 1 else if width % 4 == 1 then 2 else if width % 4 == 2 then 4 else 8
  }

  /** The bytes of device address space an access covers. */
  function Extent(width: nat, count: nat): nat { SizeOf(width) * (if IsFifo(width) then 1 else count) }

  /** Unit number k of an access starts here: the FIFO widths 4 to 7 stay at one address,
      the others move on by 1, 2, 4 or 8 bytes. */
  function UnitAt(width: nat, address: nat, k: nat): nat {
    match width
    case 0 => address + k
    case 1 => address + 2 * k
    case 2 => address + 4 * k
    case 3 => address + 8 * k
    case 8 => address + k
    case 9 => address + 2 * k
    case 10 => address + 4 * k
    case 11 => address + 8 * k
    case _ => address
  }

  /** The byte belongs to the unit that starts at `at`. */
  predicate InUnit(width: nat, at: nat, x: nat) {
    match width
    case 0 => x == at
    case 4 => x == at
    case 8 => x == at
    case 1 => at <= x < at + 2
    case 5 => at <= x < at + 2
    case 9 => at <= x < at + 2
    case 2 => at <= x < at + 4
    case 6 => at <= x < at + 4
    case 10 => at <= x < at + 4
    case _ => at <= x < at + 8
  }

  /** Some unit of the access has byte x. */
  ghost predicate Touches(width: nat, address: nat, count: nat, x: nat) {
    exists k :: 0 <= k < count && InUnit(width, UnitAt(width, address, k), x)
  }

  lemma UnitIs(width: nat, address: nat, k: nat, x: nat)
    requires width < WIDTH_MAXIMUM
    ensures var from := address + (if IsFifo(width) then 0 else SizeOf(width) * k);
            InUnit(width, UnitAt(width, address, k), x) <==> from <= x < from + SizeOf(width)
  {}

  /** The bytes touched are those of the extent, without a gap. */
  lemma TouchedIsExtent(width: nat, address: nat, count: nat, x: nat)
    requires width < WIDTH_MAXIMUM && count >= 1
    ensures Touches(width, address, count, x) <==> address <= x < address + Extent(width, count)
  {
    hide InUnit, UnitAt, SizeOf, IsFifo;
    var size := SizeOf(width);
    forall k: nat
      ensures var from := address + (if IsFifo(width) then 0 else size * k);
              InUnit(width, UnitAt(width, address, k), x) <==> from <= x < from + size
    {
      UnitIs(width, address, k, x);
    }
    if IsFifo(width) {
      assert InUnit(width, UnitAt(width, address, 0), x) <==> address <= x < address + size;
    } else {
      if k :| 0 <= k < count && InUnit(width, UnitAt(width, address, k), x) {
        OneMoreFits(k, count, size);
      }
      if address <= x < address + size * count {
        var k := (x - address) / size;
        QuotientBounds(x - address, size);
        QuotientTells(x - address, size, count);
        assert InUnit(width, UnitAt(width, address, k), x);
      }
    }
  }

  /** The enabled aperture has every byte the access touches. */
  ghost predicate HasAll(r: Range, width: nat, address: nat, count: nat) {
    r.length != 0 && forall x: nat :: Touches(width, address, count, x) ==> RB(r) <= x < RB(r) + r.length
  }

  lemma ContainsIffHasAll(r: Range, width: nat, address: nat, count: nat)
    requires width < WIDTH_MAXIMUM && count >= 1
    ensures Contains(r, address, Extent(width, count)) <==> HasAll(r, width, address, count)
  {
    Positive(width, count);
    hide Touches, Extent, RB;
    forall x: nat ensures Touches(width, address, count, x) <==> address <= x < address + Extent(width, count) {
      TouchedIsExtent(width, address, count, x);
    }
    if HasAll(r, width, address, count) {
      assert Touches(width, address, count, address) && Touches(width, address, count, address + Extent(width, count) - 1);
    }
  }

  /** FbpRangeToReg. */
  function RangeToReg(r: Range, childSideOffset: u64): DtReg {
    DtReg(Wrap128(r.parentBase - childSideOffset), Wrap128(r.translatedParentBase - childSideOffset),
          Wrap128(r.length + childSideOffset), r.indirect)
  }

  /** Disabled, or below the end of the 64-bit device address space. */
  predicate ValidWindow(r: Range) { r.length == 0 || (r.length < TWO_64 && RB(r) + r.length < TWO_64) }

  predicate ValidBridge(b: Bridge) {
    && ValidWindow(b.ap.io) && ValidWindow(b.ap.mem) && ValidWindow(b.ap.pmem)
    && ValidWindow(b.ap.mem64) && ValidWindow(b.ap.pmem64)
    && ValidWindow(b.vgaIo1) && ValidWindow(b.vgaIo2) && ValidWindow(b.vgaMem)
  }

  /** The apertures in the order they are tried. */
  function Windows(b: Bridge, op: OperationType): seq<Range>
    requires op != PciOperation
  {
    if op == IoOperation then [b.vgaIo1, b.vgaIo2, b.ap.io]
    else [b.ap.mem, b.vgaMem, b.ap.pmem, b.ap.mem64, b.ap.pmem64]
  }

  /** An enabled aperture with room for [address, address + length). */
  predicate Contains(r: Range, address: nat, length: nat) {
    r.length != 0 && RB(r) <= address && address + length <= RB(r) + r.length
  }

  /** The comparison the driver makes, all of it modulo 2^64. */
  predicate Passes(r: Range, address: u64, length: nat) {
    RB(r) <= address && Wrap64(address + length) <= Wrap64(RL(r) + 1)
  }

  /** For a nonempty access that does not wrap it means containment, and a disabled
      aperture never passes. */
  lemma PassesIsContainment(r: Range, address: u64, length: nat)
    requires ValidWindow(r) && 0 < length && address + length < TWO_64
    ensures Passes(r, address, length) <==> Contains(r, address, length)
  {
    var c := r.childBase / TWO_64;
    if r.length == 0 {
      assert Wrap64(RL(r) + 1) == RB(r);
    } else {
      WrapOf(r.childBase + r.length - 1, RB(r) + r.length - 1, c);
    }
  }

  /** An empty access at address zero slips through a disabled aperture, and only that one. */
  lemma EmptyAccessPasses(address: u64)
    ensures Passes(NO_RANGE, address, 0) <==> address == 0
  {}

  /** The first of the windows that passes, or the last one. */
  function Chosen(windows: seq<Range>, address: u64, length: nat): Range
    requires windows != []
  {
    if |windows| == 1 || Passes(windows[0], address, length) then windows[0]
    else Chosen(windows[1..], address, length)
  }

  /** An access that the chosen window passes lies in the first window that
      contains it; otherwise no window contains it. */
  lemma {:induction false} ChosenDecides(windows: seq<Range>, address: u64, length: nat)
    requires windows != [] && 0 < length && address + length < TWO_64
    requires forall k :: 0 <= k < |windows| ==> ValidWindow(windows[k])
    ensures Chosen(windows, address, length) in windows
    ensures Passes(Chosen(windows, address, length), address, length) <==>
            exists k :: 0 <= k < |windows| && Contains(windows[k], address, length)
    ensures forall k :: 0 <= k < |windows| && Contains(windows[k], address, length)
                        && (forall j :: 0 <= j < k ==> !Contains(windows[j], address, length)) ==>
              Chosen(windows, address, length) == windows[k]
  {
    hide ValidWindow, Passes, Contains;
    PassesIsContainment(windows[0], address, length);
    if |windows| > 1 && !Contains(windows[0], address, length) {
      var rest := windows[1..];
      ChosenDecides(rest, address, length);
      forall k | 0 <= k < |windows| && Contains(windows[k], address, length)
                 && (forall j :: 0 <= j < k ==> !Contains(windows[j], address, length))
        ensures Chosen(windows, address, length) == windows[k]
      {
        assert windows[k] == rest[k - 1];
        assert forall j :: 0 <= j < k - 1 ==> rest[j] == windows[j + 1];
      }
      assert forall k :: 0 < k < |windows| ==> windows[k] == rest[k - 1];
      assert forall k :: 0 <= k < |rest| ==> rest[k] == windows[k + 1];
    }
  }

  /** The parameters every operation type checks first. */
  function EarlyStatus(op: OperationType, width: nat, address: u64, count: u64, hasBuffer: bool): Status {
    if width >= WIDTH_MAXIMUM || (op != MemOperationNoBuffer && !hasBuffer) then InvalidParameter
    else if Extent(width, count) > MAX_UINT64 then InvalidParameter
    else if address % SizeOf(width) != 0 then Unsupported
    else if address + Extent(width, count) > MAX_UINT64 then InvalidParameter
    else Success
  }

  /** The first unit starts at a multiple of its size. */
  predicate AlignedUnit(width: nat, address: nat) {
    && (width == 1 || width == 5 || width == 9 ==> address % 2 == 0)
    && (width == 2 || width == 6 || width == 10 ==> address % 4 == 0)
    && (width == 3 || width == 7 || width == 11 ==> address % 8 == 0)
  }

  lemma AlignedMeans(width: nat, address: nat)
    requires width < WIDTH_MAXIMUM
    ensures address % SizeOf(width) == 0 <==> AlignedUnit(width, address)
  {}

  /** A known width, a buffer where one is needed, an aligned first unit, and no byte at the
      very end of the 64-bit address space or behind it. */
  ghost predicate Sound(op: OperationType, width: nat, address: nat, count: nat, hasBuffer: bool) {
    && width <= 11 && (hasBuffer || op == MemOperationNoBuffer) && AlignedUnit(width, address)
    && forall x: nat :: Touches(width, address, count, x) ==> x < MAX_UINT64
  }

  lemma EarlyIffSound(op: OperationType, width: nat, address: u64, count: u64, hasBuffer: bool)
    requires count >= 1
    ensures EarlyStatus(op, width, address, count, hasBuffer) == Success <==> Sound(op, width, address, count, hasBuffer)
  {
    hide Touches, Extent, SizeOf, AlignedUnit;
    if width < WIDTH_MAXIMUM {
      AlignedMeans(width, address);
      Positive(width, count);
      forall x: nat ensures Touches(width, address, count, x) <==> address <= x < address + Extent(width, count) {
        TouchedIsExtent(width, address, count, x);
      }
      assert Touches(width, address, count, address + Extent(width, count) - 1);
    }
  }

  /** Which accesses the check lets through: sound ones that touch bytes of one enabled
      aperture of their kind only. */
  lemma AcceptedMeans(b: Bridge, op: OperationType, width: nat, address: u64, count: u64, hasBuffer: bool)
    requires op != PciOperation && count >= 1
    ensures Sound(op, width, address, count, hasBuffer) <==> EarlyStatus(op, width, address, count, hasBuffer) == Success
    ensures Sound(op, width, address, count, hasBuffer) ==>
              ((exists k :: 0 <= k < |Windows(b, op)| && Contains(Windows(b, op)[k], address, Extent(width, count)))
               <==>
               if op == IoOperation then
                 HasAll(b.ap.io, width, address, count)
                 || HasAll(b.vgaIo1, width, address, count) || HasAll(b.vgaIo2, width, address, count)
               else
                 HasAll(b.ap.mem, width, address, count) || HasAll(b.vgaMem, width, address, count)
                 || HasAll(b.ap.pmem, width, address, count)
                 || HasAll(b.ap.mem64, width, address, count) || HasAll(b.ap.pmem64, width, address, count))
  {
    EarlyIffSound(op, width, address, count, hasBuffer);
    hide EarlyStatus, Extent, Contains, HasAll;
    var windows := Windows(b, op);
    if Sound(op, width, address, count, hasBuffer) {
      forall k | 0 <= k < |windows|
        ensures Contains(windows[k], address, Extent(width, count)) <==> HasAll(windows[k], width, address, count)
      {
        ContainsIffHasAll(windows[k], width, address, count);
      }
    }
    if op == IoOperation {
      assert windows[0] == b.vgaIo1 && windows[1] == b.vgaIo2 && windows[2] == b.ap.io;
    } else {
      assert windows[0] == b.ap.mem && windows[1] == b.vgaMem && windows[2] == b.ap.pmem;
      assert windows[3] == b.ap.mem64 && windows[4] == b.ap.pmem64;
    }
  }

  lemma CountLimit(count: nat, size: nat)
    requires 1 <= size <= 8
    ensures count > MAX_UINT64 / size <==> size * count > MAX_UINT64
  {
    var q := MAX_UINT64 / size;
    assert MAX_UINT64 == q * size + MAX_UINT64 % size;
    if count > q {
      assert (count - q - 1) * size >= 0;
    } else {
      assert (q - count) * size >= 0;
    }
  }

  /** RootBridgeIoCheckParameter up to the choice of the window. */
  method CheckEarly(op: OperationType, width: nat, address: u64, count: u64, hasBuffer: bool)
    returns (status: Status, length: nat)
    ensures status == EarlyStatus(op, width, address, count, hasBuffer)
    ensures status == Success ==> length == Extent(width, count) && address + length <= MAX_UINT64
  {
    length := 0;
    if width >= WIDTH_MAXIMUM {
      return InvalidParameter, length;
    }
    if op != MemOperationNoBuffer && !hasBuffer {
      return InvalidParameter, length;
    }
    var n := if IsFifo(width) then 1 else count;
    var size := SizeOf(width);
    CountLimit(n, size);
    hide SizeOf;
    if n > MAX_UINT64 / size {
      return InvalidParameter, length;
    }
    if address % size != 0 {
      return Unsupported, length;
    }
    length := size * n;
    if address > MAX_UINT64 - length {
      return InvalidParameter, length;
    }
    return Success, length;
  }

  /** RootBridgeIoCheckParameter for memory and port I/O: of the accesses whose
      parameters are sound and that move at least one byte, exactly those that lie
      inside one enabled aperture are accepted, with the register of the first such
      aperture. */
  method CheckParameter(b: Bridge, op: OperationType, width: nat, address: u64, count: u64, hasBuffer: bool)
    returns (status: Status, reg: DtReg)
    requires ValidBridge(b) && op != PciOperation
    ensures EarlyStatus(op, width, address, count, hasBuffer) != Success ==>
              status == EarlyStatus(op, width, address, count, hasBuffer)
    ensures EarlyStatus(op, width, address, count, hasBuffer) == Success && count >= 1 ==>
              var windows := Windows(b, op);
              var length := Extent(width, count);
              && (status == Success <==> exists k :: 0 <= k < |windows| && Contains(windows[k], address, length))
              && (status != Success ==> status == InvalidParameter)
              && forall k :: 0 <= k < |windows| && Contains(windows[k], address, length)
                             && (forall j :: 0 <= j < k ==> !Contains(windows[j], address, length)) ==>
                   reg == RangeToReg(windows[k], RB(windows[k]))
    ensures count >= 1 ==>
              (status == Success <==>
                 && Sound(op, width, address, count, hasBuffer)
                 && if op == IoOperation then
                      HasAll(b.ap.io, width, address, count)
                      || HasAll(b.vgaIo1, width, address, count) || HasAll(b.vgaIo2, width, address, count)
                    else
                      HasAll(b.ap.mem, width, address, count) || HasAll(b.vgaMem, width, address, count)
                      || HasAll(b.ap.pmem, width, address, count)
                      || HasAll(b.ap.mem64, width, address, count) || HasAll(b.ap.pmem64, width, address, count))
    ensures status == Unsupported ==> !AlignedUnit(width, address)
  {
    if count >= 1 {
      AcceptedMeans(b, op, width, address, count, hasBuffer);
    }
    if width < WIDTH_MAXIMUM {
      AlignedMeans(width, address);
    }
    hide HasAll, Sound, Extent, AlignedUnit;
    reg := DtReg(0, 0, 0, false);
    var length;
    status, length := CheckEarly(op, width, address, count, hasBuffer);
    if status.IsError() {
      return;
    }
    var range;
    hide EarlyStatus, Passes, Contains, RangeToReg, RB, RL;
    if op == IoOperation {
      range := if Passes(b.vgaIo1, address, length) then b.vgaIo1
               else if Passes(b.vgaIo2, address, length) then b.vgaIo2
               else b.ap.io;
      ChosenOfThree(b, address, length);
    } else {
      range := if Passes(b.ap.mem, address, length) then b.ap.mem
               else if Passes(b.vgaMem, address, length) then b.vgaMem
               else if Passes(b.ap.pmem, address, length) then b.ap.pmem
               else if Passes(b.ap.mem64, address, length) then b.ap.mem64
               else b.ap.pmem64;
      ChosenOfFive(b, op, address, length);
    }
    reg := RangeToReg(range, RB(range));
    if count >= 1 {
      Positive(width, count);
      WindowsAreValid(b, op);
      ChosenDecides(Windows(b, op), address, length);
    }
    if !Passes(range, address, length) {
      status := InvalidParameter;
    }
  }

  lemma Positive(width: nat, count: nat)
    requires count >= 1
    ensures Extent(width, count) >= 1
  {
    assert SizeOf(width) * count >= SizeOf(width) by { assert SizeOf(width) * (count - 1) >= 0; }
  }

  lemma WindowsAreValid(b: Bridge, op: OperationType)
    requires ValidBridge(b) && op != PciOperation
    ensures forall k :: 0 <= k < |Windows(b, op)| ==> ValidWindow(Windows(b, op)[k])
  {}

  lemma ChosenHead(r: Range, rest: seq<Range>, address: u64, length: nat)
    requires rest != []
    ensures Chosen([r], address, length) == r
    ensures Chosen([r] + rest, address, length) == if Passes(r, address, length) then r else Chosen(rest, address, length)
  {
    assert ([r] + rest)[1..] == rest;
  }

  lemma ChosenOfThree(b: Bridge, address: u64, length: nat)
    ensures Chosen(Windows(b, IoOperation), address, length) ==
            if Passes(b.vgaIo1, address, length) then b.vgaIo1
            else if Passes(b.vgaIo2, address, length) then b.vgaIo2
            else b.ap.io
  {
    hide Passes, Chosen;
    assert [b.vgaIo1] + ([b.vgaIo2] + [b.ap.io]) == Windows(b, IoOperation);
    ChosenHead(b.vgaIo1, [b.vgaIo2] + [b.ap.io], address, length);
    ChosenHead(b.vgaIo2, [b.ap.io], address, length);
    ChosenHead(b.ap.io, [b.ap.io], address, length);
  }

  lemma ChosenOfFive(b: Bridge, op: OperationType, address: u64, length: nat)
    requires op == MemOperation || op == MemOperationNoBuffer
    ensures Chosen(Windows(b, op), address, length) ==
            if Passes(b.ap.mem, address, length) then b.ap.mem
            else if Passes(b.vgaMem, address, length) then b.vgaMem
            else if Passes(b.ap.pmem, address, length) then b.ap.pmem
            else if Passes(b.ap.mem64, address, length) then b.ap.mem64
            else b.ap.pmem64
  {
    hide Passes, Chosen;
    var last2 := [b.ap.mem64] + [b.ap.pmem64];
    assert [b.ap.mem] + ([b.vgaMem] + ([b.ap.pmem] + last2)) == Windows(b, op);
    ChosenHead(b.ap.mem, [b.vgaMem] + ([b.ap.pmem] + last2), address, length);
    ChosenHead(b.vgaMem, [b.ap.pmem] + last2, address, length);
    ChosenHead(b.ap.pmem, last2, address, length);
    ChosenHead(b.ap.mem64, [b.ap.pmem64], address, length);
    ChosenHead(b.ap.pmem64, [b.ap.pmem64], address, length);
  }

  /** Where a register access goes. */
  datatype Access = Refused | ToCpu(address: u64) | ToBus

  /** DtIoReadReg and DtIoWriteReg: the length check and the final address. */
  method AccessReg(reg: DtReg, width: nat, offset: u128, count: u64, hasBuffer: bool) returns (access: Access)
    ensures access == Landing(reg, width, offset, count, hasBuffer)
  {
    if !hasBuffer || width >= WIDTH_MAXIMUM {
      return Refused;
    }
    var increment := if IsFifo(width) then 1 else count;
    assert increment * SizeOf(width) == Extent(width, count);
    hide SizeOf, Extent, Wrap64, Wrap128;
    if Wrap128(offset + Wrap64(increment * SizeOf(width))) > reg.length {
      return Refused;
    }
    if reg.indirect {
      return ToBus;
    }
    return ToCpu(Wrap64(reg.translatedBase + offset));
  }

  function Landing(reg: DtReg, width: nat, offset: u128, count: u64, hasBuffer: bool): Access {
    if !hasBuffer || width >= WIDTH_MAXIMUM || Wrap128(offset + Wrap64(Extent(width, count))) > reg.length then Refused
    else if reg.indirect then ToBus
    else ToCpu(Wrap64(reg.translatedBase + offset))
  }

  /** An access inside a window passes the length check of the window's register
      and lands at its address minus the translation, modulo 2^64. */
  lemma ContainedAccessLands(r: Range, width: nat, address: u64, count: u64)
    requires ValidWindow(r) && width < WIDTH_MAXIMUM && Contains(r, address, Extent(width, count))
    ensures Landing(RangeToReg(r, RB(r)), width, address, count, true) ==
            if r.indirect then ToBus else ToCpu(ToHostAddress(address, RT(r)))
  {
    var n := Extent(width, count);
    hide SizeOf, Extent;
    assert Wrap64(n) == n && Wrap128(address + n) == address + n;
    assert Wrap128(r.length + RB(r)) == r.length + RB(r);
    HostOfRegister(r, address);
  }

  /** The 128-bit register base and the 64-bit translation agree modulo 2^64. */
  lemma HostOfRegister(r: Range, address: u64)
    ensures Wrap64(Wrap128(r.translatedParentBase - RB(r)) + address) == ToHostAddress(address, RT(r))
  {
    var p := (r.translatedParentBase - RB(r)) / TWO_128;
    var c := r.childBase / TWO_64;
    var t := (r.childBase - r.translatedParentBase) / TWO_64;
    var x := Wrap128(r.translatedParentBase - RB(r)) + address;
    assert x == r.translatedParentBase - RB(r) - p * TWO_128 + address;
    assert x == (address - RT(r)) + (c - t - p * TWO_64) * TWO_64;
    SameWrap(x, address - RT(r), c - t - p * TWO_64);
  }

  lemma SameWrap(x: int, y: int, k: int)
    requires x == y + k * TWO_64
    ensures Wrap64(x) == Wrap64(y)
  {
    var q := y / TWO_64;
    WrapOf(x, Wrap64(y), q + k);
  }

  /** Memory and port I/O of the root bridge: the check and the register access in a row. */
  method Transfer(b: Bridge, op: OperationType, width: nat, address: u64, count: u64, hasBuffer: bool)
    returns (status: Status, access: Access)
    requires ValidBridge(b) && (op == IoOperation || op == MemOperation) && count >= 1
    ensures status != Success ==> access == Refused
    ensures status == Success ==>
              exists k :: 0 <= k < |Windows(b, op)| && Contains(Windows(b, op)[k], address, Extent(width, count))
                          && access == if Windows(b, op)[k].indirect then ToBus
                                       else ToCpu(ToHostAddress(address, RT(Windows(b, op)[k])))
  {
    var reg;
    status, reg := CheckParameter(b, op, width, address, count, hasBuffer);
    if status.IsError() {
      return status, Refused;
    }
    access := AccessReg(reg, width, address, count, hasBuffer);
    ghost var k := FirstContaining(Windows(b, op), address, Extent(width, count));
    WindowsAreValid(b, op);
    ContainedAccessLands(Windows(b, op)[k], width, address, count);
  }

  lemma {:induction false} FirstContaining(windows: seq<Range>, address: nat, length: nat) returns (k: nat)
    requires exists k :: 0 <= k < |windows| && Contains(windows[k], address, length)
    ensures k < |windows| && Contains(windows[k], address, length)
    ensures forall j :: 0 <= j < k ==> !Contains(windows[j], address, length)
  {
    if Contains(windows[0], address, length) {
      k := 0;
    } else {
      var i :| 0 <= i < |windows| && Contains(windows[i], address, length);
      assert windows[1..][i - 1] == windows[i];
      k := FirstContaining(windows[1..], address, length);
      k := k + 1;
      assert forall j :: 0 < j < k ==> windows[j] == windows[1..][j - 1];
    }
  }

  /** A legacy VGA window cut out of an aperture: it assumes the aperture's translation. */
  function VgaRange(r: Range, base: u64, size: u64): Range {
    var shift := Wrap64(RB(r) - base);
    r.(childBase := Wrap128(r.childBase - shift), parentBase := Wrap128(r.parentBase - shift),
       translatedParentBase := Wrap128(r.translatedParentBase - shift), length := size)
  }

  /** The window sits at its legacy address and is translated like the aperture. */
  lemma VgaRangeIsTranslatedAlike(r: Range, base: u64, size: u64)
    ensures var v := VgaRange(r, base, size);
            RB(v) == base && RT(v) == RT(r) && v.indirect == r.indirect
  {
    var v := VgaRange(r, base, size);
    var shift := Wrap64(RB(r) - base);
    var m := TWO_128 / TWO_64;
    var c, s := r.childBase / TWO_64, (RB(r) - base) / TWO_64;
    var x, y := (r.childBase - shift) / TWO_128, (r.translatedParentBase - shift) / TWO_128;
    assert v.childBase == r.childBase - shift - x * TWO_128;
    assert v.translatedParentBase == r.translatedParentBase - shift - y * TWO_128;
    WrapOf(v.childBase, base, c + s - x * m);
    SameWrap(v.childBase - v.translatedParentBase, r.childBase - r.translatedParentBase, (y - x) * m);
  }

  /** EFI_PCI_ROOT_BRIDGE_IO_PROTOCOL_PCI_ADDRESS; Register is the lowest byte. */
  datatype PciAddress = PciAddress(register: u8, function_: u8, device: u8, bus: u8, extendedRegister: u32)

  const PCI_MAX_DEVICE: nat := 31
  const PCI_MAX_FUNC: nat := 7

  function Packed(a: PciAddress): u64 {
    a.register as int + a.function_ as int * 0x100 + a.device as int * 0x1_0000 + a.bus as int * 0x100_0000
    + a.extendedRegister * TWO_32
  }

  function RegisterOf(a: PciAddress): nat { if a.extendedRegister != 0 then a.extendedRegister else a.register }

  /** Where the function's configuration space starts in an ECAM window, section
      7.2.2 of the PCI Express Base Specification. */
  function EcamBase(a: PciAddress): nat {
    a.bus as int * 0x10_0000 + a.device as int * 0x8000 + a.function_ as int * 0x1000
  }

  /** RootBridgeIoCheckParameter for configuration space. */
  method CheckConfig(b: Bridge, width: nat, a: PciAddress, count: u64, hasBuffer: bool) returns (status: Status, reg: DtReg)
    ensures EarlyStatus(PciOperation, width, Packed(a), count, hasBuffer) != Success ==>
              status == EarlyStatus(PciOperation, width, Packed(a), count, hasBuffer)
    ensures EarlyStatus(PciOperation, width, Packed(a), count, hasBuffer) == Success ==>
              && (status == Success <==> ConfigAllowed(b, a, Extent(width, count)))
              && (status != Success ==> status == InvalidParameter)
    ensures status == Success ==> reg == b.configReg
  {
    reg := DtReg(0, 0, 0, false);
    var length;
    status, length := CheckEarly(PciOperation, width, Packed(a), count, hasBuffer);
    if status.IsError() {
      return;
    }
    hide EarlyStatus, Extent;
    if a.bus < RB(b.busRange) || a.bus > RL(b.busRange) {
      return InvalidParameter, reg;
    }
    if a.device > PCI_MAX_DEVICE || a.function_ > PCI_MAX_FUNC {
      return InvalidParameter, reg;
    }
    var address: nat := if a.extendedRegister != 0 then a.extendedRegister else a.register;
    var limit := if b.noExtendedConfigSpace then 0xFF else 0xFFF;
    reg := b.configReg;
    if Wrap64(address + length) > limit + 1 {
      return InvalidParameter, reg;
    }
    return Success, reg;
  }

  /** An existing function's configuration space, 256 or 4096 bytes of it; the sum
      of register and length is a 64-bit one. */
  predicate ConfigAllowed(b: Bridge, a: PciAddress, length: nat) {
    && RB(b.busRange) <= a.bus <= RL(b.busRange)
    && a.device <= PCI_MAX_DEVICE && a.function_ <= PCI_MAX_FUNC
    && Wrap64(RegisterOf(a) + length) <= if b.noExtendedConfigSpace then 0x100 else 0x1000
  }

  ghost predicate StaysBelow(width: nat, address: nat, count: nat, limit: nat) {
    forall x: nat :: Touches(width, address, count, x) ==> x < limit
  }

  /** Which configuration accesses are let through: those to an existing function of a bus
      behind the bridge that touch none but the registers it has. */
  lemma ConfigAllowedMeans(b: Bridge, width: nat, a: PciAddress, count: u64)
    requires EarlyStatus(PciOperation, width, Packed(a), count, true) == Success && count >= 1
    ensures ConfigAllowed(b, a, Extent(width, count)) <==>
            && RB(b.busRange) <= a.bus <= RL(b.busRange) && a.device < 32 && a.function_ < 8
            && StaysBelow(width, if a.extendedRegister != 0 then a.extendedRegister else a.register, count,
                          if b.noExtendedConfigSpace then 256 else 4096)
  {
    var from := RegisterOf(a);
    Positive(width, count);
    assert from <= Packed(a);
    hide Extent, Touches, RB, RL;
    assert from + Extent(width, count) < TWO_64;
    WrapSmall(from + Extent(width, count));
    forall x: nat ensures Touches(width, from, count, x) <==> from <= x < from + Extent(width, count) {
      TouchedIsExtent(width, from, count, x);
    }
    assert Touches(width, from, count, from + Extent(width, count) - 1);
  }

  /** CheckConfig accepts the access; see its contract. */
  predicate ConfigAccepted(b: Bridge, width: nat, a: PciAddress, count: u64) {
    EarlyStatus(PciOperation, width, Packed(a), count, true) == Success && ConfigAllowed(b, a, Extent(width, count))
  }

  /** An accepted access stays inside its own function's 4096 bytes: the test on the
      packed address keeps the sum of register and length from wrapping. */
  lemma AcceptedStaysInside(b: Bridge, width: nat, a: PciAddress, count: u64)
    requires ConfigAccepted(b, width, a, count)
    ensures RegisterOf(a) + Extent(width, count) <= 0x1000
  {
    hide Extent, RB, RL;
    assert RegisterOf(a) <= Packed(a);
    assert Wrap64(RegisterOf(a) + Extent(width, count)) == RegisterOf(a) + Extent(width, count);
  }

  /** So accepted accesses to different functions never overlap. */
  lemma ConfigAccessesAreSeparate(b: Bridge, width: nat, a: PciAddress, count: u64, width': nat, a': PciAddress, count': u64,
                                  x: nat, y: nat)
    requires ConfigAccepted(b, width, a, count) && ConfigAccepted(b, width', a', count')
    requires x < Extent(width, count) && y < Extent(width', count')
    ensures EcamBase(a) + RegisterOf(a) + x == EcamBase(a') + RegisterOf(a') + y ==>
              a.bus == a'.bus && a.device == a'.device && a.function_ == a'.function_
  {
    AcceptedStaysInside(b, width, a, count);
    AcceptedStaysInside(b, width', a', count');
    var p, p' := RegisterOf(a) + x, RegisterOf(a') + y;
    hide RegisterOf, Wrap64, RB, RL, EarlyStatus, Extent;
    if EcamBase(a) + p == EcamBase(a') + p' {
      assert a.bus == a'.bus;
      assert a.device == a'.device;
      assert a.function_ == a'.function_;
    }
  }
}
