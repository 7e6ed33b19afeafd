/**
  The reg and ranges field parsers of FdtBusDxe/DtIoPropParse.c: several numbers
  and a translation to a CPU address behind one cursor.
 */
module DtRegs {
  import opened Uefi
  import opened DtCells
  import opened DtRows
  import opened DtProperty
  import opened DtTranslate

  /** EFI_DT_REG and EFI_DT_RANGE; `bus` is NoDevice for a CPU address. */
  datatype Reg = Reg(busBase: u128, translatedBase: u128, length: u128, bus: MaybeDevice)
  datatype RangeField = RangeField(childBase: u128, parentBase: u128, translatedParentBase: u128, length: u128, bus: MaybeDevice)

  /** DtDeviceTranslateRangeToCpu as a value. */
  datatype Translation = Translated(address: u128, bus: MaybeDevice) | Refused(status: Status)

  function ToCpu(d: Device, address: u128, length: u128): Translation
    requires ValidDevice(d)
  {
    match Walk(d.parent, address, length)
    case WalkBroken => Refused(DeviceError)
    case Reached(bus, a) =>
      if bus.NoDevice? && !CpuVisible(a, length) then Refused(Unsupported) else Translated(a, bus)
  }

  /** A bus address and a size, as in `reg`: a row without a parent address. */
  datatype PairParse = NoPair | GotPair(base: u128, size: u128, next: nat)

  function PairAt(data: seq<u8>, at: nat, addressCells: nat, sizeCells: nat): (r: PairParse)
    requires at <= |data| && addressCells <= MAX_CELLS && sizeCells <= MAX_CELLS
    ensures r.GotPair? ==> at < r.next <= |data|
  {
    var base := AddressAt(data, at, addressCells, 0);
    if base.Fail? then NoPair else
    var size := SizeAt(data, base.next, sizeCells, 0);
    if size.Fail? then NoPair else
      FieldBound(data, at, addressCells, 0);
      if sizeCells > 0 then
        FieldBound(data, base.next, sizeCells, 0);
        GotPair(base.value, size.value, size.next)
      else GotPair(base.value, 0, size.next)
  }

  /** The space test of the composite parsers, and the byte offset of an entry. */
  predicate HasEntry(bytes: nat, cells: nat, index: nat) { cells != 0 && bytes / 4 / cells > index }

  function EntryOffset(cells: nat, index: nat): nat { 4 * (cells * index) }

  /** Pair number `index` behind an offset, found by its position. */
  function PairIndexed(data: seq<u8>, at: nat, addressCells: nat, sizeCells: nat, index: nat): PairParse
    requires at <= |data| && addressCells <= MAX_CELLS && sizeCells <= MAX_CELLS
  {
    if !HasEntry(|data| - at, addressCells + sizeCells, index) then NoPair
    else
      FieldFits(|data| - at, addressCells + sizeCells, index);
      PairAt(data, at + EntryOffset(addressCells + sizeCells, index), addressCells, sizeCells)
  }

  /** Row number `index` behind an offset, found by its position. */
  function RowIndexed(data: seq<u8>, at: nat, w: Widths, index: nat): RowParse
    requires at <= |data| && w.Valid()
  {
    if !HasEntry(|data| - at, w.child + w.parent + w.size, index) then NoRow
    else
      FieldFits(|data| - at, w.child + w.parent + w.size, index);
      RowAt(data, at + EntryOffset(w.child + w.parent + w.size, index), w)
  }

  /** The same by reading `index` + 1 entries one after the other. */
  function PairsInTurn(data: seq<u8>, at: nat, addressCells: nat, sizeCells: nat, index: nat): PairParse
    requires at <= |data| && addressCells <= MAX_CELLS && sizeCells <= MAX_CELLS
    decreases index
  {
    var first := PairAt(data, at, addressCells, sizeCells);
    if index == 0 || first.NoPair? then first else PairsInTurn(data, first.next, addressCells, sizeCells, index - 1)
  }

  function RowsInTurn(data: seq<u8>, at: nat, w: Widths, index: nat): RowParse
    requires at <= |data| && w.Valid()
    decreases index
  {
    var first := RowAt(data, at, w);
    if index == 0 || first.NoRow? then first else RowsInTurn(data, first.next, w, index - 1)
  }

  /** An entry is there exactly when its addresses have cells and all its cells
      are left; it takes all of them. */
  lemma PairExtent(data: seq<u8>, at: nat, addressCells: nat, sizeCells: nat)
    requires at <= |data| && addressCells <= MAX_CELLS && sizeCells <= MAX_CELLS
    ensures var r := PairAt(data, at, addressCells, sizeCells);
            if addressCells > 0 && |data| - at >= 4 * (addressCells + sizeCells)
            then r.GotPair? && r.next == at + 4 * (addressCells + sizeCells) else r == NoPair
  {
    hide FieldAt;
    if addressCells > 0 {
      FirstField(data, at, addressCells);
      if sizeCells > 0 && |data| - at >= 4 * addressCells {
        FirstField(data, at + 4 * addressCells, sizeCells);
      }
    }
  }

  lemma EntryMoves(bytes: nat, cells: nat, index: nat)
    requires cells > 0
    ensures HasEntry(bytes, cells, index + 1) <==> bytes >= 4 * cells && HasEntry(bytes - 4 * cells, cells, index)
    ensures EntryOffset(cells, index + 1) == 4 * cells + EntryOffset(cells, index)
  {
    FieldFits(bytes, cells, index + 1);
    FieldFits(bytes, cells, index);
    if bytes >= 4 * cells {
      FieldFits(bytes - 4 * cells, cells, index);
    }
  }

  lemma EntryZero(bytes: nat, cells: nat)
    ensures HasEntry(bytes, cells, 0) <==> cells > 0 && bytes >= 4 * cells
    ensures EntryOffset(cells, 0) == 0
  {
    if cells > 0 {
      FieldFits(bytes, cells, 0);
      assert cells * 1 == cells;
    }
  }

  lemma PairMoves(data: seq<u8>, at: nat, addressCells: nat, sizeCells: nat, index: nat)
    requires at <= |data| && 0 < addressCells <= MAX_CELLS && sizeCells <= MAX_CELLS
    ensures var n := 4 * (addressCells + sizeCells);
            PairIndexed(data, at, addressCells, sizeCells, index + 1) ==
              if |data| - at >= n then PairIndexed(data, at + n, addressCells, sizeCells, index) else NoPair
  {
    hide PairAt, HasEntry, EntryOffset;
    EntryMoves(|data| - at, addressCells + sizeCells, index);
  }

  lemma FirstPair(data: seq<u8>, at: nat, addressCells: nat, sizeCells: nat)
    requires at <= |data| && 0 < addressCells <= MAX_CELLS && sizeCells <= MAX_CELLS
    ensures PairIndexed(data, at, addressCells, sizeCells, 0) == PairAt(data, at, addressCells, sizeCells)
  {
    hide PairAt, HasEntry, EntryOffset;
    EntryZero(|data| - at, addressCells + sizeCells);
    PairExtent(data, at, addressCells, sizeCells);
  }

  /** For pairs and rows too, parsing at an index is parsing in turn. */
  lemma {:induction false} PairIndexedIsInTurn(data: seq<u8>, at: nat, addressCells: nat, sizeCells: nat, index: nat)
    requires at <= |data| && addressCells <= MAX_CELLS && sizeCells <= MAX_CELLS
    ensures PairIndexed(data, at, addressCells, sizeCells, index) == PairsInTurn(data, at, addressCells, sizeCells, index)
    decreases index
  {
    hide PairAt, PairIndexed;
    PairExtent(data, at, addressCells, sizeCells);
    if addressCells == 0 {
      NoAddressNoPair(data, at, sizeCells, index);
    } else if index == 0 {
      FirstPair(data, at, addressCells, sizeCells);
    } else {
      PairMoves(data, at, addressCells, sizeCells, index - 1);
      var n := 4 * (addressCells + sizeCells);
      if |data| - at >= n {
        PairIndexedIsInTurn(data, at + n, addressCells, sizeCells, index - 1);
      }
    }
  }

  lemma NoAddressNoPair(data: seq<u8>, at: nat, sizeCells: nat, index: nat)
    requires at <= |data| && sizeCells <= MAX_CELLS
    ensures PairIndexed(data, at, 0, sizeCells, index) == NoPair
  {}

  lemma NoAddressNoIndexedRow(data: seq<u8>, at: nat, w: Widths, index: nat)
    requires at <= |data| && w.Valid() && (w.child == 0 || w.parent == 0)
    ensures RowIndexed(data, at, w, index) == NoRow
  {}

  lemma RowMoves(data: seq<u8>, at: nat, w: Widths, index: nat)
    requires at <= |data| && w.Valid() && 0 < w.child && 0 < w.parent
    ensures var n := 4 * (w.child + w.parent + w.size);
            RowIndexed(data, at, w, index + 1) ==
              if |data| - at >= n then RowIndexed(data, at + n, w, index) else NoRow
  {
    hide RowAt, HasEntry, EntryOffset;
    EntryMoves(|data| - at, w.child + w.parent + w.size, index);
  }

  lemma FirstRow(data: seq<u8>, at: nat, w: Widths)
    requires at <= |data| && w.Valid() && 0 < w.child && 0 < w.parent
    ensures RowIndexed(data, at, w, 0) == RowAt(data, at, w)
  {
    EntryZero(|data| - at, w.child + w.parent + w.size);
    RowExtent(data, at, w);
    hide RowAt, HasEntry, EntryOffset;
  }

  lemma {:induction false} RowIndexedIsInTurn(data: seq<u8>, at: nat, w: Widths, index: nat)
    requires at <= |data| && w.Valid()
    ensures RowIndexed(data, at, w, index) == RowsInTurn(data, at, w, index)
    decreases index
  {
    hide RowAt, RowIndexed;
    RowExtent(data, at, w);
    if w.child == 0 || w.parent == 0 {
      NoAddressNoIndexedRow(data, at, w, index);
    } else if index == 0 {
      FirstRow(data, at, w);
    } else {
      RowMoves(data, at, w, index - 1);
      var n := 4 * (w.child + w.parent + w.size);
      if |data| - at >= n {
        RowIndexedIsInTurn(data, at + n, w, index - 1);
      }
    }
  }

  /** Rows encoded one behind the other are found at their index, and none behind the last. */
  lemma {:induction false} EncodedRowIsFound(before: seq<u8>, rows: seq<Row>, w: Widths, index: nat)
    requires w.Valid() && 0 < w.child && 0 < w.parent
    requires forall k :: 0 <= k < |rows| ==> DtRows.Fits(rows[k], w)
    ensures var r := RowIndexed(before + RowsBytes(rows, w), |before|, w, index);
            if index < |rows| then r.GotRow? && r.row == rows[index] else r == NoRow
    decreases index
  {
    hide RowAt, RowIndexed, RowBytes, NumberBytes, DtRows.Fits;
    if rows == [] {
      NoRowLeft(before, w, index);
    } else {
      var first, rest := RowBytes(rows[0], w), RowsBytes(rows[1..], w);
      var data := before + first + rest;
      RowRoundTrip(before, rows[0], w, rest);
      RowExtent(data, |before|, w);
      assert before + RowsBytes(rows, w) == data;
      if index == 0 {
        FirstRow(data, |before|, w);
      } else {
        RowMoves(data, |before|, w, index - 1);
        EncodedRowIsFound(before + first, rows[1..], w, index - 1);
      }
    }
  }

  lemma NoRowLeft(data: seq<u8>, w: Widths, index: nat)
    requires w.Valid() && 0 < w.child && 0 < w.parent
    ensures RowIndexed(data + RowsBytes([], w), |data|, w, index) == NoRow
  {
    assert data + RowsBytes([], w) == data;
    hide RowAt, RowIndexed;
    RowExtent(data, |data|, w);
    RowIndexedIsInTurn(data, |data|, w, index);
  }

  /** An address and a size in as many cells as the bus gives them. */
  datatype Pair = Pair(base: u128, size: u128)

  predicate PairFits(pair: Pair, addressCells: nat, sizeCells: nat) {
    pair.base < CellPower(addressCells) && pair.size < CellPower(sizeCells)
  }

  function PairBytes(pair: Pair, addressCells: nat, sizeCells: nat): (r: seq<u8>)
    requires PairFits(pair, addressCells, sizeCells)
    ensures |r| == 4 * (addressCells + sizeCells)
  {
    NumberBytes(pair.base, addressCells) + NumberBytes(pair.size, sizeCells)
  }

  function PairsBytes(pairs: seq<Pair>, addressCells: nat, sizeCells: nat): seq<u8>
    requires forall k :: 0 <= k < |pairs| ==> PairFits(pairs[k], addressCells, sizeCells)
  {
    if pairs == [] then [] else PairBytes(pairs[0], addressCells, sizeCells) + PairsBytes(pairs[1..], addressCells, sizeCells)
  }

  lemma PairRoundTrip(before: seq<u8>, pair: Pair, addressCells: nat, sizeCells: nat, after: seq<u8>)
    requires 0 < addressCells <= MAX_CELLS && sizeCells <= MAX_CELLS && PairFits(pair, addressCells, sizeCells)
    ensures var own := PairBytes(pair, addressCells, sizeCells);
            PairAt(before + own + after, |before|, addressCells, sizeCells) == GotPair(pair.base, pair.size, |before| + |own|)
  {
    hide FieldAt, NumberBytes, CellPower;
    var b, z := NumberBytes(pair.base, addressCells), NumberBytes(pair.size, sizeCells);
    var data := before + PairBytes(pair, addressCells, sizeCells) + after;
    assert data == before + b + (z + after);
    FieldRoundTrip(before, pair.base, addressCells, z + after);
    assert data == (before + b) + z + after;
    SizeRoundTrip(before + b, pair.size, sizeCells, after);
  }

  /** The same for the entries of `reg`. */
  lemma {:induction false} EncodedPairIsFound(before: seq<u8>, pairs: seq<Pair>, addressCells: nat, sizeCells: nat, index: nat)
    requires 0 < addressCells <= MAX_CELLS && sizeCells <= MAX_CELLS
    requires forall k :: 0 <= k < |pairs| ==> PairFits(pairs[k], addressCells, sizeCells)
    ensures var r := PairIndexed(before + PairsBytes(pairs, addressCells, sizeCells), |before|, addressCells, sizeCells, index);
            if index < |pairs| then r.GotPair? && r.base == pairs[index].base && r.size == pairs[index].size else r == NoPair
    decreases index
  {
    hide PairAt, PairIndexed, PairBytes, NumberBytes, PairFits;
    if pairs == [] {
      NoPairLeft(before, addressCells, sizeCells, index);
    } else {
      var first, rest := PairBytes(pairs[0], addressCells, sizeCells), PairsBytes(pairs[1..], addressCells, sizeCells);
      var data := before + first + rest;
      PairRoundTrip(before, pairs[0], addressCells, sizeCells, rest);
      PairExtent(data, |before|, addressCells, sizeCells);
      assert before + PairsBytes(pairs, addressCells, sizeCells) == data;
      if index == 0 {
        FirstPair(data, |before|, addressCells, sizeCells);
      } else {
        PairMoves(data, |before|, addressCells, sizeCells, index - 1);
        EncodedPairIsFound(before + first, pairs[1..], addressCells, sizeCells, index - 1);
      }
    }
  }

  lemma NoPairLeft(data: seq<u8>, addressCells: nat, sizeCells: nat, index: nat)
    requires 0 < addressCells <= MAX_CELLS && sizeCells <= MAX_CELLS
    ensures PairIndexed(data + PairsBytes([], addressCells, sizeCells), |data|, addressCells, sizeCells, index) == NoPair
  {
    assert data + PairsBytes([], addressCells, sizeCells) == data;
    hide PairAt, PairIndexed;
    PairExtent(data, |data|, addressCells, sizeCells);
    PairIndexedIsInTurn(data, |data|, addressCells, sizeCells, index);
  }

  /** What a composite parser returns for decoded fields: the translation's error,
      then that of the memory-attribute update of a CPU-visible, nonempty field. */
  function FieldStatus(t: Translation, length: u128, update: Status): Status {
    if t.Refused? then t.status
    else if t.bus.NoDevice? && length != 0 then update
    else Success
  }

  /** Memory attributes matter for what the CPU can see, and there for nonempty fields only. */
  lemma AttributesMatter(address: u128, bus: MaybeDevice, length: u128, update: Status)
    ensures FieldStatus(Translated(address, bus), length, update) == if bus == NoDevice && length > 0 then update else Success
  {}

  /** DtIoParsePropReg; `update` is the outcome of looking up and applying the
      memory type and attributes. */
  method ParseReg(d: Device, prop: Property, index: nat, update: Status) returns (status: Status, reg: Reg)
    requires ValidDevice(d) && prop.Valid()
    modifies prop`iter
    ensures prop.Valid() && (status.IsError() ==> prop.iter == old(prop.iter))
    ensures match PairIndexed(prop.data, old(prop.iter), d.addressCells, d.sizeCells, index)
            case NoPair => status == NotFound
            case GotPair(base, size, next) =>
              && status == FieldStatus(ToCpu(d, base, size), size, update)
              && (!status.IsError() ==>
                    prop.iter == next
                    && reg == Reg(base, ToCpu(d, base, size).address, size, ToCpu(d, base, size).bus))
    ensures !status.IsError() ==>
              && (exists n :: Arrives(d.parent, n, reg.bus))
              && (reg.bus.NoDevice? && reg.length != 0 ==> !update.IsError())
  {
    hide Walk, CpuVisible, ValidDevice, FieldAt, Arrives, Untranslated, Unreadable, Identity, Buses;
    reg := Reg(0, 0, 0, NoDevice);
    var cells := d.addressCells + d.sizeCells;
    var original := prop.iter;
    if !HasEntry(|prop.data| - prop.iter, cells, index) {
      return NotFound, reg;
    }
    FieldFits(|prop.data| - prop.iter, cells, index);
    prop.iter := prop.iter + EntryOffset(cells, index);
    var base, size, address, bus;
    status, base, size := ReadPair(d, prop);
    if !status.IsError() {
      status, address, bus := Translate(d, base, size);
      if !status.IsError() && bus.NoDevice? && size != 0 {
        status := update;
      }
    }
    if status.IsError() {
      prop.iter := original;
    } else {
      reg := Reg(base, address, size, bus);
    }
  }

  method ReadPair(d: Device, prop: Property) returns (status: Status, base: u128, size: u128)
    requires ValidDevice(d) && prop.Valid()
    modifies prop`iter
    ensures prop.Valid()
    ensures match PairAt(prop.data, old(prop.iter), d.addressCells, d.sizeCells)
            case NoPair => status == NotFound
            case GotPair(b, s, next) => status == Success && base == b && size == s && prop.iter == next
  {
    size := 0;
    status, base := prop.ParseAddress(d.addressCells, 0);
    if !status.IsError() {
      status, size := prop.ParseSize(d.sizeCells, 0);
    }
  }

  method Translate(d: Device, address: u128, length: u128) returns (status: Status, out: u128, bus: MaybeDevice)
    requires ValidDevice(d)
    ensures match ToCpu(d, address, length)
            case Refused(s) => status == s && s.IsError()
            case Translated(a, b) => status == Success && out == a && bus == b
    ensures status == Success ==> exists n :: Arrives(d.parent, n, bus)
  {
    status, out, bus := TranslateRangeToCpu(d, address, length);
  }

  /** DtIoParsePropRange. */
  method ParseRange(d: Device, prop: Property, index: nat, update: Status) returns (status: Status, range: RangeField)
    requires ValidDevice(d) && prop.Valid()
    modifies prop`iter
    ensures prop.Valid() && (status.IsError() ==> prop.iter == old(prop.iter))
    ensures match RowIndexed(prop.data, old(prop.iter), RowWidths(d), index)
            case NoRow => status == NotFound
            case GotRow(row, next) =>
              && status == FieldStatus(ToCpu(d, row.parent, row.size), row.size, update)
              && (!status.IsError() ==>
                    prop.iter == next
                    && range == RangeField(row.child, row.parent, ToCpu(d, row.parent, row.size).address, row.size,
                                           ToCpu(d, row.parent, row.size).bus))
    ensures !status.IsError() ==>
              && (exists n :: Arrives(d.parent, n, range.bus))
              && (range.bus.NoDevice? && range.length != 0 ==> !update.IsError())
  {
    hide Walk, CpuVisible, ValidDevice, RowAt, Arrives, Untranslated, Unreadable, Identity, Buses;
    range := RangeField(0, 0, 0, 0, NoDevice);
    var cells := d.childAddressCells + d.addressCells + d.childSizeCells;
    var original := prop.iter;
    if !HasEntry(|prop.data| - prop.iter, cells, index) {
      return NotFound, range;
    }
    FieldFits(|prop.data| - prop.iter, cells, index);
    prop.iter := prop.iter + EntryOffset(cells, index);
    var row, address, bus;
    status, row := ReadRow(d, prop);
    if !status.IsError() {
      status, address, bus := Translate(d, row.parent, row.size);
      if !status.IsError() && bus.NoDevice? && row.size != 0 {
        status := update;
      }
    }
    if status.IsError() {
      prop.iter := original;
    } else {
      range := RangeField(row.child, row.parent, address, row.size, bus);
    }
  }
}
