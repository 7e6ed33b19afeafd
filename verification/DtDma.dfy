/**
  DMA limits inherited down the devicetree (FdtBusDxe/DtDevice.c) and bounce
  mappings (FdtBusDxe/DtIoDma.c); dma-ranges is section 2.3.9 of the Devicetree
  Specification.
 */
module DtDma {
  import opened Uefi
  import opened GcdSpace
  import opened DtCells
  import opened DtRows
  import opened DtProperty
  import opened DtTranslate
  import opened DmaPages

  /** The last address of an identity range, as a 64-bit physical address. */
  function Top(row: Row): u64 { Wrap64(if row.size != 0 then row.child + row.size - 1 else row.child) }

  /** The limit after reading rows up to the first one that is not an identity. */
  function Narrowed(rows: seq<Row>, limit: u64): u64 {
    if rows == [] || rows[0].child != rows[0].parent then limit
    else Narrowed(rows[1..], Min(limit, Top(rows[0])))
  }

  predicate AllIdentity(rows: seq<Row>) { forall k :: 0 <= k < |rows| ==> rows[k].child == rows[k].parent }

  /** A narrowed limit is below the old one and below every identity range, and no
      lower than it has to be. */
  lemma {:induction false} NarrowedIsLeast(rows: seq<Row>, limit: u64)
    requires AllIdentity(rows)
    ensures Narrowed(rows, limit) <= limit
    ensures forall k :: 0 <= k < |rows| ==> Narrowed(rows, limit) <= Top(rows[k])
    ensures Narrowed(rows, limit) == limit || exists k :: 0 <= k < |rows| && Narrowed(rows, limit) == Top(rows[k])
  {
    if rows != [] {
      NarrowedIsLeast(rows[1..], Min(limit, Top(rows[0])));
      forall k | 0 <= k < |rows| ensures Narrowed(rows, limit) <= Top(rows[k]) {
        assert k > 0 ==> rows[k] == rows[1..][k - 1];
      }
    }
  }

  lemma {:induction false} NarrowedShrinks(rows: seq<Row>, limit: u64)
    ensures Narrowed(rows, limit) <= limit
  {
    if rows != [] && rows[0].child == rows[0].parent {
      NarrowedShrinks(rows[1..], Min(limit, Top(rows[0])));
    }
  }

  /** The rows end within the 64-bit address space. */
  predicate EndIn64(rows: seq<Row>) {
    forall k :: 0 <= k < |rows| ==> rows[k].child < TWO_64 && rows[k].child + rows[k].size <= TWO_64
  }

  /** The address lies before the end of every row; an empty row still reaches its base. */
  predicate BeforeEnds(rows: seq<Row>, a: nat) {
    forall k :: 0 <= k < |rows| ==> if rows[k].size == 0 then a <= rows[k].child else a < rows[k].child + rows[k].size
  }

  lemma TopTells(row: Row, a: nat)
    requires row.child < TWO_64 && row.child + row.size <= TWO_64
    ensures a <= Top(row) <==> if row.size == 0 then a <= row.child else a < row.child + row.size
  {}

  /** An address is within the narrowed limit if and only if it was within the old one and
      lies before the end of every identity range. */
  lemma {:induction false} LimitTells(rows: seq<Row>, limit: u64, a: nat)
    requires AllIdentity(rows) && EndIn64(rows)
    ensures a <= Narrowed(rows, limit) <==> a <= limit && BeforeEnds(rows, a)
  {
    if rows != [] {
      TopTells(rows[0], a);
      hide Top;
      LimitTells(rows[1..], Min(limit, Top(rows[0])), a);
      BeforeEndsSplit(rows, a);
      hide BeforeEnds;
    }
  }

  /** The addresses up to the new limit are those up to the old one that lie before the end
      of every row. */
  ghost predicate Bounds(rows: seq<Row>, limit: u64, narrowed: u64) {
    forall a: nat :: BeforeEnds(rows, a) && a <= limit <==> a <= narrowed
  }

  lemma LimitBounds(rows: seq<Row>, limit: u64)
    requires AllIdentity(rows) && EndIn64(rows)
    ensures Bounds(rows, limit, Narrowed(rows, limit))
  {
    hide BeforeEnds, AllIdentity, EndIn64, Narrowed;
    forall a: nat ensures BeforeEnds(rows, a) && a <= limit <==> a <= Narrowed(rows, limit) {
      LimitTells(rows, limit, a);
    }
  }

  lemma BeforeEndsSplit(rows: seq<Row>, a: nat)
    requires rows != []
    ensures BeforeEnds(rows, a) <==>
            (if rows[0].size == 0 then a <= rows[0].child else a < rows[0].child + rows[0].size) && BeforeEnds(rows[1..], a)
  {
    if BeforeEnds(rows[1..], a) {
      assert forall k :: 0 < k < |rows| ==> rows[k] == rows[1..][k - 1];
    }
  }

  /** All rows are whole, at least up to the first that is not an identity. */
  predicate Readable(data: seq<u8>, at: nat, w: Widths)
    requires at <= |data| && w.Valid()
    decreases |data| - at
  {
    at == |data| ||
    (var r := RowAt(data, at, w);
     r.GotRow? && (r.row.child != r.row.parent || Readable(data, r.next, w)))
  }

  /** Encoded rows are readable unless something short of a row stands behind identities only. */
  lemma {:induction false} ReadableUnlessTorn(before: seq<u8>, rows: seq<Row>, w: Widths, rest: seq<u8>)
    requires w.Valid() && 0 < w.child && 0 < w.parent && |rest| < 4 * (w.child + w.parent + w.size)
    requires forall k :: 0 <= k < |rows| ==> Fits(rows[k], w)
    ensures var data := before + RowsBytes(rows, w) + rest;
            && RowsFrom(data, |before|, w) == rows
            && (Readable(data, |before|, w) <==> rest == [] || !AllIdentity(rows))
    decreases |rows|
  {
    hide RowAt, NumberBytes, Fits;
    var data := before + RowsBytes(rows, w) + rest;
    if rows == [] {
      assert data == before + rest;
      RowExtent(data, |before|, w);
    } else {
      var first, others := RowBytes(rows[0], w), RowsBytes(rows[1..], w);
      RowRoundTrip(before, rows[0], w, others + rest);
      assert data == before + first + (others + rest) == (before + first) + others + rest;
      ReadableUnlessTorn(before + first, rows[1..], w, rest);
      assert rows == [rows[0]] + rows[1..];
      if rows[0].child == rows[0].parent {
        TailIdentity(rows);
      }
    }
  }

  /** DMA state a device inherits. */
  datatype DmaLimits = DmaLimits(maxCpuDmaAddress: u64, nonIdentity: bool)

  const NO_LIMITS: DmaLimits := DmaLimits(0xFFFF_FFFF_FFFF_FFFF, false)

  predicate Consistent(l: DmaLimits) { l.nonIdentity ==> l.maxCpuDmaAddress == 0 }

  /** What the rows of a property come to; an empty one leaves everything as it was. */
  lemma LimitsTell(data: seq<u8>, w: Widths, limit: u64)
    requires w.Valid()
    ensures var rows := RowsFrom(data, 0, w);
            && (AllIdentity(rows) && EndIn64(rows) ==> Bounds(rows, limit, Narrowed(rows, limit)))
            && (data == [] ==> rows == [] && Readable(data, 0, w) && Narrowed(rows, limit) == limit)
  {
    hide RowsFrom, EndIn64, AllIdentity, Narrowed, Readable, Bounds;
    var rows := RowsFrom(data, 0, w);
    if AllIdentity(rows) && EndIn64(rows) {
      LimitBounds(rows, limit);
    }
    if data == [] {
      EmptyTable(w, limit);
    }
  }

  lemma EmptyTable(w: Widths, limit: u64)
    requires w.Valid()
    ensures RowsFrom([], 0, w) == [] && Readable([], 0, w) && Narrowed([], limit) == limit
  {}

  /** DtDeviceCreateDmaInit behind the coherency lookup; `d` supplies the cell
      widths.  If looking up dma-ranges fails for another reason than a missing
      property, the C code goes on with whatever the property variable held. */
  method DmaInit(d: Device, dmaRanges: RangesProp, inherited: DmaLimits) returns (status: Status, l: DmaLimits)
    requires ValidDevice(d) && Consistent(inherited)
    ensures Consistent(l)
    ensures l.maxCpuDmaAddress <= inherited.maxCpuDmaAddress && (inherited.nonIdentity ==> l.nonIdentity)
    ensures dmaRanges.Missing? || dmaRanges == Present([]) ==> status == Success && l == inherited
    ensures dmaRanges.Present? ==> (status == Success <==> Readable(dmaRanges.data, 0, RowWidths(d)))
    ensures dmaRanges.Present? && status == Success ==>
              var rows := RowsFrom(dmaRanges.data, 0, RowWidths(d));
              && l.nonIdentity == (inherited.nonIdentity || !AllIdentity(rows))
              && (!l.nonIdentity ==> l.maxCpuDmaAddress == Narrowed(rows, inherited.maxCpuDmaAddress))
    ensures dmaRanges.Present? && status == Success ==>
              var rows := RowsFrom(dmaRanges.data, 0, RowWidths(d));
              && (l.nonIdentity <==> inherited.nonIdentity || exists k :: 0 <= k < |rows| && rows[k].child != rows[k].parent)
              && (!l.nonIdentity && EndIn64(rows) ==> Bounds(rows, inherited.maxCpuDmaAddress, l.maxCpuDmaAddress))
  {
    hide Bounds, EndIn64, Narrowed, RowsFrom, Readable, RowWidths, ValidDevice;
    l := inherited;
    var data: seq<u8> := *;
    match dmaRanges {
      case Missing => return Success, l;
      case Corrupt =>
      case Present(bytes) => data := bytes;
    }
    LimitsTell(data, RowWidths(d), inherited.maxCpuDmaAddress);
    if data == [] {
      return Success, l;
    }
    status, l := NarrowLoop(d, data, l);
    if status == Success && l.nonIdentity {
      l := l.(maxCpuDmaAddress := 0);
    }
  }

  method NarrowLoop(d: Device, data: seq<u8>, inherited: DmaLimits) returns (status: Status, l: DmaLimits)
    requires ValidDevice(d) && Consistent(inherited)
    ensures l.maxCpuDmaAddress <= inherited.maxCpuDmaAddress && (inherited.nonIdentity ==> l.nonIdentity)
    ensures status == Success <==> Readable(data, 0, RowWidths(d))
    ensures status == Success ==>
              var rows := RowsFrom(data, 0, RowWidths(d));
              && l.nonIdentity == (inherited.nonIdentity || !AllIdentity(rows))
              && l.maxCpuDmaAddress == Narrowed(rows, inherited.maxCpuDmaAddress)
    ensures status != Success ==> l.nonIdentity == inherited.nonIdentity
  {
    l := inherited;
    status := Success;
    var w := RowWidths(d);
    ghost var all := RowsFrom(data, 0, w);
    var prop := new Property(data);
    hide RowAt, RowsFrom, RowWidths, ValidDevice, Top, Wrap64;
    while prop.iter < |data|
      invariant prop.Valid() && status == Success && (Readable(data, 0, w) <==> Readable(data, prop.iter, w))
      invariant l.maxCpuDmaAddress <= inherited.maxCpuDmaAddress && l.nonIdentity == inherited.nonIdentity
      invariant var rest := RowsFrom(data, prop.iter, w);
                && (AllIdentity(all) <==> AllIdentity(rest))
                && Narrowed(all, inherited.maxCpuDmaAddress) == Narrowed(rest, l.maxCpuDmaAddress)
      decreases |data| - prop.iter
    {
      UnfoldRows(data, prop.iter, w);
      NarrowedShrinks(RowsFrom(data, prop.iter, w), l.maxCpuDmaAddress);
      var row;
      ghost var rest := RowsFrom(data, prop.iter, w);
      status, row := ReadRow(d, prop);
      if status.IsError() {
        return;
      }
      assert rest[0] == row && rest[1..] == RowsFrom(data, prop.iter, w);
      if row.child != row.parent {
        l := l.(nonIdentity := true);
        break;
      }
      TailIdentity(rest);
      var top := Top(row);
      if l.maxCpuDmaAddress > top {
        l := l.(maxCpuDmaAddress := top);
      }
    }
    NoRowsLeft(data, w);
  }

  lemma TailIdentity(rows: seq<Row>)
    requires rows != [] && rows[0].child == rows[0].parent
    ensures AllIdentity(rows) <==> AllIdentity(rows[1..])
  {
    if AllIdentity(rows[1..]) {
      forall k | 0 <= k < |rows| ensures rows[k].child == rows[k].parent {
        assert k > 0 ==> rows[k] == rows[1..][k - 1];
      }
    }
  }

  lemma UnfoldRows(data: seq<u8>, at: nat, w: Widths)
    requires at < |data| && w.Valid()
    ensures var r := RowAt(data, at, w);
            RowsFrom(data, at, w) == if r.NoRow? then [] else [r.row] + RowsFrom(data, r.next, w)
  {
    hide RowAt;
  }

  lemma NoRowsLeft(data: seq<u8>, w: Widths)
    requires w.Valid()
    ensures RowsFrom(data, |data|, w) == []
  {}
}
