/**
  The (child address, parent address, size) rows of a `ranges` property
  (section 2.3.8 of the Devicetree Specification).
 */
module DtRows {
  import opened Uefi
  import opened DtCells

  /** Cells per child address, parent address and size; none exceeds FDT_MAX_NCELLS. */
  datatype Widths = Widths(child: nat, parent: nat, size: nat) {
    predicate Valid() { child <= MAX_CELLS && parent <= MAX_CELLS && size <= MAX_CELLS }
  }

  datatype Row = Row(child: u128, parent: u128, size: u128)

  /** A bus address: without address cells there is none. */
  function AddressAt(data: seq<u8>, at: nat, width: nat, index: nat): (r: Parse)
    requires at <= |data|
    ensures r.Got? ==> at < r.next <= |data|
  {
    if width == 0 then Fail else FieldAt(data, at, width, index)
  }

  /** A size: without size cells it is zero and takes no space. */
  function SizeAt(data: seq<u8>, at: nat, width: nat, index: nat): (r: Parse)
    requires at <= |data|
    ensures r.Got? ==> at <= r.next <= |data|
  {
    if width == 0 then Got(0, at) else FieldAt(data, at, width, index)
  }

  lemma FieldBound(data: seq<u8>, at: nat, width: nat, index: nat)
    requires at <= |data| && 0 < width <= MAX_CELLS
    ensures var r := FieldAt(data, at, width, index); r.Got? ==> r.value < CellPower(width) <= TWO_128
  {
    if FieldAt(data, at, width, index).Got? {
      FieldFits(|data| - at, width, index);
      NumberBound(data, at + 4 * (width * index), width);
      CellPowerMonotonic(width, 4);
      CellPowers();
    }
  }

  datatype RowParse = NoRow | GotRow(row: Row, next: nat)

  /** One row: child address, parent address, size. */
  function RowAt(data: seq<u8>, at: nat, w: Widths): (r: RowParse)
    requires at <= |data| && w.Valid()
    ensures r.GotRow? ==> at < r.next <= |data|
  {
    var child := AddressAt(data, at, w.child, 0);
    if child.Fail? then NoRow else
    var parent := AddressAt(data, child.next, w.parent, 0);
    if parent.Fail? then NoRow else
    var size := SizeAt(data, parent.next, w.size, 0);
    if size.Fail? then NoRow else
      FieldBound(data, at, w.child, 0);
      FieldBound(data, child.next, w.parent, 0);
      if w.size > 0 then
        FieldBound(data, parent.next, w.size, 0);
        GotRow(Row(child.value, parent.value, size.value), size.next)
      else GotRow(Row(child.value, parent.value, 0), size.next)
  }

  /** All rows up to the end of the property or the first truncated one. */
  function RowsFrom(data: seq<u8>, at: nat, w: Widths): seq<Row>
    requires at <= |data| && w.Valid()
    decreases |data| - at
  {
    if at == |data| then []
    else
      match RowAt(data, at, w)
      case NoRow => []
      case GotRow(row, next) => [row] + RowsFrom(data, next, w)
  }

  predicate Fits(row: Row, w: Widths) {
    row.child < CellPower(w.child) && row.parent < CellPower(w.parent) && row.size < CellPower(w.size)
  }

  function RowBytes(row: Row, w: Widths): seq<u8>
    requires Fits(row, w)
  {
    NumberBytes(row.child, w.child) + NumberBytes(row.parent, w.parent) + NumberBytes(row.size, w.size)
  }

  function RowsBytes(rows: seq<Row>, w: Widths): seq<u8>
    requires forall k :: 0 <= k < |rows| ==> Fits(rows[k], w)
  {
    if rows == [] then [] else RowBytes(rows[0], w) + RowsBytes(rows[1..], w)
  }

  /** A number encoded inside a property is read back where it stands. */
  lemma FieldRoundTrip(before: seq<u8>, x: nat, width: nat, after: seq<u8>)
    requires 0 < width && x < CellPower(width)
    ensures FieldAt(before + NumberBytes(x, width) + after, |before|, width, 0)
            == Got(x, |before| + 4 * width)
  {
    var own := NumberBytes(x, width);
    var data := before + own + after;
    FieldFits(|data| - |before|, width, 0);
    assert width * 0 == 0 && width * 1 == width;
    assert data[|before|..|before| + 4 * width] == own == own[0..4 * width];
    NumberLocal(data, |before|, own, 0, width);
    NumberRoundTrip(x, width);
  }

  lemma RowRoundTrip(before: seq<u8>, row: Row, w: Widths, after: seq<u8>)
    requires w.Valid() && 0 < w.child && 0 < w.parent && Fits(row, w)
    ensures RowAt(before + RowBytes(row, w) + after, |before|, w) == GotRow(row, |before| + |RowBytes(row, w)|)
  {
    hide FieldAt, NumberBytes, CellPower;
    var c, p, z := NumberBytes(row.child, w.child), NumberBytes(row.parent, w.parent), NumberBytes(row.size, w.size);
    var data := before + RowBytes(row, w) + after;
    assert data == before + c + (p + z + after);
    FieldRoundTrip(before, row.child, w.child, p + z + after);
    assert data == (before + c) + p + (z + after);
    FieldRoundTrip(before + c, row.parent, w.parent, z + after);
    SizeRoundTrip(before + c + p, row.size, w.size, after);
    assert data == (before + c + p) + z + after;
  }

  lemma SizeRoundTrip(before: seq<u8>, x: nat, width: nat, after: seq<u8>)
    requires x < CellPower(width)
    ensures SizeAt(before + NumberBytes(x, width) + after, |before|, width, 0) == Got(x, |before| + 4 * width)
  {
    if width > 0 {
      FieldRoundTrip(before, x, width, after);
    }
  }

  lemma FirstField(data: seq<u8>, at: nat, width: nat)
    requires at <= |data| && 0 < width
    ensures var r := FieldAt(data, at, width, 0);
            if |data| - at >= 4 * width then r.Got? && r.next == at + 4 * width else r == Fail
  {
    FieldFits(|data| - at, width, 0);
    assert width * 0 == 0 && width * 1 == width;
  }

  /** A row is there exactly when its addresses have cells and all its cells are left. */
  lemma RowExtent(data: seq<u8>, at: nat, w: Widths)
    requires at <= |data| && w.Valid()
    ensures var r := RowAt(data, at, w);
            var n := 4 * (w.child + w.parent + w.size);
            if w.child > 0 && w.parent > 0 && |data| - at >= n then r.GotRow? && r.next == at + n else r == NoRow
  {
    hide FieldAt;
    if w.child > 0 {
      FirstField(data, at, w.child);
      if w.parent > 0 && |data| - at >= 4 * w.child {
        FirstField(data, at + 4 * w.child, w.parent);
        if w.size > 0 && |data| - at >= 4 * (w.child + w.parent) {
          FirstField(data, at + 4 * (w.child + w.parent), w.size);
        }
      }
    }
  }

  /** Encoding any rows under any nonzero address widths and any size width, and
      reading them back, gives the same rows. */
  lemma {:induction false} RowsRoundTrip(before: seq<u8>, rows: seq<Row>, w: Widths)
    requires w.Valid() && 0 < w.child && 0 < w.parent
    requires forall k :: 0 <= k < |rows| ==> Fits(rows[k], w)
    ensures RowsFrom(before + RowsBytes(rows, w), |before|, w) == rows
    decreases |rows|
  {
    hide RowAt, NumberBytes, Fits;
    if rows != [] {
      var first, rest := RowBytes(rows[0], w), RowsBytes(rows[1..], w);
      RowRoundTrip(before, rows[0], w, rest);
      assert before + RowsBytes(rows, w) == before + first + rest == (before + first) + rest;
      RowsRoundTrip(before + first, rows[1..], w);
      assert rows == [rows[0]] + rows[1..];
    }
  }

  /** Without child or parent address cells no row can be read at all. */
  lemma NoAddressNoRow(data: seq<u8>, at: nat, w: Widths)
    requires at <= |data| && w.Valid() && (w.child == 0 || w.parent == 0)
    ensures RowsFrom(data, at, w) == []
  {}
}
