/**
  The property cursor and the field parsers of FdtBusDxe/DtIoPropParse.c.
 */
module DtProperty {
  import opened Uefi
  import opened Arithmetic
  import opened DtCells
  import opened DtRows

  /** EFI_DT_PROPERTY: Begin is offset 0 and End is the length of the data. */
  class Property {
    const data: seq<u8>
    var iter: nat

    constructor (data: seq<u8>)
      ensures this.data == data && iter == 0
    {
      this.data, iter := data, 0;
    }

    ghost predicate Valid()
      reads this
    {
      iter <= |data|
    }

    /** What a parser promises: success gives the field and moves the cursor behind
        it, failure leaves the cursor alone. */
    twostate predicate Yields(expected: Parse, status: Status, value: nat)
      reads this
    {
      match expected
      case Fail => status == NotFound && iter == old(iter)
      case Got(v, next) => status == Success && value == v && iter == next
    }

    /** The loop shared by the numeric parsers: cells are or-ed together, each
        shifted to its place in a 128-bit value. */
    method ParseNumber(width: nat, index: nat) returns (status: Status, value: u128)
      requires Valid() && 0 < width <= MAX_CELLS
      modifies this`iter
      ensures Valid() && Yields(FieldAt(data, old(iter), width, index), status, value)
    {
      var cells := (|data| - iter) / 4;
      if cells / width <= index {
        return NotFound, 0;
      }
      FieldFits(|data| - iter, width, index);
      var buf := iter + 4 * (width * index);
      hide Number, CellPower;
      value := ReadCells(buf, width);
      iter := buf + 4 * width;
      return Success, value;
    }

    method ReadCells(start: nat, width: nat) returns (value: u128)
      requires start + 4 * width <= |data| && 0 < width <= MAX_CELLS
      ensures value == Number(data, start, width)
    {
      value := 0;
      var buf, i := start, 0;
      hide CellPower, Cell;
      while i < width
        invariant i <= width && buf == start + 4 * i
        invariant value == Number(data, start, i) * CellPower(width - i)
      {
        NumberBound(data, start, i);
        value := WithCell(value, Cell(data, buf), width, i, Number(data, start, i));
        buf := buf + 4;
        i := i + 1;
      }
      CellPowerZero();
    }

    /** EFI_DT_VALUE_U32. */
    method ParseU32(index: nat) returns (status: Status, value: u32)
      requires Valid()
      modifies this`iter
      ensures Valid() && Yields(FieldAt(data, old(iter), 1, index), status, value)
    {
      var cells := (|data| - iter) / 4;
      if cells <= index {
        return NotFound, 0;
      }
      FieldFits(|data| - iter, 1, index);
      var buf := iter + 4 * index;
      assert Number(data, buf, 0) == 0;
      value := Cell(data, buf);
      iter := buf + 4;
      status := Success;
    }

    /** EFI_DT_VALUE_U64. */
    method ParseU64(index: nat) returns (status: Status, value: u64)
      requires Valid()
      modifies this`iter
      ensures Valid() && Yields(FieldAt(data, old(iter), 2, index), status, value)
    {
      FieldBound(data, iter, 2, index);
      CellPowers();
      var wide;
      status, wide := ParseNumber(2, index);
      value := if status == Success then wide else 0;
    }

    /** EFI_DT_VALUE_BUS_ADDRESS and EFI_DT_VALUE_CHILD_BUS_ADDRESS. */
    method ParseAddress(width: nat, index: nat) returns (status: Status, value: u128)
      requires Valid() && width <= MAX_CELLS
      modifies this`iter
      ensures Valid() && Yields(AddressAt(data, old(iter), width, index), status, value)
    {
      if width == 0 {
        return NotFound, 0;
      }
      status, value := ParseNumber(width, index);
    }

    /** EFI_DT_VALUE_SIZE and EFI_DT_VALUE_CHILD_SIZE. */
    method ParseSize(width: nat, index: nat) returns (status: Status, value: u128)
      requires Valid() && width <= MAX_CELLS
      modifies this`iter
      ensures Valid() && Yields(SizeAt(data, old(iter), width, index), status, value)
    {
      if width == 0 {
        return Success, 0;
      }
      status, value := ParseNumber(width, index);
    }

    /** AsciiStrFindEnd. */
    method FindEnd(start: nat) returns (end: Parse)
      requires start <= |data|
      ensures end == StringEnd(data, start)
    {
      var i := start;
      while i < |data|
        invariant start <= i <= |data| && FirstNul(data, start) == FirstNul(data, i)
      {
        if data[i] == 0 {
          return Got(start, i + 1);
        }
        i := i + 1;
      }
      return Fail;
    }

    /** EFI_DT_VALUE_STRING. */
    method ParseString(index: nat) returns (status: Status, start: nat)
      requires Valid()
      modifies this`iter
      ensures Valid() && Yields(StringAt(data, old(iter), index), status, start)
    {
      var current := 0;
      var at, end := iter, iter;
      while at < |data|
        invariant at <= |data| && current <= index && iter == old(iter) <= |data|
        invariant StringAt(data, at, index - current) == StringAt(data, iter, index)
        decreases |data| - at
      {
        var found := FindEnd(at);
        if found.Fail? {
          return NotFound, 0;
        }
        end := found.next;
        if index != current {
          current := current + 1;
          at := end;
        } else {
          break;
        }
      }
      if at < |data| {
        iter := end;
        return Success, at;
      }
      return NotFound, 0;
    }
  }

  lemma CellPowerZero()
    ensures CellPower(0) == 1
  {}

  /** One round of the loop: the new cell lands in bits nobody has set. */
  method WithCell(value: u128, cell: u32, width: nat, i: nat, ghost high: nat) returns (r: u128)
    requires i < width <= MAX_CELLS
    requires value == high * CellPower(width - i) && high < CellPower(i)
    ensures r == (high * TWO_32 + cell) * CellPower(width - (i + 1))
  {
    var place := width - (i + 1);
    hide CellPower, Or, Wrap128;
    CellLands(cell, place, high, i, width);
    SmallWraps(cell * CellPower(place));
    r := Or(value, Wrap128(cell * CellPower(place)));
  }

  lemma SmallWraps(x: nat)
    requires x < TWO_128
    ensures Wrap128(x) == x
  {}

  lemma CellLands(cell: u32, place: nat, high: nat, i: nat, width: nat)
    requires place + i + 1 == width <= MAX_CELLS && high < CellPower(i)
    ensures cell * CellPower(place) < CellPower(place + 1) <= TWO_128
    ensures Or(high * CellPower(place + 1), cell * CellPower(place)) == (high * TWO_32 + cell) * CellPower(place) < TWO_128
  {
    hide Or, Pow2;
    CellPowerMonotonic(place + 1, 4);
    CellPowerMonotonic(width, 4);
    CellPowers();
    CellPowerIsPow2(place + 1);
    CellFits(cell, place, high);
    WidthSplits(i, place + 1);
    OrDisjoint(high, cell * CellPower(place), 32 * (place + 1));
    OneMoreFits(high, CellPower(i), CellPower(place + 1));
  }

  lemma CellFits(cell: u32, place: nat, high: nat)
    ensures cell * CellPower(place) < CellPower(place + 1)
    ensures high * CellPower(place + 1) + cell * CellPower(place) == (high * TWO_32 + cell) * CellPower(place)
  {
    var p := CellPower(place);
    assert (TWO_32 - cell) * p >= p;
    assert high * (TWO_32 * p) + cell * p == (high * TWO_32 + cell) * p;
  }

  lemma {:induction false} WidthSplits(m: nat, n: nat)
    ensures CellPower(m) * CellPower(n) == CellPower(m + n)
  {
    if m > 0 {
      WidthSplits(m - 1, n);
      assert CellPower(m) * CellPower(n) == TWO_32 * (CellPower(m - 1) * CellPower(n));
    }
  }

  /** The end of the string starting at an offset: the byte behind the first NUL. */
  function StringEnd(data: seq<u8>, start: nat): (r: Parse)
    requires start <= |data|
    ensures r.Got? ==> start < r.next <= |data|
  {
    match FirstNul(data, start)
    case Fail => Fail
    case Got(_, next) => Got(start, next)
  }

  function FirstNul(data: seq<u8>, at: nat): (r: Parse)
    requires at <= |data|
    ensures r.Got? ==> at < r.next <= |data| && data[r.next - 1] == 0 && forall k :: at <= k < r.next - 1 ==> data[k] != 0
    ensures r.Fail? ==> forall k :: at <= k < |data| ==> data[k] != 0
    decreases |data| - at
  {
    if at == |data| then Fail
    else if data[at] == 0 then Got(at, at + 1)
    else FirstNul(data, at + 1)
  }

  lemma {:induction false} SkipToNul(data: seq<u8>, at: nat, i: nat)
    requires at <= i <= |data| && forall k :: at <= k < i ==> data[k] != 0
    ensures FirstNul(data, at) == FirstNul(data, i)
    decreases i - at
  {
    if at < i {
      SkipToNul(data, at + 1, i);
    }
  }

  /** String number `index` behind an offset: where it starts and where the next one does. */
  function StringAt(data: seq<u8>, at: nat, index: nat): (r: Parse)
    requires at <= |data|
    ensures r.Got? ==> at <= r.value < r.next <= |data|
    decreases index
  {
    if at == |data| then Fail
    else
      var end := StringEnd(data, at);
      if end.Fail? || index == 0 then end else StringAt(data, end.next, index - 1)
  }

  /** A string list as a property holds it. */
  function StringBytes(strings: seq<seq<u8>>): seq<u8> {
    if strings == [] then [] else strings[0] + [0] + StringBytes(strings[1..])
  }

  /** Every string of an encoded list is found, whole, at its index; behind the
      last there is nothing. */
  lemma {:induction false} StringsRoundTrip(before: seq<u8>, strings: seq<seq<u8>>, index: nat)
    requires forall k :: 0 <= k < |strings| ==> 0 !in strings[k]
    ensures var data := before + StringBytes(strings);
            var r := StringAt(data, |before|, index);
            if index < |strings| then r.Got? && data[r.value..r.next] == strings[index] + [0] else r == Fail
    decreases |strings|
  {
    if strings != [] {
      var s, rest := strings[0], StringBytes(strings[1..]);
      assert before + StringBytes(strings) == before + s + [0] + rest;
      FirstStringFound(before, s, rest);
      if index > 0 {
        StringsRoundTrip(before + s + [0], strings[1..], index - 1);
      }
    }
  }

  lemma FirstStringFound(before: seq<u8>, s: seq<u8>, rest: seq<u8>)
    requires 0 !in s
    ensures var data := before + s + [0] + rest;
            && StringEnd(data, |before|) == Got(|before|, |before + s + [0]|)
            && data[|before|..|before + s + [0]|] == s + [0]
  {
    var data := before + s + [0] + rest;
    forall k | |before| <= k < |before| + |s| ensures data[k] != 0 {
      assert data[k] == s[k - |before|];
    }
    SkipToNul(data, |before|, |before| + |s|);
  }
}
