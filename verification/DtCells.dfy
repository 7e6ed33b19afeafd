/**
  Big-endian cells of a devicetree property and the numbers they encode
  (sections 2.2.4, 2.3.5 and 2.3.6 of the Devicetree Specification).
 */
module DtCells {
  import opened Uefi
  import opened Arithmetic

  /** FDT_MAX_NCELLS. */
  const MAX_CELLS: nat := 4

  /** 2^(32 n): the weight of a cell with n cells behind it. */
  function CellPower(n: nat): (r: nat)
    ensures r > 0
  {
    if n == 0 then 1 else TWO_32 * CellPower(n - 1)
  }

  lemma {:induction false} CellPowerIsPow2(n: nat)
    ensures CellPower(n) == Pow2(32 * n)
  {
    if n > 0 {
      CellPowerIsPow2(n - 1);
      Pow2Of64();
      Pow2Adds(32, 32 * (n - 1));
    }
  }

  lemma CellPowers()
    ensures CellPower(1) == TWO_32 && CellPower(2) == TWO_64 && CellPower(4) == TWO_128
    ensures CellPower(3) <= TWO_128
  {
    assert CellPower(1) == TWO_32;
    assert CellPower(2) == TWO_32 * CellPower(1);
    assert CellPower(3) == TWO_32 * CellPower(2);
    assert CellPower(4) == TWO_32 * CellPower(3);
  }

  lemma {:induction false} CellPowerMonotonic(m: nat, n: nat)
    requires m <= n
    ensures CellPower(m) <= CellPower(n)
  {
    if m < n {
      CellPowerMonotonic(m, n - 1);
    }
  }

  /** Bitwise or. */
  function Or(a: nat, b: nat): nat {
    if a == 0 then b
    else if b == 0 then a
    else (if a % 2 == 1 || b % 2 == 1 then 1 else 0) + 2 * Or(a / 2, b / 2)
  }

  /** Numbers without a common bit are added. */
  lemma {:induction false} OrDisjoint(a: nat, b: nat, k: nat)
    requires b < Pow2(k)
    ensures Or(a * Pow2(k), b) == a * Pow2(k) + b
  {
    if a != 0 && b != 0 {
      var h := a * Pow2(k - 1);
      assert a * Pow2(k) == 2 * h;
      assert h > 0;
      OrDisjoint(a, b / 2, k - 1);
      assert Or(2 * h, b) == b % 2 + 2 * Or(h, b / 2);
    } else if a == 0 {
      assert a * Pow2(k) == 0;
    }
  }

  /** The cell at byte offset `at`. */
  function Cell(data: seq<u8>, at: nat): u32
    requires at + 4 <= |data|
  {
    data[at] as int * 0x100_0000 + data[at + 1] as int * 0x1_0000 + data[at + 2] as int * 0x100 + data[at + 3] as int
  }

  /** The number encoded by n cells, most significant cell first. */
  function Number(data: seq<u8>, at: nat, n: nat): nat
    requires at + 4 * n <= |data|
  {
    if n == 0 then 0 else Number(data, at, n - 1) * TWO_32 + Cell(data, at + 4 * (n - 1))
  }

  lemma {:induction false} NumberBound(data: seq<u8>, at: nat, n: nat)
    requires at + 4 * n <= |data|
    ensures Number(data, at, n) < CellPower(n)
  {
    if n > 0 {
      NumberBound(data, at, n - 1);
    }
  }

  /** The four bytes of a cell. */
  function CellBytes(c: u32): (r: seq<u8>)
    ensures |r| == 4 && Cell(r, 0) == c
  {
    var high, low := c / 0x1_0000, c % 0x1_0000;
    [high / 0x100, high % 0x100, low / 0x100, low % 0x100]
  }

  /** A number as n cells. */
  function NumberBytes(x: nat, n: nat): (r: seq<u8>)
    requires x < CellPower(n)
    ensures |r| == 4 * n
  {
    if n == 0 then [] else
      QuotientBound(x, n);
      NumberBytes(x / TWO_32, n - 1) + CellBytes(x % TWO_32)
  }

  lemma QuotientBound(x: nat, n: nat)
    requires n > 0 && x < CellPower(n)
    ensures x / TWO_32 < CellPower(n - 1)
  {}

  /** Reading a number depends only on its own bytes. */
  lemma {:induction false} NumberLocal(data: seq<u8>, at: nat, other: seq<u8>, at': nat, n: nat)
    requires at + 4 * n <= |data| && at' + 4 * n <= |other|
    requires data[at..at + 4 * n] == other[at'..at' + 4 * n]
    ensures Number(data, at, n) == Number(other, at', n)
  {
    if n > 0 {
      var own, own' := data[at..at + 4 * n], other[at'..at' + 4 * n];
      assert data[at..at + 4 * (n - 1)] == own[..4 * (n - 1)];
      assert other[at'..at' + 4 * (n - 1)] == own'[..4 * (n - 1)];
      NumberLocal(data, at, other, at', n - 1);
      var k := 4 * (n - 1);
      assert own[k] == own'[k] && own[k + 1] == own'[k + 1] && own[k + 2] == own'[k + 2] && own[k + 3] == own'[k + 3];
    }
  }

  /** Encoding a number and reading it back. */
  lemma {:induction false} NumberRoundTrip(x: nat, n: nat)
    requires x < CellPower(n)
    ensures Number(NumberBytes(x, n), 0, n) == x
  {
    if n > 0 {
      QuotientBound(x, n);
      var high := NumberBytes(x / TWO_32, n - 1);
      var low := CellBytes(x % TWO_32);
      NumberRoundTrip(x / TWO_32, n - 1);
      assert (high + low)[0..4 * (n - 1)] == high[0..4 * (n - 1)];
      NumberLocal(high + low, 0, high, 0, n - 1);
      assert Cell(high + low, 4 * (n - 1)) == Cell(low, 0);
    }
  }

  lemma CellsCompare(a: seq<u8>, b: seq<u8>, at: nat, j: nat)
    requires at + 4 <= |a| && at + 4 <= |b| && at <= j < at + 4
    requires a[j] < b[j] && forall k :: at <= k < j ==> a[k] == b[k]
    ensures Cell(a, at) < Cell(b, at)
  {}

  /** The most significant byte comes first: numbers of the same width compare as their
      bytes do. */
  lemma {:induction false} NumbersCompare(a: seq<u8>, b: seq<u8>, n: nat, j: nat)
    requires |a| == |b| == 4 * n && j < 4 * n
    requires a[j] < b[j] && forall k :: 0 <= k < j ==> a[k] == b[k]
    ensures Number(a, 0, n) < Number(b, 0, n)
  {
    hide Cell;
    var last := 4 * (n - 1);
    var a', b' := a[..last], b[..last];
    assert a[0..last] == a' == a'[0..last] && b[0..last] == b' == b'[0..last];
    NumberLocal(a, 0, a', 0, n - 1);
    NumberLocal(b, 0, b', 0, n - 1);
    if j < last {
      NumbersCompare(a', b', n - 1, j);
    } else {
      assert a' == b';
      CellsCompare(a, b, last, j);
    }
  }

  /** What reading one field yields. */
  datatype Parse = Fail | Got(value: nat, next: nat)

  /** Field number `index` of `width` cells behind byte offset `at`. */
  function FieldAt(data: seq<u8>, at: nat, width: nat, index: nat): (r: Parse)
    requires at <= |data| && 0 < width
    ensures r.Got? ==> at < r.next <= |data|
  {
    if (|data| - at) / 4 / width <= index then Fail
    else
      FieldFits(|data| - at, width, index);
      Got(Number(data, at + 4 * (width * index), width), at + 4 * (width * (index + 1)))
  }

  /** The space test by two divisions. */
  lemma FieldFits(bytes: nat, width: nat, index: nat)
    requires 0 < width
    ensures bytes / 4 / width > index <==> 4 * (width * (index + 1)) <= bytes
    ensures width * (index + 1) == width * index + width
  {
    var needed := (index + 1) * width;
    assert width * (index + 1) == needed && needed == width * index + width;
    QuotientTells(bytes / 4, width, index + 1);
    assert bytes / 4 >= needed <==> 4 * needed <= bytes;
  }

  /** `index` + 1 fields read one after the other. */
  function FieldsInTurn(data: seq<u8>, at: nat, width: nat, index: nat): Parse
    requires at <= |data| && 0 < width
    decreases index
  {
    var first := FieldAt(data, at, width, 0);
    if index == 0 || first.Fail? then first else FieldsInTurn(data, first.next, width, index - 1)
  }

  /** Parsing at an index is parsing in turn: the same value, the same cursor, and
      failure in the same cases. */
  lemma {:induction false} IndexedIsInTurn(data: seq<u8>, at: nat, width: nat, index: nat)
    requires at <= |data| && 0 < width
    ensures FieldAt(data, at, width, index) == FieldsInTurn(data, at, width, index)
    decreases index
  {
    if index > 0 {
      FieldFits(|data| - at, width, index);
      FieldFits(|data| - at, width, 0);
      assert width * 0 == 0 && width * 1 == width;
      assert width * (index + 1) == width * index + width;
      var first := FieldAt(data, at, width, 0);
      if first.Got? {
        IndexedIsInTurn(data, first.next, width, index - 1);
        FieldFits(|data| - first.next, width, index - 1);
        assert width * index == width * (index - 1) + width;
      } else {
        MulMonotonic(0, index, width);
      }
    }
  }
}
