/**
  Address translation up the devicetree bus hierarchy (FdtBusDxe/DtDevice.c and
  the reg and range parsers of DtIoPropParse.c).
 */
module DtTranslate {
  import opened Uefi
  import opened DtCells
  import opened DtRows
  import opened DtProperty

  /** The outcome of looking up the `ranges` property. */
  datatype RangesProp = Missing | Corrupt | Present(data: seq<u8>)

  /** The parts of DT_DEVICE that translation looks at; the root has no parent. */
  datatype Device = Device(
    parent: MaybeDevice,
    addressCells: nat, sizeCells: nat,
    childAddressCells: nat, childSizeCells: nat,
    ranges: RangesProp)

  datatype MaybeDevice = NoDevice | SomeDevice(device: Device)

  predicate ValidDevice(d: Device) {
    && d.addressCells <= MAX_CELLS && d.sizeCells <= MAX_CELLS
    && d.childAddressCells <= MAX_CELLS && d.childSizeCells <= MAX_CELLS
    && (d.parent.SomeDevice? ==> ValidDevice(d.parent.device))
  }

  predicate ValidChain(cur: MaybeDevice) { cur.SomeDevice? ==> ValidDevice(cur.device) }

  function RowWidths(d: Device): (w: Widths)
    requires ValidDevice(d)
    ensures w.Valid()
  {
    Widths(d.childAddressCells, d.addressCells, d.childSizeCells)
  }

  function RowsOf(d: Device): seq<Row>
    requires ValidDevice(d) && d.ranges.Present?
  {
    RowsFrom(d.ranges.data, 0, RowWidths(d))
  }

  /** The row covers [address, address + length), in 128-bit arithmetic. */
  predicate Covers(row: Row, address: u128, length: u128) {
    row.child <= address && Wrap128(address + length) <= Wrap128(row.child + row.size)
  }

  function Moved(row: Row, address: u128): u128 { Wrap128(address - row.child + row.parent) }

  /** How one bus maps an address range of its children. */
  datatype Level = Mapped(address: u128) | NotCovered | Broken

  /** The first row that covers the range decides. */
  function FirstMatch(rows: seq<Row>, address: u128, length: u128): Level {
    if rows == [] then NotCovered
    else if Covers(rows[0], address, length) then Mapped(Moved(rows[0], address))
    else FirstMatch(rows[1..], address, length)
  }

  function LevelMap(d: Device, address: u128, length: u128): Level
    requires ValidDevice(d)
  {
    if d.parent.NoDevice? then Mapped(address)
    else
      match d.ranges
      case Missing => NotCovered
      case Corrupt => Broken
      case Present(data) => if data == [] then Mapped(address) else FirstMatch(RowsOf(d), address, length)
  }

  function LevelStatus(level: Level): Status {
    match level
    case Mapped(_) => Success
    case NotCovered => NotFound
    case Broken => DeviceError
  }

  /** One row read from the cursor, or NOT_FOUND with the cursor somewhere behind. */
  method ReadRow(d: Device, prop: Property) returns (status: Status, row: Row)
    requires ValidDevice(d) && prop.Valid()
    modifies prop`iter
    ensures prop.Valid()
    ensures match RowAt(prop.data, old(prop.iter), RowWidths(d))
            case NoRow => status == NotFound
            case GotRow(r, next) => status == Success && row == r && prop.iter == next
  {
    row := Row(0, 0, 0);
    var child, parent, size;
    status, child := prop.ParseAddress(d.childAddressCells, 0);
    if status.IsError() {
      return;
    }
    status, parent := prop.ParseAddress(d.addressCells, 0);
    if status.IsError() {
      return;
    }
    status, size := prop.ParseSize(d.childSizeCells, 0);
    if status.IsError() {
      return;
    }
    row := Row(child, parent, size);
  }

  /** DtDeviceTranslateRangeInternal. */
  method TranslateRangeInternal(d: Device, address: u128, length: u128) returns (status: Status, out: u128)
    requires ValidDevice(d)
    ensures var level := LevelMap(d, address, length);
            status == LevelStatus(level) && (level.Mapped? ==> out == level.address)
    ensures Identity(d) ==> status == Success && out == address
    ensures Untranslated(d) ==> status == NotFound
    ensures Unreadable(d) ==> status == DeviceError
    ensures !Identity(d) && d.ranges.Present? && RowsFit(RowsOf(d)) && address + length < TWO_128 ==>
              var rows := RowsOf(d);
              && (status == Success <==> exists k :: 0 <= k < |rows| && Holds(rows[k], address, length))
              && (status != Success ==> status == NotFound)
              && forall k :: 0 <= k < |rows| && Holds(rows[k], address, length)
                             && (forall j :: 0 <= j < k ==> !Holds(rows[j], address, length)) ==>
                   out == rows[k].parent + (address - rows[k].child)
  {
    hide FirstMatch, RowWidths, RowsFrom, ValidDevice, Holds;
    out := address;
    if d.parent.NoDevice? {
      return Success, out;
    }
    match d.ranges
    case Missing => return NotFound, out;
    case Corrupt => return DeviceError, out;
    case Present(data) =>
      if data == [] {
        return Success, out;
      }
      status, out := ScanRows(d, address, length);
      if RowsFit(RowsOf(d)) && address + length < TWO_128 {
        FirstRowDecides(RowsOf(d), address, length);
      }
  }

  lemma NextRow(data: seq<u8>, at: nat, w: Widths, address: u128, length: u128)
    requires at < |data| && w.Valid()
    ensures var r := RowAt(data, at, w);
            FirstMatch(RowsFrom(data, at, w), address, length) ==
              if r.NoRow? then NotCovered
              else if Covers(r.row, address, length) then Mapped(Moved(r.row, address))
              else FirstMatch(RowsFrom(data, r.next, w), address, length)
  {
    hide RowAt, Covers, Moved;
  }

  lemma NoMoreRows(data: seq<u8>, w: Widths, address: u128, length: u128)
    requires w.Valid()
    ensures FirstMatch(RowsFrom(data, |data|, w), address, length) == NotCovered
  {}

  /** The loop over the rows. */
  method ScanRows(d: Device, address: u128, length: u128) returns (status: Status, out: u128)
    requires ValidDevice(d) && d.ranges.Present?
    ensures var level := FirstMatch(RowsOf(d), address, length);
            status == LevelStatus(level) && (level.Mapped? ==> out == level.address)
  {
    out := address;
    var data := d.ranges.data;
    var prop := new Property(data);
    var w := RowWidths(d);
    hide RowAt, RowsFrom, FirstMatch, RowWidths, ValidDevice, Covers, Moved;
    while prop.iter < |data|
      invariant prop.Valid()
      invariant FirstMatch(RowsFrom(data, prop.iter, w), address, length) == FirstMatch(RowsOf(d), address, length)
      decreases |data| - prop.iter
    {
      NextRow(data, prop.iter, w, address, length);
      var row;
      status, row := ReadRow(d, prop);
      if status.IsError() {
        return;
      }
      if Covers(row, address, length) {
        return Success, Moved(row, address);
      }
    }
    NoMoreRows(data, w, address, length);
    return NotFound, out;
  }

  /** The walk up the hierarchy, stopping where a bus does not cover the range. */
  datatype Walked = Reached(bus: MaybeDevice, address: u128) | WalkBroken

  function Walk(cur: MaybeDevice, address: u128, length: u128): Walked
    requires ValidChain(cur)
    decreases cur
  {
    if cur.NoDevice? then Reached(NoDevice, address)
    else
      match LevelMap(cur.device, address, length)
      case Mapped(out) => Walk(cur.device.parent, out, length)
      case NotCovered => Reached(cur, address)
      case Broken => WalkBroken
  }

  /** The CPU can address the range. */
  predicate CpuVisible(address: u128, length: u128) {
    address <= MAX_UINT64 && (length != 0 ==> Wrap128(address + length - 1) <= MAX_UINT64)
  }

  /** What the walk comes to. */
  predicate Translates(d: Device, address: u128, length: u128, status: Status, out: u128, bus: MaybeDevice)
    requires ValidDevice(d)
  {
    match Walk(d.parent, address, length)
    case WalkBroken => status == DeviceError
    case Reached(b, a) =>
      if b.NoDevice? && !CpuVisible(a, length) then status == Unsupported
      else status == Success && out == a && bus == b
  }

  /** DtDeviceTranslateRangeToCpu.  A bus without `ranges` lets nothing through: whatever is
      translated has arrived past buses that can translate, and is in the CPU's reach if it
      has passed them all. */
  method TranslateRangeToCpu(d: Device, address: u128, length: u128)
    returns (status: Status, out: u128, bus: MaybeDevice)
    requires ValidDevice(d)
    ensures Translates(d, address, length, status, out, bus)
    ensures status == Success ==> exists n :: Arrives(d.parent, n, bus)
    ensures status == Success && bus.NoDevice? && length <= TWO_64 ==> out + length <= TWO_64 && out < TWO_64
    ensures d.parent.SomeDevice? && Untranslated(d.parent.device) ==> status == Success && out == address && bus == d.parent
    ensures d.parent.SomeDevice? && Unreadable(d.parent.device) ==> status == DeviceError
    ensures (forall k :: 0 <= k < |Buses(d.parent)| ==> Identity(Buses(d.parent)[k])) ==>
              if address < TWO_64 && (length == 0 || Wrap128(address + length - 1) < TWO_64) then
                status == Success && out == address && bus == NoDevice
              else status == Unsupported
  {
    hide Walk, Buses, Arrives, Untranslated, Unreadable, Identity, ValidDevice;
    status, out, bus := Climb(d, address, length);
    if status == Success && bus.NoDevice? {
      if out > MAX_UINT64 {
        status := Unsupported;
      } else if length != 0 && Wrap128(out + length - 1) > MAX_UINT64 {
        status := Unsupported;
      }
    }
    TranslationTells(d, address, length, status, out, bus);
  }

  /** The loop up the hierarchy. */
  method Climb(d: Device, address: u128, length: u128) returns (status: Status, out: u128, bus: MaybeDevice)
    requires ValidDevice(d)
    ensures match Walk(d.parent, address, length)
            case WalkBroken => status == DeviceError
            case Reached(b, a) => status == Success && out == a && bus == b
  {
    bus := d.parent;
    out := address;
    while bus.SomeDevice?
      invariant ValidChain(bus)
      invariant Walk(d.parent, address, length) == Walk(bus, out, length)
      decreases bus
    {
      var next;
      status, next := TranslateRangeInternal(bus.device, out, length);
      if status == NotFound {
        break;
      } else if status.IsError() {
        return;
      }
      out := next;
      bus := bus.device.parent;
    }
    status := Success;
  }

  lemma TranslationTells(d: Device, address: u128, length: u128, status: Status, out: u128, bus: MaybeDevice)
    requires ValidDevice(d) && Translates(d, address, length, status, out, bus)
    ensures status == Success ==> exists n :: Arrives(d.parent, n, bus)
    ensures status == Success && bus.NoDevice? && length <= TWO_64 ==> out + length <= TWO_64 && out < TWO_64
    ensures d.parent.SomeDevice? && Untranslated(d.parent.device) ==> status == Success && out == address && bus == d.parent
    ensures d.parent.SomeDevice? && Unreadable(d.parent.device) ==> status == DeviceError
    ensures (forall k :: 0 <= k < |Buses(d.parent)| ==> Identity(Buses(d.parent)[k])) ==>
              if CpuVisible(address, length) then status == Success && out == address && bus == NoDevice else status == Unsupported
  {
    TranslationArrives(d, address, length);
    hide Walk, Arrives, Untranslated, Unreadable, Identity, Buses, ValidDevice;
    if status == Success && bus.NoDevice? && length <= TWO_64 {
      CpuReach(out, length);
    }
    hide CpuVisible;
  }

  lemma CpuReach(address: u128, length: u128)
    requires CpuVisible(address, length) && length <= TWO_64
    ensures address + length <= TWO_64 && address < TWO_64
  {}

  /** The buses above a device, innermost first. */
  function Buses(cur: MaybeDevice): seq<Device>
    decreases cur
  {
    if cur.NoDevice? then [] else [cur.device] + Buses(cur.device.parent)
  }

  /** A bus that cannot translate: it is not the root and has no `ranges`. */
  predicate Untranslated(bus: Device) { bus.parent.SomeDevice? && bus.ranges.Missing? }

  /** A bus whose children use its own addresses: the root, or one with empty `ranges`. */
  predicate Identity(bus: Device) { bus.parent.NoDevice? || bus.ranges == Present([]) }

  predicate Unreadable(bus: Device) { bus.parent.SomeDevice? && bus.ranges.Corrupt? }

  /** A range has come up to `bus`, past n buses that can all translate; NoDevice stands
      for the CPU. */
  ghost predicate Arrives(cur: MaybeDevice, n: nat, bus: MaybeDevice) {
    && n <= |Buses(cur)| && bus == (if n == |Buses(cur)| then NoDevice else SomeDevice(Buses(cur)[n]))
    && forall k :: 0 <= k < n ==> !Untranslated(Buses(cur)[k]) && !Unreadable(Buses(cur)[k])
  }

  lemma OneLevel(d: Device, address: u128, length: u128)
    requires ValidDevice(d)
    ensures var level := LevelMap(d, address, length);
            && (Untranslated(d) ==> level == NotCovered)
            && (Unreadable(d) ==> level == Broken)
            && (Identity(d) ==> level == Mapped(address))
  {}

  lemma {:induction false} WalkArrives(cur: MaybeDevice, address: u128, length: u128) returns (n: nat)
    requires ValidChain(cur) && Walk(cur, address, length).Reached?
    ensures Arrives(cur, n, Walk(cur, address, length).bus)
    decreases cur
  {
    n := 0;
    if cur.SomeDevice? {
      OneLevel(cur.device, address, length);
      hide LevelMap, Untranslated, Unreadable;
      var level := LevelMap(cur.device, address, length);
      if level.Mapped? {
        n := WalkArrives(cur.device.parent, level.address, length);
        n := n + 1;
        assert forall k :: 0 <= k < |Buses(cur.device.parent)| ==> Buses(cur)[k + 1] == Buses(cur.device.parent)[k];
      }
    }
  }

  lemma OneStep(cur: MaybeDevice, address: u128, length: u128)
    requires cur.SomeDevice? && ValidChain(cur)
    ensures ValidChain(cur.device.parent) && Buses(cur) == [cur.device] + Buses(cur.device.parent)
    ensures Identity(cur.device) ==> Walk(cur, address, length) == Walk(cur.device.parent, address, length)
    ensures Untranslated(cur.device) ==> Walk(cur, address, length) == Reached(cur, address)
    ensures Unreadable(cur.device) ==> Walk(cur, address, length) == WalkBroken
  {
    OneLevel(cur.device, address, length);
    hide LevelMap, Untranslated, Unreadable, Identity;
  }

  /** A walk past n identities changes nothing. */
  lemma {:induction false} WalkPassesIdentities(cur: MaybeDevice, address: u128, length: u128, n: nat)
    requires ValidChain(cur) && n <= |Buses(cur)| && forall k :: 0 <= k < n ==> Identity(Buses(cur)[k])
    ensures n == |Buses(cur)| ==> Walk(cur, address, length) == Reached(NoDevice, address)
    ensures n < |Buses(cur)| && Untranslated(Buses(cur)[n]) ==>
              Walk(cur, address, length) == Reached(SomeDevice(Buses(cur)[n]), address)
    ensures n < |Buses(cur)| && Unreadable(Buses(cur)[n]) ==> Walk(cur, address, length) == WalkBroken
    decreases cur
  {
    if cur.SomeDevice? {
      OneStep(cur, address, length);
      hide Walk, Buses, ValidDevice, Untranslated, Unreadable, Identity;
      if n > 0 {
        assert Buses(cur)[0] == cur.device && Buses(cur)[1..] == Buses(cur.device.parent);
        WalkPassesIdentities(cur.device.parent, address, length, n - 1);
      }
    }
  }

  /** What a translation comes to, whatever the buses in between do. */
  lemma TranslationArrives(d: Device, address: u128, length: u128)
    requires ValidDevice(d)
    ensures Walk(d.parent, address, length).Reached? ==> exists n :: Arrives(d.parent, n, Walk(d.parent, address, length).bus)
    ensures d.parent.SomeDevice? && Untranslated(d.parent.device) ==> Walk(d.parent, address, length) == Reached(d.parent, address)
    ensures d.parent.SomeDevice? && Unreadable(d.parent.device) ==> Walk(d.parent, address, length) == WalkBroken
    ensures (forall k :: 0 <= k < |Buses(d.parent)| ==> Identity(Buses(d.parent)[k])) ==>
              Walk(d.parent, address, length) == Reached(NoDevice, address)
  {
    if Walk(d.parent, address, length).Reached? {
      var n := WalkArrives(d.parent, address, length);
    }
    hide Walk, Untranslated, Unreadable, Identity;
    WalkPassesIdentities(d.parent, address, length, 0);
    if forall k :: 0 <= k < |Buses(d.parent)| ==> Identity(Buses(d.parent)[k]) {
      WalkPassesIdentities(d.parent, address, length, |Buses(d.parent)|);
    }
  }

  /** The per-level maps of a list of buses, composed. */
  function Through(buses: seq<Device>, address: u128, length: u128): Level
    requires forall k :: 0 <= k < |buses| ==> ValidDevice(buses[k])
  {
    if buses == [] then Mapped(address)
    else
      var level := LevelMap(buses[0], address, length);
      if level.Mapped? then Through(buses[1..], level.address, length) else level
  }

  lemma {:induction false} BusesAreValid(cur: MaybeDevice)
    requires ValidChain(cur)
    ensures forall k :: 0 <= k < |Buses(cur)| ==> ValidDevice(Buses(cur)[k])
    decreases cur
  {
    if cur.SomeDevice? {
      BusesAreValid(cur.device.parent);
    }
  }

  /** The walk is the composition of the maps of the first n buses, where bus
      number n, if there is one, is the first that does not cover the range. */
  lemma {:induction false} WalkIsComposition(cur: MaybeDevice, address: u128, length: u128) returns (n: nat)
    requires ValidChain(cur) && Walk(cur, address, length).Reached?
    ensures n <= |Buses(cur)| && forall k :: 0 <= k < |Buses(cur)| ==> ValidDevice(Buses(cur)[k])
    ensures var r := Walk(cur, address, length);
            && Through(Buses(cur)[..n], address, length) == Mapped(r.address)
            && if n == |Buses(cur)| then r.bus == NoDevice
               else r.bus == SomeDevice(Buses(cur)[n]) && LevelMap(Buses(cur)[n], r.address, length) == NotCovered
    decreases cur
  {
    BusesAreValid(cur);
    n := 0;
    if cur.SomeDevice? {
      var level := LevelMap(cur.device, address, length);
      if level.Mapped? {
        var rest := WalkIsComposition(cur.device.parent, level.address, length);
        n := rest + 1;
        assert Buses(cur)[..n] == [cur.device] + Buses(cur.device.parent)[..rest];
      }
    }
  }

  /** Windows that do not reach the end of the 128-bit address space on either side. */
  predicate RowsFit(rows: seq<Row>) {
    forall k :: 0 <= k < |rows| ==> rows[k].child + rows[k].size < TWO_128 && rows[k].parent + rows[k].size < TWO_128
  }

  /** The whole range lies in the child window of the row, in plain arithmetic. */
  predicate Holds(row: Row, address: nat, length: nat) {
    row.child <= address && address + length <= row.child + row.size
  }

  /** No row before row k holds all of its window. */
  predicate Exposed(rows: seq<Row>, k: nat)
    requires k < |rows|
  {
    0 < rows[k].size && forall j :: 0 <= j < k ==> !Holds(rows[j], rows[k].child, rows[k].size)
  }

  /** Byte x, translated alone, goes where row k sends its window. */
  predicate SentAlong(rows: seq<Row>, k: nat, x: nat)
    requires RowsFit(rows) && k < |rows|
  {
    Holds(rows[k], x, 1) ==> FirstMatch(rows, x, 1) == Mapped(rows[k].parent + (x - rows[k].child))
  }

  /** Windows may overlap, but a row that sends some of its bytes elsewhere than the first
      rows to contain them do has its whole window held by an earlier row. */
  ghost predicate ConsistentRows(rows: seq<Row>)
    requires RowsFit(rows)
  {
    forall k, x: nat :: 0 <= k < |rows| && Exposed(rows, k) ==> SentAlong(rows, k, x)
  }

  /** The range and its byte d, if the range is translated at all, land alike. */
  predicate ByteAgrees(rows: seq<Row>, address: u128, length: u128, d: nat)
    requires RowsFit(rows)
  {
    var level := FirstMatch(rows, address, length);
    d < length && address + length < TWO_128 && level.Mapped? ==>
      level.address + d < TWO_128 && FirstMatch(rows, address + d, 1) == Mapped(level.address + d)
  }

  ghost predicate BytesAgree(rows: seq<Row>)
    requires RowsFit(rows)
  {
    forall address: u128, length: u128, d: nat :: ByteAgrees(rows, address, length, d)
  }

  /** The first row that holds a range decides. */
  lemma {:induction false} FirstHolderDecides(rows: seq<Row>, k: nat, address: u128, length: u128)
    requires RowsFit(rows) && k < |rows| && address + length < TWO_128
    requires Holds(rows[k], address, length) && forall j :: 0 <= j < k ==> !Holds(rows[j], address, length)
    ensures FirstMatch(rows, address, length) == Mapped(rows[k].parent + (address - rows[k].child))
  {
    hide Covers, Moved;
    InWindow(rows[0], address, length);
    if k > 0 {
      assert !Holds(rows[0], address, length);
      FirstHolderDecides(rows[1..], k - 1, address, length);
    }
  }

  lemma {:induction false} FirstHolder(rows: seq<Row>, address: u128, length: u128) returns (k: nat)
    requires RowsFit(rows) && address + length < TWO_128 && FirstMatch(rows, address, length).Mapped?
    ensures k < |rows| && Holds(rows[k], address, length) && forall j :: 0 <= j < k ==> !Holds(rows[j], address, length)
  {
    hide Moved;
    InWindow(rows[0], address, length);
    if Covers(rows[0], address, length) {
      k := 0;
    } else {
      var rest := FirstHolder(rows[1..], address, length);
      k := rest + 1;
      assert forall j :: 0 < j < k ==> rows[j] == rows[1..][j - 1];
    }
  }

  /** A table translates a range if and only if some row holds it, the way of the first. */
  lemma FirstRowDecides(rows: seq<Row>, address: u128, length: u128)
    requires RowsFit(rows) && address + length < TWO_128
    ensures FirstMatch(rows, address, length).Mapped? <==> exists k :: 0 <= k < |rows| && Holds(rows[k], address, length)
    ensures FirstMatch(rows, address, length) != Broken
    ensures forall k :: 0 <= k < |rows| && Holds(rows[k], address, length)
                        && (forall j :: 0 <= j < k ==> !Holds(rows[j], address, length)) ==>
              FirstMatch(rows, address, length) == Mapped(rows[k].parent + (address - rows[k].child))
  {
    NeverBroken(rows, address, length);
    hide FirstMatch;
    forall k | 0 <= k < |rows| && Holds(rows[k], address, length) && (forall j :: 0 <= j < k ==> !Holds(rows[j], address, length))
      ensures FirstMatch(rows, address, length) == Mapped(rows[k].parent + (address - rows[k].child))
    {
      FirstHolderDecides(rows, k, address, length);
    }
    if FirstMatch(rows, address, length).Mapped? {
      var k := FirstHolder(rows, address, length);
    } else if exists k :: 0 <= k < |rows| && Holds(rows[k], address, length) {
      var k := LeastHolder(rows, address, length);
    }
  }

  lemma {:induction false} NeverBroken(rows: seq<Row>, address: u128, length: u128)
    ensures FirstMatch(rows, address, length) != Broken
  {
    if rows != [] {
      NeverBroken(rows[1..], address, length);
    }
  }

  lemma {:induction false} LeastHolder(rows: seq<Row>, address: u128, length: u128) returns (k: nat)
    requires exists k :: 0 <= k < |rows| && Holds(rows[k], address, length)
    ensures k < |rows| && Holds(rows[k], address, length) && forall j :: 0 <= j < k ==> !Holds(rows[j], address, length)
  {
    hide Holds;
    k := 0;
    while !Holds(rows[k], address, length)
      invariant k < |rows| && forall j :: 0 <= j < k ==> !Holds(rows[j], address, length)
      decreases |rows| - k
    {
      k := k + 1;
    }
  }

  /** The rows of `ranges` are child address, parent address and size, in as many cells as
      the bus has for its children's addresses, for its own, and for its children's sizes. */
  lemma RangesAreRead(d: Device, rows: seq<Row>)
    requires ValidDevice(d) && 0 < d.childAddressCells && 0 < d.addressCells
    requires var w := Widths(d.childAddressCells, d.addressCells, d.childSizeCells);
             (forall k :: 0 <= k < |rows| ==> DtRows.Fits(rows[k], w)) && d.ranges == Present(RowsBytes(rows, w))
    ensures RowsOf(d) == rows
  {
    RowsRoundTrip([], rows, RowWidths(d));
    assert [] + RowsBytes(rows, RowWidths(d)) == RowsBytes(rows, RowWidths(d));
  }

  /** In a consistent table the row of a range also decides for each of its bytes. */
  lemma RowDecidesForBytes(rows: seq<Row>, address: u128, length: u128, d: nat)
    requires RowsFit(rows) && ConsistentRows(rows) && d < length && address + length < TWO_128
    requires FirstMatch(rows, address, length).Mapped?
    ensures var out := FirstMatch(rows, address, length).address;
            && out + length < TWO_128
            && FirstMatch(rows, address + d, 1) == Mapped(out + d)
  {
    hide FirstMatch;
    var k := FirstHolder(rows, address, length);
    FirstHolderDecides(rows, k, address, length);
    assert Exposed(rows, k) && SentAlong(rows, k, address + d);
  }

  /** In a table that does not wrap, every range that is translated agrees with each of
      its bytes if and only if the table is consistent. */
  lemma BytesAgreeIffConsistent(rows: seq<Row>)
    requires RowsFit(rows)
    ensures BytesAgree(rows) <==> ConsistentRows(rows)
  {
    hide FirstMatch;
    if ConsistentRows(rows) {
      forall address: u128, length: u128, d: nat ensures ByteAgrees(rows, address, length, d) {
        if d < length && address + length < TWO_128 && FirstMatch(rows, address, length).Mapped? {
          RowDecidesForBytes(rows, address, length, d);
        }
      }
    }
    if BytesAgree(rows) {
      forall k, x: nat | 0 <= k < |rows| && Exposed(rows, k) ensures SentAlong(rows, k, x) {
        if Holds(rows[k], x, 1) {
          FirstHolderDecides(rows, k, rows[k].child, rows[k].size);
          assert ByteAgrees(rows, rows[k].child, rows[k].size, x - rows[k].child);
        }
      }
    }
  }

  /** Windows that do not overlap make a consistent table. */
  predicate SoundRows(rows: seq<Row>) {
    && RowsFit(rows)
    && forall j, k :: 0 <= j < k < |rows| ==>
         rows[j].child + rows[j].size <= rows[k].child || rows[k].child + rows[k].size <= rows[j].child
  }

  lemma SoundIsConsistent(rows: seq<Row>)
    requires SoundRows(rows)
    ensures ConsistentRows(rows)
  {
    hide FirstMatch;
    forall k, x: nat | 0 <= k < |rows| && Exposed(rows, k) ensures SentAlong(rows, k, x) {
      if Holds(rows[k], x, 1) {
        MatchesIffHeld(rows, x, 1);
      }
    }
  }

  /** Every bus above has a consistent table. */
  ghost predicate ConsistentChain(cur: MaybeDevice)
    requires ValidChain(cur)
    decreases cur
  {
    cur.SomeDevice? ==>
      && (cur.device.ranges.Present? ==> RowsFit(RowsOf(cur.device)) && ConsistentRows(RowsOf(cur.device)))
      && ConsistentChain(cur.device.parent)
  }

  lemma InWindow(row: Row, address: u128, length: u128)
    requires row.child + row.size < TWO_128 && row.parent + row.size < TWO_128 && address + length < TWO_128
    ensures Covers(row, address, length) <==> row.child <= address && address + length <= row.child + row.size
    ensures Covers(row, address, length) ==> Moved(row, address) == address - row.child + row.parent
  {}

  /** In a sound table a nonempty range is translated if and only if some window
      holds it, and then by that window's offset, wherever its row stands. */
  lemma {:induction false} MatchesIffHeld(rows: seq<Row>, address: u128, length: u128)
    requires SoundRows(rows) && 0 < length && address + length < TWO_128
    ensures FirstMatch(rows, address, length).Mapped? <==> exists k :: 0 <= k < |rows| && Holds(rows[k], address, length)
    ensures forall k :: 0 <= k < |rows| && Holds(rows[k], address, length) ==>
              FirstMatch(rows, address, length) == Mapped(rows[k].parent + (address - rows[k].child))
  {
    hide Covers, Moved;
    if rows != [] {
      var rest := rows[1..];
      InWindow(rows[0], address, length);
      MatchesIffHeld(rest, address, length);
      assert forall k :: 0 < k < |rows| ==> rows[k] == rest[k - 1];
      assert forall k :: 0 <= k < |rest| ==> rest[k] == rows[k + 1];
    }
  }

  lemma LevelDecidesForBytes(cur: MaybeDevice, address: u128, length: u128, d: nat)
    requires cur.SomeDevice? && ValidChain(cur) && ConsistentChain(cur)
    requires d < length && address + length < TWO_128 && LevelMap(cur.device, address, length).Mapped?
    ensures var out := LevelMap(cur.device, address, length).address;
            && out + length < TWO_128
            && LevelMap(cur.device, address + d, 1) == Mapped(out + d)
  {
    if cur.device.parent.SomeDevice? && cur.device.ranges.data != [] {
      RowDecidesForBytes(RowsOf(cur.device), address, length, d);
    }
  }

  /** If every bus above has a consistent table and a range reaches the CPU at base Out,
      then every single byte of it, translated alone, reaches the CPU at the
      corresponding address. */
  lemma {:induction false} BytesTranslateAlike(cur: MaybeDevice, address: u128, length: u128, d: nat)
    requires ValidChain(cur) && ConsistentChain(cur)
    requires d < length && address + length < TWO_128
    requires Walk(cur, address, length).Reached? && Walk(cur, address, length).bus == NoDevice
    ensures var out := Walk(cur, address, length).address;
            && out + length < TWO_128
            && Walk(cur, address + d, 1) == Reached(NoDevice, out + d)
            && (CpuVisible(out, length) ==> CpuVisible(out + d, 1))
    decreases cur
  {
    hide LevelMap, RowsFit, ConsistentRows, CpuVisible;
    if cur.SomeDevice? {
      LevelDecidesForBytes(cur, address, length, d);
      BytesTranslateAlike(cur.device.parent, LevelMap(cur.device, address, length).address, length, d);
    } else {
      if CpuVisible(address, length) {
        ByteIsVisible(address, length, d);
      }
    }
  }

  lemma ByteIsVisible(address: u128, length: u128, d: nat)
    requires d < length && address + length < TWO_128 && CpuVisible(address, length)
    ensures CpuVisible(address + d, 1)
  {}

  /** An inconsistent table: the range and its first byte are translated differently. */
  lemma OverlapSplitsARange()
    ensures var rows := [Row(0, 0, 16), Row(8, 100, 16)];
            && FirstMatch(rows, 8, 16) == Mapped(100)
            && FirstMatch(rows, 8, 1) == Mapped(8)
            && RowsFit(rows) && !ConsistentRows(rows)
  {
    var rows := [Row(0, 0, 16), Row(8, 100, 16)];
    assert rows[1..] == [Row(8, 100, 16)];
    assert Exposed(rows, 1) && !SentAlong(rows, 1, 8);
  }
}
