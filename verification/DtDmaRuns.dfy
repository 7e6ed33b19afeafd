/**
  Whole runs of DMA calls of one device: mapping, unmapping, buffers, and the device
  writing to memory in between, in any order.
 */
module DtDmaRuns {
  import opened Uefi
  import opened GcdSpace
  import opened DmaPages
  import opened DtDmaMap

  /** A call, or what the device does meanwhile. */
  datatype Call =
    | MapCall(operation: Operation, hostAddress: u64, numberOfBytes: nat, extra: Extra, poolExhausted: bool)
    | UnmapCall(mapping: Mapping)
    | AllocateCall(validType: bool, pages: nat, extra: Extra)
    | FreeCall(page: nat, pages: nat)
    | DeviceWrites(at: nat, data: seq<u8>)
    | NoCall

  /** What a call returned; the address is a device address or the number of a page. */
  datatype Outcome = Outcome(status: Status, mapping: Mapping, address: nat)

  datatype DmaState = DmaState(maps: seq<MapInfo>, free: set<nat>, owned: set<nat>, buffers: set<nat>, bytes: seq<u8>)

  ghost function StateOf(d: DmaDevice): DmaState
    reads d, d.memory
  {
    DmaState(d.maps, d.memory.free, d.memory.owned, d.buffers, d.memory.bytes)
  }

  /** The pages the device owns are exactly those of its live mappings and buffers. */
  ghost predicate StateValid(s: DmaState) {
    && s.free !! s.owned && s.owned == MapPages(s.maps) + s.buffers && MapPages(s.maps) !! s.buffers
    && Disjoint(s.maps)
    && forall k :: 0 <= k < |s.maps| ==> s.maps[k].Fits(|s.bytes|)
  }

  /** What a caller has to respect: ranges lie in memory, and pages that are freed are not
      under a live mapping. */
  predicate Issuable(s: DmaState, c: Call) {
    match c
    case MapCall(_, hostAddress, numberOfBytes, _, _) =>
      0 < numberOfBytes && hostAddress + numberOfBytes <= Min(|s.bytes|, TWO_64)
    case FreeCall(page, pages) => Interval(page, pages) !! MapPages(s.maps)
    case DeviceWrites(at, data) => at + |data| <= |s.bytes|
    case _ => true
  }

  /** The list without a mapping. */
  function Except(maps: seq<MapInfo>, info: MapInfo): seq<MapInfo> {
    if maps == [] then []
    else if maps[0] == info then maps[1..]
    else [maps[0]] + Except(maps[1..], info)
  }

  predicate Direct(d: DmaDevice, c: Call)
    requires c.MapCall?
  {
    c.hostAddress + c.numberOfBytes - 1 <= d.Limit(c.extra)
  }

  ghost function MapStatus(d: DmaDevice, s: DmaState, c: Call): Status
    requires c.MapCall?
  {
    if c.hostAddress == 0 then InvalidParameter
    else if d.limits.nonIdentity then Unsupported
    else if c.extra.Extra? && c.extra.unknown then InvalidParameter
    else if !d.Coherent(c.extra) then Unsupported
    else if Direct(d, c) then Success
    else if c.operation == BusMasterCommonBuffer then InvalidParameter
    else if !c.poolExhausted && HasRun(s.free, PagesOf(c.numberOfBytes), d.Limit(c.extra)) then Success
    else OutOfResources
  }

  /** The record of a bounce mapping says what was asked for. */
  predicate Records(info: MapInfo, c: Call) {
    c.MapCall? && info.operation == c.operation && info.numberOfBytes == c.numberOfBytes && info.hostAddress == c.hostAddress
  }

  ghost predicate MapStep(d: DmaDevice, s: DmaState, c: Call, o: Outcome, s': DmaState)
    requires c.MapCall?
  {
    && o.status == MapStatus(d, s, c)
    && (o.status == Success ==> o.address + c.numberOfBytes - 1 <= d.Limit(c.extra))
    && if o.status != Success then o.mapping == NullMapping && s' == s
       else if Direct(d, c) then o.mapping == NoMapping && o.address == c.hostAddress && s' == s
       else
         && o.mapping.Bounce?
         && var info := o.mapping.info;
            && Records(info, c) && o.address == info.MappedAddress()
            && info !in s.maps && info.Pages() <= s.free && Filled(s.bytes, s'.bytes, info)
            && s' == DmaState(s.maps + [info], s.free - info.Pages(), s.owned + info.Pages(), s.buffers, s'.bytes)
  }

  ghost predicate UnmapStep(s: DmaState, mapping: Mapping, o: Outcome, s': DmaState) {
    match mapping
    case NullMapping => o.status == InvalidParameter && s' == s
    case NoMapping => o.status == Success && s' == s
    case Bounce(info) =>
      if info !in s.maps then o.status == InvalidParameter && s' == s
      else
        && o.status == Success && info.Fits(|s.bytes|)
        && s' == DmaState(Except(s.maps, info), s.free + info.Pages(), s.owned - info.Pages(), s.buffers,
                          if info.operation == BusMasterWrite then WrittenBack(s.bytes, info) else s.bytes)
  }

  ghost function AllocateStatus(d: DmaDevice, s: DmaState, c: Call): Status
    requires c.AllocateCall?
  {
    if c.pages == 0 then InvalidParameter
    else if d.limits.nonIdentity then Unsupported
    else if !c.validType || (c.extra.Extra? && c.extra.unknown) then InvalidParameter
    else if !d.Coherent(c.extra) then Unsupported
    else if HasRun(s.free, c.pages, d.Limit(c.extra)) then Success
    else OutOfResources
  }

  ghost predicate AllocateStep(d: DmaDevice, s: DmaState, c: Call, o: Outcome, s': DmaState)
    requires c.AllocateCall?
  {
    && o.status == AllocateStatus(d, s, c)
    && if o.status != Success then s' == s
       else
         var run := Interval(o.address, c.pages);
         && run <= s.free && EndsBelow(o.address, c.pages, d.Limit(c.extra))
         && (o.address + c.pages) * EFI_PAGE_SIZE <= |s.bytes|
         && s' == DmaState(s.maps, s.free - run, s.owned + run, s.buffers + run,
                           Patched(s.bytes, o.address * EFI_PAGE_SIZE, seq(c.pages * EFI_PAGE_SIZE, i => 0)))
  }

  ghost predicate FreeStep(s: DmaState, page: nat, pages: nat, o: Outcome, s': DmaState) {
    var run := Interval(page, pages);
    if pages == 0 then o.status == InvalidParameter && s' == s
    else if run <= s.owned then
      o.status == Success && s' == DmaState(s.maps, s.free + run, s.owned - run, s.buffers - run, s.bytes)
    else o.status == NotFound && s' == s
  }

  /** What each call does. */
  ghost predicate Step(d: DmaDevice, s: DmaState, c: Call, o: Outcome, s': DmaState) {
    match c
    case MapCall(_, _, _, _, _) => MapStep(d, s, c, o, s')
    case UnmapCall(mapping) => UnmapStep(s, mapping, o, s')
    case AllocateCall(_, _, _) => AllocateStep(d, s, c, o, s')
    case FreeCall(page, pages) => FreeStep(s, page, pages, o, s')
    case DeviceWrites(at, data) => at + |data| <= |s.bytes| && s' == s.(bytes := Patched(s.bytes, at, data))
    case NoCall => s' == s
  }

  lemma {:induction false} ExceptIsWithout(maps: seq<MapInfo>, k: nat)
    requires k < |maps| && maps[k] !in Without(maps, k)
    ensures Except(maps, maps[k]) == Without(maps, k)
  {
    if k == 0 {
      assert Without(maps, 0) == maps[1..];
    } else {
      var rest := maps[1..];
      assert maps[0] == Without(maps, k)[0];
      assert Without(maps, k) == [maps[0]] + Without(rest, k - 1);
      ExceptIsWithout(rest, k - 1);
    }
  }

  /** The owned pages follow from the free ones. */
  lemma OwnedFollows(s: DmaState, s': DmaState)
    requires s.free !! s.owned && s'.free !! s'.owned && s'.free + s'.owned == s.free + s.owned
    ensures s'.owned == s.free + s.owned - s'.free
  {}

  method Serve(d: DmaDevice, c: Call) returns (o: Outcome)
    requires d.Valid() && Issuable(StateOf(d), c)
    modifies d`maps, d`buffers, d.memory
    ensures d.Valid() && |d.memory.bytes| == |old(d.memory.bytes)|
    ensures Step(d, old(StateOf(d)), c, o, StateOf(d))
    ensures o.mapping.Bounce? ==> fresh(o.mapping.info)
  {
    ghost var s := StateOf(d);
    o := Outcome(Success, NullMapping, 0);
    match c {
      case MapCall(operation, hostAddress, numberOfBytes, extra, poolExhausted) =>
        o := ServeMap(d, c);
      case UnmapCall(mapping) =>
        o := ServeUnmap(d, mapping);
      case AllocateCall(validType, pages, extra) =>
        hide MapPages, Disjoint, Inside, HasRun, EndsBelow, Interval;
        var status, page := d.AllocateBuffer(validType, pages, extra);
        o := Outcome(status, NullMapping, page);
        OwnedFollows(s, StateOf(d));
      case FreeCall(page, pages) =>
        hide MapPages, Disjoint, Inside, Interval;
        var status := d.FreeBuffer(pages, page);
        o := Outcome(status, NullMapping, page);
      case DeviceWrites(at, data) =>
        hide MapPages, Disjoint, Interval;
        d.memory.bytes := Patched(d.memory.bytes, at, data);
      case NoCall =>
    }
  }

  method ServeMap(d: DmaDevice, c: Call) returns (o: Outcome)
    requires c.MapCall? && d.Valid() && Issuable(StateOf(d), c)
    modifies d`maps, d.memory
    ensures d.Valid() && |d.memory.bytes| == |old(d.memory.bytes)|
    ensures MapStep(d, old(StateOf(d)), c, o, StateOf(d))
    ensures o.mapping.Bounce? ==> fresh(o.mapping.info)
  {
    hide MapPages, Disjoint, Inside, HasRun, Filled, Interval;
    ghost var s := StateOf(d);
    var status, address, mapping := d.Map(c.operation, c.hostAddress, c.numberOfBytes, c.extra, c.poolExhausted);
    o := Outcome(status, mapping, address);
    OwnedFollows(s, StateOf(d));
  }

  method ServeUnmap(d: DmaDevice, mapping: Mapping) returns (o: Outcome)
    requires d.Valid()
    modifies d`maps, d.memory
    ensures d.Valid() && |d.memory.bytes| == |old(d.memory.bytes)|
    ensures UnmapStep(old(StateOf(d)), mapping, o, StateOf(d)) && o.mapping == NullMapping
  {
    hide MapPages, Disjoint, Inside, WrittenBack, Interval, UnmapStep, MapInfo.Fits, Without;
    ghost var s := StateOf(d);
    var status := d.Unmap(mapping);
    o := Outcome(status, NullMapping, 0);
    if mapping.Bounce? && status == Success {
      ghost var k :| 0 <= k < |s.maps| && s.maps[k] == mapping.info && d.maps == Without(s.maps, k);
      UnmapIsStep(s, mapping.info, k, StateOf(d));
    } else {
      OwnedFollows(s, StateOf(d));
      NoUnmapIsStep(s, mapping, status, StateOf(d));
    }
  }

  /** The successful unmapping of a bounce mapping, as far as its values go. */
  lemma UnmapIsStep(s: DmaState, info: MapInfo, k: nat, s': DmaState)
    requires k < |s.maps| && s.maps[k] == info && s'.maps == Without(s.maps, k) && info !in s'.maps
    requires s.free !! s.owned && s'.free !! s'.owned && s'.free + s'.owned == s.free + s.owned
    requires s'.free == s.free + info.Pages() && info.Fits(|s.bytes|) && s'.buffers == s.buffers
    requires s'.bytes == if info.operation == BusMasterWrite then WrittenBack(s.bytes, info) else s.bytes
    ensures UnmapStep(s, Bounce(info), Outcome(Success, NullMapping, 0), s')
  {
    hide WrittenBack, Interval, Without, MapInfo.Fits, MapInfo.Pages;
    ExceptIsWithout(s.maps, k);
    OwnedFollows(s, s');
    assert s'.owned == s.owned - info.Pages();
  }

  lemma NoUnmapIsStep(s: DmaState, mapping: Mapping, status: Status, s': DmaState)
    requires s' == s
    requires match mapping
             case NullMapping => status == InvalidParameter
             case NoMapping => status == Success
             case Bounce(info) => info !in s.maps && status == InvalidParameter
    ensures UnmapStep(s, mapping, Outcome(status, NullMapping, 0), s')
  {}

  /** A run: the state before, between and after the calls. */
  ghost predicate IsRun(d: DmaDevice, states: seq<DmaState>, calls: seq<Call>, outcomes: seq<Outcome>) {
    && |states| == |calls| + 1 && |outcomes| == |calls|
    && forall k :: 0 <= k < |calls| ==>
         Issuable(states[k], calls[k]) && Step(d, states[k], calls[k], outcomes[k], states[k + 1])
  }

  /** The mappings alive after the calls, in the order they were made: a bounce mapping
      is from the Map that made it to the Unmap that takes it. */
  function Live(first: seq<MapInfo>, calls: seq<Call>, outcomes: seq<Outcome>): seq<MapInfo>
    requires |calls| == |outcomes|
  {
    if calls == [] then first
    else
      var last := |calls| - 1;
      var before := Live(first, calls[..last], outcomes[..last]);
      var c, o := calls[last], outcomes[last];
      if c.MapCall? && o.status == Success && o.mapping.Bounce? then before + [o.mapping.info]
      else if c.UnmapCall? && o.status == Success && c.mapping.Bounce? then Except(before, c.mapping.info)
      else before
  }

  lemma StepKeepsLive(d: DmaDevice, s: DmaState, c: Call, o: Outcome, s': DmaState)
    requires Step(d, s, c, o, s')
    ensures s'.maps == if c.MapCall? && o.status == Success && o.mapping.Bounce? then s.maps + [o.mapping.info]
                       else if c.UnmapCall? && o.status == Success && c.mapping.Bounce? then Except(s.maps, c.mapping.info)
                       else s.maps
    ensures |s'.bytes| == |s.bytes|
  {
    hide Interval, MapStatus, AllocateStatus, EndsBelow, Records;
  }

  /** At every point of every run the driver's list is exactly the live mappings. */
  lemma {:induction false} ListIsLive(d: DmaDevice, states: seq<DmaState>, calls: seq<Call>, outcomes: seq<Outcome>, k: nat)
    requires IsRun(d, states, calls, outcomes) && k <= |calls|
    ensures states[k].maps == Live(states[0].maps, calls[..k], outcomes[..k])
  {
    hide Step;
    if k > 0 {
      ListIsLive(d, states, calls, outcomes, k - 1);
      StepKeepsLive(d, states[k - 1], calls[k - 1], outcomes[k - 1], states[k]);
      assert calls[..k][..k - 1] == calls[..k - 1] && outcomes[..k][..k - 1] == outcomes[..k - 1];
    }
  }

  /** So an unmap succeeds if and only if its mapping is alive, or was none. */
  lemma UnmapIffLive(d: DmaDevice, states: seq<DmaState>, calls: seq<Call>, outcomes: seq<Outcome>, k: nat)
    requires IsRun(d, states, calls, outcomes) && k < |calls| && calls[k].UnmapCall?
    ensures outcomes[k].status == Success
            <==> calls[k].mapping == NoMapping
                 || (calls[k].mapping.Bounce? && calls[k].mapping.info in Live(states[0].maps, calls[..k], outcomes[..k]))
    ensures outcomes[k].status != Success ==> outcomes[k].status == InvalidParameter && states[k + 1] == states[k]
  {
    ListIsLive(d, states, calls, outcomes, k);
    hide Live, Interval;
    assert Step(d, states[k], calls[k], outcomes[k], states[k + 1]);
  }

  /** Taking a mapping off the list takes exactly its pages out of those in use. */
  lemma ExceptPages(maps: seq<MapInfo>, info: MapInfo, size: nat)
    requires Disjoint(maps) && info in maps && forall i :: 0 <= i < |maps| ==> maps[i].Fits(size)
    ensures MapPages(Except(maps, info)) == MapPages(maps) - info.Pages() && Disjoint(Except(maps, info))
    ensures info.Pages() <= MapPages(maps)
    ensures forall i :: 0 <= i < |Except(maps, info)| ==> Except(maps, info)[i].Fits(size)
  {
    var k :| 0 <= k < |maps| && maps[k] == info;
    MapPagesRemove(maps, k);
    OnlyOnce(maps, k, size);
    ExceptIsWithout(maps, k);
  }

  /** Every call keeps the pages exact and conserves them. */
  lemma StepKeepsPages(d: DmaDevice, s: DmaState, c: Call, o: Outcome, s': DmaState)
    requires StateValid(s) && Issuable(s, c) && Step(d, s, c, o, s')
    ensures StateValid(s') && s'.free + s'.owned == s.free + s.owned
  {
    hide Interval, MapPages, Disjoint, MapStatus, AllocateStatus, EndsBelow, Records, WrittenBack;
    StepKeepsLive(d, s, c, o, s');
    match c
    case MapCall(_, _, _, _, _) =>
      if s'.maps != s.maps {
        MapPagesAdd(s.maps, o.mapping.info);
        DisjointAdd(s.maps, o.mapping.info);
      }
    case UnmapCall(mapping) =>
      if mapping.Bounce? && mapping.info in s.maps {
        ExceptPages(s.maps, mapping.info, |s.bytes|);
      }
    case AllocateCall(_, _, _) =>
    case FreeCall(page, pages) =>
    case DeviceWrites(at, data) =>
    case NoCall =>
  }

  /** Over every run the pages owned are exactly those of the live mappings and the
      buffers, on distinct pages, and none is lost; so whenever nothing is mapped and no
      buffer is held, all of them are back. */
  lemma {:induction false} RunKeepsPages(d: DmaDevice, states: seq<DmaState>, calls: seq<Call>, outcomes: seq<Outcome>, k: nat)
    requires IsRun(d, states, calls, outcomes) && k <= |calls| && StateValid(states[0])
    ensures StateValid(states[k]) && states[k].free + states[k].owned == states[0].free + states[0].owned
    ensures states[k].maps == [] && states[k].buffers == {} ==> states[k].free == states[0].free + states[0].owned
    ensures |states[k].bytes| == |states[0].bytes|
  {
    hide Step, Issuable, StateValid;
    if k > 0 {
      RunKeepsPages(d, states, calls, outcomes, k - 1);
      StepKeepsPages(d, states[k - 1], calls[k - 1], outcomes[k - 1], states[k]);
      StepKeepsLive(d, states[k - 1], calls[k - 1], outcomes[k - 1], states[k]);
    }
    NothingHeld(states[k]);
  }

  lemma NothingHeld(s: DmaState)
    requires StateValid(s)
    ensures s.maps == [] && s.buffers == {} ==> s.owned == {}
  {}

  /** Byte x lies in the window of the mapping, up to the end of its last page. */
  predicate InWindow(info: MapInfo, x: nat) {
    info.MappedAddress() <= x < info.MappedAddress() + info.numberOfPages * EFI_PAGE_SIZE
  }

  lemma PageOfByte(page: nat, pages: nat, x: nat)
    ensures page * EFI_PAGE_SIZE <= x < (page + pages) * EFI_PAGE_SIZE <==> x / EFI_PAGE_SIZE in Interval(page, pages)
  {}

  /** The step does not write byte x on purpose: no device write there, and no unmapped
      write mapping has its host range there. */
  predicate Spares(c: Call, o: Outcome, x: nat) {
    && (c.DeviceWrites? ==> !(c.at <= x < c.at + |c.data|))
    && (c.UnmapCall? && c.mapping.Bounce? && o.status == Success && c.mapping.info.operation == BusMasterWrite ==>
          !(c.mapping.info.hostAddress <= x < c.mapping.info.hostAddress + c.mapping.info.numberOfBytes))
  }

  /** Nothing else the driver does reaches into a live window. */
  lemma WindowKeptByStep(d: DmaDevice, s: DmaState, c: Call, o: Outcome, s': DmaState, info: MapInfo, x: nat)
    requires StateValid(s) && Step(d, s, c, o, s') && Spares(c, o, x)
    requires info in s.maps && InWindow(info, x) && x < |s.bytes|
    ensures |s'.bytes| == |s.bytes| && s'.bytes[x] == s.bytes[x]
  {
    StepKeepsLive(d, s, c, o, s');
    MapPagesMember(s.maps, x / EFI_PAGE_SIZE);
    PageOfByte(info.mappedPage, info.numberOfPages, x);
    assert x / EFI_PAGE_SIZE in s.owned;
    hide Interval, MapPages, Disjoint, MapStatus, AllocateStatus, EndsBelow, Records;
    if c.MapCall? && s'.maps != s.maps {
      PageOfByte(o.mapping.info.mappedPage, o.mapping.info.numberOfPages, x);
    } else if c.AllocateCall? && o.status == Success {
      PageOfByte(o.address, c.pages, x);
    }
  }

  lemma {:induction false} WindowKept(d: DmaDevice, states: seq<DmaState>, calls: seq<Call>, outcomes: seq<Outcome>,
                                      i: nat, k: nat, info: MapInfo, x: nat)
    requires IsRun(d, states, calls, outcomes) && i <= k <= |calls| && StateValid(states[0])
    requires InWindow(info, x) && x < |states[0].bytes|
    requires forall j :: i <= j < k ==> info in states[j].maps && Spares(calls[j], outcomes[j], x)
    ensures |states[i].bytes| == |states[k].bytes| == |states[0].bytes| && states[k].bytes[x] == states[i].bytes[x]
    decreases k
  {
    hide Step, Issuable, StateValid, Spares;
    RunKeepsPages(d, states, calls, outcomes, i);
    RunKeepsPages(d, states, calls, outcomes, k);
    if i < k {
      WindowKept(d, states, calls, outcomes, i, k - 1, info, x);
      RunKeepsPages(d, states, calls, outcomes, k - 1);
      WindowKeptByStep(d, states[k - 1], calls[k - 1], outcomes[k - 1], states[k], info, x);
    }
  }

  /** Nothing is written into the window between two points of a run. */
  ghost predicate WindowQuiet(states: seq<DmaState>, calls: seq<Call>, outcomes: seq<Outcome>, i: nat, k: nat, info: MapInfo)
    requires i <= k <= |calls| && |states| == |calls| + 1 && |outcomes| == |calls|
  {
    forall j, x :: i <= j < k && InWindow(info, x) ==> info in states[j].maps && Spares(calls[j], outcomes[j], x)
  }

  lemma QuietWindowKept(d: DmaDevice, states: seq<DmaState>, calls: seq<Call>, outcomes: seq<Outcome>,
                        i: nat, k: nat, info: MapInfo)
    requires IsRun(d, states, calls, outcomes) && i <= k <= |calls| && StateValid(states[0])
    requires WindowQuiet(states, calls, outcomes, i, k, info) && info.Fits(|states[0].bytes|)
    ensures |states[i].bytes| == |states[k].bytes| == |states[0].bytes|
    ensures var m, n := info.MappedAddress(), info.numberOfBytes; states[k].bytes[m..m + n] == states[i].bytes[m..m + n]
  {
    hide Step, Issuable, StateValid, Spares;
    var m, n := info.MappedAddress(), info.numberOfBytes;
    RunKeepsPages(d, states, calls, outcomes, i);
    RunKeepsPages(d, states, calls, outcomes, k);
    var before, now := states[i].bytes, states[k].bytes;
    forall x | m <= x < m + n ensures now[x] == before[x] {
      assert InWindow(info, x);
      WindowKept(d, states, calls, outcomes, i, k, info, x);
    }
  }

  /** What the device last wrote into the window of a write mapping is what the host finds
      in its range once the mapping is gone, whatever happened in between elsewhere. */
  lemma DeviceDataArrives(d: DmaDevice, states: seq<DmaState>, calls: seq<Call>, outcomes: seq<Outcome>,
                          i: nat, k: nat, info: MapInfo, data: seq<u8>)
    requires IsRun(d, states, calls, outcomes) && i < k < |calls| && StateValid(states[0])
    requires info.operation == BusMasterWrite && |data| == info.numberOfBytes && info in states[k].maps
    requires calls[i] == DeviceWrites(info.MappedAddress(), data) && calls[k] == UnmapCall(Bounce(info))
    requires WindowQuiet(states, calls, outcomes, i + 1, k, info)
    ensures outcomes[k].status == Success && info.hostAddress + info.numberOfBytes <= |states[k + 1].bytes|
    ensures states[k + 1].bytes[info.hostAddress..info.hostAddress + info.numberOfBytes] == data
  {
    RunKeepsPages(d, states, calls, outcomes, k);
    QuietWindowKept(d, states, calls, outcomes, i + 1, k, info);
    hide Interval, MapPages, Disjoint, WindowQuiet;
    assert Step(d, states[i], calls[i], outcomes[i], states[i + 1]);
    assert Step(d, states[k], calls[k], outcomes[k], states[k + 1]);
  }

  /** And what the host had in its range when a read was mapped is what the device finds
      in the window, as long as the host range was not on free pages. */
  lemma HostDataVisible(d: DmaDevice, states: seq<DmaState>, calls: seq<Call>, outcomes: seq<Outcome>, i: nat, k: nat)
    requires IsRun(d, states, calls, outcomes) && i < k <= |calls| && StateValid(states[0])
    requires calls[i].MapCall? && calls[i].operation == BusMasterRead
    requires outcomes[i].status == Success && outcomes[i].mapping.Bounce?
    requires OffFree(states[i].free, calls[i].hostAddress, calls[i].numberOfBytes)
    requires WindowQuiet(states, calls, outcomes, i + 1, k, outcomes[i].mapping.info)
    ensures var m, h, n := outcomes[i].address, calls[i].hostAddress, calls[i].numberOfBytes;
            && m + n <= |states[k].bytes| && h + n <= |states[i].bytes|
            && states[k].bytes[m..m + n] == states[i].bytes[h..h + n]
  {
    hide MapPages, Disjoint, HasRun, Interval, WindowQuiet, Live;
    var info := outcomes[i].mapping.info;
    RunKeepsPages(d, states, calls, outcomes, i);
    assert Step(d, states[i], calls[i], outcomes[i], states[i + 1]);
    FreshIsApart(states[i].free, info);
    QuietWindowKept(d, states, calls, outcomes, i + 1, k, info);
  }

  /** What a driver may ask for, in any order.  It names mappings and buffers by the number
      of the request that gave them to it. */
  datatype Request =
    | MapRequest(operation: Operation, hostAddress: u64, numberOfBytes: nat, extra: Extra, poolExhausted: bool)
    | UnmapRequest(number: nat)
    | AllocateRequest(validType: bool, pages: nat, extra: Extra)
    | FreeRequest(number: nat)
    | WriteRequest(at: nat, data: seq<u8>)

  predicate InMemory(r: Request, size: nat) {
    && (r.MapRequest? ==> 0 < r.numberOfBytes && r.hostAddress + r.numberOfBytes <= Min(size, TWO_64))
    && (r.WriteRequest? ==> r.at + |r.data| <= size)
  }

  /** The numbers of the buffers the driver holds. */
  function Held(requests: seq<Request>, outcomes: seq<Outcome>): (held: set<nat>)
    requires |outcomes| <= |requests|
    ensures forall n :: n in held ==> n < |outcomes| && requests[n].AllocateRequest?
  {
    if outcomes == [] then {}
    else
      var last := |outcomes| - 1;
      var before := Held(requests, outcomes[..last]);
      match requests[last]
      case AllocateRequest(_, _, _) => if outcomes[last].status == Success then before + {last} else before
      case FreeRequest(n) => before - {n}
      case _ => before
  }

  /** The call a request comes to: the mapping may be stale or no mapping at all, but a
      buffer the driver does not hold is not freed. */
  function Resolve(requests: seq<Request>, outcomes: seq<Outcome>): Call
    requires |outcomes| < |requests|
  {
    match requests[|outcomes|]
    case MapRequest(operation, hostAddress, numberOfBytes, extra, poolExhausted) =>
      MapCall(operation, hostAddress, numberOfBytes, extra, poolExhausted)
    case UnmapRequest(n) => UnmapCall(if n < |outcomes| then outcomes[n].mapping else NullMapping)
    case AllocateRequest(validType, pages, extra) => AllocateCall(validType, pages, extra)
    case FreeRequest(n) =>
      if n in Held(requests, outcomes) then FreeCall(outcomes[n].address, requests[n].pages) else NoCall
    case WriteRequest(at, data) => DeviceWrites(at, data)
  }

  function BufferPages(requests: seq<Request>, outcomes: seq<Outcome>, n: nat): set<nat>
    requires |outcomes| <= |requests| && n in Held(requests, outcomes)
  {
    Interval(outcomes[n].address, requests[n].pages)
  }

  ghost function HeldPages(requests: seq<Request>, outcomes: seq<Outcome>): set<nat>
    requires |outcomes| <= |requests|
  {
    set n, p | n in Held(requests, outcomes) && p in BufferPages(requests, outcomes, n) :: p
  }

  /** The pages in buffers are those of before and those of the buffers held, each of
      which has its own. */
  ghost predicate BuffersExact(requests: seq<Request>, outcomes: seq<Outcome>, first: set<nat>, buffers: set<nat>)
    requires |outcomes| <= |requests|
  {
    && buffers == first + HeldPages(requests, outcomes)
    && (forall n :: n in Held(requests, outcomes) ==> BufferPages(requests, outcomes, n) !! first)
    && forall m, n :: m in Held(requests, outcomes) && n in Held(requests, outcomes) && m != n ==>
         BufferPages(requests, outcomes, m) !! BufferPages(requests, outcomes, n)
  }

  lemma HeldIsInBuffers(requests: seq<Request>, outcomes: seq<Outcome>, first: set<nat>, buffers: set<nat>, n: nat)
    requires |outcomes| <= |requests| && BuffersExact(requests, outcomes, first, buffers) && n in Held(requests, outcomes)
    ensures BufferPages(requests, outcomes, n) <= buffers
  {
    hide Interval, Held;
    forall p | p in BufferPages(requests, outcomes, n) ensures p in HeldPages(requests, outcomes) {}
  }

  /** A request, resolved, respects what the driver has to respect. */
  lemma ResolvedIsIssuable(s: DmaState, requests: seq<Request>, outcomes: seq<Outcome>, first: set<nat>)
    requires |outcomes| < |requests| && StateValid(s) && BuffersExact(requests, outcomes, first, s.buffers)
    requires InMemory(requests[|outcomes|], |s.bytes|)
    ensures Issuable(s, Resolve(requests, outcomes))
  {
    hide Interval, MapPages, Disjoint, Held;
    var r := requests[|outcomes|];
    if r.FreeRequest? && r.number in Held(requests, outcomes) {
      HeldIsInBuffers(requests, outcomes, first, s.buffers, r.number);
    }
  }

  /** How a call changes the pages in buffers. */
  lemma StepOnBuffers(d: DmaDevice, s: DmaState, c: Call, o: Outcome, s': DmaState)
    requires StateValid(s) && Step(d, s, c, o, s')
    ensures if c.AllocateCall? && o.status == Success then
              s'.buffers == s.buffers + Interval(o.address, c.pages) && s.buffers !! Interval(o.address, c.pages)
            else if c.FreeCall? && Interval(c.page, c.pages) <= s.buffers then
              s'.buffers == s.buffers - Interval(c.page, c.pages)
            else c.FreeCall? || s'.buffers == s.buffers
  {
    if c.FreeCall? && c.pages == 0 {
      assert Interval(c.page, c.pages) == {};
    }
    hide Interval, MapPages, Disjoint, MapStatus, AllocateStatus, EndsBelow, Records, WrittenBack;
  }

  lemma HeldAfter(requests: seq<Request>, outcomes: seq<Outcome>, o: Outcome)
    requires |outcomes| < |requests|
    ensures var r := requests[|outcomes|];
            Held(requests, outcomes + [o])
            == if r.AllocateRequest? && o.status == Success then Held(requests, outcomes) + {|outcomes|}
               else if r.FreeRequest? then Held(requests, outcomes) - {r.number} else Held(requests, outcomes)
    ensures forall n :: n in Held(requests, outcomes) && n in Held(requests, outcomes + [o]) ==>
              BufferPages(requests, outcomes + [o], n) == BufferPages(requests, outcomes, n)
  {
    assert (outcomes + [o])[..|outcomes|] == outcomes;
  }

  lemma BuffersStayExact(d: DmaDevice, s: DmaState, requests: seq<Request>, outcomes: seq<Outcome>, o: Outcome, s': DmaState,
                         first: set<nat>)
    requires |outcomes| < |requests| && StateValid(s) && BuffersExact(requests, outcomes, first, s.buffers)
    requires Step(d, s, Resolve(requests, outcomes), o, s')
    ensures BuffersExact(requests, outcomes + [o], first, s'.buffers)
  {
    hide Interval, MapPages, Disjoint, Step, StateValid, Held;
    StepOnBuffers(d, s, Resolve(requests, outcomes), o, s');
    HeldAfter(requests, outcomes, o);
    var now, r := outcomes + [o], requests[|outcomes|];
    if r.AllocateRequest? && o.status == Success {
      var run := Interval(o.address, r.pages);
      assert BufferPages(requests, now, |outcomes|) == run;
      forall n | n in Held(requests, outcomes) ensures BufferPages(requests, outcomes, n) !! run {
        HeldIsInBuffers(requests, outcomes, first, s.buffers, n);
      }
      assert HeldPages(requests, now) == HeldPages(requests, outcomes) + run;
    } else if r.FreeRequest? && r.number in Held(requests, outcomes) {
      HeldIsInBuffers(requests, outcomes, first, s.buffers, r.number);
      assert HeldPages(requests, now) == HeldPages(requests, outcomes) - BufferPages(requests, outcomes, r.number);
    } else {
      assert HeldPages(requests, now) == HeldPages(requests, outcomes);
    }
  }

  /** The run of a list of requests is the run of the calls they come to. */
  ghost predicate IsRunOf(d: DmaDevice, requests: seq<Request>, states: seq<DmaState>, calls: seq<Call>, outcomes: seq<Outcome>)
    requires |outcomes| <= |requests|
  {
    && IsRun(d, states, calls, outcomes)
    && forall k :: 0 <= k < |calls| ==> calls[k] == Resolve(requests, outcomes[..k])
  }

  lemma RunGrows(d: DmaDevice, requests: seq<Request>, states: seq<DmaState>, calls: seq<Call>, outcomes: seq<Outcome>,
                 c: Call, o: Outcome, s': DmaState)
    requires |outcomes| < |requests| && IsRunOf(d, requests, states, calls, outcomes)
    requires c == Resolve(requests, outcomes) && Issuable(states[|calls|], c) && Step(d, states[|calls|], c, o, s')
    ensures IsRunOf(d, requests, states + [s'], calls + [c], outcomes + [o])
  {
    hide Step, Issuable, Resolve;
    var calls', outcomes' := calls + [c], outcomes + [o];
    forall k | 0 <= k < |calls'| ensures calls'[k] == Resolve(requests, outcomes'[..k]) {
      assert outcomes'[..k] == outcomes[..k];
      assert k == |calls| ==> outcomes[..k] == outcomes;
    }
  }

  /** Serves any interleaving of Map, Unmap, AllocateBuffer and FreeBuffer, with the device
      writing to memory in between.  All that is proved of runs holds of it; afterwards the
      list is exactly the live mappings, and if there are none and no buffer is held, all
      pages are back. */
  method RunRequests(d: DmaDevice, requests: seq<Request>)
    returns (outcomes: seq<Outcome>, ghost states: seq<DmaState>, ghost calls: seq<Call>)
    requires d.Valid() && forall k :: 0 <= k < |requests| ==> InMemory(requests[k], |d.memory.bytes|)
    modifies d`maps, d`buffers, d.memory
    ensures d.Valid() && |outcomes| == |calls| == |requests| && IsRunOf(d, requests, states, calls, outcomes)
    ensures states[0] == old(StateOf(d)) && states[|requests|] == StateOf(d)
    ensures d.maps == Live(old(d.maps), calls, outcomes)
    ensures forall k :: 0 <= k < |requests| && requests[k].UnmapRequest? ==>
              (outcomes[k].status == Success <==>
                 calls[k].mapping == NoMapping
                 || (calls[k].mapping.Bounce? && calls[k].mapping.info in Live(old(d.maps), calls[..k], outcomes[..k])))
    ensures d.memory.free + d.memory.owned == old(d.memory.free) + old(d.memory.owned)
    ensures BuffersExact(requests, outcomes, old(d.buffers), d.buffers)
    ensures d.maps == [] && old(d.buffers) == {} && Held(requests, outcomes) == {} ==>
              d.memory.free == old(d.memory.free) + old(d.memory.owned)
  {
    outcomes, states, calls := [], [StateOf(d)], [];
    ghost var size := |d.memory.bytes|;
    hide Resolve, Step, Issuable, MapPages, Disjoint, Inside, InMemory, IsRunOf, BuffersExact, Live, Held;
    StartOfRun(d, requests, StateOf(d));
    var i := 0;
    while i < |requests|
      invariant i <= |requests| && d.Valid() && |d.memory.bytes| == size
      invariant |outcomes| == |calls| == i && |states| == i + 1 && states[0] == old(StateOf(d)) && states[i] == StateOf(d)
      invariant IsRunOf(d, requests, states, calls, outcomes)
      invariant BuffersExact(requests, outcomes, old(d.buffers), d.buffers)
    {
      ghost var s := StateOf(d);
      ResolvedIsIssuable(s, requests, outcomes, old(d.buffers));
      var c := Resolve(requests, outcomes);
      var o := Serve(d, c);
      BuffersStayExact(d, s, requests, outcomes, o, StateOf(d), old(d.buffers));
      RunGrows(d, requests, states, calls, outcomes, c, o, StateOf(d));
      outcomes, states, calls := outcomes + [o], states + [StateOf(d)], calls + [c];
      i := i + 1;
    }
    RunEnds(d, requests, states, calls, outcomes);
    if Held(requests, outcomes) == {} {
      NoBufferHeld(requests, outcomes, d.buffers);
    }
  }

  lemma NoBufferHeld(requests: seq<Request>, outcomes: seq<Outcome>, buffers: set<nat>)
    requires |outcomes| <= |requests| && Held(requests, outcomes) == {}
    ensures BuffersExact(requests, outcomes, {}, buffers) ==> buffers == {}
  {}

  lemma StartOfRun(d: DmaDevice, requests: seq<Request>, s: DmaState)
    ensures IsRunOf(d, requests, [s], [], []) && BuffersExact(requests, [], s.buffers, s.buffers)
  {}

  /** What a finished run of requests comes to. */
  lemma RunEnds(d: DmaDevice, requests: seq<Request>, states: seq<DmaState>, calls: seq<Call>, outcomes: seq<Outcome>)
    requires |outcomes| == |calls| == |requests| && IsRunOf(d, requests, states, calls, outcomes) && StateValid(states[0])
    ensures states[|calls|].maps == Live(states[0].maps, calls, outcomes)
    ensures forall k :: 0 <= k < |requests| && requests[k].UnmapRequest? ==>
              calls[k].UnmapCall?
              && (outcomes[k].status == Success <==>
                    calls[k].mapping == NoMapping
                    || (calls[k].mapping.Bounce? && calls[k].mapping.info in Live(states[0].maps, calls[..k], outcomes[..k])))
    ensures var s := states[|calls|];
            && s.free + s.owned == states[0].free + states[0].owned
            && (s.maps == [] && s.buffers == {} ==> s.free == states[0].free + states[0].owned)
  {
    hide Step, Issuable, StateValid, Live, Held;
    ListIsLive(d, states, calls, outcomes, |calls|);
    assert calls[..|calls|] == calls && outcomes[..|calls|] == outcomes;
    RunKeepsPages(d, states, calls, outcomes, |calls|);
    forall k | 0 <= k < |requests| && requests[k].UnmapRequest?
      ensures calls[k].UnmapCall?
              && (outcomes[k].status == Success <==>
                    calls[k].mapping == NoMapping
                    || (calls[k].mapping.Bounce? && calls[k].mapping.info in Live(states[0].maps, calls[..k], outcomes[..k])))
    {
      assert calls[k] == Resolve(requests, outcomes[..k]);
      UnmapIffLive(d, states, calls, outcomes, k);
    }
  }
}
