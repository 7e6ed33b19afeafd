/**
  DMA mapping for devicetree devices (FdtBusDxe/DtIoDma.c): direct windows, bounce
  buffers and the list of live mappings.
 */
module DtDmaMap {
  import opened Uefi
  import opened GcdSpace
  import opened DtRows
  import opened DtTranslate
  import opened DmaPages
  import opened DtDma

  datatype Operation = BusMasterRead | BusMasterWrite | BusMasterCommonBuffer

  /** EFI_DT_IO_PROTOCOL_DMA_EXTRA; `unknown` stands for any flag the driver does not know. */
  datatype Extra = NoExtra | Extra(unknown: bool, withMaxAddress: bool, nonCoherent: bool, maxAddress: u64)

  /** MAP_INFO: one live bounce mapping. */
  class MapInfo {
    const operation: Operation
    const numberOfBytes: nat
    const numberOfPages: nat
    const hostAddress: nat
    const mappedPage: nat

    constructor (operation: Operation, numberOfBytes: nat, hostAddress: nat, mappedPage: nat)
      ensures this.operation == operation && this.numberOfBytes == numberOfBytes
      ensures this.hostAddress == hostAddress && this.mappedPage == mappedPage
      ensures numberOfPages == PagesOf(numberOfBytes)
    {
      this.operation, this.numberOfBytes, this.hostAddress := operation, numberOfBytes, hostAddress;
      this.mappedPage, this.numberOfPages := mappedPage, PagesOf(numberOfBytes);
    }

    function MappedAddress(): nat { mappedPage * EFI_PAGE_SIZE }

    function Pages(): set<nat> { Interval(mappedPage, numberOfPages) }

    predicate Fits(size: nat) {
      && 0 < numberOfBytes <= numberOfPages * EFI_PAGE_SIZE
      && hostAddress + numberOfBytes <= size && MappedAddress() + numberOfBytes <= size
    }
  }

  /** The values Map hands out for Unmap. */
  datatype Mapping = NullMapping | NoMapping | Bounce(info: MapInfo)

  function MapPages(maps: seq<MapInfo>): set<nat> {
    if maps == [] then {} else maps[0].Pages() + MapPages(maps[1..])
  }

  lemma {:induction false} MapPagesMember(maps: seq<MapInfo>, p: nat)
    ensures p in MapPages(maps) <==> exists k :: 0 <= k < |maps| && p in maps[k].Pages()
  {
    if maps != [] {
      MapPagesMember(maps[1..], p);
      if k :| 0 <= k < |maps| && p in maps[k].Pages() {
        assert k > 0 ==> maps[k] == maps[1..][k - 1];
      }
    }
  }

  lemma {:induction false} MapPagesAdd(maps: seq<MapInfo>, info: MapInfo)
    ensures MapPages(maps + [info]) == MapPages(maps) + info.Pages()
  {
    if maps == [] {
      assert maps + [info] == [info];
    } else {
      MapPagesAdd(maps[1..], info);
      assert (maps + [info])[1..] == maps[1..] + [info];
    }
  }

  /** No two mappings share a page. */
  ghost predicate Disjoint(maps: seq<MapInfo>) {
    forall j, k :: 0 <= j < k < |maps| ==> maps[j].Pages() !! maps[k].Pages()
  }

  lemma DisjointAdd(maps: seq<MapInfo>, info: MapInfo)
    requires Disjoint(maps) && info.Pages() !! MapPages(maps)
    ensures Disjoint(maps + [info])
  {
    forall j | 0 <= j < |maps| ensures maps[j].Pages() !! info.Pages() {
      forall p | p in maps[j].Pages() ensures p !in info.Pages() {
        MapPagesMember(maps, p);
      }
    }
  }

  function Without(maps: seq<MapInfo>, k: nat): seq<MapInfo>
    requires k < |maps|
  {
    maps[..k] + maps[k + 1..]
  }

  lemma {:induction false} MapPagesRemove(maps: seq<MapInfo>, k: nat)
    requires Disjoint(maps) && k < |maps|
    ensures MapPages(Without(maps, k)) == MapPages(maps) - maps[k].Pages() && Disjoint(Without(maps, k))
    ensures maps[k].Pages() <= MapPages(maps)
  {
    forall p ensures p in MapPages(Without(maps, k)) <==> p in MapPages(maps) && p !in maps[k].Pages() {
      MapPagesMember(maps, p);
      MapPagesMember(Without(maps, k), p);
      if i :| 0 <= i < |maps| && i != k && p in maps[i].Pages() {
        assert Without(maps, k)[if i < k then i else i - 1] == maps[i];
      }
    }
    forall p | p in maps[k].Pages() ensures p in MapPages(maps) {
      MapPagesMember(maps, p);
    }
  }

  class DmaDevice {
    const parent: DmaDevice?
    const limits: DmaLimits
    const isDmaCoherent: bool
    const memory: Memory
    var maps: seq<MapInfo>
    ghost var buffers: set<nat>
    ghost const depth: nat
    /** The rows of its dma-ranges, if they could be read and end within 64 bits. */
    ghost const ranges: seq<Row>

    /** DtDeviceCreate as far as DMA goes; a device whose DMA properties cannot be
        read is created nevertheless, marked broken. */
    constructor (parent: DmaDevice?, d: Device, dmaRanges: RangesProp, isDmaCoherent: bool, memory: Memory)
      requires ValidDevice(d) && (parent != null ==> parent.WellBuilt())
      requires memory.Valid() && memory.owned == {}
      ensures WellBuilt() && Valid() && this.parent == parent && this.memory == memory && maps == [] && buffers == {}
      ensures this.isDmaCoherent == isDmaCoherent
      ensures parent == null && (dmaRanges.Missing? || dmaRanges == Present([])) ==>
                limits.maxCpuDmaAddress == 0xFFFF_FFFF_FFFF_FFFF && !limits.nonIdentity
      ensures dmaRanges.Present? && Readable(dmaRanges.data, 0, RowWidths(d))
              && EndIn64(RowsFrom(dmaRanges.data, 0, RowWidths(d))) ==>
                ranges == RowsFrom(dmaRanges.data, 0, RowWidths(d))
    {
      var inherited := if parent == null then NO_LIMITS else parent.limits;
      var status, l := DmaInit(d, dmaRanges, inherited);
      ranges := if dmaRanges.Present? && status == Success && EndIn64(RowsFrom(dmaRanges.data, 0, RowWidths(d))) then
                  RowsFrom(dmaRanges.data, 0, RowWidths(d))
                else [];
      this.parent, this.limits, this.isDmaCoherent, this.memory := parent, l, isDmaCoherent, memory;
      maps, buffers := [], {};
      depth := if parent == null then 0 else parent.depth + 1;
    }

    /** Limits only shrink on the way down, and a non-identity bus leaves none. */
    ghost predicate WellBuilt()
      decreases depth
    {
      && Consistent(limits) && (limits.nonIdentity || BeforeEnds(ranges, limits.maxCpuDmaAddress))
      && (parent != null ==>
            && parent.depth < depth && parent.WellBuilt()
            && limits.maxCpuDmaAddress <= parent.limits.maxCpuDmaAddress
            && (parent.limits.nonIdentity ==> limits.nonIdentity))
    }

    /** The device itself, its parent, and so on up to the root. */
    ghost function Ancestors(): (r: seq<DmaDevice>)
      requires WellBuilt()
      ensures |r| > 0 && r[0] == this
      decreases depth
    {
      [this] + if parent == null then [] else parent.Ancestors()
    }

    /** The address is within the limits of the device and of everything above it, and lies
        before the end of every row of their dma-ranges. */
    ghost predicate BelowAll(address: nat)
      requires WellBuilt()
    {
      forall k :: 0 <= k < |Ancestors()| ==>
        address <= Ancestors()[k].limits.maxCpuDmaAddress && BeforeEnds(Ancestors()[k].ranges, address)
    }

    /** The device owns exactly the pages of its live mappings and buffers, and no
        page serves two of them. */
    ghost predicate Valid()
      reads this, memory
    {
      && WellBuilt() && memory.Valid()
      && memory.owned == MapPages(maps) + buffers && MapPages(maps) !! buffers
      && Disjoint(maps)
      && forall k :: 0 <= k < |maps| ==> maps[k].Fits(|memory.bytes|)
    }

    /** The highest address a mapping may reach. */
    function Limit(extra: Extra): u64 {
      if extra.Extra? && extra.withMaxAddress then Min(limits.maxCpuDmaAddress, extra.maxAddress)
      else limits.maxCpuDmaAddress
    }

    /** The run of free pages from p on lies below the limit of the device and the caller's. */
    ghost predicate Suits(free: set<nat>, p: nat, pages: nat, extra: Extra) {
      && (forall q :: p <= q < p + pages ==> q in free)
      && (p + pages) * EFI_PAGE_SIZE - 1 <= limits.maxCpuDmaAddress
      && (extra.Extra? && extra.withMaxAddress ==> (p + pages) * EFI_PAGE_SIZE - 1 <= extra.maxAddress)
    }

    predicate Coherent(extra: Extra) { isDmaCoherent && !(extra.Extra? && extra.nonCoherent) }

    /** DtIoMap for a nonempty range of memory that does not wrap.  A direct window is the
        host range itself; a bounce window lies on fresh pages and starts with the host's
        bytes for a read and zeros otherwise.  Either is within the limits of the device,
        of every bus above it and of the caller. */
    method Map(operation: Operation, hostAddress: u64, numberOfBytes: nat, extra: Extra, poolExhausted: bool)
      returns (status: Status, deviceAddress: nat, mapping: Mapping)
      requires Valid() && 0 < numberOfBytes && hostAddress + numberOfBytes <= TWO_64
      requires hostAddress + numberOfBytes <= |memory.bytes|
      modifies this`maps, memory
      ensures Valid() && |memory.bytes| == |old(memory.bytes)|
      ensures memory.free + memory.owned == old(memory.free) + old(memory.owned)
      ensures hostAddress == 0 ==> status == InvalidParameter
      ensures hostAddress != 0 && limits.nonIdentity ==> status == Unsupported
      ensures hostAddress != 0 && !limits.nonIdentity ==>
                var direct := hostAddress + numberOfBytes - 1 <= Limit(extra);
                if extra.Extra? && extra.unknown then status == InvalidParameter
                else if !Coherent(extra) then status == Unsupported
                else if direct then status == Success && mapping == NoMapping && deviceAddress == hostAddress
                else if operation == BusMasterCommonBuffer then status == InvalidParameter
                else if !poolExhausted && HasRun(old(memory.free), PagesOf(numberOfBytes), Limit(extra)) then
                  status == Success && mapping.Bounce?
                else status == OutOfResources
      ensures status == Success ==>
                && deviceAddress + numberOfBytes - 1 <= Limit(extra) && BelowAll(deviceAddress + numberOfBytes - 1)
                && (extra.Extra? && extra.withMaxAddress ==> deviceAddress + numberOfBytes - 1 <= extra.maxAddress)
                && BeforeEnds(ranges, deviceAddress + numberOfBytes - 1)
      ensures var last := hostAddress + numberOfBytes - 1;
              var allowed := hostAddress != 0 && !limits.nonIdentity && isDmaCoherent
                             && (extra.Extra? ==> !extra.unknown && !extra.nonCoherent);
              var near := last <= limits.maxCpuDmaAddress && (extra.Extra? && extra.withMaxAddress ==> last <= extra.maxAddress);
              && (status == Success && mapping.NoMapping? <==> allowed && near)
              && (status == Success && mapping.Bounce? <==>
                    allowed && !near && operation != BusMasterCommonBuffer && !poolExhausted
                    && exists p :: Suits(old(memory.free), p, PagesOf(numberOfBytes), extra))
      ensures status == Success && mapping.Bounce? && operation != BusMasterRead ==>
                deviceAddress + numberOfBytes <= |memory.bytes|
                && forall k :: deviceAddress <= k < deviceAddress + numberOfBytes ==> memory.bytes[k] == 0
      ensures status == Success && mapping.Bounce? && operation == BusMasterRead
              && OffFree(old(memory.free), hostAddress, numberOfBytes) ==>
                deviceAddress + numberOfBytes <= |memory.bytes|
                && memory.bytes[deviceAddress..deviceAddress + numberOfBytes]
                   == old(memory.bytes)[hostAddress..hostAddress + numberOfBytes]
      ensures status != Success ==> mapping == NullMapping
      ensures !(status == Success && mapping.Bounce?) ==>
                maps == old(maps) && memory.free == old(memory.free) && memory.bytes == old(memory.bytes)
      ensures status == Success && mapping.Bounce? ==>
                var info := mapping.info;
                && maps == old(maps) + [info] && fresh(info) && deviceAddress == info.MappedAddress()
                && info.operation == operation && info.numberOfBytes == numberOfBytes && info.hostAddress == hostAddress
                && info.Pages() <= old(memory.free) && memory.free == old(memory.free) - info.Pages()
                && Filled(old(memory.bytes), memory.bytes, info)
    {
      SuitsIffRun(this, memory.free, PagesOf(numberOfBytes), extra);
      WrapSmall(hostAddress + numberOfBytes - 1);
      hide Suits, Coherent, BeforeEnds, BelowAll, WellBuilt, HasRun, MapPages, Disjoint, Interval, Inside,
        OffFree, Wrap64, Filled, PagesOf;
      deviceAddress, mapping := 0, NullMapping;
      status := CheckMap(hostAddress, extra);
      if status.IsError() {
        return;
      }
      if Wrap64(hostAddress + numberOfBytes - 1) > Limit(extra) {
        if operation == BusMasterCommonBuffer {
          return InvalidParameter, deviceAddress, mapping;
        }
        var info: MapInfo?;
        status, info := BounceBuffer(operation, hostAddress, numberOfBytes, Limit(extra), poolExhausted);
        if info == null {
          return status, deviceAddress, mapping;
        }
        BelowLimitIsBelowAll(this, info.MappedAddress() + numberOfBytes - 1);
        FilledWindow(old(memory.free), old(memory.bytes), memory.bytes, info);
        return Success, info.MappedAddress(), Bounce(info);
      }
      BelowLimitIsBelowAll(this, hostAddress + numberOfBytes - 1);
      return Success, hostAddress, NoMapping;
    }

    /** The checks DtIoMap begins with. */
    method CheckMap(hostAddress: u64, extra: Extra) returns (status: Status)
      ensures status == if hostAddress == 0 then InvalidParameter
                        else if limits.nonIdentity then Unsupported
                        else if extra.Extra? && extra.unknown then InvalidParameter
                        else if !Coherent(extra) then Unsupported
                        else Success
      ensures status == Success <==>
                && hostAddress != 0 && !limits.nonIdentity && isDmaCoherent
                && (extra.Extra? ==> !extra.unknown && !extra.nonCoherent)
    {
      if hostAddress == 0 {
        return InvalidParameter;
      }
      if limits.nonIdentity {
        return Unsupported;
      }
      if extra.Extra? && extra.unknown {
        return InvalidParameter;
      }
      if !Coherent(extra) {
        return Unsupported;
      }
      return Success;
    }

    /** The bounce branch of DtIoMap; there may be no pool memory left for the MAP_INFO. */
    method BounceBuffer(operation: Operation, hostAddress: u64, numberOfBytes: nat, limit: u64, poolExhausted: bool)
      returns (status: Status, info: MapInfo?)
      requires Valid() && 0 < numberOfBytes && hostAddress + numberOfBytes <= |memory.bytes|
      modifies this`maps, memory
      ensures Valid() && |memory.bytes| == |old(memory.bytes)|
      ensures memory.free + memory.owned == old(memory.free) + old(memory.owned)
      ensures status == if info == null then OutOfResources else Success
      ensures info != null <==> !poolExhausted && HasRun(old(memory.free), PagesOf(numberOfBytes), limit)
      ensures info == null ==> maps == old(maps) && memory.free == old(memory.free) && memory.bytes == old(memory.bytes)
      ensures info != null ==>
                && maps == old(maps) + [info] && fresh(info)
                && info.operation == operation && info.numberOfBytes == numberOfBytes && info.hostAddress == hostAddress
                && info.MappedAddress() + numberOfBytes - 1 <= limit
                && info.Pages() <= old(memory.free) && memory.free == old(memory.free) - info.Pages()
                && Filled(old(memory.bytes), memory.bytes, info)
    {
      info := null;
      if poolExhausted {
        return OutOfResources, info;
      }
      ghost var bytes0, free0 := memory.bytes, memory.free;
      var pages := PagesOf(numberOfBytes);
      var ok, page := memory.AllocatePages(pages, limit);
      if !ok {
        return OutOfResources, info;
      }
      var made := new MapInfo(operation, numberOfBytes, hostAddress, page);
      hide Interval, MapPages, Disjoint, EndsBelow, Inside;
      EndOfRun(page, pages, limit, numberOfBytes);
      MapPagesAdd(maps, made);
      DisjointAdd(maps, made);
      Fill(made);
      maps := maps + [made];
      info := made;
      status := Success;
    }

    /** ZeroMem and, for a read, CopyMem. */
    method Fill(info: MapInfo)
      requires memory.Valid() && info.Fits(|memory.bytes|)
      requires info.MappedAddress() + info.numberOfPages * EFI_PAGE_SIZE <= |memory.bytes|
      modifies memory`bytes
      ensures memory.Valid() && |memory.bytes| == |old(memory.bytes)|
      ensures Filled(old(memory.bytes), memory.bytes, info)
    {
      memory.Zero(info.MappedAddress(), info.numberOfPages * EFI_PAGE_SIZE);
      if info.operation == BusMasterRead {
        memory.Copy(info.MappedAddress(), info.hostAddress, info.numberOfBytes);
      }
    }

    /** DtIoUnmap.  A mapping this device does not hold is rejected; a live one gives
        its pages back, a bus-master write after the device's bytes have been copied
        to the host range. */
    method Unmap(mapping: Mapping) returns (status: Status)
      requires Valid()
      modifies this`maps, memory
      ensures Valid() && |memory.bytes| == |old(memory.bytes)|
      ensures memory.free + memory.owned == old(memory.free) + old(memory.owned)
      ensures mapping.NullMapping? ==> status == InvalidParameter
      ensures mapping.NoMapping? ==> status == Success
      ensures mapping.Bounce? ==> (status == Success <==> mapping.info in old(maps)) && (status != Success ==> status == InvalidParameter)
      ensures !(mapping.Bounce? && status == Success) ==>
                maps == old(maps) && memory.free == old(memory.free) && memory.bytes == old(memory.bytes)
      ensures mapping.Bounce? && status == Success ==>
                var info := mapping.info;
                && (exists k :: 0 <= k < |old(maps)| && old(maps)[k] == info && maps == Without(old(maps), k))
                && info !in maps
                && memory.free == old(memory.free) + info.Pages()
                && info.Fits(|old(memory.bytes)|)
                && memory.bytes == if info.operation == BusMasterWrite then WrittenBack(old(memory.bytes), info) else old(memory.bytes)
    {
      match mapping
      case NullMapping => return InvalidParameter;
      case NoMapping => return Success;
      case Bounce(info) =>
        var k := 0;
        while k < |maps| && maps[k] != info
          invariant k <= |maps| && info !in maps[..k]
        {
          k := k + 1;
        }
        if k == |maps| {
          assert maps[..k] == maps;
          return InvalidParameter;
        }
        Release(k);
        return Success;
    }

    /** The end of DtIoUnmap for the mapping at position k of the list. */
    method Release(k: nat)
      requires Valid() && k < |maps|
      modifies this`maps, memory
      ensures Valid() && |memory.bytes| == |old(memory.bytes)|
      ensures memory.free + memory.owned == old(memory.free) + old(memory.owned)
      ensures maps == Without(old(maps), k) && old(maps[k]) !in maps
      ensures memory.free == old(memory.free) + old(maps[k]).Pages()
      ensures old(maps[k]).Fits(|old(memory.bytes)|)
      ensures memory.bytes == if old(maps[k]).operation == BusMasterWrite then WrittenBack(old(memory.bytes), old(maps[k])) else old(memory.bytes)
    {
      hide MapPages, Disjoint, Interval, Inside, WellBuilt, Patched;
      var info := maps[k];
      MapPagesRemove(maps, k);
      OnlyOnce(maps, k, |memory.bytes|);
      maps := Without(maps, k);
      if info.operation == BusMasterWrite {
        memory.Copy(info.hostAddress, info.MappedAddress(), info.numberOfBytes);
      }
      var status := memory.FreePages(info.mappedPage, info.numberOfPages);
    }

    /** DtIoAllocateBuffer. */
    method AllocateBuffer(validType: bool, pages: nat, extra: Extra) returns (status: Status, page: nat)
      requires Valid()
      modifies this`buffers, memory
      ensures Valid() && |memory.bytes| == |old(memory.bytes)|
      ensures memory.free + memory.owned == old(memory.free) + old(memory.owned)
      ensures status == if pages == 0 then InvalidParameter
                        else if limits.nonIdentity then Unsupported
                        else if !validType || (extra.Extra? && extra.unknown) then InvalidParameter
                        else if !Coherent(extra) then Unsupported
                        else if HasRun(old(memory.free), pages, Limit(extra)) then Success
                        else OutOfResources
      ensures status == Success ==>
                && Interval(page, pages) <= old(memory.free) && buffers == old(buffers) + Interval(page, pages)
                && EndsBelow(page, pages, Limit(extra))
                && (page + pages) * EFI_PAGE_SIZE <= |memory.bytes|
                && memory.bytes == Patched(old(memory.bytes), page * EFI_PAGE_SIZE, seq(pages * EFI_PAGE_SIZE, i => 0))
      ensures status != Success ==>
                buffers == old(buffers) && memory.free == old(memory.free) && memory.bytes == old(memory.bytes)
      ensures status == Success <==>
                && pages != 0 && !limits.nonIdentity && isDmaCoherent && validType
                && (extra.Extra? ==> !extra.unknown && !extra.nonCoherent)
                && exists p :: Suits(old(memory.free), p, pages, extra)
      ensures status == Success ==>
                && BelowAll((page + pages) * EFI_PAGE_SIZE - 1)
                && (extra.Extra? && extra.withMaxAddress ==> (page + pages) * EFI_PAGE_SIZE - 1 <= extra.maxAddress)
    {
      hide Suits, BeforeEnds, HasRun, MapPages, Disjoint, Interval, Inside, FreeRun;
      page := 0;
      if pages == 0 {
        return InvalidParameter, page;
      }
      if limits.nonIdentity {
        return Unsupported, page;
      }
      if !validType {
        return InvalidParameter, page;
      }
      if extra.Extra? && extra.unknown {
        return InvalidParameter, page;
      }
      if !Coherent(extra) {
        return Unsupported, page;
      }
      SuitsIffRun(this, memory.free, pages, extra);
      var ok;
      ok, page := memory.AllocatePages(pages, Limit(extra));
      if !ok {
        return OutOfResources, page;
      }
      memory.Zero(page * EFI_PAGE_SIZE, pages * EFI_PAGE_SIZE);
      buffers := buffers + Interval(page, pages);
      BelowLimitIsBelowAll(this, (page + pages) * EFI_PAGE_SIZE - 1);
      return Success, page;
    }

    /** DtIoFreeBuffer.  Whatever pages the device owns are given back; nothing checks
        that they were allocated as a buffer, and the pages of a live mapping are lost to
        it if and only if they are among them. */
    method FreeBuffer(pages: nat, page: nat) returns (status: Status)
      requires Valid()
      modifies this`buffers, memory
      ensures memory.bytes == old(memory.bytes)
      ensures status == if pages == 0 then InvalidParameter
                        else if Interval(page, pages) <= old(memory.owned) then Success else NotFound
      ensures status == Success ==>
                && memory.free == old(memory.free) + Interval(page, pages)
                && memory.owned == old(memory.owned) - Interval(page, pages)
                && buffers == old(buffers) - Interval(page, pages)
      ensures status != Success ==>
                memory.free == old(memory.free) && memory.owned == old(memory.owned) && buffers == old(buffers)
      ensures Valid() <==> status != Success || Interval(page, pages) !! MapPages(maps)
    {
      if pages == 0 {
        return InvalidParameter;
      }
      hide MapPages, Disjoint, Interval, Inside, WellBuilt;
      status := memory.FreePages(page, pages);
      if status == Success {
        buffers := buffers - Interval(page, pages);
      }
    }
  }

  /** A bounce window after Map: the host's bytes for a read, zeros otherwise; no
      other byte outside the mapping's pages has changed. */
  ghost predicate Filled(bytes: seq<u8>, bytes': seq<u8>, info: MapInfo) {
    && |bytes'| == |bytes| && info.Fits(|bytes|)
    && var m, n := info.MappedAddress(), info.numberOfBytes;
       && (info.operation == BusMasterRead && Apart(info) ==>
             bytes'[m..m + n] == bytes[info.hostAddress..info.hostAddress + n])
       && (info.operation != BusMasterRead ==> bytes'[m..m + n] == seq(n, i => 0))
       && forall k :: 0 <= k < |bytes| && !(m <= k < m + info.numberOfPages * EFI_PAGE_SIZE) ==> bytes'[k] == bytes[k]
  }

  /** What the device finds in its window. */
  lemma FilledWindow(free: set<nat>, bytes: seq<u8>, bytes': seq<u8>, info: MapInfo)
    requires Filled(bytes, bytes', info) && info.Pages() <= free
    ensures var m, n, host := info.MappedAddress(), info.numberOfBytes, info.hostAddress;
            && m + n <= |bytes'| == |bytes| && host + n <= |bytes|
            && (info.operation == BusMasterRead && OffFree(free, host, n) ==> bytes'[m..m + n] == bytes[host..host + n])
            && (info.operation != BusMasterRead ==> forall k :: m <= k < m + n ==> bytes'[k] == 0)
  {
    var m, n := info.MappedAddress(), info.numberOfBytes;
    if info.operation == BusMasterRead {
      if OffFree(free, info.hostAddress, n) {
        FreshIsApart(free, info);
      }
    } else {
      forall k | m <= k < m + n ensures bytes'[k] == 0 {
        assert bytes'[k] == bytes'[m..m + n][k - m];
      }
    }
  }

  /** The host range is not on the pages of the mapping, which were free. */
  predicate Apart(info: MapInfo) {
    || info.hostAddress + info.numberOfBytes <= info.MappedAddress()
    || info.MappedAddress() + info.numberOfPages * EFI_PAGE_SIZE <= info.hostAddress
  }

  /** Memory after the device's bytes have been copied to the host range. */
  function WrittenBack(bytes: seq<u8>, info: MapInfo): seq<u8>
    requires info.Fits(|bytes|)
  {
    Patched(bytes, info.hostAddress, bytes[info.MappedAddress()..info.MappedAddress() + info.numberOfBytes])
  }

  lemma EndOfRun(page: nat, pages: nat, limit: u64, numberOfBytes: nat)
    requires EndsBelow(page, pages, limit) && numberOfBytes <= pages * EFI_PAGE_SIZE
    ensures page * EFI_PAGE_SIZE + numberOfBytes - 1 <= limit
  {}

  lemma OnlyOnce(maps: seq<MapInfo>, k: nat, size: nat)
    requires Disjoint(maps) && k < |maps| && forall i :: 0 <= i < |maps| ==> maps[i].Fits(size)
    ensures maps[k] !in Without(maps, k)
  {
    forall i | 0 <= i < |maps| && i != k ensures maps[i] != maps[k] {
      assert maps[k].mappedPage in maps[k].Pages();
    }
  }

  /** The page numbers of a byte range. */
  predicate OnPage(p: nat, address: nat, length: nat) { address < (p + 1) * EFI_PAGE_SIZE && p * EFI_PAGE_SIZE < address + length }

  /** No byte of the host range is on a free page. */
  predicate OffFree(free: set<nat>, hostAddress: nat, length: nat) { forall p :: p in free ==> !OnPage(p, hostAddress, length) }

  /** Pages that were free are not those of a host range in use. */
  lemma FreshIsApart(free: set<nat>, info: MapInfo)
    requires 0 < info.numberOfBytes <= info.numberOfPages * EFI_PAGE_SIZE
    requires info.Pages() <= free && OffFree(free, info.hostAddress, info.numberOfBytes)
    ensures Apart(info)
  {
    if !Apart(info) {
      var x := Max(info.MappedAddress(), info.hostAddress);
      var p := x / EFI_PAGE_SIZE;
      assert info.mappedPage <= p < info.mappedPage + info.numberOfPages;
      assert p in info.Pages();
      assert OnPage(p, info.hostAddress, info.numberOfBytes);
    }
  }

  /** Every ancestor's limit bounds a device's limit, and a non-identity bus above
      leaves a device without any DMA. */
  lemma {:induction false} AncestorLimits(d: DmaDevice, k: nat)
    requires d.WellBuilt() && k < |d.Ancestors()|
    ensures d.Ancestors()[k].WellBuilt()
    ensures var a := d.Ancestors()[k];
            && d.limits.maxCpuDmaAddress <= a.limits.maxCpuDmaAddress
            && (a.limits.nonIdentity ==> d.limits.nonIdentity && d.limits.maxCpuDmaAddress == 0)
            && (a.limits.nonIdentity || BeforeEnds(a.ranges, d.limits.maxCpuDmaAddress))
    decreases d.depth
  {
    if k > 0 {
      AncestorLimits(d.parent, k - 1);
    }
  }

  /** So what lies below the limit of a device lies below those of all its ancestors. */
  lemma BelowLimitIsBelowAll(d: DmaDevice, last: nat)
    requires d.WellBuilt() && last <= d.limits.maxCpuDmaAddress && !d.limits.nonIdentity
    ensures d.BelowAll(last) && BeforeEnds(d.ranges, last)
  {
    forall k | 0 <= k < |d.Ancestors()|
      ensures last <= d.Ancestors()[k].limits.maxCpuDmaAddress && BeforeEnds(d.Ancestors()[k].ranges, last)
    {
      AncestorLimits(d, k);
    }
    assert d.Ancestors()[0] == d;
  }

  /** A run below the lower of the two limits is one below both. */
  lemma SuitsIffRun(d: DmaDevice, free: set<nat>, pages: nat, extra: Extra)
    requires pages > 0
    ensures HasRun(free, pages, d.Limit(extra)) <==> exists p :: d.Suits(free, p, pages, extra)
  {
    forall p ensures FreeRun(free, p, pages, d.Limit(extra)) <==> d.Suits(free, p, pages, extra) {
      RunMeans(free, p, pages, d.Limit(extra));
    }
    hide FreeRun;
    if p :| d.Suits(free, p, pages, extra) {
      assert FreeRun(free, p, pages, d.Limit(extra));
    }
  }
}
