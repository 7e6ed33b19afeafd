/**
  Opening a root bridge's port I/O aperture in the GCD I/O space map (AddIoSpace
  and IntersectIoDescriptor in PciHostBridgeFdtDxe/RootBridge.c).
 */
module RootBridgeIoSpace {
  import opened Uefi

  datatype IoType = NonExistent | Reserved | Io

  /** EFI_GCD_IO_SPACE_DESCRIPTOR. */
  datatype IoDescriptor = IoDescriptor(base: nat, length: nat, ioType: IoType)

  predicate InAperture(a: nat, base: nat, length: nat) { base <= a < base + length }

  /** The map after the aperture has been opened up to address `end`. */
  function Opened(types: seq<IoType>, base: nat, length: nat, end: nat): (r: seq<IoType>)
    ensures |r| == |types|
    ensures forall a :: 0 <= a < |types| ==>
              r[a] == if InAperture(a, base, length) && a < end && types[a] == NonExistent then Io else types[a]
  {
    seq(|types|, a requires 0 <= a < |types| =>
      if InAperture(a, base, length) && a < end && types[a] == NonExistent then Io else types[a])
  }

  /** Nothing else lives inside the aperture below `end`. */
  predicate NoConflict(types: seq<IoType>, base: nat, length: nat, end: nat) {
    forall a :: 0 <= a < |types| && a < end && InAperture(a, base, length) ==> types[a] != Reserved
  }

  /** The descriptors cover the map from 0 up to their joint end, in order. */
  ghost predicate Covering(types: seq<IoType>, descriptors: seq<IoDescriptor>) {
    && (descriptors != [] ==> descriptors[0].base == 0)
    && (forall k :: 0 <= k < |descriptors| ==> Describes(types, descriptors[k]))
    && (forall k :: 0 < k < |descriptors| ==> descriptors[k].base == descriptors[k - 1].base + descriptors[k - 1].length)
  }

  ghost predicate Describes(types: seq<IoType>, d: IoDescriptor) {
    && d.base + d.length <= |types|
    && forall a :: d.base <= a < d.base + d.length ==> types[a] == d.ioType
  }

  function EndOf(descriptors: seq<IoDescriptor>): nat {
    if descriptors == [] then 0
    else descriptors[|descriptors| - 1].base + descriptors[|descriptors| - 1].length
  }

  /** The GCD I/O space by port address. */
  class IoSpaceMap {
    var types: seq<IoType>

    /** GetIoSpaceMap: a descriptor for every stretch, gaps included. */
    method GetMap() returns (descriptors: seq<IoDescriptor>)
      ensures Covering(types, descriptors) && EndOf(descriptors) == |types|
    {
      descriptors := [];
      var at := 0;
      while at < |types|
        invariant at <= |types| && Covering(types, descriptors) && EndOf(descriptors) == at
      {
        var n: nat :| 0 < n && at + n <= |types| && forall a :: at <= a < at + n ==> types[a] == types[at];
        descriptors := descriptors + [IoDescriptor(at, n, types[at])];
        at := at + n;
      }
    }

    /** AddIoSpace of the GCD services: only what does not exist yet can be added. */
    method Add(base: nat, length: nat) returns (status: Status)
      requires base + length <= |types|
      modifies this
      ensures status == Success <==> 0 < length && forall a :: base <= a < base + length ==> old(types)[a] == NonExistent
      ensures status == Success ==>
                && |types| == |old(types)|
                && forall a :: 0 <= a < |types| ==> types[a] == if base <= a < base + length then Io else old(types)[a]
      ensures status != Success ==> types == old(types)
    {
      if length == 0 || exists a :: base <= a < base + length && types[a] != NonExistent {
        return AccessDenied;
      }
      var was := types;
      types := seq(|was|, a requires 0 <= a < |was| => if base <= a < base + length then Io else was[a]);
      return Success;
    }
  }

  /** IntersectIoDescriptor. */
  method IntersectIoDescriptor(m: IoSpaceMap, base: nat, length: nat, d: IoDescriptor) returns (status: Status)
    requires base + length < TWO_64 && d.base + d.length <= |m.types|
    requires d.ioType == NonExistent ==> Describes(m.types, d)
    modifies m
    ensures |m.types| == |old(m.types)|
    ensures status == Success <==>
              d.ioType != Reserved || forall a :: d.base <= a < d.base + d.length ==> !InAperture(a, base, length)
    ensures forall a :: 0 <= a < |m.types| ==>
              m.types[a] == if d.base <= a < d.base + d.length && InAperture(a, base, length) && d.ioType == NonExistent then Io
                            else old(m.types)[a]
  {
    if d.ioType == Io {
      return Success;
    }
    var first := Max(base, d.base);
    var end := Min(base + length, d.base + d.length);
    if first >= end {
      return Success;
    }
    if d.ioType == NonExistent {
      status := m.Add(first, end - first);
      return;
    }
    assert InAperture(first, base, length);
    return InvalidParameter;
  }

  /** AddIoSpace of the root bridge: on success the whole aperture, as far as the map
      reaches, is port I/O space and nothing outside it has changed; it fails only
      where something else lives inside the aperture. */
  method AddIoSpace(m: IoSpaceMap, base: nat, length: nat) returns (status: Status)
    requires base + length < TWO_64
    modifies m
    ensures status == Success <==> NoConflict(old(m.types), base, length, |old(m.types)|)
    ensures status == Success ==> m.types == Opened(old(m.types), base, length, |old(m.types)|)
    ensures status != Success ==> exists end :: m.types == Opened(old(m.types), base, length, end)
    ensures status == Success <==>
              forall a :: base <= a < base + length && a < |old(m.types)| ==> old(m.types)[a] == Io || old(m.types)[a] == NonExistent
    ensures |m.types| == |old(m.types)|
    ensures status == Success ==>
              forall a :: 0 <= a < |m.types| ==> m.types[a] == if base <= a < base + length then Io else old(m.types)[a]
  {
    ghost var types0 := m.types;
    var descriptors := m.GetMap();
    status := Success;
    var index := 0;
    assert m.types == Opened(types0, base, length, 0);
    while index < |descriptors|
      invariant index <= |descriptors| && status == Success
      invariant m.types == Opened(types0, base, length, EndOf(descriptors[..index]))
      invariant NoConflict(types0, base, length, EndOf(descriptors[..index]))
    {
      status := OpenNext(m, types0, base, length, descriptors, index);
      if status.IsError() {
        return;
      }
      index := index + 1;
    }
    assert descriptors[..index] == descriptors;
  }

  /** One round of the loop. */
  method OpenNext(m: IoSpaceMap, ghost types0: seq<IoType>, base: nat, length: nat, descriptors: seq<IoDescriptor>, index: nat)
    returns (status: Status)
    requires base + length < TWO_64 && index < |descriptors| && Covering(types0, descriptors)
    requires m.types == Opened(types0, base, length, EndOf(descriptors[..index]))
    requires NoConflict(types0, base, length, EndOf(descriptors[..index]))
    modifies m
    ensures status == Success ==>
              && m.types == Opened(types0, base, length, EndOf(descriptors[..index + 1]))
              && NoConflict(types0, base, length, EndOf(descriptors[..index + 1]))
    ensures status != Success ==>
              && m.types == old(m.types)
              && !NoConflict(types0, base, length, |types0|)
  {
    var d := descriptors[index];
    assert Describes(types0, d);
    assert EndOf(descriptors[..index]) == d.base && EndOf(descriptors[..index + 1]) == d.base + d.length;
    status := IntersectIoDescriptor(m, base, length, d);
  }
}
