/**
  The phases of the PCI host bridge resource allocation protocol.
 */
module HostBridgePhases {
  import opened Uefi
  import opened GcdSpace
  import opened PciRange
  import opened HostBridgeNodes
  import opened HostBridge

  /** The granted host interval lies inside a window the request may use. */
  predicate InWindow(r: Range, base: nat, length: nat) {
    !Disabled(r) && HB(r) <= base && base + length <= HB(r) + RS(r)
  }

  predicate Granted(ap: Apertures, kind: nat, base: nat, length: nat)
    requires kind < TypeBus
  {
    || InWindow(ApertureOf(ap, kind), base, length)
    || (kind >= TypeMem64 && InWindow(FallbackOf(ap, kind), base, length))
  }

  function CapOf(kind: nat): nat { if kind == TypeIo then IO_CAP else if kind < TypeMem64 then LOW_CAP else HIGH_CAP }

  /** No window has a place for the request: not its own one and, for a 64-bit
      request, not the one below 4GB either. */
  ghost predicate NoRoom(ap: Apertures, kind: nat, n: ResNode, free: set<nat>)
    requires kind < TypeBus
  {
    && Full(ApertureOf(ap, kind), n.length, n.alignment, CapOf(kind), kind == TypeIo, free)
    && (kind >= TypeMem64 ==> Full(FallbackOf(ap, kind), n.length, n.alignment, LOW_CAP, false, free))
  }

  /** First fit: the lowest place in the request's own window, or, when that is
      full, the lowest place in the one below 4GB. */
  ghost predicate FirstFit(ap: Apertures, kind: nat, n: ResNode, base: nat, free: set<nat>)
    requires kind < TypeBus
  {
    || LowestFit(ApertureOf(ap, kind), n.length, n.alignment, CapOf(kind), kind == TypeIo, free, base)
    || (kind >= TypeMem64
        && Full(ApertureOf(ap, kind), n.length, n.alignment, CapOf(kind), false, free)
        && LowestFit(FallbackOf(ap, kind), n.length, n.alignment, LOW_CAP, false, free, base))
  }

  /** What serving request n has come to, n' being the node now: a first-fit grant,
      or a refusal because the translation is misaligned or there is no room. */
  ghost predicate Settled(ap: Apertures, kind: nat, n: ResNode, n': ResNode, free: set<nat>)
    requires kind < TypeBus
  {
    if n'.status == ResAllocated then
      RT(ApertureOf(ap, kind)) % (n.alignment + 1) == 0 && FirstFit(ap, kind, n, GcdAddress(ap, kind, n'), free)
    else RT(ApertureOf(ap, kind)) % (n.alignment + 1) != 0 || NoRoom(ap, kind, n, free)
  }

  /** The free addresses of the space a kind of request is served from. */
  function FreeOf(kind: nat, ioFree: set<nat>, memFree: set<nat>): set<nat> { if kind == TypeIo then ioFree else memFree }

  /** What is free for a kind of request when the nodes in `order` have been served: what
      was free at the start, without what those among them hold that got a place. */
  function FreeInTurn(ap: Apertures, s: BridgeState, nodes: seq<ResNode>, order: seq<nat>, kind: nat): set<nat>
    requires |nodes| == TypeMax && forall k :: 0 <= k < |order| ==> order[k] < TypeBus
  {
    Left(ap, nodes, order, kind == TypeIo, FreeOf(kind, s.ioFree, s.memFree))
  }

  predicate Kinds(order: seq<nat>) { forall k :: 0 <= k < |order| ==> order[k] < TypeBus }

  ghost predicate SettledInTurn(ap: Apertures, s: BridgeState, s': BridgeState, order: seq<nat>, k: nat)
    requires |s.nodes| == TypeMax && |s'.nodes| == TypeMax && Kinds(order) && k < |order|
  {
    Settled(ap, order[k], s.nodes[order[k]], s'.nodes[order[k]], FreeInTurn(ap, s, s'.nodes, order[..k], order[k]))
  }

  /** The greedy outcome: every request is settled against what was free at its turn. */
  ghost predicate AllSettled(ap: Apertures, s: BridgeState, s': BridgeState, order: seq<nat>)
  {
    && |s.nodes| == TypeMax && |s'.nodes| == TypeMax && Kinds(order)
    && (forall k :: 0 <= k < |order| ==> SettledInTurn(ap, s, s', order, k))
    && s'.ioFree == Left(ap, s'.nodes, order, true, s.ioFree)
    && s'.memFree == Left(ap, s'.nodes, order, false, s.memFree)
  }

  lemma ExtendSettled(ap: Apertures, s: BridgeState, was: BridgeState, now: BridgeState, order: seq<nat>, index: nat)
    requires AllSettled(ap, s, was, order) && |now.nodes| == TypeMax
    requires index < TypeBus && index !in order && forall i :: 0 <= i < TypeMax && i != index ==> now.nodes[i] == was.nodes[i]
    requires Settled(ap, index, s.nodes[index], now.nodes[index], FreeOf(index, was.ioFree, was.memFree))
    requires now.ioFree == if index == TypeIo then was.ioFree - Held(ap, now.nodes, index) else was.ioFree
    requires now.memFree == if index == TypeIo then was.memFree else was.memFree - Held(ap, now.nodes, index)
    ensures AllSettled(ap, s, now, order + [index])
  {
    hide Settled, Held;
    var longer := order + [index];
    assert longer[..|order|] == order;
    HeldElsewhere(ap, was.nodes, now.nodes, index);
    SameLeft(ap, was.nodes, now.nodes, order, true, s.ioFree);
    SameLeft(ap, was.nodes, now.nodes, order, false, s.memFree);
    forall k | 0 <= k < |longer| ensures SettledInTurn(ap, s, now, longer, k) {
      assert longer[..k] == order[..k];
      if k < |order| {
        assert SettledInTurn(ap, s, was, order, k);
        SameLeft(ap, was.nodes, now.nodes, order[..k], order[k] == TypeIo, FreeOf(order[k], s.ioFree, s.memFree));
      }
    }
  }

  /** A refusal for lack of room stays right while the free addresses shrink. */
  lemma NoRoomStays(ap: Apertures, kind: nat, n: ResNode, free: set<nat>, fewer: set<nat>)
    requires kind < TypeBus && fewer <= free && NoRoom(ap, kind, n, free)
    ensures NoRoom(ap, kind, n, fewer)
  {
    hide Full;
    FullStays(ApertureOf(ap, kind), n.length, n.alignment, CapOf(kind), kind == TypeIo, free, fewer);
    if kind >= TypeMem64 {
      FullStays(FallbackOf(ap, kind), n.length, n.alignment, LOW_CAP, false, free, fewer);
    }
  }

  /** What was free at a request's turn decides what becomes of it. */
  lemma SettledIsUnique(ap: Apertures, kind: nat, n: ResNode, a: ResNode, b: ResNode, free: set<nat>)
    requires kind < TypeBus && Settled(ap, kind, n, a, free) && Settled(ap, kind, n, b, free)
    ensures a.status == ResAllocated <==> b.status == ResAllocated
    ensures a.status == ResAllocated ==> a.base == b.base
  {
    hide Full, LowestFit, ToDeviceAddress, RT;
    var own, low, isIo := ApertureOf(ap, kind), FallbackOf(ap, kind), kind == TypeIo;
    forall x, y | LowestFit(own, n.length, n.alignment, CapOf(kind), isIo, free, x)
      ensures LowestFit(own, n.length, n.alignment, CapOf(kind), isIo, free, y) ==> x == y
      ensures !Full(own, n.length, n.alignment, CapOf(kind), isIo, free)
    {
      LowestFitIsUnique(own, n.length, n.alignment, CapOf(kind), isIo, free, x, y);
    }
    forall x, y | LowestFit(low, n.length, n.alignment, LOW_CAP, false, free, x)
      ensures LowestFit(low, n.length, n.alignment, LOW_CAP, false, free, y) ==> x == y
      ensures !Full(low, n.length, n.alignment, LOW_CAP, false, free)
    {
      LowestFitIsUnique(low, n.length, n.alignment, LOW_CAP, false, free, x, y);
    }
    HostDeviceRoundTrip(a.base, RT(ap.io));
    HostDeviceRoundTrip(b.base, RT(ap.io));
  }

  /** The searches for a place in a request's windows stop where they should. */
  predicate SearchesStop(ap: Apertures, kind: nat, length: u64, alignment: u64)
    requires kind < TypeBus
  {
    && Placeable(ApertureOf(ap, kind), length, alignment, CapOf(kind), kind == TypeIo)
    && (kind >= TypeMem64 ==> Placeable(FallbackOf(ap, kind), length, alignment, LOW_CAP, false))
  }

  /** A node the allocation phase can serve. */
  predicate Requestable(ap: Apertures, kind: nat, n: ResNode)
    requires kind < TypeBus
  {
    IsMask(n.alignment) && n.alignment < MAX_UINT64 && SearchesStop(ap, kind, n.length, n.alignment)
  }

  /** One ACPI address space descriptor of a resource request. */
  datatype ResType = MemRes | IoRes | OtherRes
  datatype Descriptor = Descriptor(resType: ResType, granularity: nat, prefetchable: bool, addrLen: u64, addrRangeMax: u64)

  class RootBridge {
    const ap: Apertures
    const combineMemPmem: bool
    const nodes: array<ResNode>
    const io: Space
    const mem: Space
    var resourceSubmitted: bool
    var canRestart: bool

    /** HostBridgeInit on a zero-filled instance. */
    constructor (ap: Apertures, combineMemPmem: bool, io: Space, mem: Space)
      requires io != mem && io.owned == {} && mem.owned == {}
      ensures this.ap == ap && this.io == io && this.mem == mem && fresh(nodes)
      ensures Wired() && OwnsExactly(ap, State()) && NothingAllocated(State())
      ensures canRestart && !resourceSubmitted
    {
      this.ap, this.combineMemPmem, this.io, this.mem := ap, combineMemPmem, io, mem;
      nodes := new ResNode[TypeMax](_ => ResNode(0, 0, 0, ResNone, false));
      resourceSubmitted, canRestart := false, true;
    }

    ghost predicate Wired() { nodes.Length == TypeMax && io != mem }

    ghost function State(): BridgeState
      reads this, nodes, io, mem
    {
      BridgeState(nodes[..], io.free, io.owned, mem.free, mem.owned, resourceSubmitted, canRestart)
    }

    /** The allocation calls for one node: the device-view start of an I/O grant
        is turned into a host address, a 64-bit request without space above 4GB
        is retried below. */
    method AllocateNode(kind: nat) returns (base: u64)
      requires Wired() && kind < TypeBus && Requestable(ap, kind, nodes[kind])
      modifies io, mem
      ensures base == MAX_UINT64 ==>
                io.free == old(io.free) && io.owned == old(io.owned)
                && mem.free == old(mem.free) && mem.owned == old(mem.owned)
                && NoRoom(ap, kind, nodes[kind], FreeOf(kind, old(io.free), old(mem.free)))
      ensures base != MAX_UINT64 ==>
                FirstFit(ap, kind, nodes[kind], GcdAddress(ap, kind, nodes[kind].(base := base)),
                         FreeOf(kind, old(io.free), old(mem.free)))
      ensures base != MAX_UINT64 ==>
                var n := nodes[kind].(base := base);
                var interval := Interval(GcdAddress(ap, kind, n), n.length);
                && 0 < n.length && Granted(ap, kind, base, n.length)
                && (kind == TypeIo ==>
                      && interval <= old(io.free)
                      && io.free == old(io.free) - interval && io.owned == old(io.owned) + interval
                      && mem.free == old(mem.free) && mem.owned == old(mem.owned))
                && (kind != TypeIo ==>
                      && interval <= old(mem.free)
                      && mem.free == old(mem.free) - interval && mem.owned == old(mem.owned) + interval
                      && io.free == old(io.free) && io.owned == old(io.owned))
    {
      hide Interval, IsMask, NoneBelow, Candidate, WindowStart, WindowLimit, WellPlaced, Stops, Full;
      var n := nodes[kind];
      if kind == TypeIo {
        base := AllocateInWindow(io, ap.io, n.length, n.alignment, IO_CAP, true);
        if base != MAX_UINT64 {
          base := GrantedIo(base, n.length);
        }
      } else if kind == TypeMem32 || kind == TypePMem32 {
        base := AllocateInWindow(mem, ApertureOf(ap, kind), n.length, n.alignment, LOW_CAP, false);
      } else {
        base := AllocateInWindow(mem, ApertureOf(ap, kind), n.length, n.alignment, HIGH_CAP, false);
        if base == MAX_UINT64 {
          base := AllocateInWindow(mem, FallbackOf(ap, kind), n.length, n.alignment, LOW_CAP, false);
        }
      }
    }

    method GrantedIo(device: u64, length: u64) returns (host: u64)
      requires WellPlaced(ap.io) && !Disabled(ap.io) && 0 < length
      requires RB(ap.io) <= device && device + length <= RB(ap.io) + RS(ap.io)
      ensures host != MAX_UINT64 && ToDeviceAddress(host, RT(ap.io)) == device
      ensures InWindow(ap.io, host, length)
    {
      host := ToHostAddress(device, RT(ap.io));
      WindowTranslation(ap.io, device - RB(ap.io));
    }

    /** The body of the allocation loop for the selected node. */
    method PlaceNode(kind: nat) returns (placed: bool)
      requires Wired() && OwnsExactly(ap, State())
      requires kind < TypeBus && nodes[kind].status != ResAllocated && Requestable(ap, kind, nodes[kind])
      modifies nodes, io, mem
      ensures OwnsExactly(ap, State()) && Conserved(old(State()), State())
      ensures placed ==>
                && nodes[kind] == old(nodes[kind]).(base := nodes[kind].base, status := ResAllocated)
                && 0 < nodes[kind].length && Granted(ap, kind, nodes[kind].base, nodes[kind].length)
                && State().nodes == old(State()).nodes[kind := nodes[kind]]
      ensures !placed ==> State() == old(State())
      ensures Settled(ap, kind, old(nodes[kind]), nodes[kind], FreeOf(kind, old(io.free), old(mem.free)))
      ensures io.free == if kind == TypeIo then old(io.free) - Held(ap, nodes[..], kind) else old(io.free)
      ensures mem.free == if kind == TypeIo then old(mem.free) else old(mem.free) - Held(ap, nodes[..], kind)
    {
      ghost var before := State();
      var n := nodes[kind];
      var translation := RT(ApertureOf(ap, kind));
      if translation % (n.alignment + 1) != 0 {
        return false;
      }
      hide Interval, Requestable, Granted, Held, HeldMemory, Separate, NoRoom, FirstFit;
      var base := AllocateNode(kind);
      if base == MAX_UINT64 {
        return false;
      }
      var n' := n.(base := base, status := ResAllocated);
      nodes[kind] := n';
      GrantKeepsOwnership(ap, before, kind, n', Interval(GcdAddress(ap, kind, n'), n'.length), State());
      return true;
    }

    /** One round of the allocation phase for a wanted outer index: select the most
        demanding unhandled node and try to place it. */
    method ServeOne(handled: array<bool>, ghost start: BridgeState, ghost order: seq<nat>, index1: nat)
      returns (index: nat, placed: bool)
      requires Wired() && OwnsExactly(ap, State()) && handled.Length == TypeMax
      requires Ready(ap, start.nodes) && index1 < TypeBus && Wanted(start.nodes, index1)
      requires Selected(start.nodes, order, index1) && Progress(start.nodes, nodes[..], order) && AllGranted(ap, nodes[..])
      requires AllSettled(ap, start, State(), order)
      requires HandledAre(handled[..], start.nodes, order, index1)
      modifies nodes, io, mem, handled
      ensures OwnsExactly(ap, State()) && Conserved(old(State()), State())
      ensures IsPick(start.nodes, order, index1, index)
      ensures Progress(start.nodes, nodes[..], order + [index]) && AllGranted(ap, nodes[..])
      ensures AllSettled(ap, start, State(), order + [index])
      ensures AllPlaced(nodes[..], order + [index]) <==> placed && AllPlaced(old(nodes[..]), order)
      ensures HandledAre(handled[..], start.nodes, order + [index], index1)
    {
      hide OwnsExactly, Conserved, Requestable, Granted, Selected, AllSettled, Settled, FreeOf, Held;
      ghost var before := start.nodes;
      SomeoneIsLeft(before, order, index1);
      index := SelectNode(nodes[..], handled);
      assert forall i :: 0 <= i < TypeBus ==> nodes[i].alignment == before[i].alignment;
      assert nodes[index] == before[index];
      handled[index] := true;
      placed := PlaceNode(index);
      ExtendProgress(ap, before, old(nodes[..]), nodes[..], order, index, placed);
      ExtendSettled(ap, start, old(State()), State(), order, index);
    }

    /** One round of the outer loop. */
    method ServeIndex(handled: array<bool>, ghost start: BridgeState, ghost order: seq<nat>, index1: nat, status: Status)
      returns (status': Status, ghost order': seq<nat>)
      requires Wired() && OwnsExactly(ap, State()) && handled.Length == TypeMax
      requires Ready(ap, start.nodes) && index1 < TypeBus
      requires LoopState(ap, start, State(), handled[..], order, index1, status)
      modifies nodes, io, mem, handled
      ensures OwnsExactly(ap, State()) && Conserved(old(State()), State())
      ensures LoopState(ap, start, State(), handled[..], order', index1 + 1, status')
    {
      hide OwnsExactly, Conserved, Ready, AllGranted, AllSettled, Progress, HandledAre, AllPlaced, IsPick;
      status', order' := status, order;
      ghost var s, before := State(), start.nodes;
      StillWanted(before, nodes[..], order, index1);
      if nodes[index1].status == ResNone {
        PassOn(handled[..], before, order, index1);
        handled[index1] := true;
        assert State() == s;
        ConservedReflexive(s);
      } else {
        var index, placed := ServeOne(handled, start, order, index1);
        order' := order + [index];
        PassOn(handled[..], before, order', index1);
        assert order'[..|order'| - 1] == order;
        if !placed {
          status' := OutOfResources;
        }
      }
    }

    /** The allocation loop; `order` lists the nodes picked. */
    method ServeAll() returns (status: Status, ghost order: seq<nat>)
      requires Wired() && OwnsExactly(ap, State()) && Ready(ap, nodes[..])
      modifies nodes, io, mem
      ensures OwnsExactly(ap, State()) && Conserved(old(State()), State())
      ensures Selected(old(nodes[..]), order, TypeBus) && Progress(old(nodes[..]), nodes[..], order)
      ensures AllGranted(ap, nodes[..])
      ensures AllSettled(ap, old(State()), State(), order)
      ensures status == if AllPlaced(nodes[..], order) then Success else OutOfResources
    {
      status, order := Success, [];
      ghost var before, start := nodes[..], State();
      var handled := NothingHandled();
      hide OwnsExactly, Conserved, Ready, AllGranted, AllSettled, Selected, Progress, AllPlaced, LoopState, AllFalse;
      ConservedReflexive(start);
      StartOfLoop(ap, start, handled[..]);
      var index1 := TypeIo;
      while index1 < TypeBus
        invariant index1 <= TypeBus && fresh(handled)
        invariant OwnsExactly(ap, State()) && Conserved(start, State())
        invariant LoopState(ap, start, State(), handled[..], order, index1, status)
      {
        ghost var s1 := State();
        status, order := ServeIndex(handled, start, order, index1, status);
        ConservedTransitive(start, s1, State());
        index1 := index1 + 1;
      }
      EndOfLoop(ap, start, State(), handled[..], order, status);
    }

    /** EfiPciHostBridgeAllocateResources.  A request is allocated inside one of
        its windows or dropped, success means that none was dropped, nodes that
        were not requested are untouched, and the bridge owns exactly what it
        granted.  Every request is tried exactly once, in serving order, if and
        only if no unrequested node overtakes one. */
    method AllocateResources() returns (status: Status, ghost order: seq<nat>)
      requires Wired() && OwnsExactly(ap, State()) && Ready(ap, nodes[..])
      modifies nodes, io, mem
      ensures OwnsExactly(ap, State()) && Conserved(old(State()), State())
      ensures !old(resourceSubmitted) ==> status == NotReady && State() == old(State())
      ensures old(resourceSubmitted) ==>
                && Selected(old(nodes[..]), order, TypeBus)
                && (IsServingOrder(old(nodes[..]), order) <==> NobodyOvertakes(old(nodes[..])))
                && AllocationResult(ap, old(State()), State(), order, status)
    {
      order := [];
      if !resourceSubmitted {
        return NotReady, [];
      }
      ghost var before := nodes[..];
      hide OwnsExactly, Conserved, Granted, Selected, IsServingOrder, NobodyOvertakes, Progress, Ready, AllGranted, AllSettled,
        AllocationResult, AllPlaced, OnlyWanted;
      status, order := ServeAll();
      ServesAllIffNobodyOvertakes(before, order);
      ghost var s2 := State();
      DropUnplaced();
      ConservedTransitive(old(State()), s2, State());
      PlacedOrDropped(ap, old(State()), s2, State(), order, status);
    }

    /** Sets the length to zero where the allocation failed. */
    method DropUnplaced()
      requires Wired() && OwnsExactly(ap, State())
      modifies nodes
      ensures OwnsExactly(ap, State()) && Conserved(old(State()), State())
      ensures forall i :: 0 <= i < TypeBus ==>
                nodes[i] == if old(nodes[i]).status != ResAllocated then old(nodes[i]).(length := 0) else old(nodes[i])
      ensures nodes[TypeBus] == old(nodes[TypeBus])
      ensures io.free == old(io.free) && mem.free == old(mem.free)
    {
      var index := TypeIo;
      while index < TypeBus
        invariant index <= TypeBus
        invariant forall i :: 0 <= i < index ==>
                    nodes[i] == if old(nodes[i]).status != ResAllocated then old(nodes[i]).(length := 0) else old(nodes[i])
        invariant forall i :: index <= i < TypeMax ==> nodes[i] == old(nodes[i])
      {
        if nodes[index].status != ResAllocated {
          nodes[index] := nodes[index].(length := 0);
        }
        index := index + 1;
      }
      SameHeldNodes(ap, old(State()), State());
    }

    /** EfiPciHostBridgeFreeResources.  The status returned is that of the last
        release, and a variable nothing was ever assigned to if there was none. */
    method FreeResources() returns (status: Variable)
      requires Wired() && OwnsExactly(ap, State())
      modifies this`resourceSubmitted, this`canRestart, nodes, io, mem
      ensures OwnsExactly(ap, State()) && NothingAllocated(State())
      ensures status == if NothingAllocated(old(State())) then Unassigned else Assigned(Success)
      ensures io.owned == {} && io.free == old(io.free) + old(io.owned)
      ensures mem.owned == {} && mem.free == old(mem.free) + old(mem.owned)
      ensures forall i :: 0 <= i < TypeBus ==>
                nodes[i] == if old(nodes[i]).status == ResAllocated then Cleared(old(nodes[i])) else old(nodes[i])
      ensures nodes[TypeBus] == old(nodes[TypeBus])
      ensures !resourceSubmitted && canRestart
    {
      hide OwnsExactly, Conserved, Cleared;
      ghost var start := State();
      ConservedReflexive(start);
      status := Unassigned;
      var index := TypeIo;
      while index < TypeBus
        invariant index <= TypeBus
        invariant OwnsExactly(ap, State()) && Conserved(start, State())
        invariant forall i :: 0 <= i < index ==>
                    nodes[i] == if old(nodes[i]).status == ResAllocated then Cleared(old(nodes[i])) else old(nodes[i])
        invariant forall i :: index <= i < TypeMax ==> nodes[i] == old(nodes[i])
        invariant status == if exists i :: 0 <= i < index && old(nodes[i]).status == ResAllocated then Assigned(Success)
                            else Unassigned
      {
        if nodes[index].status == ResAllocated {
          ghost var s1 := State();
          var freed := FreeNode(index);
          status := Assigned(freed);
          ConservedTransitive(start, s1, State());
        }
        index := index + 1;
      }
      NothingLeft(ap, start, State());
      resourceSubmitted := false;
      canRestart := true;
    }

    method FreeNode(kind: nat) returns (status: Status)
      requires Wired() && OwnsExactly(ap, State())
      requires kind < TypeBus && nodes[kind].status == ResAllocated
      modifies nodes, io, mem
      ensures status == Success
      ensures OwnsExactly(ap, State()) && Conserved(old(State()), State())
      ensures nodes[..] == old(nodes[..])[kind := Cleared(old(nodes[kind]))]
    {
      ghost var before := State();
      var n := nodes[kind];
      HeldIsOwned(ap, before, kind);
      hide Interval, OwnsExactly, Conserved;
      if kind == TypeIo {
        status := io.Free(ToDeviceAddress(n.base, RT(ap.io)), n.length);
      } else {
        status := mem.Free(n.base, n.length);
      }
      nodes[kind] := Cleared(n);
      ReleaseKeepsOwnership(ap, before, kind, State());
    }

    /** EfiPciHostBridgeBeginEnumeration forgets all nodes without returning
        anything to the GCD, so ownership stays exact only if nothing was allocated. */
    method BeginEnumeration() returns (status: Status)
      requires Wired() && OwnsExactly(ap, State())
      modifies this`resourceSubmitted, nodes
      ensures status == (if old(canRestart) then Success else NotReady)
      ensures status != Success ==> State() == old(State())
      ensures status == Success ==>
                && (forall i :: 0 <= i < TypeMax ==> nodes[i] == Cleared(old(nodes[i])))
                && !resourceSubmitted && canRestart
                && NothingAllocated(State())
                && io.free == old(io.free) && io.owned == old(io.owned)
                && mem.free == old(mem.free) && mem.owned == old(mem.owned)
                && (OwnsExactly(ap, State()) <==> NothingAllocated(old(State())))
    {
      if !canRestart {
        return NotReady;
      }
      var index := TypeIo;
      while index < TypeMax
        invariant index <= TypeMax
        invariant forall i :: 0 <= i < index ==> nodes[i] == Cleared(old(nodes[i]))
        invariant forall i :: index <= i < TypeMax ==> nodes[i] == old(nodes[i])
        invariant index > 0 ==> !resourceSubmitted
      {
        nodes[index] := Cleared(nodes[index]);
        resourceSubmitted := false;
        index := index + 1;
      }
      ForgettingLeaks(ap, old(State()), State());
      return Success;
    }

    /** EfiPciHostBridgeBeginBusAllocation. */
    method BeginBusAllocation()
      modifies this`canRestart
      ensures !canRestart
    {
      canRestart := false;
    }

    /** HostBridgeSubmitResources: one bad descriptor and all are ignored. */
    method SubmitResources(descriptors: seq<Descriptor>) returns (status: Status)
      requires Wired()
      modifies this`resourceSubmitted, nodes
      ensures status == (if AllAcceptable(descriptors, combineMemPmem) then Success else InvalidParameter)
      ensures status != Success ==> State() == old(State())
      ensures status == Success ==> resourceSubmitted && nodes[..] == Submitted(old(nodes[..]), descriptors)
    {
      var i := 0;
      while i < |descriptors|
        invariant i <= |descriptors|
        invariant forall k :: 0 <= k < i ==> Acceptable(descriptors[k], combineMemPmem)
      {
        if !Acceptable(descriptors[i], combineMemPmem) {
          return InvalidParameter;
        }
        i := i + 1;
      }
      i := 0;
      while i < |descriptors|
        invariant i <= |descriptors|
        invariant nodes[..] == Submitted(old(nodes[..]), descriptors[..i])
      {
        var kind := KindOf(descriptors[i]);
        assert descriptors[..i + 1][..i] == descriptors[..i];
        nodes[kind] := nodes[kind].(length := descriptors[i].addrLen, alignment := descriptors[i].addrRangeMax,
                                    status := ResSubmitted);
        i := i + 1;
      }
      assert descriptors[..i] == descriptors;
      resourceSubmitted := true;
      return Success;
    }
  }

  predicate AllFalse(handled: seq<bool>) { |handled| == TypeMax && forall i :: 0 <= i < TypeMax ==> !handled[i] }

  /** The loop that resets the handled flags. */
  method NothingHandled() returns (handled: array<bool>)
    ensures fresh(handled) && AllFalse(handled[..])
  {
    handled := new bool[TypeMax](_ => false);
  }

  /** What the allocation phase relies on: nothing is allocated yet, unrequested
      nodes are empty, and every node can be served. */
  predicate Ready(ap: Apertures, nodes: seq<ResNode>) {
    && Tidy(nodes)
    && forall i :: 0 <= i < TypeBus ==> nodes[i].status != ResAllocated && Requestable(ap, i, nodes[i])
  }

  ghost predicate HandledAre(handled: seq<bool>, before: seq<ResNode>, order: seq<nat>, index1: nat) {
    && |handled| == TypeMax && |before| == TypeMax
    && forall i :: 0 <= i < TypeBus ==> (handled[i] <==> Handled(before, order, index1, i))
  }

  ghost predicate AllGranted(ap: Apertures, nodes: seq<ResNode>) {
    && |nodes| == TypeMax
    && forall i :: 0 <= i < TypeBus && nodes[i].status == ResAllocated ==>
         0 < nodes[i].length && Granted(ap, i, nodes[i].base, nodes[i].length)
  }

  ghost predicate AllPlaced(nodes: seq<ResNode>, order: seq<nat>) {
    |nodes| == TypeMax && forall i :: 0 <= i < TypeBus && i in order ==> nodes[i].status == ResAllocated
  }

  /** The invariant of the allocation loop. */
  ghost predicate LoopState(ap: Apertures, s: BridgeState, s': BridgeState, handled: seq<bool>, order: seq<nat>, index1: nat,
                            status: Status) {
    && |s.nodes| == TypeMax && index1 <= TypeBus
    && Selected(s.nodes, order, index1) && Progress(s.nodes, s'.nodes, order)
    && HandledAre(handled, s.nodes, order, index1)
    && AllGranted(ap, s'.nodes) && AllSettled(ap, s, s', order)
    && status == if AllPlaced(s'.nodes, order) then Success else OutOfResources
  }

  /** The outcome of the allocation phase: `order` lists the nodes tried. */
  ghost predicate AllocationResult(ap: Apertures, s: BridgeState, s': BridgeState, order: seq<nat>, status: Status) {
    && |s.nodes| == TypeMax && |s'.nodes| == TypeMax && s'.nodes[TypeBus] == s.nodes[TypeBus]
    && (status == Success || status == OutOfResources)
    && (status == Success <==> forall i :: 0 <= i < TypeBus && Wanted(s.nodes, i) ==> s'.nodes[i].status == ResAllocated)
    && (forall i :: 0 <= i < TypeBus ==> AllocatedOrDropped(ap, i, s.nodes[i], s'.nodes[i]))
    && (forall i :: 0 <= i < TypeBus && i !in order ==> s'.nodes[i].status != ResAllocated)
    && AllSettled(ap, s, s', order)
  }

  lemma PlacedOrDropped(ap: Apertures, s: BridgeState, t: BridgeState, s': BridgeState, order: seq<nat>, status: Status)
    requires Ready(ap, s.nodes) && Progress(s.nodes, t.nodes, order) && Selected(s.nodes, order, TypeBus)
    requires AllSettled(ap, s, t, order)
    requires AllGranted(ap, t.nodes) && status == if AllPlaced(t.nodes, order) then Success else OutOfResources
    requires |s'.nodes| == TypeMax && s'.nodes[TypeBus] == t.nodes[TypeBus] && s'.ioFree == t.ioFree && s'.memFree == t.memFree
    requires forall i :: 0 <= i < TypeBus ==>
               s'.nodes[i] == if t.nodes[i].status != ResAllocated then t.nodes[i].(length := 0) else t.nodes[i]
    ensures AllocationResult(ap, s, s', order, status)
  {
    hide Granted, Requestable, Selected, Settled, AllSettled, Held;
    var before, served, after := s.nodes, t.nodes, s'.nodes;
    DroppingKeepsSettled(ap, s, t, s', order);
    forall i | 0 <= i < TypeBus ensures AllocatedOrDropped(ap, i, before[i], after[i]) {
      assert i !in order ==> served[i] == before[i];
    }
    SelectedIsAhead(before, order, TypeBus);
    if AllPlaced(served, order) {
      assert OnlyWanted(before, order);
      AllServed(before, order);
    }
    if forall i :: 0 <= i < TypeBus && Wanted(before, i) ==> after[i].status == ResAllocated {
      AllWantedPicked(before, order);
    }
  }

  /** The lengths of nodes without a place play no role in what is settled. */
  lemma DroppingKeepsSettled(ap: Apertures, s: BridgeState, t: BridgeState, s': BridgeState, order: seq<nat>)
    requires AllSettled(ap, s, t, order) && |s'.nodes| == TypeMax && s'.ioFree == t.ioFree && s'.memFree == t.memFree
    requires forall i :: 0 <= i < TypeBus ==>
               s'.nodes[i] == if t.nodes[i].status != ResAllocated then t.nodes[i].(length := 0) else t.nodes[i]
    ensures AllSettled(ap, s, s', order)
  {
    hide NoRoom, FirstFit, Interval;
    assert forall i :: 0 <= i < TypeBus ==> Held(ap, t.nodes, i) == Held(ap, s'.nodes, i);
    hide Held;
    SameLeft(ap, t.nodes, s'.nodes, order, true, s.ioFree);
    SameLeft(ap, t.nodes, s'.nodes, order, false, s.memFree);
    forall k | 0 <= k < |order| ensures SettledInTurn(ap, s, s', order, k) {
      assert SettledInTurn(ap, s, t, order, k);
      SameLeft(ap, t.nodes, s'.nodes, order[..k], order[k] == TypeIo, FreeOf(order[k], s.ioFree, s.memFree));
    }
  }

  /** What the allocation phase does is fixed by the bridge it finds: the same requests
      and the same free addresses give the same grants, the same refusals and the same
      status. */
  lemma AllocationIsDetermined(ap: Apertures, s: BridgeState, a: BridgeState, b: BridgeState, orderA: seq<nat>, orderB: seq<nat>,
                               statusA: Status, statusB: Status)
    requires |s.nodes| == TypeMax && Selected(s.nodes, orderA, TypeBus) && Selected(s.nodes, orderB, TypeBus)
    requires AllocationResult(ap, s, a, orderA, statusA) && AllocationResult(ap, s, b, orderB, statusB)
    ensures orderA == orderB && a.nodes == b.nodes && statusA == statusB
    ensures a.ioFree == b.ioFree && a.memFree == b.memFree
  {
    SelectionIsUnique(s.nodes, orderA, orderB, TypeBus);
    var order := orderA;
    SettledAlike(ap, s, a, b, order, |order|);
    hide Selected, SettledInTurn, Granted, Held, AllocatedOrDropped;
    SameLeft(ap, a.nodes, b.nodes, order, true, s.ioFree);
    SameLeft(ap, a.nodes, b.nodes, order, false, s.memFree);
    forall i | 0 <= i < TypeBus ensures a.nodes[i] == b.nodes[i] {
      if i in order {
        var k :| 0 <= k < |order| && order[k] == i;
      } else {
        DroppedAlike(ap, i, s.nodes[i], a.nodes[i], b.nodes[i]);
      }
    }
    assert a.nodes == b.nodes;
  }

  lemma DroppedAlike(ap: Apertures, kind: nat, n: ResNode, a: ResNode, b: ResNode)
    requires kind < TypeBus && a.status != ResAllocated && b.status != ResAllocated
    requires AllocatedOrDropped(ap, kind, n, a) && AllocatedOrDropped(ap, kind, n, b)
    ensures a == b
  {}

  /** Turn by turn, the nodes served so far came to the same. */
  lemma {:induction false} SettledAlike(ap: Apertures, s: BridgeState, a: BridgeState, b: BridgeState, order: seq<nat>, n: nat)
    requires AllSettled(ap, s, a, order) && AllSettled(ap, s, b, order) && n <= |order|
    requires forall i :: 0 <= i < TypeBus ==>
               AllocatedOrDropped(ap, i, s.nodes[i], a.nodes[i]) && AllocatedOrDropped(ap, i, s.nodes[i], b.nodes[i])
    ensures forall k :: 0 <= k < n ==>
              a.nodes[order[k]] == b.nodes[order[k]] && Held(ap, a.nodes, order[k]) == Held(ap, b.nodes, order[k])
  {
    if n > 0 {
      SettledAlike(ap, s, a, b, order, n - 1);
      var i := order[n - 1];
      hide Settled, Granted, Interval;
      SameLeft(ap, a.nodes, b.nodes, order[..n - 1], i == TypeIo, FreeOf(i, s.ioFree, s.memFree));
      assert SettledInTurn(ap, s, a, order, n - 1) && SettledInTurn(ap, s, b, order, n - 1);
      SettledIsUnique(ap, i, s.nodes[i], a.nodes[i], b.nodes[i], FreeInTurn(ap, s, a.nodes, order[..n - 1], i));
      assert AllocatedOrDropped(ap, i, s.nodes[i], a.nodes[i]) && AllocatedOrDropped(ap, i, s.nodes[i], b.nodes[i]);
    }
  }

  /** A request that was tried and dropped, although its translation is aligned, has no
      room among what is free afterwards either. */
  lemma DroppedHasNoRoom(ap: Apertures, s: BridgeState, s': BridgeState, order: seq<nat>, status: Status, kind: nat)
    requires AllocationResult(ap, s, s', order, status)
    requires kind < TypeBus && kind in order && s'.nodes[kind].status != ResAllocated
    requires RT(ApertureOf(ap, kind)) % (s.nodes[kind].alignment + 1) == 0
    ensures NoRoom(ap, kind, s.nodes[kind], FreeOf(kind, s'.ioFree, s'.memFree))
  {
    var k :| 0 <= k < |order| && order[k] == kind;
    assert SettledInTurn(ap, s, s', order, k);
    hide NoRoom, Left, AllocatedOrDropped;
    LeftShrinks(ap, s'.nodes, order, k, kind == TypeIo, FreeOf(kind, s.ioFree, s.memFree));
    NoRoomStays(ap, kind, s.nodes[kind], FreeInTurn(ap, s, s'.nodes, order[..k], kind), FreeOf(kind, s'.ioFree, s'.memFree));
  }

  /** A selection that picked every request picked nothing else. */
  lemma AllWantedPicked(before: seq<ResNode>, order: seq<nat>)
    requires |before| == TypeMax && Selected(before, order, TypeBus)
    requires forall i :: 0 <= i < TypeBus && Wanted(before, i) ==> i in order
    ensures OnlyWanted(before, order)
  {
    SelectedIsAhead(before, order, TypeBus);
    SortedCount(before, order);
    forall i | i in WantedBelow(before, TypeBus) ensures i in Members(order) {}
    SameSizeSubset(WantedBelow(before, TypeBus), Members(order));
    forall k | 0 <= k < |order| ensures Wanted(before, order[k]) {
      assert order[k] in Members(order);
    }
  }

  /** What the allocation phase does to one node. */
  predicate AllocatedOrDropped(ap: Apertures, kind: nat, n: ResNode, n': ResNode)
    requires kind < TypeBus
  {
    if n'.status == ResAllocated then
      && n.status == ResSubmitted && n' == n.(base := n'.base, status := ResAllocated)
      && 0 < n.length && Granted(ap, kind, n'.base, n.length)
    else n' == n.(length := 0)
  }

  /** GetPowerOfTwo64 (x) == x. */
  predicate PowerOfTwoOrZero(x: nat) { x == 0 || Pow2(LowBit(x)) == x }

  /** The checks on one submitted descriptor. */
  predicate Acceptable(d: Descriptor, combineMemPmem: bool) {
    match d.resType
    case OtherRes => false
    case MemRes =>
      && (d.granularity == 32 || d.granularity == 64)
      && !(d.granularity == 32 && d.addrLen >= TWO_32)
      && !(combineMemPmem && d.prefetchable)
      && PowerOfTwoOrZero(Wrap64(d.addrRangeMax + 1))
    case IoRes => PowerOfTwoOrZero(Wrap64(d.addrRangeMax + 1))
  }

  predicate AllAcceptable(descriptors: seq<Descriptor>, combineMemPmem: bool) {
    forall k :: 0 <= k < |descriptors| ==> Acceptable(descriptors[k], combineMemPmem)
  }

  function KindOf(d: Descriptor): (kind: nat)
    ensures kind < TypeBus
  {
    if d.resType != MemRes then TypeIo
    else if d.granularity == 32 then (if d.prefetchable then TypePMem32 else TypeMem32)
    else (if d.prefetchable then TypePMem64 else TypeMem64)
  }

  /** The nodes after submitting the descriptors in order; the last one of a kind wins. */
  function Submitted(nodes: seq<ResNode>, descriptors: seq<Descriptor>): (r: seq<ResNode>)
    requires |nodes| == TypeMax
    ensures |r| == TypeMax
  {
    if descriptors == [] then nodes
    else
      var d := descriptors[|descriptors| - 1];
      var so_far := Submitted(nodes, descriptors[..|descriptors| - 1]);
      so_far[KindOf(d) := so_far[KindOf(d)].(length := d.addrLen, alignment := d.addrRangeMax, status := ResSubmitted)]
  }

  lemma StartOfLoop(ap: Apertures, s: BridgeState, handled: seq<bool>)
    requires Ready(ap, s.nodes) && AllFalse(handled)
    ensures LoopState(ap, s, s, handled, [], 0, Success)
  {
    hide Requestable, Granted;
  }

  lemma EndOfLoop(ap: Apertures, s: BridgeState, s': BridgeState, handled: seq<bool>, order: seq<nat>, status: Status)
    requires LoopState(ap, s, s', handled, order, TypeBus, status)
    ensures Progress(s.nodes, s'.nodes, order) && Selected(s.nodes, order, TypeBus)
    ensures AllGranted(ap, s'.nodes) && AllSettled(ap, s, s', order)
    ensures status == if AllPlaced(s'.nodes, order) then Success else OutOfResources
  {}

  /** The outer index moves on: an unwanted node is marked handled, a wanted one
      has been exchanged for the selected one. */
  lemma PassOn(handled: seq<bool>, before: seq<ResNode>, order: seq<nat>, index1: nat)
    requires HandledAre(handled, before, order, index1) && index1 < TypeBus
    ensures before[index1].status == ResNone ==> HandledAre(handled[index1 := true], before, order, index1 + 1)
    ensures before[index1].status != ResNone ==> HandledAre(handled, before, order, index1 + 1)
  {}

  lemma StillWanted(before: seq<ResNode>, now: seq<ResNode>, order: seq<nat>, i: nat)
    requires Progress(before, now, order) && i < TypeBus
    ensures now[i].status == ResNone <==> before[i].status == ResNone
  {}

  lemma ConservedReflexive(s: BridgeState)
    ensures Conserved(s, s)
  {}

  lemma ConservedTransitive(a: BridgeState, b: BridgeState, c: BridgeState)
    requires Conserved(a, b) && Conserved(b, c)
    ensures Conserved(a, c)
  {}

  /** A bridge whose nodes have all been cleared owns nothing any more. */
  lemma NothingLeft(ap: Apertures, s: BridgeState, s': BridgeState)
    requires OwnsExactly(ap, s') && Conserved(s, s') && |s.nodes| == TypeMax
    requires forall i :: 0 <= i < TypeBus ==>
               s'.nodes[i] == if s.nodes[i].status == ResAllocated then Cleared(s.nodes[i]) else s.nodes[i]
    ensures NothingAllocated(s') && s'.ioOwned == {} && s'.memOwned == {}
    ensures s'.ioFree == s.ioFree + s.ioOwned && s'.memFree == s.memFree + s.memOwned
    ensures forall t: BridgeState :: t.nodes == s'.nodes && SameSpaces(s', t) ==> OwnsExactly(ap, t)
  {
    forall i | 0 <= i < TypeBus ensures Held(ap, s'.nodes, i) == {} {}
  }

  lemma HeldIsOwned(ap: Apertures, s: BridgeState, kind: nat)
    requires OwnsExactly(ap, s) && kind < TypeBus && s.nodes[kind].status == ResAllocated
    ensures 0 < s.nodes[kind].length
    ensures kind == TypeIo ==> Held(ap, s.nodes, kind) <= s.ioOwned
    ensures kind != TypeIo ==> Held(ap, s.nodes, kind) <= s.memOwned
  {}

  lemma ForgettingLeaks(ap: Apertures, s: BridgeState, s': BridgeState)
    requires OwnsExactly(ap, s) && |s'.nodes| == TypeMax
    requires forall i :: 0 <= i < TypeBus ==> s'.nodes[i].status == ResNone
    requires s'.ioFree == s.ioFree && s'.ioOwned == s.ioOwned && s'.memFree == s.memFree && s'.memOwned == s.memOwned
    ensures OwnsExactly(ap, s') <==> NothingAllocated(s)
  {
    forall i | 0 <= i < TypeBus && s.nodes[i].status == ResAllocated ensures Held(ap, s.nodes, i) != {} {
      HeldIsOwned(ap, s, i);
      assert GcdAddress(ap, i, s.nodes[i]) in Held(ap, s.nodes, i);
    }
  }

  /** Nodes not picked yet are still as submitted. */
  ghost predicate Progress(before: seq<ResNode>, now: seq<ResNode>, order: seq<nat>) {
    && |before| == TypeMax && |now| == TypeMax
    && (forall k :: 0 <= k < |order| ==> order[k] < TypeBus)
    && (forall i :: 0 <= i < TypeMax && i !in order ==> now[i] == before[i])
    && (forall i :: 0 <= i < TypeBus && i in order ==> Served(before[i], now[i]))
  }

  /** Placed or left alone; a node nobody wants is never placed. */
  predicate Served(n: ResNode, n': ResNode) {
    n' == n || (n.status == ResSubmitted && n' == n.(base := n'.base, status := ResAllocated))
  }

  lemma ExtendProgress(ap: Apertures, before: seq<ResNode>, was: seq<ResNode>, now: seq<ResNode>, order: seq<nat>,
                       index: nat, placed: bool)
    requires Ready(ap, before) && Progress(before, was, order) && AllGranted(ap, was) && |now| == TypeMax
    requires index < TypeBus && index !in order
    requires forall i :: 0 <= i < TypeMax && i != index ==> now[i] == was[i]
    requires !placed ==> now[index] == was[index]
    requires placed ==>
               && now[index] == was[index].(base := now[index].base, status := ResAllocated)
               && 0 < now[index].length && Granted(ap, index, now[index].base, now[index].length)
    ensures Progress(before, now, order + [index]) && AllGranted(ap, now)
    ensures AllPlaced(now, order + [index]) <==> placed && AllPlaced(was, order)
  {
    hide Granted, Requestable;
    forall i ensures i in order + [index] <==> i in order || i == index {}
  }
}
