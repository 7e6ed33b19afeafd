/**
  What the allocation phase and a submission of the PCI host bridge mean for the
  caller: which addresses of which aperture a request can get, which refusals
  are justified, and which descriptor ends up in which node.
 */
module HostBridgePlaces {
  import opened Uefi
  import opened Arithmetic
  import opened GcdSpace
  import opened PciRange
  import opened HostBridgeNodes
  import opened HostBridge
  import opened HostBridgePhases

  /** A request of this length and alignment mask could be put at x: aligned, free, inside
      the window of `size` addresses from `first` on.  The driver does not look at the last
      address of a window alone. */
  predicate Place(first: nat, size: nat, length: nat, alignment: nat, free: set<nat>, x: nat) {
    && first <= x && x + Max(2, length) <= first + size
    && x % (alignment + 1) == 0
    && 0 < length && forall a :: x <= a < x + length ==> a in free
  }

  lemma DividesMultiple(x: nat, a: nat, b: nat)
    requires a > 0 && b > 0 && x % (a * b) == 0
    ensures x % a == 0
  {
    var q := x / (a * b);
    assert x == (q * b) * a;
    MultipleModulo(q * b, a);
  }

  lemma SmallerPower(x: nat, m: nat, n: nat)
    requires m <= n && x % Pow2(n) == 0
    ensures x % Pow2(m) == 0
  {
    Pow2Adds(m, n - m);
    DividesMultiple(x, Pow2(m), Pow2(n - m));
  }

  /** A 64-bit mask is one less than a power of two that divides 2^64. */
  lemma MaskDivides(alignment: u64)
    requires IsMask(alignment)
    ensures TWO_64 % (alignment + 1) == 0
  {
    var n := LowBit(alignment + 1);
    Pow2Of64();
    hide LowBit;
    assert Pow2(65) == 2 * Pow2(64);
    hide Pow2;
    if n > 64 {
      Pow2Monotonic(65, n);
    }
    assert TWO_64 % Pow2(64) == 0;
    SmallerPower(TWO_64, n, 64);
  }

  lemma SumOfMultiples(x: nat, y: nat, a: nat)
    requires a > 0 && x % a == 0 && y % a == 0
    ensures (x + y) % a == 0
    ensures x >= y ==> (x - y) % a == 0
  {
    var p, q := x / a, y / a;
    assert x == p * a && y == q * a;
    assert x + y == (p + q) * a;
    MultipleModulo(p + q, a);
    if x >= y {
      QuotientTells(x, a, q);
      assert x - y == (p - q) * a;
      MultipleModulo(p - q, a);
    }
  }

  /** The search starts no higher than any aligned address of the window. */
  lemma StartIsFirst(r: Range, alignment: u64, isIo: bool, x: nat)
    requires WellPlaced(r) && IsMask(alignment) && (isIo || RT(r) % (alignment + 1) == 0)
    requires WindowBase(r, isIo) <= x < WindowBase(r, isIo) + RS(r) && x % (alignment + 1) == 0
    ensures WindowStart(r, alignment, isIo) <= x
  {
    var a := alignment + 1;
    var device := RB(r) + (x - WindowBase(r, isIo));
    MaskDivides(alignment);
    WindowTranslation(r, x - WindowBase(r, isIo));
    assert device % a == 0 by {
      if !isIo {
        hide RB, HB, RS, IsMask;
        assert device == x + RT(r) || device + TWO_64 == x + RT(r);
        SumOfMultiples(x, RT(r), a);
        if device + TWO_64 == x + RT(r) {
          SumOfMultiples(x + RT(r), TWO_64, a);
        }
      }
    }
    hide IsMask, RB, RS, HB, RT, ToHostAddress, AlignUp;
    AlignUpIsNext(RB(r), a);
    if AlignUp(RB(r), a) > device {
      AlignedGap(device, AlignUp(RB(r), a), a);
    }
    WrapSmall(AlignUp(RB(r), a));
    HostOfDevice(r, AlignUp(RB(r), a) - RB(r));
  }

  /** A request that fits somewhere could have been given the place by the driver's search. */
  lemma PlaceIsCandidate(r: Range, length: u64, alignment: u64, cap: nat, isIo: bool, free: set<nat>, x: nat)
    requires WellPlaced(r) && IsMask(alignment) && (isIo || RT(r) % (alignment + 1) == 0)
    requires Place(WindowBase(r, isIo), RS(r), length, alignment, free, x)
    ensures WindowStart(r, alignment, isIo) < WindowLimit(r, isIo) < MAX_UINT64
    ensures Candidate(free, x, length, BitsOf(alignment, cap), WindowStart(r, alignment, isIo), WindowLimit(r, isIo))
  {
    StartIsFirst(r, alignment, isIo, x);
    EnabledLimit(r, isIo);
    hide RS, WellPlaced, WindowBase, WindowStart, WindowLimit, Pow2, LowBit;
    SmallerPower(x, BitsOf(alignment, cap), LowBit(alignment + 1));
  }

  /** A full window has no place. */
  lemma FullHasNoPlace(r: Range, length: u64, alignment: u64, cap: nat, isIo: bool, free: set<nat>, x: nat)
    requires Placeable(r, length, alignment, cap, isIo) && IsMask(alignment) && (isIo || RT(r) % (alignment + 1) == 0)
    requires Full(r, length, alignment, cap, isIo, free)
    ensures !Place(WindowBase(r, isIo), RS(r), length, alignment, free, x)
  {
    hide WellPlaced, Stops, WindowStart, WindowLimit, Candidate, IsMask, BitsOf;
    if Place(WindowBase(r, isIo), RS(r), length, alignment, free, x) && !Disabled(r) {
      PlaceIsCandidate(r, length, alignment, cap, isIo, free, x);
    }
  }

  /** The lowest fit lies below every place, is free and inside the window, and is aligned,
      as far as the kind of window asks for it. */
  lemma LowestFitIsLowest(r: Range, length: u64, alignment: u64, cap: nat, isIo: bool, free: set<nat>, base: nat, x: nat)
    requires Placeable(r, length, alignment, cap, isIo) && IsMask(alignment)
    requires LowestFit(r, length, alignment, cap, isIo, free, base)
    ensures isIo || RT(r) % (alignment + 1) == 0 ==>
              (Place(WindowBase(r, isIo), RS(r), length, alignment, free, x) ==> base <= x)
    ensures base % Min(alignment + 1, Pow2(cap)) == 0
    ensures 0 < length && forall a :: base <= a < base + length ==> a in free
  {
    hide WellPlaced, Stops, WindowStart, WindowLimit, WindowBase, RS, LowBit;
    if (isIo || RT(r) % (alignment + 1) == 0) && Place(WindowBase(r, isIo), RS(r), length, alignment, free, x) {
      PlaceIsCandidate(r, length, alignment, cap, isIo, free, x);
    }
    forall a | base <= a < base + length ensures a in free {
      assert a in Interval(base, length);
    }
    if cap <= LowBit(alignment + 1) {
      Pow2Monotonic(cap, LowBit(alignment + 1));
    } else {
      Pow2Monotonic(LowBit(alignment + 1), cap);
    }
  }

  /** The granted host range lies in the aperture. */
  predicate Lies(r: Range, n: ResNode) { RS(r) > 0 && HB(r) <= n.base && n.base + n.length <= HB(r) + RS(r) }

  /** The translation of an aperture leaves the request's alignment alone. */
  predicate Keeps(r: Range, alignment: nat) { RT(r) % (alignment + 1) == 0 }

  /** Granted at the lowest place of the aperture, aligned up to `cap`. */
  ghost predicate AtLowest(r: Range, n: ResNode, n': ResNode, cap: nat, free: set<nat>)
    requires cap > 0
  {
    && Lies(r, n') && n'.base % Min(n.alignment + 1, cap) == 0
    && (Keeps(r, n.alignment) ==> forall x :: Place(HB(r), RS(r), n.length, n.alignment, free, x) ==> n'.base <= x)
  }

  ghost predicate NoPlaceIn(r: Range, n: ResNode, free: set<nat>) {
    Keeps(r, n.alignment) ==> forall x :: !Place(HB(r), RS(r), n.length, n.alignment, free, x)
  }

  /** A memory request that has one aperture, n before and n' after. */
  ghost predicate ServedFrom(r: Range, n: ResNode, n': ResNode, free: set<nat>) {
    if n'.status == ResAllocated then Keeps(r, n.alignment) && AtLowest(r, n, n', 0x8000_0000, free)
    else NoPlaceIn(r, n, free)
  }

  /** A memory request that may fall back from `high` to `low`. */
  ghost predicate ServedFromTwo(high: Range, low: Range, n: ResNode, n': ResNode, free: set<nat>) {
    if n'.status == ResAllocated then
      && Keeps(high, n.alignment)
      && (|| AtLowest(high, n, n', 0x8000_0000_0000_0000, free)
          || (NoPlaceIn(high, n, free) && AtLowest(low, n, n', 0x8000_0000, free)))
    else Keeps(high, n.alignment) ==> NoPlaceIn(high, n, free) && NoPlaceIn(low, n, free)
  }

  /** Port I/O is searched by device address, and kept by host address. */
  ghost predicate ServedIo(r: Range, n: ResNode, n': ResNode, free: set<nat>) {
    if n'.status == ResAllocated then
      && Keeps(r, n.alignment) && Lies(r, n')
      && var device := RB(r) + (n'.base - HB(r));
         && device % Min(n.alignment + 1, 0x8000) == 0
         && forall x :: Place(RB(r), RS(r), n.length, n.alignment, free, x) ==> device <= x
    else Keeps(r, n.alignment) ==> forall x :: !Place(RB(r), RS(r), n.length, n.alignment, free, x)
  }

  lemma Caps()
    ensures Pow2(IO_CAP) == 0x8000 && Pow2(LOW_CAP) == 0x8000_0000 && Pow2(HIGH_CAP) == 0x8000_0000_0000_0000
  {
    Pow2Of16();
    Pow2Of64();
    assert Pow2(16) == 2 * Pow2(15);
    assert Pow2(32) == 2 * Pow2(31);
    assert Pow2(64) == 2 * Pow2(63);
  }

  lemma FitIsAtLowest(r: Range, n: ResNode, n': ResNode, cap: nat, free: set<nat>)
    requires Placeable(r, n.length, n.alignment, cap, false) && IsMask(n.alignment) && n'.length == n.length
    requires LowestFit(r, n.length, n.alignment, cap, false, free, n'.base)
    ensures AtLowest(r, n, n', Pow2(cap), free)
  {
    hide Placeable, IsMask, Place;
    LowestFitIsLowest(r, n.length, n.alignment, cap, false, free, n'.base, 0);
    assert Lies(r, n');
    hide LowestFit, RS, HB, RT;
    if Keeps(r, n.alignment) {
      forall x | Place(HB(r), RS(r), n.length, n.alignment, free, x) ensures n'.base <= x {
        LowestFitIsLowest(r, n.length, n.alignment, cap, false, free, n'.base, x);
      }
    }
  }

  lemma FullIsNoPlaceIn(r: Range, n: ResNode, cap: nat, free: set<nat>)
    requires Placeable(r, n.length, n.alignment, cap, false) && IsMask(n.alignment)
    requires Full(r, n.length, n.alignment, cap, false, free)
    ensures NoPlaceIn(r, n, free)
  {
    hide Placeable, IsMask, Place, Full, RS, HB, RT;
    if Keeps(r, n.alignment) {
      forall x ensures !Place(HB(r), RS(r), n.length, n.alignment, free, x) {
        FullHasNoPlace(r, n.length, n.alignment, cap, false, free, x);
      }
    }
  }

  /** A node settled the way the allocation loop does it is served from the apertures of its
      own kind. */
  lemma SettledIsServed(ap: Apertures, kind: nat, n: ResNode, n': ResNode, free: set<nat>)
    requires kind < TypeBus && Settled(ap, kind, n, n', free) && Requestable(ap, kind, n)
    requires n'.status == ResAllocated ==> n'.length == n.length
    ensures kind == TypeMem32 ==> ServedFrom(ap.mem, n, n', free)
    ensures kind == TypePMem32 ==> ServedFrom(ap.pmem, n, n', free)
    ensures kind == TypeMem64 ==> ServedFromTwo(ap.mem64, ap.mem, n, n', free)
    ensures kind == TypePMem64 ==> ServedFromTwo(ap.pmem64, ap.pmem, n, n', free)
  {
    Caps();
    hide Pow2, IsMask, Placeable, LowestFit, Full, RT, AtLowest;
    assert forall r :: Keeps(r, n.alignment) <==> RT(r) % (n.alignment + 1) == 0;
    assert forall r :: !Keeps(r, n.alignment) ==> NoPlaceIn(r, n, free);
    hide Keeps, NoPlaceIn;
    forall r, cap | Placeable(r, n.length, n.alignment, cap, false) && Full(r, n.length, n.alignment, cap, false, free)
      ensures NoPlaceIn(r, n, free)
    {
      FullIsNoPlaceIn(r, n, cap, free);
    }
    if kind != TypeIo && n'.status == ResAllocated {
      forall r, cap | Placeable(r, n.length, n.alignment, cap, false)
                      && LowestFit(r, n.length, n.alignment, cap, false, free, n'.base)
        ensures AtLowest(r, n, n', Pow2(cap), free)
      {
        FitIsAtLowest(r, n, n', cap, free);
      }
    }
  }

  /** A host address of a well placed aperture and its device address. */
  lemma DeviceOfHost(r: Range, host: nat)
    requires WellPlaced(r) && HB(r) <= host < HB(r) + RS(r)
    ensures ToDeviceAddress(host, RT(r)) == RB(r) + (host - HB(r))
  {
    WindowTranslation(r, host - HB(r));
  }

  lemma GrantedIoIsServed(r: Range, n: ResNode, n': ResNode, free: set<nat>)
    requires Placeable(r, n.length, n.alignment, IO_CAP, true) && IsMask(n.alignment) && !Disabled(r)
    requires n'.length == n.length && Lies(r, n') && Keeps(r, n.alignment) && n'.status == ResAllocated
    requires LowestFit(r, n.length, n.alignment, IO_CAP, true, free, ToDeviceAddress(n'.base, RT(r)))
    ensures ServedIo(r, n, n', free)
  {
    Caps();
    var device := ToDeviceAddress(n'.base, RT(r));
    LowestFitIsLowest(r, n.length, n.alignment, IO_CAP, true, free, device, 0);
    assert WellPlaced(r);
    DeviceOfHost(r, n'.base);
    hide Pow2, IsMask, Placeable, Place, LowestFit, RB, RS, HB, RT, WellPlaced, ToDeviceAddress;
    forall x | Place(RB(r), RS(r), n.length, n.alignment, free, x) ensures device <= x {
      LowestFitIsLowest(r, n.length, n.alignment, IO_CAP, true, free, device, x);
    }
  }

  lemma RefusedIoIsServed(r: Range, n: ResNode, n': ResNode, free: set<nat>)
    requires Placeable(r, n.length, n.alignment, IO_CAP, true) && IsMask(n.alignment)
    requires n'.status != ResAllocated && Full(r, n.length, n.alignment, IO_CAP, true, free)
    ensures ServedIo(r, n, n', free)
  {
    hide Placeable, IsMask, Place, Full, RS, RB, RT;
    forall x ensures !Place(RB(r), RS(r), n.length, n.alignment, free, x) {
      FullHasNoPlace(r, n.length, n.alignment, IO_CAP, true, free, x);
    }
  }

  /** The same for port I/O. */
  lemma SettledIoIsServed(ap: Apertures, n: ResNode, n': ResNode, free: set<nat>)
    requires Settled(ap, TypeIo, n, n', free) && Requestable(ap, TypeIo, n)
    requires n'.status == ResAllocated ==> n'.length == n.length && n.length > 0 && Granted(ap, TypeIo, n'.base, n'.length)
    ensures ServedIo(ap.io, n, n', free)
  {
    hide IsMask, Placeable, Full, LowestFit, Place, RS, HB, RB, RT, ToDeviceAddress;
    if n'.status == ResAllocated {
      GrantedIoIsServed(ap.io, n, n', free);
    } else if Keeps(ap.io, n.alignment) {
      RefusedIoIsServed(ap.io, n, n', free);
    }
  }

  /** The node has been granted a host range with address a in it. */
  predicate Occupies(n: ResNode, a: nat) { n.status == ResAllocated && n.base <= a < n.base + n.length }

  lemma HeldMemoryNode(ap: Apertures, nodes: seq<ResNode>, kind: nat, a: nat)
    requires |nodes| == TypeMax && TypeIo < kind < TypeBus
    ensures a in Held(ap, nodes, kind) <==> Occupies(nodes[kind], a)
  {}

  /** What the memory requests in `order` leave free. */
  lemma {:induction false} LeftForMemory(ap: Apertures, nodes: seq<ResNode>, order: seq<nat>, free: set<nat>, a: nat)
    requires |nodes| == TypeMax && Kinds(order)
    ensures a in Left(ap, nodes, order, false, free) <==>
              a in free && forall j :: 0 <= j < |order| && order[j] != TypeIo ==> !Occupies(nodes[order[j]], a)
  {
    hide Held, Occupies;
    if order != [] {
      var rest, last := order[..|order| - 1], order[|order| - 1];
      LeftForMemory(ap, nodes, rest, free, a);
      assert forall j :: 0 <= j < |rest| ==> rest[j] == order[j];
      if last != TypeIo {
        HeldMemoryNode(ap, nodes, last, a);
      }
    }
  }

  lemma {:induction false} LeftForIo(ap: Apertures, nodes: seq<ResNode>, order: seq<nat>, free: set<nat>)
    requires |nodes| == TypeMax && Kinds(order) && TypeIo !in order
    ensures Left(ap, nodes, order, true, free) == free
  {
    if order != [] {
      LeftForIo(ap, nodes, order[..|order| - 1], free);
    }
  }

  /** `free` is what is free for request order[k] when its turn comes: of port I/O all that
      was free at the start, of memory all but the ranges granted before. */
  ghost predicate FreeBefore(s: BridgeState, nodes: seq<ResNode>, order: seq<nat>, k: nat, free: set<nat>)
    requires |nodes| == TypeMax && Kinds(order) && k < |order|
  {
    if order[k] == TypeIo then free == s.ioFree
    else forall a: nat :: a in free <==>
           a in s.memFree && forall j :: 0 <= j < k && order[j] != TypeIo ==> !Occupies(nodes[order[j]], a)
  }

  lemma FreeBeforeIsInTurn(ap: Apertures, s: BridgeState, nodes: seq<ResNode>, order: seq<nat>, k: nat, free: set<nat>)
    requires |nodes| == TypeMax && Kinds(order) && k < |order| && FreeBefore(s, nodes, order, k, free)
    requires order[k] == TypeIo ==> TypeIo !in order[..k]
    ensures free == FreeInTurn(ap, s, nodes, order[..k], order[k])
  {
    hide Occupies, Left;
    var before := order[..k];
    assert forall j :: 0 <= j < k ==> before[j] == order[j];
    if order[k] == TypeIo {
      LeftForIo(ap, nodes, before, free);
    } else {
      forall a ensures a in free <==> a in Left(ap, nodes, before, false, s.memFree) {
        LeftForMemory(ap, nodes, before, s.memFree, a);
      }
    }
  }

  /** The allocation phase, request by request: the most demanding alignment comes first and
      of equals the later kind; each request gets the lowest place that those before it left
      in the apertures of its own kind, or is dropped because they left none or because the
      translation of its aperture is misaligned. */
  lemma AllocationServes(ap: Apertures, s: BridgeState, s': BridgeState, order: seq<nat>, status: Status, k: nat, free: set<nat>)
    requires Ready(ap, s.nodes) && Selected(s.nodes, order, TypeBus)
    requires AllocationResult(ap, s, s', order, status)
    requires k < |order| && FreeBefore(s, s'.nodes, order, k, free)
    ensures forall j :: 0 <= j < k ==>
              var a, b := s.nodes[order[j]].alignment, s.nodes[order[k]].alignment;
              a > b || (a == b && order[j] > order[k])
    ensures order[k] < TypeBus
    ensures var n, n' := s.nodes[order[k]], s'.nodes[order[k]];
            && (order[k] == TypeIo ==> ServedIo(ap.io, n, n', free))
            && (order[k] == TypeMem32 ==> ServedFrom(ap.mem, n, n', free))
            && (order[k] == TypePMem32 ==> ServedFrom(ap.pmem, n, n', free))
            && (order[k] == TypeMem64 ==> ServedFromTwo(ap.mem64, ap.mem, n, n', free))
            && (order[k] == TypePMem64 ==> ServedFromTwo(ap.pmem64, ap.pmem, n, n', free))
            && (n'.status == ResAllocated ==> n.status == ResSubmitted && n' == n.(base := n'.base, status := ResAllocated))
            && (n'.status != ResAllocated ==> n' == n.(length := 0))
  {
    hide Selected, FreeBefore, Granted, Ready, Requestable, AllSettled, Settled, AllocatedOrDropped, ServedIo, ServedFrom,
      ServedFromTwo, FreeInTurn, FreeOf;
    MostDemandingFirst(s.nodes, order, k);
    var kind := order[k];
    TurnIsSettled(ap, s, s', order, status, k);
    FreeBeforeIsInTurn(ap, s, s'.nodes, order, k, free);
    assert AllocatedOrDropped(ap, kind, s.nodes[kind], s'.nodes[kind]);
    ReadyRequest(ap, s.nodes, kind);
    NodeTells(ap, kind, s.nodes[kind], s'.nodes[kind]);
    if kind == TypeIo {
      SettledIoIsServed(ap, s.nodes[kind], s'.nodes[kind], free);
    } else {
      SettledIsServed(ap, kind, s.nodes[kind], s'.nodes[kind], free);
    }
  }

  lemma MostDemandingFirst(nodes: seq<ResNode>, order: seq<nat>, k: nat)
    requires |nodes| == TypeMax && Selected(nodes, order, TypeBus) && k < |order|
    ensures forall j :: 0 <= j < |order| ==> order[j] < TypeBus
    ensures forall j :: 0 <= j < k ==>
              var a, b := nodes[order[j]].alignment, nodes[order[k]].alignment;
              a > b || (a == b && order[j] > order[k])
    ensures order[k] == TypeIo ==> TypeIo !in order[..k]
  {
    SelectedIsAhead(nodes, order, TypeBus);
    hide Selected, Handled;
    forall j | 0 <= j < k
      ensures var a, b := nodes[order[j]].alignment, nodes[order[k]].alignment;
              a > b || (a == b && order[j] > order[k])
    {
      assert ServedBefore(nodes, order[j], order[k]);
    }
  }

  lemma TurnIsSettled(ap: Apertures, s: BridgeState, s': BridgeState, order: seq<nat>, status: Status, k: nat)
    requires AllocationResult(ap, s, s', order, status) && k < |order|
    ensures Kinds(order)
    ensures Settled(ap, order[k], s.nodes[order[k]], s'.nodes[order[k]], FreeInTurn(ap, s, s'.nodes, order[..k], order[k]))
  {
    hide Settled, FreeInTurn, AllocatedOrDropped, Left;
    assert SettledInTurn(ap, s, s', order, k);
  }

  lemma ReadyRequest(ap: Apertures, nodes: seq<ResNode>, kind: nat)
    requires Ready(ap, nodes) && kind < TypeBus
    ensures Requestable(ap, kind, nodes[kind])
  {
    hide Requestable;
  }

  lemma NodeTells(ap: Apertures, kind: nat, n: ResNode, n': ResNode)
    requires kind < TypeBus && AllocatedOrDropped(ap, kind, n, n')
    ensures n'.status == ResAllocated ==>
              && n.status == ResSubmitted && n' == n.(base := n'.base, status := ResAllocated)
              && n'.length == n.length > 0 && Granted(ap, kind, n'.base, n'.length)
    ensures n'.status != ResAllocated ==> n' == n.(length := 0)
  {
    hide Granted;
  }

  /** Success means that every request was granted; what nobody asked for is untouched. */
  lemma StatusTells(ap: Apertures, s: BridgeState, s': BridgeState, order: seq<nat>, status: Status)
    requires Ready(ap, s.nodes) && AllocationResult(ap, s, s', order, status)
    ensures status == Success <==>
            forall i :: TypeIo <= i <= TypePMem64 && s.nodes[i].status == ResSubmitted ==> s'.nodes[i].status == ResAllocated
    ensures forall i :: TypeIo <= i <= TypePMem64 && s.nodes[i].status == ResNone ==> s'.nodes[i] == s.nodes[i]
  {
    hide Granted, Requestable, AllSettled;
    assert forall i :: 0 <= i < TypeBus ==> AllocatedOrDropped(ap, i, s.nodes[i], s'.nodes[i]);
  }

  /** The memory owned is exactly what the four memory nodes were granted, no address twice,
      and the ports owned are the device addresses of what the I/O node was granted. */
  lemma OwnedIsGranted(ap: Apertures, s: BridgeState, a: nat)
    requires OwnsExactly(ap, s)
    ensures a in s.memOwned <==> exists i :: TypeMem32 <= i <= TypePMem64 && Occupies(s.nodes[i], a)
    ensures forall i, j :: TypeMem32 <= i < j <= TypePMem64 ==> !(Occupies(s.nodes[i], a) && Occupies(s.nodes[j], a))
    ensures s.nodes[TypeIo].status != ResAllocated ==> s.ioOwned == {}
    ensures var n := s.nodes[TypeIo];
            n.status == ResAllocated && WellPlaced(ap.io) && Lies(ap.io, n) ==>
              (a in s.ioOwned <==> RB(ap.io) + (n.base - HB(ap.io)) <= a < RB(ap.io) + (n.base - HB(ap.io)) + n.length)
  {
    assert forall i :: TypeMem32 <= i < TypeBus ==> (a in Held(ap, s.nodes, i) <==> Occupies(s.nodes[i], a)) by {
      forall i | TypeMem32 <= i < TypeBus ensures a in Held(ap, s.nodes, i) <==> Occupies(s.nodes[i], a) {
        HeldMemoryNode(ap, s.nodes, i, a);
      }
    }
    var n := s.nodes[TypeIo];
    if n.status == ResAllocated && WellPlaced(ap.io) && Lies(ap.io, n) {
      assert n.length > 0;
      DeviceOfHost(ap.io, n.base);
    }
    hide RB, RS, HB, RT, WellPlaced, Lies, Occupies;
    if a in s.memOwned {
      assert a in Held(ap, s.nodes, 1) || a in Held(ap, s.nodes, 2) || a in Held(ap, s.nodes, 3) || a in Held(ap, s.nodes, 4);
    }
  }

  /** A descriptor for port I/O, or for memory of a width and prefetchability. */
  predicate AsksFor(d: Descriptor, memory: bool, granularity: nat, prefetchable: bool) {
    if memory then d.resType == MemRes && d.granularity == granularity && d.prefetchable == prefetchable
    else d.resType == IoRes
  }

  /** Descriptors the bridge cannot tell apart. */
  predicate Alike(d: Descriptor, e: Descriptor) {
    AsksFor(e, d.resType == MemRes, d.granularity, d.prefetchable)
  }

  /** No descriptor behind number k is like it. */
  predicate LastAlike(descriptors: seq<Descriptor>, k: nat)
    requires k < |descriptors|
  {
    forall j :: k < j < |descriptors| ==> !Alike(descriptors[j], descriptors[k])
  }

  predicate Requests(n: ResNode, d: Descriptor) {
    n.status == ResSubmitted && n.length == d.addrLen && n.alignment == d.addrRangeMax
  }

  lemma {:induction false} LastAlikeWins(nodes: seq<ResNode>, descriptors: seq<Descriptor>, combine: bool, k: nat)
    requires |nodes| == TypeMax && AllAcceptable(descriptors, combine) && k < |descriptors| && LastAlike(descriptors, k)
    ensures Requests(Submitted(nodes, descriptors)[KindOf(descriptors[k])], descriptors[k])
  {
    hide PowerOfTwoOrZero, Submitted;
    var last, d := |descriptors| - 1, descriptors[k];
    SubmittedLast(nodes, descriptors);
    assert Acceptable(descriptors[last], combine) && Acceptable(d, combine);
    if k < last {
      assert !Alike(descriptors[last], d);
      LastAlikeWins(nodes, descriptors[..last], combine, k);
    }
  }

  lemma SubmittedLast(nodes: seq<ResNode>, descriptors: seq<Descriptor>)
    requires |nodes| == TypeMax && descriptors != []
    ensures var d := descriptors[|descriptors| - 1];
            var so_far := Submitted(nodes, descriptors[..|descriptors| - 1]);
            Submitted(nodes, descriptors) ==
              so_far[KindOf(d) := so_far[KindOf(d)].(length := d.addrLen, alignment := d.addrRangeMax, status := ResSubmitted)]
  {}

  /** Which descriptor ends up in which node: the last one of a type, a granularity and a
      prefetchability. */
  lemma LastDescriptorWins(nodes: seq<ResNode>, descriptors: seq<Descriptor>, combine: bool, k: nat)
    requires |nodes| == TypeMax && AllAcceptable(descriptors, combine) && k < |descriptors| && LastAlike(descriptors, k)
    ensures var d, r := descriptors[k], Submitted(nodes, descriptors);
            && (d.resType == IoRes ==> Requests(r[TypeIo], d))
            && (d.resType == MemRes && d.granularity == 32 && !d.prefetchable ==> Requests(r[TypeMem32], d))
            && (d.resType == MemRes && d.granularity == 32 && d.prefetchable ==> Requests(r[TypePMem32], d))
            && (d.resType == MemRes && d.granularity == 64 && !d.prefetchable ==> Requests(r[TypeMem64], d))
            && (d.resType == MemRes && d.granularity == 64 && d.prefetchable ==> Requests(r[TypePMem64], d))
  {
    LastAlikeWins(nodes, descriptors, combine, k);
  }

  predicate NobodyAsks(descriptors: seq<Descriptor>, memory: bool, granularity: nat, prefetchable: bool) {
    forall k :: 0 <= k < |descriptors| ==> !AsksFor(descriptors[k], memory, granularity, prefetchable)
  }

  /** A node no descriptor is for stays as it was. */
  lemma {:induction false} UnnamedNodesStay(nodes: seq<ResNode>, descriptors: seq<Descriptor>, combine: bool)
    requires |nodes| == TypeMax && AllAcceptable(descriptors, combine)
    ensures var r := Submitted(nodes, descriptors);
            && (NobodyAsks(descriptors, false, 0, false) ==> r[TypeIo] == nodes[TypeIo])
            && (NobodyAsks(descriptors, true, 32, false) ==> r[TypeMem32] == nodes[TypeMem32])
            && (NobodyAsks(descriptors, true, 32, true) ==> r[TypePMem32] == nodes[TypePMem32])
            && (NobodyAsks(descriptors, true, 64, false) ==> r[TypeMem64] == nodes[TypeMem64])
            && (NobodyAsks(descriptors, true, 64, true) ==> r[TypePMem64] == nodes[TypePMem64])
            && r[TypeBus] == nodes[TypeBus]
  {
    hide PowerOfTwoOrZero, Submitted;
    if descriptors == [] {
      SubmittedNothing(nodes);
    } else {
      var last := |descriptors| - 1;
      SubmittedLast(nodes, descriptors);
      UnnamedNodesStay(nodes, descriptors[..last], combine);
      assert Acceptable(descriptors[last], combine);
      forall memory, granularity, prefetchable | NobodyAsks(descriptors, memory, granularity, prefetchable)
        ensures NobodyAsks(descriptors[..last], memory, granularity, prefetchable)
        ensures !AsksFor(descriptors[last], memory, granularity, prefetchable)
      {}
    }
  }

  lemma SubmittedNothing(nodes: seq<ResNode>)
    requires |nodes| == TypeMax
    ensures Submitted(nodes, []) == nodes
  {}

  /** What a submission is refused for. */
  lemma AcceptableMeans(d: Descriptor, combine: bool)
    ensures Acceptable(d, combine) <==>
            && d.resType != OtherRes
            && (d.resType == MemRes ==> d.granularity == 64 || (d.granularity == 32 && d.addrLen < TWO_32))
            && (d.resType == MemRes && combine ==> !d.prefetchable)
            && (d.addrRangeMax == MAX_UINT64 || exists n :: d.addrRangeMax + 1 == Pow2(n))
  {
    if d.addrRangeMax == MAX_UINT64 {
      assert Wrap64(d.addrRangeMax + 1) == 0;
    } else {
      WrapSmall(d.addrRangeMax + 1);
      PowerMeans(d.addrRangeMax + 1);
    }
    hide Pow2, LowBit, Wrap64;
  }

  lemma PowerMeans(x: nat)
    requires x > 0
    ensures PowerOfTwoOrZero(x) <==> exists n :: x == Pow2(n)
  {
    if n :| x == Pow2(n) {
      LowBitOfPower(n);
    }
    hide Pow2, LowBit;
    if PowerOfTwoOrZero(x) {
      assert x == Pow2(LowBit(x));
    }
  }

  lemma {:induction false} LowBitOfPower(n: nat)
    ensures LowBit(Pow2(n)) == n
  {
    if n > 0 {
      assert Pow2(n) == 2 * Pow2(n - 1);
      assert Pow2(n) / 2 == Pow2(n - 1);
      LowBitOfPower(n - 1);
    }
  }
}
