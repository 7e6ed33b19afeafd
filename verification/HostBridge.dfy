/**
  The resource-allocation side of the PCI host bridge
  (PciHostBridgeFdtDxe/HostBridge.c): apertures, resource nodes, the GCD
  spaces behind them, and the phases that move resources between them.
 */
module HostBridge {
  import opened Uefi
  import opened Arithmetic
  import opened GcdSpace
  import opened PciRange
  import opened HostBridgeNodes

  /** A status variable the C code declares without giving it a value. */
  datatype Variable = Unassigned | Assigned(value: Status)

  datatype Apertures = Apertures(io: Range, mem: Range, pmem: Range, mem64: Range, pmem64: Range)

  function ApertureOf(ap: Apertures, kind: nat): Range
    requires kind < TypeBus
  {
    if kind == TypeIo then ap.io
    else if kind == TypeMem32 then ap.mem
    else if kind == TypePMem32 then ap.pmem
    else if kind == TypeMem64 then ap.mem64
    else ap.pmem64
  }

  /** The window a 64-bit request falls back to. */
  function FallbackOf(ap: Apertures, kind: nat): Range {
    if kind == TypeMem64 then ap.mem else ap.pmem
  }

  /** LowBitSet64 on a nonzero value. */
  function LowBit(x: nat): nat
    requires x > 0
  {
    if x % 2 == 1 then 0 else 1 + LowBit(x / 2)
  }

  /** An alignment of the form 2^n - 1. */
  predicate IsMask(alignment: nat) { Pow2(LowBit(alignment + 1)) == alignment + 1 }

  /** First address tried in a window, and its last address: device addresses
      for port I/O, host addresses for memory. */
  function WindowStart(r: Range, alignment: u64, isIo: bool): u64 {
    var start := Wrap64(AlignUp(RB(r), alignment + 1));
    if isIo then start else ToHostAddress(start, RT(r))
  }

  function WindowLimit(r: Range, isIo: bool): u64 {
    if isIo then RL(r) else ToHostAddress(RL(r), RT(r))
  }

  predicate Disabled(r: Range) { r == NO_RANGE }

  /** The base of the window in the address space the GCD tracks. */
  function WindowBase(r: Range, isIo: bool): u64 { if isIo then RB(r) else HB(r) }

  /** The alignment the GCD is asked for. */
  function BitsOf(alignment: u64, cap: nat): nat { Min(cap, LowBit(alignment + 1)) }

  /** The aperture is disabled, or its search starts at its base or behind it and stops
      where it should. */
  predicate Placeable(r: Range, length: u64, alignment: u64, cap: nat, isIo: bool) {
    || Disabled(r)
    || (&& WellPlaced(r) && WindowBase(r, isIo) <= WindowStart(r, alignment, isIo)
        && Stops(length, BitsOf(alignment, cap), WindowStart(r, alignment, isIo), WindowLimit(r, isIo)))
  }

  lemma AlignUpOfZero(a: nat)
    requires a > 0
    ensures AlignUp(0, a) == 0
  {
    MultipleModulo(0, a);
    MultipleModulo(1, a);
  }

  /** The window of a disabled aperture. */
  lemma DisabledWindow(alignment: u64, isIo: bool)
    ensures WindowStart(NO_RANGE, alignment, isIo) == 0 && WindowLimit(NO_RANGE, isIo) == MAX_UINT64
  {
    DisabledLimit();
    AlignUpOfZero(alignment + 1);
  }

  lemma EnabledLimit(r: Range, isIo: bool)
    requires WellPlaced(r)
    ensures WindowLimit(r, isIo) == WindowBase(r, isIo) + RS(r) - 1 < MAX_UINT64
  {
    WindowTranslation(r, RS(r) - 1);
  }

  lemma {:induction false} Pow2Monotonic(m: nat, n: nat)
    requires m <= n
    ensures Pow2(m) <= Pow2(n)
  {
    if m < n {
      Pow2Monotonic(m, n - 1);
    }
  }

  lemma {:induction false} LowBitDivides(x: nat)
    requires x > 0
    ensures Pow2(LowBit(x)) <= x
  {
    if x % 2 == 0 {
      LowBitDivides(x / 2);
    }
  }

  lemma HostOfDevice(r: Range, x: nat)
    requires RB(r) + x < TWO_64 && HB(r) + x < TWO_64
    ensures ToHostAddress(RB(r) + x, RT(r)) == HB(r) + x
  {
    var c, h := r.childBase / TWO_64, r.translatedParentBase / TWO_64;
    WrapOf(RB(r) + x - RT(r), HB(r) + x, (r.childBase - r.translatedParentBase) / TWO_64 + h - c);
  }

  /** An aperture that ends two alignment steps and the length of the request below 2^64 is
      searched as it should be. */
  lemma RoomyIsPlaceable(r: Range, length: u64, alignment: u64, cap: nat, isIo: bool)
    requires WellPlaced(r)
    requires RB(r) + RS(r) + 2 * (alignment + 1) + length < TWO_64 && HB(r) + RS(r) + 2 * (alignment + 1) + length < TWO_64
    ensures Placeable(r, length, alignment, cap, isIo)
  {
    var bits, first := BitsOf(alignment, cap), AlignUp(RB(r), alignment + 1);
    AlignUpIsNext(RB(r), alignment + 1);
    LowBitDivides(alignment + 1);
    Pow2Monotonic(bits, LowBit(alignment + 1));
    EnabledLimit(r, isIo);
    hide AlignUp, Pow2, LowBit, RB, RS, HB, RT, ToHostAddress, Wrap64, WindowLimit, BitsOf;
    HostOfDevice(r, first - RB(r));
    WrapSmall(first);
    var start, limit := WindowStart(r, alignment, isIo), WindowLimit(r, isIo);
    assert start == WindowBase(r, isIo) + (first - RB(r));
    StopsWithRoom(length, bits, start, limit);
  }

  /** The search stops if the request still fits below 2^64 one step behind the window. */
  lemma StopsWithRoom(length: nat, bits: nat, base: nat, limit: nat)
    requires Max(base, limit + 2) + length + Pow2(bits) < TWO_64
    ensures Stops(length, bits, base, limit)
  {
    var f := FirstBeyond(length, bits, base, limit);
    FirstAligned(Max(base, limit + 2 - length), bits);
    FirstBeyondIs(length, bits, base, limit);
    hide AlignUp, Pow2, Aligned, Wrap64;
    WrapSmall(f);
    WrapSmall(f + length);
    WrapSmall(limit + 1);
  }

  /** The address under which the GCD knows an allocated node: port I/O is
      tracked by device address, memory by host address. */
  function GcdAddress(ap: Apertures, kind: nat, n: ResNode): u64 {
    if kind == TypeIo then ToDeviceAddress(n.base, RT(ap.io)) else n.base
  }

  /** The alignment caps of the three kinds of windows. */
  const IO_CAP: nat := 15
  const LOW_CAP: nat := 31
  const HIGH_CAP: nat := 63

  /** The window has no place for the request among the free addresses. */
  ghost predicate Full(r: Range, length: u64, alignment: u64, cap: nat, isIo: bool, free: set<nat>) {
    || WindowStart(r, alignment, isIo) >= WindowLimit(r, isIo)
    || WindowLimit(r, isIo) == MAX_UINT64
    || None(free, length, BitsOf(alignment, cap), WindowStart(r, alignment, isIo), WindowLimit(r, isIo))
  }

  /** `base` lies in the window, suitably aligned and free, and nothing below it would do. */
  ghost predicate LowestFit(r: Range, length: u64, alignment: u64, cap: nat, isIo: bool, free: set<nat>, base: nat) {
    && !Disabled(r) && WindowBase(r, isIo) <= base && base + length <= WindowBase(r, isIo) + RS(r)
    && WindowStart(r, alignment, isIo) < WindowLimit(r, isIo) != MAX_UINT64
    && Candidate(free, base, length, BitsOf(alignment, cap), WindowStart(r, alignment, isIo), WindowLimit(r, isIo))
    && NoneBelow(free, base, length, BitsOf(alignment, cap), WindowStart(r, alignment, isIo), WindowLimit(r, isIo))
  }

  /** There is one lowest place at most, and none in a window without room. */
  lemma LowestFitIsUnique(r: Range, length: u64, alignment: u64, cap: nat, isIo: bool, free: set<nat>, a: nat, b: nat)
    requires LowestFit(r, length, alignment, cap, isIo, free, a)
    ensures LowestFit(r, length, alignment, cap, isIo, free, b) ==> a == b
    ensures !Full(r, length, alignment, cap, isIo, free)
  {
    hide Candidate, WindowStart, WindowLimit, Disabled, BitsOf;
  }

  /** Fewer free addresses leave no more candidates. */
  lemma FewerCandidates(free: set<nat>, fewer: set<nat>, b: nat, length: nat, bits: nat, base: nat, limit: nat)
    requires fewer <= free && Candidate(fewer, b, length, bits, base, limit)
    ensures Candidate(free, b, length, bits, base, limit)
  {}

  lemma FullStays(r: Range, length: u64, alignment: u64, cap: nat, isIo: bool, free: set<nat>, fewer: set<nat>)
    requires fewer <= free && Full(r, length, alignment, cap, isIo, free)
    ensures Full(r, length, alignment, cap, isIo, fewer)
  {
    hide Candidate, Interval, WindowStart, WindowLimit;
    var bits, start, limit := BitsOf(alignment, cap), WindowStart(r, alignment, isIo), WindowLimit(r, isIo);
    forall x: nat ensures Candidate(fewer, x, length, bits, start, limit) ==> Candidate(free, x, length, bits, start, limit) {
      if Candidate(fewer, x, length, bits, start, limit) {
        FewerCandidates(free, fewer, x, length, bits, start, limit);
      }
    }
  }

  /** One AllocateResource call for one window.  A granted interval lies inside
      the window and is the lowest one the request could be given. */
  method AllocateInWindow(space: Space, r: Range, length: u64, alignment: u64, cap: nat, isIo: bool) returns (base: u64)
    requires cap < 64 && Placeable(r, length, alignment, cap, isIo)
    modifies space
    ensures base == MAX_UINT64 ==> space.free == old(space.free) && space.owned == old(space.owned)
    ensures base == MAX_UINT64 ==> Full(r, length, alignment, cap, isIo, old(space.free))
    ensures base != MAX_UINT64 ==>
              && 0 < length && Interval(base, length) <= old(space.free)
              && space.free == old(space.free) - Interval(base, length)
              && space.owned == old(space.owned) + Interval(base, length)
              && LowestFit(r, length, alignment, cap, isIo, old(space.free), base)
  {
    hide WindowStart, WindowLimit, WindowBase, Interval, NoneBelow, None, AlignUp, Pow2, LowBit, Aligned, FirstBeyond, StopsAt, WellPlaced, RS;
    if Disabled(r) {
      DisabledWindow(alignment, isIo);
      AlignUpOfZero(Pow2(BitsOf(alignment, cap)));
    } else {
      EnabledLimit(r, isIo);
    }
    base := AllocateResource(space, length, BitsOf(alignment, cap), WindowStart(r, alignment, isIo), WindowLimit(r, isIo));
  }

  /** The addresses a node holds. */
  function Held(ap: Apertures, nodes: seq<ResNode>, kind: nat): set<nat>
    requires |nodes| == TypeMax && kind < TypeBus
  {
    if nodes[kind].status == ResAllocated then
      Interval(GcdAddress(ap, kind, nodes[kind]), nodes[kind].length)
    else {}
  }

  function HeldMemory(ap: Apertures, nodes: seq<ResNode>): set<nat>
    requires |nodes| == TypeMax
  {
    Held(ap, nodes, TypeMem32) + Held(ap, nodes, TypePMem32) + Held(ap, nodes, TypeMem64) + Held(ap, nodes, TypePMem64)
  }

  /** What is left of the free addresses of one space once the nodes in `order` hold theirs. */
  function Left(ap: Apertures, nodes: seq<ResNode>, order: seq<nat>, isIo: bool, free: set<nat>): set<nat>
    requires |nodes| == TypeMax && forall k :: 0 <= k < |order| ==> order[k] < TypeBus
  {
    if order == [] then free
    else
      var last := order[|order| - 1];
      var before := Left(ap, nodes, order[..|order| - 1], isIo, free);
      if (last == TypeIo) == isIo then before - Held(ap, nodes, last) else before
  }

  lemma {:induction false} SameLeft(ap: Apertures, nodes: seq<ResNode>, nodes': seq<ResNode>, order: seq<nat>, isIo: bool, free: set<nat>)
    requires |nodes| == TypeMax && |nodes'| == TypeMax
    requires forall k :: 0 <= k < |order| ==> order[k] < TypeBus && Held(ap, nodes, order[k]) == Held(ap, nodes', order[k])
    ensures Left(ap, nodes, order, isIo, free) == Left(ap, nodes', order, isIo, free)
  {
    hide Held;
    if order != [] {
      SameLeft(ap, nodes, nodes', order[..|order| - 1], isIo, free);
    }
  }

  lemma {:induction false} LeftShrinks(ap: Apertures, nodes: seq<ResNode>, order: seq<nat>, k: nat, isIo: bool, free: set<nat>)
    requires |nodes| == TypeMax && k <= |order| && forall k :: 0 <= k < |order| ==> order[k] < TypeBus
    ensures Left(ap, nodes, order, isIo, free) <= Left(ap, nodes, order[..k], isIo, free)
  {
    hide Held;
    if k == |order| {
      assert order[..k] == order;
    } else {
      assert order[..|order| - 1][..k] == order[..k];
      LeftShrinks(ap, nodes, order[..|order| - 1], k, isIo, free);
    }
  }

  /** The memory nodes hold pairwise disjoint intervals, and no allocated node is empty. */
  ghost predicate Separate(ap: Apertures, nodes: seq<ResNode>)
    requires |nodes| == TypeMax
  {
    && (forall i, j :: TypeMem32 <= i < j < TypeBus ==> Held(ap, nodes, i) !! Held(ap, nodes, j))
    && (forall i :: 0 <= i < TypeBus && nodes[i].status == ResAllocated ==> 0 < nodes[i].length)
  }

  /** Everything the bridge and the two GCD spaces know. */
  datatype BridgeState = BridgeState(
    nodes: seq<ResNode>,
    ioFree: set<nat>, ioOwned: set<nat>,
    memFree: set<nat>, memOwned: set<nat>,
    resourceSubmitted: bool, canRestart: bool)

  /** The GCD intervals owned by the bridge are exactly those of its allocated nodes. */
  ghost predicate OwnsExactly(ap: Apertures, s: BridgeState) {
    && |s.nodes| == TypeMax
    && s.ioOwned == Held(ap, s.nodes, TypeIo)
    && s.memOwned == HeldMemory(ap, s.nodes)
    && Separate(ap, s.nodes)
    && s.ioFree !! s.ioOwned && s.memFree !! s.memOwned
  }

  ghost predicate NothingAllocated(s: BridgeState) {
    |s.nodes| == TypeMax && forall i :: 0 <= i < TypeBus ==> s.nodes[i].status != ResAllocated
  }

  /** The spaces as a whole neither grow nor shrink. */
  ghost predicate Conserved(s: BridgeState, s': BridgeState) {
    s.ioFree + s.ioOwned == s'.ioFree + s'.ioOwned && s.memFree + s.memOwned == s'.memFree + s'.memOwned
  }

  predicate SameSpaces(s: BridgeState, s': BridgeState) {
    s'.ioFree == s.ioFree && s'.ioOwned == s.ioOwned && s'.memFree == s.memFree && s'.memOwned == s.memOwned
  }

  lemma SpacesConserved(s: BridgeState, s': BridgeState)
    requires SameSpaces(s, s')
    ensures Conserved(s, s')
  {}

  /** Ownership looks at allocated nodes only. */
  lemma SameHeldNodes(ap: Apertures, s: BridgeState, s': BridgeState)
    requires OwnsExactly(ap, s) && SameSpaces(s, s') && |s'.nodes| == TypeMax
    requires forall i :: 0 <= i < TypeBus ==>
               s'.nodes[i] == s.nodes[i] || (s.nodes[i].status != ResAllocated && s'.nodes[i].status != ResAllocated)
    ensures OwnsExactly(ap, s') && Conserved(s, s')
  {
    assert forall i :: 0 <= i < TypeBus ==> Held(ap, s'.nodes, i) == Held(ap, s.nodes, i);
    hide Held;
    assert HeldMemory(ap, s'.nodes) == HeldMemory(ap, s.nodes);
    hide HeldMemory;
  }

  /** A change of one node is no change to what the others hold. */
  lemma HeldElsewhere(ap: Apertures, was: seq<ResNode>, now: seq<ResNode>, index: nat)
    requires |was| == TypeMax && |now| == TypeMax && index < TypeBus
    requires forall i :: 0 <= i < TypeMax && i != index ==> now[i] == was[i]
    ensures forall i :: 0 <= i < TypeBus && i != index ==> Held(ap, was, i) == Held(ap, now, i)
  {}

  lemma HeldInMemory(ap: Apertures, nodes: seq<ResNode>)
    requires |nodes| == TypeMax
    ensures forall i :: TypeMem32 <= i < TypeBus ==> Held(ap, nodes, i) <= HeldMemory(ap, nodes)
  {
    hide Held;
  }

  /** What the memory nodes hold when one of them, or the I/O node, gets an interval. */
  lemma GrantedMemory(ap: Apertures, was: seq<ResNode>, now: seq<ResNode>, kind: nat)
    requires |was| == TypeMax && |now| == TypeMax && kind < TypeBus && Held(ap, was, kind) == {}
    requires forall i :: 0 <= i < TypeBus && i != kind ==> Held(ap, was, i) == Held(ap, now, i)
    ensures HeldMemory(ap, now) == if kind == TypeIo then HeldMemory(ap, was) else HeldMemory(ap, was) + Held(ap, now, kind)
  {
    hide Held;
  }

  lemma GrantedSeparate(ap: Apertures, was: seq<ResNode>, now: seq<ResNode>, kind: nat)
    requires |was| == TypeMax && |now| == TypeMax && kind < TypeBus && Separate(ap, was)
    requires forall i :: 0 <= i < TypeMax && i != kind ==> now[i] == was[i]
    requires now[kind].status == ResAllocated ==> 0 < now[kind].length
    requires kind == TypeIo || Held(ap, now, kind) !! HeldMemory(ap, was)
    ensures Separate(ap, now)
  {
    HeldElsewhere(ap, was, now, kind);
    HeldInMemory(ap, was);
    hide Held, HeldMemory;
  }

  /** What they hold when one of them gives back its interval. */
  lemma ReleasedMemory(ap: Apertures, was: seq<ResNode>, now: seq<ResNode>, kind: nat)
    requires |was| == TypeMax && |now| == TypeMax && kind < TypeBus && Held(ap, now, kind) == {} && Separate(ap, was)
    requires forall i :: 0 <= i < TypeBus && i != kind ==> Held(ap, was, i) == Held(ap, now, i)
    ensures HeldMemory(ap, now) == if kind == TypeIo then HeldMemory(ap, was) else HeldMemory(ap, was) - Held(ap, was, kind)
  {
    hide Held;
  }

  /** Granting `interval` to a node that held nothing keeps the ownership exact. */
  lemma GrantKeepsOwnership(ap: Apertures, s: BridgeState, kind: nat, n: ResNode, interval: set<nat>, s': BridgeState)
    requires OwnsExactly(ap, s) && kind < TypeBus && s.nodes[kind].status != ResAllocated
    requires n.status == ResAllocated && 0 < n.length && interval == Interval(GcdAddress(ap, kind, n), n.length)
    requires s'.nodes == s.nodes[kind := n]
    requires kind == TypeIo ==>
               && interval <= s.ioFree && s'.ioFree == s.ioFree - interval && s'.ioOwned == s.ioOwned + interval
               && s'.memFree == s.memFree && s'.memOwned == s.memOwned
    requires kind != TypeIo ==>
               && interval <= s.memFree && s'.memFree == s.memFree - interval && s'.memOwned == s.memOwned + interval
               && s'.ioFree == s.ioFree && s'.ioOwned == s.ioOwned
    ensures OwnsExactly(ap, s') && Conserved(s, s')
  {
    HeldElsewhere(ap, s.nodes, s'.nodes, kind);
    assert Held(ap, s.nodes, kind) == {} && Held(ap, s'.nodes, kind) == interval;
    hide Held, HeldMemory, Separate, Interval, GcdAddress;
    GrantedMemory(ap, s.nodes, s'.nodes, kind);
    GrantedSeparate(ap, s.nodes, s'.nodes, kind);
  }

  /** Giving a node's interval back keeps the ownership exact. */
  lemma ReleaseKeepsOwnership(ap: Apertures, s: BridgeState, kind: nat, s': BridgeState)
    requires OwnsExactly(ap, s) && kind < TypeBus && s.nodes[kind].status == ResAllocated
    requires s'.nodes == s.nodes[kind := Cleared(s.nodes[kind])]
    requires var interval := Held(ap, s.nodes, kind);
             if kind == TypeIo then
               && s'.ioFree == s.ioFree + interval && s'.ioOwned == s.ioOwned - interval
               && s'.memFree == s.memFree && s'.memOwned == s.memOwned
             else
               && s'.memFree == s.memFree + interval && s'.memOwned == s.memOwned - interval
               && s'.ioFree == s.ioFree && s'.ioOwned == s.ioOwned
    ensures OwnsExactly(ap, s') && Conserved(s, s')
  {
    HeldElsewhere(ap, s.nodes, s'.nodes, kind);
    HeldInMemory(ap, s.nodes);
    assert Held(ap, s'.nodes, kind) == {};
    hide Held, HeldMemory, Separate, Interval, GcdAddress;
    ReleasedMemory(ap, s.nodes, s'.nodes, kind);
    GrantedSeparate(ap, s.nodes, s'.nodes, kind);
  }
}
