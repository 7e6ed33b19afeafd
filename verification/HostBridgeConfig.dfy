/**
  What the PCI host bridge reports after an allocation, and the take-over of a
  configuration made by earlier firmware (HostBridgeKeepExistingConfig and its
  undoing).
 */
module HostBridgeConfig {
  import opened Uefi
  import opened GcdSpace
  import opened PciRange
  import opened HostBridgeNodes
  import opened HostBridge
  import opened HostBridgePhases

  /** One descriptor returned by HostBridgeGetProposedResources. */
  datatype Proposal = Proposal(resType: ResType, granularity: nat, prefetchable: bool, addrRangeMin: u64, addrLen: u64,
                               satisfied: bool)

  function ProposalFor(ap: Apertures, kind: nat, n: ResNode): Proposal
    requires kind < TypeBus
  {
    Proposal(if kind == TypeIo then IoRes else MemRes,
             if kind == TypeIo then 0 else if kind == TypeMem32 || kind == TypePMem32 then 32 else 64,
             kind == TypePMem32 || kind == TypePMem64,
             ToDeviceAddress(n.base, RT(ApertureOf(ap, kind))), n.length, n.status == ResAllocated)
  }

  /** A proposal is for the kind of resource its node was requested for, and says whether and
      how much of it was granted. */
  lemma ProposalTells(ap: Apertures, kind: nat, n: ResNode, alignment: u64)
    requires kind < TypeBus
    ensures var p := ProposalFor(ap, kind, n);
            && KindOf(Descriptor(p.resType, p.granularity, p.prefetchable, p.addrLen, alignment)) == kind
            && p.addrLen == n.length && (p.satisfied <==> n.status == ResAllocated)
            && (p.resType == IoRes || (p.resType == MemRes && (p.granularity == 32 || p.granularity == 64)))
            && (p.resType == IoRes ==> ToHostAddress(p.addrRangeMin, RT(ap.io)) == n.base)
            && (p.resType == MemRes ==>
                  ToHostAddress(p.addrRangeMin,
                                RT(if p.granularity == 32 then (if p.prefetchable then ap.pmem else ap.mem)
                                   else (if p.prefetchable then ap.pmem64 else ap.mem64))) == n.base)
  {
    hide ToHostAddress, ToDeviceAddress, RT;
    HostDeviceRoundTrip(n.base, RT(ApertureOf(ap, kind)));
  }

  /** HostBridgeGetProposedResources: one descriptor for every requested node, in
      the order of the resource types; `kinds` lists those. */
  method GetProposedResources(rb: RootBridge) returns (proposals: seq<Proposal>, ghost kinds: seq<nat>)
    requires rb.Wired()
    ensures |proposals| == |kinds|
    ensures forall k :: 0 <= k < |kinds| ==>
              && Wanted(rb.nodes[..], kinds[k])
              && proposals[k] == ProposalFor(rb.ap, kinds[k], rb.nodes[kinds[k]])
    ensures forall j, k :: 0 <= j < k < |kinds| ==> kinds[j] < kinds[k]
    ensures |proposals| == |WantedBelow(rb.nodes[..], TypeBus)|
  {
    proposals, kinds := [], [];
    var index := 0;
    assert WantedBelow(rb.nodes[..], 0) == {};
    hide WantedBelow;
    while index < TypeBus
      invariant index <= TypeBus
      invariant |proposals| == |kinds|
      invariant forall k :: 0 <= k < |kinds| ==>
                  && Wanted(rb.nodes[..], kinds[k]) && kinds[k] < index
                  && proposals[k] == ProposalFor(rb.ap, kinds[k], rb.nodes[kinds[k]])
      invariant forall j, k :: 0 <= j < k < |kinds| ==> kinds[j] < kinds[k]
      invariant |proposals| == |WantedBelow(rb.nodes[..], index)|
    {
      WantedBelowStep(rb.nodes[..], index);
      if rb.nodes[index].status != ResNone {
        proposals := proposals + [ProposalFor(rb.ap, index, rb.nodes[index])];
        kinds := kinds + [index];
      }
      index := index + 1;
    }
  }

  /** A grant inside the aperture of its kind is reported by the device address
      that decodes to it. */
  lemma ProposalDecodes(ap: Apertures, kind: nat, n: ResNode, x: nat)
    requires kind < TypeBus && n.status == ResAllocated && x < n.length
    requires WellPlaced(ApertureOf(ap, kind)) && InWindow(ApertureOf(ap, kind), n.base, n.length)
    ensures var w := ApertureOf(ap, kind);
            var p := ProposalFor(ap, kind, n);
            && RB(w) <= p.addrRangeMin && p.addrRangeMin + p.addrLen <= RB(w) + RS(w)
            && ToHostAddress(p.addrRangeMin + x, RT(w)) == n.base + x
  {
    var w := ApertureOf(ap, kind);
    WindowTranslation(w, n.base - HB(w));
    WindowTranslation(w, n.base - HB(w) + x);
  }

  /** A 64-bit request that fell back to the window below 4GB is reported with the
      translation of its own window, which is right if and only if the two agree. */
  lemma FallbackReportedRightIff(ap: Apertures, kind: nat, n: ResNode)
    requires TypeMem64 <= kind < TypeBus && n.status == ResAllocated
    requires InWindow(FallbackOf(ap, kind), n.base, n.length)
    ensures ToHostAddress(ProposalFor(ap, kind, n).addrRangeMin, RT(FallbackOf(ap, kind))) == n.base
            <==> RT(ApertureOf(ap, kind)) == RT(FallbackOf(ap, kind))
  {
    hide Wrap64, RT, ApertureOf, FallbackOf, InWindow;
    var t, f := RT(ApertureOf(ap, kind)), RT(FallbackOf(ap, kind));
    HostDeviceRoundTrip(n.base, f);
    if ToHostAddress(ToDeviceAddress(n.base, t), f) == n.base {
      SameShift(n.base, t, f);
    }
  }

  /** It really happens: on a bridge without a window above 4GB whose window below 4GB
      translates, every 64-bit request that is granted is reported wrong. */
  lemma FallbackIsMisreported(ap: Apertures, kind: nat, s: BridgeState, s': BridgeState, order: seq<nat>, status: Status)
    requires TypeMem64 <= kind < TypeBus
    requires Disabled(ApertureOf(ap, kind)) && RT(FallbackOf(ap, kind)) != 0
    requires AllocationResult(ap, s, s', order, status) && s'.nodes[kind].status == ResAllocated
    ensures ToHostAddress(ProposalFor(ap, kind, s'.nodes[kind]).addrRangeMin, RT(FallbackOf(ap, kind))) != s'.nodes[kind].base
  {
    hide AllSettled;
    assert AllocatedOrDropped(ap, kind, s.nodes[kind], s'.nodes[kind]);
    DisabledLimit();
    FallbackReportedRightIff(ap, kind, s'.nodes[kind]);
  }

  lemma SameShift(x: u64, t: u64, f: u64)
    requires Wrap64(Wrap64(x + t) - f) == x
    ensures t == f
  {
    var a := (x + t) / TWO_64;
    var b := (Wrap64(x + t) - f) / TWO_64;
    assert x + t - a * TWO_64 - f - b * TWO_64 == x;
  }

  /** Only nodes the GCD knows about. */
  function TrackedOnly(nodes: seq<ResNode>): (r: seq<ResNode>)
    ensures |r| == |nodes|
    ensures forall i :: 0 <= i < |nodes| ==> r[i] == if nodes[i].tracked then nodes[i] else nodes[i].(status := ResNone)
  {
    seq(|nodes|, i requires 0 <= i < |nodes| => if nodes[i].tracked then nodes[i] else nodes[i].(status := ResNone))
  }

  /** The bridge owns exactly what its tracked nodes hold. */
  ghost predicate OwnsTracked(ap: Apertures, s: BridgeState) {
    OwnsExactly(ap, s.(nodes := TrackedOnly(s.nodes)))
  }

  /** The aperture does not wrap, and the search for its own place in it stops. */
  predicate Keepable(r: Range, isIo: bool) {
    RangeValid(r) ==>
      && WellPlaced(r)
      && (r.indirect || Stops(RS(r), 1, WindowBase(r, isIo), WindowBase(r, isIo) + RS(r) - 1))
  }

  predicate RangeValid(r: Range) { r.length != 0 }

  /** A direct aperture can be taken over when its base is even, it has at least
      two bytes, and nobody owns any of it. */
  predicate Takeable(r: Range, isIo: bool, free: set<nat>) {
    WindowBase(r, isIo) % 2 == 0 && 2 <= RS(r) && Interval(WindowBase(r, isIo), RS(r)) <= free
  }

  lemma TakeableIffCandidate(r: Range, isIo: bool, free: set<nat>, b: nat)
    requires WellPlaced(r) && 2 <= RS(r)
    ensures var start := WindowBase(r, isIo);
            Candidate(free, b, RS(r), 1, start, start + RS(r) - 1) <==> b == start && Takeable(r, isIo, free)
  {
    assert Pow2(1) == 2 * Pow2(0);
  }

  function KeptNode(r: Range, n: ResNode, tracked: bool, isBus: bool): ResNode {
    n.(base := if tracked && !isBus then HB(r) else RB(r), length := RS(r), status := ResAllocated, tracked := tracked)
  }

  /** The allocation for one direct aperture, I/O or memory. */
  method TakeAperture(space: Space, r: Range, isIo: bool) returns (base: u64)
    requires RangeValid(r) && !r.indirect && Keepable(r, isIo)
    modifies space
    ensures base == (if Takeable(r, isIo, old(space.free)) then HB(r) else MAX_UINT64)
    ensures var taken := if base == MAX_UINT64 then {} else Interval(WindowBase(r, isIo), RS(r));
            && taken <= old(space.free)
            && space.free == old(space.free) - taken && space.owned == old(space.owned) + taken
  {
    WindowTranslation(r, 0);
    assert Pow2(1) == 2 by { assert Pow2(1) == 2 * Pow2(0); }
    var start: u64 := if isIo then RB(r) else ToHostAddress(RB(r), RT(r));
    ghost var before := space.free;
    hide Interval, AlignUp, Pow2, Takeable, Candidate, Stops, RB, RS, HB, RT, ToHostAddress;
    base := AllocateResource(space, RS(r), 1, start, start + RS(r) - 1);
    if RS(r) >= 2 {
      TakeableIffCandidate(r, isIo, before, start);
      TakeableIffCandidate(r, isIo, before, base);
    } else {
      NotTakeable(r, isIo, before);
    }
    if isIo && base != MAX_UINT64 {
      base := ToHostAddress(base, RT(r));
    }
  }

  lemma NotTakeable(r: Range, isIo: bool, free: set<nat>)
    ensures RS(r) < 2 ==> !Takeable(r, isIo, free)
  {}

  /** Changing a node that stays untracked does not change what is owned. */
  lemma UntrackedKeepsOwnership(ap: Apertures, s: BridgeState, kind: nat, s': BridgeState)
    requires OwnsTracked(ap, s) && SameSpaces(s, s') && kind < TypeMax && |s.nodes| == |s'.nodes| == TypeMax
    requires forall i :: 0 <= i < TypeMax && i != kind ==> s'.nodes[i] == s.nodes[i]
    requires kind == TypeBus || (!s.nodes[kind].tracked && !s'.nodes[kind].tracked)
    ensures OwnsTracked(ap, s') && Conserved(s, s')
  {
    hide OwnsExactly, Conserved;
    SameHeldNodes(ap, s.(nodes := TrackedOnly(s.nodes)), s'.(nodes := TrackedOnly(s'.nodes)));
    SpacesConserved(s, s');
  }

  lemma KeptAddress(ap: Apertures, kind: nat, n: ResNode)
    requires kind < TypeBus && WellPlaced(ApertureOf(ap, kind))
    ensures var r := ApertureOf(ap, kind);
            GcdAddress(ap, kind, KeptNode(r, n, true, false)) == WindowBase(r, kind == TypeIo)
  {
    WindowTranslation(ApertureOf(ap, kind), 0);
  }

  lemma TakenKeepsOwnership(ap: Apertures, s: BridgeState, kind: nat, s': BridgeState)
    requires OwnsTracked(ap, s) && kind < TypeBus && |s.nodes| == TypeMax
    requires WellPlaced(ApertureOf(ap, kind))
    requires !s.nodes[kind].tracked && s'.nodes == s.nodes[kind := KeptNode(ApertureOf(ap, kind), s.nodes[kind], true, false)]
    requires var interval := Interval(WindowBase(ApertureOf(ap, kind), kind == TypeIo), RS(ApertureOf(ap, kind)));
             if kind == TypeIo then
               && interval <= s.ioFree && s'.ioFree == s.ioFree - interval && s'.ioOwned == s.ioOwned + interval
               && s'.memFree == s.memFree && s'.memOwned == s.memOwned
             else
               && interval <= s.memFree && s'.memFree == s.memFree - interval && s'.memOwned == s.memOwned + interval
               && s'.ioFree == s.ioFree && s'.ioOwned == s.ioOwned
    ensures OwnsTracked(ap, s') && Conserved(s, s')
  {
    var n := KeptNode(ApertureOf(ap, kind), s.nodes[kind], true, false);
    KeptAddress(ap, kind, s.nodes[kind]);
    assert 0 < n.length;
    hide Interval, GcdAddress, WindowBase, OwnsExactly, RS, RB, HB, RT;
    var t, t' := s.(nodes := TrackedOnly(s.nodes)), s'.(nodes := TrackedOnly(s'.nodes));
    assert t'.nodes == t.nodes[kind := n];
    GrantKeepsOwnership(ap, t, kind, n, Interval(GcdAddress(ap, kind, n), n.length), t');
  }

  /** One aperture has been taken over or left alone, as what was free allowed, and what
      is free now is what it leaves. */
  ghost predicate KeptOne(ap: Apertures, s: BridgeState, s': BridgeState, kind: nat)
    requires kind < TypeBus
  {
    && |s.nodes| == TypeMax && |s'.nodes| == TypeMax
    && OwnsTracked(ap, s') && Conserved(s, s')
    && (forall i :: 0 <= i < TypeMax && i != kind ==> s'.nodes[i] == s.nodes[i])
    && s'.nodes[kind] == KeptOrLeft(ApertureOf(ap, kind), kind == TypeIo, s.nodes[kind], FreeOf(kind, s.ioFree, s.memFree))
    && var held := Held(ap, TrackedOnly(s'.nodes), kind);
       && s'.ioFree == (if kind == TypeIo then s.ioFree - held else s.ioFree)
       && s'.memFree == (if kind == TypeIo then s.memFree else s.memFree - held)
  }

  lemma LeftAlone(ap: Apertures, s: BridgeState, s': BridgeState, kind: nat)
    requires kind < TypeBus && |s.nodes| == TypeMax && OwnsTracked(ap, s) && SameSpaces(s, s') && s'.nodes == s.nodes
    requires s.nodes[kind].status != ResAllocated
    requires var r := ApertureOf(ap, kind);
             RangeValid(r) ==> !r.indirect && !Takeable(r, kind == TypeIo, FreeOf(kind, s.ioFree, s.memFree))
    ensures KeptOne(ap, s, s', kind)
  {
    hide Interval, OwnsExactly, Takeable;
    assert s.(nodes := TrackedOnly(s.nodes)).nodes == s'.(nodes := TrackedOnly(s'.nodes)).nodes;
    SameHeldNodes(ap, s.(nodes := TrackedOnly(s.nodes)), s'.(nodes := TrackedOnly(s'.nodes)));
    SpacesConserved(s, s');
  }

  lemma KeptIndirect(ap: Apertures, s: BridgeState, s': BridgeState, kind: nat)
    requires kind < TypeBus && |s.nodes| == TypeMax && OwnsTracked(ap, s) && SameSpaces(s, s') && !s.nodes[kind].tracked
    requires var r := ApertureOf(ap, kind);
             RangeValid(r) && r.indirect && s'.nodes == s.nodes[kind := KeptNode(r, s.nodes[kind], false, false)]
    ensures KeptOne(ap, s, s', kind)
  {
    hide OwnsTracked, Interval;
    UntrackedKeepsOwnership(ap, s, kind, s');
    hide Conserved;
  }

  lemma KeptDirect(ap: Apertures, s: BridgeState, s': BridgeState, kind: nat)
    requires kind < TypeBus && |s.nodes| == TypeMax && OwnsTracked(ap, s') && Conserved(s, s')
    requires var r, free := ApertureOf(ap, kind), FreeOf(kind, s.ioFree, s.memFree);
             && WellPlaced(r) && RangeValid(r) && !r.indirect && Takeable(r, kind == TypeIo, free)
             && s'.nodes == s.nodes[kind := KeptNode(r, s.nodes[kind], true, false)]
             && var taken := Interval(WindowBase(r, kind == TypeIo), RS(r));
                && s'.ioFree == (if kind == TypeIo then s.ioFree - taken else s.ioFree)
                && s'.memFree == (if kind == TypeIo then s.memFree else s.memFree - taken)
    ensures KeptOne(ap, s, s', kind)
  {
    KeptAddress(ap, kind, s.nodes[kind]);
    hide OwnsTracked, Interval, Takeable, RB, HB, RS, RT, GcdAddress, WindowBase;
    assert TrackedOnly(s'.nodes)[kind] == s'.nodes[kind];
  }

  /** HostBridgeKeepExistingConfig for one I/O or memory aperture. */
  method KeepAperture(rb: RootBridge, kind: nat)
    requires rb.Wired() && kind < TypeBus && Keepable(ApertureOf(rb.ap, kind), kind == TypeIo)
    requires OwnsTracked(rb.ap, rb.State())
    requires !rb.nodes[kind].tracked && rb.nodes[kind].status != ResAllocated
    modifies rb.nodes, rb.io, rb.mem
    ensures KeptOne(rb.ap, old(rb.State()), rb.State(), kind)
  {
    ghost var s := rb.State();
    var r, n := ApertureOf(rb.ap, kind), rb.nodes[kind];
    hide OwnsTracked, KeptOne, KeptNode, Takeable, Interval, RB, RS, HB, RT, WellPlaced, Stops;
    if RangeValid(r) && r.indirect {
      rb.nodes[kind] := KeptNode(r, n, false, false);
      KeptIndirect(rb.ap, s, rb.State(), kind);
    } else if RangeValid(r) {
      var base;
      if kind == TypeIo {
        base := TakeAperture(rb.io, r, true);
      } else {
        base := TakeAperture(rb.mem, r, false);
      }
      if base != MAX_UINT64 {
        rb.nodes[kind] := KeptNode(r, n, true, false);
        TakenKeepsOwnership(rb.ap, s, kind, rb.State());
        KeptDirect(rb.ap, s, rb.State(), kind);
      } else {
        LeftAlone(rb.ap, s, rb.State(), kind);
      }
    } else {
      LeftAlone(rb.ap, s, rb.State(), kind);
    }
  }

  /** HostBridgeKeepExistingConfig. */
  method KeepExistingConfig(rb: RootBridge, busRange: Range)
    requires rb.Wired() && forall kind :: 0 <= kind < TypeBus ==> Keepable(ApertureOf(rb.ap, kind), kind == TypeIo)
    requires OwnsTracked(rb.ap, rb.State())
    requires forall i :: 0 <= i < TypeMax ==> rb.nodes[i].status != ResAllocated && !rb.nodes[i].tracked
    modifies rb.nodes, rb.io, rb.mem
    ensures OwnsTracked(rb.ap, rb.State()) && Conserved(old(rb.State()), rb.State())
    ensures KeptInTurn(rb.ap, old(rb.State()), rb.State(), TypeBus)
    ensures rb.nodes[TypeBus] ==
              if RangeValid(busRange) then KeptNode(busRange, old(rb.nodes[TypeBus]), !busRange.indirect, true)
              else old(rb.nodes[TypeBus])
  {
    ghost var start := rb.State();
    hide OwnsTracked, Conserved, Keepable, KeptNode, KeptInTurn, KeptOne;
    ConservedReflexive(start);
    NothingKeptYet(rb.ap, start);
    var index := TypeIo;
    while index < TypeBus
      invariant index <= TypeBus
      invariant OwnsTracked(rb.ap, rb.State()) && Conserved(start, rb.State())
      invariant KeptInTurn(rb.ap, start, rb.State(), index)
      invariant forall i :: index <= i < TypeMax ==> rb.nodes[i] == start.nodes[i]
    {
      ghost var s := rb.State();
      KeepAperture(rb, index);
      KeptOneMore(rb.ap, start, s, rb.State(), index);
      index := index + 1;
    }
    ghost var s := rb.State();
    if RangeValid(busRange) {
      rb.nodes[TypeBus] := KeptNode(busRange, rb.nodes[TypeBus], !busRange.indirect, true);
    }
    UntrackedKeepsOwnership(rb.ap, s, TypeBus, rb.State());
    ConservedTransitive(start, s, rb.State());
    BusIsNotInTurn(rb.ap, start, s, rb.State());
  }

  /** An aperture is taken over whole, by host address when it is direct and free, and
      left alone otherwise. */
  function KeptOrLeft(r: Range, isIo: bool, n: ResNode, free: set<nat>): ResNode {
    if RangeValid(r) && (r.indirect || Takeable(r, isIo, free)) then KeptNode(r, n, !r.indirect, false) else n
  }

  /** The kinds below `kind`, in the order they are taken over. */
  function KindsBelow(kind: nat): seq<nat> { seq(kind, k => k) }

  /** What is free for an aperture at its turn. */
  function FreeToKeep(ap: Apertures, s: BridgeState, nodes: seq<ResNode>, kind: nat): set<nat>
    requires |nodes| == TypeMax && kind < TypeBus
  {
    Left(ap, TrackedOnly(nodes), KindsBelow(kind), kind == TypeIo, FreeOf(kind, s.ioFree, s.memFree))
  }

  /** The first n apertures have been taken over or left, each as what was free at its
      turn allowed, and what is free now is what they leave. */
  ghost predicate KeptInTurn(ap: Apertures, s: BridgeState, s': BridgeState, n: nat) {
    && |s.nodes| == TypeMax && |s'.nodes| == TypeMax && n <= TypeBus
    && (forall i :: 0 <= i < n ==>
          s'.nodes[i] == KeptOrLeft(ApertureOf(ap, i), i == TypeIo, s.nodes[i], FreeToKeep(ap, s, s'.nodes, i)))
    && s'.ioFree == Left(ap, TrackedOnly(s'.nodes), KindsBelow(n), true, s.ioFree)
    && s'.memFree == Left(ap, TrackedOnly(s'.nodes), KindsBelow(n), false, s.memFree)
  }

  lemma NothingKeptYet(ap: Apertures, s: BridgeState)
    requires |s.nodes| == TypeMax
    ensures KeptInTurn(ap, s, s, 0)
  {}

  lemma SameFreeToKeep(ap: Apertures, s: BridgeState, nodes: seq<ResNode>, nodes': seq<ResNode>, n: nat, isIo: bool, free: set<nat>)
    requires |nodes| == TypeMax && |nodes'| == TypeMax && n <= TypeBus && forall i :: 0 <= i < n ==> nodes'[i] == nodes[i]
    ensures Left(ap, TrackedOnly(nodes), KindsBelow(n), isIo, free) == Left(ap, TrackedOnly(nodes'), KindsBelow(n), isIo, free)
  {
    hide Interval, GcdAddress;
    SameLeft(ap, TrackedOnly(nodes), TrackedOnly(nodes'), KindsBelow(n), isIo, free);
  }

  lemma KeptOneMore(ap: Apertures, start: BridgeState, s: BridgeState, s': BridgeState, n: nat)
    requires KeptInTurn(ap, start, s, n) && n < TypeBus && |s'.nodes| == TypeMax && s.nodes[n] == start.nodes[n]
    requires KeptOne(ap, s, s', n) && Conserved(start, s)
    ensures KeptInTurn(ap, start, s', n + 1) && OwnsTracked(ap, s') && Conserved(start, s')
    ensures forall i :: 0 <= i < TypeMax && i != n ==> s'.nodes[i] == s.nodes[i]
  {
    hide Held, KeptOrLeft, TrackedOnly, OwnsTracked, Conserved;
    ConservedTransitive(start, s, s');
    assert KindsBelow(n + 1)[..n] == KindsBelow(n);
    SameFreeToKeep(ap, start, s.nodes, s'.nodes, n, true, start.ioFree);
    SameFreeToKeep(ap, start, s.nodes, s'.nodes, n, false, start.memFree);
    forall i | 0 <= i < n + 1
      ensures s'.nodes[i] == KeptOrLeft(ApertureOf(ap, i), i == TypeIo, start.nodes[i], FreeToKeep(ap, start, s'.nodes, i))
    {
      SameFreeToKeep(ap, start, s.nodes, s'.nodes, i, i == TypeIo, FreeOf(i, start.ioFree, start.memFree));
    }
  }

  lemma BusIsNotInTurn(ap: Apertures, start: BridgeState, s: BridgeState, s': BridgeState)
    requires KeptInTurn(ap, start, s, TypeBus) && |s'.nodes| == TypeMax && s'.ioFree == s.ioFree && s'.memFree == s.memFree
    requires forall i :: 0 <= i < TypeBus ==> s'.nodes[i] == s.nodes[i]
    ensures KeptInTurn(ap, start, s', TypeBus)
  {
    hide Held, KeptOrLeft, TrackedOnly;
    SameFreeToKeep(ap, start, s.nodes, s'.nodes, TypeBus, true, start.ioFree);
    SameFreeToKeep(ap, start, s.nodes, s'.nodes, TypeBus, false, start.memFree);
    forall i | 0 <= i < TypeBus
      ensures s'.nodes[i] == KeptOrLeft(ApertureOf(ap, i), i == TypeIo, start.nodes[i], FreeToKeep(ap, start, s'.nodes, i))
    {
      SameFreeToKeep(ap, start, s.nodes, s'.nodes, i, i == TypeIo, FreeOf(i, start.ioFree, start.memFree));
    }
  }

  predicate Tracked(n: ResNode) { n.status == ResAllocated && n.tracked }

  /** Some aperture is tracked, so the status variable is assigned on the way. */
  ghost predicate ApertureTracked(nodes: seq<ResNode>)
    requires |nodes| == TypeMax
  {
    TrackedBelow(nodes, TypeBus)
  }

  ghost predicate TrackedBelow(nodes: seq<ResNode>, n: nat)
    requires n <= |nodes|
  {
    exists i :: 0 <= i < n && Tracked(nodes[i])
  }

  lemma NextTracked(nodes: seq<ResNode>, n: nat)
    requires n < |nodes|
    ensures TrackedBelow(nodes, n + 1) <==> TrackedBelow(nodes, n) || Tracked(nodes[n])
    ensures !TrackedBelow(nodes, 0)
  {
    hide Tracked;
  }

  /** HostBridgeFreeExistingConfig.  The status variable is tested for the bus range
      too; if the bus range is all that is tracked, nothing has been assigned to it. */
  method FreeExistingConfig(rb: RootBridge) returns (status: Status, testedUnassigned: bool)
    requires rb.Wired() && OwnsTracked(rb.ap, rb.State())
    modifies rb.nodes, rb.io, rb.mem
    ensures OwnsTracked(rb.ap, rb.State())
    ensures rb.io.owned == {} && rb.io.free == old(rb.io.free) + old(rb.io.owned)
    ensures rb.mem.owned == {} && rb.mem.free == old(rb.mem.free) + old(rb.mem.owned)
    ensures forall i :: 0 <= i < TypeBus ==> rb.nodes[i] == Untaken(old(rb.nodes[i]))
    ensures status == Success ==> rb.nodes[TypeBus] == Untaken(old(rb.nodes[TypeBus]))
    ensures testedUnassigned <==> Tracked(old(rb.nodes[TypeBus])) && !ApertureTracked(old(rb.nodes[..]))
    ensures !testedUnassigned ==> status == Success
  {
    hide OwnsTracked, Tracked;
    var local := FreeApertures(rb);
    status, testedUnassigned := FreeBus(rb, local);
  }

  /** The walk over the I/O and memory nodes; the status is that of the last freeing. */
  method FreeApertures(rb: RootBridge) returns (local: Variable)
    requires rb.Wired() && OwnsTracked(rb.ap, rb.State())
    modifies rb.nodes, rb.io, rb.mem
    ensures OwnsTracked(rb.ap, rb.State())
    ensures rb.io.owned == {} && rb.io.free == old(rb.io.free) + old(rb.io.owned)
    ensures rb.mem.owned == {} && rb.mem.free == old(rb.mem.free) + old(rb.mem.owned)
    ensures forall i :: 0 <= i < TypeBus ==> rb.nodes[i] == Untaken(old(rb.nodes[i]))
    ensures rb.nodes[TypeBus] == old(rb.nodes[TypeBus])
    ensures local == if ApertureTracked(old(rb.nodes[..])) then Assigned(Success) else Unassigned
  {
    local := Unassigned;
    ghost var start := rb.State();
    hide OwnsTracked, Conserved, Tracked, Untaken, TrackedBelow;
    ConservedReflexive(start);
    NextTracked(start.nodes, 0);
    var index := TypeIo;
    while index < TypeBus
      invariant index <= TypeBus
      invariant OwnsTracked(rb.ap, rb.State()) && Conserved(start, rb.State())
      invariant forall i :: 0 <= i < index ==> rb.nodes[i] == Untaken(start.nodes[i])
      invariant forall i :: index <= i < TypeMax ==> rb.nodes[i] == start.nodes[i]
      invariant local == if TrackedBelow(start.nodes, index) then Assigned(Success) else Unassigned
    {
      ghost var s := rb.State();
      NextTracked(start.nodes, index);
      local := FreeAperture(rb, index, local);
      ConservedTransitive(start, s, rb.State());
      index := index + 1;
    }
    AllUntaken(start.nodes, rb.nodes[..]);
    NoneTrackedOwnsNothing(rb.ap, rb.State());
    SpacesRestored(start, rb.State());
  }

  lemma AllUntaken(was: seq<ResNode>, now: seq<ResNode>)
    requires |was| == |now| == TypeMax && forall i :: 0 <= i < TypeBus ==> now[i] == Untaken(was[i])
    ensures forall i :: 0 <= i < TypeBus ==> now[i].status != ResAllocated
  {}

  /** The end of the walk: the bus range holds no addresses of the GCD. */
  method FreeBus(rb: RootBridge, local: Variable) returns (status: Status, testedUnassigned: bool)
    requires rb.Wired() && OwnsTracked(rb.ap, rb.State())
    modifies rb.nodes
    ensures OwnsTracked(rb.ap, rb.State())
    ensures testedUnassigned <==> Tracked(old(rb.nodes[TypeBus])) && local == Unassigned
    ensures Tracked(old(rb.nodes[TypeBus])) && local != Unassigned ==> status == local.value
    ensures !Tracked(old(rb.nodes[TypeBus])) ==> status == Success
    ensures forall i :: 0 <= i < TypeBus ==> rb.nodes[i] == old(rb.nodes[i])
    ensures rb.nodes[TypeBus] == if status == Success then Untaken(old(rb.nodes[TypeBus])) else old(rb.nodes[TypeBus])
  {
    ghost var s := rb.State();
    hide OwnsTracked;
    testedUnassigned := false;
    if Tracked(rb.nodes[TypeBus]) {
      testedUnassigned := local == Unassigned;
      var noise: Status := *;
      var tested := if local == Unassigned then noise else local.value;
      if tested.IsError() {
        return tested, testedUnassigned;
      }
    }
    rb.nodes[TypeBus] := Untaken(rb.nodes[TypeBus]);
    UntrackedKeepsOwnership(rb.ap, s, TypeBus, rb.State());
    return Success, testedUnassigned;
  }

  function Untaken(n: ResNode): ResNode {
    if n.status == ResAllocated then Cleared(n).(tracked := false) else n
  }

  /** The freeing of one I/O or memory node. */
  method FreeAperture(rb: RootBridge, kind: nat, status: Variable) returns (status': Variable)
    requires rb.Wired() && kind < TypeBus && OwnsTracked(rb.ap, rb.State())
    modifies rb.nodes, rb.io, rb.mem
    ensures status' == if Tracked(old(rb.nodes[kind])) then Assigned(Success) else status
    ensures OwnsTracked(rb.ap, rb.State()) && Conserved(old(rb.State()), rb.State())
    ensures rb.nodes[..] == old(rb.nodes[..])[kind := Untaken(old(rb.nodes[kind]))]
  {
    status' := status;
    ghost var s := rb.State();
    var n := rb.nodes[kind];
    hide Interval, Conserved, OwnsTracked;
    ConservedReflexive(s);
    if Tracked(n) {
      TrackedIsOwned(rb.ap, s, kind);
      var freed;
      if kind == TypeIo {
        freed := rb.io.Free(ToDeviceAddress(n.base, RT(rb.ap.io)), n.length);
      } else {
        freed := rb.mem.Free(n.base, n.length);
      }
      status' := Assigned(freed);
      rb.nodes[kind] := Untaken(n);
      UntakenKeepsOwnership(rb.ap, s, kind, rb.State());
    } else if n.status == ResAllocated {
      rb.nodes[kind] := Untaken(n);
      UntrackedKeepsOwnership(rb.ap, s, kind, rb.State());
    }
  }

  lemma TrackedIsOwned(ap: Apertures, s: BridgeState, kind: nat)
    requires OwnsTracked(ap, s) && kind < TypeBus && |s.nodes| == TypeMax && Tracked(s.nodes[kind])
    ensures var interval := Interval(GcdAddress(ap, kind, s.nodes[kind]), s.nodes[kind].length);
            && 0 < s.nodes[kind].length
            && interval <= if kind == TypeIo then s.ioOwned else s.memOwned
  {
    HeldIsOwned(ap, s.(nodes := TrackedOnly(s.nodes)), kind);
  }

  lemma UntakenKeepsOwnership(ap: Apertures, s: BridgeState, kind: nat, s': BridgeState)
    requires OwnsTracked(ap, s) && kind < TypeBus && |s.nodes| == TypeMax && Tracked(s.nodes[kind])
    requires s'.nodes == s.nodes[kind := Untaken(s.nodes[kind])]
    requires var interval := Interval(GcdAddress(ap, kind, s.nodes[kind]), s.nodes[kind].length);
             if kind == TypeIo then
               && s'.ioFree == s.ioFree + interval && s'.ioOwned == s.ioOwned - interval
               && s'.memFree == s.memFree && s'.memOwned == s.memOwned
             else
               && s'.memFree == s.memFree + interval && s'.memOwned == s.memOwned - interval
               && s'.ioFree == s.ioFree && s'.ioOwned == s.ioOwned
    ensures OwnsTracked(ap, s') && Conserved(s, s')
  {
    hide Interval, GcdAddress, OwnsExactly;
    var t, t' := s.(nodes := TrackedOnly(s.nodes)), s'.(nodes := TrackedOnly(s'.nodes));
    var u := t'.(nodes := t.nodes[kind := Cleared(t.nodes[kind])]);
    ReleaseKeepsOwnership(ap, t, kind, u);
    SameHeldNodes(ap, u, t');
  }

  lemma NoneTrackedOwnsNothing(ap: Apertures, s: BridgeState)
    requires OwnsTracked(ap, s) && |s.nodes| == TypeMax
    requires forall i :: 0 <= i < TypeBus ==> s.nodes[i].status != ResAllocated
    ensures s.ioOwned == {} && s.memOwned == {}
  {
    var t := s.(nodes := TrackedOnly(s.nodes));
    forall i | 0 <= i < TypeBus ensures Held(ap, t.nodes, i) == {} {}
  }

  lemma SpacesRestored(s: BridgeState, s': BridgeState)
    requires Conserved(s, s') && s'.ioOwned == {} && s'.memOwned == {}
    ensures s'.ioFree == s.ioFree + s.ioOwned && s'.memFree == s.memFree + s.memOwned
  {}

  /** What a take-over says of single nodes, and of the spaces if nothing was owned. */
  lemma KeptTells(ap: Apertures, s: BridgeState, s': BridgeState, busRange: Range)
    requires KeptInTurn(ap, s, s', TypeBus) && Conserved(s, s') && s.ioOwned == {} && s.memOwned == {}
    requires forall i :: 0 <= i < TypeMax ==> s.nodes[i].status != ResAllocated && !s.nodes[i].tracked
    requires s'.nodes[TypeBus] ==
               if RangeValid(busRange) then KeptNode(busRange, s.nodes[TypeBus], !busRange.indirect, true) else s.nodes[TypeBus]
    ensures Tracked(s'.nodes[TypeBus]) <==> RangeValid(busRange) && !busRange.indirect
    ensures s'.ioFree + s'.ioOwned == s.ioFree && s'.memFree + s'.memOwned == s.memFree
    ensures forall i :: 0 <= i < TypeBus ==> (s'.nodes[i].status == ResAllocated || !s'.nodes[i].tracked)
    ensures NothingDirect(ap) ==> !ApertureTracked(s'.nodes)
  {
    hide Left, Takeable;
    forall i | 0 <= i < TypeBus
      ensures s'.nodes[i].status == ResAllocated || !s'.nodes[i].tracked
      ensures Tracked(s'.nodes[i]) ==> RangeValid(ApertureOf(ap, i)) && !ApertureOf(ap, i).indirect
    {
      assert s'.nodes[i] == KeptOrLeft(ApertureOf(ap, i), i == TypeIo, s.nodes[i], FreeToKeep(ap, s, s'.nodes, i));
    }
  }

  /** No aperture is taken over as one the GCD tracks. */
  predicate NothingDirect(ap: Apertures) {
    forall kind :: 0 <= kind < TypeBus ==> !RangeValid(ApertureOf(ap, kind)) || ApertureOf(ap, kind).indirect
  }

  /** Taking over a configuration and undoing it gives back what was there.  On a bridge
      with a direct bus range and no direct aperture, the undoing tests a status that
      was never assigned. */
  method KeepThenFree(rb: RootBridge, busRange: Range) returns (status: Status, testedUnassigned: bool)
    requires rb.Wired() && forall kind :: 0 <= kind < TypeBus ==> Keepable(ApertureOf(rb.ap, kind), kind == TypeIo)
    requires OwnsTracked(rb.ap, rb.State())
    requires forall i :: 0 <= i < TypeMax ==> rb.nodes[i].status != ResAllocated && !rb.nodes[i].tracked
    modifies rb.nodes, rb.io, rb.mem
    ensures rb.io.free == old(rb.io.free) && rb.io.owned == {} && rb.mem.free == old(rb.mem.free) && rb.mem.owned == {}
    ensures forall i :: 0 <= i < TypeBus ==> rb.nodes[i].status != ResAllocated && !rb.nodes[i].tracked
    ensures testedUnassigned ==> RangeValid(busRange) && !busRange.indirect
    ensures RangeValid(busRange) && !busRange.indirect && NothingDirect(rb.ap) ==> testedUnassigned
    ensures !testedUnassigned ==> status == Success
  {
    hide OwnsTracked, KeptInTurn, Conserved, Tracked, WellPlaced, Stops;
    ghost var start := rb.State();
    NoneTrackedOwnsNothing(rb.ap, start);
    KeepExistingConfig(rb, busRange);
    KeptTells(rb.ap, start, rb.State(), busRange);
    status, testedUnassigned := FreeExistingConfig(rb);
  }
}
