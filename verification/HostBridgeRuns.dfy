/**
  Whole runs of the PCI host bridge phase machine: enumerate, collect requests,
  allocate, free, and again.
 */
module HostBridgeRuns {
  import opened Uefi
  import opened GcdSpace
  import opened PciRange
  import opened HostBridgeNodes
  import opened HostBridge
  import opened HostBridgePhases

  /** The calls that drive the allocator; OtherPhase stands for the phases that
      need no action. */
  datatype Event =
    | BeginEnumeration
    | BeginBusAllocation
    | SubmitResources(descriptors: seq<Descriptor>)
    | AllocateResources
    | FreeResources
    | OtherPhase

  function AllCleared(nodes: seq<ResNode>): seq<ResNode> { seq(|nodes|, i requires 0 <= i < |nodes| => Cleared(nodes[i])) }

  /** A node after the free phase. */
  function Freed(n: ResNode): ResNode { if n.status == ResAllocated then Cleared(n) else n }

  /** What one call does to the bridge. */
  ghost predicate Step(ap: Apertures, combine: bool, s: BridgeState, e: Event, status: Variable, s': BridgeState)
    requires |s.nodes| == TypeMax
  {
    match e
    case BeginEnumeration =>
      if s.canRestart then status == Assigned(Success) && s' == s.(nodes := AllCleared(s.nodes), resourceSubmitted := false)
      else status == Assigned(NotReady) && s' == s
    case BeginBusAllocation => status == Assigned(Success) && s' == s.(canRestart := false)
    case SubmitResources(descriptors) =>
      if AllAcceptable(descriptors, combine) then
        status == Assigned(Success) && s' == s.(nodes := Submitted(s.nodes, descriptors), resourceSubmitted := true)
      else status == Assigned(InvalidParameter) && s' == s
    case AllocateResources =>
      if s.resourceSubmitted then
        && status.Assigned?
        && (exists order :: Selected(s.nodes, order, TypeBus)
                            && AllocationResult(ap, s, s', order, status.value))
        && OwnsExactly(ap, s') && Conserved(s, s')
        && s'.resourceSubmitted && s'.canRestart == s.canRestart
      else status == Assigned(NotReady) && s' == s
    case FreeResources =>
      && status == (if NothingAllocated(s) then Unassigned else Assigned(Success))
      && s'.ioOwned == {} && s'.ioFree == s.ioFree + s.ioOwned
      && s'.memOwned == {} && s'.memFree == s.memFree + s.memOwned
      && |s'.nodes| == TypeMax && (forall i :: 0 <= i < TypeBus ==> s'.nodes[i] == Freed(s.nodes[i]))
      && s'.nodes[TypeBus] == s.nodes[TypeBus]
      && !s'.resourceSubmitted && s'.canRestart
    case OtherPhase => status == Assigned(Success) && s' == s
  }

  /** A restart leaves nothing of any node, and the free phase nothing of an allocated one. */
  lemma NothingIsRemembered(ap: Apertures, combine: bool, s: BridgeState, e: Event, status: Variable, s': BridgeState, i: nat)
    requires |s.nodes| == TypeMax && Step(ap, combine, s, e, status, s') && i < TypeBus
    requires (e.BeginEnumeration? && s.canRestart) || (e.FreeResources? && s.nodes[i].status == ResAllocated)
    ensures |s'.nodes| == TypeMax && s'.nodes[i] == ResNode(0, 0, 0, ResNone, s.nodes[i].tracked)
  {}

  /** What a call relies on. */
  ghost predicate Enabled(ap: Apertures, s: BridgeState, e: Event) {
    && |s.nodes| == TypeMax
    && (e.AllocateResources? || e.FreeResources? || e.BeginEnumeration? ==> OwnsExactly(ap, s))
    && (e.AllocateResources? ==> Ready(ap, s.nodes))
  }

  /** HostBridgeNotifyPhase and HostBridgeSubmitResources. */
  method Notify(rb: RootBridge, e: Event) returns (status: Variable)
    requires rb.Wired() && Enabled(rb.ap, rb.State(), e)
    modifies rb, rb.nodes, rb.io, rb.mem
    ensures Step(rb.ap, rb.combineMemPmem, old(rb.State()), e, status, rb.State())
  {
    ghost var s := rb.State();
    hide OwnsExactly, Ready, AllocationResult, Selected, Submitted, AllAcceptable, Conserved;
    match e
    case BeginEnumeration =>
      var r := rb.BeginEnumeration();
      assert r == Success ==> rb.State().nodes == AllCleared(s.nodes);
      status := Assigned(r);
    case BeginBusAllocation =>
      rb.BeginBusAllocation();
      status := Assigned(Success);
    case SubmitResources(descriptors) =>
      var r := rb.SubmitResources(descriptors);
      status := Assigned(r);
    case AllocateResources =>
      var r;
      ghost var order;
      r, order := rb.AllocateResources();
      status := Assigned(r);
    case FreeResources =>
      status := rb.FreeResources();
    case OtherPhase =>
      status := Assigned(Success);
  }

  /** The descriptors name a kind of resource. */
  ghost predicate Names(descriptors: seq<Descriptor>, kind: nat) {
    exists k :: 0 <= k < |descriptors| && KindOf(descriptors[k]) == kind
  }

  /** The kinds nobody names keep their nodes, and the others become requests. */
  lemma {:induction false} SubmittedNodes(nodes: seq<ResNode>, descriptors: seq<Descriptor>, kind: nat)
    requires |nodes| == TypeMax && kind < TypeBus
    ensures !Names(descriptors, kind) ==> Submitted(nodes, descriptors)[kind] == nodes[kind]
    ensures Names(descriptors, kind) ==> Submitted(nodes, descriptors)[kind].status == ResSubmitted
  {
    if descriptors != [] {
      var last := |descriptors| - 1;
      var fewer := descriptors[..last];
      SubmittedNodes(nodes, fewer, kind);
      NamesMore(descriptors, kind);
    }
  }

  lemma NamesMore(descriptors: seq<Descriptor>, kind: nat)
    requires descriptors != []
    ensures var last := |descriptors| - 1;
            Names(descriptors, kind) <==> Names(descriptors[..last], kind) || KindOf(descriptors[last]) == kind
  {
    var last := |descriptors| - 1;
    var fewer := descriptors[..last];
    if k :| 0 <= k < |fewer| && KindOf(fewer[k]) == kind {
      assert KindOf(descriptors[k]) == kind;
    }
    if k :| 0 <= k < last && KindOf(descriptors[k]) == kind {
      assert KindOf(fewer[k]) == kind;
    }
  }

  /** No kind the descriptors name is allocated. */
  ghost predicate NamesOnlyFree(s: BridgeState, descriptors: seq<Descriptor>) {
    |s.nodes| == TypeMax && forall i :: 0 <= i < TypeBus && Names(descriptors, i) ==> s.nodes[i].status != ResAllocated
  }

  /** The protocol's order, as far as it matters: nothing is allocated twice, no request
      replaces an allocated one, and no restart is asked for that the bridge would grant
      while something is allocated. */
  ghost predicate InOrder(s: BridgeState, e: Event) {
    && (e.SubmitResources? ==> NamesOnlyFree(s, e.descriptors))
    && (e.AllocateResources? ==> NothingAllocated(s))
    && (e.BeginEnumeration? && s.canRestart ==> NothingAllocated(s))
  }

  /** The search for an empty node, which asks for nothing, stops in every window. */
  predicate Roomy(ap: Apertures) {
    forall kind :: 0 <= kind < TypeBus ==> SearchesStop(ap, kind, 0, 0)
  }

  /** A request whose searches stop, also once it has been dropped and asks for nothing. */
  predicate Modest(ap: Apertures, d: Descriptor) {
    && d.addrRangeMax < MAX_UINT64
    && SearchesStop(ap, KindOf(d), d.addrLen, d.addrRangeMax) && SearchesStop(ap, KindOf(d), 0, d.addrRangeMax)
  }

  predicate ModestEvent(ap: Apertures, e: Event) {
    e.SubmitResources? ==> forall k :: 0 <= k < |e.descriptors| ==> Modest(ap, e.descriptors[k])
  }

  /** A node that can be allocated: a request, dropped or not, or empty. */
  predicate Prepared(ap: Apertures, kind: nat, n: ResNode)
    requires kind < TypeBus
  {
    && Requestable(ap, kind, n) && SearchesStop(ap, kind, 0, n.alignment)
    && (n.status == ResNone ==> n.length == 0 && n.alignment == 0)
  }

  ghost predicate Invariant(ap: Apertures, s: BridgeState) {
    && OwnsExactly(ap, s) && Roomy(ap)
    && forall i :: 0 <= i < TypeBus && s.nodes[i].status != ResAllocated ==> Prepared(ap, i, s.nodes[i])
  }

  /** A run: every call comes in order and does what it does when enabled. */
  ghost predicate IsRun(ap: Apertures, combine: bool, states: seq<BridgeState>, events: seq<Event>, statuses: seq<Variable>)
  {
    && |states| == |events| + 1 && |statuses| == |events|
    && forall k :: 0 <= k < |events| ==>
         && InOrder(states[k], events[k]) && ModestEvent(ap, events[k])
         && (Enabled(ap, states[k], events[k]) ==>
               Step(ap, combine, states[k], events[k], statuses[k], states[k + 1]))
  }

  lemma PowerGivesMask(x: nat)
    requires x > 0 && PowerOfTwoOrZero(x)
    ensures IsMask(x - 1)
  {}

  /** The power-of-two test on submission is what the allocation phase needs. */
  lemma AcceptedIsRequestable(ap: Apertures, combine: bool, d: Descriptor, n: ResNode)
    requires Acceptable(d, combine) && Modest(ap, d)
    requires n.length == d.addrLen && n.alignment == d.addrRangeMax
    ensures Requestable(ap, KindOf(d), n)
  {
    hide SearchesStop, Pow2, LowBit;
    WrapSmall(d.addrRangeMax + 1);
    PowerGivesMask(d.addrRangeMax + 1);
  }

  /** What is submitted can be allocated. */
  lemma {:induction false} SubmittedIsPrepared(ap: Apertures, combine: bool, nodes: seq<ResNode>, descriptors: seq<Descriptor>,
                                               kind: nat)
    requires |nodes| == TypeMax && kind < TypeBus && AllAcceptable(descriptors, combine)
    requires forall k :: 0 <= k < |descriptors| ==> Modest(ap, descriptors[k])
    ensures Names(descriptors, kind) ==> Prepared(ap, kind, Submitted(nodes, descriptors)[kind])
  {
    hide Acceptable, SearchesStop, Requestable;
    if descriptors != [] {
      var last := |descriptors| - 1;
      var d, fewer := descriptors[last], descriptors[..last];
      assert Modest(ap, d) && Acceptable(d, combine);
      SubmittedIsPrepared(ap, combine, nodes, fewer, kind);
      NamesMore(descriptors, kind);
      if KindOf(d) == kind {
        AcceptedIsRequestable(ap, combine, d, Submitted(nodes, descriptors)[kind]);
      }
    }
  }

  /** Submitting over an allocated node forgets what it holds, so ownership stays exact
      if and only if no kind that is named is allocated. */
  lemma SubmittingForgets(ap: Apertures, s: BridgeState, descriptors: seq<Descriptor>, s': BridgeState)
    requires OwnsExactly(ap, s) && s'.nodes == Submitted(s.nodes, descriptors)
    requires s'.ioFree == s.ioFree && s'.ioOwned == s.ioOwned && s'.memFree == s.memFree && s'.memOwned == s.memOwned
    ensures OwnsExactly(ap, s') <==> NamesOnlyFree(s, descriptors)
  {
    hide Submitted, Names, Interval;
    forall i | 0 <= i < TypeBus
      ensures Held(ap, s'.nodes, i) == if Names(descriptors, i) then {} else Held(ap, s.nodes, i)
      ensures s'.nodes[i].status == ResAllocated ==> s'.nodes[i] == s.nodes[i]
    {
      SubmittedNodes(s.nodes, descriptors, i);
    }
    if k :| 0 <= k < TypeBus && Names(descriptors, k) && s.nodes[k].status == ResAllocated {
      AllocatedHolds(ap, s, k);
      var x := GcdAddress(ap, k, s.nodes[k]);
      assert Held(ap, s'.nodes, k) == {};
      if k == TypeIo {
        assert x in s.ioOwned && x !in Held(ap, s'.nodes, TypeIo);
      } else {
        forall i | TypeMem32 <= i < TypeBus ensures x !in Held(ap, s'.nodes, i) {
          assert i < k ==> Held(ap, s.nodes, i) !! Held(ap, s.nodes, k);
          assert k < i ==> Held(ap, s.nodes, k) !! Held(ap, s.nodes, i);
        }
        assert x in s.memOwned && x !in HeldMemory(ap, s'.nodes);
      }
    } else {
      assert forall i :: 0 <= i < TypeBus ==> Held(ap, s'.nodes, i) == Held(ap, s.nodes, i);
    }
  }

  lemma AllocatedHolds(ap: Apertures, s: BridgeState, kind: nat)
    requires OwnsExactly(ap, s) && kind < TypeBus && s.nodes[kind].status == ResAllocated
    ensures GcdAddress(ap, kind, s.nodes[kind]) in Held(ap, s.nodes, kind)
  {
    HeldIsOwned(ap, s, kind);
  }

  lemma ClearedIsPrepared(ap: Apertures, kind: nat, n: ResNode)
    requires kind < TypeBus && Roomy(ap)
    ensures Prepared(ap, kind, Cleared(n))
  {
    hide SearchesStop;
    assert SearchesStop(ap, kind, 0, 0);
    assert IsMask(0);
  }

  /** The free phase clears the allocated nodes; the others it leaves as they are. */
  lemma FreedKeepsInvariant(ap: Apertures, s: BridgeState, s': BridgeState, status: Variable)
    requires Invariant(ap, s) && Step(ap, false, s, FreeResources, status, s')
    ensures Invariant(ap, s') && NothingAllocated(s') && Conserved(s, s')
  {
    hide Interval, Requestable;
    forall i | 0 <= i < TypeBus ensures Held(ap, s'.nodes, i) == {} && Prepared(ap, i, s'.nodes[i]) {
      assert s'.nodes[i] == Freed(s.nodes[i]);
      ClearedIsPrepared(ap, i, s.nodes[i]);
    }
  }

  /** A dropped request asks for nothing. */
  lemma DroppedIsPrepared(ap: Apertures, kind: nat, n: ResNode)
    requires kind < TypeBus && Prepared(ap, kind, n)
    ensures Prepared(ap, kind, n.(length := 0))
  {}

  /** The allocation phase leaves granted requests and dropped ones. */
  lemma AllocatedKeepsInvariant(ap: Apertures, s: BridgeState, s': BridgeState, order: seq<nat>, status: Status)
    requires Invariant(ap, s) && NothingAllocated(s) && OwnsExactly(ap, s')
    requires AllocationResult(ap, s, s', order, status)
    ensures Invariant(ap, s')
  {
    hide OwnsExactly, AllSettled, Prepared, SearchesStop, Granted;
    forall i | 0 <= i < TypeBus && s'.nodes[i].status != ResAllocated ensures Prepared(ap, i, s'.nodes[i]) {
      assert AllocatedOrDropped(ap, i, s.nodes[i], s'.nodes[i]);
      DroppedIsPrepared(ap, i, s.nodes[i]);
    }
  }

  lemma PreparedIsReady(ap: Apertures, s: BridgeState)
    requires |s.nodes| == TypeMax && NothingAllocated(s)
    requires forall i :: 0 <= i < TypeBus ==> Prepared(ap, i, s.nodes[i])
    ensures Ready(ap, s.nodes)
  {
    hide Requestable, SearchesStop;
    forall i | 0 <= i < TypeBus
      ensures Requestable(ap, i, s.nodes[i]) && (s.nodes[i].status == ResNone ==> s.nodes[i].length == 0 && s.nodes[i].alignment == 0)
    {
      assert Prepared(ap, i, s.nodes[i]);
    }
  }

  /** New nodes on a bridge that has allocated nothing. */
  lemma ReplacedKeepsInvariant(ap: Apertures, s: BridgeState, s': BridgeState)
    requires Invariant(ap, s) && NothingAllocated(s) && |s'.nodes| == TypeMax
    requires forall i :: 0 <= i < TypeBus ==> s'.nodes[i].status != ResAllocated && Prepared(ap, i, s'.nodes[i])
    requires s'.ioFree == s.ioFree && s'.ioOwned == s.ioOwned && s'.memFree == s.memFree && s'.memOwned == s.memOwned
    ensures Invariant(ap, s') && Conserved(s, s')
  {
    hide Prepared, OwnsExactly;
    SameHeldNodes(ap, s, s');
  }

  /** Requests that replace no allocated node. */
  lemma SubmittedKeepsInvariant(ap: Apertures, combine: bool, s: BridgeState, descriptors: seq<Descriptor>, s': BridgeState)
    requires Invariant(ap, s) && NamesOnlyFree(s, descriptors) && AllAcceptable(descriptors, combine)
    requires forall k :: 0 <= k < |descriptors| ==> Modest(ap, descriptors[k])
    requires s'.nodes == Submitted(s.nodes, descriptors)
    requires s'.ioFree == s.ioFree && s'.ioOwned == s.ioOwned && s'.memFree == s.memFree && s'.memOwned == s.memOwned
    ensures Invariant(ap, s') && Conserved(s, s')
  {
    SubmittingForgets(ap, s, descriptors, s');
    hide Submitted, Prepared, Modest, Acceptable, Names, Held;
    forall i | 0 <= i < TypeBus && s'.nodes[i].status != ResAllocated ensures Prepared(ap, i, s'.nodes[i]) {
      SubmittedNodes(s.nodes, descriptors, i);
      SubmittedIsPrepared(ap, combine, s.nodes, descriptors, i);
    }
  }

  lemma NodesUnchanged(ap: Apertures, s: BridgeState, s': BridgeState)
    requires Invariant(ap, s) && s'.nodes == s.nodes && SameSpaces(s, s')
    ensures Invariant(ap, s') && Conserved(s, s')
  {
    hide Prepared;
  }

  /** Every call in order finds its precondition met and keeps the invariant. */
  lemma StepKeepsInvariant(ap: Apertures, combine: bool, s: BridgeState, e: Event, status: Variable, s': BridgeState)
    requires Invariant(ap, s) && InOrder(s, e) && ModestEvent(ap, e)
    requires Enabled(ap, s, e) ==> Step(ap, combine, s, e, status, s')
    ensures Enabled(ap, s, e)
    ensures Invariant(ap, s') && Conserved(s, s')
    ensures e.FreeResources? ==> NothingAllocated(s')
  {
    assert |s.nodes| == TypeMax;
    hide Conserved, AllocationResult, Selected, Submitted, AllAcceptable, Modest, Prepared, OwnsExactly, Ready;
    ConservedReflexive(s);
    if NothingAllocated(s) {
      PreparedIsReady(ap, s);
    }
    assert Enabled(ap, s, e);
    match e
    case BeginEnumeration =>
      if s.canRestart {
        forall i | 0 <= i < TypeBus ensures Prepared(ap, i, s'.nodes[i]) {
          ClearedIsPrepared(ap, i, s.nodes[i]);
        }
        ReplacedKeepsInvariant(ap, s, s');
      }
    case BeginBusAllocation => NodesUnchanged(ap, s, s');
    case SubmitResources(descriptors) =>
      if AllAcceptable(descriptors, combine) {
        SubmittedKeepsInvariant(ap, combine, s, descriptors, s');
      }
    case AllocateResources =>
      if s.resourceSubmitted {
        var order :| Selected(s.nodes, order, TypeBus) && AllocationResult(ap, s, s', order, status.value);
        AllocatedKeepsInvariant(ap, s, s', order, status.value);
      }
    case FreeResources => FreedKeepsInvariant(ap, s, s', status);
    case OtherPhase =>
  }

  /** What a call does is fixed by the bridge it finds. */
  lemma StepIsDetermined(ap: Apertures, combine: bool, s: BridgeState, e: Event, statusA: Variable, a: BridgeState,
                         statusB: Variable, b: BridgeState)
    requires |s.nodes| == TypeMax && Step(ap, combine, s, e, statusA, a) && Step(ap, combine, s, e, statusB, b)
    ensures a == b && statusA == statusB
  {
    hide AllAcceptable, Submitted, AllCleared, NothingAllocated, Selected, AllocationResult, Conserved, Interval;
    if e.AllocateResources? && s.resourceSubmitted {
      var orderA :| Selected(s.nodes, orderA, TypeBus) && AllocationResult(ap, s, a, orderA, statusA.value);
      var orderB :| Selected(s.nodes, orderB, TypeBus) && AllocationResult(ap, s, b, orderB, statusB.value);
      AllocationIsDetermined(ap, s, a, b, orderA, orderB, statusA.value, statusB.value);
    } else if e.FreeResources? {
      assert a.nodes == b.nodes;
    }
  }

  /** Over every run in order: at every point the next call is enabled, the bridge
      owns exactly what its allocated nodes hold, pairwise disjoint, and the spaces
      are conserved. */
  lemma {:induction false} RunOwnsExactly(ap: Apertures, combine: bool, states: seq<BridgeState>, events: seq<Event>,
                                          statuses: seq<Variable>, k: nat)
    requires IsRun(ap, combine, states, events, statuses) && k <= |events|
    requires Invariant(ap, states[0])
    ensures Invariant(ap, states[k]) && Conserved(states[0], states[k])
    ensures k < |events| ==> Enabled(ap, states[k], events[k])
  {
    hide Invariant, Enabled, Step, Conserved, ModestEvent, InOrder;
    if k == 0 {
      ConservedReflexive(states[0]);
    } else {
      RunOwnsExactly(ap, combine, states, events, statuses, k - 1);
      StepKeepsInvariant(ap, combine, states[k - 1], events[k - 1], statuses[k - 1], states[k]);
      ConservedTransitive(states[0], states[k - 1], states[k]);
    }
    if k < |events| {
      StepKeepsInvariant(ap, combine, states[k], events[k], statuses[k], states[k + 1]);
    }
  }

  /** Two runs in order with the same calls, from the same bridge, are the same run: who
      is granted what, and every status, depends on nothing else. */
  lemma {:induction false} RunIsDetermined(ap: Apertures, combine: bool, states: seq<BridgeState>, states': seq<BridgeState>,
                                           events: seq<Event>, statuses: seq<Variable>, statuses': seq<Variable>, k: nat)
    requires IsRun(ap, combine, states, events, statuses) && IsRun(ap, combine, states', events, statuses')
    requires states[0] == states'[0] && Invariant(ap, states[0]) && k <= |events|
    ensures states[k] == states'[k] && statuses[..k] == statuses'[..k]
  {
    if k > 0 {
      RunIsDetermined(ap, combine, states, states', events, statuses, statuses', k - 1);
      RunOwnsExactly(ap, combine, states, events, statuses, k - 1);
      hide Step, InOrder, ModestEvent;
      StepIsDetermined(ap, combine, states[k - 1], events[k - 1], statuses[k - 1], states[k], statuses'[k - 1], states'[k]);
      assert statuses[..k] == statuses[..k - 1] + [statuses[k - 1]] && statuses'[..k] == statuses'[..k - 1] + [statuses'[k - 1]];
    }
  }

  /** After every free phase of such a run the GCD spaces are back to where the
      run started. */
  lemma FreeingRestoresTheSpaces(ap: Apertures, combine: bool, states: seq<BridgeState>, events: seq<Event>,
                                 statuses: seq<Variable>, k: nat)
    requires IsRun(ap, combine, states, events, statuses) && k < |events|
    requires Invariant(ap, states[0]) && NothingAllocated(states[0])
    requires events[k] == FreeResources
    ensures states[k + 1].ioFree == states[0].ioFree && states[k + 1].ioOwned == {}
    ensures states[k + 1].memFree == states[0].memFree && states[k + 1].memOwned == {}
  {
    RunOwnsExactly(ap, combine, states, events, statuses, k);
    RunOwnsExactly(ap, combine, states, events, statuses, k + 1);
    StepKeepsInvariant(ap, combine, states[k], events[k], statuses[k], states[k + 1]);
    IdleOwnsNothing(ap, states[0]);
    IdleOwnsNothing(ap, states[k + 1]);
  }

  lemma IdleOwnsNothing(ap: Apertures, s: BridgeState)
    requires OwnsExactly(ap, s) && NothingAllocated(s)
    ensures s.ioOwned == {} && s.memOwned == {}
  {
    forall i | 0 <= i < TypeBus ensures Held(ap, s.nodes, i) == {} {}
  }

  /** A request the allocation phase had to drop. */
  predicate Dropped(s: BridgeState, s': BridgeState, kind: nat)
    requires |s.nodes| == TypeMax && |s'.nodes| == TypeMax && kind < TypeBus
  {
    s.nodes[kind].status == ResSubmitted && s'.nodes[kind].status != ResAllocated
  }

  /** What a failed request leaves behind the free phase: still a request, for nothing. */
  lemma DroppedStays(ap: Apertures, s0: BridgeState, s1: BridgeState, s2: BridgeState, order: seq<nat>, status0: Status,
                     status1: Variable, kind: nat)
    requires kind < TypeBus && NothingAllocated(s0)
    requires AllocationResult(ap, s0, s1, order, status0)
    requires Step(ap, false, s1, FreeResources, status1, s2)
    ensures s2.nodes[kind].status == if Dropped(s0, s1, kind) then ResSubmitted else ResNone
    ensures Dropped(s0, s1, kind) ==> s2.nodes[kind].length == 0
  {
    hide AllSettled, Granted;
    assert AllocatedOrDropped(ap, kind, s0.nodes[kind], s1.nodes[kind]);
    assert s2.nodes[kind] == Freed(s1.nodes[kind]);
  }

  /** Every request there is asks for nothing. */
  predicate OnlyStale(nodes: seq<ResNode>) {
    |nodes| == TypeMax && forall i :: 0 <= i < TypeBus ==> nodes[i].status == ResNone || (nodes[i].status == ResSubmitted && nodes[i].length == 0)
  }

  /** With stale requests left, the allocation of newly submitted ones succeeds if and only
      if it grants all of those and the kind of every stale one is among them. */
  lemma StaleKindsDecide(ap: Apertures, nodes: seq<ResNode>, descriptors: seq<Descriptor>, s: BridgeState, s': BridgeState,
                         order: seq<nat>, status: Status)
    requires OnlyStale(nodes) && s.nodes == Submitted(nodes, descriptors)
    requires AllocationResult(ap, s, s', order, status)
    ensures status == Success
            <==> (forall i :: 0 <= i < TypeBus && Names(descriptors, i) ==> s'.nodes[i].status == ResAllocated)
                 && (forall i :: 0 <= i < TypeBus && Wanted(nodes, i) ==> Names(descriptors, i))
  {
    hide AllSettled, Granted, Submitted, Names;
    var before, after := s.nodes, s'.nodes;
    forall i | 0 <= i < TypeBus
      ensures Wanted(before, i) <==> Names(descriptors, i) || Wanted(nodes, i)
      ensures Wanted(nodes, i) && !Names(descriptors, i) ==> after[i].status != ResAllocated
    {
      SubmittedNodes(nodes, descriptors, i);
      assert AllocatedOrDropped(ap, i, before[i], after[i]);
    }
  }

  /** After an allocation, its release and a new submission, without enumerating anew in
      between, the next allocation succeeds if and only if it grants every request
      submitted and every kind dropped the first time is among them: a request that was
      dropped is still there, asks for nothing and can not be granted. */
  lemma StaleRequestsFail(ap: Apertures, combine: bool, s0: BridgeState, s1: BridgeState, s2: BridgeState, s3: BridgeState,
                          s4: BridgeState, descriptors: seq<Descriptor>, statuses: seq<Variable>)
    requires |statuses| == 4 && |s0.nodes| == TypeMax && s0.resourceSubmitted && NothingAllocated(s0)
    requires Step(ap, combine, s0, AllocateResources, statuses[0], s1) && |s1.nodes| == TypeMax
    requires Step(ap, combine, s1, FreeResources, statuses[1], s2) && |s2.nodes| == TypeMax
    requires Step(ap, combine, s2, SubmitResources(descriptors), statuses[2], s3) && statuses[2] == Assigned(Success)
    requires Step(ap, combine, s3, AllocateResources, statuses[3], s4) && |s4.nodes| == TypeMax
    ensures statuses[3] == Assigned(Success)
            <==> (forall i :: 0 <= i < TypeBus && Names(descriptors, i) ==> s4.nodes[i].status == ResAllocated)
                 && (forall i :: 0 <= i < TypeBus && Dropped(s0, s1, i) ==> Names(descriptors, i))
  {
    hide OwnsExactly, Conserved, Selected, AllocationResult, Submitted, AllAcceptable, Names, Dropped;
    var order0 :| Selected(s0.nodes, order0, TypeBus) && AllocationResult(ap, s0, s1, order0, statuses[0].value);
    var order3 :| Selected(s3.nodes, order3, TypeBus) && AllocationResult(ap, s3, s4, order3, statuses[3].value);
    forall i | 0 <= i < TypeBus
      ensures s2.nodes[i].status == if Dropped(s0, s1, i) then ResSubmitted else ResNone
      ensures Dropped(s0, s1, i) ==> s2.nodes[i].length == 0
    {
      DroppedStays(ap, s0, s1, s2, order0, statuses[0].value, statuses[1], i);
    }
    StaleKindsDecide(ap, s2.nodes, descriptors, s3, s4, order3, statuses[3].value);
  }
}
