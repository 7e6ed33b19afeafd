/**
  Whole runs of firmware-volume-block requests.  The services are compared with
  the plainest block store imaginable: a write replaces bytes, an erase sets
  blocks to ones, a read changes nothing.
 */
module NorFlashRuns {
  import opened Uefi
  import opened NorFlashChip
  import opened NorFlashSpec
  import opened NorFlashRegister
  import opened NorFlash
  import opened NorFlashFvb

  datatype Request =
    | Read(lba: nat, offset: nat, n: nat)
    | Write(lba: nat, offset: nat, data: seq<bv8>)
    | Erase(list: seq<LbaRange>)

  /** The block-store meaning of a request. */
  ghost function Meaning(g: Geometry, mem: seq<bv8>, request: Request): (r: seq<bv8>)
    ensures |r| == |mem|
  {
    match request
    case Read(_, _, _) => mem
    case Write(lba, offset, data) => Overwritten(mem, Span(g.startLba + lba, g.blockSize) + offset, data)
    case Erase(list) => ListErased(mem, list, g.startLba, g.blockSize)
  }

  ghost function MeaningOfAll(g: Geometry, mem: seq<bv8>, requests: seq<Request>): (r: seq<bv8>)
    ensures |r| == |mem|
  {
    if requests == [] then mem
    else Meaning(g, MeaningOfAll(g, mem, requests[..|requests| - 1]), requests[|requests| - 1])
  }

  /** A byte the request may change at all, however it ends. */
  ghost predicate InReach(g: Geometry, request: Request, i: nat) {
    match request
    case Read(_, _, _) => false
    case Write(lba, _, _) => Span(g.startLba + lba, g.blockSize) <= i < Span(g.startLba + lba, g.blockSize) + g.blockSize
    case Erase(list) => Listed(list, g.startLba, g.blockSize, i)
  }

  /** A write that loses nothing on this flash; see NorFlashSpec.ExactIffSafe.  Writes
      inside one window or of a window's length at least are so on every flash. */
  predicate Exact(g: Geometry, mem: seq<bv8>, request: Request) {
    request.Write? ==> SafeOn(mem, Span(g.startLba + request.lba, g.blockSize), request.offset, request.data)
  }

  /** A request the services can fulfil: it names existing blocks, and for a short
      write the old data around it can be read and programmed. */
  predicate Servable(g: Geometry, request: Request) {
    match request
    case Read(lba, offset, n) =>
      offset < g.blockSize && 0 < n && offset + n <= g.blockSize && g.startLba + lba <= g.lastBlock
    case Write(lba, offset, data) => CanWrite(g, g.startLba + lba, offset, |data|)
    case Erase(list) => ListValid(list, g.startLba, g.lastBlock)
  }

  /** The mode the chip is left in: a call that touches it ends in read-array mode,
      except for a write whose buffer was granted on the last poll. */
  ghost predicate Returns(g: Geometry, s: ChipState, request: Request, status: Status, s': ChipState) {
    && ReturnsToArray(s, s')
    && (LastPollEdge(s, s') ==> request.Write? && status != Success)
    && (Restores(g, request, status) ==> s'.mode == ReadArray)
  }

  /** A call that is sure to touch the chip and to leave it in read-array mode. */
  predicate Restores(g: Geometry, request: Request, status: Status) {
    if request.Erase? then request.list != [] && ListValid(request.list, g.startLba, g.lastBlock) else status == Success
  }

  /** What becomes of a write over a given content of the shadow buffer. */
  ghost predicate WritesOver(g: Geometry, s: ChipState, stale: seq<bv8>, lba: nat, offset: nat, data: seq<bv8>, able: bool,
                             status: Status, s': ChipState)
  {
    Writes(s, s', able, status, TakesInPlace(s.mem, stale, Span(g.startLba + lba, g.blockSize), offset, data),
           Skips(g, s.mem, g.startLba + lba, offset, data))
  }

  /** What becomes of the request and of the errors left over from earlier ones; the
      path of a write depends on what is left over in the shadow buffer, too. */
  ghost predicate Progress(g: Geometry, s: ChipState, request: Request, able: bool, status: Status, s': ChipState) {
    match request
    case Read(_, _, _) => SameProgress(s, s') && (able ==> status == Success)
    case Write(lba, offset, data) => exists stale: seq<bv8> ::
      |stale| == g.blockSize && WritesOver(g, s, stale, lba, offset, data, able, status, s')
    case Erase(list) => if list == [] then s' == s && status == Success else Erases(s, s', able, status)
  }

  /** What every service guarantees, whatever its status. */
  ghost predicate Step(g: Geometry, s: ChipState, request: Request, status: Status, s': ChipState) {
    && |s'.mem| == |s.mem|
    && (forall i :: 0 <= i < |s.mem| && !InReach(g, request, i) ==> s'.mem[i] == s.mem[i])
    && (status == Success && Exact(g, s.mem, request) ==> s'.mem == Meaning(g, s.mem, request))
    && Returns(g, s, request, status, s')
    && Progress(g, s, request, Servable(g, request), status, s')
  }

  predicate Addressable(instance: Instance, request: Request) {
    match request
    case Read(lba, _, _) => Span(instance.startLba + lba + 2, instance.blockSize) <= TWO_64
    case Write(lba, _, _) => Span(instance.startLba + lba + 2, instance.blockSize) <= TWO_64
    case Erase(list) => forall k :: 0 <= k < |list| ==> instance.startLba + list[k].start + list[k].count <= TWO_64
  }

  /** Every service call is a step, and leaves the chip waiting for a command. */
  method Serve(instance: Instance, request: Request) returns (status: Status)
    requires instance.Valid() && Idle(instance.chip.st) && instance.blockSize % BOUNDARY == 0
    requires Addressable(instance, request)
    modifies instance.chip, instance.shadow
    ensures instance.Valid() && Idle(instance.chip.st)
    ensures Step(GeometryOf(instance), old(instance.chip.st), request, status, instance.chip.st)
  {
    hide Overwritten, ListErased, Writes, Erases, SafeOn, RegisterOf, TakesInPlace, Skips, ReturnsToArray, Step, CanWrite, Span,
      SameUnlisted, ListValid;
    ghost var s, stale, g := instance.chip.st, instance.shadow[..], GeometryOf(instance);
    match request {
      case Read(lba, offset, n) =>
        var buffer := new bv8[n];
        status := FvbRead(instance, lba, offset, n, buffer);
        ReadIsStep(g, s, lba, offset, n, status, instance.chip.st);
      case Write(lba, offset, data) =>
        status := FvbWrite(instance, lba, offset, data);
        WriteIsStep(g, s, stale, lba, offset, data, status, instance.chip.st);
      case Erase(list) =>
        status := FvbEraseBlocks(instance, list);
        EraseIsStep(g, s, list, status, instance.chip.st);
    }
  }

  lemma ReadIsStep(g: Geometry, s: ChipState, lba: nat, offset: nat, n: nat, status: Status, s': ChipState)
    requires s' == s.(mode := s'.mode)
    requires status == Success
             <==> offset < g.blockSize && 0 < n && offset + n <= g.blockSize && g.startLba + lba <= g.lastBlock
    requires if status == Success then s'.mode == ReadArray else s' == s
    ensures Step(g, s, Read(lba, offset, n), status, s')
  {
    hide RanOut, LastPollEdge, Jammed;
    NobodyAsked(s, s');
  }

  lemma WriteIsStep(g: Geometry, s: ChipState, stale: seq<bv8>, lba: nat, offset: nat, data: seq<bv8>, status: Status, s': ChipState)
    requires SameOutside(s.mem, s'.mem, Span(g.startLba + lba, g.blockSize), g.blockSize)
    requires status == Success && SafeOn(s.mem, Span(g.startLba + lba, g.blockSize), offset, data) ==>
               s'.mem == Overwritten(s.mem, Span(g.startLba + lba, g.blockSize) + offset, data)
    requires (status == Success ==> s'.mode == ReadArray) && ReturnsToArray(s, s') && |stale| == g.blockSize
    requires WritesOver(g, s, stale, lba, offset, data, CanWrite(g, g.startLba + lba, offset, |data|), status, s')
    ensures Step(g, s, Write(lba, offset, data), status, s')
  {
    hide RanOut, LastPollEdge, Jammed, WritesOver, SafeOn, Overwritten, Span, CanWrite;
    NobodyAsked(s, s);
  }

  lemma EraseIsStep(g: Geometry, s: ChipState, list: seq<LbaRange>, status: Status, s': ChipState)
    requires SameUnlisted(s.mem, s'.mem, list, g.startLba, g.blockSize)
    requires status == Success ==> s'.mem == ListErased(s.mem, list, g.startLba, g.blockSize)
    requires if list == [] || !ListValid(list, g.startLba, g.lastBlock) then s' == s else s'.mode == ReadArray
    requires list == [] ==> status == Success
    requires Erases(s, s', list != [] && ListValid(list, g.startLba, g.lastBlock), status)
    ensures Step(g, s, Erase(list), status, s')
  {
    EraseKeepsAnswers(s, s', list != [] && ListValid(list, g.startLba, g.lastBlock), status);
    hide RanOut, LastPollEdge, Jammed, RegisterOf, ListErased, Listed;
  }

  /** A run: the chip before, between and after the calls. */
  ghost predicate IsRun(g: Geometry, states: seq<ChipState>, requests: seq<Request>, statuses: seq<Status>)
  {
    && |states| == |requests| + 1 && |statuses| == |requests|
    && forall k :: 0 <= k < |requests| ==> Step(g, states[k], requests[k], statuses[k], states[k + 1])
  }

  /** A run of successful, exactly handled requests leaves in the flash what the
      plain block store would hold. */
  lemma {:induction false} RunRefinesStore(g: Geometry, states: seq<ChipState>, requests: seq<Request>,
                                           statuses: seq<Status>)
    requires IsRun(g, states, requests, statuses)
    requires forall k :: 0 <= k < |requests| ==> statuses[k] == Success && Exact(g, states[k].mem, requests[k])
    ensures states[|requests|].mem == MeaningOfAll(g, states[0].mem, requests)
  {
    hide Meaning, Progress, Returns, Servable, Exact;
    if requests != [] {
      var n := |requests| - 1;
      assert Step(g, states[n], requests[n], statuses[n], states[n + 1]);
      RunRefinesStore(g, states[..n + 1], requests[..n], statuses[..n]);
    }
  }

  /** The chip had no fault during the run, and it granted its program buffer in time. */
  ghost predicate Faultless(states: seq<ChipState>)
    requires |states| > 0
  {
    && states[|states| - 1].faults == states[0].faults
    && forall k :: 0 <= k < |states| - 1 ==> !RanOut(states[k], states[k + 1])
  }

  /** Faults only accumulate over a run. */
  lemma {:induction false} FaultsAccumulate(g: Geometry, states: seq<ChipState>, requests: seq<Request>,
                                            statuses: seq<Status>, j: nat, k: nat)
    requires IsRun(g, states, requests, statuses) && j <= k <= |requests|
    ensures states[j].faults <= states[k].faults
    decreases k - j
  {
    hide Meaning, Servable, Returns, Exact, InReach, RegisterOf;
    if j < k {
      assert Step(g, states[j], requests[j], statuses[j], states[j + 1]);
      FaultsAccumulate(g, states, requests, statuses, j + 1, k);
    }
  }

  /** Every request of a faultless run can be served: what becomes of it is determined
      by the errors left over before it. */
  lemma ProgressAt(g: Geometry, states: seq<ChipState>, requests: seq<Request>, statuses: seq<Status>, k: nat)
    requires IsRun(g, states, requests, statuses) && k < |requests|
    requires Faultless(states) && Servable(g, requests[k])
    ensures Progress(g, states[k], requests[k], true, statuses[k], states[k + 1])
    ensures states[k + 1].faults == states[k].faults && !RanOut(states[k], states[k + 1])
  {
    hide Meaning, Servable, Returns, Exact, InReach, Writes, Erases;
    FaultsAccumulate(g, states, requests, statuses, 0, k);
    FaultsAccumulate(g, states, requests, statuses, k, k + 1);
    FaultsAccumulate(g, states, requests, statuses, k + 1, |requests|);
    assert Step(g, states[k], requests[k], statuses[k], states[k + 1]);
    assert !RanOut(states[k], states[k + 1]);
  }

  /** The register over a faultless run: a healthy one stays so, a left-over program
      error is never cleared, and no other request brings one about. */
  lemma {:induction false} RegisterOverRun(g: Geometry, states: seq<ChipState>, requests: seq<Request>,
                                           statuses: seq<Status>, k: nat)
    requires IsRun(g, states, requests, statuses) && k <= |requests|
    requires Faultless(states) && forall i :: 0 <= i < |requests| ==> Servable(g, requests[i])
    ensures RegisterOf(states[0]) == Healthy ==> RegisterOf(states[k]) == Healthy
    ensures RegisterOf(states[0]) == ProgramError <==> RegisterOf(states[k]) == ProgramError
  {
    hide Servable, IsRun, Faultless;
    if k > 0 {
      RunShape(g, states, requests, statuses);
      RegisterOverRun(g, states, requests, statuses, k - 1);
      assert Servable(g, requests[k - 1]);
      ProgressAt(g, states, requests, statuses, k - 1);
      NextRegister(g, states[k - 1], requests[k - 1], statuses[k - 1], states[k]);
    }
  }

  lemma RunShape(g: Geometry, states: seq<ChipState>, requests: seq<Request>, statuses: seq<Status>)
    requires IsRun(g, states, requests, statuses)
    ensures |states| == |requests| + 1 && |statuses| == |requests|
  {}

  lemma NextRegister(g: Geometry, s: ChipState, request: Request, status: Status, s': ChipState)
    requires Progress(g, s, request, true, status, s') && s'.faults == s.faults && !RanOut(s, s')
    ensures RegisterOf(s) == Healthy ==> RegisterOf(s') == Healthy && status == Success
    ensures RegisterOf(s) == ProgramError <==> RegisterOf(s') == ProgramError
    ensures RegisterOf(s) != ProgramError && request.Erase? && request.list != [] ==> RegisterOf(s') == Healthy
  {
    if request.Read? {
      SameRegisterSameErrors(s, s');
    }
    hide RegisterOf, TakesInPlace, Skips, Span, RanOut, Accumulates;
  }

  /** From a register without errors, and while the chip has no fault and grants its
      program buffer, every request that can be served succeeds; so the driver is a
      plain block store for every sequence of exactly handled requests. */
  lemma {:induction false} FaultlessRunIsAStore(g: Geometry, states: seq<ChipState>, requests: seq<Request>,
                                                statuses: seq<Status>)
    requires IsRun(g, states, requests, statuses)
    requires Faultless(states) && RegisterOf(states[0]) == Healthy
    requires forall k :: 0 <= k < |requests| ==> Servable(g, requests[k]) && Exact(g, states[k].mem, requests[k])
    ensures forall k :: 0 <= k < |requests| ==> statuses[k] == Success
    ensures states[|requests|].mem == MeaningOfAll(g, states[0].mem, requests)
  {
    hide Meaning, Servable, MeaningOfAll, Exact, InReach, Step, RegisterOf, Faultless;
    forall k | 0 <= k < |requests| ensures statuses[k] == Success {
      RegisterOverRun(g, states, requests, statuses, k);
      ProgressAt(g, states, requests, statuses, k);
      NextRegister(g, states[k], requests[k], statuses[k], states[k + 1]);
    }
    RunRefinesStore(g, states, requests, statuses);
  }

  /** Which path a write under the guard takes on this flash: in place if it is short
      and only clears bits. */
  predicate InPlaceOn(g: Geometry, mem: seq<bv8>, lba: nat, offset: nat, data: seq<bv8>) {
    TriesInPlace(offset, |data|) && OnlyClearsFlash(mem, Span(g.startLba + lba, g.blockSize) + offset, data)
  }

  /** In a faultless run the errors left over decide every write under the guard, for the
      path it takes on the flash it finds, and what is left over afterwards. */
  lemma LeftoversDecideWrites(g: Geometry, states: seq<ChipState>, requests: seq<Request>, statuses: seq<Status>, k: nat)
    requires IsRun(g, states, requests, statuses) && k < |requests|
    requires Faultless(states) && Servable(g, requests[k]) && requests[k].Write?
    requires Covered(requests[k].offset, |requests[k].data|)
    requires g.blockSize % BOUNDARY == 0 && 3 * BOUNDARY <= g.blockSize
    requires |states[k].mem| == g.size == Span(g.lastBlock + 1, g.blockSize)
    ensures Decided(g, states[k], requests[k].lba, requests[k].offset, requests[k].data, statuses[k], states[k + 1])
  {
    hide IsRun, Faultless, Span, RanOut, Decided, WritesOver;
    RunShape(g, states, requests, statuses);
    ProgressAt(g, states, requests, statuses, k);
    WriteIsDecided(g, states[k], requests[k].lba, requests[k].offset, requests[k].data, statuses[k], states[k + 1]);
  }

  /** The errors found decide the status of the write and the errors it leaves. */
  predicate Decided(g: Geometry, s: ChipState, lba: nat, offset: nat, data: seq<bv8>, status: Status, s': ChipState) {
    var inPlace := InPlaceOn(g, s.mem, lba, offset, data);
    && (status == Success <==> WriteSucceeds(RegisterOf(s), inPlace, Skips(g, s.mem, g.startLba + lba, offset, data)))
    && RegisterOf(s') == AfterWrite(RegisterOf(s), inPlace)
  }

  lemma WriteIsDecided(g: Geometry, s: ChipState, lba: nat, offset: nat, data: seq<bv8>, status: Status, s': ChipState)
    requires exists stale: seq<bv8> :: |stale| == g.blockSize && WritesOver(g, s, stale, lba, offset, data, true, status, s')
    requires s'.faults == s.faults && !RanOut(s, s')
    requires CanWrite(g, g.startLba + lba, offset, |data|) && Covered(offset, |data|)
    requires g.blockSize % BOUNDARY == 0 && 3 * BOUNDARY <= g.blockSize
    requires |s.mem| == g.size == Span(g.lastBlock + 1, g.blockSize)
    ensures Decided(g, s, lba, offset, data, status, s')
  {
    hide RegisterOf, RanOut, WriteSucceeds, AfterWrite, Skips, TakesInPlace, OnlyClearsFlash, Accumulates;
    var stale :| |stale| == g.blockSize && WritesOver(g, s, stale, lba, offset, data, true, status, s');
    var at := Span(g.startLba + lba, g.blockSize);
    BlocksInside(g.startLba + lba, 1, g.lastBlock, g.blockSize);
    hide Span;
    FlashDecidesPath(s.mem, stale, at, offset, data);
  }

  /** While both kinds of error are left over no write succeeds; it leaves them both, or
      clears them on the path that erases. */
  lemma WritesFailWhileJammed(g: Geometry, states: seq<ChipState>, requests: seq<Request>, statuses: seq<Status>, k: nat)
    requires IsRun(g, states, requests, statuses) && k < |requests|
    requires Faultless(states) && Servable(g, requests[k])
    requires RegisterOf(states[k]) == BothErrors && requests[k].Write?
    ensures statuses[k] != Success
    ensures RegisterOf(states[k + 1]) == BothErrors || RegisterOf(states[k + 1]) == Healthy
  {
    ProgressAt(g, states, requests, statuses, k);
    hide RegisterOf, IsRun, Servable, Faultless, TakesInPlace, Skips, Span, RanOut;
  }

  /** An erase brings the store back: whatever the requests before it came to, and
      unless a program error alone was left over, everything behind it succeeds and
      the flash is a plain block store again. */
  lemma {:induction false} EraseRecovers(g: Geometry, states: seq<ChipState>, requests: seq<Request>,
                                         statuses: seq<Status>, j: nat)
    requires IsRun(g, states, requests, statuses) && j < |requests|
    requires Faultless(states) && RegisterOf(states[0]) != ProgramError
    requires forall k :: 0 <= k < |requests| ==> Servable(g, requests[k])
    requires requests[j].Erase? && requests[j].list != []
    requires forall k :: j < k < |requests| ==> Exact(g, states[k].mem, requests[k])
    ensures statuses[j] == Success <==> RegisterOf(states[j]) == Healthy || RegisterOf(states[j]) == LockError
    ensures forall k :: j < k < |requests| ==> statuses[k] == Success
    ensures states[|requests|].mem == MeaningOfAll(g, states[j + 1].mem, requests[j + 1..])
  {
    hide Meaning, Servable, MeaningOfAll, Exact, InReach, Step, RegisterOf;
    RegisterOverRun(g, states, requests, statuses, j);
    ProgressAt(g, states, requests, statuses, j);
    NextRegister(g, states[j], requests[j], statuses[j], states[j + 1]);
    var later, asked, told := states[j + 1..], requests[j + 1..], statuses[j + 1..];
    FaultsAccumulate(g, states, requests, statuses, 0, j + 1);
    FaultsAccumulate(g, states, requests, statuses, j + 1, |requests|);
    FaultlessRunIsAStore(g, later, asked, told);
    forall k | j < k < |requests| ensures statuses[k] == Success {
      assert told[k - j - 1] == statuses[k];
    }
  }

  /** The write succeeds if and only if, over some content of the shadow buffer, it takes
      the path that erases and leaves the whole block all ones. */
  ghost predicate OnlyOnesSucceed(g: Geometry, mem: seq<bv8>, lba: nat, offset: nat, data: seq<bv8>, status: Status) {
    exists stale: seq<bv8> ::
      && |stale| == g.blockSize
      && (status == Success
          <==> !TakesInPlace(mem, stale, Span(g.startLba + lba, g.blockSize), offset, data)
               && Skips(g, mem, g.startLba + lba, offset, data))
  }

  lemma WriteWhileStuck(g: Geometry, s: ChipState, lba: nat, offset: nat, data: seq<bv8>, status: Status, s': ChipState)
    requires exists stale: seq<bv8> :: |stale| == g.blockSize && WritesOver(g, s, stale, lba, offset, data, true, status, s')
    requires s'.faults == s.faults && !RanOut(s, s') && RegisterOf(s) == ProgramError
    ensures OnlyOnesSucceed(g, s.mem, lba, offset, data, status)
  {
    hide RegisterOf, RanOut, Accumulates, TakesInPlace, Skips, Span;
    var stale :| |stale| == g.blockSize && WritesOver(g, s, stale, lba, offset, data, true, status, s');
  }

  /** A program error alone is never cleared: in a faultless run every erase succeeds,
      and a write does if and only if it takes the path that erases and leaves the whole
      block all ones. */
  lemma StuckForever(g: Geometry, states: seq<ChipState>, requests: seq<Request>, statuses: seq<Status>, k: nat)
    requires IsRun(g, states, requests, statuses) && k < |requests|
    requires Faultless(states) && RegisterOf(states[0]) == ProgramError
    requires forall i :: 0 <= i < |requests| ==> Servable(g, requests[i])
    ensures RegisterOf(states[k]) == ProgramError
    ensures requests[k].Erase? ==> statuses[k] == Success
    ensures requests[k].Write? ==>
              OnlyOnesSucceed(g, states[k].mem, requests[k].lba, requests[k].offset, requests[k].data, statuses[k])
  {
    hide RegisterOf, OnlyOnesSucceed, WritesOver, Servable, RanOut;
    RegisterOverRun(g, states, requests, statuses, k);
    assert Servable(g, requests[k]);
    ProgressAt(g, states, requests, statuses, k);
    RunShape(g, states, requests, statuses);
    hide IsRun, Faultless;
    if requests[k].Write? {
      WriteWhileStuck(g, states[k], requests[k].lba, requests[k].offset, requests[k].data, statuses[k], states[k + 1]);
    }
  }

  /** From read-array mode a run is back in read-array mode at every point until the
      program buffer is granted on a last poll. */
  lemma {:induction false} StaysInReadArray(g: Geometry, states: seq<ChipState>, requests: seq<Request>,
                                            statuses: seq<Status>, i: nat, k: nat)
    requires IsRun(g, states, requests, statuses) && i <= k <= |requests|
    requires states[i].mode == ReadArray
    requires forall j :: i <= j < k ==> !LastPollEdge(states[j], states[j + 1])
    ensures states[k].mode == ReadArray
    decreases k
  {
    hide Meaning, Servable, Progress, Exact, InReach, LastPollEdge, Jammed;
    if i < k {
      StaysInReadArray(g, states, requests, statuses, i, k - 1);
      assert Step(g, states[k - 1], requests[k - 1], statuses[k - 1], states[k]);
    }
  }

  /** Out of read-array mode, a run without a further edge is back in it as soon as, and
      no sooner than, some request has touched the chip. */
  lemma {:induction false} BackWhenTouched(g: Geometry, states: seq<ChipState>, requests: seq<Request>,
                                           statuses: seq<Status>, i: nat, k: nat)
    requires IsRun(g, states, requests, statuses) && i <= k <= |requests|
    requires states[i].mode != ReadArray
    requires forall j :: i <= j < k ==> !LastPollEdge(states[j], states[j + 1])
    ensures states[k].mode == ReadArray <==> states[k] != states[i]
    decreases k
  {
    hide Meaning, Servable, Progress, Exact, InReach, LastPollEdge, Jammed;
    if i < k {
      BackWhenTouched(g, states, requests, statuses, i, k - 1);
      assert Step(g, states[k - 1], requests[k - 1], statuses[k - 1], states[k]);
    }
  }

  /** After a last-poll edge the chip is out of read-array mode and holds errors, until
      a successful request or the erase of some existing block; from then on it is back
      in read-array mode up to the next edge. */
  lemma EdgeLastsUntilRestored(g: Geometry, states: seq<ChipState>, requests: seq<Request>, statuses: seq<Status>, e: nat, i: nat, k: nat)
    requires IsRun(g, states, requests, statuses) && e < i < k <= |requests|
    requires LastPollEdge(states[e], states[e + 1])
    requires Restores(g, requests[i], statuses[i])
    requires forall j :: e < j < k ==> !LastPollEdge(states[j], states[j + 1])
    ensures requests[e].Write? && statuses[e] != Success
    ensures states[e + 1].mode != ReadArray && RegisterOf(states[e + 1]) != Healthy && RegisterOf(states[e + 1]) != ProgramError
    ensures states[k].mode == ReadArray
  {
    hide Meaning, Servable, Progress, Exact, InReach, LastPollEdge, RegisterOf;
    assert Step(g, states[e], requests[e], statuses[e], states[e + 1]);
    assert Step(g, states[i], requests[i], statuses[i], states[i + 1]);
    StaysInReadArray(g, states, requests, statuses, i + 1, k);
  }

  /** In any run, with any mixture of failures, a byte no request aims at keeps its value. */
  lemma {:induction false} RunKeepsTheRest(g: Geometry, states: seq<ChipState>, requests: seq<Request>,
                                           statuses: seq<Status>, i: nat)
    requires IsRun(g, states, requests, statuses)
    requires i < |states[0].mem|
    requires forall k :: 0 <= k < |requests| ==> !InReach(g, requests[k], i)
    ensures |states[|requests|].mem| == |states[0].mem| && states[|requests|].mem[i] == states[0].mem[i]
  {
    hide Progress, Returns, Servable, Meaning, Exact;
    if requests != [] {
      var n := |requests| - 1;
      RunKeepsTheRest(g, states[..n + 1], requests[..n], statuses[..n], i);
      assert Step(g, states[n], requests[n], statuses[n], states[n + 1]);
      assert !InReach(g, requests[n], i);
    }
  }

  /** Reading back a written range through any later run that leaves it alone. */
  lemma WrittenDataSurvives(g: Geometry, before: ChipState, lba: nat, offset: nat, data: seq<bv8>,
                            states: seq<ChipState>, requests: seq<Request>, statuses: seq<Status>)
    requires Exact(g, before.mem, Write(lba, offset, data))
    requires Span(g.startLba + lba, g.blockSize) + offset + |data| <= |before.mem|
    requires IsRun(g, states, requests, statuses)
    requires Step(g, before, Write(lba, offset, data), Success, states[0])
    requires forall k, i :: 0 <= k < |requests| && offset <= i - Span(g.startLba + lba, g.blockSize) < offset + |data| ==>
               !InReach(g, requests[k], i)
    ensures var at := Span(g.startLba + lba, g.blockSize) + offset;
            |states[|requests|].mem| == |before.mem| && states[|requests|].mem[at..at + |data|] == data
  {
    hide Progress, Returns, Servable, Exact;
    var at := Span(g.startLba + lba, g.blockSize) + offset;
    var last := states[|requests|].mem;
    RunKeepsLength(g, states, requests, statuses);
    assert states[0].mem == Overwritten(before.mem, at, data);
    forall j | 0 <= j < |data| ensures last[at + j] == data[j] {
      RunKeepsTheRest(g, states, requests, statuses, at + j);
    }
  }

  lemma {:induction false} RunKeepsLength(g: Geometry, states: seq<ChipState>, requests: seq<Request>,
                                          statuses: seq<Status>)
    requires IsRun(g, states, requests, statuses)
    ensures |states[|requests|].mem| == |states[0].mem|
  {
    hide Progress, Returns, Servable, Meaning, InReach, Exact;
    if requests != [] {
      var n := |requests| - 1;
      RunKeepsLength(g, states[..n + 1], requests[..n], statuses[..n]);
      assert Step(g, states[n], requests[n], statuses[n], states[n + 1]);
    }
  }
}
