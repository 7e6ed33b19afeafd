/**
  The error bits of the status register survive the operation that set them.
  What the driver makes of them: which bits an operation finds decides, as long
  as the chip has no fault, whether a call succeeds and what it leaves behind.
 */
module NorFlashRegister {
  import opened Uefi
  import opened NorFlashChip

  /** What is left over from earlier operations, as the driver's checks tell it. */
  datatype Register = Healthy | EraseError | ProgramError | BothErrors | LockError

  function RegisterOf(s: ChipState): Register {
    var w := StatusWord(s);
    if Reports(w, SR_BIT_BLOCK_LOCKED) then LockError
    else if ProgramFailed(w) && EraseFailed(w) then BothErrors
    else if ProgramFailed(w) then ProgramError
    else if EraseFailed(w) then EraseError
    else Healthy
  }

  predicate SameRegister(s: ChipState, s': ChipState) { s'.srLo == s.srLo && s'.srHi == s.srHi }

  lemma CleanIsHealthy(s: ChipState)
    requires Clean(s)
    ensures RegisterOf(s) == Healthy
  {}

  lemma SameRegisterSameErrors(s: ChipState, s': ChipState)
    requires SameRegister(s, s')
    ensures RegisterOf(s') == RegisterOf(s) && StatusWord(s') == StatusWord(s)
  {}

  lemma ChecksTell(s: ChipState)
    ensures ProgramFailed(StatusWord(s)) <==> RegisterOf(s) == ProgramError || RegisterOf(s) == BothErrors || RegisterOf(s) == LockError
    ensures EraseFailed(StatusWord(s)) <==> RegisterOf(s) == EraseError || RegisterOf(s) == BothErrors || RegisterOf(s) == LockError
    ensures Reports(StatusWord(s), SR_BIT_BLOCK_LOCKED) <==> RegisterOf(s) == LockError
  {}

  predicate Shows(sr: bv8, bit: bv8) { (sr | SR_BIT_WRITE) & bit != 0 }

  predicate Subsumes(x: bv8, y: bv8) { x & y == x }

  lemma BitSticks(x: bv8, y: bv8, bit: bv8)
    requires Subsumes(x, y)
    ensures Shows(x, bit) ==> Shows(y, bit)
  {}

  lemma ReportsShows(s: ChipState, bit: bv8)
    ensures Reports(StatusWord(s), bit) <==> Shows(s.srLo, bit) || Shows(s.srHi, bit)
  {}

  /** No operation clears a status bit. */
  predicate Sticky(s: ChipState, s': ChipState) {
    Subsumes(s.srLo, s'.srLo) && Subsumes(s.srHi, s'.srHi)
  }

  lemma ErrorsStick(s: ChipState, s': ChipState)
    requires Sticky(s, s')
    ensures ProgramFailed(StatusWord(s)) ==> ProgramFailed(StatusWord(s'))
    ensures EraseFailed(StatusWord(s)) ==> EraseFailed(StatusWord(s'))
  {
    ReportSticks(s, s', SR_BIT_VPP);
    ReportSticks(s, s', SR_BIT_ERASE);
    ReportSticks(s, s', SR_BIT_PROGRAM);
    ReportSticks(s, s', SR_BIT_BLOCK_LOCKED);
    hide Reports, StatusWord;
  }

  lemma ReportSticks(s: ChipState, s': ChipState, bit: bv8)
    requires Sticky(s, s')
    ensures Reports(StatusWord(s), bit) ==> Reports(StatusWord(s'), bit)
  {
    hide Shows, Subsumes, Reports, StatusWord;
    BitSticks(s.srLo, s'.srLo, bit);
    BitSticks(s.srHi, s'.srHi, bit);
    ReportsShows(s, bit);
    ReportsShows(s', bit);
  }

  /** A program operation is seen to fail if and only if its block is locked, the chip
      had a fault, or an error was left over that the check for programs looks at. */
  lemma SettleProgram(s: ChipState, at: nat, data: seq<bv8>, s': ChipState)
    requires WellFormed(s) && ProgramStep(s, at, data, s')
    ensures ProgramFailed(StatusWord(s'))
            <==> BlockOf(at, s.blockSize) in s.locked || s'.faults != s.faults || ProgramFailed(StatusWord(s))
  {
    ErrorsStick(s, s');
    hide Programmed;
    if BlockOf(at, s.blockSize) !in s.locked && s'.faults == s.faults {
      SameRegisterSameErrors(s, s');
    }
  }

  /** The same for an erase and its check. */
  lemma SettleErase(s: ChipState, at: nat, s': ChipState)
    requires WellFormed(s) && EraseStep(s, at, s')
    ensures EraseFailed(StatusWord(s'))
            <==> BlockOf(at, s.blockSize) in s.locked || s'.faults != s.faults || EraseFailed(StatusWord(s))
  {
    ErrorsStick(s, s');
    hide Blanked;
    if BlockOf(at, s.blockSize) !in s.locked && s'.faults == s.faults {
      SameRegisterSameErrors(s, s');
    }
  }

  /** A fault of the chip shows in the bits it chooses: from a clean register and on an
      unlocked block, a program can leave a program error alone, and an erase an erase
      error alone. */
  lemma LoneErrorsArise(s: ChipState, at: nat, data: seq<bv8>) returns (programmed: ChipState, erased: ChipState)
    requires WellFormed(s) && Clean(s) && BlockOf(at, s.blockSize) !in s.locked
    ensures ProgramStep(s, at, data, programmed) && RegisterOf(programmed) == ProgramError
    ensures EraseStep(s, at, erased) && RegisterOf(erased) == EraseError
  {
    programmed := s.(mode := ReadStatus, srLo := SR_BIT_PROGRAM, faults := s.faults + 1);
    erased := s.(mode := ReadStatus, srLo := SR_BIT_ERASE, faults := s.faults + 1);
  }

  const MAX_BUFFERED_PROG_ITERATIONS: nat := 10000000

  /** The polls for the program buffer ran out: before its last answer, the chip has
      refused it as often as the driver asks but once. */
  ghost predicate RanOut(s: ChipState, s': ChipState) {
    && |s.answers| + MAX_BUFFERED_PROG_ITERATIONS <= |s'.answers|
    && forall i :: |s'.answers| - MAX_BUFFERED_PROG_ITERATIONS <= i < |s'.answers| - 1 ==> !s'.answers[i]
  }

  predicate LastGranted(s: ChipState) { s.answers != [] && s.answers[|s.answers| - 1] }

  /** The buffer became available exactly on the last poll allowed. */
  ghost predicate LastPollEdge(s: ChipState, s': ChipState) { RanOut(s, s') && LastGranted(s') }

  /** Whoever asked for the buffer got it, and not on the last poll. */
  ghost predicate GrantedInTime(s: ChipState, s': ChipState) {
    s.answers <= s'.answers && (s'.answers == s.answers || LastGranted(s')) && !RanOut(s, s')
  }

  lemma NobodyAsked(s: ChipState, s': ChipState)
    requires s'.answers == s.answers
    ensures !RanOut(s, s') && !LastPollEdge(s, s') && GrantedInTime(s, s')
  {}

  /** Behind a buffer granted in time, the polls are counted anew. */
  lemma PollsAnew(s: ChipState, s1: ChipState, s2: ChipState)
    requires GrantedInTime(s, s1) && s1.answers <= s2.answers
    ensures s.answers <= s2.answers
    ensures RanOut(s, s2) <==> RanOut(s1, s2)
    ensures LastPollEdge(s, s2) <==> LastPollEdge(s1, s2)
    ensures GrantedInTime(s1, s2) ==> GrantedInTime(s, s2)
  {
    if RanOut(s, s2) && s1.answers != s.answers {
      assert s2.answers[|s1.answers| - 1];
      assert s1.answers == s2.answers ==> RanOut(s, s1);
    }
  }

  predicate AllOnes(data: seq<bv8>) { forall i :: 0 <= i < |data| ==> data[i] == 0xFF }

  /** Neither a fault nor a buffer not granted in time nor an obstacle of the caller's
      making stands in the way. */
  ghost predicate Unhindered(s: ChipState, s': ChipState, able: bool) {
    able && s'.faults == s.faults && !RanOut(s, s')
  }

  /** Faults and answers only accumulate, and success takes a buffer granted in time. */
  ghost predicate Accumulates(s: ChipState, s': ChipState, status: Status) {
    && s.faults <= s'.faults && s.answers <= s'.answers
    && (status == Success ==> GrantedInTime(s, s'))
  }

  lemma UnhinderedParts(s: ChipState, s1: ChipState, s2: ChipState, able: bool, status: Status)
    requires Accumulates(s, s1, Success) && Accumulates(s1, s2, status)
    ensures Unhindered(s, s2, able) ==> Unhindered(s, s1, able) && Unhindered(s1, s2, able)
    ensures Accumulates(s, s2, status)
  {
    PollsAnew(s, s1, s2);
  }

  /** What becomes of program operations that skip everything, or do not: they go
      through unless a program error was left over, and then only skipping succeeds. */
  ghost predicate Programs(s: ChipState, s': ChipState, able: bool, status: Status, skips: bool) {
    && Accumulates(s, s', status)
    && (Unhindered(s, s', able) ==>
          match RegisterOf(s)
          case Healthy => status == Success && RegisterOf(s') == Healthy
          case EraseError => status == Success && RegisterOf(s') == if skips then EraseError else Healthy
          case _ => (status == Success <==> skips) && RegisterOf(s') == RegisterOf(s))
  }

  /** What becomes of programs out of the buffer, at least one: they go through exactly
      if no program error was left over, and then they clear the register. */
  ghost predicate Patches(s: ChipState, s': ChipState, able: bool, status: Status) {
    && Accumulates(s, s', status)
    && (Unhindered(s, s', able) ==>
          && (status == Success <==> RegisterOf(s) == Healthy || RegisterOf(s) == EraseError)
          && RegisterOf(s') == if status == Success then Healthy else RegisterOf(s))
  }

  /** What becomes of erases: an erase error fails them once and is cleared, a lock
      error is cleared by the retry, and a program error is neither noticed nor cleared. */
  ghost predicate Erases(s: ChipState, s': ChipState, able: bool, status: Status) {
    && s.faults <= s'.faults && s'.answers == s.answers
    && (able && s'.faults == s.faults ==>
          && (status == Success <==> RegisterOf(s) != EraseError && RegisterOf(s) != BothErrors)
          && RegisterOf(s') == if RegisterOf(s) == ProgramError then ProgramError else Healthy)
  }

  /** What becomes of whole blocks that are erased and programmed, unless every chunk of
      the data is skipped. */
  ghost predicate Rewrites(s: ChipState, s': ChipState, able: bool, status: Status, skips: bool) {
    && Accumulates(s, s', status)
    && (Unhindered(s, s', able) ==>
          match RegisterOf(s)
          case Healthy => status == Success && RegisterOf(s') == Healthy
          case LockError => status == Success && RegisterOf(s') == Healthy
          case ProgramError => (status == Success <==> skips) && RegisterOf(s') == ProgramError
          case _ => status != Success && RegisterOf(s') == Healthy)
  }

  /** What becomes of a block write on either path: in place it is programmed on top of
      the old data, otherwise the block is rewritten.  An erase error only harms the
      rewriting, a lock error only the path in place, and behind a lone program error
      nothing succeeds but the rewriting of a block that ends up all ones. */
  ghost predicate Writes(s: ChipState, s': ChipState, able: bool, status: Status, inPlace: bool, skips: bool) {
    && Accumulates(s, s', status)
    && (Unhindered(s, s', able) ==>
          && (status == Success <==> WriteSucceeds(RegisterOf(s), inPlace, skips))
          && RegisterOf(s') == AfterWrite(RegisterOf(s), inPlace))
  }

  predicate WriteSucceeds(r: Register, inPlace: bool, skips: bool) {
    match r
    case Healthy => true
    case EraseError => inPlace
    case ProgramError => !inPlace && skips
    case BothErrors => false
    case LockError => !inPlace
  }

  function AfterWrite(r: Register, inPlace: bool): Register {
    match r
    case Healthy => Healthy
    case EraseError => Healthy
    case ProgramError => ProgramError
    case BothErrors => if inPlace then BothErrors else Healthy
    case LockError => if inPlace then LockError else Healthy
  }

  lemma NothingPrograms(s: ChipState, able: bool)
    ensures Programs(s, s, able, Success, true)
  {
    hide RegisterOf;
    NobodyAsked(s, s);
  }

  lemma ProgramsThenPrograms(s: ChipState, s1: ChipState, s2: ChipState, able: bool, status: Status, first: bool, second: bool)
    requires Programs(s, s1, able, Success, first) && Programs(s1, s2, able, status, second)
    ensures Programs(s, s2, able, status, first && second)
  {
    hide RegisterOf, Unhindered, Accumulates;
    UnhinderedParts(s, s1, s2, able, status);
  }

  lemma ProgramsRestated(s: ChipState, s': ChipState, able: bool, able': bool, status: Status, skips: bool, skips': bool)
    requires Programs(s, s', able, status, skips) && (able' ==> able)
    requires if status == Success then skips == skips' else skips' ==> skips
    ensures Programs(s, s', able', status, skips')
  {
    hide RegisterOf, Accumulates, RanOut;
  }

  lemma PatchesThenPatches(s: ChipState, s1: ChipState, s2: ChipState, able: bool, status: Status)
    requires Patches(s, s1, able, Success) && Patches(s1, s2, able, status)
    ensures Patches(s, s2, able, status)
  {
    hide RegisterOf, Unhindered, Accumulates;
    UnhinderedParts(s, s1, s2, able, status);
  }

  lemma PatchesAreProgress(s: ChipState, s': ChipState, able: bool, status: Status)
    requires Patches(s, s', able, status)
    ensures Programs(s, s', able, status, false)
  {
    hide RegisterOf, Unhindered, Accumulates;
  }

  lemma ErasesThenErases(s: ChipState, s1: ChipState, s2: ChipState, status: Status)
    requires Erases(s, s1, true, Success) && Erases(s1, s2, true, status)
    ensures Erases(s, s2, true, status)
  {
    hide RegisterOf;
  }

  lemma ErasesRestated(s: ChipState, s': ChipState, status: Status, status': Status)
    requires Erases(s, s', true, status) && (status' == Success <==> status == Success)
    ensures Erases(s, s', true, status')
  {}

  lemma NothingErases(s: ChipState)
    ensures Erases(s, s, false, Success)
  {}

  lemma RewritesThenRewrites(s: ChipState, s1: ChipState, s2: ChipState, able: bool, status: Status, first: bool, second: bool)
    requires Rewrites(s, s1, true, Success, first) && Rewrites(s1, s2, able, status, second)
    ensures Rewrites(s, s2, able, status, first && second)
  {
    UnhinderedParts(s, s1, s2, able, status);
    hide RegisterOf, Accumulates, RanOut;
  }

  lemma ErasesAccumulate(s: ChipState, s1: ChipState, s2: ChipState, able1: bool, able: bool, status: Status, status1: Status)
    requires Erases(s, s1, able1, status1) && Accumulates(s1, s2, status)
    ensures Accumulates(s, s1, status1) && Accumulates(s, s2, status)
    ensures Unhindered(s, s2, able) ==> s1.faults == s.faults && Unhindered(s1, s2, able)
  {
    NobodyAsked(s, s1);
    PollsAnew(s, s1, s2);
    hide RegisterOf;
  }

  /** An erase followed by programming the block is a rewrite. */
  lemma EraseThenProgram(s: ChipState, s1: ChipState, s2: ChipState, able: bool, status: Status, skips: bool)
    requires Erases(s, s1, true, Success) && Programs(s1, s2, able, status, skips)
    ensures Rewrites(s, s2, able, status, skips)
  {
    ErasesAccumulate(s, s1, s2, true, able, status, Success);
    hide RegisterOf, Accumulates, RanOut;
  }

  /** An erase that fails ends the rewrite. */
  lemma FailedErase(s: ChipState, s': ChipState, able: bool, able': bool, status: Status, skips: bool)
    requires Erases(s, s', able, status) && status != Success && (able' ==> able)
    ensures Rewrites(s, s', able', status, skips)
  {
    hide RegisterOf;
    NobodyAsked(s, s');
  }

  /** Only the register, the faults and the answers matter, at the start and at the end. */
  predicate SameProgress(s: ChipState, s': ChipState) {
    SameRegister(s, s') && s'.faults == s.faults && s'.answers == s.answers
  }

  lemma ElsewhereAlike(s: ChipState, s1: ChipState, s2: ChipState, s': ChipState, able: bool, status: Status)
    requires SameProgress(s, s1) && s'.faults == s2.faults && s'.answers == s2.answers
    ensures RegisterOf(s) == RegisterOf(s1)
    ensures Accumulates(s1, s2, status) <==> Accumulates(s, s', status)
    ensures Unhindered(s1, s2, able) <==> Unhindered(s, s', able)
    ensures SameRegister(s2, s') ==> RegisterOf(s2) == RegisterOf(s')
  {
    SameRegisterSameErrors(s, s1);
    if SameRegister(s2, s') {
      SameRegisterSameErrors(s2, s');
    }
    hide RegisterOf;
  }

  lemma RewritesElsewhere(s: ChipState, s1: ChipState, s2: ChipState, s': ChipState, able: bool, status: Status, skips: bool)
    requires SameProgress(s, s1) && s'.faults == s2.faults && s'.answers == s2.answers
    requires Unhindered(s1, s2, able) ==> SameRegister(s2, s')
    requires Rewrites(s1, s2, able, status, skips)
    ensures Rewrites(s, s', able, status, skips)
  {
    ElsewhereAlike(s, s1, s2, s', able, status);
    hide RegisterOf, Unhindered, Accumulates, SameRegister;
  }

  lemma RewritesRestated(s: ChipState, s': ChipState, able: bool, able': bool, status: Status, status': Status,
                         skips: bool, skips': bool)
    requires Rewrites(s, s', able, status, skips) && (able' ==> able) && (status' == Success <==> status == Success)
    requires if status == Success then skips == skips' else skips' ==> skips
    ensures Rewrites(s, s', able', status', skips')
  {
    hide RegisterOf, RanOut, GrantedInTime;
  }

  lemma PatchesElsewhere(s: ChipState, s1: ChipState, s2: ChipState, s': ChipState, able: bool, able': bool, status: Status)
    requires SameProgress(s, s1) && s'.faults == s2.faults && s'.answers == s2.answers
    requires (able' ==> able) && (Unhindered(s1, s2, able) ==> SameRegister(s2, s'))
    requires Patches(s1, s2, able, status)
    ensures Patches(s, s', able', status)
  {
    ElsewhereAlike(s, s1, s2, s', able, status);
    hide RegisterOf, Accumulates, SameRegister, RanOut;
  }

  lemma PatchesRestated(s: ChipState, s': ChipState, able: bool, able': bool, status: Status)
    requires Patches(s, s', able, status) && (able' ==> able)
    ensures Patches(s, s', able', status)
  {
    hide RegisterOf, Accumulates, RanOut;
  }

  lemma PatchesAreWrites(s: ChipState, s': ChipState, able: bool, status: Status, skips: bool)
    requires Patches(s, s', able, status)
    ensures Writes(s, s', able, status, true, skips)
  {
    hide RegisterOf, Unhindered, Accumulates;
  }

  lemma NothingWritten(s: ChipState, status: Status, inPlace: bool, skips: bool)
    ensures Writes(s, s, false, status, inPlace, skips)
  {
    NobodyAsked(s, s);
  }

  /** What stands in the way of a write, and which path it takes, matters only if it can
      be done. */
  lemma WritesRestated(s: ChipState, s': ChipState, able: bool, able': bool, status: Status, inPlace: bool, inPlace': bool,
                       skips: bool, skips': bool)
    requires Writes(s, s', able, status, inPlace, skips)
    requires able' ==> able && inPlace == inPlace' && skips == skips'
    ensures Writes(s, s', able', status, inPlace', skips')
  {
    hide RegisterOf, Accumulates, RanOut;
  }

  /** An erase followed by a write is a rewrite. */
  lemma EraseThenWrite(s: ChipState, s1: ChipState, s2: ChipState, able1: bool, able: bool, status: Status, inPlace: bool, skips: bool)
    requires Erases(s, s1, able1, Success) && Writes(s1, s2, able, status, inPlace, skips)
    ensures Rewrites(s, s2, able1 && able, status, !inPlace && skips)
  {
    ErasesAccumulate(s, s1, s2, able1, able1 && able, status, Success);
    hide RegisterOf, Accumulates, RanOut;
  }

  lemma RewritesAreWrites(s: ChipState, s': ChipState, able: bool, status: Status, skips: bool)
    requires Rewrites(s, s', able, status, skips)
    ensures Writes(s, s', able, status, false, skips)
  {
    hide RegisterOf, Unhindered, Accumulates;
  }

  lemma OnesAreNeutral(x: bv8)
    ensures x & 0xFF == x && 0xFF & x == x
  {}
}
