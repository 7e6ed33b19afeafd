/**
  The cfi-flash driver: command sequences on the chip, buffered programming,
  block erase and the block write that avoids an erase whenever it can.
 */
module NorFlash {
  import opened Uefi
  import opened Arithmetic
  import opened NorFlashChip
  import opened NorFlashSpec
  import opened NorFlashRegister

  const NOR_FLASH_ERASE_RETRY: nat := 10

  /** The buffer has been asked for n times in a row: only the last answer can be positive. */
  ghost predicate Polled(s: ChipState, s': ChipState, n: nat) {
    && s.answers <= s'.answers && |s'.answers| == |s.answers| + n && n <= MAX_BUFFERED_PROG_ITERATIONS
    && forall i :: |s.answers| <= i < |s'.answers| - 1 ==> !s'.answers[i]
  }

  lemma PollsTell(s: ChipState, s': ChipState, n: nat)
    requires Polled(s, s', n) && 0 < n
    ensures RanOut(s, s') <==> n == MAX_BUFFERED_PROG_ITERATIONS
    ensures GrantedInTime(s, s') <==> n < MAX_BUFFERED_PROG_ITERATIONS && LastGranted(s')
  {}

  /** A program operation has been issued at `at` and has come to an end. */
  ghost predicate Issued(s: ChipState, s': ChipState, at: nat, data: seq<bv8>)
    requires WellFormed(s)
  {
    s'.busy == 0 && ProgramStep(s, at, data, s')
  }

  /** The command mode it was issued in and the wait for its end make no difference. */
  lemma OperationEnds(s: ChipState, setup: ChipState, at: nat, data: seq<bv8>, started: ChipState, s': ChipState)
    requires WellFormed(s) && setup == s.(mode := setup.mode) && s' == started.(busy := 0)
    ensures ProgramStep(setup, at, data, started) ==> ProgramStep(s, at, data, s') && s'.mode == ReadStatus
    ensures EraseStep(setup, at, started) ==> EraseStep(s, at, s') && s'.mode == ReadStatus
  {
    SameStatus(started, s');
    SameStart(s, setup, at, |data|, started, s');
    SameStart(s, setup, Span(BlockOf(at, s.blockSize), s.blockSize), s.blockSize, started, s');
    SameHarm(s, setup, at, started, s');
    hide StatusWord, Reports, ProgramFailed, EraseFailed, Programmed, Blanked, BlockOf, Span, Started, Harmless;
  }

  lemma SameStatus(s: ChipState, s': ChipState)
    requires s' == s.(busy := 0)
    ensures StatusWord(s') == StatusWord(s)
  {}

  lemma SameStart(s: ChipState, setup: ChipState, at: nat, n: nat, started: ChipState, s': ChipState)
    requires setup == s.(mode := setup.mode) && s' == started.(busy := 0)
    ensures Started(setup, at, n, started) ==> Started(s, at, n, s') && s'.mode == ReadStatus
  {
    hide SameOutside;
  }

  lemma SameHarm(s: ChipState, setup: ChipState, at: nat, started: ChipState, s': ChipState)
    requires WellFormed(s) && setup == s.(mode := setup.mode) && s' == started.(busy := 0)
    ensures Harmless(setup, at, started) ==> Harmless(s, at, s')
  {
    hide BlockOf;
  }

  /** What programming `data` at `at` comes to once the chip has the data: it goes
      through exactly if the block is unlocked, the chip has no fault and no program
      error was left over, and only then the register is cleared. */
  ghost predicate ProgramOutcome(s: ChipState, s': ChipState, at: nat, data: seq<bv8>, status: Status)
    requires s.blockSize > 0
  {
    && Idle(s') && SameOutside(s.mem, s'.mem, at, |data|) && s'.locked == s.locked
    && s.faults <= s'.faults && s'.answers == s.answers
    && (status == Success || status == DeviceError)
    && (status == Success ==> s'.mem == Programmed(s.mem, at, data) && Clean(s'))
    && (status == Success <==>
          BlockOf(at, s.blockSize) !in s.locked && s'.faults == s.faults && !ProgramFailed(StatusWord(s)))
    && (BlockOf(at, s.blockSize) !in s.locked && s'.faults == s.faults && status != Success ==> SameRegister(s, s'))
  }

  lemma OutcomePatches(s: ChipState, s': ChipState, at: nat, data: seq<bv8>, able: bool, status: Status)
    requires s.blockSize > 0 && ProgramOutcome(s, s', at, data, status)
    requires able ==> BlockOf(at, s.blockSize) !in s.locked
    ensures Patches(s, s', able, status)
  {
    hide Programmed, StatusWord, Reports, GrantedInTime, RanOut;
    NobodyAsked(s, s');
    ChecksTell(s);
    if status == Success {
      CleanIsHealthy(s');
    } else if Unhindered(s, s', able) {
      SameRegisterSameErrors(s, s');
    }
    hide RegisterOf, ProgramFailed;
  }

  /** The polls before it do not matter to what becomes of a program. */
  lemma PatchesBehindPolls(s: ChipState, ready: ChipState, s': ChipState, able: bool, status: Status)
    requires SameRegister(s, ready) && ready.faults == s.faults && s'.answers == ready.answers && GrantedInTime(s, s')
    requires Patches(ready, s', able, status)
    ensures Patches(s, s', able, status)
  {
    SameRegisterSameErrors(s, ready);
    NobodyAsked(ready, s');
    hide RegisterOf, RanOut;
  }

  lemma NothingPatched(s: ChipState, s': ChipState, able: bool, status: Status)
    requires s.faults <= s'.faults && s.answers <= s'.answers && status != Success && (able ==> RanOut(s, s'))
    ensures Patches(s, s', able, status)
  {
    hide RegisterOf, RanOut;
  }

  /** The outcome of programming `data` at flash offset `at` through the buffer:
      success means every addressed cell was ANDed, failure damages nothing
      else, and the chip holds a granted buffer exactly on the last-poll edge. */
  ghost predicate BufferedOutcome(s: ChipState, s': ChipState, at: nat, data: seq<bv8>, status: Status) {
    && s.answers <= s'.answers && s'.locked == s.locked
    && s'.busy == 0 && (Idle(s') || s'.mode.BufferSetup?)
    && SameOutside(s.mem, s'.mem, at, |data|)
    && (status == Success ==> Idle(s') && GrantedInTime(s, s') && s'.mem == Programmed(s.mem, at, data))
    && (s'.mode == BufferSetup(true) <==> LastPollEdge(s, s'))
  }

  lemma NothingBuffered(s: ChipState, at: nat, data: seq<bv8>, status: Status)
    requires Idle(s) && (status == Success ==> Programmed(s.mem, at, data) == s.mem)
    ensures BufferedOutcome(s, s, at, data, status)
  {
    NobodyAsked(s, s);
    hide RanOut;
  }

  /** A granted buffer that has been used, or one that was not granted. */
  lemma BufferUsed(s: ChipState, ready: ChipState, s': ChipState, n: nat, at: nat, data: seq<bv8>, status: Status)
    requires Idle(s) && Polled(s, ready, n) && 0 < n && ready.mode.BufferSetup? && LastGranted(ready) == ready.mode.available
    requires ready == s.(mode := BufferSetup(ready.mode.available), answers := ready.answers) && s.blockSize > 0
    requires if n < MAX_BUFFERED_PROG_ITERATIONS then ready.mode.available && ProgramOutcome(ready, s', at, data, status)
             else s' == ready && status == DeviceError
    ensures BufferedOutcome(s, s', at, data, status) && Polled(s, s', n)
    ensures RanOut(s, s') <==> n == MAX_BUFFERED_PROG_ITERATIONS
    ensures n < MAX_BUFFERED_PROG_ITERATIONS ==> SameProgress(s.(answers := s'.answers), ready) && GrantedInTime(s, s')
  {
    PollsTell(s, ready, n);
    hide Programmed, StatusWord, Reports, ProgramFailed;
  }

  /** One erase attempt: it goes through exactly if the block is unlocked, the chip has
      no fault and no erase error was left over; a failure clears the register. */
  ghost predicate EraseOutcome(s: ChipState, s': ChipState, locked: bool, status: Status) {
    && s.faults <= s'.faults && s'.answers == s.answers
    && (status == Success <==> !locked && s'.faults == s.faults && !EraseFailed(StatusWord(s)))
    && (if status == Success then SameRegister(s, s') else Clean(s'))
    && (!locked && s'.faults == s.faults ==> (status == WriteProtected <==> RegisterOf(s) == LockError))
  }

  /** After `index` attempts on an unlocked block; without a fault, only a lock error
      left over from before the first one makes for a second. */
  ghost predicate EraseTries(start: ChipState, s: ChipState, index: nat, status: Status, retry: bool) {
    && start.faults <= s.faults && s.answers == start.answers
    && (!retry ==> Erases(start, s, true, status))
    && (retry && s.faults == start.faults ==> index == 1 && RegisterOf(start) == LockError && RegisterOf(s) == Healthy)
  }

  lemma NextEraseTry(start: ChipState, round: ChipState, unlocked: ChipState, now: ChipState, index: nat, last: Status,
                     status: Status, retry: bool)
    requires SameProgress(round, unlocked)
    requires index > 0 && if index == 1 then round == start else EraseTries(start, round, index - 1, last, true)
    requires EraseOutcome(unlocked, now, false, status)
    requires retry <==> index < NOR_FLASH_ERASE_RETRY && status == WriteProtected
    ensures EraseTries(start, now, index, status, retry)
  {
    hide StatusWord, Reports, EraseFailed, ProgramFailed;
    SameRegisterSameErrors(round, unlocked);
    ChecksTell(unlocked);
    if status == Success {
      SameRegisterSameErrors(unlocked, now);
    } else {
      CleanIsHealthy(now);
    }
    hide RegisterOf, Clean, SameRegister;
  }

  /** The chip took the command that was to bring it back for a word count, and
      aborted: it shows its status, and the register holds both kinds of error. */
  ghost predicate Jammed(s: ChipState) {
    s.mode == ReadStatus && (RegisterOf(s) == BothErrors || RegisterOf(s) == LockError)
  }

  lemma AbortingJams(s: ChipState)
    ensures Jammed(Aborted(s))
  {}

  /** A call that touched the chip has left it in read-array mode, except on the
      last-poll edge. */
  ghost predicate ReturnsToArray(s: ChipState, s': ChipState) {
    && (s' == s || (s'.mode == ReadArray <==> !LastPollEdge(s, s')))
    && (LastPollEdge(s, s') ==> Jammed(s'))
  }

  /** The address and size a buffered program accepts. */
  predicate Bufferable(targetAddress: nat, data: seq<bv8>) {
    targetAddress % BOUNDARY == 0 && 0 < |data| <= MAX_BUFFER_SIZE_IN_BYTES && |data| % 4 == 0
  }

  /** The words of a 32-bit-word buffer. */
  function WordAt(data: seq<bv8>, i: nat): (w: Word)
    requires 4 * i + 4 <= |data|
    ensures Bytes(w) == data[4 * i..4 * i + 4]
  {
    Word(data[4 * i], data[4 * i + 1], data[4 * i + 2], data[4 * i + 3])
  }

  class Instance {
    const chip: Chip
    const regionBase: nat
    const size: nat
    const startLba: nat
    const lastBlock: nat
    const blockSize: nat
    const shadow: array<bv8>

    ghost predicate Valid()
      reads this, chip
    {
      && chip.base == regionBase && regionBase + size <= TWO_64
      && |chip.st.mem| == size && chip.st.blockSize == blockSize && WellFormed(chip.st)
      && blockSize % 4 == 0 && 3 * BOUNDARY <= blockSize < TWO_32
      && size == Span(lastBlock + 1, blockSize)
      && shadow.Length == blockSize
    }

    constructor (chip: Chip, size: nat, startLba: nat, blockSize: nat)
      requires WellFormed(chip.st) && |chip.st.mem| == size && chip.st.blockSize == blockSize
      requires chip.base + size <= TWO_64
      requires blockSize > 0 && size % blockSize == 0
      requires blockSize % 4 == 0 && 3 * BOUNDARY <= blockSize < TWO_32 && blockSize <= size
      ensures Valid() && fresh(shadow)
      ensures this.chip == chip && this.startLba == startLba
    {
      this.chip := chip;
      this.regionBase := chip.base;
      this.size := size;
      this.startLba := startLba;
      this.lastBlock := size / blockSize - 1;
      WholeBlocks(size, blockSize);
      this.blockSize := blockSize;
      this.shadow := new bv8[blockSize];
    }

    /** Flash offset of a block; GET_NOR_BLOCK_ADDRESS without the region base. */
    function BlockOffset(lba: nat): nat { Span(lba, blockSize) }

    /** A block of the flash, by address. */
    ghost predicate IsBlock(addr: nat)
      reads this, chip
    {
      && regionBase <= addr && addr - regionBase + blockSize <= size
      && blockSize > 0 && addr - regionBase == Span(BlockOf(addr - regionBase, blockSize), blockSize)
    }

    /** SEND_NOR_COMMAND (Instance->DeviceBaseAddress, 0, cmd). */
    method SendCommand(cmd: bv8)
      requires Valid()
      modifies chip
      ensures Valid()
      ensures WriteStep(old(chip.st), 0, DualCmd(cmd), chip.st)
    {
      hide WriteStep;
      ghost var before := chip.st;
      chip.Write32(regionBase, DualCmd(cmd));
      StepKeepsShape(before, 0, DualCmd(cmd), chip.st);
    }

    /** Puts the device back into read-array mode.  A chip that granted the
        program buffer takes this command for a word count and aborts. */
    method EnterReadArray()
      requires Valid() && chip.st.busy == 0
      requires Idle(chip.st) || chip.st.mode.BufferSetup?
      modifies chip
      ensures Valid() && Idle(chip.st)
      ensures chip.st == if old(chip.st.mode) == BufferSetup(true) then Aborted(old(chip.st))
                         else old(chip.st).(mode := ReadArray)
    {
      SendCommand(CMD_READ_ARRAY);
    }

    method ReadStatusRegister() returns (w: Word)
      requires Valid() && chip.st.mode == ReadStatus
      modifies chip
      ensures Valid()
      ensures ReadStep(old(chip.st), 0, w, chip.st)
    {
      SendCommand(CMD_READ_STATUS_REGISTER);
      w := chip.Read32(regionBase);
    }

    /** Polls the status register until both parts are done. */
    method AwaitReady() returns (w: Word)
      requires Valid() && chip.st.mode == ReadStatus
      modifies chip
      ensures Valid()
      ensures chip.st == old(chip.st).(busy := 0)
      ensures w == StatusWord(chip.st)
    {
      w := ReadStatusRegister();
      while !Ready(w)
        invariant Valid()
        invariant chip.st == old(chip.st).(busy := chip.st.busy)
        invariant Ready(w) ==> chip.st.busy == 0 && w == StatusWord(chip.st)
        decreases chip.st.busy, !Ready(w)
      {
        w := ReadStatusRegister();
      }
    }

    /** NorFlashBlockIsLocked: leaves the chip in read-id mode. */
    method BlockIsLocked(blockAddress: nat) returns (isLocked: bool)
      requires Valid() && Idle(chip.st) && IsBlock(blockAddress)
      modifies chip
      ensures Valid()
      ensures chip.st == old(chip.st).(mode := ReadId)
      ensures isLocked <==> BlockOf(blockAddress - regionBase, blockSize) in chip.st.locked
    {
      chip.Write32(blockAddress + 8, DualCmd(CMD_READ_DEVICE_ID));
      var w := chip.Read32(blockAddress + 8);
      BlockOfSpan(BlockOf(blockAddress - regionBase, blockSize), 8, blockSize);
      isLocked := (w.b0 | w.b2) & 1 != 0;
    }

    method UnlockSingleBlock(blockAddress: nat)
      requires Valid() && Idle(chip.st) && IsBlock(blockAddress)
      modifies chip
      ensures Valid()
      ensures chip.st == old(chip.st).(mode := ReadArray, locked := chip.st.locked)
      ensures chip.st.locked == old(chip.st.locked) - {BlockOf(blockAddress - regionBase, blockSize)}
    {
      chip.Write32(blockAddress, DualCmd(CMD_LOCK_BLOCK_SETUP));
      chip.Write32(blockAddress, DualCmd(CMD_CONFIRM));
      var w := AwaitReady();
      chip.Write32(blockAddress, DualCmd(CMD_READ_ARRAY));
    }

    method UnlockSingleBlockIfNecessary(blockAddress: nat) returns (status: Status)
      requires Valid() && Idle(chip.st) && IsBlock(blockAddress)
      modifies chip
      ensures Valid() && Idle(chip.st) && status == Success
      ensures chip.st == old(chip.st).(mode := chip.st.mode, locked := chip.st.locked)
      ensures chip.st.locked == old(chip.st.locked) - {BlockOf(blockAddress - regionBase, blockSize)}
    {
      status := Success;
      var isLocked := BlockIsLocked(blockAddress);
      if isLocked {
        UnlockSingleBlock(blockAddress);
      }
    }

    /** A successful erase leaves the block all ones; whatever happens, the
        other blocks are untouched and the chip ends in read-array mode. */
    method EraseSingleBlock(blockAddress: nat) returns (status: Status)
      requires Valid() && Idle(chip.st) && IsBlock(blockAddress)
      modifies chip
      ensures Valid() && Idle(chip.st) && chip.st.mode == ReadArray
      ensures SameOutside(old(chip.st.mem), chip.st.mem, blockAddress - regionBase, blockSize)
      ensures status == Success ==>
                chip.st.mem == Blanked(old(chip.st.mem), blockAddress - regionBase, blockSize)
      ensures chip.st.locked == old(chip.st.locked)
      ensures EraseOutcome(old(chip.st), chip.st, BlockOf(blockAddress - regionBase, blockSize) in old(chip.st.locked), status)
    {
      ghost var before := chip.st;
      var w := IssueErase(blockAddress);
      SettleErase(before, blockAddress - regionBase, chip.st);
      if Harmless(before, blockAddress - regionBase, chip.st) && SameRegister(before, chip.st) {
        SameRegisterSameErrors(before, chip.st);
      }
      hide EraseFailed, Reports, StatusWord, Blanked;
      status := EraseStatus(w);
      if status.IsError() {
        SendCommand(CMD_CLEAR_STATUS_REGISTER);
      }
      SendCommand(CMD_READ_ARRAY);
    }

    method SetUpErase(blockAddress: nat)
      requires Valid() && Idle(chip.st) && IsBlock(blockAddress)
      modifies chip
      ensures Valid() && chip.st == old(chip.st).(mode := EraseSetup)
    {
      chip.Write32(blockAddress, DualCmd(CMD_BLOCK_ERASE_SETUP));
    }

    method ConfirmErase(blockAddress: nat)
      requires Valid() && chip.st.busy == 0 && chip.st.mode == EraseSetup && IsBlock(blockAddress)
      modifies chip
      ensures Valid() && EraseStep(old(chip.st), blockAddress - regionBase, chip.st)
    {
      hide ProgramStep, EraseStep, CommandStep;
      ghost var before := chip.st;
      chip.Write32(blockAddress, DualCmd(CMD_CONFIRM));
      OperationKeepsShape(before, blockAddress - regionBase, [], chip.st);
    }

    /** The erase command sequence and the wait for its end. */
    method IssueErase(blockAddress: nat) returns (w: Word)
      requires Valid() && Idle(chip.st) && IsBlock(blockAddress)
      modifies chip
      ensures Valid() && chip.st.busy == 0 && chip.st.mode == ReadStatus && w == StatusWord(chip.st)
      ensures EraseStep(old(chip.st), blockAddress - regionBase, chip.st)
    {
      hide EraseStep;
      ghost var before := chip.st;
      SetUpErase(blockAddress);
      ghost var setup := chip.st;
      ConfirmErase(blockAddress);
      ghost var started := chip.st;
      OperationEnds(before, setup, blockAddress - regionBase, [], started, started.(busy := 0));
      w := AwaitReady();
    }

    /** The checks behind an erase. */
    method EraseStatus(w: Word) returns (status: Status)
      ensures status == if Reports(w, SR_BIT_BLOCK_LOCKED) then WriteProtected
                        else if EraseFailed(w) then DeviceError else Success
    {
      status := Success;
      if Reports(w, SR_BIT_VPP) {
        status := DeviceError;
      }
      if w.b0 & (SR_BIT_ERASE | SR_BIT_PROGRAM) == SR_BIT_ERASE | SR_BIT_PROGRAM
         && w.b2 & (SR_BIT_ERASE | SR_BIT_PROGRAM) == SR_BIT_ERASE | SR_BIT_PROGRAM {
        status := DeviceError;
      }
      if Reports(w, SR_BIT_ERASE) {
        status := DeviceError;
      }
      if Reports(w, SR_BIT_BLOCK_LOCKED) {
        status := WriteProtected;
      }
    }

    method UnlockAndEraseSingleBlock(blockAddress: nat) returns (status: Status)
      requires Valid() && Idle(chip.st) && IsBlock(blockAddress)
      modifies chip
      ensures Valid() && Idle(chip.st) && chip.st.mode == ReadArray
      ensures SameOutside(old(chip.st.mem), chip.st.mem, blockAddress - regionBase, blockSize)
      ensures status == Success ==>
                chip.st.mem == Blanked(old(chip.st.mem), blockAddress - regionBase, blockSize)
      ensures chip.st.locked == old(chip.st.locked) - {BlockOf(blockAddress - regionBase, blockSize)}
      ensures Erases(old(chip.st), chip.st, true, status)
    {
      ghost var start := chip.st;
      status := Success;
      var index := 0;
      var retry := true;
      while retry
        invariant Valid() && Idle(chip.st)
        invariant SameOutside(old(chip.st.mem), chip.st.mem, blockAddress - regionBase, blockSize)
        invariant !retry ==> chip.st.mode == ReadArray
        invariant !retry ==> status == Success ==>
                    chip.st.mem == Blanked(old(chip.st.mem), blockAddress - regionBase, blockSize)
        invariant index <= NOR_FLASH_ERASE_RETRY && (retry ==> index < NOR_FLASH_ERASE_RETRY)
        invariant index > 0 ==> chip.st.locked == old(chip.st.locked) - {BlockOf(blockAddress - regionBase, blockSize)}
        invariant if index == 0 then retry && chip.st == start else EraseTries(start, chip.st, index, status, retry)
        decreases NOR_FLASH_ERASE_RETRY - index, retry
      {
        ghost var round, last := chip.st, status;
        status := UnlockSingleBlockIfNecessary(blockAddress);
        ghost var before := chip.st;
        status := EraseSingleBlock(blockAddress);
        BlankedOver(old(chip.st.mem), before.mem, chip.st.mem, blockAddress - regionBase, blockSize);
        index := index + 1;
        retry := index < NOR_FLASH_ERASE_RETRY && status == WriteProtected;
        NextEraseTry(start, round, before, chip.st, index, last, status, retry);
      }
    }

    method ProgramStatus(w: Word) returns (status: Status)
      requires Valid() && Idle(chip.st)
      modifies chip
      ensures Valid() && Idle(chip.st)
      ensures chip.st == if ProgramFailed(w) then old(chip.st) else old(chip.st).(srLo := 0, srHi := 0)
      ensures status == (if ProgramFailed(w) then DeviceError else Success)
    {
      status := Success;
      if Reports(w, SR_BIT_VPP) {
        status := DeviceError;
      }
      if Reports(w, SR_BIT_PROGRAM) {
        status := DeviceError;
      }
      if Reports(w, SR_BIT_BLOCK_LOCKED) {
        status := DeviceError;
      }
      if !status.IsError() {
        SendCommand(CMD_CLEAR_STATUS_REGISTER);
      }
    }

    method WriteSingleWord(wordAddress: nat, data: Word) returns (status: Status)
      requires Valid() && Idle(chip.st)
      requires regionBase <= wordAddress && wordAddress - regionBase + 4 <= size
      modifies chip
      ensures Valid() && ProgramOutcome(old(chip.st), chip.st, wordAddress - regionBase, Bytes(data), status)
    {
      ghost var before := chip.st;
      var w := IssueWord(wordAddress, data);
      SettleProgram(before, wordAddress - regionBase, Bytes(data), chip.st);
      hide ProgramFailed, StatusWord, Programmed;
      status := ProgramStatus(w);
    }

    method SetUpWord(wordAddress: nat)
      requires Valid() && Idle(chip.st)
      requires regionBase <= wordAddress && wordAddress - regionBase + 4 <= size
      modifies chip
      ensures Valid() && chip.st == old(chip.st).(mode := WordSetup)
    {
      chip.Write32(wordAddress, DualCmd(CMD_WORD_PROGRAM_SETUP));
    }

    method ProgramWord(wordAddress: nat, data: Word)
      requires Valid() && chip.st.busy == 0 && chip.st.mode == WordSetup
      requires regionBase <= wordAddress && wordAddress - regionBase + 4 <= size
      modifies chip
      ensures Valid() && ProgramStep(old(chip.st), wordAddress - regionBase, Bytes(data), chip.st)
    {
      hide ProgramStep, EraseStep, CommandStep;
      ghost var before := chip.st;
      chip.Write32(wordAddress, data);
      OperationKeepsShape(before, wordAddress - regionBase, Bytes(data), chip.st);
    }

    /** The word-program command sequence and the wait for its end. */
    method IssueWord(wordAddress: nat, data: Word) returns (w: Word)
      requires Valid() && Idle(chip.st)
      requires regionBase <= wordAddress && wordAddress - regionBase + 4 <= size
      modifies chip
      ensures Valid() && Idle(chip.st) && w == StatusWord(chip.st)
      ensures Issued(old(chip.st), chip.st, wordAddress - regionBase, Bytes(data))
    {
      hide ProgramStep, Bytes;
      ghost var before := chip.st;
      SetUpWord(wordAddress);
      ghost var setup := chip.st;
      ProgramWord(wordAddress, data);
      ghost var started := chip.st;
      OperationEnds(before, setup, wordAddress - regionBase, Bytes(data), started, started.(busy := 0));
      w := AwaitReady();
    }

    /** One request for the program buffer, and the chip's answer. */
    method AskForBuffer(targetAddress: nat) returns (available: bool)
      requires Valid() && chip.st.busy == 0
      requires Idle(chip.st) || chip.st.mode == BufferSetup(false)
      requires regionBase <= targetAddress && targetAddress - regionBase + 4 <= size
      modifies chip
      ensures Valid()
      ensures chip.st == old(chip.st).(mode := BufferSetup(available), answers := old(chip.st.answers) + [available])
    {
      chip.Write32(targetAddress, DualCmd(CMD_BUFFERED_PROGRAM_SETUP));
      var w := chip.Read32(targetAddress);
      available := Ready(w);
    }

    /** Asks for the program buffer until it is granted or the polls run out.
        The caller gives up when the counter is exhausted, even if the last
        poll was the one that succeeded. */
    method PollBuffer(targetAddress: nat) returns (granted: bool, ghost n: nat)
      requires Valid() && Idle(chip.st)
      requires regionBase <= targetAddress && targetAddress - regionBase + 4 <= size
      modifies chip
      ensures Valid() && Polled(old(chip.st), chip.st, n) && 0 < n
      ensures chip.st == old(chip.st).(mode := BufferSetup(LastGranted(chip.st)), answers := chip.st.answers)
      ensures granted <==> n < MAX_BUFFERED_PROG_ITERATIONS
      ensures granted ==> LastGranted(chip.st)
    {
      var waitForBuffer := MAX_BUFFERED_PROG_ITERATIONS;
      var bufferAvailable := false;
      n := 0;
      while waitForBuffer > 0 && !bufferAvailable
        invariant Valid()
        invariant n + waitForBuffer == MAX_BUFFERED_PROG_ITERATIONS
        invariant Polled(old(chip.st), chip.st, n)
        invariant n == 0 ==> Idle(chip.st) && chip.st == old(chip.st) && !bufferAvailable
        invariant n != 0 ==> chip.st == old(chip.st).(mode := BufferSetup(bufferAvailable), answers := chip.st.answers)
        invariant n != 0 ==> LastGranted(chip.st) == bufferAvailable
        decreases waitForBuffer
      {
        bufferAvailable := AskForBuffer(targetAddress);
        waitForBuffer := waitForBuffer - 1;
        n := n + 1;
      }
      granted := waitForBuffer != 0;
    }

    /** NorFlashWriteBuffer.  Success means every addressed cell was ANDed with
        the data.  The chip is left waiting for a command except when the polls
        ran out, and then it has taken the request exactly on the last-poll edge. */
    method WriteBuffer(targetAddress: nat, data: seq<bv8>) returns (status: Status)
      requires Valid() && Idle(chip.st)
      requires regionBase <= targetAddress && targetAddress - regionBase + |data| <= size
      modifies chip
      ensures Valid()
      ensures BufferedOutcome(old(chip.st), chip.st, targetAddress - regionBase, data, status)
      ensures targetAddress % BOUNDARY != 0 ==> status == InvalidParameter
      ensures status == BadBufferSize ==> |data| > MAX_BUFFER_SIZE_IN_BYTES || |data| % 4 != 0
      ensures !Bufferable(targetAddress, data) ==> chip.st == old(chip.st)
      ensures Bufferable(targetAddress, data) ==>
                exists n :: 0 < n && Polled(old(chip.st), chip.st, n) && (n < MAX_BUFFERED_PROG_ITERATIONS ==> LastGranted(chip.st))
      ensures status == Success <==>
                && Bufferable(targetAddress, data) && !RanOut(old(chip.st), chip.st)
                && BlockOf(targetAddress - regionBase, blockSize) !in old(chip.st.locked)
                && chip.st.faults == old(chip.st.faults) && !ProgramFailed(StatusWord(old(chip.st)))
      ensures status == Success ==> Clean(chip.st)
      ensures Patches(old(chip.st), chip.st,
                      Bufferable(targetAddress, data)
                      && BlockOf(targetAddress - regionBase, blockSize) !in old(chip.st.locked), status)
    {
      hide ProgramFailed, StatusWord, Programmed, SameOutside, Clean, RanOut, LastPollEdge, BufferedOutcome, Polled, Patches,
        RegisterOf, BlockOf;
      ghost var s, at := chip.st, targetAddress - regionBase;
      ghost var able := Bufferable(targetAddress, data) && BlockOf(at, blockSize) !in s.locked;
      NobodyAsked(s, s);
      NothingPatched(s, s, false, InvalidParameter);
      NothingPatched(s, s, false, BufferTooSmall);
      NothingPatched(s, s, false, BadBufferSize);
      NothingBuffered(s, at, data, InvalidParameter);
      NothingBuffered(s, at, data, BufferTooSmall);
      NothingBuffered(s, at, data, BadBufferSize);
      if targetAddress % BOUNDARY != 0 {
        return InvalidParameter;
      }
      if |data| == 0 {
        return BufferTooSmall;
      }
      if |data| > MAX_BUFFER_SIZE_IN_BYTES {
        return BadBufferSize;
      }
      if |data| % 4 != 0 {
        return BadBufferSize;
      }
      var granted;
      ghost var n;
      granted, n := PollBuffer(targetAddress);
      ghost var ready := chip.st;
      if !granted {
        BufferUsed(s, ready, ready, n, at, data, DeviceError);
        NothingPatched(s, ready, able, DeviceError);
        return DeviceError;
      }
      status := FinishBuffer(targetAddress, data);
      BufferUsed(s, ready, chip.st, n, at, data, status);
      SameRegisterSameErrors(s, ready);
      OutcomePatches(ready, chip.st, at, data, able, status);
      PatchesBehindPolls(s, ready, chip.st, able, status);
    }

    /** What follows once the buffer is granted. */
    method FinishBuffer(targetAddress: nat, data: seq<bv8>) returns (status: Status)
      requires Valid() && chip.st.busy == 0 && chip.st.mode == BufferSetup(true)
      requires 0 < |data| <= MAX_BUFFER_SIZE_IN_BYTES && |data| % 4 == 0
      requires regionBase <= targetAddress && targetAddress - regionBase + |data| <= size
      modifies chip
      ensures Valid() && ProgramOutcome(old(chip.st), chip.st, targetAddress - regionBase, data, status)
    {
      ghost var before := chip.st;
      var w := IssueBuffer(targetAddress, data);
      SettleProgram(before, targetAddress - regionBase, data, chip.st);
      hide ProgramFailed, StatusWord, Programmed;
      status := ProgramStatus(w);
    }

    /** The load and the confirmation of a granted buffer, and the wait for the end. */
    method IssueBuffer(targetAddress: nat, data: seq<bv8>) returns (w: Word)
      requires Valid() && chip.st.busy == 0 && chip.st.mode == BufferSetup(true)
      requires 0 < |data| <= MAX_BUFFER_SIZE_IN_BYTES && |data| % 4 == 0
      requires regionBase <= targetAddress && targetAddress - regionBase + |data| <= size
      modifies chip
      ensures Valid() && Idle(chip.st) && w == StatusWord(chip.st)
      ensures Issued(old(chip.st), chip.st, targetAddress - regionBase, data)
    {
      hide ProgramStep;
      ghost var before := chip.st;
      var words := |data| / 4;
      LoadBuffer(targetAddress, words, data);
      ghost var setup := chip.st;
      SendCommand(CMD_CONFIRM);
      ghost var started := chip.st;
      OperationEnds(before, setup, targetAddress - regionBase, data, started, started.(busy := 0));
      w := AwaitReady();
    }

    method SendWordCount(targetAddress: nat, words: nat)
      requires Valid() && chip.st.busy == 0 && chip.st.mode == BufferSetup(true)
      requires 0 < words <= MAX_BUFFER_SIZE_IN_WORDS
      requires regionBase <= targetAddress && targetAddress - regionBase + 4 <= size
      modifies chip
      ensures Valid()
      ensures chip.st == old(chip.st).(mode := BufferLoad(targetAddress - regionBase, words, []))
    {
      var c := (words - 1) as bv8;
      CountByte(words - 1);
      chip.Write32(targetAddress, DualCmd(c));
    }

    method SendDataWord(address: nat, w: Word)
      requires Valid() && chip.st.busy == 0 && chip.st.mode.BufferLoad?
      requires |chip.st.mode.data| < 4 * chip.st.mode.count
      requires regionBase <= address && address - regionBase + 4 <= size
      requires address - regionBase == chip.st.mode.start + |chip.st.mode.data|
      modifies chip
      ensures Valid()
      ensures chip.st == old(chip.st).(mode := old(chip.st.mode).(data := old(chip.st.mode).data + Bytes(w)))
    {
      chip.Write32(address, w);
    }

    /** The word count and the data words of a buffered program. */
    method LoadBuffer(targetAddress: nat, words: nat, data: seq<bv8>)
      requires Valid() && chip.st.busy == 0 && chip.st.mode == BufferSetup(true)
      requires 0 < words <= MAX_BUFFER_SIZE_IN_WORDS && |data| == 4 * words
      requires regionBase <= targetAddress && targetAddress - regionBase + |data| <= size
      modifies chip
      ensures Valid()
      ensures chip.st == old(chip.st).(mode := BufferLoad(targetAddress - regionBase, words, data))
    {
      SendWordCount(targetAddress, words);
      var count := 0;
      while count < words
        invariant Valid() && count <= words
        invariant chip.st == old(chip.st).(mode := BufferLoad(targetAddress - regionBase, words, data[..4 * count]))
      {
        assert data[..4 * count] + data[4 * count..4 * count + 4] == data[..4 * (count + 1)];
        SendDataWord(targetAddress + 4 * count, WordAt(data, count));
        count := count + 1;
      }
      assert data[..4 * words] == data;
    }

    /** NorFlashRead: copies array data into the front of the caller's buffer. */
    method Read(lba: nat, offset: nat, n: nat, buffer: array<bv8>) returns (status: Status)
      requires Valid() && Idle(chip.st)
      requires n <= buffer.Length && Span(lba, blockSize) + offset + n < TWO_64
      modifies chip, buffer
      ensures Valid() && Idle(chip.st)
      ensures chip.st == old(chip.st).(mode := chip.st.mode)
      ensures status == (if 0 < n && Span(lba, blockSize) + offset + n > size then InvalidParameter else Success)
      ensures status == Success && 0 < n ==>
                chip.st.mode == ReadArray
                && buffer[..] == Refilled(chip.st.mem, old(buffer[..]), Span(lba, blockSize) + offset, n)
      ensures status != Success || n == 0 ==> chip.st == old(chip.st) && buffer[..] == old(buffer[..])
    {
      if n == 0 {
        return Success;
      }
      if Span(lba, blockSize) + offset + n > size {
        return InvalidParameter;
      }
      var startAddress := regionBase + BlockOffset(lba);
      SendCommand(CMD_READ_ARRAY);
      CopyIn(startAddress + offset, n, buffer);
      return Success;
    }

    method CopyIn(address: nat, n: nat, buffer: array<bv8>)
      requires Valid() && chip.st.mode == ReadArray
      requires regionBase <= address && address - regionBase + n <= size && n <= buffer.Length
      modifies buffer
      ensures buffer[..] == Refilled(chip.st.mem, old(buffer[..]), address - regionBase, n)
    {
      var data := chip.CopyFrom(address, n);
      forall i | 0 <= i < n {
        buffer[i] := data[i];
      }
    }

    /** NorFlashReadBlocks. */
    method ReadBlocks(lba: nat, n: nat, buffer: array<bv8>) returns (status: Status)
      requires Valid() && Idle(chip.st)
      requires n <= buffer.Length && n < TWO_32
      modifies chip, buffer
      ensures Valid() && Idle(chip.st)
      ensures chip.st == old(chip.st).(mode := chip.st.mode)
      ensures status == (if n == 0 then Success
                         else if n % blockSize != 0 then BadBufferSize
                         else if lba + n / blockSize > lastBlock + 1 then InvalidParameter
                         else Success)
      ensures status == Success && 0 < n ==>
                chip.st.mode == ReadArray && Span(lba, blockSize) + n <= size
                && buffer[..] == Refilled(chip.st.mem, old(buffer[..]), Span(lba, blockSize), n)
      ensures status != Success || n == 0 ==> chip.st == old(chip.st) && buffer[..] == old(buffer[..])
    {
      if n == 0 {
        return Success;
      }
      if n % blockSize != 0 {
        return BadBufferSize;
      }
      var numBlocks := n / blockSize;
      WholeBlocks(n, blockSize);
      if lba + numBlocks > lastBlock + 1 {
        return InvalidParameter;
      }
      BlocksInside(lba, numBlocks, lastBlock, blockSize);
      var startAddress := regionBase + BlockOffset(lba);
      SendCommand(CMD_READ_ARRAY);
      CopyIn(startAddress, n, buffer);
      return Success;
    }

    /** Programs one chunk unless it is all ones; skipping it makes no
        difference because programming ones changes nothing. */
    method WriteChunk(wordAddress: nat, chunk: seq<bv8>) returns (status: Status)
      requires Valid() && Idle(chip.st)
      requires |chunk| == MAX_BUFFER_SIZE_IN_BYTES
      requires regionBase <= wordAddress && wordAddress - regionBase + |chunk| <= size
      modifies chip
      ensures Valid()
      ensures BufferedOutcome(old(chip.st), chip.st, wordAddress - regionBase, chunk, status)
      ensures Programs(old(chip.st), chip.st,
                       wordAddress % BOUNDARY == 0 && BlockOf(wordAddress - regionBase, blockSize) !in old(chip.st.locked),
                       status, AllOnes(chunk))
    {
      hide BufferedOutcome, Programs, Patches, Polled, RanOut, ProgramFailed, StatusWord, Clean, BlockOf;
      status := Success;
      var cnt := 0;
      while cnt < MAX_BUFFER_SIZE_IN_WORDS
        invariant cnt <= MAX_BUFFER_SIZE_IN_WORDS
        invariant chip.st == old(chip.st)
        invariant forall i :: 0 <= i < 4 * cnt ==> chunk[i] == 0xFF
      {
        if WordAt(chunk, cnt) != Word(0xFF, 0xFF, 0xFF, 0xFF) {
          SomeZero(chunk, cnt);
          status := WriteBuffer(wordAddress, chunk);
          PatchesAreProgress(old(chip.st), chip.st,
                             Bufferable(wordAddress, chunk)
                             && BlockOf(wordAddress - regionBase, blockSize) !in old(chip.st.locked), status);
          return;
        }
        cnt := cnt + 1;
      }
      ProgrammingOnes(chip.st.mem, wordAddress - regionBase, chunk);
      NothingBuffered(chip.st, wordAddress - regionBase, chunk, Success);
      NothingPrograms(chip.st, wordAddress % BOUNDARY == 0 && BlockOf(wordAddress - regionBase, blockSize) !in chip.st.locked);
    }

    /** A whole chunk, or the rest of a block, which is never skipped. */
    method WritePiece(wordAddress: nat, piece: seq<bv8>) returns (status: Status)
      requires Valid() && Idle(chip.st)
      requires 0 < |piece| <= MAX_BUFFER_SIZE_IN_BYTES && |piece| % 4 == 0
      requires regionBase <= wordAddress && wordAddress - regionBase + |piece| <= size
      modifies chip
      ensures Valid() && BufferedOutcome(old(chip.st), chip.st, wordAddress - regionBase, piece, status)
      ensures Programs(old(chip.st), chip.st,
                       wordAddress % BOUNDARY == 0 && BlockOf(wordAddress - regionBase, blockSize) !in old(chip.st.locked),
                       status, Skipped(piece, |piece|))
    {
      hide BufferedOutcome, Programs, Patches, Polled, RanOut, ProgramFailed, StatusWord, Clean, BlockOf, AllOnes;
      ghost var s := chip.st;
      if |piece| == MAX_BUFFER_SIZE_IN_BYTES {
        status := WriteChunk(wordAddress, piece);
      } else {
        status := WriteBuffer(wordAddress, piece);
        PatchesAreProgress(s, chip.st, wordAddress % BOUNDARY == 0 && BlockOf(wordAddress - regionBase, blockSize) !in s.locked,
                           status);
      }
    }

    /** The block can be programmed in chunks. */
    ghost predicate Chunkable(s: ChipState, blockAddress: nat)
      requires regionBase <= blockAddress && blockSize > 0
    {
      blockAddress % BOUNDARY == 0 && BlockOf(blockAddress - regionBase, blockSize) !in s.locked
    }

    /** Chunk by chunk, the block has been programmed with `done`, or all of it skipped. */
    ghost predicate ChunksDone(start: ChipState, s: ChipState, blockAddress: nat, done: seq<bv8>, skips: bool)
      requires regionBase <= blockAddress && blockSize > 0
    {
      && s.mem == Programmed(start.mem, blockAddress - regionBase, done)
      && SameOutside(start.mem, s.mem, blockAddress - regionBase, blockSize)
      && s.locked == start.locked && Programs(start, s, Chunkable(start, blockAddress), Success, skips)
    }

    lemma NoChunkDone(start: ChipState, blockAddress: nat)
      requires regionBase <= blockAddress && blockSize > 0
      ensures ChunksDone(start, start, blockAddress, [], true)
    {
      ProgrammingNothing(start.mem, blockAddress - regionBase);
      NothingPrograms(start, Chunkable(start, blockAddress));
      hide Programs;
    }

    lemma AllChunksDone(start: ChipState, s: ChipState, blockAddress: nat, data: seq<bv8>, skips: bool)
      requires regionBase <= blockAddress && blockSize > 0 && |data| == blockSize
      requires ChunksDone(start, s, blockAddress, data, skips) && Idle(s)
      ensures BufferedOutcome(start, s, blockAddress - regionBase, data, Success)
      ensures Programs(start, s, Chunkable(start, blockAddress), Success, skips)
    {
      hide Programmed, SameOutside, RegisterOf, Chunkable, Unhindered, RanOut;
    }

    /** Extends a partly programmed block by the next chunk of the data. */
    method ProgramNextChunk(blockAddress: nat, data: seq<bv8>, done: nat, n: nat, ghost start: ChipState)
      returns (status: Status)
      requires Valid() && Idle(chip.st) && IsBlock(blockAddress) && |data| == blockSize
      requires 0 < n <= MAX_BUFFER_SIZE_IN_BYTES && done + n <= |data| && done % BOUNDARY == 0 && n % 4 == 0
      requires |start.mem| == size && ChunksDone(start, chip.st, blockAddress, data[..done], AllOnes(data[..done]))
      modifies chip
      ensures Valid()
      ensures status == Success ==>
                && Idle(chip.st)
                && ChunksDone(start, chip.st, blockAddress, data[..done + n], Skipped(data[..done + n], n))
      ensures status != Success ==>
                && BufferedOutcome(start, chip.st, blockAddress - regionBase, data, status)
                && Programs(start, chip.st, Chunkable(start, blockAddress), status, Skipped(data[..done + n], n))
    {
      ChunkableAt(start, blockAddress, done);
      hide Programmed, Programs, RanOut, BufferedOutcome, ChunksDone, Chunkable, BlockOf, Span, Skipped;
      var piece := data[done..done + n];
      ghost var prior := chip.st;
      LocksStay(start, prior, blockAddress, data[..done], AllOnes(data[..done]));
      status := WritePiece(blockAddress + done, piece);
      NextChunkDone(start, prior, chip.st, blockAddress, data, done, n, status);
    }

    /** What holds of the block holds of each of its chunks. */
    lemma ChunkableAt(s: ChipState, blockAddress: nat, done: nat)
      requires IsBlock(blockAddress) && done < blockSize && done % BOUNDARY == 0
      ensures Chunkable(s, blockAddress)
              <==> (blockAddress + done) % BOUNDARY == 0 && BlockOf(blockAddress + done - regionBase, blockSize) !in s.locked
    {
      SameBlock(blockAddress - regionBase, done, blockSize);
      assert blockAddress + done - regionBase == blockAddress - regionBase + done;
      hide BlockOf, Span;
    }

    lemma LocksStay(start: ChipState, s: ChipState, blockAddress: nat, done: seq<bv8>, skips: bool)
      requires regionBase <= blockAddress && blockSize > 0 && ChunksDone(start, s, blockAddress, done, skips)
      ensures s.locked == start.locked
    {
      hide Programs, Programmed, SameOutside;
    }

    lemma NextChunkDone(start: ChipState, prior: ChipState, now: ChipState, blockAddress: nat, data: seq<bv8>, done: nat,
                        n: nat, status: Status)
      requires regionBase <= blockAddress && blockSize > 0 && done + n <= |data| == blockSize
      requires ChunksDone(start, prior, blockAddress, data[..done], AllOnes(data[..done]))
      requires BufferedOutcome(prior, now, blockAddress - regionBase + done, data[done..done + n], status)
      requires Programs(prior, now, Chunkable(start, blockAddress), status, Skipped(data[done..done + n], n))
      ensures status == Success ==>
                Idle(now) && ChunksDone(start, now, blockAddress, data[..done + n], Skipped(data[..done + n], n))
      ensures status != Success ==> BufferedOutcome(start, now, blockAddress - regionBase, data, status)
      ensures Programs(start, now, Chunkable(start, blockAddress), status, Skipped(data[..done + n], n))
    {
      var at, free := blockAddress - regionBase, Chunkable(start, blockAddress);
      OnesTogether(data, done, n);
      SuccessIsGranted(start, prior, free, AllOnes(data[..done]));
      PollsAnew(start, prior, now);
      hide Programmed, Programs, RanOut, LastPollEdge, GrantedInTime, Chunkable, AllOnes;
      ProgramsThenPrograms(start, prior, now, free, status, AllOnes(data[..done]), Skipped(data[done..done + n], n));
      StepStaysInside(start.mem, prior.mem, now.mem, at, data[..done], n, blockSize);
      ProgramsCompose(start.mem, at, data[..done], data[done..done + n]);
      assert data[..done] + data[done..done + n] == data[..done + n];
    }

    /** Programs an erased block with buffered writes. */
    method ProgramChunks(blockAddress: nat, data: seq<bv8>) returns (status: Status)
      requires Valid() && Idle(chip.st) && IsBlock(blockAddress) && |data| == blockSize
      modifies chip
      ensures Valid()
      ensures BufferedOutcome(old(chip.st), chip.st, blockAddress - regionBase, data, status)
      ensures Programs(old(chip.st), chip.st, Chunkable(old(chip.st), blockAddress), status,
                       AllOnes(data) && blockSize % BOUNDARY == 0)
    {
      hide Programs, BufferedOutcome, ChunksDone, BlockOf, Span, Chunkable;
      ghost var start := chip.st;
      status := Success;
      NoChunkDone(start, blockAddress);
      var buffersInBlock := blockSize / MAX_BUFFER_SIZE_IN_BYTES;
      var bufferIndex := 0;
      assert data[..MAX_BUFFER_SIZE_IN_BYTES * bufferIndex] == [];
      while bufferIndex < buffersInBlock
        invariant Valid() && Idle(chip.st) && bufferIndex <= buffersInBlock
        invariant ChunksDone(start, chip.st, blockAddress, data[..MAX_BUFFER_SIZE_IN_BYTES * bufferIndex],
                             AllOnes(data[..MAX_BUFFER_SIZE_IN_BYTES * bufferIndex]))
        invariant status == Success
      {
        status := ProgramNextChunk(blockAddress, data, MAX_BUFFER_SIZE_IN_BYTES * bufferIndex, MAX_BUFFER_SIZE_IN_BYTES, start);
        if status.IsError() {
          ProgramsRestated(start, chip.st, Chunkable(start, blockAddress), Chunkable(start, blockAddress), status,
                           AllOnes(data[..MAX_BUFFER_SIZE_IN_BYTES * (bufferIndex + 1)]), AllOnes(data) && blockSize % BOUNDARY == 0);
          return;
        }
        bufferIndex := bufferIndex + 1;
      }
      var done := MAX_BUFFER_SIZE_IN_BYTES * bufferIndex;
      var remainingWords := (blockSize / 4) % MAX_BUFFER_SIZE_IN_WORDS;
      ChunksAndRest(blockSize);
      assert data[..blockSize] == data;
      if remainingWords != 0 {
        status := ProgramNextChunk(blockAddress, data, done, remainingWords * 4, start);
        if status.IsError() {
          return;
        }
      }
      AllChunksDone(start, chip.st, blockAddress, data, AllOnes(data) && blockSize % BOUNDARY == 0);
    }

    /** Extends a partly programmed block by the next word of the data. */
    method ProgramNextWord(blockAddress: nat, data: seq<bv8>, i: nat, ghost start: ChipState) returns (status: Status)
      requires Valid() && Idle(chip.st) && IsBlock(blockAddress) && |data| == blockSize
      requires 4 * i + 4 <= |data|
      requires |start.mem| == size && chip.st.mem == Programmed(start.mem, blockAddress - regionBase, data[..4 * i])
      requires chip.st.locked == start.locked && chip.st.answers == start.answers
      requires Programs(start, chip.st, BlockOf(blockAddress - regionBase, blockSize) !in start.locked, Success, i == 0)
      modifies chip
      ensures Valid() && Idle(chip.st)
      ensures SameOutside(start.mem, chip.st.mem, blockAddress - regionBase, blockSize)
      ensures status == Success ==> chip.st.mem == Programmed(start.mem, blockAddress - regionBase, data[..4 * (i + 1)])
      ensures chip.st.locked == start.locked && chip.st.answers == start.answers
      ensures Programs(start, chip.st, BlockOf(blockAddress - regionBase, blockSize) !in start.locked, status, false)
    {
      hide Programmed, BlockOf, ProgramFailed, StatusWord, Programs, RegisterOf, Bytes;
      ghost var at, prior := blockAddress - regionBase, chip.st;
      ghost var free := BlockOf(at, blockSize) !in start.locked;
      status := WriteSingleWord(blockAddress + 4 * i, WordAt(data, i));
      SameBlock(at, 4 * i, blockSize);
      OutcomePatches(prior, chip.st, at + 4 * i, Bytes(WordAt(data, i)), free, status);
      PatchesAreProgress(prior, chip.st, free, status);
      ProgramsThenPrograms(start, prior, chip.st, free, status, i == 0, false);
      StepStaysInside(start.mem, prior.mem, chip.st.mem, at, data[..4 * i], 4, blockSize);
      ProgramsCompose(start.mem, blockAddress - regionBase, data[..4 * i], data[4 * i..4 * i + 4]);
      assert data[..4 * i] + data[4 * i..4 * i + 4] == data[..4 * (i + 1)];
    }

    /** Programs an erased block word by word. */
    method ProgramWords(blockAddress: nat, data: seq<bv8>) returns (status: Status)
      requires Valid() && Idle(chip.st) && IsBlock(blockAddress) && |data| == blockSize
      modifies chip
      ensures Valid() && Idle(chip.st)
      ensures SameOutside(old(chip.st.mem), chip.st.mem, blockAddress - regionBase, blockSize)
      ensures status == Success ==>
                chip.st.mem == Programmed(old(chip.st.mem), blockAddress - regionBase, data)
      ensures chip.st.locked == old(chip.st.locked) && chip.st.answers == old(chip.st.answers)
      ensures Programs(old(chip.st), chip.st, BlockOf(blockAddress - regionBase, blockSize) !in old(chip.st.locked), status, false)
    {
      ghost var start := chip.st;
      status := Success;
      ProgrammingNothing(start.mem, blockAddress - regionBase);
      NothingPrograms(start, BlockOf(blockAddress - regionBase, blockSize) !in start.locked);
      hide Programs, Programmed, BlockOf, SameOutside;
      var wordIndex := 0;
      while wordIndex < blockSize / 4
        invariant Valid() && Idle(chip.st) && wordIndex <= blockSize / 4
        invariant chip.st.mem == Programmed(start.mem, blockAddress - regionBase, data[..4 * wordIndex])
        invariant chip.st.locked == start.locked && chip.st.answers == start.answers && status == Success
        invariant Programs(start, chip.st, BlockOf(blockAddress - regionBase, blockSize) !in start.locked, status, wordIndex == 0)
      {
        status := ProgramNextWord(blockAddress, data, wordIndex, start);
        if status.IsError() {
          return;
        }
        wordIndex := wordIndex + 1;
      }
      assert data[..4 * wordIndex] == data;
    }

    /** NorFlashWriteFullBlock: erase, then program. */
    method WriteFullBlock(lba: nat, data: seq<bv8>) returns (status: Status)
      requires Valid() && Idle(chip.st)
      requires lba <= lastBlock && |data| == blockSize
      modifies chip
      ensures Valid() && Idle(chip.st)
      ensures SameOutside(old(chip.st.mem), chip.st.mem, Span(lba, blockSize), blockSize)
      ensures status == Success ==>
                chip.st.mem == Overwritten(old(chip.st.mem), Span(lba, blockSize), data)
      ensures chip.st.mode == ReadArray <==> !LastPollEdge(old(chip.st), chip.st)
      ensures status == Success ==> chip.st.mode == ReadArray
      ensures LastPollEdge(old(chip.st), chip.st) ==> Jammed(chip.st)
      ensures Rewrites(old(chip.st), chip.st, true, status, Skippable(data))
    {
      hide Programmed, Blanked, Programs, Erases, RegisterOf, Rewrites, Skippable, RanOut, Overwritten, SameOutside;
      ghost var at := Span(lba, blockSize);
      ghost var before, start := chip.st.mem, chip.st;
      BlocksInside(lba, 1, lastBlock, blockSize);
      BlockOfSpan(lba, 0, blockSize);
      var blockAddress := regionBase + BlockOffset(lba);
      status := UnlockAndEraseSingleBlock(blockAddress);
      ghost var erased := chip.st;
      EraseKeepsAnswers(start, erased, true, status);
      if !status.IsError() {
        status := ProgramBlock(blockAddress, data);
        EraseThenProgram(start, erased, chip.st, true, status, Skippable(data));
        ProgrammingErased(before, at, data);
        StaysInsideBlanked(before, erased.mem, chip.st.mem, at, blockSize);
      } else {
        FailedErase(start, erased, true, true, status, Skippable(data));
        NobodyAsked(start, erased);
      }
      ghost var programmed := chip.st;
      SameEdge(start, erased, programmed);
      EnterReadArray();
      SameAnswers(start, start, programmed, chip.st);
      EdgeRanOut(start, programmed);
      AbortingJams(programmed);
      RewritesElsewhere(start, start, programmed, chip.st, true, status, Skippable(data));
    }

    /** Programs an erased block with the data. */
    method ProgramBlock(blockAddress: nat, data: seq<bv8>) returns (status: Status)
      requires Valid() && Idle(chip.st) && IsBlock(blockAddress) && |data| == blockSize
      requires BlockOf(blockAddress - regionBase, blockSize) !in chip.st.locked
      modifies chip
      ensures Valid() && BufferedOutcome(old(chip.st), chip.st, blockAddress - regionBase, data, status)
      ensures Programs(old(chip.st), chip.st, true, status, Skippable(data))
    {
      hide Programs, BufferedOutcome, AllOnes, BlockOf;
      ghost var s := chip.st;
      SkippableHere(blockAddress, data);
      if blockAddress % BOUNDARY == 0 {
        status := ProgramChunks(blockAddress, data);
      } else {
        status := ProgramWords(blockAddress, data);
        WordsAreBuffered(s, chip.st, blockAddress - regionBase, data, status);
      }
    }

    /** All chunks of whole blocks of data are skipped. */
    ghost predicate Skippable(data: seq<bv8>)
    {
      regionBase % BOUNDARY == 0 && blockSize % BOUNDARY == 0 && AllOnes(data)
    }

    lemma SkippableHere(blockAddress: nat, data: seq<bv8>)
      requires IsBlock(blockAddress)
      ensures Skippable(data) <==> blockAddress % BOUNDARY == 0 && blockSize % BOUNDARY == 0 && AllOnes(data)
    {
      hide AllOnes;
      if blockSize % BOUNDARY == 0 {
        SpanAligned(BlockOf(blockAddress - regionBase, blockSize), blockSize);
      }
    }

    /** The first i blocks of a multi-block write have been replaced. */
    ghost predicate BlocksDone(start: ChipState, s: ChipState, lba: nat, data: seq<bv8>, i: nat) {
      && Span(i, blockSize) <= |data| && s.mem == Overwritten(start.mem, Span(lba, blockSize), data[..Span(i, blockSize)])
      && GrantedInTime(start, s)
      && (i == 0 ==> s == start)
      && (i > 0 ==> s.mode == ReadArray && Rewrites(start, s, true, Success, Skippable(data[..Span(i, blockSize)])))
    }

    lemma NoBlockDone(start: ChipState, lba: nat, data: seq<bv8>)
      ensures BlocksDone(start, start, lba, data, 0)
    {
      NobodyAsked(start, start);
      NothingOverwritten(start.mem, Span(lba, blockSize));
    }

    lemma AllBlocksDone(start: ChipState, s: ChipState, lba: nat, data: seq<bv8>, n: nat)
      requires 0 < n && Span(n, blockSize) == |data| && BlocksDone(start, s, lba, data, n)
      ensures s.mem == Overwritten(start.mem, Span(lba, blockSize), data) && s.mode == ReadArray
      ensures SameOutside(start.mem, s.mem, Span(lba, blockSize), |data|)
      ensures Rewrites(start, s, true, Success, Skippable(data)) && ReturnsToArray(start, s)
    {
      assert data[..Span(n, blockSize)] == data;
      OverwrittenInside(start.mem, Span(lba, blockSize), data);
      EdgeRanOut(start, s);
      hide Overwritten, Rewrites, Skippable, RanOut;
    }

    /** Replaces one more block of a multi-block write. */
    method WriteNextBlock(lba: nat, data: seq<bv8>, i: nat, ghost start: ChipState) returns (status: Status)
      requires Valid() && Idle(chip.st)
      requires lba + i <= lastBlock && Span(i, blockSize) + blockSize <= |data|
      requires |start.mem| == size && BlocksDone(start, chip.st, lba, data, i)
      modifies chip
      ensures Valid() && Idle(chip.st)
      ensures status == Success ==> BlocksDone(start, chip.st, lba, data, i + 1)
      ensures status != Success ==>
                && SameOutside(start.mem, chip.st.mem, Span(lba, blockSize), |data|) && ReturnsToArray(start, chip.st)
                && Rewrites(start, chip.st, true, status, Skippable(data))
    {
      hide RanOut, LastPollEdge, GrantedInTime, Rewrites, Skippable, Overwritten, SameOutside, Jammed, Span;
      ghost var prior := chip.st;
      status := WriteFullBlock(lba + i, data[Span(i, blockSize)..Span(i, blockSize) + blockSize]);
      NextBlockDone(start, prior, chip.st, lba, data, i, status);
    }

    lemma NextBlockDone(start: ChipState, prior: ChipState, now: ChipState, lba: nat, data: seq<bv8>, i: nat, status: Status)
      requires Span(i, blockSize) + blockSize <= |data| && BlocksDone(start, prior, lba, data, i)
      requires var piece := data[Span(i, blockSize)..Span(i, blockSize) + blockSize];
               && (status == Success ==> now.mem == Overwritten(prior.mem, Span(lba + i, blockSize), piece))
               && SameOutside(prior.mem, now.mem, Span(lba + i, blockSize), blockSize)
               && Rewrites(prior, now, true, status, Skippable(piece))
      requires now.mode == ReadArray <==> !LastPollEdge(prior, now)
      requires status == Success ==> now.mode == ReadArray
      requires LastPollEdge(prior, now) ==> Jammed(now)
      ensures status == Success ==> BlocksDone(start, now, lba, data, i + 1)
      ensures status != Success ==>
                && SameOutside(start.mem, now.mem, Span(lba, blockSize), |data|) && ReturnsToArray(start, now)
                && Rewrites(start, now, true, status, Skippable(data))
    {
      hide RanOut, LastPollEdge, GrantedInTime, Rewrites, Skippable, Overwritten, SameOutside, Jammed, Span;
      NextBlockMemory(start.mem, prior.mem, now.mem, lba, data, i);
      NextBlockRegister(start, prior, now, data, i, status);
    }

    lemma NextBlockMemory(first: seq<bv8>, prior: seq<bv8>, now: seq<bv8>, lba: nat, data: seq<bv8>, i: nat)
      requires Span(i, blockSize) + blockSize <= |data|
      requires prior == Overwritten(first, Span(lba, blockSize), data[..Span(i, blockSize)])
      requires SameOutside(prior, now, Span(lba + i, blockSize), blockSize)
      ensures Span(i + 1, blockSize) == Span(i, blockSize) + blockSize && (i == 0 ==> Span(i, blockSize) == 0)
      ensures SameOutside(first, now, Span(lba, blockSize), |data|)
      ensures now == Overwritten(prior, Span(lba + i, blockSize), data[Span(i, blockSize)..Span(i, blockSize) + blockSize]) ==>
                now == Overwritten(first, Span(lba, blockSize), data[..Span(i + 1, blockSize)])
    {
      NextSpan(i, blockSize);
      SpanAdds(lba, i, blockSize);
      hide Overwritten, SameOutside;
      NextBlockWritten(first, prior, now, Span(lba, blockSize), data, Span(i, blockSize), blockSize);
    }

    lemma NextBlockRegister(start: ChipState, prior: ChipState, now: ChipState, data: seq<bv8>, i: nat, status: Status)
      requires Span(i, blockSize) + blockSize <= |data| && GrantedInTime(start, prior)
      requires if i == 0 then prior == start else Rewrites(start, prior, true, Success, Skippable(data[..Span(i, blockSize)]))
      requires Rewrites(prior, now, true, status, Skippable(data[Span(i, blockSize)..Span(i, blockSize) + blockSize]))
      requires now.mode == ReadArray <==> !LastPollEdge(prior, now)
      requires LastPollEdge(prior, now) ==> Jammed(now)
      ensures Rewrites(start, now, true, status, Skippable(data[..Span(i, blockSize) + blockSize]))
      ensures ReturnsToArray(start, now) && (status == Success ==> GrantedInTime(start, now))
      ensures status != Success ==> Rewrites(start, now, true, status, Skippable(data))
    {
      var done: nat := Span(i, blockSize);
      assert i == 0 ==> done == 0;
      hide RanOut, LastPollEdge, GrantedInTime, Rewrites, Skippable, Jammed, Span;
      NextRewrite(start, prior, now, status, data, done, blockSize);
      SameEdge(start, prior, now);
      if status != Success {
        SkippableParts(data, done + blockSize);
        RewritesRestated(start, now, true, true, status, status, Skippable(data[..done + blockSize]), Skippable(data));
      }
    }

    /** NorFlashWriteBlocks. */
    method WriteBlocks(lba: nat, data: seq<bv8>) returns (status: Status)
      requires Valid() && Idle(chip.st) && |data| < TWO_32
      modifies chip
      ensures Valid() && Idle(chip.st)
      ensures SameOutside(old(chip.st.mem), chip.st.mem, Span(lba, blockSize), |data|)
      ensures |data| == 0 || |data| % blockSize != 0 ==> status == BadBufferSize
      ensures status == Success ==>
                chip.st.mem == Overwritten(old(chip.st.mem), Span(lba, blockSize), data)
      ensures ReturnsToArray(old(chip.st), chip.st)
      ensures status == Success ==> chip.st.mode == ReadArray
      ensures Rewrites(old(chip.st), chip.st,
                       0 < |data| && |data| % blockSize == 0 && lba + |data| / blockSize <= lastBlock + 1,
                       status, Skippable(data))
    {
      hide Rewrites, SameOutside, Jammed, RanOut, LastPollEdge, GrantedInTime, Skippable, BlocksDone, Overwritten;
      ghost var start := chip.st;
      NobodyAsked(start, start);
      Untouched(start.mem, Span(lba, blockSize), |data|);
      NothingRewritten(start, BadBufferSize, Skippable(data));
      NothingRewritten(start, InvalidParameter, Skippable(data));
      status := Success;
      if |data| == 0 {
        return BadBufferSize;
      }
      if |data| % blockSize != 0 {
        return BadBufferSize;
      }
      var numBlocks := |data| / blockSize;
      WholeBlocks(|data|, blockSize);
      if lba + numBlocks > lastBlock + 1 {
        return InvalidParameter;
      }
      NoBlockDone(start, lba, data);
      var blockCount := 0;
      while blockCount < numBlocks
        invariant Valid() && Idle(chip.st) && blockCount <= numBlocks
        invariant BlocksDone(start, chip.st, lba, data, blockCount)
        invariant status == Success
      {
        BlocksInside(blockCount, 1, numBlocks - 1, blockSize);
        status := WriteNextBlock(lba, data, blockCount, start);
        if status.IsError() {
          return;
        }
        blockCount := blockCount + 1;
      }
      AllBlocksDone(start, chip.st, lba, data, numBlocks);
    }

    lemma SkippableParts(data: seq<bv8>, n: nat)
      requires n <= |data|
      ensures Skippable(data) ==> Skippable(data[..n])
    {}

    /** Rewriting goes on behind the part already done. */
    lemma NextRewrite(start: ChipState, prior: ChipState, now: ChipState, status: Status, data: seq<bv8>, done: nat, n: nat)
      requires done + n <= |data|
      requires (done == 0 && prior == start) || Rewrites(start, prior, true, Success, Skippable(data[..done]))
      requires Rewrites(prior, now, true, status, Skippable(data[done..done + n]))
      ensures Rewrites(start, now, true, status, Skippable(data[..done + n]))
      ensures start.answers <= prior.answers <= now.answers
      ensures status == Success ==> GrantedInTime(start, now)
    {
      if done == 0 && prior == start {
        assert data[done..done + n] == data[..done + n];
      } else {
        OnesTogether(data, done, n);
        RewritesThenRewrites(start, prior, now, true, status, Skippable(data[..done]), Skippable(data[done..done + n]));
      }
      hide RegisterOf, Unhindered, AllOnes, GrantedInTime;
    }

    /** Puts the new data into the copy of the old data, giving up as soon as a
        bit would have to go from 0 to 1. */
    method PatchShadow(d: nat, data: seq<bv8>) returns (needsErase: bool)
      requires d + |data| <= shadow.Length
      modifies shadow
      ensures needsErase <==> !OnlyClears(old(shadow[..]), d, data)
      ensures !needsErase ==> shadow[..] == Overwritten(old(shadow[..]), d, data)
    {
      hide Overwritten;
      ghost var before := shadow[..];
      NothingOverwritten(before, d);
      assert data[..0] == [];
      var curOffset := 0;
      while curOffset < |data|
        invariant curOffset <= |data|
        invariant shadow[..] == Overwritten(before, d, data[..curOffset])
        invariant forall i :: 0 <= i < curOffset ==> !before[d + i] & data[i] == 0
      {
        NextPatched(before, d, data, curOffset);
        ghost var now := shadow[..];
        assert now[d + curOffset] == before[d + curOffset];
        if !shadow[d + curOffset] & data[curOffset] != 0 {
          return true;
        }
        shadow[d + curOffset] := data[curOffset];
        assert shadow[..] == now[d + curOffset := data[curOffset]];
        curOffset := curOffset + 1;
      }
      assert data[..curOffset] == data;
      return false;
    }

    /** Programs the one or two windows of the patched shadow buffer. */
    method ProgramShadow(address: nat, two: bool) returns (status: Status)
      requires Valid() && Idle(chip.st)
      requires regionBase <= address && address - regionBase + (if two then 2 * BOUNDARY else BOUNDARY) <= size
      modifies chip
      ensures Valid() && status != BadBufferSize
      ensures chip.st.busy == 0 && (Idle(chip.st) || chip.st.mode.BufferSetup?)
      ensures SameOutside(old(chip.st.mem), chip.st.mem, address - regionBase, if two then 2 * BOUNDARY else BOUNDARY)
      ensures status == Success ==>
                Idle(chip.st) && chip.st.mem == ProgramWindows(old(chip.st.mem), address - regionBase, shadow[..], two)
      ensures chip.st.mode == BufferSetup(true) <==> LastPollEdge(old(chip.st), chip.st)
      ensures Patches(old(chip.st), chip.st,
                      address % BOUNDARY == 0
                      && BlockOf(address - regionBase, blockSize) !in old(chip.st.locked)
                      && (two ==> BlockOf(address + BOUNDARY - regionBase, blockSize) !in old(chip.st.locked)), status)
    {
      hide RegisterOf, ProgramFailed, StatusWord, Reports, Programmed, SameOutside, Patches, Polled, RanOut, BlockOf, Clean;
      ghost var before, start := chip.st.mem, chip.st;
      ghost var able := && address % BOUNDARY == 0 && BlockOf(address - regionBase, blockSize) !in start.locked
                        && (two ==> BlockOf(address + BOUNDARY - regionBase, blockSize) !in start.locked);
      status := WriteBuffer(address, shadow[..BOUNDARY]);
      WindowsStayInside(before, chip.st.mem, chip.st.mem, address - regionBase);
      PatchesRestated(start, chip.st,
                      Bufferable(address, shadow[..BOUNDARY]) && BlockOf(address - regionBase, blockSize) !in start.locked,
                      able, status);
      assert shadow[..][..BOUNDARY] == shadow[..BOUNDARY];
      if !status.IsError() && two {
        ghost var first := chip.st;
        status := WriteBuffer(address + BOUNDARY, shadow[BOUNDARY..2 * BOUNDARY]);
        PatchesRestated(first, chip.st,
                        Bufferable(address + BOUNDARY, shadow[BOUNDARY..2 * BOUNDARY])
                        && BlockOf(address + BOUNDARY - regionBase, blockSize) !in first.locked, able, status);
        PatchesThenPatches(start, first, chip.st, able, status);
        SameEdge(start, first, chip.st);
        WindowsStayInside(before, first.mem, chip.st.mem, address - regionBase);
        assert shadow[..][BOUNDARY..2 * BOUNDARY] == shadow[BOUNDARY..2 * BOUNDARY];
      }
    }

    /** The tail of the path without an erase: unlock, program, leave. */
    method WriteWindows(blockAddress: nat, at: nat, two: bool) returns (status: Status)
      requires Valid() && Idle(chip.st) && IsBlock(blockAddress)
      requires at + (if two then 2 * BOUNDARY else BOUNDARY) <= blockSize
      modifies chip
      ensures Valid() && Idle(chip.st) && status != BadBufferSize
      ensures SameOutside(old(chip.st.mem), chip.st.mem, blockAddress - regionBase, blockSize)
      ensures status == Success ==>
                chip.st.mem == ProgramWindows(old(chip.st.mem), blockAddress - regionBase + at, shadow[..], two)
      ensures status == Success ==> chip.st.mode == ReadArray
      ensures chip.st.mode == ReadArray <==> !LastPollEdge(old(chip.st), chip.st)
      ensures LastPollEdge(old(chip.st), chip.st) ==> Jammed(chip.st)
      ensures Patches(old(chip.st), chip.st, (blockAddress + at) % BOUNDARY == 0, status)
    {
      hide ProgramWindows, BlockOf, StatusWord, Span, Patches, RanOut, RegisterOf;
      ghost var start := chip.st;
      SameBlock(blockAddress - regionBase, at, blockSize);
      if two {
        SameBlock(blockAddress - regionBase, at + BOUNDARY, blockSize);
      }
      status := UnlockSingleBlockIfNecessary(blockAddress);
      ghost var unlocked := chip.st;
      if !status.IsError() {
        status := ProgramShadow(blockAddress + at, two);
      }
      ghost var programmed := chip.st;
      EnterReadArray();
      AbortingJams(programmed);
      EdgeRanOut(unlocked, programmed);
      SameAnswers(start, unlocked, programmed, chip.st);
      PatchesElsewhere(start, unlocked, programmed, chip.st, (blockAddress + at) % BOUNDARY == 0,
                       (blockAddress + at) % BOUNDARY == 0, status);
    }

    /** Reads the old data of a short write into the front of the shadow buffer. */
    method LoadOldData(lba: nat, offset: nat, n: nat) returns (status: Status)
      requires Valid() && Idle(chip.st)
      requires blockSize % BOUNDARY == 0 && Span(lba + 2, blockSize) <= TWO_64
      requires 0 < n && offset + n <= blockSize && TriesInPlace(offset, n)
      modifies chip, shadow
      ensures Valid() && Idle(chip.st)
      ensures status != Success <==> Span(lba, blockSize) + WindowStart(offset) + Widened(n) > size
      ensures status != Success ==> status == DeviceError && chip.st == old(chip.st)
      ensures status == Success ==>
                && chip.st == old(chip.st).(mode := ReadArray)
                && lba <= lastBlock && IsBlock(regionBase + Span(lba, blockSize))
                && Fits(chip.st.mem, old(shadow[..]), Span(lba, blockSize), offset, n)
                && shadow[..] == Refilled(chip.st.mem, old(shadow[..]), Span(lba, blockSize) + WindowStart(offset), Widened(n))
    {
      hide Refilled, BlockOf;
      BlocksInside(lba, 2, lba + 1, blockSize);
      if lba > lastBlock {
        SpanMonotonic(lastBlock + 1, lba, blockSize);
      } else {
        BlocksInside(lba, 1, lastBlock, blockSize);
        BlockOfSpan(lba, 0, blockSize);
      }
      status := Read(lba, WindowStart(offset), Widened(n), shadow);
      if status.IsError() {
        return DeviceError;
      }
    }

    /** Patches the old data and decides whether programming it is enough. */
    method DecideInPlace(at: nat, offset: nat, data: seq<bv8>, ghost before: seq<bv8>, ghost stale: seq<bv8>)
      returns (needsErase: bool)
      requires shadow.Length == blockSize && blockSize % BOUNDARY == 0
      requires TriesInPlace(offset, |data|) && |stale| == blockSize && Fits(before, stale, at, offset, |data|)
      requires shadow[..] == Refilled(before, stale, at + WindowStart(offset), Widened(|data|))
      modifies shadow
      ensures var two := |data| + offset % BOUNDARY > BOUNDARY;
              && WriteResult(before, stale, at, offset, data)
                 == (if needsErase then Overwritten(before, at + offset, data)
                     else ProgramWindows(before, at + WindowStart(offset), shadow[..], two))
              && WindowStart(offset) + (if two then 2 * BOUNDARY else BOUNDARY) <= blockSize
      ensures needsErase <==> !TakesInPlace(before, stale, at, offset, data)
    {
      InPlaceResult(before, stale, shadow[..], at, offset, data);
      WindowsInside(offset, |data|, blockSize);
      needsErase := PatchShadow(offset % BOUNDARY, data);
    }

    /** The path without an erase.  It declines, leaving the flash alone, when
        some bit has to be set. */
    method TryInPlace(lba: nat, offset: nat, data: seq<bv8>)
      returns (status: Status, needsErase: bool)
      requires Valid() && Idle(chip.st)
      requires blockSize % BOUNDARY == 0 && Span(lba + 2, blockSize) <= TWO_64
      requires 0 < |data| && offset + |data| <= blockSize && TriesInPlace(offset, |data|)
      modifies chip, shadow
      ensures Valid() && Idle(chip.st) && status != BadBufferSize
      ensures SameOutside(old(chip.st.mem), chip.st.mem, Span(lba, blockSize), blockSize)
      ensures Span(lba, blockSize) + WindowStart(offset) + Widened(|data|) > size ==>
                status == DeviceError && !needsErase && chip.st == old(chip.st)
      ensures lba > lastBlock ==> status.IsError() && !needsErase && chip.st == old(chip.st)
      ensures needsErase ==> chip.st == old(chip.st).(mode := ReadArray)
      ensures status == Success ==>
                Fits(old(chip.st.mem), old(shadow[..]), Span(lba, blockSize), offset, |data|)
      ensures status == Success ==>
                WriteResult(old(chip.st.mem), old(shadow[..]), Span(lba, blockSize), offset, data)
                == if needsErase then Overwritten(old(chip.st.mem), Span(lba, blockSize) + offset, data) else chip.st.mem
      ensures needsErase ==> status == Success
      ensures lba <= lastBlock && Span(lba, blockSize) + WindowStart(offset) + Widened(|data|) <= size ==>
                (needsErase <==> !TakesInPlace(old(chip.st.mem), old(shadow[..]), Span(lba, blockSize), offset, data))
      ensures status == Success ==> chip.st.mode == ReadArray
      ensures ReturnsToArray(old(chip.st), chip.st)
      ensures !needsErase ==>
                Patches(old(chip.st), chip.st,
                        regionBase % BOUNDARY == 0 && Span(lba, blockSize) + WindowStart(offset) + Widened(|data|) <= size,
                        status)
    {
      hide WriteResult, ProgramWindows, Overwritten, Programmed, Refilled, RanOut, Patches, RegisterOf, Jammed;
      needsErase := false;
      NobodyAsked(chip.st, chip.st);
      ghost var start := chip.st;
      ghost var before, stale := chip.st.mem, shadow[..];
      status := LoadOldData(lba, offset, |data|);
      if status.IsError() {
        NothingPatched(start, start, false, status);
        return;
      }
      needsErase := DecideInPlace(BlockOffset(lba), offset, data, before, stale);
      if !needsErase {
        if regionBase % BOUNDARY == 0 {
          WindowAligned(regionBase, lba, blockSize, offset);
        }
        ghost var loaded := chip.st;
        status := WriteWindows(regionBase + BlockOffset(lba), WindowStart(offset),
                               |data| + offset % BOUNDARY > MAX_BUFFER_SIZE_IN_BYTES);
        SameAnswers(start, loaded, chip.st, chip.st);
        PatchesElsewhere(start, loaded, chip.st, chip.st,
                         (regionBase + BlockOffset(lba) + WindowStart(offset)) % BOUNDARY == 0,
                         regionBase % BOUNDARY == 0 && Span(lba, blockSize) + WindowStart(offset) + Widened(|data|) <= size,
                         status);
      } else {
        NobodyAsked(start, chip.st);
      }
    }

    method CopyIntoShadow(offset: nat, data: seq<bv8>)
      requires offset + |data| <= shadow.Length
      modifies shadow
      ensures shadow[..] == Overwritten(old(shadow[..]), offset, data)
    {
      forall i | 0 <= i < |data| {
        shadow[offset + i] := data[i];
      }
    }

    /** Reads a whole block into the shadow buffer. */
    method LoadBlock(lba: nat) returns (status: Status)
      requires Valid() && Idle(chip.st)
      modifies chip, shadow
      ensures Valid() && Idle(chip.st)
      ensures status == Success <==> lba <= lastBlock
      ensures status == Success ==>
                && chip.st == old(chip.st).(mode := ReadArray)
                && Span(lba, blockSize) + blockSize <= size
                && shadow[..] == chip.st.mem[Span(lba, blockSize)..Span(lba, blockSize) + blockSize]
      ensures status != Success ==> chip.st == old(chip.st)
    {
      OneBlock(blockSize);
      status := ReadBlocks(lba, blockSize, shadow);
    }

    /** The DoErase path: read the block, patch it, erase and rewrite it. */
    method RewriteBlock(lba: nat, offset: nat, data: seq<bv8>) returns (status: Status)
      requires Valid() && Idle(chip.st)
      requires offset + |data| <= blockSize
      modifies chip, shadow
      ensures Valid() && Idle(chip.st)
      ensures status == Success || status == DeviceError
      ensures lba > lastBlock ==> status == DeviceError && chip.st.mem == old(chip.st.mem)
      ensures SameOutside(old(chip.st.mem), chip.st.mem, Span(lba, blockSize), blockSize)
      ensures status == Success ==>
                chip.st.mem == Overwritten(old(chip.st.mem), Span(lba, blockSize) + offset, data)
      ensures status == Success ==> chip.st.mode == ReadArray
      ensures ReturnsToArray(old(chip.st), chip.st)
      ensures Rewrites(old(chip.st), chip.st, lba <= lastBlock, status,
                       Skips(GeometryOf(this), old(chip.st.mem), lba, offset, data))
    {
      hide Overwritten, SameOutside, RegisterOf, Span, Jammed, Rewrites, RanOut, Skips, Skippable;
      ghost var before, start := chip.st.mem, chip.st;
      NobodyAsked(start, start);
      ghost var skips := Skips(GeometryOf(this), before, lba, offset, data);
      status := LoadBlock(lba);
      if status.IsError() {
        Untouched(before, Span(lba, blockSize), blockSize);
        NothingRewritten(start, DeviceError, skips);
        return DeviceError;
      }
      OneBlock(blockSize);
      CopyIntoShadow(offset, data);
      ghost var loaded, patched := chip.st, shadow[..];
      var written;
      written := WriteBlocks(lba, shadow[..]);
      status := if written.IsError() then DeviceError else Success;
      PatchedBlock(before, Span(lba, blockSize), blockSize, offset, data);
      SkipsPatched(before, lba, offset, data);
      RewritesRestated(loaded, chip.st, true, lba <= lastBlock, written, status, Skippable(patched), skips);
      RewritesElsewhere(start, loaded, chip.st, chip.st, lba <= lastBlock, status, skips);
      ReturnsBehind(start, loaded, chip.st);
    }

    lemma SkipsPatched(mem: seq<bv8>, lba: nat, offset: nat, data: seq<bv8>)
      requires Span(lba, blockSize) + blockSize <= |mem| && offset + |data| <= blockSize
      ensures Skippable(Overwritten(mem[Span(lba, blockSize)..Span(lba, blockSize) + blockSize], offset, data))
              <==> Skips(GeometryOf(this), mem, lba, offset, data)
    {
      hide Span;
      var at := Span(lba, blockSize);
      var block, all := Overwritten(mem[at..at + blockSize], offset, data), Overwritten(mem, at + offset, data);
      assert forall i :: at <= i < at + blockSize ==> all[i] == block[i - at];
      assert forall i :: 0 <= i < blockSize ==> block[i] == all[at + i];
    }

    /** NorFlashWriteSingleBlock.  A success leaves exactly WriteResult in the
        flash (see NorFlashSpec for when that is the plain replacement); no
        outcome changes a byte outside the block; and the chip is back in
        read-array mode unless the program buffer was granted on the last poll. */
    method WriteSingleBlock(lba: nat, offset: nat, data: seq<bv8>) returns (status: Status)
      requires Valid() && Idle(chip.st)
      requires blockSize % BOUNDARY == 0 && Span(lba + 2, blockSize) <= TWO_64
      modifies chip, shadow
      ensures Valid() && Idle(chip.st)
      ensures status == BadBufferSize <==> offset >= blockSize || |data| == 0 || offset + |data| > blockSize
      ensures status == BadBufferSize ==> chip.st == old(chip.st)
      ensures lba > lastBlock ==> status.IsError() && chip.st.mem == old(chip.st.mem)
      ensures SameOutside(old(chip.st.mem), chip.st.mem, Span(lba, blockSize), blockSize)
      ensures status != BadBufferSize && TriesInPlace(offset, |data|)
              && Span(lba, blockSize) + WindowStart(offset) + Widened(|data|) > size ==>
                status == DeviceError && chip.st == old(chip.st)
      ensures status == Success ==>
                Fits(old(chip.st.mem), old(shadow[..]), Span(lba, blockSize), offset, |data|)
                && chip.st.mem == WriteResult(old(chip.st.mem), old(shadow[..]), Span(lba, blockSize), offset, data)
      ensures status == Success ==> chip.st.mode == ReadArray
      ensures ReturnsToArray(old(chip.st), chip.st)
      ensures Writes(old(chip.st), chip.st, CanWrite(GeometryOf(this), lba, offset, |data|), status,
                     TakesInPlace(old(chip.st.mem), old(shadow[..]), Span(lba, blockSize), offset, data),
                     Skips(GeometryOf(this), old(chip.st.mem), lba, offset, data))
    {
      hide RegisterOf, Patches, Rewrites, Writes, SameOutside, Overwritten, Jammed, RanOut, Skips, TakesInPlace;
      ghost var start := chip.st;
      ghost var inPlace := TakesInPlace(start.mem, shadow[..], Span(lba, blockSize), offset, data);
      ghost var skips := Skips(GeometryOf(this), start.mem, lba, offset, data);
      NobodyAsked(start, start);
      Untouched(start.mem, Span(lba, blockSize), blockSize);
      NothingWritten(start, BadBufferSize, inPlace, skips);
      if offset >= blockSize || |data| > blockSize || offset + |data| > blockSize {
        return BadBufferSize;
      }
      if |data| == 0 {
        return BadBufferSize;
      }
      if |data| + offset % BOUNDARY <= 2 * MAX_BUFFER_SIZE_IN_BYTES {
        var needsErase;
        status, needsErase := TryInPlace(lba, offset, data);
        if !needsErase {
          PatchedWrite(GeometryOf(this), start, chip.st, lba, offset, data, status, inPlace, skips);
          return;
        }
      } else {
        NotInPlace(start.mem, shadow[..], Span(lba, blockSize), offset, data);
      }
      ghost var declined := chip.st;
      if lba <= lastBlock {
        BlocksInside(lba, 1, lastBlock, blockSize);
      } else {
        SpanMonotonic(lastBlock + 1, lba, blockSize);
      }
      status := RewriteBlock(lba, offset, data);
      SameAnswers(start, declined, chip.st, chip.st);
      RewrittenWrite(GeometryOf(this), start, declined, chip.st, lba, offset, data, status, inPlace, skips);
    }
  }

  lemma NotInPlace(mem: seq<bv8>, shadow: seq<bv8>, blk: nat, off: nat, data: seq<bv8>)
    requires !TriesInPlace(off, |data|)
    ensures !TakesInPlace(mem, shadow, blk, off, data)
  {}

  /** Leaving the chip in read-array mode before makes no difference. */
  lemma ReturnsBehind(s: ChipState, s1: ChipState, s': ChipState)
    requires s1.answers == s.answers && s1.mode == ReadArray && ReturnsToArray(s1, s')
    ensures ReturnsToArray(s, s')
  {
    NobodyAsked(s, s1);
    SameAnswers(s, s1, s', s');
    hide LastPollEdge, Jammed;
  }

  lemma SameAnswers(s: ChipState, s1: ChipState, s2: ChipState, s': ChipState)
    requires s1.answers == s.answers && s'.answers == s2.answers
    ensures LastPollEdge(s, s') <==> LastPollEdge(s1, s2)
    ensures RanOut(s, s') <==> RanOut(s1, s2)
  {}

  lemma PatchedWrite(g: Geometry, s: ChipState, s': ChipState, lba: nat, offset: nat, data: seq<bv8>, status: Status,
                     inPlace: bool, skips: bool)
    requires TriesInPlace(offset, |data|) && (CanWrite(g, lba, offset, |data|) ==> inPlace)
    requires Patches(s, s', g.regionBase % BOUNDARY == 0 && Span(lba, g.blockSize) + WindowStart(offset) + Widened(|data|) <= g.size,
                     status)
    ensures Writes(s, s', CanWrite(g, lba, offset, |data|), status, inPlace, skips)
  {
    hide Span, Patches, Writes;
    var able := CanWrite(g, lba, offset, |data|);
    PatchesRestated(s, s', g.regionBase % BOUNDARY == 0 && Span(lba, g.blockSize) + WindowStart(offset) + Widened(|data|) <= g.size,
                    able, status);
    PatchesAreWrites(s, s', able, status, skips);
    WritesRestated(s, s', able, able, status, true, inPlace, skips, skips);
  }

  lemma RewrittenWrite(g: Geometry, s: ChipState, s1: ChipState, s': ChipState, lba: nat, offset: nat, data: seq<bv8>,
                       status: Status, inPlace: bool, skips: bool)
    requires SameProgress(s, s1) && (CanWrite(g, lba, offset, |data|) ==> !inPlace)
    requires Rewrites(s1, s', lba <= g.lastBlock, status, skips)
    ensures Writes(s, s', CanWrite(g, lba, offset, |data|), status, inPlace, skips)
  {
    hide Rewrites, Writes, Span;
    var able := CanWrite(g, lba, offset, |data|);
    RewritesElsewhere(s, s1, s', s', lba <= g.lastBlock, status, skips);
    RewritesRestated(s, s', lba <= g.lastBlock, able, status, status, skips, skips);
    RewritesAreWrites(s, s', able, status, skips);
    WritesRestated(s, s', able, able, status, false, inPlace, skips, skips);
  }

  function GeometryOf(instance: Instance): Geometry {
    Geometry(instance.startLba, instance.blockSize, instance.lastBlock, instance.regionBase, instance.size)
  }

  /** An offset inside a block belongs to it. */
  lemma SameBlock(at: nat, k: nat, blockSize: nat)
    requires blockSize > 0 && at == Span(BlockOf(at, blockSize), blockSize) && k < blockSize
    ensures BlockOf(at + k, blockSize) == BlockOf(at, blockSize)
  {
    BlockOfSpan(BlockOf(at, blockSize), k, blockSize);
  }

  lemma {:induction false} SpanAligned(n: nat, blockSize: nat)
    requires blockSize % BOUNDARY == 0
    ensures Span(n, blockSize) % BOUNDARY == 0
  {
    if n > 0 {
      SpanAligned(n - 1, blockSize);
    }
  }

  /** The skipping of a chunk, or of the rest of a block, which never is. */
  predicate Skipped(data: seq<bv8>, n: nat) { AllOnes(data) && n == MAX_BUFFER_SIZE_IN_BYTES }

  lemma OnesTogether(data: seq<bv8>, done: nat, n: nat)
    requires done + n <= |data|
    ensures AllOnes(data[..done + n]) <==> AllOnes(data[..done]) && AllOnes(data[done..done + n])
  {
    var first, second, both := data[..done], data[done..done + n], data[..done + n];
    assert forall i :: 0 <= i < done ==> both[i] == first[i];
    assert forall i :: 0 <= i < n ==> second[i] == both[done + i];
    assert forall i :: done <= i < done + n ==> both[i] == second[i - done];
  }

  /** A word of a chunk that is not all ones keeps the chunk from being skipped. */
  lemma SomeZero(chunk: seq<bv8>, i: nat)
    requires 4 * i + 4 <= |chunk| && WordAt(chunk, i) != Word(0xFF, 0xFF, 0xFF, 0xFF)
    ensures !AllOnes(chunk)
  {}

  /** Programs that succeeded had their buffer granted in time. */
  lemma SuccessIsGranted(s: ChipState, s': ChipState, able: bool, skips: bool)
    requires Programs(s, s', able, Success, skips)
    ensures GrantedInTime(s, s')
  {
    hide RegisterOf;
  }

  lemma EraseKeepsAnswers(s: ChipState, s': ChipState, able: bool, status: Status)
    requires Erases(s, s', able, status)
    ensures s'.answers == s.answers && GrantedInTime(s, s') && !LastPollEdge(s, s')
  {
    NobodyAsked(s, s');
    hide RegisterOf;
  }

  /** Behind a buffer granted in time, an edge is an edge of what follows. */
  lemma SameEdge(s: ChipState, s1: ChipState, s2: ChipState)
    requires GrantedInTime(s, s1) && s1.answers <= s2.answers
    ensures LastPollEdge(s, s2) <==> LastPollEdge(s1, s2)
    ensures RanOut(s, s2) <==> RanOut(s1, s2)
    ensures s.answers <= s2.answers
  {
    PollsAnew(s, s1, s2);
  }

  lemma EdgeRanOut(s: ChipState, s': ChipState)
    ensures LastPollEdge(s, s') ==> RanOut(s, s')
  {}

  lemma WordsAreBuffered(s: ChipState, s': ChipState, at: nat, data: seq<bv8>, status: Status)
    requires Idle(s') && s'.answers == s.answers && s'.locked == s.locked && SameOutside(s.mem, s'.mem, at, |data|)
    requires status == Success ==> s'.mem == Programmed(s.mem, at, data)
    ensures BufferedOutcome(s, s', at, data, status)
  {
    NobodyAsked(s, s');
    hide RanOut, Programmed, SameOutside;
  }

  lemma StaysInsideBlanked(first: seq<bv8>, erased: seq<bv8>, now: seq<bv8>, at: nat, n: nat)
    requires SameOutside(first, erased, at, n) && SameOutside(erased, now, at, n)
    ensures SameOutside(first, now, at, n)
  {}

  lemma NothingRewritten(s: ChipState, status: Status, skips: bool)
    requires status != Success
    ensures Rewrites(s, s, false, status, skips)
  {}

  lemma NextSpan(n: nat, blockSize: nat)
    ensures Span(n + 1, blockSize) == Span(n, blockSize) + blockSize
  {}

  lemma NothingOverwritten(mem: seq<bv8>, at: nat)
    ensures Overwritten(mem, at, []) == mem && SameOutside(mem, mem, at, 0)
  {}

  lemma Untouched(mem: seq<bv8>, at: nat, n: nat)
    ensures SameOutside(mem, mem, at, n)
  {}

  lemma OverwrittenInside(mem: seq<bv8>, at: nat, data: seq<bv8>)
    ensures SameOutside(mem, Overwritten(mem, at, data), at, |data|)
  {}

  lemma WindowAligned(regionBase: nat, lba: nat, blockSize: nat, offset: nat)
    requires blockSize % BOUNDARY == 0 && regionBase % BOUNDARY == 0
    ensures (regionBase + Span(lba, blockSize) + WindowStart(offset)) % BOUNDARY == 0
  {
    SpanAligned(lba, blockSize);
  }

  lemma PatchedBlock(mem: seq<bv8>, at: nat, blockSize: nat, offset: nat, data: seq<bv8>)
    requires at + blockSize <= |mem| && offset + |data| <= blockSize
    ensures Overwritten(mem, at, Overwritten(mem[at..at + blockSize], offset, data)) == Overwritten(mem, at + offset, data)
  {}

  lemma NextPatched(before: seq<bv8>, d: nat, data: seq<bv8>, k: nat)
    requires d + |data| <= |before| && k < |data|
    ensures Overwritten(before, d, data[..k])[d + k] == before[d + k]
    ensures Overwritten(before, d, data[..k])[d + k := data[k]] == Overwritten(before, d, data[..k + 1])
  {}

  lemma CountByte(n: nat)
    requires n < 32
    ensures n as bv8 < 32 && (n as bv8) as nat == n
  {}

  lemma WindowsInside(offset: nat, n: nat, blockSize: nat)
    requires 0 < n && offset + n <= blockSize && blockSize % BOUNDARY == 0
    ensures WindowStart(offset) + BOUNDARY <= blockSize
    ensures n + offset % BOUNDARY > BOUNDARY ==> WindowStart(offset) + 2 * BOUNDARY <= blockSize
  {}

  lemma ChunksAndRest(blockSize: nat)
    requires blockSize % 4 == 0
    ensures 128 * (blockSize / 128) + ((blockSize / 4) % 32) * 4 == blockSize
  {
    var words := blockSize / 4;
    assert words == 32 * (words / 32) + words % 32;
    DivisionIsUnique(blockSize, 128, words / 32, 4 * (words % 32));
  }

  lemma BlocksInside(lba: nat, n: nat, lastBlock: nat, blockSize: nat)
    requires lba + n <= lastBlock + 1
    ensures Span(lba + n, blockSize) == Span(lba, blockSize) + Span(n, blockSize) <= Span(lastBlock + 1, blockSize)
  {
    SpanAdds(lba, n, blockSize);
    SpanMonotonic(lba + n, lastBlock + 1, blockSize);
  }

  /** A multiple of the block size is a whole number of blocks. */
  lemma WholeBlocks(n: nat, blockSize: nat)
    requires blockSize > 0 && n % blockSize == 0
    ensures n == Span(n / blockSize, blockSize)
  {
    SpanIsProduct(n / blockSize, blockSize);
  }

  lemma OneBlock(blockSize: nat)
    requires blockSize > 0
    ensures blockSize % blockSize == 0 && blockSize / blockSize == 1
  {
    DivisionIsUnique(blockSize, blockSize, 1, 0);
  }

  lemma ProgrammingOnes(mem: seq<bv8>, at: nat, data: seq<bv8>)
    requires forall i :: 0 <= i < |data| ==> data[i] == 0xFF
    ensures Programmed(mem, at, data) == mem
  {
    forall i | 0 <= i < |mem| ensures Programmed(mem, at, data)[i] == mem[i] {
      OnesAreNeutral(mem[i]);
    }
  }

  lemma ProgrammingNothing(mem: seq<bv8>, at: nat)
    ensures Programmed(mem, at, []) == mem
  {}

  lemma ProgramsCompose(mem: seq<bv8>, at: nat, first: seq<bv8>, second: seq<bv8>)
    ensures Programmed(Programmed(mem, at, first), at + |first|, second) == Programmed(mem, at, first + second)
  {}

  lemma WindowsStayInside(before: seq<bv8>, first: seq<bv8>, now: seq<bv8>, at: nat)
    ensures SameOutside(before, first, at, BOUNDARY) && SameOutside(first, now, at + BOUNDARY, BOUNDARY) ==>
              SameOutside(before, now, at, 2 * BOUNDARY)
    ensures SameOutside(before, first, at, BOUNDARY) && first == now ==> SameOutside(before, now, at, 2 * BOUNDARY)
  {}

  lemma StepStaysInside(first: seq<bv8>, prior: seq<bv8>, after: seq<bv8>, at: nat, done: seq<bv8>, n: nat, limit: nat)
    requires prior == Programmed(first, at, done) && |done| + n <= limit
    requires SameOutside(prior, after, at + |done|, n)
    ensures SameOutside(first, after, at, limit)
  {}

  lemma NextBlockWritten(first: seq<bv8>, prior: seq<bv8>, after: seq<bv8>, at: nat, data: seq<bv8>, done: nat, n: nat)
    requires done + n <= |data| && prior == Overwritten(first, at, data[..done])
    requires SameOutside(prior, after, at + done, n)
    ensures SameOutside(first, after, at, |data|)
    ensures after == Overwritten(prior, at + done, data[done..done + n]) ==>
              after == Overwritten(first, at, data[..done + n])
  {}

  /** Erase and program together replace the block. */
  lemma ProgrammingErased(mem: seq<bv8>, at: nat, data: seq<bv8>)
    ensures Programmed(Blanked(mem, at, |data|), at, data) == Overwritten(mem, at, data)
  {
    forall i | 0 <= i < |mem|
      ensures Programmed(Blanked(mem, at, |data|), at, data)[i] == Overwritten(mem, at, data)[i]
    {
      if at <= i < at + |data| {
        OnesAreNeutral(data[i - at]);
      }
    }
  }

  lemma BlankedOver(first: seq<bv8>, before: seq<bv8>, after: seq<bv8>, at: nat, n: nat)
    requires SameOutside(first, before, at, n) && SameOutside(before, after, at, n)
    ensures SameOutside(first, after, at, n)
    ensures after == Blanked(before, at, n) ==> after == Blanked(first, at, n)
  {}
}
