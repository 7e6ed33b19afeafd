/**
  The P30-family NOR flash as the driver sees it over MMIO: a byte array whose
  cells can only be cleared by programming and only be set by a block erase,
  and a command-mode state machine that decides what a bus write means and
  what a bus read returns.

  Timing and hardware faults are left to the environment: how long an operation
  stays busy, whether the program buffer is available and whether an operation
  suffers a fault are chosen freely by the chip, which counts its faults and
  keeps its answers to those who asked for the program buffer.  What
  it guarantees is that an operation reporting no error took full effect, that
  a failing one damages nothing outside the range it was aimed at, that a fault
  shows in the status register, and that an operation on an unlocked block
  without a fault sets no status bit.
 */
module NorFlashChip {
  import opened Uefi

  /** A 32-bit bus word, least significant byte first.  Bytes 0-1 belong to the
      first 16-bit part and bytes 2-3 to the second one. */
  datatype Word = Word(b0: bv8, b1: bv8, b2: bv8, b3: bv8)

  function Bytes(w: Word): (s: seq<bv8>)
    ensures |s| == 4
  {
    [w.b0, w.b1, w.b2, w.b3]
  }

  /** CREATE_DUAL_CMD: the same command for both parts. */
  function DualCmd(c: bv8): Word { Word(c, 0, c, 0) }

  const CMD_READ_DEVICE_ID: bv8 := 0x90
  const CMD_READ_STATUS_REGISTER: bv8 := 0x70
  const CMD_CLEAR_STATUS_REGISTER: bv8 := 0x50
  const CMD_READ_ARRAY: bv8 := 0xFF
  const CMD_WORD_PROGRAM_SETUP: bv8 := 0x40
  const CMD_BUFFERED_PROGRAM_SETUP: bv8 := 0xE8
  const CMD_CONFIRM: bv8 := 0xD0
  const CMD_BLOCK_ERASE_SETUP: bv8 := 0x20
  const CMD_LOCK_BLOCK_SETUP: bv8 := 0x60

  const SR_BIT_WRITE: bv8 := 0x80
  const SR_BIT_ERASE: bv8 := 0x20
  const SR_BIT_PROGRAM: bv8 := 0x10
  const SR_BIT_VPP: bv8 := 0x08
  const SR_BIT_BLOCK_LOCKED: bv8 := 0x02

  const MAX_BUFFER_SIZE_IN_BYTES: nat := 128
  const MAX_BUFFER_SIZE_IN_WORDS: nat := 32

  /** The size of n blocks. */
  function Span(n: nat, blockSize: nat): nat {
    if n == 0 then 0 else Span(n - 1, blockSize) + blockSize
  }

  /** The number of the block that holds offset `at`. */
  function BlockOf(at: nat, blockSize: nat): nat
    requires blockSize > 0
  {
    if at < blockSize then 0 else 1 + BlockOf(at - blockSize, blockSize)
  }

  lemma {:induction false} SpanIsProduct(n: nat, blockSize: nat)
    ensures Span(n, blockSize) == n * blockSize
  {
    if n > 0 {
      SpanIsProduct(n - 1, blockSize);
    }
  }

  lemma {:induction false} SpanAdds(m: nat, n: nat, blockSize: nat)
    ensures Span(m + n, blockSize) == Span(m, blockSize) + Span(n, blockSize)
  {
    if n > 0 {
      SpanAdds(m, n - 1, blockSize);
    }
  }

  lemma SpanMonotonic(m: nat, n: nat, blockSize: nat)
    requires m <= n
    ensures Span(m, blockSize) <= Span(n, blockSize)
  {
    SpanAdds(m, n - m, blockSize);
  }

  lemma {:induction false} BlockOfSpan(n: nat, r: nat, blockSize: nat)
    requires r < blockSize
    ensures BlockOf(Span(n, blockSize) + r, blockSize) == n
  {
    if n > 0 {
      BlockOfSpan(n - 1, r, blockSize);
    }
  }

  datatype Mode =
    | ReadArray
    | ReadStatus
    | ReadId
    | LockSetup
    | EraseSetup
    | WordSetup
    | BufferSetup(available: bool)
    | BufferLoad(start: nat, count: nat, data: seq<bv8>)

  datatype ChipState = ChipState(
    mem: seq<bv8>,
    blockSize: nat,
    mode: Mode,
    locked: set<nat>,
    srLo: bv8,
    srHi: bv8,
    busy: nat,
    faults: nat,
    answers: seq<bool>)

  predicate WellFormed(s: ChipState) {
    s.blockSize > 0
  }

  /** The chip is waiting for a command: the state between two driver calls. */
  predicate Idle(s: ChipState) {
    && s.busy == 0
    && (s.mode == ReadArray || s.mode == ReadStatus || s.mode == ReadId)
  }

  /** Both parts report that they are done. */
  predicate Ready(w: Word) {
    w.b0 & SR_BIT_WRITE == SR_BIT_WRITE && w.b2 & SR_BIT_WRITE == SR_BIT_WRITE
  }

  /** Some part reports `bit`. */
  predicate Reports(w: Word, bit: bv8) {
    w.b0 & bit != 0 || w.b2 & bit != 0
  }

  predicate ProgramFailed(w: Word) {
    Reports(w, SR_BIT_VPP) || Reports(w, SR_BIT_PROGRAM) || Reports(w, SR_BIT_BLOCK_LOCKED)
  }

  predicate EraseFailed(w: Word) {
    Reports(w, SR_BIT_VPP) || Reports(w, SR_BIT_ERASE) || Reports(w, SR_BIT_BLOCK_LOCKED)
  }

  /** The status register has just been cleared. */
  predicate Clean(s: ChipState) { s.srLo == 0 && s.srHi == 0 }

  /** The status word of a chip that is not busy. */
  function StatusWord(s: ChipState): Word {
    Word(s.srLo | SR_BIT_WRITE, 0, s.srHi | SR_BIT_WRITE, 0)
  }

  /** Programming can only clear bits: every addressed cell is ANDed. */
  function Programmed(mem: seq<bv8>, at: nat, data: seq<bv8>): (r: seq<bv8>)
    ensures |r| == |mem|
  {
    seq(|mem|, i requires 0 <= i < |mem| => if at <= i < at + |data| then mem[i] & data[i - at] else mem[i])
  }

  /** What a write is meant to achieve: the addressed cells are replaced. */
  function Overwritten(mem: seq<bv8>, at: nat, data: seq<bv8>): (r: seq<bv8>)
    ensures |r| == |mem|
  {
    seq(|mem|, i requires 0 <= i < |mem| => if at <= i < at + |data| then data[i - at] else mem[i])
  }

  /** Erasing sets every bit of the addressed cells. */
  function Blanked(mem: seq<bv8>, at: nat, n: nat): (r: seq<bv8>)
    ensures |r| == |mem|
  {
    seq(|mem|, i requires 0 <= i < |mem| => if at <= i < at + n then 0xFF else mem[i])
  }

  predicate SameOutside(a: seq<bv8>, b: seq<bv8>, at: nat, n: nat) {
    |a| == |b| && forall i :: 0 <= i < |a| && !(at <= i < at + n) ==> a[i] == b[i]
  }

  /** The chip has started an operation on [at, at + n) and reports its status. */
  ghost predicate Started(s: ChipState, at: nat, n: nat, s': ChipState) {
    && s'.mode == ReadStatus
    && s'.locked == s.locked
    && s'.blockSize == s.blockSize
    && SameOutside(s.mem, s'.mem, at, n)
    && s.srLo & s'.srLo == s.srLo && s.srHi & s'.srHi == s.srHi
    && s.faults <= s'.faults && s'.answers == s.answers
  }

  /** Without a fault, an operation on an unlocked block sets no status bit. */
  predicate Harmless(s: ChipState, at: nat, s': ChipState)
    requires WellFormed(s)
  {
    s'.faults == s.faults && BlockOf(at, s.blockSize) !in s.locked ==> s'.srLo == s.srLo && s'.srHi == s.srHi
  }

  ghost predicate ProgramStep(s: ChipState, at: nat, data: seq<bv8>, s': ChipState)
    requires WellFormed(s)
  {
    && Started(s, at, |data|, s') && Harmless(s, at, s')
    && (BlockOf(at, s.blockSize) in s.locked ==> s'.mem == s.mem && Reports(StatusWord(s'), SR_BIT_BLOCK_LOCKED))
    && (s'.faults != s.faults ==> ProgramFailed(StatusWord(s')))
    && (!ProgramFailed(StatusWord(s')) ==> s'.mem == Programmed(s.mem, at, data))
  }

  ghost predicate EraseStep(s: ChipState, at: nat, s': ChipState)
    requires WellFormed(s)
  {
    var block := Span(BlockOf(at, s.blockSize), s.blockSize);
    && Started(s, block, s.blockSize, s') && Harmless(s, at, s')
    && (BlockOf(at, s.blockSize) in s.locked ==> s'.mem == s.mem && Reports(StatusWord(s'), SR_BIT_BLOCK_LOCKED))
    && (s'.faults != s.faults ==> EraseFailed(StatusWord(s')))
    && (!EraseFailed(StatusWord(s')) ==> s'.mem == Blanked(s.mem, block, s.blockSize))
  }

  /** An unexpected word in the middle of a command sequence aborts it. */
  function Aborted(s: ChipState): ChipState {
    s.(mode := ReadStatus,
       srLo := s.srLo | SR_BIT_ERASE | SR_BIT_PROGRAM,
       srHi := s.srHi | SR_BIT_ERASE | SR_BIT_PROGRAM)
  }

  /** A command word written while the chip waits for one. */
  ghost predicate CommandStep(s: ChipState, w: Word, s': ChipState) {
    if w == DualCmd(CMD_READ_ARRAY) then s' == s.(mode := ReadArray)
    else if w == DualCmd(CMD_READ_STATUS_REGISTER) then s' == s.(mode := ReadStatus)
    else if w == DualCmd(CMD_READ_DEVICE_ID) then s' == s.(mode := ReadId)
    else if w == DualCmd(CMD_CLEAR_STATUS_REGISTER) then s' == s.(srLo := 0, srHi := 0)
    else if w == DualCmd(CMD_LOCK_BLOCK_SETUP) then s' == s.(mode := LockSetup)
    else if w == DualCmd(CMD_BLOCK_ERASE_SETUP) then s' == s.(mode := EraseSetup)
    else if w == DualCmd(CMD_WORD_PROGRAM_SETUP) then s' == s.(mode := WordSetup)
    else if w == DualCmd(CMD_BUFFERED_PROGRAM_SETUP) then
      s'.mode.BufferSetup? && s' == s.(mode := s'.mode, answers := s.answers + [s'.mode.available])
    else s' == s
  }

  /** The word count that opens a buffered-program sequence: count - 1, for both parts. */
  function CountStep(s: ChipState, at: nat, w: Word): ChipState {
    if w == DualCmd(w.b0) && w.b0 < 32 then s.(mode := BufferLoad(at, w.b0 as nat + 1, [])) else Aborted(s)
  }

  /** A data word of a buffered-program sequence, at the next address. */
  function LoadStep(s: ChipState, at: nat, w: Word): ChipState
    requires s.mode.BufferLoad?
  {
    if at == s.mode.start + |s.mode.data| then
      s.(mode := BufferLoad(s.mode.start, s.mode.count, s.mode.data + Bytes(w)))
    else Aborted(s)
  }

  /** The meaning of a 32-bit bus write at offset `at`. */
  ghost predicate WriteStep(s: ChipState, at: nat, w: Word, s': ChipState)
    requires WellFormed(s)
  {
    if s.busy > 0 then s' == s
    else match s.mode
      case LockSetup =>
        if w == DualCmd(CMD_CONFIRM) then
          s' == s.(mode := ReadStatus, locked := s.locked - {BlockOf(at, s.blockSize)}, busy := s'.busy)
        else s' == Aborted(s)
      case EraseSetup =>
        if w == DualCmd(CMD_CONFIRM) then EraseStep(s, at, s') else s' == Aborted(s)
      case WordSetup =>
        ProgramStep(s, at, Bytes(w), s')
      case BufferSetup(true) =>
        s' == CountStep(s, at, w)
      case BufferLoad(start, count, data) =>
        if |data| < 4 * count then s' == LoadStep(s, at, w)
        else if w == DualCmd(CMD_CONFIRM) then ProgramStep(s, start, data, s')
        else s' == Aborted(s)
      case _ =>
        CommandStep(s, w, s')
  }

  predicate SameShape(s: ChipState, s': ChipState) {
    |s'.mem| == |s.mem| && s'.blockSize == s.blockSize && s.faults <= s'.faults && s.answers <= s'.answers
  }

  lemma CommandKeepsShape(s: ChipState, w: Word, s': ChipState)
    requires CommandStep(s, w, s')
    ensures SameShape(s, s')
  {
    hide DualCmd;
    if w == DualCmd(CMD_BUFFERED_PROGRAM_SETUP) {
      assert s.answers <= s'.answers;
    } else {
      assert s'.answers == s.answers;
    }
  }

  lemma OperationKeepsShape(s: ChipState, at: nat, data: seq<bv8>, s': ChipState)
    requires WellFormed(s)
    ensures ProgramStep(s, at, data, s') ==> SameShape(s, s')
    ensures EraseStep(s, at, s') ==> SameShape(s, s')
  {}

  /** No bus write changes the geometry or undoes a fault. */
  lemma StepKeepsShape(s: ChipState, at: nat, w: Word, s': ChipState)
    requires WellFormed(s) && WriteStep(s, at, w, s')
    ensures SameShape(s, s')
  {
    hide CommandStep, ProgramStep, EraseStep, DualCmd, BlockOf, Bytes;
    if CommandStep(s, w, s') {
      CommandKeepsShape(s, w, s');
    }
    OperationKeepsShape(s, at, Bytes(w), s');
    if s.mode.BufferLoad? {
      OperationKeepsShape(s, s.mode.start, s.mode.data, s');
    }
  }

  /** The meaning of a 32-bit bus read at offset `at`. */
  ghost predicate ReadStep(s: ChipState, at: nat, w: Word, s': ChipState)
    requires WellFormed(s)
    requires at + 4 <= |s.mem|
  {
    match s.mode
    case ReadArray => s' == s && Bytes(w) == s.mem[at..at + 4]
    case ReadStatus =>
      if s.busy > 0 then s' == s.(busy := s.busy - 1) && !Ready(w)
      else s' == s && w == StatusWord(s)
    case ReadId =>
      s' == s && (at == Span(BlockOf(at, s.blockSize), s.blockSize) + 8 ==> ((w.b0 | w.b2) & 1 == 1 <==> BlockOf(at, s.blockSize) in s.locked))
    case BufferSetup(available) => s' == s && (Ready(w) <==> available)
    case _ => s' == s
  }

  /** The memory-mapped part. */
  class Chip {
    const base: nat
    var st: ChipState

    constructor (base: nat, st: ChipState)
      ensures this.base == base && this.st == st
    {
      this.base := base;
      this.st := st;
    }

    /** MmioWrite32. */
    method Write32(addr: nat, w: Word)
      requires WellFormed(st)
      requires base <= addr && addr - base + 4 <= |st.mem|
      modifies this
      ensures WriteStep(old(st), addr - base, w, st)
    {
      var at := addr - base;
      if st.busy > 0 {
        return;
      }
      match st.mode {
        case LockSetup =>
          if w == DualCmd(CMD_CONFIRM) {
            var polls: nat := *;
            st := st.(mode := ReadStatus, locked := st.locked - {BlockOf(at, st.blockSize)}, busy := polls);
          } else {
            st := Aborted(st);
          }
        case EraseSetup =>
          if w == DualCmd(CMD_CONFIRM) {
            Erase(at);
          } else {
            st := Aborted(st);
          }
        case WordSetup =>
          Program(at, Bytes(w));
        case BufferSetup(true) =>
          st := CountStep(st, at, w);
        case BufferLoad(start, count, data) =>
          if |data| < 4 * count {
            st := LoadStep(st, at, w);
          } else if w == DualCmd(CMD_CONFIRM) {
            Program(start, data);
          } else {
            st := Aborted(st);
          }
        case _ =>
          Command(w);
      }
    }

    method Program(at: nat, data: seq<bv8>)
      requires WellFormed(st)
      modifies this
      ensures ProgramStep(old(st), at, data, st)
    {
      Operate(at, |data|, Programmed(st.mem, at, data), BlockOf(at, st.blockSize) in st.locked, SR_BIT_PROGRAM);
    }

    method Erase(at: nat)
      requires WellFormed(st)
      modifies this
      ensures EraseStep(old(st), at, st)
    {
      var block := Span(BlockOf(at, st.blockSize), st.blockSize);
      Operate(block, st.blockSize, Blanked(st.mem, block, st.blockSize), BlockOf(at, st.blockSize) in st.locked, SR_BIT_ERASE);
    }

    /** Runs an operation on [at, at + n) meant to turn the memory into `target`; a
        fault shows in the VPP bit or in the operation's own one. */
    method Operate(at: nat, n: nat, target: seq<bv8>, locked: bool, own: bv8)
      requires WellFormed(st)
      requires SameOutside(st.mem, target, at, n) && (own == SR_BIT_PROGRAM || own == SR_BIT_ERASE)
      modifies this
      ensures Started(old(st), at, n, st)
      ensures locked ==> st.mem == old(st).mem && Reports(StatusWord(st), SR_BIT_BLOCK_LOCKED)
      ensures !locked && st.faults == old(st).faults ==> st.mem == target
      ensures !locked && st.faults == old(st).faults ==> st.srLo == old(st).srLo && st.srHi == old(st).srHi
      ensures st.faults != old(st).faults ==> Reports(StatusWord(st), SR_BIT_VPP) || Reports(StatusWord(st), own)
    {
      var polls: nat := *;
      var fault: bool := *;
      if locked {
        st := st.(mode := ReadStatus, srLo := st.srLo | SR_BIT_BLOCK_LOCKED, srHi := st.srHi | SR_BIT_BLOCK_LOCKED,
                  busy := polls);
      } else if fault {
        var torn: seq<bv8> := *;
        if !SameOutside(st.mem, torn, at, n) {
          torn := st.mem;
        }
        var lo: bv8, hi: bv8 := *, *;
        if (lo | hi) & (SR_BIT_VPP | own) == 0 {
          lo := lo | own;
        }
        st := st.(mem := torn, mode := ReadStatus, srLo := st.srLo | lo, srHi := st.srHi | hi,
                  busy := polls, faults := st.faults + 1);
      } else {
        st := st.(mem := target, mode := ReadStatus, busy := polls);
      }
    }

    method Command(w: Word)
      modifies this
      ensures CommandStep(old(st), w, st)
    {
      if w == DualCmd(CMD_READ_ARRAY) {
        st := st.(mode := ReadArray);
      } else if w == DualCmd(CMD_READ_STATUS_REGISTER) {
        st := st.(mode := ReadStatus);
      } else if w == DualCmd(CMD_READ_DEVICE_ID) {
        st := st.(mode := ReadId);
      } else if w == DualCmd(CMD_CLEAR_STATUS_REGISTER) {
        st := st.(srLo := 0, srHi := 0);
      } else if w == DualCmd(CMD_LOCK_BLOCK_SETUP) {
        st := st.(mode := LockSetup);
      } else if w == DualCmd(CMD_BLOCK_ERASE_SETUP) {
        st := st.(mode := EraseSetup);
      } else if w == DualCmd(CMD_WORD_PROGRAM_SETUP) {
        st := st.(mode := WordSetup);
      } else if w == DualCmd(CMD_BUFFERED_PROGRAM_SETUP) {
        var available: bool := *;
        st := st.(mode := BufferSetup(available), answers := st.answers + [available]);
      }
    }

    /** MmioRead32. */
    method Read32(addr: nat) returns (w: Word)
      requires WellFormed(st)
      requires base <= addr && addr - base + 4 <= |st.mem|
      modifies this
      ensures ReadStep(old(st), addr - base, w, st)
    {
      var at := addr - base;
      var noise: bv8 := *;
      match st.mode {
        case ReadArray =>
          w := Word(st.mem[at], st.mem[at + 1], st.mem[at + 2], st.mem[at + 3]);
          assert Bytes(w) == st.mem[at..at + 4];
        case ReadStatus =>
          if st.busy > 0 {
            w := Word(noise & 0x7F, noise, noise, noise);
            st := st.(busy := st.busy - 1);
          } else {
            w := StatusWord(st);
          }
        case ReadId =>
          var lock: bv8 := if BlockOf(at, st.blockSize) in st.locked then 1 else 0;
          w := Word(lock, noise, lock, noise);
        case BufferSetup(available) =>
          w := if available then Word(SR_BIT_WRITE, 0, SR_BIT_WRITE, 0) else Word(0, 0, 0, 0);
        case _ =>
          w := Word(noise, noise, noise, noise);
      }
    }

    /** CopyMem out of the mapped window: array data only in read-array mode. */
    method CopyFrom(addr: nat, n: nat) returns (data: seq<bv8>)
      requires base <= addr && addr - base + n <= |st.mem|
      ensures |data| == n
      ensures st.mode == ReadArray ==> data == st.mem[addr - base..addr - base + n]
    {
      if st.mode == ReadArray {
        data := st.mem[addr - base..addr - base + n];
      } else {
        var noise: bv8 := *;
        data := seq(n, _ => noise);
      }
    }
  }
}
