/**
  The firmware-volume-block services on top of the flash driver.
 */
module NorFlashFvb {
  import opened Uefi
  import opened Arithmetic
  import opened NorFlashChip
  import opened NorFlashSpec
  import opened NorFlashRegister
  import opened NorFlash

  /** One (StartingLba, NumOfLba) tuple of an EraseBlocks argument list. */
  datatype LbaRange = LbaRange(start: nat, count: nat)

  /** Byte i of the flash lies in a block the list names. */
  ghost predicate Listed(list: seq<LbaRange>, startLba: nat, blockSize: nat, i: nat) {
    exists k :: 0 <= k < |list| && InRange(list[k], startLba, blockSize, i)
  }

  predicate InRange(r: LbaRange, startLba: nat, blockSize: nat, i: nat) {
    Span(startLba + r.start, blockSize) <= i < Span(startLba + r.start, blockSize) + Span(r.count, blockSize)
  }

  /** Every tuple is nonempty and ends at or before the last block. */
  predicate ListValid(list: seq<LbaRange>, startLba: nat, lastBlock: nat) {
    forall k :: 0 <= k < |list| ==> list[k].count != 0 && startLba + list[k].start + list[k].count - 1 <= lastBlock
  }

  /** The flash after erasing exactly the listed blocks. */
  ghost function ListErased(mem: seq<bv8>, list: seq<LbaRange>, startLba: nat, blockSize: nat): (r: seq<bv8>)
    ensures |r| == |mem|
  {
    seq(|mem|, i requires 0 <= i < |mem| => if Listed(list, startLba, blockSize, i) then 0xFF else mem[i])
  }

  ghost predicate SameUnlisted(a: seq<bv8>, b: seq<bv8>, list: seq<LbaRange>, startLba: nat, blockSize: nat) {
    |a| == |b| && forall i :: 0 <= i < |a| && !Listed(list, startLba, blockSize, i) ==> a[i] == b[i]
  }

  lemma ListedStep(list: seq<LbaRange>, k: nat, startLba: nat, blockSize: nat, i: nat)
    requires k < |list|
    ensures Listed(list[..k + 1], startLba, blockSize, i)
            <==> Listed(list[..k], startLba, blockSize, i) || InRange(list[k], startLba, blockSize, i)
    ensures Listed(list[..k], startLba, blockSize, i) ==> Listed(list, startLba, blockSize, i)
    ensures InRange(list[k], startLba, blockSize, i) ==> Listed(list, startLba, blockSize, i)
  {
    var longer := list[..k + 1];
    assert longer[k] == list[k];
    if j :| 0 <= j < k && InRange(list[..k][j], startLba, blockSize, i) {
      assert longer[j] == list[..k][j] == list[j];
    }
    if j :| 0 <= j < |longer| && InRange(longer[j], startLba, blockSize, i) && j != k {
      assert list[..k][j] == longer[j];
    }
  }

  lemma ErasedStep(mem: seq<bv8>, list: seq<LbaRange>, k: nat, startLba: nat, blockSize: nat)
    requires k < |list|
    ensures Blanked(ListErased(mem, list[..k], startLba, blockSize),
                    Span(startLba + list[k].start, blockSize), Span(list[k].count, blockSize))
            == ListErased(mem, list[..k + 1], startLba, blockSize)
  {
    var now := Blanked(ListErased(mem, list[..k], startLba, blockSize),
                       Span(startLba + list[k].start, blockSize), Span(list[k].count, blockSize));
    forall i | 0 <= i < |mem| ensures now[i] == ListErased(mem, list[..k + 1], startLba, blockSize)[i] {
      ListedStep(list, k, startLba, blockSize, i);
    }
  }

  lemma NothingListed(mem: seq<bv8>, list: seq<LbaRange>, startLba: nat, blockSize: nat)
    ensures ListErased(mem, list[..0], startLba, blockSize) == mem && SameUnlisted(mem, mem, list, startLba, blockSize)
  {}

  lemma BlanksCompose(mem: seq<bv8>, at: nat, m: nat, n: nat)
    ensures Blanked(Blanked(mem, at, m), at + m, n) == Blanked(mem, at, m + n)
  {}

  lemma BlankNothing(mem: seq<bv8>, at: nat, blockSize: nat)
    ensures Blanked(mem, at, Span(0, blockSize)) == mem
  {}

  /** A partial erase of tuple k, torn or not in its next block, stays inside the list. */
  lemma ErasureStaysListed(mem: seq<bv8>, before: seq<bv8>, after: seq<bv8>, list: seq<LbaRange>, k: nat, j: nat,
                           startLba: nat, blockSize: nat)
    requires k < |list| && j < list[k].count
    requires before == Blanked(ListErased(mem, list[..k], startLba, blockSize),
                               Span(startLba + list[k].start, blockSize), Span(j, blockSize))
    requires SameOutside(before, after, Span(startLba + list[k].start, blockSize) + Span(j, blockSize), blockSize)
    ensures SameUnlisted(mem, after, list, startLba, blockSize)
  {
    var r := list[k];
    SpanMonotonic(j + 1, r.count, blockSize);
    forall i | 0 <= i < |mem| && !Listed(list, startLba, blockSize, i) ensures mem[i] == after[i] {
      ListedStep(list, k, startLba, blockSize, i);
      assert !InRange(r, startLba, blockSize, i);
    }
  }

  lemma FullBlock(n: nat, blockSize: nat)
    requires 0 < n <= blockSize && n % blockSize == 0
    ensures n == blockSize && n / blockSize == 1
  {
    if n < blockSize {
      DivisionIsUnique(n, blockSize, 0, n);
    } else {
      DivisionIsUnique(n, blockSize, 1, 0);
    }
  }

  /** FvbWrite. */
  method FvbWrite(instance: Instance, lba: nat, offset: nat, data: seq<bv8>) returns (status: Status)
    requires instance.Valid() && Idle(instance.chip.st)
    requires instance.blockSize % BOUNDARY == 0
    requires Span(instance.startLba + lba + 2, instance.blockSize) <= TWO_64
    modifies instance.chip, instance.shadow
    ensures instance.Valid() && Idle(instance.chip.st)
    ensures SameOutside(old(instance.chip.st.mem), instance.chip.st.mem,
                        Span(instance.startLba + lba, instance.blockSize), instance.blockSize)
    ensures status == BadBufferSize <==>
              offset >= instance.blockSize || |data| == 0 || offset + |data| > instance.blockSize
    ensures status == BadBufferSize || instance.startLba + lba > instance.lastBlock ==>
              status.IsError() && instance.chip.st.mem == old(instance.chip.st.mem)
    ensures status == Success
            && SafeOn(old(instance.chip.st.mem), Span(instance.startLba + lba, instance.blockSize), offset, data) ==>
              instance.chip.st.mem == Overwritten(old(instance.chip.st.mem),
                                                  Span(instance.startLba + lba, instance.blockSize) + offset, data)
    ensures status == Success ==> instance.chip.st.mode == ReadArray
    ensures ReturnsToArray(old(instance.chip.st), instance.chip.st)
    ensures Writes(old(instance.chip.st), instance.chip.st,
                   CanWrite(GeometryOf(instance), instance.startLba + lba, offset, |data|), status,
                   TakesInPlace(old(instance.chip.st.mem), old(instance.shadow[..]),
                                Span(instance.startLba + lba, instance.blockSize), offset, data),
                   Skips(GeometryOf(instance), old(instance.chip.st.mem), instance.startLba + lba, offset, data))
  {
    hide Writes, WriteResult, Overwritten, SafeOn, SameOutside, CanWrite, TakesInPlace, Skips, ReturnsToArray;
    ghost var before, stale := instance.chip.st.mem, instance.shadow[..];
    status := instance.WriteSingleBlock(instance.startLba + lba, offset, data);
    if status == Success && SafeOn(before, Span(instance.startLba + lba, instance.blockSize), offset, data) {
      SafeWriteIsExact(before, stale, Span(instance.startLba + lba, instance.blockSize), offset, data);
    }
  }

  /** FvbRead: on success the buffer starts with the addressed flash bytes. */
  method FvbRead(instance: Instance, lba: nat, offset: nat, n: nat, buffer: array<bv8>) returns (status: Status)
    requires instance.Valid() && Idle(instance.chip.st)
    requires n <= buffer.Length
    requires Span(instance.startLba + lba + 2, instance.blockSize) <= TWO_64
    modifies instance.chip, buffer
    ensures instance.Valid() && Idle(instance.chip.st)
    ensures instance.chip.st == old(instance.chip.st).(mode := instance.chip.st.mode)
    ensures status == BadBufferSize <==> offset >= instance.blockSize || n == 0 || offset + n > instance.blockSize
    ensures status == Success <==>
              offset < instance.blockSize && 0 < n && offset + n <= instance.blockSize
              && instance.startLba + lba <= instance.lastBlock
    ensures status == Success ==>
              instance.chip.st.mode == ReadArray
              && Span(instance.startLba + lba, instance.blockSize) + offset + n <= instance.size
              && buffer[..] == Refilled(instance.chip.st.mem, old(buffer[..]),
                                        Span(instance.startLba + lba, instance.blockSize) + offset, n)
    ensures status != Success ==> instance.chip.st == old(instance.chip.st) && buffer[..] == old(buffer[..])
  {
    hide Refilled, BlockOf;
    var blockSize := instance.blockSize;
    if offset >= blockSize || n > blockSize || offset + n > blockSize {
      return BadBufferSize;
    }
    if n == 0 {
      return BadBufferSize;
    }
    var absolute := instance.startLba + lba;
    BlocksInside(absolute, 2, absolute + 1, blockSize);
    if absolute <= instance.lastBlock {
      BlocksInside(absolute, 1, instance.lastBlock, blockSize);
    } else {
      SpanMonotonic(instance.lastBlock + 1, absolute, blockSize);
    }
    var tempStatus;
    if n % blockSize != 0 {
      tempStatus := instance.Read(absolute, offset, n, buffer);
    } else {
      FullBlock(n, blockSize);
      tempStatus := instance.ReadBlocks(absolute, blockSize, buffer);
    }
    if tempStatus.IsError() {
      return DeviceError;
    }
    return Success;
  }

  /** Erases block j of tuple k. */
  method EraseNext(instance: Instance, ghost mem: seq<bv8>, ghost prior: seq<bv8>, ghost list: seq<LbaRange>,
                   ghost k: nat, ghost j: nat, startingLba: nat)
    returns (status: Status)
    requires instance.Valid() && Idle(instance.chip.st)
    requires k < |list| && ListValid(list, instance.startLba, instance.lastBlock)
    requires j < list[k].count && startingLba == list[k].start + j
    requires |mem| == instance.size && prior == ListErased(mem, list[..k], instance.startLba, instance.blockSize)
    requires instance.chip.st.mem
             == Blanked(prior, Span(instance.startLba + list[k].start, instance.blockSize), Span(j, instance.blockSize))
    modifies instance.chip
    ensures instance.Valid() && Idle(instance.chip.st) && instance.chip.st.mode == ReadArray
    ensures SameUnlisted(mem, instance.chip.st.mem, list, instance.startLba, instance.blockSize)
    ensures status == Success ==>
              instance.chip.st.mem
              == Blanked(prior, Span(instance.startLba + list[k].start, instance.blockSize), Span(j + 1, instance.blockSize))
    ensures Erases(old(instance.chip.st), instance.chip.st, true, status)
  {
    hide Erases, Blanked, SameUnlisted, ListErased;
    ghost var first := Span(instance.startLba + list[k].start, instance.blockSize);
    ghost var before := instance.chip.st.mem;
    status := EraseLba(instance, startingLba);
    SpanAdds(instance.startLba + list[k].start, j, instance.blockSize);
    assert instance.startLba + startingLba == instance.startLba + list[k].start + j;
    ErasureStaysListed(mem, before, instance.chip.st.mem, list, k, j, instance.startLba, instance.blockSize);
    BlanksCompose(prior, first, Span(j, instance.blockSize), instance.blockSize);
  }

  /** Erases the blocks of one tuple. */
  method EraseTuple(instance: Instance, ghost mem: seq<bv8>, ghost list: seq<LbaRange>, ghost k: nat, r: LbaRange)
    returns (status: Status)
    requires instance.Valid() && Idle(instance.chip.st)
    requires k < |list| && list[k] == r && ListValid(list, instance.startLba, instance.lastBlock)
    requires |mem| == instance.size
    requires instance.chip.st.mem == ListErased(mem, list[..k], instance.startLba, instance.blockSize)
    modifies instance.chip
    ensures instance.Valid() && Idle(instance.chip.st) && instance.chip.st.mode == ReadArray
    ensures status == Success || status == DeviceError
    ensures SameUnlisted(mem, instance.chip.st.mem, list, instance.startLba, instance.blockSize)
    ensures status == Success ==>
              instance.chip.st.mem == ListErased(mem, list[..k + 1], instance.startLba, instance.blockSize)
    ensures Erases(old(instance.chip.st), instance.chip.st, true, status)
  {
    hide Erases, Blanked, Span, ListErased, SameUnlisted;
    ghost var prior, start := instance.chip.st.mem, instance.chip.st;
    var startingLba: nat, numOfLba: nat := r.start, r.count;
    ghost var j: nat := 0;
    ErasedStep(mem, list, k, instance.startLba, instance.blockSize);
    BlankNothing(prior, Span(instance.startLba + r.start, instance.blockSize), instance.blockSize);
    assert 0 < r.count;
    hide ListValid;
    while numOfLba > 0
      invariant instance.Valid() && Idle(instance.chip.st)
      invariant j + numOfLba == r.count && startingLba == r.start + j
      invariant j > 0 ==> instance.chip.st.mode == ReadArray
      invariant if j == 0 then instance.chip.st == start else Erases(start, instance.chip.st, true, Success)
      invariant j > 0 ==> SameUnlisted(mem, instance.chip.st.mem, list, instance.startLba, instance.blockSize)
      invariant instance.chip.st.mem
                == Blanked(prior, Span(instance.startLba + r.start, instance.blockSize), Span(j, instance.blockSize))
    {
      ghost var s1 := instance.chip.st;
      status := EraseNext(instance, mem, prior, list, k, j, startingLba);
      if j > 0 {
        ErasesThenErases(start, s1, instance.chip.st, status);
      }
      if status.IsError() {
        ErasesRestated(start, instance.chip.st, status, DeviceError);
        return DeviceError;
      }
      startingLba, numOfLba, j := startingLba + 1, numOfLba - 1, j + 1;
    }
    return Success;
  }

  method EraseLba(instance: Instance, lba: nat) returns (status: Status)
    requires instance.Valid() && Idle(instance.chip.st)
    requires instance.startLba + lba <= instance.lastBlock
    modifies instance.chip
    ensures instance.Valid() && Idle(instance.chip.st) && instance.chip.st.mode == ReadArray
    ensures SameOutside(old(instance.chip.st.mem), instance.chip.st.mem,
                        Span(instance.startLba + lba, instance.blockSize), instance.blockSize)
    ensures status == Success ==>
              instance.chip.st.mem == Blanked(old(instance.chip.st.mem),
                                              Span(instance.startLba + lba, instance.blockSize), instance.blockSize)
    ensures Erases(old(instance.chip.st), instance.chip.st, true, status)
  {
    var absolute := instance.startLba + lba;
    BlocksInside(absolute, 1, instance.lastBlock, instance.blockSize);
    BlockOfSpan(absolute, 0, instance.blockSize);
    status := instance.UnlockAndEraseSingleBlock(instance.regionBase + instance.BlockOffset(absolute));
  }

  /** FvbEraseBlocks: the whole list is checked before anything is erased. */
  method FvbEraseBlocks(instance: Instance, list: seq<LbaRange>) returns (status: Status)
    requires instance.Valid() && Idle(instance.chip.st)
    requires forall k :: 0 <= k < |list| ==> instance.startLba + list[k].start + list[k].count <= TWO_64
    modifies instance.chip
    ensures instance.Valid() && Idle(instance.chip.st)
    ensures !ListValid(list, instance.startLba, instance.lastBlock) ==>
              status == InvalidParameter && instance.chip.st == old(instance.chip.st)
    ensures ListValid(list, instance.startLba, instance.lastBlock) ==> status == Success || status == DeviceError
    ensures SameUnlisted(old(instance.chip.st.mem), instance.chip.st.mem, list, instance.startLba, instance.blockSize)
    ensures status == Success ==>
              instance.chip.st.mem
              == ListErased(old(instance.chip.st.mem), list, instance.startLba, instance.blockSize)
    ensures if list == [] || !ListValid(list, instance.startLba, instance.lastBlock)
            then instance.chip.st == old(instance.chip.st) else instance.chip.st.mode == ReadArray
    ensures list == [] ==> status == Success
    ensures Erases(old(instance.chip.st), instance.chip.st,
                   list != [] && ListValid(list, instance.startLba, instance.lastBlock), status)
  {
    ghost var mem, start := instance.chip.st.mem, instance.chip.st;
    var index := 0;
    while index < |list|
      invariant index <= |list|
      invariant ListValid(list[..index], instance.startLba, instance.lastBlock)
    {
      var r := list[index];
      if r.count == 0 || instance.startLba + r.start + r.count - 1 > instance.lastBlock {
        return InvalidParameter;
      }
      assert list[..index + 1] == list[..index] + [r];
      index := index + 1;
    }
    assert list[..index] == list;
    index := 0;
    NothingListed(mem, list, instance.startLba, instance.blockSize);
    hide Erases, ListErased, SameUnlisted;
    while index < |list|
      invariant instance.Valid() && Idle(instance.chip.st) && index <= |list|
      invariant instance.chip.st.mem == ListErased(mem, list[..index], instance.startLba, instance.blockSize)
      invariant SameUnlisted(mem, instance.chip.st.mem, list, instance.startLba, instance.blockSize)
      invariant if index == 0 then instance.chip.st == start
                else instance.chip.st.mode == ReadArray && Erases(start, instance.chip.st, true, Success)
    {
      ghost var s1 := instance.chip.st;
      status := EraseTuple(instance, mem, list, index, list[index]);
      if index > 0 {
        ErasesThenErases(start, s1, instance.chip.st, status);
      }
      if status.IsError() {
        return;
      }
      index := index + 1;
    }
    assert list[..index] == list;
    if list == [] {
      NothingErases(start);
    }
    return Success;
  }
}
