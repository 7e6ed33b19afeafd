/**
  The firmware-volume and variable-store headers at the start of the variable
  area: how they are built, how they are checked at boot, and that what is
  built passes the check.  Field layout as in the PI specification; the
  GUIDs and the sizes and bases of the storage areas are platform parameters.
 */
module NorFlashHeader {
  import opened Uefi
  import opened Arithmetic
  import opened NorFlashChip
  import opened NorFlashSpec
  import opened NorFlashRegister
  import opened NorFlash
  import opened NorFlashFvb

  const EFI_FVH_SIGNATURE: u32 := 0x4856465F
  const EFI_FVH_REVISION: bv8 := 2
  /** Readable, writable, sticky-write, memory-mapped, erase polarity 1. */
  const FVB_ATTRIBUTES: u32 := 0xE36
  const VARIABLE_STORE_FORMATTED: bv8 := 0x5A
  const VARIABLE_STORE_HEALTHY: bv8 := 0xFE
  const FV_HEADER_LENGTH: nat := 72
  const HEADERS_LENGTH: nat := 100

  datatype Platform = Platform(
    systemNvDataFvGuid: seq<bv8>,
    authenticatedVariableGuid: seq<bv8>,
    variableGuid: seq<bv8>,
    variableBase: u64, variableSize: u32,
    ftwWorkingBase: u64, ftwWorkingSize: u32,
    ftwSpareBase: u64, ftwSpareSize: u32)
  {
    predicate Valid() {
      |systemNvDataFvGuid| == 16 && |authenticatedVariableGuid| == 16 && |variableGuid| == 16
    }

    /** Sum of three UINT32 values, in UINT32 arithmetic. */
    function FvLength(): u32 { (variableSize + ftwWorkingSize + ftwSpareSize) % TWO_32 }

    /** The three areas follow each other, hold a block each and are block aligned. */
    predicate LayoutOk(blockSize: nat)
      requires blockSize > 0
    {
      && Wrap64(variableBase + variableSize) == ftwWorkingBase
      && Wrap64(ftwWorkingBase + ftwWorkingSize) == ftwSpareBase
      && HasBlock(variableSize, blockSize) && HasBlock(ftwWorkingSize, blockSize) && HasBlock(ftwSpareSize, blockSize)
      && BlockAligned(variableBase, blockSize)
      && BlockAligned(ftwWorkingBase, blockSize)
      && BlockAligned(ftwSpareBase, blockSize)
    }
  }

  predicate HasBlock(size: nat, blockSize: nat)
    requires blockSize > 0
  {
    size / blockSize > 0
  }

  predicate BlockAligned(base: nat, blockSize: nat)
    requires blockSize > 0
  {
    base % blockSize == 0
  }

  function ToByte(x: u8): bv8 { x as bv8 }

  function Le16(x: u16): (s: seq<bv8>)
    ensures |s| == 2
  {
    [ToByte(x % 0x100), ToByte(x / 0x100)]
  }

  function Le32(x: u32): (s: seq<bv8>)
    ensures |s| == 4
  {
    Le16(x % 0x1_0000) + Le16(x / 0x1_0000)
  }

  function Le64(x: u64): (s: seq<bv8>)
    ensures |s| == 8
  {
    Le32(x % TWO_32) + Le32(x / TWO_32)
  }

  function Get16(s: seq<bv8>, at: nat): u16
    requires at + 2 <= |s|
  {
    s[at] as nat + 0x100 * (s[at + 1] as nat)
  }

  function Get32(s: seq<bv8>, at: nat): u32
    requires at + 4 <= |s|
  {
    Get16(s, at) + 0x1_0000 * Get16(s, at + 2)
  }

  function Get64(s: seq<bv8>, at: nat): u64
    requires at + 8 <= |s|
  {
    Get32(s, at) + TWO_32 * Get32(s, at + 4)
  }

  lemma ByteRoundTrip(x: u8)
    ensures ToByte(x) as nat == x
  {
    if x < 0x20 {
      FirstEighth(x);
    } else if x < 0x40 {
      SecondEighth(x);
    } else if x < 0x60 {
      ThirdEighth(x);
    } else if x < 0x80 {
      FourthEighth(x);
    } else if x < 0xA0 {
      FifthEighth(x);
    } else if x < 0xC0 {
      SixthEighth(x);
    } else if x < 0xE0 {
      SeventhEighth(x);
    } else {
      LastEighth(x);
    }
  }

  lemma FirstEighth(x: nat)
    requires x < 0x20
    ensures (x as bv8) as nat == x
  {}

  lemma SecondEighth(x: nat)
    requires 0x20 <= x < 0x40
    ensures (x as bv8) as nat == x
  {}

  lemma ThirdEighth(x: nat)
    requires 0x40 <= x < 0x60
    ensures (x as bv8) as nat == x
  {}

  lemma FourthEighth(x: nat)
    requires 0x60 <= x < 0x80
    ensures (x as bv8) as nat == x
  {}

  lemma FifthEighth(x: nat)
    requires 0x80 <= x < 0xA0
    ensures (x as bv8) as nat == x
  {}

  lemma SixthEighth(x: nat)
    requires 0xA0 <= x < 0xC0
    ensures (x as bv8) as nat == x
  {}

  lemma SeventhEighth(x: nat)
    requires 0xC0 <= x < 0xE0
    ensures (x as bv8) as nat == x
  {}

  lemma LastEighth(x: nat)
    requires 0xE0 <= x < 0x100
    ensures (x as bv8) as nat == x
  {}

  lemma GetLe16(s: seq<bv8>, at: nat, x: u16)
    requires at + 2 <= |s| && s[at..at + 2] == Le16(x)
    ensures Get16(s, at) == x
  {
    hide ToByte;
    assert s[at] == s[at..at + 2][0] && s[at + 1] == s[at..at + 2][1];
    ByteRoundTrip(x % 0x100);
    ByteRoundTrip(x / 0x100);
  }

  lemma GetLe32(s: seq<bv8>, at: nat, x: u32)
    requires at + 4 <= |s| && s[at..at + 4] == Le32(x)
    ensures Get32(s, at) == x
  {
    hide Le16, Get16;
    var w := s[at..at + 4];
    assert s[at..at + 2] == w[..2] && s[at + 2..at + 4] == w[2..];
    GetLe16(s, at, x % 0x1_0000);
    GetLe16(s, at + 2, x / 0x1_0000);
  }

  lemma GetLe64(s: seq<bv8>, at: nat, x: u64)
    requires at + 8 <= |s| && s[at..at + 8] == Le64(x)
    ensures Get64(s, at) == x
  {
    hide Le32, Get32;
    var w := s[at..at + 8];
    assert s[at..at + 4] == w[..4] && s[at + 4..at + 8] == w[4..];
    GetLe32(s, at, x % TWO_32);
    GetLe32(s, at + 4, x / TWO_32);
  }

  /** The little-endian 16-bit words of s, added up. */
  function WordSum(s: seq<bv8>): nat {
    if |s| < 2 then 0 else Get16(s, 0) + WordSum(s[2..])
  }

  /** CalculateSum16. */
  function Sum16(s: seq<bv8>): u16 { WordSum(s) % 0x1_0000 }

  /** CalculateCheckSum16: the value that brings the sum to zero. */
  function CheckSum16(s: seq<bv8>): u16 { (0x1_0000 - Sum16(s)) % 0x1_0000 }

  lemma Get16Prefix(a: seq<bv8>, b: seq<bv8>)
    requires 2 <= |a|
    ensures Get16(a + b, 0) == Get16(a, 0)
  {
    assert (a + b)[0] == a[0] && (a + b)[1] == a[1];
  }

  lemma {:induction false} SumConcat(a: seq<bv8>, b: seq<bv8>)
    requires |a| % 2 == 0
    ensures WordSum(a + b) == WordSum(a) + WordSum(b)
  {
    hide Get16;
    if a == [] {
      assert a + b == b;
    } else {
      assert (a + b)[2..] == a[2..] + b;
      Get16Prefix(a, b);
      SumConcat(a[2..], b);
    }
  }

  lemma SumOfWord(x: u16)
    ensures WordSum(Le16(x)) == x
  {
    GetLe16(Le16(x), 0, x);
    assert Le16(x)[2..] == [];
  }

  lemma CancelModulo(front: nat, back: nat, c: nat)
    requires c == (0x1_0000 - (front + back) % 0x1_0000) % 0x1_0000
    ensures (front + c + back) % 0x1_0000 == 0
  {}

  lemma CheckSumCancels(front: seq<bv8>, back: seq<bv8>, c: u16)
    requires |front| % 2 == 0 && c == CheckSum16(front + Le16(0) + back)
    ensures Sum16(front + Le16(c) + back) == 0
  {
    hide Get16, Le16, WordSum;
    SumConcat(front + Le16(0), back);
    SumConcat(front, Le16(0));
    SumConcat(front + Le16(c), back);
    SumConcat(front, Le16(c));
    SumOfWord(0);
    SumOfWord(c);
    CancelModulo(WordSum(front), WordSum(back), c);
  }

  datatype FvHeader = FvHeader(
    guid: seq<bv8>,
    fvLength: u64,
    signature: u32,
    attributes: u32,
    headerLength: u16,
    checksum: u16,
    revision: bv8,
    numBlocks: u32,
    blockLength: u32)

  function Zeros(n: nat): (s: seq<bv8>)
    ensures |s| == n
  {
    seq(n, _ => 0)
  }

  /** Everything in front of the checksum field: 50 bytes. */
  function HeaderFront(h: FvHeader): (s: seq<bv8>)
    requires |h.guid| == 16
    ensures |s| == 50
  {
    Zeros(16) + h.guid + Le64(h.fvLength) + Le32(h.signature) + Le32(h.attributes) + Le16(h.headerLength)
  }

  /** Everything behind it: extended header offset, reserved byte, revision, block map. */
  function HeaderBack(h: FvHeader): (s: seq<bv8>)
    ensures |s| == 20
  {
    Zeros(3) + [h.revision] + Le32(h.numBlocks) + Le32(h.blockLength) + Zeros(8)
  }

  function EncodeHeader(h: FvHeader): (s: seq<bv8>)
    requires |h.guid| == 16
    ensures |s| == FV_HEADER_LENGTH
  {
    HeaderFront(h) + Le16(h.checksum) + HeaderBack(h)
  }

  function EncodeStore(guid: seq<bv8>, size: u32): (s: seq<bv8>)
    requires |guid| == 16
    ensures |s| == HEADERS_LENGTH - FV_HEADER_LENGTH
  {
    guid + Le32(size) + [VARIABLE_STORE_FORMATTED, VARIABLE_STORE_HEALTHY] + Zeros(6)
  }

  /** The header with the checksum computed while its own field was still zero sums to zero. */
  lemma ChecksumZeroesTheSum(h: FvHeader)
    requires |h.guid| == 16 && h.checksum == 0
    ensures Sum16(EncodeHeader(h.(checksum := CheckSum16(EncodeHeader(h))))) == 0
  {
    CheckSumCancels(HeaderFront(h), HeaderBack(h), CheckSum16(EncodeHeader(h)));
  }

  /** ValidateFvHeader, as a condition on the flash contents. */
  predicate HeaderValid(mem: seq<bv8>, p: Platform)
    requires 0x1_0000 + 28 <= |mem|
  {
    var headerLength := Get16(mem, 48);
    && mem[55] == EFI_FVH_REVISION
    && Get32(mem, 40) == EFI_FVH_SIGNATURE
    && Get64(mem, 32) == p.FvLength()
    && mem[16..32] == p.systemNvDataFvGuid
    && Sum16(mem[..headerLength]) == 0
    && (mem[headerLength..headerLength + 16] == p.variableGuid
        || mem[headerLength..headerLength + 16] == p.authenticatedVariableGuid)
    && Get32(mem, headerLength + 16) == (p.variableSize - headerLength) % TWO_32
  }

  /** The FV header InitializeFvAndVariableStoreHeaders fills in, checksum still zero. */
  function BlankHeader(p: Platform, lastBlock: nat, blockSize: nat): FvHeader {
    FvHeader(p.systemNvDataFvGuid, p.FvLength(), EFI_FVH_SIGNATURE, FVB_ATTRIBUTES,
             FV_HEADER_LENGTH, 0, EFI_FVH_REVISION,
             (lastBlock + 1) % TWO_32, blockSize % TWO_32)
  }

  function HeaderBytes(p: Platform, lastBlock: nat, blockSize: nat): (s: seq<bv8>)
    requires p.Valid()
    ensures |s| == HEADERS_LENGTH
  {
    var h := BlankHeader(p, lastBlock, blockSize);
    EncodeHeader(h.(checksum := CheckSum16(EncodeHeader(h))))
    + EncodeStore(p.authenticatedVariableGuid, (p.variableSize - FV_HEADER_LENGTH) % TWO_32)
  }

  lemma HeaderFields(mem: seq<bv8>, h: FvHeader, rest: seq<bv8>)
    requires |h.guid| == 16 && 72 + |rest| <= |mem|
    requires mem[..72 + |rest|] == EncodeHeader(h) + rest
    ensures mem[..72] == EncodeHeader(h)
    ensures mem[72..72 + |rest|] == rest
    ensures mem[16..32] == h.guid
    ensures mem[32..40] == Le64(h.fvLength)
    ensures mem[40..44] == Le32(h.signature)
    ensures mem[48..50] == Le16(h.headerLength)
    ensures mem[55] == h.revision
  {
    var whole := EncodeHeader(h) + rest;
    var front, back := HeaderFront(h), HeaderBack(h);
    assert |front| == 50 && |whole| == 72 + |rest|;
    assert mem[..72] == whole[..72];
    assert mem[72..72 + |rest|] == whole[72..];
    assert front == mem[..50];
    assert mem[16..32] == front[16..32];
    assert mem[32..40] == front[32..40];
    assert mem[40..44] == front[40..44];
    assert mem[48..50] == front[48..50];
    assert mem[55] == back[3];
  }

  /** Whatever else the flash holds, the freshly written headers pass validation. */
  lemma WrittenHeadersAreValid(mem: seq<bv8>, p: Platform, lastBlock: nat, blockSize: nat)
    requires p.Valid() && 0x1_0000 + 28 <= |mem|
    requires mem[..HEADERS_LENGTH] == HeaderBytes(p, lastBlock, blockSize)
    ensures HeaderValid(mem, p)
  {
    hide Get16, Get32, Get64, Sum16, EncodeHeader, EncodeStore, CheckSum16;
    var blank := BlankHeader(p, lastBlock, blockSize);
    var h := blank.(checksum := CheckSum16(EncodeHeader(blank)));
    var size := (p.variableSize - FV_HEADER_LENGTH) % TWO_32;
    var store := EncodeStore(p.authenticatedVariableGuid, size);
    ChecksumZeroesTheSum(blank);
    HeaderFields(mem, h, store);
    GetLe64(mem, 32, h.fvLength);
    GetLe32(mem, 40, h.signature);
    GetLe16(mem, 48, h.headerLength);
    StoreFields(mem, p.authenticatedVariableGuid, size);
  }

  lemma StoreFields(mem: seq<bv8>, guid: seq<bv8>, size: u32)
    requires |guid| == 16 && 100 <= |mem| && mem[72..100] == EncodeStore(guid, size)
    ensures mem[72..88] == guid
    ensures Get32(mem, 88) == size
  {
    var store := EncodeStore(guid, size);
    assert mem[72..88] == store[..16];
    assert mem[88..92] == store[16..20];
    GetLe32(mem, 88, size);
  }

  /** Fills in the header buffer field by field; the checksum comes last. */
  method BuildHeaders(p: Platform, lastBlock: nat, blockSize: nat) returns (headers: seq<bv8>)
    requires p.Valid()
    ensures headers == HeaderBytes(p, lastBlock, blockSize)
  {
    hide EncodeHeader, EncodeStore, CheckSum16;
    var header := FvHeader(Zeros(16), 0, 0, 0, 0, 0, 0, 0, 0);
    header := header.(guid := p.systemNvDataFvGuid);
    header := header.(fvLength := p.FvLength());
    header := header.(signature := EFI_FVH_SIGNATURE, attributes := FVB_ATTRIBUTES);
    header := header.(headerLength := FV_HEADER_LENGTH, revision := EFI_FVH_REVISION);
    header := header.(numBlocks := (lastBlock + 1) % TWO_32, blockLength := blockSize % TWO_32);
    header := header.(checksum := CheckSum16(EncodeHeader(header)));
    var store := EncodeStore(p.authenticatedVariableGuid, (p.variableSize - FV_HEADER_LENGTH) % TWO_32);
    headers := EncodeHeader(header) + store;
  }

  /** The parameter checks that precede the header construction. */
  method CheckLayout(p: Platform, blockSize: nat) returns (ok: bool)
    requires blockSize > 0
    ensures ok <==> p.LayoutOk(blockSize)
  {
    hide HasBlock, BlockAligned;
    if Wrap64(p.variableBase + p.variableSize) != p.ftwWorkingBase {
      return false;
    }
    if Wrap64(p.ftwWorkingBase + p.ftwWorkingSize) != p.ftwSpareBase {
      return false;
    }
    if !HasBlock(p.variableSize, blockSize) {
      return false;
    }
    if !HasBlock(p.ftwWorkingSize, blockSize) {
      return false;
    }
    if !HasBlock(p.ftwSpareSize, blockSize) {
      return false;
    }
    if !BlockAligned(p.variableBase, blockSize) || !BlockAligned(p.ftwWorkingBase, blockSize)
       || !BlockAligned(p.ftwSpareBase, blockSize) {
      return false;
    }
    return true;
  }

  function BlockCount(total: nat, blockSize: nat): (n: nat)
    requires blockSize > 0
    ensures n <= total
  {
    QuotientBounds(total, blockSize);
    total / blockSize
  }

  /** The volume's first block exists and its base suits buffered programming. */
  predicate HeadersFit(instance: Instance) {
    instance.startLba <= instance.lastBlock && instance.regionBase % BOUNDARY == 0
  }

  /** The whole storage area lies in existing blocks. */
  predicate AreaFits(instance: Instance, p: Platform)
    requires instance.blockSize > 0
  {
    var n := BlockCount(p.FvLength(), instance.blockSize);
    0 < n && instance.startLba + n - 1 <= instance.lastBlock
  }

  lemma HeadersCanBeWritten(instance: Instance)
    requires instance.Valid() && HeadersFit(instance)
    ensures CanWrite(GeometryOf(instance), instance.startLba, 0, HEADERS_LENGTH)
  {
    BlocksInside(instance.startLba, 1, instance.lastBlock, instance.blockSize);
  }

  /** InitializeFvAndVariableStoreHeaders: nothing is written unless the layout
      of the storage areas is consistent. */
  method InitializeHeaders(instance: Instance, p: Platform) returns (status: Status)
    requires instance.Valid() && Idle(instance.chip.st) && p.Valid()
    requires instance.blockSize % BOUNDARY == 0
    requires Span(instance.startLba + 2, instance.blockSize) <= TWO_64
    modifies instance.chip, instance.shadow
    ensures instance.Valid() && Idle(instance.chip.st)
    ensures !p.LayoutOk(instance.blockSize) ==> status == InvalidParameter && instance.chip.st == old(instance.chip.st)
    ensures status == Success ==>
              instance.chip.st.mode == ReadArray
              && instance.chip.st.mem == Overwritten(old(instance.chip.st.mem), Span(instance.startLba, instance.blockSize),
                                                     HeaderBytes(p, instance.lastBlock, instance.blockSize))
    ensures SameOutside(old(instance.chip.st.mem), instance.chip.st.mem,
                        Span(instance.startLba, instance.blockSize), instance.blockSize)
    ensures Writes(old(instance.chip.st), instance.chip.st, p.LayoutOk(instance.blockSize) && HeadersFit(instance), status,
                   TakesInPlace(old(instance.chip.st.mem), old(instance.shadow[..]), Span(instance.startLba, instance.blockSize), 0,
                                HeaderBytes(p, instance.lastBlock, instance.blockSize)),
                   false)
  {
    hide Platform.LayoutOk, Overwritten, HeaderBytes, SameOutside, Span, Writes, ReturnsToArray, TakesInPlace, Skips;
    var blockSize := instance.blockSize;
    ghost var before, g := instance.chip.st, GeometryOf(instance);
    ghost var inPlace := TakesInPlace(before.mem, instance.shadow[..], Span(instance.startLba, blockSize), 0,
                                      HeaderBytes(p, instance.lastBlock, blockSize));
    var layoutOk := CheckLayout(p, blockSize);
    if !layoutOk {
      Untouched(instance.chip.st.mem, Span(instance.startLba, blockSize), blockSize);
      NothingWritten(instance.chip.st, InvalidParameter, inPlace, false);
      return InvalidParameter;
    }
    var headers := BuildHeaders(p, instance.lastBlock, blockSize);
    if HeadersFit(instance) {
      HeadersCanBeWritten(instance);
    }
    hide CanWrite, SafeUncovered;
    ghost var skips := Skips(g, before.mem, instance.startLba, 0, headers);
    if HeadersFit(instance) {
      BlocksInside(instance.startLba, 1, instance.lastBlock, blockSize);
      HeadersAreNotOnes(p, g, before.mem, instance.lastBlock, blockSize, instance.startLba);
    }
    status := FvbWrite(instance, 0, 0, headers);
    WritesRestated(before, instance.chip.st, CanWrite(g, instance.startLba, 0, |headers|),
                   p.LayoutOk(blockSize) && HeadersFit(instance), status, inPlace, inPlace, skips, false);
  }

  /** The headers start with zeroes, so their block is never skipped. */
  lemma HeadersAreNotOnes(p: Platform, g: Geometry, mem: seq<bv8>, lastBlock: nat, blockSize: nat, block: nat)
    requires p.Valid() && 0 < g.blockSize && Span(block, g.blockSize) < |mem|
    ensures !Skips(g, mem, block, 0, HeaderBytes(p, lastBlock, blockSize))
  {
    var headers, at := HeaderBytes(p, lastBlock, blockSize), Span(block, g.blockSize);
    HeadersStartWithZero(p, lastBlock, blockSize);
    hide HeaderBytes, Span;
    assert Overwritten(mem, at + 0, headers)[at] == 0;
  }

  lemma HeadersStartWithZero(p: Platform, lastBlock: nat, blockSize: nat)
    requires p.Valid()
    ensures HeaderBytes(p, lastBlock, blockSize)[0] == 0
  {
    hide CheckSum16, Le16, EncodeStore, HeaderBack, HeaderFront;
    var h := BlankHeader(p, lastBlock, blockSize);
    EncodingStartsWithZero(h.(checksum := CheckSum16(EncodeHeader(h))));
    hide EncodeHeader;
  }

  lemma EncodingStartsWithZero(h: FvHeader)
    requires |h.guid| == 16
    ensures EncodeHeader(h)[0] == 0
  {
    hide Le16, Le32, Le64, HeaderBack;
    assert HeaderFront(h)[0] == Zeros(16)[0];
  }

  /** All that the validation looks at lies below |front|. */
  lemma SameFields(mem: seq<bv8>, front: seq<bv8>)
    requires 56 <= |front| <= |mem| && front == mem[..|front|] && Get16(mem, 48) + 20 <= |front|
    ensures Get16(front, 48) == Get16(mem, 48)
    ensures Get32(front, 40) == Get32(mem, 40)
    ensures Get64(front, 32) == Get64(mem, 32)
    ensures front[55] == mem[55] && front[16..32] == mem[16..32]
    ensures var n := Get16(mem, 48);
            && front[..n] == mem[..n]
            && front[n..n + 16] == mem[n..n + 16]
            && Get32(front, n + 16) == Get32(mem, n + 16)
  {
    hide Get16, Get32;
    assert front[16..32] == mem[16..32];
    SameGet16(mem, front, 48);
    SameGet32(mem, front, 40);
    SameGet32(mem, front, 32);
    SameGet32(mem, front, 36);
    SameStore(mem, front, Get16(mem, 48));
  }

  lemma SameStore(mem: seq<bv8>, front: seq<bv8>, n: nat)
    requires n + 20 <= |front| <= |mem| && front == mem[..|front|]
    ensures front[..n] == mem[..n] && front[n..n + 16] == mem[n..n + 16] && Get32(front, n + 16) == Get32(mem, n + 16)
  {
    SameGet32(mem, front, n + 16);
    hide Get32;
  }

  lemma SameGet16(mem: seq<bv8>, front: seq<bv8>, at: nat)
    requires |front| <= |mem| && front == mem[..|front|] && at + 2 <= |front|
    ensures Get16(front, at) == Get16(mem, at)
  {
    assert front[at] == mem[at] && front[at + 1] == mem[at + 1];
  }

  lemma SameGet32(mem: seq<bv8>, front: seq<bv8>, at: nat)
    requires |front| <= |mem| && front == mem[..|front|] && at + 4 <= |front|
    ensures Get32(front, at) == Get32(mem, at)
  {
    SameGet16(mem, front, at);
    SameGet16(mem, front, at + 2);
    hide Get16;
  }

  lemma FrontOfOverwritten(mem: seq<bv8>, data: seq<bv8>)
    requires |data| <= |mem|
    ensures Overwritten(mem, 0, data)[..|data|] == data
  {}

  /** Validation looks at the first 64 KB and a little. */
  const VALIDATED_LENGTH: nat := 0x1_0000 + 28

  /** The outcome of the validation depends on the fixed fields, on the header as long as
      it says it is, and on the 20 bytes behind it. */
  lemma ValidityIsLocal(a: seq<bv8>, b: seq<bv8>, p: Platform, n: nat)
    requires VALIDATED_LENGTH <= |a| && VALIDATED_LENGTH <= |b| && n <= |a| && n <= |b| && a[..n] == b[..n]
    requires 56 <= n && Get16(a, 48) + 20 <= n
    ensures HeaderValid(a, p) <==> HeaderValid(b, p)
  {
    hide Get16, Get32, Get64, Sum16;
    SameGet16(a, a[..n], 48);
    SameGet16(b, a[..n], 48);
    SameFields(a, a[..n]);
    SameFields(b, a[..n]);
  }

  /** ValidateFvHeader: reads the mapped flash, so the chip has to be in
      read-array mode. */
  method ValidateFvHeader(instance: Instance, p: Platform) returns (status: Status)
    requires instance.Valid() && 0x1_0000 + 28 <= instance.size
    requires instance.chip.st.mode == ReadArray
    ensures status == (if HeaderValid(instance.chip.st.mem, p) then Success else NotFound)
  {
    hide HeaderValid, Get16;
    var mem := instance.chip.CopyFrom(instance.regionBase, 0x1_0000 + 28);
    ghost var all := instance.chip.st.mem;
    assert mem == all[..|mem|] == mem[..|mem|];
    ValidityIsLocal(all, mem, p, |mem|);
    status := CheckHeader(mem, p);
  }

  /** The checks on what was read. */
  method CheckHeader(mem: seq<bv8>, p: Platform) returns (status: Status)
    requires VALIDATED_LENGTH <= |mem|
    ensures status == (if HeaderValid(mem, p) then Success else NotFound)
  {
    hide Get16, Get32, Get64, Sum16;
    if mem[55] != EFI_FVH_REVISION || Get32(mem, 40) != EFI_FVH_SIGNATURE || Get64(mem, 32) != p.FvLength() {
      return NotFound;
    }
    if mem[16..32] != p.systemNvDataFvGuid {
      return NotFound;
    }
    var headerLength: nat := Get16(mem, 48);
    if Sum16(mem[..headerLength]) != 0 {
      return NotFound;
    }
    var guid := mem[headerLength..headerLength + 16];
    if guid != p.variableGuid && guid != p.authenticatedVariableGuid {
      return NotFound;
    }
    if Get32(mem, headerLength + 16) != (p.variableSize - headerLength) % TWO_32 {
      return NotFound;
    }
    return Success;
  }

  /** The end of what the validation looks at. */
  function ValidatedEnd(mem: seq<bv8>): (n: nat)
    requires VALIDATED_LENGTH <= |mem|
    ensures 56 <= n <= VALIDATED_LENGTH
  {
    Max(56, Get16(mem, 48) + 20)
  }

  lemma SameBelowSameValidity(a: seq<bv8>, b: seq<bv8>, p: Platform, n: nat)
    requires VALIDATED_LENGTH <= |a| && SameBelow(a, b, n) && ValidatedEnd(a) <= n
    ensures HeaderValid(a, p) <==> HeaderValid(b, p)
  {
    hide Get16, HeaderValid;
    var end := ValidatedEnd(a);
    assert a[..end] == b[..end];
    ValidityIsLocal(a, b, p, end);
  }

  predicate SameBelow(a: seq<bv8>, b: seq<bv8>, n: nat) {
    |a| == |b| && forall i :: 0 <= i < |a| && i < n ==> a[i] == b[i]
  }

  /** The storage areas as an erase request. */
  function Area(instance: Instance, p: Platform): seq<LbaRange>
    requires instance.blockSize > 0
  {
    [LbaRange(0, BlockCount(p.FvLength(), instance.blockSize))]
  }

  /** The flash after the areas have been erased and the headers written. */
  ghost function Formatted(instance: Instance, p: Platform, mem: seq<bv8>): seq<bv8>
    requires instance.blockSize > 0 && p.Valid()
  {
    Overwritten(ListErased(mem, Area(instance, p), instance.startLba, instance.blockSize),
                Span(instance.startLba, instance.blockSize), HeaderBytes(p, instance.lastBlock, instance.blockSize))
  }

  /** Neither the erase nor the write reaches below the first block of the volume. */
  lemma NothingBelow(mem: seq<bv8>, erased: seq<bv8>, written: seq<bv8>, n: nat, startLba: nat, blockSize: nat)
    requires SameUnlisted(mem, erased, [LbaRange(0, n)], startLba, blockSize)
    requires SameOutside(erased, written, Span(startLba, blockSize), blockSize) || written == erased
    ensures SameBelow(mem, written, Span(startLba, blockSize))
  {
    hide Span;
    var list := [LbaRange(0, n)];
    forall i | 0 <= i < |mem| && i < Span(startLba, blockSize) ensures mem[i] == written[i] {
      assert !InRange(list[0], startLba, blockSize, i);
      assert !Listed(list, startLba, blockSize, i);
    }
  }

  /** Erases the storage areas and installs default headers. */
  method InstallHeaders(instance: Instance, p: Platform) returns (status: Status)
    requires instance.Valid() && p.Valid() && VALIDATED_LENGTH <= instance.size
    requires Idle(instance.chip.st)
    requires instance.blockSize % BOUNDARY == 0
    requires Span(instance.startLba + 2, instance.blockSize) <= TWO_64 && instance.startLba + TWO_32 <= TWO_64
    modifies instance.chip, instance.shadow
    ensures instance.Valid() && Idle(instance.chip.st)
    ensures status == Success ==>
              instance.chip.st.mode == ReadArray
              && instance.chip.st.mem == Formatted(instance, p, old(instance.chip.st.mem))
    ensures SameBelow(old(instance.chip.st.mem), instance.chip.st.mem, Span(instance.startLba, instance.blockSize))
    ensures Rewrites(old(instance.chip.st), instance.chip.st,
                     p.LayoutOk(instance.blockSize) && AreaFits(instance, p) && HeadersFit(instance), status, false)
  {
    hide Overwritten, HeaderBytes, HeaderValid, ListErased, SameUnlisted, SameOutside, SameBelow, Platform.LayoutOk,
      BlockCount, Erases, Writes, Rewrites, HeadersFit, TakesInPlace, Skips;
    ghost var start := instance.chip.st;
    var fvbNumLba := BlockCount(p.FvLength(), instance.blockSize);
    ghost var listed := ListValid(Area(instance, p), instance.startLba, instance.lastBlock);
    assert AreaFits(instance, p) ==> listed;
    hide ListValid, AreaFits;
    status := FvbEraseBlocks(instance, [LbaRange(0, fvbNumLba)]);
    ghost var erased := instance.chip.st;
    ghost var able := p.LayoutOk(instance.blockSize) && HeadersFit(instance);
    if status.IsError() {
      NothingBelow(start.mem, erased.mem, erased.mem, fvbNumLba, instance.startLba, instance.blockSize);
      FailedErase(start, erased, listed, AreaFits(instance, p) && able, status, false);
      return;
    }
    ghost var inPlace := TakesInPlace(erased.mem, instance.shadow[..], Span(instance.startLba, instance.blockSize), 0,
                                      HeaderBytes(p, instance.lastBlock, instance.blockSize));
    status := InitializeHeaders(instance, p);
    NothingBelow(start.mem, erased.mem, instance.chip.st.mem, fvbNumLba, instance.startLba, instance.blockSize);
    EraseThenWrite(start, erased, instance.chip.st, listed, able, status, inPlace, false);
    RewritesRestated(start, instance.chip.st, listed && able, AreaFits(instance, p) && able, status, status, false, false);
  }

  /** A volume at the start of the region validates once it is formatted. */
  lemma FormattedIsValid(instance: Instance, p: Platform, mem: seq<bv8>)
    requires instance.blockSize > 0 && p.Valid() && VALIDATED_LENGTH <= |mem| && instance.startLba == 0
    ensures HeaderValid(Formatted(instance, p, mem), p)
  {
    hide Overwritten, HeaderBytes, HeaderValid, ListErased;
    FrontOfOverwritten(ListErased(mem, Area(instance, p), instance.startLba, instance.blockSize),
                       HeaderBytes(p, instance.lastBlock, instance.blockSize));
    WrittenHeadersAreValid(Formatted(instance, p, mem), p, instance.lastBlock, instance.blockSize);
  }

  /** NorFlashFvbInitialize: valid headers are kept; otherwise success means that the
      areas are blank but for the headers.  In a volume at the start of the region they
      then validate.  Validation always looks at the start of the region, though: behind
      the bytes it looks at, initializing a volume never changes its outcome. */
  method FvbInitialize(instance: Instance, p: Platform, bootWithDefaultSettings: bool)
    returns (status: Status)
    requires instance.Valid() && p.Valid() && VALIDATED_LENGTH <= instance.size
    requires Idle(instance.chip.st) && instance.chip.st.mode == ReadArray
    requires instance.blockSize % BOUNDARY == 0
    requires Span(instance.startLba + 2, instance.blockSize) <= TWO_64 && instance.startLba + TWO_32 <= TWO_64
    modifies instance.chip, instance.shadow
    ensures instance.Valid() && Idle(instance.chip.st)
    ensures !bootWithDefaultSettings && HeaderValid(old(instance.chip.st.mem), p) ==>
              status == Success && instance.chip.st == old(instance.chip.st)
    ensures bootWithDefaultSettings || !HeaderValid(old(instance.chip.st.mem), p) ==>
              && (status == Success ==>
                    instance.chip.st.mode == ReadArray
                    && instance.chip.st.mem == Formatted(instance, p, old(instance.chip.st.mem)))
              && Rewrites(old(instance.chip.st), instance.chip.st,
                          p.LayoutOk(instance.blockSize) && AreaFits(instance, p) && HeadersFit(instance), status, false)
    ensures status == Success && instance.startLba == 0 ==>
              instance.chip.st.mode == ReadArray && HeaderValid(instance.chip.st.mem, p)
    ensures ValidatedEnd(old(instance.chip.st.mem)) <= Span(instance.startLba, instance.blockSize) ==>
              (HeaderValid(instance.chip.st.mem, p) <==> HeaderValid(old(instance.chip.st.mem), p))
  {
    hide HeaderValid, AreaFits, HeadersFit, Platform.LayoutOk, Formatted, HeaderBytes, Rewrites;
    ghost var before := instance.chip.st.mem;
    if bootWithDefaultSettings {
      status := InvalidParameter;
    } else {
      status := ValidateFvHeader(instance, p);
    }
    if status.IsError() {
      status := InstallHeaders(instance, p);
      if instance.startLba == 0 {
        FormattedIsValid(instance, p, before);
      }
      if ValidatedEnd(before) <= Span(instance.startLba, instance.blockSize) {
        SameBelowSameValidity(before, instance.chip.st.mem, p, Span(instance.startLba, instance.blockSize));
      }
    }
  }
}
