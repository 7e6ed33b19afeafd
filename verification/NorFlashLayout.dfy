/**
  The layout of the variable volume in flash: which bytes the headers consist of, what a
  flash that passes the boot-time validation looks like, and what formatting does to
  which address.
 */
module NorFlashLayout {
  import opened Uefi
  import opened Arithmetic
  import opened NorFlashChip
  import opened NorFlashFvb
  import opened NorFlash
  import opened NorFlashHeader
  import opened NorFlashRegister
  import opened NorFlashServices

  /** The three storage areas end below 2^64 and are less than 4GB together. */
  predicate AreasFit(p: Platform) {
    p.ftwSpareBase + p.ftwSpareSize < TWO_64 && p.variableBase <= p.ftwSpareBase
    && p.ftwSpareBase + p.ftwSpareSize - p.variableBase < TWO_32
  }

  lemma SameModulo(x: int, y: int, k: int)
    requires x == y + k * TWO_64
    ensures x % TWO_32 == y % TWO_32
  {
    var d := x / TWO_32 - y / TWO_32 - k * TWO_32;
    assert TWO_32 * d == y % TWO_32 - x % TWO_32;
    assert d == 0;
  }

  lemma WrapIsMultiple(x: nat)
    ensures x == Wrap64(x) + (x / TWO_64) * TWO_64
  {}

  /** The volume's length is that of the addresses from the variable area up to the end of
      the spare area. */
  lemma LengthIsSpan(p: Platform, blockSize: nat)
    requires blockSize > 0 && p.LayoutOk(blockSize)
    ensures p.FvLength() == (p.ftwSpareBase + p.ftwSpareSize - p.variableBase) % TWO_32
    ensures AreasFit(p) ==> p.FvLength() == p.ftwSpareBase + p.ftwSpareSize - p.variableBase
  {
    hide Wrap64, HasBlock, BlockAligned;
    var x, y := p.variableBase + p.variableSize, p.ftwWorkingBase + p.ftwWorkingSize;
    WrapIsMultiple(x);
    WrapIsMultiple(y);
    SameModulo(p.variableSize + p.ftwWorkingSize + p.ftwSpareSize, p.ftwSpareBase + p.ftwSpareSize - p.variableBase,
               x / TWO_64 + y / TWO_64);
  }

  /** Which layouts are accepted. */
  lemma LayoutMeans(p: Platform, blockSize: nat)
    requires blockSize > 0
    ensures p.LayoutOk(blockSize) <==>
            && (p.variableBase + p.variableSize) % TWO_64 == p.ftwWorkingBase
            && (p.ftwWorkingBase + p.ftwWorkingSize) % TWO_64 == p.ftwSpareBase
            && p.variableSize >= blockSize && p.ftwWorkingSize >= blockSize && p.ftwSpareSize >= blockSize
            && p.variableBase % blockSize == 0 && p.ftwWorkingBase % blockSize == 0 && p.ftwSpareBase % blockSize == 0
  {
    HasBlockMeans(p.variableSize, blockSize);
    HasBlockMeans(p.ftwWorkingSize, blockSize);
    HasBlockMeans(p.ftwSpareSize, blockSize);
    hide HasBlock;
  }

  lemma HasBlockMeans(size: nat, blockSize: nat)
    requires blockSize > 0
    ensures HasBlock(size, blockSize) <==> size >= blockSize
  {
    QuotientTells(size, blockSize, 1);
  }

  /** The bytes the headers consist of: those of an EFI_FIRMWARE_VOLUME_HEADER with one
      block map entry and of a VARIABLE_STORE_HEADER. */
  lemma HeaderLayout(p: Platform, lastBlock: nat, blockSize: nat)
    requires p.Valid()
    ensures var h := HeaderBytes(p, lastBlock, blockSize);
            && |h| == 100
            && (forall i :: 0 <= i < 16 ==> h[i] == 0) && h[16..32] == p.systemNvDataFvGuid
            && Get64(h, 32) == p.FvLength()
            && h[40..44] == [0x5F, 0x46, 0x56, 0x48] && h[44..48] == [0x36, 0x0E, 0, 0] && h[48..50] == [72, 0]
            && h[52..55] == [0, 0, 0] && h[55] == 2
            && Get32(h, 56) == (lastBlock + 1) % TWO_32 && Get32(h, 60) == blockSize % TWO_32
            && (forall i :: 64 <= i < 72 ==> h[i] == 0)
            && h[72..88] == p.authenticatedVariableGuid && Get32(h, 88) == (p.variableSize - 72) % TWO_32
            && h[92] == 0x5A && h[93] == 0xFE && forall i :: 94 <= i < 100 ==> h[i] == 0
  {
    hide CheckSum16, Get16, Get32, Get64, Le16, Le32, Le64, HeaderFront, HeaderBack, EncodeStore;
    var blank := BlankHeader(p, lastBlock, blockSize);
    var c := CheckSum16(EncodeHeader(blank));
    var front, back := HeaderFront(blank), HeaderBack(blank);
    var store := EncodeStore(p.authenticatedVariableGuid, (p.variableSize - 72) % TWO_32);
    var h := HeaderBytes(p, lastBlock, blockSize);
    SameFront(blank, c);
    assert h == front + Le16(c) + back + store;
    hide HeaderBytes, EncodeHeader;
    FrontLayout(blank, h);
    BackLayout(blank, h);
    StoreLayout(p.authenticatedVariableGuid, (p.variableSize - 72) % TWO_32, h);
  }

  lemma SameFront(h: FvHeader, c: u16)
    requires |h.guid| == 16
    ensures HeaderFront(h.(checksum := c)) == HeaderFront(h) && HeaderBack(h.(checksum := c)) == HeaderBack(h)
  {}

  lemma FrontLayout(b: FvHeader, h: seq<bv8>)
    requires |b.guid| == 16 && 50 <= |h| && h[..50] == HeaderFront(b)
    requires b.signature == EFI_FVH_SIGNATURE && b.attributes == FVB_ATTRIBUTES && b.headerLength == FV_HEADER_LENGTH
    ensures (forall i :: 0 <= i < 16 ==> h[i] == 0) && h[16..32] == b.guid && Get64(h, 32) == b.fvLength
    ensures h[40..44] == [0x5F, 0x46, 0x56, 0x48] && h[44..48] == [0x36, 0x0E, 0, 0] && h[48..50] == [72, 0]
  {
    hide Get16, Get32, Get64, Le16, Le32, Le64;
    FrontParts(b);
    hide HeaderFront;
    assert forall i :: 0 <= i < 50 ==> h[i] == h[..50][i];
    assert h[16..32] == b.guid;
    assert h[32..40] == Le64(b.fvLength);
    assert h[40..44] == Le32(b.signature);
    assert h[44..48] == Le32(b.attributes);
    assert h[48..50] == Le16(b.headerLength);
    GetLe64(h, 32, b.fvLength);
    Literals();
  }

  lemma FrontParts(b: FvHeader)
    requires |b.guid| == 16
    ensures var f, l, s, a, n := HeaderFront(b), Le64(b.fvLength), Le32(b.signature), Le32(b.attributes), Le16(b.headerLength);
            && (forall i :: 0 <= i < 16 ==> f[i] == 0)
            && (forall i :: 16 <= i < 32 ==> f[i] == b.guid[i - 16])
            && (forall i :: 32 <= i < 40 ==> f[i] == l[i - 32])
            && (forall i :: 40 <= i < 44 ==> f[i] == s[i - 40])
            && (forall i :: 44 <= i < 48 ==> f[i] == a[i - 44])
            && forall i :: 48 <= i < 50 ==> f[i] == n[i - 48]
  {
    hide Le16, Le32, Le64;
  }

  lemma LiteralBytes()
    ensures ToByte(0) == 0 && ToByte(0x5F) == 0x5F && ToByte(0x46) == 0x46 && ToByte(0x56) == 0x56
    ensures ToByte(0x48) == 0x48 && ToByte(0x36) == 0x36 && ToByte(0x0E) == 0x0E && ToByte(72) == 72
  {}

  lemma LiteralWord(x: u16, low: u8, high: u8)
    requires x == 0x100 * high + low
    ensures Le16(x) == [ToByte(low), ToByte(high)]
  {
    hide ToByte;
  }

  lemma LiteralLong(x: u32, low: u16, high: u16)
    requires x == 0x1_0000 * high + low
    ensures Le32(x) == Le16(low) + Le16(high)
  {
    hide Le16;
  }

  /** "_FVH", the attributes and the header length, byte by byte. */
  lemma Literals()
    ensures Le32(EFI_FVH_SIGNATURE) == [0x5F, 0x46, 0x56, 0x48]
    ensures Le32(FVB_ATTRIBUTES) == [0x36, 0x0E, 0, 0]
    ensures Le16(FV_HEADER_LENGTH) == [72, 0]
  {
    hide ToByte, Le16, Le32;
    LiteralBytes();
    LiteralWord(0x465F, 0x5F, 0x46);
    LiteralWord(0x4856, 0x56, 0x48);
    LiteralWord(0xE36, 0x36, 0x0E);
    LiteralWord(0, 0, 0);
    LiteralWord(72, 72, 0);
    LiteralLong(EFI_FVH_SIGNATURE, 0x465F, 0x4856);
    LiteralLong(FVB_ATTRIBUTES, 0xE36, 0);
  }

  lemma BackLayout(b: FvHeader, h: seq<bv8>)
    requires 72 <= |h| && h[52..72] == HeaderBack(b) && b.revision == EFI_FVH_REVISION
    ensures h[52..55] == [0, 0, 0] && h[55] == 2
    ensures Get32(h, 56) == b.numBlocks && Get32(h, 60) == b.blockLength
    ensures forall i :: 64 <= i < 72 ==> h[i] == 0
  {
    hide Get32, Le32;
    BackParts(b);
    var f := HeaderBack(b);
    hide HeaderBack;
    assert forall i :: 52 <= i < 72 ==> h[i] == h[52..72][i - 52];
    assert h[56..60] == Le32(b.numBlocks);
    assert h[60..64] == Le32(b.blockLength);
    GetLe32(h, 56, b.numBlocks);
    GetLe32(h, 60, b.blockLength);
  }

  lemma BackParts(b: FvHeader)
    ensures var f, n, l := HeaderBack(b), Le32(b.numBlocks), Le32(b.blockLength);
            && f[0] == f[1] == f[2] == 0 && f[3] == b.revision
            && (forall i :: 4 <= i < 8 ==> f[i] == n[i - 4])
            && (forall i :: 8 <= i < 12 ==> f[i] == l[i - 8])
            && forall i :: 12 <= i < 20 ==> f[i] == 0
  {
    hide Le32;
  }

  lemma StoreLayout(guid: seq<bv8>, size: u32, h: seq<bv8>)
    requires |guid| == 16 && 100 <= |h| && h[72..100] == EncodeStore(guid, size)
    ensures h[72..88] == guid && Get32(h, 88) == size
    ensures h[92] == 0x5A && h[93] == 0xFE && forall i :: 94 <= i < 100 ==> h[i] == 0
  {
    hide Get32, Le32;
    StoreParts(guid, size);
    hide EncodeStore;
    assert forall i :: 72 <= i < 100 ==> h[i] == h[72..100][i - 72];
    assert h[72..88] == guid;
    assert h[88..92] == Le32(size);
    GetLe32(h, 88, size);
  }

  lemma StoreParts(guid: seq<bv8>, size: u32)
    requires |guid| == 16
    ensures var f, n := EncodeStore(guid, size), Le32(size);
            && (forall i :: 0 <= i < 16 ==> f[i] == guid[i])
            && (forall i :: 16 <= i < 20 ==> f[i] == n[i - 16])
            && f[20] == 0x5A && f[21] == 0xFE && forall i :: 22 <= i < 28 ==> f[i] == 0
  {
    hide Le32;
  }

  /** Four bytes spell a 32-bit number in one way only. */
  lemma SignatureBytes(mem: seq<bv8>, at: nat)
    requires at + 4 <= |mem|
    ensures Get32(mem, at) == EFI_FVH_SIGNATURE <==>
            && mem[at] as nat == 0x5F && mem[at + 1] as nat == 0x46
            && mem[at + 2] as nat == 0x56 && mem[at + 3] as nat == 0x48
  {
    hide Get16;
    WordOfBytes(mem, at, 0x5F, 0x46);
    WordOfBytes(mem, at + 2, 0x56, 0x48);
    TwoWords(Get16(mem, at), Get16(mem, at + 2));
  }

  lemma TwoWords(low: u16, high: u16)
    ensures low + 0x1_0000 * high == EFI_FVH_SIGNATURE <==> low == 0x465F && high == 0x4856
  {}

  lemma WordOfBytes(mem: seq<bv8>, at: nat, low: u8, high: u8)
    requires at + 2 <= |mem|
    ensures Get16(mem, at) == low + 0x100 * high <==> mem[at] as nat == low && mem[at + 1] as nat == high
  {
    TwoDigits(mem[at] as nat, mem[at + 1] as nat, low, high);
  }

  lemma TwoDigits(a: u8, b: u8, low: u8, high: u8)
    ensures a + 0x100 * b == low + 0x100 * high <==> a == low && b == high
  {}

  /** What a flash that passes the validation shows: the revision, "_FVH", the length of the
      areas, the GUIDs, the size of the variable store behind the header, and a header whose
      16-bit words add up to zero. */
  lemma ValidMeans(mem: seq<bv8>, p: Platform, blockSize: nat)
    requires VALIDATED_LENGTH <= |mem| && blockSize > 0 && p.LayoutOk(blockSize)
    ensures var n := Get16(mem, 48);
            HeaderValid(mem, p) <==>
              && mem[55] == 2 && mem[16..32] == p.systemNvDataFvGuid
              && mem[40] as nat == 0x5F && mem[41] as nat == 0x46 && mem[42] as nat == 0x56 && mem[43] as nat == 0x48
              && Get64(mem, 32) == (p.ftwSpareBase + p.ftwSpareSize - p.variableBase) % TWO_32
              && (mem[n..n + 16] == p.variableGuid || mem[n..n + 16] == p.authenticatedVariableGuid)
              && Get32(mem, n + 16) == (p.variableSize - n) % TWO_32
              && WordSum(mem[..n]) % 0x1_0000 == 0
  {
    SignatureBytes(mem, 40);
    LengthIsSpan(p, blockSize);
    hide Get16, Get32, Get64, WordSum, Platform.LayoutOk, Platform.FvLength;
  }

  lemma {:induction false} SumOfChanged(a: seq<bv8>, b: seq<bv8>, i: nat)
    requires |a| == |b| && i < |a| - |a| % 2 && forall k :: 0 <= k < |a| && k != i ==> a[k] == b[k]
    ensures WordSum(b) - WordSum(a) == (b[i] as int - a[i] as int) * (if i % 2 == 0 then 1 else 0x100)
  {
    if i < 2 {
      assert a[2..] == b[2..];
    } else {
      SumOfChanged(a[2..], b[2..], i - 2);
    }
  }

  lemma DifferentBytes(a: bv8, b: bv8)
    requires a != b
    ensures a as int != b as int && -0x100 < a as int - b as int < 0x100
  {
    assert (a as int) as bv8 == a && (b as int) as bv8 == b;
  }

  lemma SmallDifference(x: nat, y: nat, d: int, low: bool)
    requires x % 0x1_0000 == 0 && y == x + d * (if low then 1 else 0x100) && d != 0 && -0x100 < d < 0x100
    ensures y % 0x1_0000 != 0
  {}

  lemma SameWord(a: seq<bv8>, b: seq<bv8>, at: nat)
    requires at + 2 <= |a| == |b| && a[at] == b[at] && a[at + 1] == b[at + 1]
    ensures Get16(a, at) == Get16(b, at)
  {}

  lemma ValidSumsToZero(mem: seq<bv8>, p: Platform)
    requires VALIDATED_LENGTH <= |mem| && HeaderValid(mem, p)
    ensures WordSum(mem[..Get16(mem, 48)]) % 0x1_0000 == 0
  {
    hide Get16, Get32, Get64, WordSum;
  }

  lemma ChangedSum(a: seq<bv8>, b: seq<bv8>, i: nat)
    requires |a| == |b| && i < |a| - |a| % 2 && b[i] != a[i] && forall k :: 0 <= k < |a| && k != i ==> b[k] == a[k]
    requires WordSum(a) % 0x1_0000 == 0
    ensures WordSum(b) % 0x1_0000 != 0
  {
    hide WordSum;
    SumOfChanged(a, b, i);
    DifferentBytes(b[i], a[i]);
    SmallDifference(WordSum(a), WordSum(b), b[i] as int - a[i] as int, i % 2 == 0);
  }

  /** The checksum sees every damaged byte: a valid header is not valid any more once any
      one byte of it has changed, its length apart. */
  lemma DamageIsSeen(mem: seq<bv8>, damaged: seq<bv8>, p: Platform, i: nat)
    requires VALIDATED_LENGTH <= |mem| == |damaged| && HeaderValid(mem, p)
    requires i < Get16(mem, 48) - Get16(mem, 48) % 2 && i != 48 && i != 49 && damaged[i] != mem[i]
    requires forall k :: 0 <= k < |mem| && k != i ==> damaged[k] == mem[k]
    ensures !HeaderValid(damaged, p)
  {
    hide Get16, WordSum, HeaderValid;
    var n := Get16(mem, 48);
    SameWord(mem, damaged, 48);
    ValidSumsToZero(mem, p);
    ChangedSum(mem[..n], damaged[..n], i);
    if HeaderValid(damaged, p) {
      ValidSumsToZero(damaged, p);
    }
  }

  lemma OneRangeListed(n: nat, startLba: nat, blockSize: nat, i: nat)
    ensures Listed([LbaRange(0, n)], startLba, blockSize, i) <==>
            Span(startLba, blockSize) <= i < Span(startLba, blockSize) + Span(n, blockSize)
  {
    hide InRange;
    OneRange(n, startLba, blockSize, i);
    assert [LbaRange(0, n)][0] == LbaRange(0, n);
  }

  lemma OneRange(n: nat, startLba: nat, blockSize: nat, i: nat)
    ensures InRange(LbaRange(0, n), startLba, blockSize, i) <==>
            Span(startLba, blockSize) <= i < Span(startLba, blockSize) + Span(n, blockSize)
  {
    hide Span;
    assert startLba + LbaRange(0, n).start == startLba;
  }

  /** The part of x + y that whole blocks cover, x being made of such. */
  lemma WholeBlocks(x: nat, y: nat, blockSize: nat)
    requires blockSize > 0 && x % blockSize == 0
    ensures Span((x + y) / blockSize, blockSize) == x + y - y % blockSize
  {
    var q, k := x / blockSize, y / blockSize;
    QuotientBounds(x, blockSize);
    QuotientBounds(y, blockSize);
    WholeBlocksFit(blockSize, q, k, y % blockSize);
  }

  lemma WholeBlocksFit(blockSize: nat, q: nat, k: nat, rest: nat)
    requires rest < blockSize
    ensures Span((blockSize * q + (blockSize * k + rest)) / blockSize, blockSize) == blockSize * q + blockSize * k
  {
    assert blockSize * q + (blockSize * k + rest) == blockSize * (q + k) + rest;
    DivisionIsUnique(blockSize * q + (blockSize * k + rest), blockSize, q + k, rest);
    SpanIsProduct(q + k, blockSize);
  }

  lemma DistanceOfAligned(x: nat, y: nat, blockSize: nat)
    requires blockSize > 0 && x % blockSize == 0 && y % blockSize == 0 && x <= y
    ensures (y - x) % blockSize == 0
  {
    var p, q := x / blockSize, y / blockSize;
    QuotientTells(y, blockSize, p);
    assert y - x == (q - p) * blockSize;
    MultipleModulo(q - p, blockSize);
  }

  /** The areas, in whole blocks, by address. */
  lemma AreaSpan(p: Platform, blockSize: nat)
    requires blockSize > 0 && p.LayoutOk(blockSize) && AreasFit(p)
    ensures Span(BlockCount(p.FvLength(), blockSize), blockSize)
            == p.ftwSpareBase + p.ftwSpareSize - p.ftwSpareSize % blockSize - p.variableBase
  {
    LengthIsSpan(p, blockSize);
    assert p.variableBase % blockSize == 0 && p.ftwSpareBase % blockSize == 0 by { hide Wrap64, HasBlock; }
    hide Platform.LayoutOk, Platform.FvLength;
    DistanceOfAligned(p.variableBase, p.ftwSpareBase, blockSize);
    WholeBlocks(p.ftwSpareBase - p.variableBase, p.ftwSpareSize, blockSize);
  }

  /** Formatting succeeds on chips that show no error, have no fault and grant their buffer,
      if the areas are laid out as they should be and the flash holds them. */
  lemma FormatSucceeds(instance: Instance, p: Platform, s: ChipState, s': ChipState, status: Status)
    requires instance.blockSize > 0 && p.LayoutOk(instance.blockSize) && AreasFit(p)
    requires Rewrites(s, s', p.LayoutOk(instance.blockSize) && AreaFits(instance, p) && HeadersFit(instance), status, false)
    requires NoErrorShown(s) && s'.faults == s.faults && AlwaysGranted(s, s')
    requires instance.regionBase % 128 == 0
    requires Span(instance.startLba, instance.blockSize) + (p.ftwSpareBase + p.ftwSpareSize - p.variableBase)
             <= Span(instance.lastBlock + 1, instance.blockSize)
    ensures status == Success
  {
    var n := BlockCount(p.FvLength(), instance.blockSize);
    AreaSpan(p, instance.blockSize);
    LengthIsSpan(p, instance.blockSize);
    LayoutMeans(p, instance.blockSize);
    RegisterBits(s);
    GrantedIsNotRanOut(s, s');
    SpanAdds(instance.startLba, n, instance.blockSize);
    if instance.startLba + n > instance.lastBlock + 1 {
      SpanMonotonic(instance.lastBlock + 2, instance.startLba + n, instance.blockSize);
      NextSpan(instance.lastBlock + 1, instance.blockSize);
    }
    QuotientTells(p.FvLength(), instance.blockSize, 1);
    hide RegisterOf, RanOut, AlwaysGranted, NoErrorShown, Platform.FvLength, Span;
  }

  /** What formatting does to which address: the headers are at the base of the variable
      area, everything behind them is blank up to the end of the spare area, as far as that
      consists of whole blocks, and nothing else has changed. */
  lemma FormattedAddress(instance: Instance, p: Platform, mem: seq<bv8>, i: nat)
    requires p.Valid() && HEADERS_LENGTH <= instance.blockSize && p.LayoutOk(instance.blockSize) && AreasFit(p)
    requires instance.regionBase + Span(instance.startLba, instance.blockSize) == p.variableBase && i < |mem|
    ensures var a, blockSize := instance.regionBase + i, instance.blockSize;
            var h, base := HeaderBytes(p, instance.lastBlock, blockSize), p.variableBase;
            Formatted(instance, p, mem)[i] ==
              if base <= a < base + 100 then h[a - base]
              else if base <= a < p.ftwSpareBase + p.ftwSpareSize - p.ftwSpareSize % blockSize then 0xFF
              else mem[i]
  {
    AreaSpan(p, instance.blockSize);
    OneRangeListed(BlockCount(p.FvLength(), instance.blockSize), instance.startLba, instance.blockSize, i);
    hide Span, BlockCount, Listed, HeaderBytes, Platform.LayoutOk, Platform.FvLength;
  }
}
