/**
  Vocabulary shared by every driver model: fixed-width unsigned integers,
  status codes, wrap-around arithmetic and power-of-two alignment.
 */
module Uefi {

  const MAX_UINT16: nat := 0xFFFF
  const MAX_UINT64: nat := 0xFFFF_FFFF_FFFF_FFFF
  const TWO_32: nat := 0x1_0000_0000
  const TWO_64: nat := 0x1_0000_0000_0000_0000
  const TWO_128: nat := 0x1_0000_0000_0000_0000_0000_0000_0000_0000
  const EFI_PAGE_SIZE: nat := 4096

  type u8 = x: nat | x < 0x100
  type u16 = x: nat | x < 0x1_0000
  type u32 = x: nat | x < 0x1_0000_0000
  type u64 = x: nat | x < 0x1_0000_0000_0000_0000
  type u128 = x: nat | x < 0x1_0000_0000_0000_0000_0000_0000_0000_0000

  /** EFI_STATUS, restricted to the codes the modelled drivers produce. */
  datatype Status =
    | Success
    | InvalidParameter
    | Unsupported
    | BadBufferSize
    | BufferTooSmall
    | NotReady
    | DeviceError
    | WriteProtected
    | OutOfResources
    | NotFound
    | AccessDenied
    | Timeout
  {
    predicate IsError() { this != Success }
  }

  /** 64-bit unsigned wrap-around. */
  function Wrap64(x: int): u64 { x % TWO_64 }

  /** 128-bit unsigned wrap-around. */
  function Wrap128(x: int): u128 { x % TWO_128 }

  function Min(a: int, b: int): int { if a <= b then a else b }

  function Max(a: int, b: int): int { if a >= b then a else b }

  /** Powers of two, as produced by LShiftU64 (1, n). */
  function Pow2(n: nat): (r: nat)
    ensures r > 0
  {
    if n == 0 then 1 else 2 * Pow2(n - 1)
  }
}
