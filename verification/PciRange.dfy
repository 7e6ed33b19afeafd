/**
  Apertures of a PCI root bridge and the address arithmetic of
  PciHostBridgeFdtDxe/Driver.h, all of it modulo 2^64.
 */
module PciRange {
  import opened Uefi

  /** EFI_DT_RANGE: 128-bit bus addresses; `indirect` stands for a BusDtIo that is not NULL. */
  datatype Range = Range(childBase: u128, parentBase: u128, translatedParentBase: u128, length: u128, indirect: bool)

  const NO_RANGE: Range := Range(0, 0, 0, 0, false)

  function RB(r: Range): u64 { Wrap64(r.childBase) }

  function RS(r: Range): u64 { Wrap64(r.length) }

  function RL(r: Range): u64 { Wrap64(r.childBase + r.length - 1) }

  function RT(r: Range): u64 { Wrap64(r.childBase - r.translatedParentBase) }

  /** The host address of the first byte. */
  function HB(r: Range): u64 { Wrap64(r.translatedParentBase) }

  function ToHostAddress(device: int, translation: int): u64 { Wrap64(device - translation) }

  function ToDeviceAddress(host: int, translation: int): u64 { Wrap64(host + translation) }

  /** The two translations undo each other. */
  lemma HostDeviceRoundTrip(address: u64, translation: u64)
    ensures ToDeviceAddress(ToHostAddress(address, translation), translation) == address
    ensures ToHostAddress(ToDeviceAddress(address, translation), translation) == address
  {}

  /** An aperture whose device and host windows do not wrap around 2^64. */
  predicate WellPlaced(r: Range) {
    r.length < TWO_64 && 0 < RS(r) && RB(r) + RS(r) < TWO_64 && HB(r) + RS(r) < TWO_64
  }

  /** Inside a well placed aperture, translation is a plain offset. */
  lemma WindowTranslation(r: Range, x: nat)
    requires WellPlaced(r) && x < RS(r)
    ensures RL(r) == RB(r) + RS(r) - 1
    ensures ToHostAddress(RB(r) + x, RT(r)) == HB(r) + x
    ensures ToDeviceAddress(HB(r) + x, RT(r)) == RB(r) + x
  {
    var c, h := r.childBase / TWO_64, r.translatedParentBase / TWO_64;
    WrapOf(r.childBase + r.length - 1, RB(r) + RS(r) - 1, c);
    var t := (r.childBase - r.translatedParentBase) / TWO_64;
    WrapOf(RB(r) + x - RT(r), HB(r) + x, t + h - c);
    WrapOf(HB(r) + x + RT(r), RB(r) + x, c - h - t);
  }

  lemma WrapOf(a: int, r: u64, k: int)
    requires a == r + k * TWO_64
    ensures Wrap64(a) == r
  {}

  /** A disabled aperture: its limit is 2^64 - 1. */
  lemma DisabledLimit()
    ensures RB(NO_RANGE) == 0 && RL(NO_RANGE) == MAX_UINT64 && RT(NO_RANGE) == 0
  {}
}
