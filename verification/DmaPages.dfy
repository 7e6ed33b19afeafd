/**
  System memory and the page allocator behind DMA mappings: AllocatePages and
  FreePages of the boot services, ZeroMem and CopyMem.
 */
module DmaPages {
  import opened Uefi
  import opened GcdSpace

  /** EFI_SIZE_TO_PAGES. */
  function PagesOf(bytes: nat): (r: nat)
    ensures bytes <= r * EFI_PAGE_SIZE < bytes + EFI_PAGE_SIZE
  {
    (bytes + EFI_PAGE_SIZE - 1) / EFI_PAGE_SIZE
  }

  /** `bytes` with the bytes from `at` on replaced by `data`. */
  function Patched(bytes: seq<u8>, at: nat, data: seq<u8>): (r: seq<u8>)
    requires at + |data| <= |bytes|
    ensures |r| == |bytes|
    ensures r[at..at + |data|] == data
    ensures forall k :: 0 <= k < |bytes| && !(at <= k < at + |data|) ==> r[k] == bytes[k]
  {
    bytes[..at] + data + bytes[at + |data|..]
  }

  /** The run of pages ends at or below an address. */
  predicate EndsBelow(page: nat, pages: nat, maxAddress: nat) { (page + pages) * EFI_PAGE_SIZE <= maxAddress + 1 }

  predicate FreeRun(free: set<nat>, page: nat, pages: nat, maxAddress: nat) {
    page in free && Interval(page, pages) <= free && EndsBelow(page, pages, maxAddress)
  }

  ghost predicate HasRun(free: set<nat>, pages: nat, maxAddress: nat) { exists p :: FreeRun(free, p, pages, maxAddress) }

  lemma RunMeans(free: set<nat>, page: nat, pages: nat, maxAddress: nat)
    requires pages > 0
    ensures FreeRun(free, page, pages, maxAddress) <==>
            (forall p :: page <= p < page + pages ==> p in free) && (page + pages) * EFI_PAGE_SIZE - 1 <= maxAddress
  {
    if FreeRun(free, page, pages, maxAddress) {
      forall p | page <= p < page + pages ensures p in free {
        assert p in Interval(page, pages);
      }
    }
  }

  /** The pages lie inside memory. */
  predicate Inside(pages: set<nat>, size: nat) { forall p :: p in pages ==> (p + 1) * EFI_PAGE_SIZE <= size }

  lemma RunInside(pages: set<nat>, page: nat, n: nat, size: nat)
    requires Inside(pages, size) && Interval(page, n) <= pages && n > 0
    ensures (page + n) * EFI_PAGE_SIZE <= size
  {
    assert page + n - 1 in Interval(page, n);
  }

  /** Memory by byte address; pages by number. */
  class Memory {
    var free: set<nat>
    var owned: set<nat>
    var bytes: seq<u8>

    constructor (free: set<nat>, bytes: seq<u8>)
      requires Inside(free, |bytes|)
      ensures Valid() && this.free == free && owned == {} && this.bytes == bytes
    {
      this.free, this.owned, this.bytes := free, {}, bytes;
    }

    ghost predicate Valid()
      reads this
    {
      free !! owned && Inside(free, |bytes|) && Inside(owned, |bytes|)
    }

    /** AllocatePages with AllocateMaxAddress: some free run below the limit, or
        nothing when there is none. */
    method AllocatePages(pages: nat, maxAddress: u64) returns (ok: bool, page: nat)
      requires Valid() && pages > 0
      modifies this`free, this`owned
      ensures Valid()
      ensures ok <==> HasRun(old(free), pages, maxAddress)
      ensures ok ==>
                && Interval(page, pages) <= old(free) && EndsBelow(page, pages, maxAddress)
                && free == old(free) - Interval(page, pages) && owned == old(owned) + Interval(page, pages)
                && (page + pages) * EFI_PAGE_SIZE <= |bytes|
      ensures !ok ==> free == old(free) && owned == old(owned)
    {
      ok := exists p :: p in free && FreeRun(free, p, pages, maxAddress);
      page := 0;
      if ok {
        page :| page in free && FreeRun(free, page, pages, maxAddress);
        RunInside(free, page, pages, |bytes|);
        free, owned := free - Interval(page, pages), owned + Interval(page, pages);
      }
    }

    /** FreePages. */
    method FreePages(page: nat, pages: nat) returns (status: Status)
      requires Valid()
      modifies this`free, this`owned
      ensures Valid()
      ensures status == if Interval(page, pages) <= old(owned) then Success else NotFound
      ensures status == Success ==>
                free == old(free) + Interval(page, pages) && owned == old(owned) - Interval(page, pages)
      ensures status != Success ==> free == old(free) && owned == old(owned)
    {
      if !(Interval(page, pages) <= owned) {
        return NotFound;
      }
      free, owned := free + Interval(page, pages), owned - Interval(page, pages);
      return Success;
    }

    /** ZeroMem. */
    method Zero(at: nat, length: nat)
      requires Valid() && at + length <= |bytes|
      modifies this`bytes
      ensures Valid() && bytes == Patched(old(bytes), at, seq(length, i => 0))
    {
      bytes := Patched(bytes, at, seq(length, i => 0));
    }

    /** CopyMem. */
    method Copy(to: nat, from: nat, length: nat)
      requires Valid() && to + length <= |bytes| && from + length <= |bytes|
      modifies this`bytes
      ensures Valid() && bytes == Patched(old(bytes), to, old(bytes)[from..from + length])
    {
      bytes := Patched(bytes, to, bytes[from..from + length]);
    }
  }
}
