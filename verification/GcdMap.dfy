/**
  The DXE memory space map (GCD) as FdtBusDxe uses it, and
  ApplyGcdTypeAndAttrs from FdtBusDxe/Utils.c, which walks the map while its
  own calls split and merge the entries it walks over.

  The map is kept per byte, so no particular division into entries is
  assumed: a descriptor query may return any uniform stretch around the address.
 */
module GcdMap {
  import opened Uefi

  datatype MemType =
    | NonExistent
    | Reserved
    | SystemMemory
    | MemoryMappedIo
    | Persistent
    | MoreReliable

  datatype Cell = Cell(memType: MemType, attributes: u64, inUse: bool)

  /** [base, base + length) contains `at` and looks the same everywhere. */
  predicate Uniform(cells: seq<Cell>, at: nat, base: nat, length: nat) {
    && base <= at < base + length <= |cells|
    && forall i :: base <= i < base + length ==>
         cells[i].memType == cells[at].memType && cells[i].attributes == cells[at].attributes
  }

  /** The bytes of [lo, hi) become space of the given type, without attributes. */
  function Retyped(cells: seq<Cell>, lo: nat, hi: nat, memType: MemType): (r: seq<Cell>)
    ensures |r| == |cells|
  {
    seq(|cells|, i requires 0 <= i < |cells| =>
      if lo <= i < hi then cells[i].(memType := memType, attributes := 0) else cells[i])
  }

  function Attributed(cells: seq<Cell>, lo: nat, hi: nat, attributes: u64): (r: seq<Cell>)
    ensures |r| == |cells|
  {
    seq(|cells|, i requires 0 <= i < |cells| =>
      if lo <= i < hi then cells[i].(attributes := attributes) else cells[i])
  }

  /** The services of the DXE memory space map.  Unless the map is reliable each
      may also fail for reasons of its own, and then changes nothing. */
  class MemorySpace {
    var cells: seq<Cell>
    const reliable: bool

    constructor (cells: seq<Cell>, reliable: bool)
      ensures this.cells == cells && this.reliable == reliable
    {
      this.cells, this.reliable := cells, reliable;
    }

    /** GetMemorySpaceDescriptor. */
    method GetDescriptor(at: nat) returns (status: Status, base: nat, length: nat, memType: MemType, attributes: u64)
      ensures status == (if at < |cells| then Success else NotFound)
      ensures status == Success ==>
                Uniform(cells, at, base, length)
                && memType == cells[at].memType && attributes == cells[at].attributes
    {
      if at >= |cells| {
        return NotFound, 0, 0, NonExistent, 0;
      }
      base, length := *, *;
      if !Uniform(cells, at, base, length) {
        base, length := at, 1;
      }
      return Success, base, length, cells[at].memType, cells[at].attributes;
    }

    /** AddMemorySpace: only nonexistent space can be added; it starts without attributes. */
    method Add(memType: MemType, base: nat, length: nat, capabilities: u64) returns (status: Status)
      modifies this
      ensures status != Success ==> cells == old(cells)
      ensures status == Success ==>
                && memType != NonExistent && 0 < length && base + length <= |old(cells)|
                && (forall i :: base <= i < base + length ==> old(cells)[i].memType == NonExistent)
                && cells == Retyped(old(cells), base, base + length, memType)
      ensures (&& reliable && memType != NonExistent && 0 < length && base + length <= |old(cells)|
               && (forall i :: base <= i < base + length ==> old(cells)[i].memType == NonExistent)) ==>
                status == Success
    {
      var refuse: bool := *;
      if memType == NonExistent || length == 0 {
        return InvalidParameter;
      }
      if base + length > |cells| {
        return Unsupported;
      }
      if refuse && !reliable {
        return OutOfResources;
      }
      if exists i :: base <= i < base + length && cells[i].memType != NonExistent {
        return AccessDenied;
      }
      cells := Retyped(cells, base, base + length, memType);
      return Success;
    }

    /** RemoveMemorySpace: refuses space out of which memory was allocated. */
    method Remove(base: nat, length: nat) returns (status: Status)
      modifies this
      ensures status != Success ==> cells == old(cells)
      ensures status == Success ==>
                && 0 < length && base + length <= |old(cells)|
                && (forall i :: base <= i < base + length ==> !old(cells)[i].inUse)
                && cells == Retyped(old(cells), base, base + length, NonExistent)
      ensures (&& reliable && 0 < length && base + length <= |old(cells)|
               && (forall i :: base <= i < base + length ==> !old(cells)[i].inUse)) ==>
                status == Success
    {
      var refuse: bool := *;
      if length == 0 {
        return InvalidParameter;
      }
      if base + length > |cells| {
        return Unsupported;
      }
      if refuse && !reliable {
        return OutOfResources;
      }
      if exists i :: base <= i < base + length && cells[i].inUse {
        return AccessDenied;
      }
      cells := Retyped(cells, base, base + length, NonExistent);
      return Success;
    }

    /** SetMemorySpaceAttributes. */
    method SetAttributes(base: nat, length: nat, attributes: u64) returns (status: Status)
      modifies this
      ensures status != Success ==> cells == old(cells)
      ensures status == Success ==>
                && 0 < length && base + length <= |cells|
                && cells == Attributed(old(cells), base, base + length, attributes)
      ensures reliable && 0 < length && base + length <= |old(cells)| ==> status == Success
    {
      var refuse: bool := *;
      if length == 0 {
        return InvalidParameter;
      }
      if base + length > |cells| {
        return Unsupported;
      }
      if refuse && !reliable {
        return OutOfResources;
      }
      cells := Attributed(cells, base, base + length, attributes);
      return Success;
    }
  }

  /** ROUND_DOWN and ROUND_UP to a page. */
  function PageDown(a: nat): nat { a - a % EFI_PAGE_SIZE }

  function PageUp(a: nat): nat { PageDown(a + EFI_PAGE_SIZE - 1) }

  lemma PageWidening(address: nat, length: nat)
    requires length != 0
    ensures PageDown(address) % EFI_PAGE_SIZE == 0 && PageUp(address + length) % EFI_PAGE_SIZE == 0
    ensures PageDown(address) <= address < address + length <= PageUp(address + length)
    ensures address - PageDown(address) < EFI_PAGE_SIZE && PageUp(address + length) - (address + length) < EFI_PAGE_SIZE
  {}

  /** A request as the caller sees it. */
  datatype Wish = Wish(memType: MemType, attributes: u64, onConflictDoNothing: bool)

  predicate Compatible(c: Cell, wish: Wish) {
    c.memType == wish.memType && (c.attributes == 0 || c.attributes == wish.attributes)
  }

  predicate Conflicting(c: Cell, wish: Wish) {
    c.memType != NonExistent && !Compatible(c, wish)
  }

  /** A byte on which the wish cannot be granted: memory in use that would have to
      be taken away, or a request to add nothing. */
  predicate Blocked(c: Cell, wish: Wish) {
    || (c.memType == NonExistent && wish.memType == NonExistent)
    || (Conflicting(c, wish) && !wish.onConflictDoNothing && (c.inUse || wish.memType == NonExistent))
  }

  predicate NoneBlocked(cells: seq<Cell>, lo: nat, hi: nat, wish: Wish)
    requires hi <= |cells|
  {
    forall i :: lo <= i < hi ==> !Blocked(cells[i], wish)
  }

  /** What a successful application makes of one byte of the widened range. */
  function AppliedCell(c: Cell, wish: Wish): Cell {
    if Conflicting(c, wish) && wish.onConflictDoNothing then c
    else c.(memType := wish.memType, attributes := wish.attributes)
  }

  function Applied(cells: seq<Cell>, lo: nat, hi: nat, wish: Wish): (r: seq<Cell>)
    ensures |r| == |cells|
  {
    seq(|cells|, i requires 0 <= i < |cells| => if lo <= i < hi then AppliedCell(cells[i], wish) else cells[i])
  }

  lemma AppliedExtends(cells: seq<Cell>, lo: nat, mid: nat, hi: nat, wish: Wish)
    requires lo <= mid <= hi
    ensures Applied(Applied(cells, lo, mid, wish), mid, hi, wish) == Applied(cells, lo, hi, wish)
  {}

  /** Applying the same wish again changes nothing, and nothing stands in its way. */
  lemma ApplyingTwiceIsOnce(cells: seq<Cell>, lo: nat, hi: nat, wish: Wish)
    ensures Applied(Applied(cells, lo, hi, wish), lo, hi, wish) == Applied(cells, lo, hi, wish)
    ensures hi <= |cells| && NoneBlocked(cells, lo, hi, wish) ==> NoneBlocked(Applied(cells, lo, hi, wish), lo, hi, wish)
  {}

  /** The outcome does not depend on the order of wishes for disjoint ranges. */
  lemma DisjointWishesCommute(cells: seq<Cell>, lo: nat, hi: nat, wish: Wish, lo': nat, hi': nat, wish': Wish)
    requires hi <= lo' || hi' <= lo
    ensures Applied(Applied(cells, lo, hi, wish), lo', hi', wish')
            == Applied(Applied(cells, lo', hi', wish'), lo, hi, wish)
  {}

  /** What a granted wish has made of a byte: an absent one, and one of the wished type with
      no attributes or the wished ones, has the wished type and attributes, in use or not;
      any other byte is kept if and only if the wish says so, and has otherwise been
      replaced, not being in use. */
  predicate SettlesByte(b: Cell, a: Cell, wish: Wish) {
    && a.inUse == b.inUse
    && (wish.memType == NonExistent ==> b.memType != NonExistent && wish.onConflictDoNothing)
    && (b.memType == NonExistent || (b.memType == wish.memType && (b.attributes == 0 || b.attributes == wish.attributes)) ==>
          a.memType == wish.memType && a.attributes == wish.attributes)
    && (b.memType != NonExistent && (b.memType != wish.memType || (b.attributes != 0 && b.attributes != wish.attributes)) ==>
          && (a == b <==> wish.onConflictDoNothing)
          && (a != b ==> !b.inUse && a.memType == wish.memType && a.attributes == wish.attributes))
  }

  predicate Settles(before: seq<Cell>, after: seq<Cell>, lo: nat, hi: nat, wish: Wish) {
    |after| == |before| && hi <= |before| && forall i :: lo <= i < hi ==> SettlesByte(before[i], after[i], wish)
  }

  /** The range exists, and the wish adds or keeps memory; each byte of it is absent, or not
      in use, or of the wished type with no attributes or the wished ones, unless others are
      to be left alone anyway. */
  predicate Grantable(cells: seq<Cell>, lo: nat, hi: nat, wish: Wish) {
    && hi <= |cells| && wish.memType != NonExistent
    && forall i :: lo <= i < hi ==>
         || wish.onConflictDoNothing || cells[i].memType == NonExistent || !cells[i].inUse
         || (cells[i].memType == wish.memType && (cells[i].attributes == 0 || cells[i].attributes == wish.attributes))
  }

  lemma GrantableIsNotBlocked(cells: seq<Cell>, lo: nat, hi: nat, wish: Wish)
    ensures Grantable(cells, lo, hi, wish) ==> hi <= |cells| && NoneBlocked(cells, lo, hi, wish)
  {}

  lemma AppliedSettles(before: seq<Cell>, lo: nat, hi: nat, wish: Wish)
    requires lo < hi <= |before| && NoneBlocked(before, lo, hi, wish)
    ensures Settles(before, Applied(before, lo, hi, wish), lo, hi, wish)
  {
    forall i | lo <= i < hi ensures SettlesByte(before[i], Applied(before, lo, hi, wish)[i], wish) {
      assert !Blocked(before[i], wish);
    }
  }

  ghost predicate SameOutside(a: seq<Cell>, b: seq<Cell>, lo: nat, hi: nat) {
    |a| == |b| && forall i :: 0 <= i < |a| && !(lo <= i < hi) ==> a[i] == b[i]
  }

  /** A stretch handled no further than some call that failed: as it was, or taken away
      and not added again, or added but still without its attributes. */
  ghost predicate Torn(before: seq<Cell>, after: seq<Cell>, next: nat, end: nat, wish: Wish) {
    || after == before
    || (&& end <= |before| && after == Retyped(before, next, end, NonExistent) && !wish.onConflictDoNothing
        && forall i :: next <= i < end ==> Conflicting(before[i], wish))
    || (&& end <= |before| && after == Retyped(before, next, end, wish.memType)
        && forall i :: next <= i < end ==>
             before[i].memType == NonExistent || (Conflicting(before[i], wish) && !wish.onConflictDoNothing))
  }

  /** All is settled up to mid, and the one stretch behind it may be torn. */
  ghost predicate SettledUpTo(before: seq<Cell>, after: seq<Cell>, lo: nat, mid: nat, end: nat, wish: Wish) {
    && lo <= mid <= end && (mid <= |before| || mid == lo)
    && (mid <= |before| ==> NoneBlocked(before, lo, mid, wish))
    && Torn(Applied(before, lo, mid, wish), after, mid, end, wish)
  }

  lemma NothingTorn(before: seq<Cell>, after: seq<Cell>, lo: nat, mid: nat, wish: Wish)
    requires lo <= mid && (mid <= |before| || mid == lo) && (mid <= |before| ==> NoneBlocked(before, lo, mid, wish))
    requires after == Applied(before, lo, mid, wish)
    ensures SettledUpTo(before, after, lo, mid, mid, wish)
  {
    hide Applied;
  }

  lemma OneStretchTorn(before: seq<Cell>, current: seq<Cell>, after: seq<Cell>, lo: nat, mid: nat, end: nat, wish: Wish)
    requires lo <= mid <= end && mid <= |before| && NoneBlocked(before, lo, mid, wish)
    requires current == Applied(before, lo, mid, wish) && Torn(current, after, mid, end, wish)
    ensures SettledUpTo(before, after, lo, mid, end, wish)
  {
    hide Applied, Torn;
  }

  /** In a stretch that looks the same everywhere, all of it conflicts or nothing does. */
  lemma StretchConflicts(cells: seq<Cell>, next: nat, end: nat, memType: MemType, attributes: u64, wish: Wish)
    requires end <= |cells|
    requires forall i :: next <= i < end ==> cells[i].memType == memType && cells[i].attributes == attributes
    ensures forall i :: next <= i < end ==>
              (Conflicting(cells[i], wish) <==>
                 memType != NonExistent && !(memType == wish.memType && (attributes == 0 || attributes == wish.attributes)))
  {}

  /** Handles one stretch [next, end) that looks the same everywhere. */
  method ApplyStretch(space: MemorySpace, next: nat, end: nat, memType: MemType, attributes: u64, wish: Wish)
    returns (status: Status)
    requires next < end <= |space.cells|
    requires forall i :: next <= i < end ==>
               space.cells[i].memType == memType && space.cells[i].attributes == attributes
    modifies space
    ensures SameOutside(old(space.cells), space.cells, next, end)
    ensures status == Success ==> space.cells == Applied(old(space.cells), next, end, wish)
    ensures status != Success ==> Torn(old(space.cells), space.cells, next, end, wish)
    ensures status == Success ==> NoneBlocked(old(space.cells), next, end, wish)
    ensures space.reliable && NoneBlocked(old(space.cells), next, end, wish) ==> status == Success
  {
    hide Conflicting, Compatible;
    StretchConflicts(space.cells, next, end, memType, attributes, wish);
    ghost var first := space.cells[next];
    status := Success;
    var haveConflict := false;
    if memType != NonExistent {
      if !(memType == wish.memType && (attributes == 0 || attributes == wish.attributes)) {
        haveConflict := true;
      }
    }
    if haveConflict && !wish.onConflictDoNothing {
      status := space.Remove(next, end - next);
      if status.IsError() {
        return;
      }
    }
    if memType == NonExistent || (haveConflict && !wish.onConflictDoNothing) {
      status := space.Add(wish.memType, next, end - next, wish.attributes);
      if status.IsError() {
        return;
      }
    }
    if memType == NonExistent || (!haveConflict && attributes == 0) || (haveConflict && !wish.onConflictDoNothing) {
      status := space.SetAttributes(next, end - next, wish.attributes);
      if status.IsError() {
        return;
      }
    }
  }

  /** ApplyGcdTypeAndAttrs.  The walk ends; on success every byte of the
      page-widened range is settled as AppliedCell says; nothing outside the
      range changes, whatever the status.  On a reliable map it succeeds if and
      only if the widened range exists and no byte of it is blocked.  Otherwise it has
      settled some front part of the range and left one stretch behind it half done at
      most. */
  method ApplyGcdTypeAndAttrs(space: MemorySpace, address: u64, length: u64, wish: Wish)
    returns (status: Status, outType: MemType, outAttributes: u64)
    requires length != 0 && address + length + EFI_PAGE_SIZE <= TWO_64 && |space.cells| < TWO_64
    modifies space
    ensures var lo, hi := PageDown(address), PageUp(address + length);
            && SameOutside(old(space.cells), space.cells, lo, hi)
            && (status == Success ==>
                  && hi <= |space.cells|
                  && space.cells == Applied(old(space.cells), lo, hi, wish)
                  && outType == old(space.cells)[hi - 1].memType
                  && outAttributes == old(space.cells)[hi - 1].attributes)
            && (status == Success ==> NoneBlocked(old(space.cells), lo, hi, wish))
            && (status != Success ==>
                  exists mid: nat, end: nat :: end <= hi && SettledUpTo(old(space.cells), space.cells, lo, mid, end, wish))
            && (space.reliable && hi <= |old(space.cells)| && NoneBlocked(old(space.cells), lo, hi, wish) ==> status == Success)
            && (status == Success ==> Settles(old(space.cells), space.cells, lo, hi, wish))
            && (space.reliable && Grantable(old(space.cells), lo, hi, wish) ==> status == Success)
  {
    hide Settles, Grantable, SettledUpTo, Torn, Blocked, AppliedCell;
    PageWidening(address, length);
    var alignedAddress := PageDown(address);
    var alignedEnd := PageUp(address + length);
    GrantableIsNotBlocked(space.cells, alignedAddress, alignedEnd, wish);
    outType, outAttributes := NonExistent, 0;
    var next := alignedAddress;
    ghost var before := space.cells;
    while next < alignedEnd
      invariant alignedAddress <= next <= alignedEnd
      invariant next > alignedAddress ==>
                  next <= |before| && outType == before[next - 1].memType && outAttributes == before[next - 1].attributes
      invariant space.cells == Applied(before, alignedAddress, next, wish)
      invariant next <= |before| || next == alignedAddress
      invariant next <= |before| ==> NoneBlocked(before, alignedAddress, next, wish)
      decreases alignedEnd - next
    {
      var base, size, memType, attributes;
      status, base, size, memType, attributes := space.GetDescriptor(next);
      if status.IsError() {
        NothingTorn(before, space.cells, alignedAddress, next, wish);
        return InvalidParameter, outType, outAttributes;
      }
      var overlapRegionEnd := if base + size > alignedEnd then alignedEnd else base + size;
      ghost var current := space.cells;
      assert forall i :: next <= i < overlapRegionEnd ==> current[i] == before[i];
      status := ApplyStretch(space, next, overlapRegionEnd, memType, attributes, wish);
      if status.IsError() {
        OneStretchTorn(before, current, space.cells, alignedAddress, next, overlapRegionEnd, wish);
        return;
      }
      AppliedExtends(before, alignedAddress, next, overlapRegionEnd, wish);
      outType, outAttributes := memType, attributes;
      next := overlapRegionEnd;
    }
    status := Success;
    AppliedSettles(before, alignedAddress, alignedEnd, wish);
  }
}
