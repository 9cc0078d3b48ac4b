/**
  Page-size constants and the page rounding macros of the platform header.
  Addresses are 64-bit unsigned values, so the macros are modelled on `bv64`
  exactly as the C preprocessor expands them (wrap-around included).
*/
module Plat {

  const PAGE_SHIFT: nat := 12
  const PAGE_SIZE: nat := 4096

  /** PAGE_MASK: all address bits above the page offset. */
  const PAGE_MASK: bv64 := 0xffff_ffff_ffff_f000

  /** The largest size that PGROUNDUP can round up without wrapping. */
  const ROUNDUP_LIMIT: bv64 := 0xffff_ffff_ffff_f000

  const TWO_TO_64: nat := 0x1_0000_0000_0000_0000

  /** RAMDISK_SIZE: no physical memory is set aside for a ramdisk. */
  const RAMDISK_SIZE: nat := 0

  /** The page-offset mask ~PAGE_MASK equals PAGE_SIZE - 1. */
  lemma PageMaskIsComplementOfOffset()
    ensures !PAGE_MASK == (PAGE_SIZE - 1) as bv64
    ensures (1 as bv64) << PAGE_SHIFT as bv64 == PAGE_SIZE as bv64
  {
  }

  /** PGROUNDUP(sz): the next page boundary at or above `sz`. */
  function PgRoundUp(sz: bv64): (r: bv64)
    ensures r % 4096 == 0
    ensures sz <= ROUNDUP_LIMIT ==> sz <= r && r - sz < 4096
  {
    (sz + 4095) & !4095
  }

  /** PGROUNDDOWN(a): the page boundary at or below `a`. */
  function PgRoundDown(a: bv64): (r: bv64)
    ensures r % 4096 == 0
    ensures r <= a && a - r < 4096
  {
    a & !4095
  }

  /** The alignment test `(x & ~PAGE_MASK) == 0` used by the allocator and the scheduler. */
  predicate PageAligned(x: bv64)
  {
    x & !PAGE_MASK == 0
  }

  /** The alignment test holds exactly for multiples of PAGE_SIZE. */
  lemma PageAlignedIffMultiple(x: bv64)
    ensures PageAligned(x) <==> x % 4096 == 0
  {
  }

  /** Both roundings leave an address fixed exactly when it is page-aligned. */
  lemma RoundingFixpoints(a: bv64)
    ensures PgRoundUp(a) == a <==> PageAligned(a)
    ensures PgRoundDown(a) == a <==> PageAligned(a)
  {
  }

  /** Both roundings are idempotent. */
  lemma RoundingIdempotent(a: bv64)
    ensures PgRoundUp(PgRoundUp(a)) == PgRoundUp(a)
    ensures PgRoundDown(PgRoundDown(a)) == PgRoundDown(a)
  {
  }

  /**
    PGROUNDUP's rounding on unbounded addresses, as the allocator uses it
    for LOW_MEMORY: the least multiple of PAGE_SIZE at or above `x`.
  */
  function RoundUpNat(x: nat): (r: nat)
    ensures r % PAGE_SIZE == 0
    ensures x <= r < x + PAGE_SIZE
  {
    (x + PAGE_SIZE - 1) / PAGE_SIZE * PAGE_SIZE
  }

  /**
    MAX_PAGING_PAGES: the number of pages covered by the physical memory
    that is not set aside for the ramdisk.
  */
  function MaxPagingPages(physSize: nat, ramdiskSize: nat): (n: nat)
    requires ramdiskSize <= physSize
    requires physSize % PAGE_SIZE == 0 && ramdiskSize % PAGE_SIZE == 0
    ensures n * PAGE_SIZE == physSize - ramdiskSize
  {
    (physSize - ramdiskSize) / PAGE_SIZE
  }
}
