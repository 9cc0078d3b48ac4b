/**
  The physical page allocator (alloc.c): one flag byte per page in
  `mem_map` (1 = allocated) covering LOW_MEMORY up to HIGH_MEMORY, and the
  counter `paging_pages_used`. Pages are handed out first-fit, and whole
  page-aligned regions are reserved or freed all-or-nothing. The top
  MALLOC_PAGES pages below HIGH_MEMORY0 belong to malloc() and are never
  handed out by the page allocator. `alloc_lock` is not modelled; page
  contents (memzero_aligned) are not modelled either.

  The specification side works on `MapState`, a value snapshot of the map and
  the counter; each method states its new snapshot as a function of the old.
*/
module Alloc {
  import opened Plat

  newtype byte = x: int | 0 <= x < 256

  /** HIGH_MEMORY0: the guessed framebuffer base, the top of paging memory. */
  const HIGH_MEMORY0: nat := 0x3c10_0000
  /** MALLOC_PAGES: 8 MB worth of pages carved out for malloc(). */
  const MALLOC_PAGES: nat := 8 * 1024 * 1024 / PAGE_SIZE

  /** The page map and the used-page counter. */
  datatype MapState = MapState(flags: seq<byte>, used: int)

  predicate Aligned(x: nat)
  {
    x % PAGE_SIZE == 0
  }

  /** Number of allocated entries (value 1) in a page map. */
  function CountOnes(m: seq<byte>): (n: nat)
    ensures n <= |m|
  {
    if |m| == 0 then 0
    else CountOnes(m[..|m| - 1]) + (if m[|m| - 1] == 1 then 1 else 0)
  }

  /** Every entry of the map is a flag: 0 (free) or 1 (allocated). */
  predicate Flags(m: seq<byte>)
  {
    forall i :: 0 <= i < |m| ==> m[i] <= 1
  }

  /** The counter agrees with the map. */
  predicate Consistent(s: MapState)
  {
    Flags(s.flags) && s.used == CountOnes(s.flags)
  }

  // ---------------------------------------------------------------------
  // Counting lemmas

  lemma {:induction false} CountConcat(a: seq<byte>, b: seq<byte>)
    ensures CountOnes(a + b) == CountOnes(a) + CountOnes(b)
    decreases |b|
  {
    if |b| == 0 {
      assert a + b == a;
    } else {
      assert (a + b)[..|a + b| - 1] == a + b[..|b| - 1];
      CountConcat(a, b[..|b| - 1]);
    }
  }

  lemma {:induction false} CountUniform(m: seq<byte>, v: byte)
    requires v <= 1
    requires forall i :: 0 <= i < |m| ==> m[i] == v
    ensures CountOnes(m) == if v == 1 then |m| else 0
  {
    if |m| > 0 {
      CountUniform(m[..|m| - 1], v);
    }
  }

  /** `n` copies of the flag `v`. */
  function Block(n: nat, v: byte): (r: seq<byte>)
    ensures |r| == n && forall i :: 0 <= i < n ==> r[i] == v
  {
    seq(n, _ => v)
  }

  /** The map with every entry in [lo, hi) set to `v`. */
  function Filled(m: seq<byte>, lo: nat, hi: nat, v: byte): (r: seq<byte>)
    requires lo <= hi <= |m|
    ensures |r| == |m|
    ensures forall i :: lo <= i < hi ==> r[i] == v
    ensures forall i :: 0 <= i < |m| && !(lo <= i < hi) ==> r[i] == m[i]
  {
    m[..lo] + Block(hi - lo, v) + m[hi..]
  }

  /** A map is its prefix, a middle range and its suffix. */
  lemma Decompose(m: seq<byte>, lo: nat, hi: nat)
    requires lo <= hi <= |m|
    ensures m == m[..lo] + m[lo..hi] + m[hi..]
  {
    assert m[..hi] == m[..lo] + m[lo..hi];
    assert m == m[..hi] + m[hi..];
  }

  lemma CountSplit(a: seq<byte>, b: seq<byte>, c: seq<byte>)
    ensures CountOnes(a + b + c) == CountOnes(a) + CountOnes(b) + CountOnes(c)
  {
    CountConcat(a + b, c);
    CountConcat(a, b);
  }

  /**
    Setting a range of flags that all differ from `v` moves the number of
    allocated pages by the length of the range, up for 1 and down for 0.
  */
  lemma CountFilled(m: seq<byte>, lo: nat, hi: nat, v: byte)
    requires Flags(m) && v <= 1
    requires lo <= hi <= |m|
    requires forall i :: lo <= i < hi ==> m[i] != v
    ensures Flags(Filled(m, lo, hi, v))
    ensures CountOnes(Filled(m, lo, hi, v)) ==
            if v == 1 then CountOnes(m) + (hi - lo) else CountOnes(m) - (hi - lo)
  {
    CountOfParts(m, lo, hi);
    CountOfFilled(m, lo, hi, v);
    CountUniform(Block(hi - lo, v), v);
    MiddleUniform(m, lo, hi, v);
    CountUniform(m[lo..hi], 1 - v);
    FilledFlags(m, lo, hi, v);
  }

  lemma MiddleUniform(m: seq<byte>, lo: nat, hi: nat, v: byte)
    requires Flags(m) && v <= 1
    requires lo <= hi <= |m|
    requires forall i :: lo <= i < hi ==> m[i] != v
    ensures forall i :: 0 <= i < |m[lo..hi]| ==> m[lo..hi][i] == 1 - v
  {
    forall i | 0 <= i < |m[lo..hi]|
      ensures m[lo..hi][i] == 1 - v
    {
      assert m[lo..hi][i] == m[lo + i];
    }
  }

  lemma FilledFlags(m: seq<byte>, lo: nat, hi: nat, v: byte)
    requires Flags(m) && v <= 1
    requires lo <= hi <= |m|
    ensures Flags(Filled(m, lo, hi, v))
  {
  }

  lemma CountOfParts(m: seq<byte>, lo: nat, hi: nat)
    requires lo <= hi <= |m|
    ensures CountOnes(m) == CountOnes(m[..lo]) + CountOnes(m[lo..hi]) + CountOnes(m[hi..])
  {
    Decompose(m, lo, hi);
    CountSplit(m[..lo], m[lo..hi], m[hi..]);
  }

  lemma CountOfFilled(m: seq<byte>, lo: nat, hi: nat, v: byte)
    requires lo <= hi <= |m|
    ensures CountOnes(Filled(m, lo, hi, v)) == CountOnes(m[..lo]) + CountOnes(Block(hi - lo, v)) + CountOnes(m[hi..])
  {
    CountSplit(m[..lo], Block(hi - lo, v), m[hi..]);
  }

  /** A one-page update is a range update of length one. */
  lemma CountSet(m: seq<byte>, i: nat, v: byte)
    requires Flags(m) && v <= 1
    requires i < |m| && m[i] != v
    ensures Flags(m[i := v])
    ensures CountOnes(m[i := v]) == if v == 1 then CountOnes(m) + 1 else CountOnes(m) - 1
  {
    assert m[i := v] == Filled(m, i, i + 1, v);
    CountFilled(m, i, i + 1, v);
  }

  // ---------------------------------------------------------------------
  // get_free_page / free_page

  /**
    The lowest free index in [from, limit), or -1 when every page there is
    allocated.
  */
  function FirstFree(m: seq<byte>, from: nat, limit: nat): (r: int)
    requires limit <= |m|
    ensures r == -1 <==> forall j :: from <= j < limit ==> m[j] != 0
    ensures r != -1 ==> from <= r < limit && m[r] == 0
    ensures r != -1 ==> forall j :: from <= j < r ==> m[j] != 0
    decreases limit - from
  {
    if from >= limit then -1
    else if m[from] == 0 then from
    else FirstFree(m, from + 1, limit)
  }

  /** The snapshot after get_free_page marks page `i`. */
  function Allocated(s: MapState, i: nat): MapState
    requires i < |s.flags|
  {
    MapState(s.flags[i := 1], s.used + 1)
  }

  /** The snapshot after free_page clears page `i`. */
  function Released(s: MapState, i: nat): MapState
    requires i < |s.flags|
  {
    MapState(s.flags[i := 0], s.used - 1)
  }

  /** Handing out a free page keeps the counter equal to the number of allocated pages. */
  lemma AllocatedKeepsConsistent(s: MapState, i: nat)
    requires Consistent(s)
    requires i < |s.flags| && s.flags[i] == 0
    ensures Consistent(Allocated(s, i))
  {
    CountSet(s.flags, i, 1);
  }

  /** Freeing an allocated page keeps the counter equal to the number of allocated pages. */
  lemma ReleasedKeepsConsistent(s: MapState, i: nat)
    requires Consistent(s)
    requires i < |s.flags| && s.flags[i] == 1
    ensures Consistent(Released(s, i))
  {
    CountSet(s.flags, i, 0);
  }

  /** Freeing the page just handed out restores map and counter. */
  lemma AllocateThenRelease(s: MapState, i: nat)
    requires i < |s.flags| && s.flags[i] == 0
    ensures Released(Allocated(s, i), i) == s
  {
    assert s.flags[i := 1][i := 0] == s.flags;
  }

  // ---------------------------------------------------------------------
  // _reserve_phys_region

  /** The map indexes covered by the region [pa, pa + size). */
  function StartIndex(low: nat, pa: nat): nat
    requires low <= pa
  {
    (pa - low) / PAGE_SIZE
  }

  function EndIndex(low: nat, pa: nat, size: nat): nat
    requires low <= pa
  {
    (pa - low + size) / PAGE_SIZE
  }

  /** An aligned region lies within the map (the C indexes `mem_map` unchecked). */
  predicate RegionInMap(n: nat, low: nat, pa: nat, size: nat)
  {
    Aligned(pa) && Aligned(size) ==> low <= pa && EndIndex(low, pa, size) <= n
  }

  /** Some page of the region already carries the target flag. */
  predicate Clash(m: seq<byte>, lo: nat, hi: nat, v: byte)
    requires hi <= |m|
  {
    exists i :: lo <= i < hi && m[i] == v
  }

  /**
    _reserve_phys_region(pa, size, target): its result code and the new
    snapshot. -1 for a misaligned region, -2 when some page already has the
    target value, otherwise 0 with the range set and the counter moved by
    size >> PAGE_SHIFT.
  */
  function RangeOp(s: MapState, low: nat, pa: nat, size: nat, v: byte): (r: (int, MapState))
    requires v <= 1
    requires RegionInMap(|s.flags|, low, pa, size)
    ensures r.0 == -1 <==> !(Aligned(pa) && Aligned(size))
    ensures r.0 == -2 <==> Aligned(pa) && Aligned(size) && Clash(s.flags, StartIndex(low, pa), EndIndex(low, pa, size), v)
    ensures r.0 != 0 ==> r.1 == s
    ensures |r.1.flags| == |s.flags|
    ensures r.0 == 0 ==> Aligned(pa) && Aligned(size) && forall i :: StartIndex(low, pa) <= i < EndIndex(low, pa, size) ==> r.1.flags[i] == v
  {
    if !Aligned(pa) || !Aligned(size) then (-1, s)
    else
      var lo := StartIndex(low, pa);
      var hi := EndIndex(low, pa, size);
      if Clash(s.flags, lo, hi, v) then (-2, s)
      else
        var n := size / PAGE_SIZE;
        (0, MapState(Filled(s.flags, lo, hi, v), if v == 1 then s.used + n else s.used - n))
  }

  /** The successful case of a range operation, spelled out. */
  lemma RangeOpSucceeds(s: MapState, low: nat, pa: nat, size: nat, v: byte)
    requires v <= 1 && Aligned(pa) && Aligned(size)
    requires RegionInMap(|s.flags|, low, pa, size)
    requires !Clash(s.flags, StartIndex(low, pa), EndIndex(low, pa, size), v)
    ensures RangeOp(s, low, pa, size, v) ==
            (0, MapState(Filled(s.flags, StartIndex(low, pa), EndIndex(low, pa, size), v),
                         if v == 1 then s.used + size / PAGE_SIZE else s.used - size / PAGE_SIZE))
  {
  }

  /** For an aligned region above an aligned LOW_MEMORY, size >> PAGE_SHIFT is the index count. */
  lemma RegionLength(low: nat, pa: nat, size: nat)
    requires Aligned(low) && Aligned(pa) && Aligned(size) && low <= pa
    ensures EndIndex(low, pa, size) - StartIndex(low, pa) == size / PAGE_SIZE
  {
    var k := (pa - low) / PAGE_SIZE;
    var n := size / PAGE_SIZE;
    assert pa - low == k * PAGE_SIZE;
    assert size == n * PAGE_SIZE;
    assert pa - low + size == (k + n) * PAGE_SIZE;
  }

  /**
    The malloc region [HIGH_MEMORY0 - MALLOC_PAGES*PAGE_SIZE, HIGH_MEMORY0)
    is aligned and covers the last MALLOC_PAGES indexes below PAGING_PAGES.
  */
  lemma MallocRegionIndexes(low: nat)
    requires Aligned(low) && low + MALLOC_PAGES * PAGE_SIZE <= HIGH_MEMORY0
    ensures Aligned(HIGH_MEMORY0 - MALLOC_PAGES * PAGE_SIZE) && Aligned(MALLOC_PAGES * PAGE_SIZE)
    ensures (HIGH_MEMORY0 - low) / PAGE_SIZE * PAGE_SIZE == HIGH_MEMORY0 - low
    ensures StartIndex(low, HIGH_MEMORY0 - MALLOC_PAGES * PAGE_SIZE) == (HIGH_MEMORY0 - low) / PAGE_SIZE - MALLOC_PAGES
    ensures EndIndex(low, HIGH_MEMORY0 - MALLOC_PAGES * PAGE_SIZE, MALLOC_PAGES * PAGE_SIZE) == (HIGH_MEMORY0 - low) / PAGE_SIZE
  {
    var k := low / PAGE_SIZE;
    assert low == k * PAGE_SIZE;
    assert HIGH_MEMORY0 - low == (0x3c100 - k) * PAGE_SIZE;
    assert HIGH_MEMORY0 - MALLOC_PAGES * PAGE_SIZE - low == (0x3c100 - MALLOC_PAGES - k) * PAGE_SIZE;
  }

  /** A range operation keeps the counter equal to the number of allocated pages. */
  lemma RangeOpKeepsConsistent(s: MapState, low: nat, pa: nat, size: nat, v: byte)
    requires Consistent(s) && Aligned(low) && v <= 1
    requires RegionInMap(|s.flags|, low, pa, size)
    ensures Consistent(RangeOp(s, low, pa, size, v).1)
  {
    if Aligned(pa) && Aligned(size) && !Clash(s.flags, StartIndex(low, pa), EndIndex(low, pa, size), v) {
      RegionLength(low, pa, size);
      CountFilled(s.flags, StartIndex(low, pa), EndIndex(low, pa, size), v);
    }
  }

  /**
    Reserving a region and then freeing the same region succeeds and
    restores the map and the counter exactly.
  */
  lemma ReserveThenFreeRestores(s: MapState, low: nat, pa: nat, size: nat)
    requires Flags(s.flags)
    requires RegionInMap(|s.flags|, low, pa, size)
    requires RangeOp(s, low, pa, size, 1).0 == 0
    ensures RangeOp(RangeOp(s, low, pa, size, 1).1, low, pa, size, 0) == (0, s)
  {
    var lo, hi := StartIndex(low, pa), EndIndex(low, pa, size);
    var mid := RangeOp(s, low, pa, size, 1).1;
    assert !Clash(mid.flags, lo, hi, 0);
    assert Filled(mid.flags, lo, hi, 0) == s.flags;
  }

  /** A region whose pages are all free can be reserved. */
  lemma FreeRegionReserves(s: MapState, low: nat, pa: nat, size: nat)
    requires Aligned(pa) && Aligned(size)
    requires RegionInMap(|s.flags|, low, pa, size)
    requires forall i :: StartIndex(low, pa) <= i < EndIndex(low, pa, size) ==> s.flags[i] == 0
    ensures RangeOp(s, low, pa, size, 1).0 == 0
  {
  }

  /** The pages between an aligned LOW_MEMORY and HIGH_MEMORY, exactly. */
  function PagesBelowHigh(low: nat): (n: nat)
    requires Aligned(low) && low <= HIGH_MEMORY0
    ensures n * PAGE_SIZE == HIGH_MEMORY0 - low
  {
    var k := low / PAGE_SIZE;
    assert HIGH_MEMORY0 - low == (0x3c100 - k) * PAGE_SIZE;
    (HIGH_MEMORY0 - low) / PAGE_SIZE
  }

  /** The map with the last MALLOC_PAGES of the first `pages` pages allocated. */
  function HeapReserved(s: MapState, pages: nat): MapState
    requires MALLOC_PAGES <= pages <= |s.flags|
  {
    MapState(Filled(s.flags, pages - MALLOC_PAGES, pages, 1), s.used + MALLOC_PAGES)
  }

  /**
    The reservation paging_init makes for the kernel heap: the last
    MALLOC_PAGES pages below HIGH_MEMORY, all free beforehand, become
    allocated and the counter grows by MALLOC_PAGES.
  */
  lemma MallocReservation(s: MapState, low: nat, pages: nat)
    requires Aligned(low) && low <= HIGH_MEMORY0
    requires pages == PagesBelowHigh(low) && MALLOC_PAGES < pages <= |s.flags|
    requires forall i :: pages - MALLOC_PAGES <= i < pages ==> s.flags[i] == 0
    ensures RegionInMap(|s.flags|, low, HIGH_MEMORY0 - MALLOC_PAGES * PAGE_SIZE, MALLOC_PAGES * PAGE_SIZE)
    ensures RangeOp(s, low, HIGH_MEMORY0 - MALLOC_PAGES * PAGE_SIZE, MALLOC_PAGES * PAGE_SIZE, 1) == (0, HeapReserved(s, pages))
  {
    var base, size := HIGH_MEMORY0 - MALLOC_PAGES * PAGE_SIZE, MALLOC_PAGES * PAGE_SIZE;
    assert low + MALLOC_PAGES * PAGE_SIZE <= HIGH_MEMORY0;
    MallocRegionIndexes(low);
    FreeRegionReserves(s, low, base, size);
    RangeOpSucceeds(s, low, base, size, 1);
  }

  // ---------------------------------------------------------------------
  // The allocator's state

  class PageAllocator {
    /** mem_map: MAX_PAGING_PAGES flag bytes. */
    const memMap: array<byte>
    /** LOW_MEMORY: the first page above the kernel image. */
    var lowMemory: nat
    /** PAGING_PAGES: pages from LOW_MEMORY up to HIGH_MEMORY0. */
    var pagingPages: nat
    /** paging_pages_used / paging_pages_total. */
    var used: int
    var total: int

    ghost function State(): MapState
      reads `used, memMap
    {
      MapState(memMap[..], used)
    }

    ghost predicate Valid()
      reads this, memMap
    {
      && Consistent(State())
      && Aligned(lowMemory)
      && pagingPages <= memMap.Length
    }

    /** The zero-initialised statics, with a map of MAX_PAGING_PAGES entries. */
    constructor (physSize: nat)
      requires Aligned(physSize)
      ensures Valid()
      ensures fresh(memMap) && memMap.Length == MaxPagingPages(physSize, RAMDISK_SIZE)
      ensures forall i :: 0 <= i < memMap.Length ==> memMap[i] == 0
      ensures used == 0 && total == 0 && lowMemory == 0 && pagingPages == 0
    {
      memMap := new byte[MaxPagingPages(physSize, RAMDISK_SIZE)](_ => 0);
      lowMemory, pagingPages, used, total := 0, 0, 0, 0;
      new;
      CountUniform(memMap[..], 0);
    }

    /**
      get_free_page: marks the lowest free page below the malloc region and
      returns its address, or returns 0 with nothing changed.
    */
    method GetFreePage() returns (page: nat, ghost index: int)
      requires Valid()
      requires MALLOC_PAGES <= pagingPages
      modifies memMap, `used
      ensures Valid()
      ensures index == FirstFree(old(memMap[..]), 0, pagingPages - MALLOC_PAGES)
      ensures index == -1 ==> page == 0 && State() == old(State())
      ensures index != -1 ==> page == lowMemory + index * PAGE_SIZE && State() == Allocated(old(State()), index)
    {
      var i := 0;
      while i < pagingPages - MALLOC_PAGES
        invariant i <= pagingPages - MALLOC_PAGES
        invariant forall j :: 0 <= j < i ==> memMap[j] != 0
      {
        if memMap[i] == 0 {
          AllocatedKeepsConsistent(State(), i);
          memMap[i] := 1;
          used := used + 1;
          return lowMemory + i * PAGE_SIZE, i;
        }
        i := i + 1;
      }
      return 0, -1;
    }

    /** free_page(p): clears the flag of the page at physical address p. */
    method FreePage(p: nat)
      requires Valid()
      requires lowMemory <= p && (p - lowMemory) / PAGE_SIZE < memMap.Length
      requires memMap[(p - lowMemory) / PAGE_SIZE] == 1
      modifies memMap, `used
      ensures Valid()
      ensures State() == Released(old(State()), (p - lowMemory) / PAGE_SIZE)
    {
      var i := (p - lowMemory) / PAGE_SIZE;
      ReleasedKeepsConsistent(State(), i);
      memMap[i] := 0;
      used := used - 1;
    }

    /** The checking loop of _reserve_phys_region: does a page in [lo, hi) already hold `v`? */
    method FindClash(lo: nat, hi: nat, v: byte) returns (found: bool)
      requires lo <= hi <= memMap.Length
      ensures found == Clash(memMap[..], lo, hi, v)
    {
      var i := lo;
      while i < hi
        invariant lo <= i <= hi
        invariant forall j :: lo <= j < i ==> memMap[j] != v
      {
        if memMap[i] == v {
          return true;
        }
        i := i + 1;
      }
      return false;
    }

    /** The setting loop of _reserve_phys_region. */
    method Fill(lo: nat, hi: nat, v: byte)
      requires lo <= hi <= memMap.Length
      modifies memMap
      ensures memMap[..] == Filled(old(memMap[..]), lo, hi, v)
    {
      ghost var m0 := memMap[..];
      var i := lo;
      while i < hi
        invariant lo <= i <= hi
        invariant memMap[..] == Filled(m0, lo, i, v)
      {
        memMap[i] := v;
        i := i + 1;
      }
    }

    /**
      _reserve_phys_region(pa, size, v), with alloc_lock held: first checks
      the whole range, then sets it.
    */
    method ReserveLocked(pa: nat, size: nat, v: byte) returns (ret: int)
      requires Valid() && v <= 1
      requires RegionInMap(memMap.Length, lowMemory, pa, size)
      modifies memMap, `used
      ensures Valid()
      ensures (ret, State()) == RangeOp(old(State()), lowMemory, pa, size, v)
    {
      ghost var s0 := State();
      if pa % PAGE_SIZE != 0 || size % PAGE_SIZE != 0 {
        return -1;
      }
      var lo := (pa - lowMemory) / PAGE_SIZE;
      var hi := (pa - lowMemory + size) / PAGE_SIZE;
      var clash := FindClash(lo, hi, v);
      if clash {
        return -2;
      }
      Fill(lo, hi, v);
      if v == 1 {
        used := used + size / PAGE_SIZE;
      } else {
        used := used - size / PAGE_SIZE;
      }
      RangeOpSucceeds(s0, lowMemory, pa, size, v);
      ghost var s1 := RangeOp(s0, lowMemory, pa, size, v).1;
      RangeOpKeepsConsistent(s0, lowMemory, pa, size, v);
      assert memMap[..] == s1.flags && used == s1.used;
      return 0;
    }

    /** reserve_phys_region: marks a free region allocated. */
    method ReservePhysRegion(pa: nat, size: nat) returns (ret: int)
      requires Valid()
      requires RegionInMap(memMap.Length, lowMemory, pa, size)
      modifies memMap, `used
      ensures Valid()
      ensures (ret, State()) == RangeOp(old(State()), lowMemory, pa, size, 1)
    {
      ret := ReserveLocked(pa, size, 1);
    }

    /** free_phys_region: marks an allocated region free. */
    method FreePhysRegion(pa: nat, size: nat) returns (ret: int)
      requires Valid()
      requires RegionInMap(memMap.Length, lowMemory, pa, size)
      modifies memMap, `used
      ensures Valid()
      ensures (ret, State()) == RangeOp(old(State()), lowMemory, pa, size, 0)
    {
      ret := ReserveLocked(pa, size, 0);
    }

    /**
      paging_init: places LOW_MEMORY at the first page above the kernel
      image, counts the pages up to HIGH_MEMORY0, and reserves the top
      MALLOC_PAGES of them for malloc().
    */
    method PagingInit(kernelEnd: nat) returns (pages: nat)
      requires Valid()
      requires RoundUpNat(kernelEnd) <= HIGH_MEMORY0
      requires 2 * MALLOC_PAGES < PagesBelowHigh(RoundUpNat(kernelEnd)) <= memMap.Length
      requires forall i :: PagesBelowHigh(RoundUpNat(kernelEnd)) - MALLOC_PAGES <= i < PagesBelowHigh(RoundUpNat(kernelEnd)) ==> memMap[i] == 0
      modifies this, memMap
      ensures Valid()
      ensures lowMemory == RoundUpNat(kernelEnd)
      ensures pages == pagingPages && pages * PAGE_SIZE == HIGH_MEMORY0 - lowMemory
      ensures total == pages - MALLOC_PAGES
      ensures State() == HeapReserved(old(State()), pages)
    {
      lowMemory := RoundUpNat(kernelEnd);
      pagingPages := PagesBelowHigh(lowMemory);
      ReserveMalloc();
      total := pagingPages - MALLOC_PAGES;
      return pagingPages;
    }

    /** The heap reservation of paging_init: the last MALLOC_PAGES paging pages. */
    method ReserveMalloc()
      requires Valid()
      requires lowMemory <= HIGH_MEMORY0 && MALLOC_PAGES < pagingPages
      requires pagingPages == PagesBelowHigh(lowMemory)
      requires forall i :: pagingPages - MALLOC_PAGES <= i < pagingPages ==> memMap[i] == 0
      modifies memMap, `used
      ensures Valid()
      ensures State() == HeapReserved(old(State()), pagingPages)
    {
      ghost var s0 := State();
      var base, size := HIGH_MEMORY0 - MALLOC_PAGES * PAGE_SIZE, MALLOC_PAGES * PAGE_SIZE;
      MallocReservation(s0, lowMemory, pagingPages);
      ghost var heap := HeapReserved(s0, pagingPages);
      assert RangeOp(s0, lowMemory, base, size, 1) == (0, heap);
      var ret := ReserveLocked(base, size, 1);
      assert State() == heap;
    }

    /**
      reserve_phys_region followed by free_phys_region on the same region:
      when the reservation succeeds, the release succeeds and nothing has
      changed.
    */
    method ReserveThenFree(pa: nat, size: nat) returns (r1: int, r2: int)
      requires Valid()
      requires RegionInMap(memMap.Length, lowMemory, pa, size)
      modifies memMap, `used
      ensures Valid()
      ensures r1 == 0 ==> r2 == 0 && State() == old(State())
    {
      ghost var s0 := State();
      r1 := ReservePhysRegion(pa, size);
      r2 := FreePhysRegion(pa, size);
      if r1 == 0 {
        ReserveThenFreeRestores(s0, lowMemory, pa, size);
      }
    }
  }
}
