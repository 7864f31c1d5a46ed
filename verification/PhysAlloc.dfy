/**
 The early allocator, which only ever moves a base address up, and the hand-over of
 what it has left to the page allocator.
 */
module PhysAlloc {
  import opened Machine
  import opened PageAlloc

  const NR_REGIONS: nat := 256

  datatype Region = Region(base: int, size: int)

  datatype Outcome = Refused | Granted(addr: int, newBase: int)

  /** phys_alloc_aligned_safe on 64-bit addresses, each step wrapping as the registers do. */
  function AllocAligned(base: int, top: int, size: int, align: int): Outcome
    requires align > 0
  {
    var addr := Align64(base, align);
    var need := Wrap(size + Wrap(addr - base));
    if top - base < need then Refused else Granted(addr, Wrap(base + need))
  }

  /** The padding and the size still fit a 64-bit word together. */
  predicate NoWrap(base: int, size: int, align: int)
    requires align > 0
  {
    size + (AlignUp(base, align) - base) < TWO64
  }

  /** The grant is aligned, starts at or above the old base and ends at or below the new one. */
  ghost predicate Sound(base: int, top: int, size: int, align: int, addr: int, newBase: int)
    requires align > 0
  {
    addr % align == 0 && base <= addr && addr + size == newBase <= top
  }

  /** The padding to the next aligned address survives the wrap of that address to 0. */
  lemma Padding(base: int, align: int)
    requires 0 <= base < TWO64 && IsAlignment(align)
    ensures var up := AlignUp(base, align);
            base <= up <= TWO64 && up < base + align && up % align == 0
            && Align64(base, align) == (if up == TWO64 then 0 else up) && Wrap(Align64(base, align) - base) == up - base
  {
    AlignUpProps(base, align);
    Align64IsWrapped(base, align);
    WrapCases(AlignUp(base, align));
    WrapCases(Align64(base, align) - base);
  }

  /** A grant is sound exactly when padding plus size did not wrap. */
  lemma GrantSoundIffNoWrap(base: int, top: int, size: int, align: int)
    requires 0 <= base < top < TWO64 && 0 <= size < TWO64 && IsAlignment(align)
    requires AllocAligned(base, top, size, align).Granted?
    ensures var Granted(addr, newBase) := AllocAligned(base, top, size, align);
            Sound(base, top, size, align, addr, newBase) <==> NoWrap(base, size, align)
  {
    Padding(base, align);
    var pad := AlignUp(base, align) - base;
    SumSoundIff(base, top, size, pad);
  }

  /** The same of the numbers alone: the block starts at `base + pad`, or at 0 when that is 2^64. */
  lemma SumSoundIff(base: int, top: int, size: int, pad: int)
    requires 0 <= base < top < TWO64 && 0 <= size < TWO64 && 0 <= pad < TWO64 && base + pad <= TWO64
    requires Wrap(size + pad) <= top - base
    ensures var addr, newBase := if base + pad == TWO64 then 0 else base + pad, Wrap(base + Wrap(size + pad));
            base <= addr && addr + size == newBase <= top <==> size + pad < TWO64
  {
    WrapCases(size + pad);
    WrapCases(base + Wrap(size + pad));
  }

  /** A refusal is right: when nothing wraps, the aligned block does not fit below `top`. */
  lemma RefusedOnlyWhenFull(base: int, top: int, size: int, align: int)
    requires 0 <= base < top < TWO64 && 0 <= size < TWO64 && IsAlignment(align) && NoWrap(base, size, align)
    ensures AllocAligned(base, top, size, align).Refused? <==> top < AlignUp(base, align) + size
  {
    Padding(base, align);
    WrapCases(size + (AlignUp(base, align) - base));
  }

  /** The wrap is reachable: a size near 2^64 is granted although nothing that large exists. */
  lemma HugeSizeIsGranted()
    ensures AllocAligned(0x1010, 0x9000, TWO64 - 16, 0x20) == Granted(0x1020, 0x1010)
  {
  }

  /** Disjoint regions in the order they were taken, all between `start` and `base`. */
  ghost predicate Stacked(start: int, base: int, taken: seq<Region>) {
    && start <= base
    && (forall i :: 0 <= i < |taken| ==> start <= taken[i].base && 0 <= taken[i].size && taken[i].base + taken[i].size <= base)
    && forall i, j :: 0 <= i < j < |taken| ==> taken[i].base + taken[i].size <= taken[j].base
  }

  class EarlyAllocator {
    var base: int
    var top: int
    var regions: seq<Region>         // the log, at most NR_REGIONS long
    ghost var start: int
    ghost var taken: seq<Region>     // every region given out, logged or not

    ghost predicate Valid()
      reads this
    {
      && 0 <= start && base <= top < TWO64 && Stacked(start, base, taken)
      && regions == taken[..if |taken| < NR_REGIONS then |taken| else NR_REGIONS]
    }

    /** phys_alloc_init */
    constructor (base_addr: int, size: int)
      requires 0 <= base_addr && 0 <= size && base_addr + size < TWO64
      ensures Valid() && base == start == base_addr && top == base_addr + size && taken == []
    {
      base, top, regions, start, taken := base_addr, base_addr + size, [], base_addr, [];
    }

    /** early_memalign; 0 stands for NULL. */
    method Memalign(align: int, size: int) returns (addr: int)
      requires Valid()
      requires IsAlignment(align) && 0 <= size < TWO64
      requires base < top
      requires NoWrap(base, size, align)
      modifies this
      ensures Valid() && start == old(start) && top == old(top)
      ensures top < AlignUp(old(base), align) + size ==> addr == 0 && base == old(base) && taken == old(taken)
      ensures AlignUp(old(base), align) + size <= top ==>
                && addr % align == 0 && old(base) <= addr && addr + size == base
                && taken == old(taken) + [Region(addr, size)]
    {
      RefusedOnlyWhenFull(base, top, size, align);
      match AllocAligned(base, top, size, align)
      case Refused =>
        addr := 0;
      case Granted(a, newBase) =>
        GrantSoundIffNoWrap(base, top, size, align);
        addr, base := a, newBase;
        if |regions| < NR_REGIONS {
          regions := regions + [Region(addr, size)];
        }
        taken := taken + [Region(addr, size)];
    }

    /** phys_alloc_get_unused: the rest of the memory becomes one last region. */
    method GetUnused() returns (p_base: int, p_top: int)
      requires Valid()
      requires base == top || |regions| < NR_REGIONS
      modifies this
      ensures Valid() && base == top == old(top) && start == old(start)
      ensures p_base == old(base) && p_top == old(top)
      ensures taken == if p_base == p_top then old(taken) else old(taken) + [Region(p_base, p_top - p_base)]
    {
      p_base, p_top := base, top;
      if base == top {
        return;
      }
      regions := regions + [Region(base, top - base)];
      taken := taken + [Region(base, top - base)];
      base := top;
    }
  }

  function PageFloor(x: int): int {
    x / PAGE_SIZE * PAGE_SIZE
  }

  /**
   The hand-over of setup_vm. A page allocator that holds nothing gets the whole pages of the unused region; none of them
   meets a region the early allocator gave out. One that holds pages already is left alone.
   */
  method HandOver(e: EarlyAllocator, a: PageAllocator) returns (ok: bool)
    requires e.Valid() && a.Valid()
    requires e.base == e.top || |e.regions| < NR_REGIONS
    requires e.base != e.top && a.pages == [] ==> 0 < AlignUp(e.base, PAGE_SIZE) <= PageFloor(e.top)
    modifies e, a
    ensures e.Valid() && a.Valid() && e.base == e.top == old(e.top)
    ensures ok <==> old(e.base) != old(e.top) || old(a.pages) != []
    ensures !ok || old(a.pages) != [] ==> unchanged(a)
    ensures ok && old(a.pages) == [] ==>
              var lo, hi := AlignUp(old(e.base), PAGE_SIZE), PageFloor(old(e.top));
              a.pages == Run(lo, (hi - lo) / PAGE_SIZE)
    ensures ok && old(a.pages) == [] ==> forall i, j :: 0 <= i < |old(e.taken)| && 0 <= j < |a.pages| ==>
              old(e.taken)[i].base + old(e.taken)[i].size <= a.pages[j] && a.pages[j] + PAGE_SIZE <= old(e.top)
  {
    ghost var taken := e.taken;
    var base, top := e.GetUnused();
    ok := base != top || a.freelist != 0;
    if !ok || a.freelist != 0 {
      return;
    }
    PageSizeIsAlignment();
    Align64IsWrapped(base, PAGE_SIZE);
    AlignUpProps(base, PAGE_SIZE);
    base := Align64(base, PAGE_SIZE);
    top := PageFloor(top);
    a.FreePages(base, top - base);
  }
}
