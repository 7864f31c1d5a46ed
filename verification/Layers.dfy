/** The allocator stack as setup_vm joins it: early allocations below, mapped frames above. */
module Layers {
  import opened Machine
  import opened PageAlloc
  import opened PageRuns
  import opened PhysAlloc
  import opened Vmalloc
  import opened Heap

  /** Every early allocation ends at or before each of these pages. */
  ghost predicate Below(taken: seq<Region>, pages: set<int>) {
    forall i, q :: 0 <= i < |taken| && q in pages ==> taken[i].base + taken[i].size <= q
  }

  lemma BelowElems(taken: seq<Region>, pages: seq<int>)
    requires forall i, j :: 0 <= i < |taken| && 0 <= j < |pages| ==> taken[i].base + taken[i].size <= pages[j]
    ensures Below(taken, Elems(pages))
  {
    forall i, q | 0 <= i < |taken| && q in Elems(pages) ensures taken[i].base + taken[i].size <= q {
      var j :| 0 <= j < |pages| && pages[j] == q;
    }
  }

  /** setup_mmu takes pages off the list for the tables of the identity map. */
  method TakeTables(a: PageAllocator, nr: nat)
    requires a.Valid()
    modifies a`freelist, a`pages
    ensures a.Valid() && a.pages == old(a.pages)[if nr < |old(a.pages)| then nr else |old(a.pages)|..]
  {
    for i := 0 to nr
      invariant a.Valid() && a.pages == old(a.pages)[if i < |old(a.pages)| then i else |old(a.pages)|..]
    {
      var _ := a.AllocPage();
    }
  }

  /**
   setup_vm on a machine whose page allocator holds nothing yet, for any number of table pages of the identity map, which
   reaches up to the end of memory or 2^32.
   */
  method SetupVm(e: EarlyAllocator, a: PageAllocator, identityTables: nat) returns (vm: Vm)
    requires e.Valid() && a.Valid() && a.pages == []
    requires e.base < e.top && |e.regions| < NR_REGIONS
    requires 0 < AlignUp(e.base, PAGE_SIZE) <= PageFloor(e.top)
    modifies e, a
    ensures fresh(vm) && vm.Valid() && vm.alloc == a && vm.donated == Elems(a.pages)
    ensures Below(old(e.taken), vm.donated)
  {
    ghost var taken := e.taken;
    ghost var end_of_memory := if PageFloor(e.top) < TWO32 then TWO32 else PageFloor(e.top);
    var _ := HandOver(e, a);
    TakeTables(a, identityTables);
    BelowElems(taken, a.pages);
    vm := new Vm(a, end_of_memory);
  }

  /**
   In every state the virtual-range allocator can be in, whatever was allocated and freed on it: no free page, no page-table
   page and no address of a mapped page meets an early allocation. `donated` is fixed when the allocator is made.
   */
  lemma EarlyMemoryIsNeverTouched(vm: Vm, taken: seq<Region>, i: nat)
    requires vm.Valid() && Below(taken, vm.donated) && i < |taken|
    ensures forall j :: 0 <= j < |vm.alloc.pages| ==> taken[i].base + taken[i].size <= vm.alloc.pages[j]
    ensures forall q :: q in vm.tbl ==> taken[i].base + taken[i].size <= q
    ensures forall va :: VPage(va) in vm.live ==> VPage(va) in vm.pt && taken[i].base + taken[i].size <= Phys(vm.pt, va)
  {
    forall j | 0 <= j < |vm.alloc.pages| ensures taken[i].base + taken[i].size <= vm.alloc.pages[j] {
      assert vm.alloc.pages[j] in Elems(vm.alloc.pages);
    }
    forall va | VPage(va) in vm.live
      ensures VPage(va) in vm.pt && taken[i].base + taken[i].size <= Phys(vm.pt, va)
    {
      assert vm.pt[VPage(va)] in vm.donated;
    }
  }
}
