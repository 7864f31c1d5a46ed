/**
 malloc and free: a block from the backend, two header words in front of the pointer
 handed out, and the way back from that pointer to the block. The backend here is the
 virtual-range allocator, and the header words live in the frames it mapped.
 */
module Heap {
  import opened Machine
  import opened PageAlloc
  import opened PageRuns
  import opened Vmalloc

  const WORD: int := 8
  const METADATA_EXTRA: int := 16

  // ----- the layout of a block, for any backend -----

  datatype Request = Request(alignment: int, blkalign: int, size: int)

  /** What memalign asks of the backend. */
  function Plan(alignment: int, size: int, align_min: int): Request
    requires align_min > 0
  {
    var a := if alignment <= WORD then WORD else alignment;
    var s := if alignment <= WORD then size else Wrap(size + (alignment - 1));
    Request(a, if a > align_min then a else align_min, Align64(Wrap(s + METADATA_EXTRA), align_min))
  }

  /** Where memalign puts the user bytes in a block that begins at `p`. */
  function Place(p: int, alignment: int): int
    requires alignment > 0
  {
    Align64(Wrap(p + METADATA_EXTRA), alignment)
  }

  lemma NoWrapAlign(x: int, a: int)
    requires 0 <= x && IsAlignment(a) && x + a <= TWO64
    ensures Align64(x, a) == AlignUp(x, a) && AlignUp(x, a) % a == 0 && x <= AlignUp(x, a) < x + a
  {
    AlignUpProps(x, a);
    WrapCases(x + a - 1);
  }

  /** Rounding `p + 16` up costs nothing for a word-aligned `p`, and less than `a` in general. */
  lemma PlaceBounds(p: int, a: int)
    requires 0 <= p && p % WORD == 0 && IsAlignment(a) && a >= WORD && p + METADATA_EXTRA + a <= TWO64
    ensures Place(p, a) % a == 0 && Place(p, a) % WORD == 0
    ensures p + METADATA_EXTRA <= Place(p, a) < p + METADATA_EXTRA + a
    ensures a == WORD ==> Place(p, a) == p + METADATA_EXTRA
  {
    WrapCases(p + METADATA_EXTRA);
    NoWrapAlign(p + METADATA_EXTRA, a);
    if a > WORD {
      LargeAlignment(a);
      MultipleOfMultiple(Place(p, a), a, WORD);
    } else {
      WordIsAligned(p + METADATA_EXTRA);
    }
  }

  lemma WordIsAligned(x: int)
    requires x % WORD == 0
    ensures AlignUp(x, WORD) == x
  {
    DivModUnique(x + WORD - 1, WORD, x / WORD, WORD - 1);
  }

  /** What rounding the pointer can cost; a word alignment costs nothing. */
  function Slack(alignment: int): int {
    if alignment <= WORD then 0 else alignment - 1
  }

  /** The size of the block a request needs, if numbers were unbounded. */
  function Needed(alignment: int, size: int, align_min: int): int
    requires align_min > 0
  {
    AlignUp(size + Slack(alignment) + METADATA_EXTRA, align_min)
  }

  /** Rounding up commutes with wrapping: every alignment divides 2^64. */
  lemma AlignOfWrapped(x: int, a: int)
    requires IsAlignment(a)
    ensures Align64(Wrap(x), a) == Wrap(AlignUp(x, a))
  {
    AlignmentDivides(a);
    var q := x / TWO64;
    assert x == q * TWO64 + Wrap(x);
    Align64OfDivisor(Wrap(x), a);
    AlignUpShift(Wrap(x), q, a);
    ModShift(AlignUp(Wrap(x), a), q, TWO64);
  }

  lemma AlignUpShift(x: int, q: int, a: int)
    requires a > 0 && TWO64 % a == 0
    ensures AlignUp(x + q * TWO64, a) == AlignUp(x, a) + q * TWO64
  {
    var d, m, r := TWO64 / a, (x + a - 1) / a, (x + a - 1) % a;
    assert TWO64 == d * a && x + a - 1 == m * a + r;
    assert q * (d * a) == (q * d) * a && (m + q * d) * a == m * a + (q * d) * a;
    DivModUnique(x + q * TWO64 + a - 1, a, m + q * d, r);
  }

  /** The block asked of the backend is what the request needs, wrapped to 64 bits. */
  lemma PlanIsWrapped(alignment: int, size: int, align_min: int)
    requires IsAlignment(alignment) && IsAlignment(align_min) && 0 <= size < TWO64
    ensures var plan := Plan(alignment, size, align_min);
            && plan.size == Wrap(Needed(alignment, size, align_min))
            && IsAlignment(plan.alignment) && plan.alignment >= WORD && plan.alignment >= alignment
            && plan.blkalign >= align_min && plan.blkalign >= plan.alignment
            && Slack(alignment) == Slack(plan.alignment)
  {
    assert Pow2(3) == WORD;
    PlanSize(alignment, size, align_min);
  }

  lemma PlanSize(alignment: int, size: int, align_min: int)
    requires IsAlignment(align_min) && 0 <= size < TWO64
    ensures Plan(alignment, size, align_min).size == Wrap(Needed(alignment, size, align_min))
  {
    var x := size + Slack(alignment);
    var s := if alignment <= WORD then size else Wrap(size + (alignment - 1));
    WrapCases(size);
    assert s == Wrap(x);
    WrapOfSum(x, METADATA_EXTRA);
    AlignOfWrapped(x + METADATA_EXTRA, align_min);
  }

  lemma WrapOfSum(x: int, y: int)
    ensures Wrap(Wrap(x) + y) == Wrap(x + y)
  {
    assert x + y == Wrap(x) + y + x / TWO64 * TWO64;
    ModShift(Wrap(x) + y, x / TWO64, TWO64);
  }

  /** A block has room for header, slack and user bytes if and only if what is needed stays below 2^64. */
  lemma RoomIffNoWrap(alignment: int, size: int, align_min: int)
    requires IsAlignment(alignment) && IsAlignment(align_min) && 0 <= size < TWO64
    ensures var plan, need := Plan(alignment, size, align_min), size + Slack(alignment) + METADATA_EXTRA;
            && (Needed(alignment, size, align_min) < TWO64 ==> need <= plan.size < need + align_min && plan.size % align_min == 0)
            && (Needed(alignment, size, align_min) >= TWO64 ==> plan.size < size + METADATA_EXTRA)
  {
    PlanIsWrapped(alignment, size, align_min);
    AlignmentDivides(alignment);
    AlignmentDivides(align_min);
    HalfAtMost(alignment);
    HalfAtMost(align_min);
    var need := size + Slack(alignment) + METADATA_EXTRA;
    AlignUpProps(need, align_min);
    WrapUpTo3(Needed(alignment, size, align_min));
  }

  lemma HalfAtMost(a: int)
    requires IsAlignment(a)
    ensures a <= TWO63
  {
    var k: nat :| k < 64 && a == Pow2(k);
    Pow2Mono(k, 63);
    Pow2OfWord();
  }

  lemma WrapUpTo3(x: int)
    requires 0 <= x < 3 * TWO64
    ensures Wrap(x) == if x < TWO64 then x else if x < 2 * TWO64 then x - TWO64 else x - 2 * TWO64
  {
  }

  /** The pointer is aligned as asked, and the two header words and the user bytes lie inside the block without overlap. */
  ghost predicate SoundLayout(alignment: int, size: int, align_min: int, p: int)
    requires align_min > 0 && alignment > 0
  {
    var plan := Plan(alignment, size, align_min);
    var mem := Place(p, plan.alignment);
    mem % plan.alignment == 0 && p + METADATA_EXTRA <= mem && mem + size <= p + plan.size && mem % WORD == 0
  }

  /**
   For every power-of-two alignment and every size, in any word-aligned block of that size below 2^64 that the backend
   returns: the layout is sound if and only if what the request needs stays below 2^64.
   */
  lemma BlockLayout(alignment: int, size: int, align_min: int, p: int)
    requires IsAlignment(alignment) && IsAlignment(align_min) && 0 <= size < TWO64
    requires 0 <= p && p % WORD == 0 && p + METADATA_EXTRA < TWO64 && p + Plan(alignment, size, align_min).size <= TWO64
    ensures SoundLayout(alignment, size, align_min, p) <==> Needed(alignment, size, align_min) < TWO64
  {
    PlanIsWrapped(alignment, size, align_min);
    RoomIffNoWrap(alignment, size, align_min);
    var a := Plan(alignment, size, align_min).alignment;
    if Needed(alignment, size, align_min) < TWO64 {
      if a > WORD {
        LargeAlignment(a);
      }
      BelowTop(p, a, Plan(alignment, size, align_min).size);
      PlaceBounds(p, a);
    }
  }

  /** A word-aligned block with room for header and slack leaves the pointer below 2^64. */
  lemma BelowTop(p: int, a: int, blk: int)
    requires 0 <= p && p % WORD == 0 && p + METADATA_EXTRA < TWO64 && p + blk <= TWO64
    requires a % WORD == 0 && a >= WORD && METADATA_EXTRA + Slack(a) <= blk
    ensures p + METADATA_EXTRA + a <= TWO64
  {
    var q, r := p / WORD, a / WORD;
    assert p == WORD * q && a == WORD * r;
    assert WORD * (q + r + 2) == p + METADATA_EXTRA + a;
  }

  /** A request within `align_min` of 2^64 asks for an empty block, and its header goes to whatever begins at the block's address. */
  lemma EmptyBlock(alignment: int, size: int, align_min: int, p: int)
    requires IsAlignment(alignment) && alignment <= WORD && IsAlignment(align_min) && 0 <= size
    requires TWO64 - METADATA_EXTRA - align_min < size <= TWO64 - METADATA_EXTRA
    requires 0 <= p && p % WORD == 0 && p + METADATA_EXTRA + WORD <= TWO64
    ensures Plan(alignment, size, align_min).size == 0 && Place(p, WORD) - METADATA_EXTRA == p
  {
    AlignmentDivides(align_min);
    PlanIsWrapped(alignment, size, align_min);
    AlignUpProps(size + METADATA_EXTRA, align_min);
    LeastMultipleIs(size + METADATA_EXTRA, align_min);
    assert Pow2(3) == WORD;
    PlaceBounds(p, WORD);
  }

  lemma LeastMultipleIs(x: int, a: int)
    requires 0 < a < TWO64 && TWO64 % a == 0 && TWO64 - a < x <= TWO64
    ensures AlignUp(x, a) == TWO64
  {
    var q, r := TWO64 / a, x + a - 1 - TWO64;
    assert TWO64 == q * a;
    DivModUnique(x + a - 1, a, q, r);
  }

  // ----- words of virtual memory -----

  function VPage(va: int): int {
    va - va % PAGE_SIZE
  }

  lemma FloorPage(va: int, base: int)
    requires base % PAGE_SIZE == 0 && base <= va
    ensures base <= VPage(va) <= va && VPage(va) % PAGE_SIZE == 0
  {
    var q, r := va / PAGE_SIZE, base / PAGE_SIZE;
    assert VPage(va) == q * PAGE_SIZE && base == r * PAGE_SIZE;
  }

  /** The physical word behind a mapped virtual address. */
  function Phys(pt: map<int, int>, va: int): int
    requires VPage(va) in pt
  {
    pt[VPage(va)] + va % PAGE_SIZE
  }

  ghost predicate HasWord(pt: map<int, int>, mem: map<int, int>, va: int, x: int) {
    VPage(va) in pt && Phys(pt, va) in mem && mem[Phys(pt, va)] == x
  }

  /** The word at virtual address `va`: in the frame of its page of 4096 bytes, at the same place in the page. */
  ghost predicate WordIs(pt: map<int, int>, mem: map<int, int>, va: int, x: int) {
    var page := va / 4096 * 4096;
    page in pt && pt[page] + va % 4096 in mem && mem[pt[page] + va % 4096] == x
  }

  /** Distinct addresses in live pages are distinct words of memory. */
  lemma PhysInjective(live: set<int>, pt: map<int, int>, va: int, vb: int)
    requires OneFrameEach(live, pt) && VPage(va) in live && VPage(vb) in live && Phys(pt, va) == Phys(pt, vb)
    ensures va == vb
  {
    var f, g := pt[VPage(va)], pt[VPage(vb)];
    assert f % PAGE_SIZE == 0 && g % PAGE_SIZE == 0;
    assert f == g;
  }

  /** A word of a live page is no link of the free list. */
  lemma PhysNotFree(free: seq<int>, tbl: set<int>, live: set<int>, pt: map<int, int>, donated: set<int>, va: int)
    requires Pages(free) && Owners(free, tbl, live, pt, donated) && VPage(va) in live
    ensures forall i :: 0 <= i < |free| ==> free[i] != Phys(pt, va)
  {
    var f := pt[VPage(va)];
    assert f in Frames(live, pt) && f % PAGE_SIZE == 0;
    forall i | 0 <= i < |free|
      ensures free[i] != Phys(pt, va)
    {
      assert PageAddr(free[i]) && free[i] in Elems(free);
    }
  }

  // ----- live blocks -----

  /** A block the client holds: what the backend gave, and the user bytes asked for. */
  datatype Block = Block(base: int, pages: nat, user: int) {
    function Size(): int {
      pages * PAGE_SIZE
    }
  }

  ghost predicate Shaped(p: int, b: Block) {
    && b.base % PAGE_SIZE == 0 && 0 < b.pages && 0 <= b.user
    && b.base + METADATA_EXTRA <= p && p + b.user <= b.base + b.Size() && p % WORD == 0
  }

  ghost predicate Mapped(live: set<int>, b: Block) {
    Elems(Run(b.base, b.pages)) <= live
  }

  ghost predicate Headed(pt: map<int, int>, mem: map<int, int>, p: int, b: Block) {
    HasWord(pt, mem, p - METADATA_EXTRA, p - b.base) && HasWord(pt, mem, p - WORD, b.Size())
  }

  ghost predicate Apart(b: Block, c: Block) {
    b.base + b.Size() <= c.base || c.base + c.Size() <= b.base
  }

  lemma InBlock(live: set<int>, p: int, b: Block, va: int)
    requires Shaped(p, b) && Mapped(live, b) && b.base <= va < b.base + b.Size()
    ensures VPage(va) in live
  {
    FloorPage(va, b.base);
    InRun(b.base, b.pages, VPage(va));
  }

  lemma ApartRuns(p: int, b: Block, q: int, c: Block)
    requires Shaped(p, b) && Shaped(q, c) && Apart(b, c)
    ensures Elems(Run(b.base, b.pages)) !! Elems(Run(c.base, c.pages))
  {
  }

  /** Every word the pages of `live` held is still there. */
  ghost predicate Kept(live: set<int>, pt: map<int, int>, mem: map<int, int>, pt': map<int, int>, mem': map<int, int>) {
    forall va, x :: VPage(va) in live && HasWord(pt, mem, va, x) ==> HasWord(pt', mem', va, x)
  }

  lemma HeadedKept(live: set<int>, pt: map<int, int>, mem: map<int, int>, pt': map<int, int>, mem': map<int, int>, p: int, b: Block)
    requires Shaped(p, b) && Mapped(live, b) && Headed(pt, mem, p, b) && Kept(live, pt, mem, pt', mem')
    ensures Headed(pt', mem', p, b)
  {
    InBlock(live, p, b, p - METADATA_EXTRA);
    InBlock(live, p, b, p - WORD);
  }

  lemma StoreKeeps(live: set<int>, pt: map<int, int>, mem: map<int, int>, va: int, x: int)
    requires OneFrameEach(live, pt) && VPage(va) in live
    ensures HasWord(pt, mem[Phys(pt, va) := x], va, x)
    ensures forall vb, y :: vb != va && VPage(vb) in live && HasWord(pt, mem, vb, y) ==> HasWord(pt, mem[Phys(pt, va) := x], vb, y)
  {
    forall vb, y | vb != va && VPage(vb) in live && HasWord(pt, mem, vb, y)
      ensures HasWord(pt, mem[Phys(pt, va) := x], vb, y)
    {
      if Phys(pt, va) == Phys(pt, vb) {
        PhysInjective(live, pt, va, vb);
      }
    }
  }

  /** Each block is shaped, its pages are live, and its header is in memory. */
  ghost predicate AllHeaded(blocks: map<int, Block>, live: set<int>, pt: map<int, int>, mem: map<int, int>) {
    forall p :: p in blocks ==> Shaped(p, blocks[p]) && Mapped(live, blocks[p]) && Headed(pt, mem, p, blocks[p])
  }

  ghost predicate AllApart(blocks: map<int, Block>) {
    forall p, q :: p in blocks && q in blocks && p != q ==> Apart(blocks[p], blocks[q])
  }

  lemma AllHeadedKept(blocks: map<int, Block>, live: set<int>, pt: map<int, int>, mem: map<int, int>,
                      live': set<int>, pt': map<int, int>, mem': map<int, int>)
    requires AllHeaded(blocks, live, pt, mem) && live <= live' && Kept(live, pt, mem, pt', mem')
    ensures AllHeaded(blocks, live', pt', mem')
  {
    forall p | p in blocks
      ensures Headed(pt', mem', p, blocks[p])
    {
      HeadedKept(live, pt, mem, pt', mem', p, blocks[p]);
    }
  }

  /** Blocks other than `ptr` stay mapped and headed when the pages of `ptr` are no longer live. */
  lemma OthersKept(blocks: map<int, Block>, ptr: int, live: set<int>, pt: map<int, int>, mem: map<int, int>, mem': map<int, int>)
    requires ptr in blocks && AllHeaded(blocks, live, pt, mem) && AllApart(blocks)
    requires Kept(live - Elems(Run(blocks[ptr].base, blocks[ptr].pages)), pt, mem, pt, mem')
    ensures AllHeaded(blocks - {ptr}, live - Elems(Run(blocks[ptr].base, blocks[ptr].pages)), pt, mem')
  {
    var live' := live - Elems(Run(blocks[ptr].base, blocks[ptr].pages));
    forall p | p in blocks && p != ptr
      ensures Mapped(live', blocks[p]) && Headed(pt, mem', p, blocks[p])
    {
      ApartRuns(p, blocks[p], ptr, blocks[ptr]);
      HeadedKept(live', pt, mem, pt, mem', p, blocks[p]);
    }
  }

  lemma BaseIsLive(live: set<int>, p: int, b: Block)
    requires Shaped(p, b) && Mapped(live, b)
    ensures b.base in live
  {
    assert Run(b.base, b.pages)[0] == b.base;
  }

  /** A block of whole pages that has room for header, slack and user bytes. */
  ghost predicate Fits(b: Block, alignment: int) {
    && 0 < b.base && b.base % PAGE_SIZE == 0 && 0 < b.pages && b.base + b.Size() <= TWO64
    && IsAlignment(alignment) && WORD <= alignment && 0 <= b.user
    && b.user + METADATA_EXTRA + (if alignment == WORD then 0 else alignment - 1) <= b.Size()
    && METADATA_EXTRA + alignment <= b.Size()
  }

  /** The number of pages memalign asks for. */
  function PlanPages(alignment: int, size: int): nat {
    Plan(alignment, size, PAGE_SIZE).size / PAGE_SIZE
  }

  lemma PlanSmall(alignment: int, size: int)
    requires IsAlignment(alignment) && 0 <= size && size + alignment + METADATA_EXTRA + PAGE_SIZE <= TWO64
    ensures var plan := Plan(alignment, size, PAGE_SIZE);
            && IsAlignment(plan.alignment) && plan.alignment >= WORD && plan.size % PAGE_SIZE == 0
            && size + METADATA_EXTRA + (if plan.alignment == WORD then 0 else plan.alignment - 1) <= plan.size
            && plan.size < size + alignment + METADATA_EXTRA + PAGE_SIZE
  {
    PageSizeIsAlignment();
    AlignmentDivides(alignment);
    PlanIsWrapped(alignment, size, PAGE_SIZE);
    RoomIffNoWrap(alignment, size, PAGE_SIZE);
    AlignUpProps(size + Slack(alignment) + METADATA_EXTRA, PAGE_SIZE);
  }

  lemma PlanFits(alignment: int, size: int, top: int)
    requires IsAlignment(alignment) && 0 <= size && size + alignment + METADATA_EXTRA + PAGE_SIZE <= TWO64
    ensures var plan := Plan(alignment, size, PAGE_SIZE);
            && 0 < plan.size == PlanPages(alignment, size) * PAGE_SIZE
            && plan.size < size + alignment + METADATA_EXTRA + PAGE_SIZE
    ensures top % PAGE_SIZE == 0 && PlanPages(alignment, size) * PAGE_SIZE < top <= TWO64 ==>
              var n := PlanPages(alignment, size);
              Fits(Block(top - n * PAGE_SIZE, n, size), Plan(alignment, size, PAGE_SIZE).alignment)
  {
    PlanSmall(alignment, size);
    var plan := Plan(alignment, size, PAGE_SIZE);
    if plan.alignment > WORD {
      LargeAlignment(plan.alignment);
    }
    Room(plan.size, plan.alignment);
  }

  /** The pages of a block hold two words, the bytes asked for and one less than an alignment above 8, and no page more. */
  lemma PlanPagesCover(alignment: int, size: int)
    requires IsAlignment(alignment) && 0 <= size && size + alignment + 16 + 4096 <= TWO64
    ensures var need := 16 + size + (if alignment <= 8 then 0 else alignment - 1);
            need <= PlanPages(alignment, size) * 4096 < need + 4096
  {
    PageSizeIsAlignment();
    PlanFits(alignment, size, 0);
    RoomIffNoWrap(alignment, size, PAGE_SIZE);
    AlignUpProps(size + Slack(alignment) + METADATA_EXTRA, PAGE_SIZE);
  }

  lemma Room(blk: int, a: int)
    requires blk % PAGE_SIZE == 0 && METADATA_EXTRA + (if a == WORD then 0 else a - 1) <= blk && a % WORD == 0
    ensures METADATA_EXTRA + a <= blk
  {
  }

  lemma WholeBlock(n: nat)
    ensures n * PAGE_SIZE / PAGE_SIZE == n && n * PAGE_SIZE % PAGE_SIZE == 0 && (n < TWO32 ==> PagesOf(n * PAGE_SIZE) == n)
  {
    if n < TWO32 {
      WrapCases(n * PAGE_SIZE + PAGE_SIZE - 1);
    }
  }

  lemma SmallAlignments(a: int)
    requires IsAlignment(a) && a <= WORD
    ensures WORD % a == 0
  {
    var k: nat :| k < 64 && a == Pow2(k);
    assert Pow2(4) == 16;
    if k > 3 {
      Pow2Mono(4, k);
    } else {
      assert Pow2(0) == 1 && Pow2(1) == 2 && Pow2(2) == 4 && Pow2(3) == 8;
      assert k == 0 || k == 1 || k == 2 || k == 3;
    }
  }

  lemma AlignedAsAsked(alignment: int, size: int, ptr: int)
    requires IsAlignment(alignment) && ptr % Plan(alignment, size, PAGE_SIZE).alignment == 0
    ensures ptr % alignment == 0
  {
    if alignment <= WORD {
      SmallAlignments(alignment);
      MultipleOfMultiple(ptr, WORD, alignment);
    }
  }

  /** A headed block below every other one joins them. */
  lemma AddBlock(blocks: map<int, Block>, ptr: int, b: Block, live: set<int>, pt: map<int, int>, mem: map<int, int>)
    requires AllHeaded(blocks, live, pt, mem) && AllApart(blocks)
    requires Shaped(ptr, b) && Mapped(live, b) && Headed(pt, mem, ptr, b)
    requires forall q :: q in blocks ==> b.base + b.Size() <= blocks[q].base
    ensures ptr !in blocks && AllHeaded(blocks[ptr := b], live, pt, mem) && AllApart(blocks[ptr := b])
  {
  }

  lemma KeptByMapping(live: set<int>, pt: map<int, int>, mem: map<int, int>, pt': map<int, int>)
    requires forall v :: v in live ==> v in pt' && (v in pt ==> pt'[v] == pt[v])
    ensures Kept(live, pt, mem, pt', mem)
  {
  }

  lemma KeptByFreeing(free: seq<int>, tbl: set<int>, live: set<int>, pt: map<int, int>, donated: set<int>,
                      mem: map<int, int>, mem': map<int, int>)
    requires Pages(free) && Owners(free, tbl, live, pt, donated)
    requires forall a :: a in mem && a !in free ==> a in mem' && mem'[a] == mem[a]
    ensures Kept(live, pt, mem, pt, mem')
  {
    forall va, x | VPage(va) in live && HasWord(pt, mem, va, x)
      ensures HasWord(pt, mem', va, x)
    {
      PhysNotFree(free, tbl, live, pt, donated, va);
    }
  }

  /** The pages that came onto the list are the frames of the range, and no others. */
  lemma FreedFrames(free: seq<int>, free': seq<int>, tbl: set<int>, live: set<int>, pt: map<int, int>, donated: set<int>, r: set<int>)
    requires Owners(free, tbl, live, pt, donated) && Owners(free', tbl, live - r, pt, donated) && r <= live
    ensures Elems(free') == Elems(free) + Frames(r, pt)
  {
    assert Frames(live, pt) == Frames(live - r, pt) + Frames(r, pt);
    assert Frames(live - r, pt) !! Frames(r, pt);
  }

  class Heap {
    const vm: Vm
    ghost var blocks: map<int, Block>   // live pointers

    ghost predicate Valid()
      reads this, vm, vm.alloc
    {
      vm.Valid() && AllHeaded(blocks, vm.live, vm.pt, vm.alloc.mem) && AllApart(blocks)
    }

    constructor (v: Vm)
      requires v.Valid()
      ensures Valid() && vm == v && blocks == map[]
    {
      vm, blocks := v, map[];
    }

    /** A store to virtual memory: one word changes and no other live word does. */
    method Store(va: int, x: int)
      requires vm.Valid() && VPage(va) in vm.live
      modifies vm.alloc`mem
      ensures vm.Valid() && HasWord(vm.pt, vm.alloc.mem, va, x)
      ensures forall vb, y :: vb != va && VPage(vb) in vm.live && HasWord(vm.pt, old(vm.alloc.mem), vb, y) ==>
                HasWord(vm.pt, vm.alloc.mem, vb, y)
    {
      var a := vm.alloc;
      PhysNotFree(a.pages, vm.tbl, vm.live, vm.pt, vm.donated, va);
      StoreKeeps(vm.live, vm.pt, a.mem, va, x);
      a.mem := a.mem[Phys(vm.pt, va) := x];
      ChainFrame(old(a.mem), a.mem, a.freelist, a.pages);
    }

    method Load(va: int) returns (x: int)
      requires vm.Valid() && VPage(va) in vm.live && exists y :: HasWord(vm.pt, vm.alloc.mem, va, y)
      ensures HasWord(vm.pt, vm.alloc.mem, va, x)
    {
      x := vm.alloc.mem[Phys(vm.pt, va)];
    }

    /** A client's store to a word of its own block. */
    method Write(ptr: int, va: int, x: int)
      requires Valid() && ptr in blocks && ptr <= va < ptr + blocks[ptr].user && va % WORD == 0
      modifies vm.alloc`mem
      ensures Valid()
      ensures HasWord(vm.pt, vm.alloc.mem, va, x)
      ensures forall vb, y :: vb != va && VPage(vb) in vm.live && HasWord(vm.pt, old(vm.alloc.mem), vb, y) ==>
                HasWord(vm.pt, vm.alloc.mem, vb, y)
    {
      InBlock(vm.live, ptr, blocks[ptr], va);
      Store(va, x);
      forall p | p in blocks
        ensures Headed(vm.pt, vm.alloc.mem, p, blocks[p])
      {
        assert p != ptr ==> Apart(blocks[p], blocks[ptr]);
        InBlock(vm.live, p, blocks[p], p - METADATA_EXTRA);
        InBlock(vm.live, p, blocks[p], p - WORD);
      }
    }

    /** The backend call of memalign: a fresh range below every live block, which disturbs none of them. */
    method CutRange(blk: nat, ghost n: nat) returns (p: int)
      requires Valid()
      requires blk == n * PAGE_SIZE && 0 < n < TWO32
      requires vm.vtop - n * PAGE_SIZE >= vm.floor
      requires PagesNeeded(vm.tables, vm.levels, vm.vtop - n * PAGE_SIZE, n) <= |vm.alloc.pages|
      modifies vm, vm.alloc`freelist, vm.alloc`pages
      ensures Valid() && p == vm.vtop == old(vm.vtop) - n * PAGE_SIZE
      ensures forall user :: Mapped(vm.live, Block(p, n, user))
      ensures old(vm.live) <= vm.live && forall v :: v in old(vm.live) ==> old(vm.vtop) <= v
      ensures AllHeaded(blocks, old(vm.live), vm.pt, vm.alloc.mem)
      ensures Kept(old(vm.live), old(vm.pt), vm.alloc.mem, vm.pt, vm.alloc.mem)
    {
      ghost var live, pt := vm.live, vm.pt;
      WholeBlock(n);
      p := vm.VmMemalign(blk);
      KeptByMapping(live, pt, vm.alloc.mem, vm.pt);
      AllHeadedKept(blocks, live, pt, vm.alloc.mem, live, vm.pt, vm.alloc.mem);
    }

    /** Where the user bytes go in the block at `p`. */
    method PlaceIn(p: int, alignment: int, ghost b: Block) returns (ptr: int)
      requires Fits(b, alignment) && p == b.base
      ensures ptr % alignment == 0 && Shaped(ptr, b)
      ensures p + 16 <= ptr < p + 16 + alignment && (alignment == 8 ==> ptr == p + 16)
    {
      ptr := Place(p, alignment);
      MultipleOfMultiple(p, PAGE_SIZE, WORD);
      PlaceBounds(p, alignment);
    }

    /** The two header stores, into a block that no page of `live` belongs to. */
    method WriteHeader(ptr: int, b: Block, ghost live: set<int>)
      requires vm.Valid() && Shaped(ptr, b) && Mapped(vm.live, b) && live <= vm.live
      requires forall v :: v in live ==> b.base + b.Size() <= v
      modifies vm.alloc`mem
      ensures vm.Valid() && Headed(vm.pt, vm.alloc.mem, ptr, b)
      ensures Kept(live, vm.pt, old(vm.alloc.mem), vm.pt, vm.alloc.mem)
    {
      InBlock(vm.live, ptr, b, ptr - METADATA_EXTRA);
      InBlock(vm.live, ptr, b, ptr - WORD);
      Store(ptr - METADATA_EXTRA, ptr - b.base);
      Store(ptr - WORD, b.Size());
    }

    /** The block gets its header and joins the live ones. */
    method Adopt(ptr: int, b: Block, ghost live: set<int>)
      requires Valid() && Shaped(ptr, b) && Mapped(vm.live, b) && live <= vm.live
      requires forall v :: v in live ==> b.base + b.Size() <= v
      requires AllHeaded(blocks, live, vm.pt, vm.alloc.mem)
      modifies this`blocks, vm.alloc`mem
      ensures Valid() && ptr !in old(blocks) && blocks == old(blocks)[ptr := b]
      ensures Kept(live, vm.pt, old(vm.alloc.mem), vm.pt, vm.alloc.mem)
    {
      forall q | q in blocks
        ensures b.base + b.Size() <= blocks[q].base
      {
        BaseIsLive(live, q, blocks[q]);
      }
      WriteHeader(ptr, b, live);
      AllHeadedKept(blocks, live, vm.pt, old(vm.alloc.mem), vm.live, vm.pt, vm.alloc.mem);
      AddBlock(blocks, ptr, b, vm.live, vm.pt, vm.alloc.mem);
      blocks := blocks[ptr := b];
    }

    /** Two words before a pointer the block's slack is stored, and one word before it the size in bytes of its pages. */
    lemma HeaderWords(ptr: int)
      requires Valid() && ptr in blocks
      ensures WordIs(vm.pt, vm.alloc.mem, ptr - 16, ptr - blocks[ptr].base)
      ensures WordIs(vm.pt, vm.alloc.mem, ptr - 8, blocks[ptr].pages * 4096)
    {
      assert HasWord(vm.pt, vm.alloc.mem, ptr - 16, ptr - blocks[ptr].base);
      assert HasWord(vm.pt, vm.alloc.mem, ptr - 8, blocks[ptr].pages * 4096);
    }

    /** memalign on vmalloc_ops. */
    method Memalign(alignment: int, size: int) returns (ptr: int)
      requires Valid()
      requires IsAlignment(alignment) && alignment <= PAGE_SIZE
      requires 0 <= size && size + alignment + METADATA_EXTRA + PAGE_SIZE < TWO32 * PAGE_SIZE
      requires var n := PlanPages(alignment, size);
               && vm.vtop - n * PAGE_SIZE >= vm.floor
               && PagesNeeded(vm.tables, vm.levels, vm.vtop - n * PAGE_SIZE, n) <= |vm.alloc.pages|
      modifies this`blocks, vm, vm.alloc
      ensures Valid()
      ensures ptr % alignment == 0 && ptr !in old(blocks)
      ensures if alignment <= 8 then ptr == vm.vtop + 16 else vm.vtop + 16 <= ptr < vm.vtop + 16 + alignment
      ensures var n := PlanPages(alignment, size);
              vm.vtop == old(vm.vtop) - n * PAGE_SIZE && blocks == old(blocks)[ptr := Block(vm.vtop, n, size)]
      ensures Kept(old(vm.live), old(vm.pt), old(vm.alloc.mem), vm.pt, vm.alloc.mem)
    {
      PlanFits(alignment, size, vm.vtop);
      var plan := Plan(alignment, size, PAGE_SIZE);
      var n := PlanPages(alignment, size);
      ghost var live := vm.live;
      var p := CutRange(plan.size, n);
      ptr := PlaceIn(p, plan.alignment, Block(p, n, size));
      Adopt(ptr, Block(p, n, size), live);
      AlignedAsAsked(alignment, size, ptr);
    }

    /** free on vmalloc_ops: the header leads back to exactly the block that was allocated. */
    method Free(ptr: int)
      requires Valid() && ptr in blocks
      modifies this`blocks, vm`live, vm.alloc
      ensures Valid()
      ensures blocks == old(blocks) - {ptr}
      ensures var b := old(blocks)[ptr];
              && vm.live == old(vm.live) - Elems(Run(b.base, b.pages))
              && Elems(vm.alloc.pages) == old(Elems(vm.alloc.pages)) + Frames(Elems(Run(b.base, b.pages)), vm.pt)
      ensures Kept(vm.live, vm.pt, old(vm.alloc.mem), vm.pt, vm.alloc.mem)
    {
      ghost var b := blocks[ptr];
      InBlock(vm.live, ptr, b, ptr - METADATA_EXTRA);
      InBlock(vm.live, ptr, b, ptr - WORD);
      var slack := Load(ptr - METADATA_EXTRA);
      var base := ptr - slack;
      var sz := Load(ptr - WORD);
      assert base == b.base && sz == b.Size();
      WholeBlock(b.pages);
      vm.VmFree(base, sz);
      KeptByFreeing(vm.alloc.pages, vm.tbl, vm.live, vm.pt, vm.donated, old(vm.alloc.mem), vm.alloc.mem);
      OthersKept(blocks, ptr, old(vm.live), vm.pt, old(vm.alloc.mem), vm.alloc.mem);
      FreedFrames(old(vm.alloc.pages), vm.alloc.pages, vm.tbl, old(vm.live), vm.pt, vm.donated, Elems(Run(b.base, b.pages)));
      blocks := blocks - {ptr};
    }
  }
}
