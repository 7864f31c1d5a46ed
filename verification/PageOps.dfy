/** The allocation operations built on pages: page_memalign and page_free. */
module PageOps {
  import opened Machine
  import opened Bitops
  import opened PageAlloc
  import opened PageRuns

  /** is_power_of_2: one bit set and no more. */
  predicate PowerOf2(n: nat) {
    n > 0 && n == Pow2(Log2(n))
  }

  /** The order page_memalign asks for when it wants `n` pages. */
  function PageOrder(n: nat): nat {
    if PowerOf2(n) then Log2(n) else Log2(n) + 1
  }

  /** `ALIGN(size, PAGE_SIZE) >> PAGE_SHIFT`; the sum wraps for sizes near the top. */
  function PageCount(size: nat): nat {
    Wrap(size + PAGE_SIZE - 1) / PAGE_SIZE
  }

  /** The order is the least whose block holds `n` pages. */
  lemma LeastOrder(n: nat, k: nat)
    requires n > 0
    ensures n <= Pow2(k) <==> PageOrder(n) <= k
    ensures PowerOf2(n) <==> n == Pow2(PageOrder(n))
  {
    Log2Bounds(n);
    if k < PageOrder(n) {
      Pow2Mono(k, PageOrder(n) - 1);
      if PowerOf2(n) && k < Log2(n) {
        Pow2Mono(k, Log2(n) - 1);
      }
    } else {
      Pow2Mono(PageOrder(n), k);
    }
  }

  /** The block covers the request for every size that does not wrap, and for no other. */
  lemma PageCountCovers(size: nat)
    requires 0 < size < TWO64
    ensures PageCount(size) < Pow2(52)
    ensures size <= PageCount(size) * PAGE_SIZE <==> size <= TWO64 - PAGE_SIZE
    ensures size <= TWO64 - PAGE_SIZE ==> PageCount(size) * PAGE_SIZE < size + PAGE_SIZE
    ensures size > TWO64 - PAGE_SIZE ==> PageCount(size) == 0 && PageOrder(PageCount(size)) == 1
  {
    Pow2Values();
  }

  lemma OrderFits(n: nat)
    requires n < Pow2(52)
    ensures PageOrder(n) <= 52
  {
    if n > 0 {
      LeastOrder(n, 52);
    }
  }

  method PageMemalign(a: PageAllocator, size: nat) returns (p: int)
    requires a.Valid() && size < TWO64
    modifies a
    ensures a.Valid()
    ensures size == 0 ==> p == 0 && a.pages == old(a.pages)
    ensures size > 0 ==> TakesRun(old(a.pages), PageOrder(PageCount(size)), p, a.pages)
  {
    var n := PageCount(size);
    if size == 0 {
      return 0;
    }
    var order := Fls(n);
    if !PowerOf2(n) {
      order := order + 1;
    }
    PageCountCovers(size);
    OrderFits(n);
    p := a.AllocPages(order);
  }

  lemma RunSplit(p: int, n: nat, m: nat)
    requires n <= m
    ensures Run(p, m) == Run(p, n) + Run(p + n * PAGE_SIZE, m - n)
  {
  }

  /** Giving back one part of what was taken leaves exactly the other part missing. */
  lemma LostPart(free: set<int>, back: set<int>, kept: set<int>, all: set<int>)
    requires all == free + (back + kept) && back !! kept && free !! back + kept
    ensures back + free == all - kept && kept <= all && (back + free == all <==> kept == {})
  {
    assert kept == all - (back + free);
    assert all - all == {};
  }

  lemma RunParts(p: int, n: nat, m: nat)
    requires n <= m
    ensures var tail := Run(p + n * PAGE_SIZE, m - n);
            Elems(Run(p, m)) == Elems(Run(p, n)) + Elems(tail) && Elems(Run(p, n)) !! Elems(tail) && (Elems(tail) == {} <==> n == m)
  {
    var tail := Run(p + n * PAGE_SIZE, m - n);
    RunSplit(p, n, m);
    ElemsConcat(Run(p, n), tail);
    if n < m {
      assert tail[0] in Elems(tail);
    }
  }

  /**
   page_free gives back the `n` pages that were asked for. The rest of the block of
   `2^order` pages is on no list afterwards; nothing is lost exactly when `n` is a
   power of two.
   */
  lemma PageFreeKeepsTheTail(s: seq<int>, n: nat, m: nat, p: int, s': seq<int>)
    requires Pages(s) && n > 0 && m == Pow2(PageOrder(n)) && TakesRun(s, PageOrder(n), p, s') && p != 0
    ensures n <= m
    ensures var tail := Run(p + n * PAGE_SIZE, m - n);
            && Elems(Run(p, n) + s') == Elems(s) - Elems(tail) && Elems(tail) <= Elems(s)
            && (Elems(Run(p, n) + s') == Elems(s) <==> PowerOf2(n))
  {
    LeastOrder(n, PageOrder(n));
    var _ := TakenRunIsAligned(s, PageOrder(n), p, s');
    TailIsLost(s, s', p, n, m);
  }

  lemma TailIsLost(s: seq<int>, s': seq<int>, p: int, n: nat, m: nat)
    requires n <= m && Elems(s) == Elems(s') + Elems(Run(p, m)) && Elems(s') !! Elems(Run(p, m))
    ensures var tail := Run(p + n * PAGE_SIZE, m - n);
            && Elems(Run(p, n) + s') == Elems(s) - Elems(tail) && Elems(tail) <= Elems(s)
            && (Elems(Run(p, n) + s') == Elems(s) <==> n == m)
  {
    RunParts(p, n, m);
    ElemsConcat(Run(p, n), s');
    LostPart(Elems(s'), Elems(Run(p, n)), Elems(Run(p + n * PAGE_SIZE, m - n)), Elems(s));
  }

  method PageFree(a: PageAllocator, mem: int, size: int)
    requires a.Valid() && 0 < mem && 0 < size && mem % PAGE_SIZE == 0 && size % PAGE_SIZE == 0 && mem + size <= TWO64
    requires forall i :: 0 <= i < |a.pages| ==> a.pages[i] < mem || mem + size <= a.pages[i]
    modifies a
    ensures a.Valid() && a.pages == Run(mem, size / PAGE_SIZE) + old(a.pages)
  {
    a.FreePages(mem, size);
  }

  /**
   A block of `n` pages taken and given back: the list in memory is the block's first `n` pages and then the list without
   the block. Exactly the pages of the block past those are missing from it; none if and only if `n` is a power of two.
   */
  method TakeAndGiveBack(a: PageAllocator, n: nat) returns (p: int, ghost m: nat, ghost rest: seq<int>)
    requires a.Valid() && 0 < n < Pow2(52)
    modifies a
    ensures a.Valid() && m == Pow2(PageOrder(n)) && (p == 0 ==> a.pages == old(a.pages))
    ensures p != 0 ==>
              && a.pages == Run(p, n) + rest && TakesRun(old(a.pages), PageOrder(n), p, rest) && n <= m
              && Elems(a.pages) == old(Elems(a.pages)) - Elems(Run(p + n * PAGE_SIZE, m - n))
              && (Elems(a.pages) == old(Elems(a.pages)) <==> PowerOf2(n))
  {
    ghost var s := a.pages;
    m := Pow2(PageOrder(n));
    CountOfPages(n);
    p := PageMemalign(a, n * PAGE_SIZE);
    rest := a.pages;
    if p != 0 {
      PageFreeKeepsTheTail(s, n, m, p, rest);
      BlockApart(s, n, p, rest);
      PageFree(a, p, n * PAGE_SIZE);
    }
  }

  lemma CountOfPages(n: nat)
    requires 0 < n < Pow2(52)
    ensures 0 < n * PAGE_SIZE < TWO64 && PageCount(n * PAGE_SIZE) == n && n * PAGE_SIZE / PAGE_SIZE == n
  {
    Pow2Values();
    WrapCases(n * PAGE_SIZE + PAGE_SIZE - 1);
  }

  /** The first `n` pages of the block lie below 2^64 and meet nothing left on the list. */
  lemma BlockApart(s: seq<int>, n: nat, p: int, s': seq<int>)
    requires Pages(s) && n > 0 && TakesRun(s, PageOrder(n), p, s') && p != 0 && n <= Pow2(PageOrder(n))
    ensures 0 < p && p % PAGE_SIZE == 0 && p + n * PAGE_SIZE <= TWO64
    ensures forall i :: 0 <= i < |s'| ==> s'[i] < p || p + n * PAGE_SIZE <= s'[i]
  {
    var m := Pow2(PageOrder(n));
    var k := TakenRunIsAligned(s, PageOrder(n), p, s');
    assert s[k..k + m] == Run(p, m);
    assert s[k] == Run(p, m)[0] && s[k + n - 1] == s[k..k + m][n - 1] == Run(p, m)[n - 1] == p + (n - 1) * PAGE_SIZE;
    assert PageAddr(s[k]) && PageAddr(s[k + n - 1]);
    LastEnds(p, n);
    forall i | 0 <= i < |s'|
      ensures s'[i] < p || p + n * PAGE_SIZE <= s'[i]
    {
      assert s'[i] in Elems(s');
      if p <= s'[i] < p + n * PAGE_SIZE {
        InRun(p, n, s'[i]);
        RunParts(p, n, m);
      }
    }
  }

  lemma LastEnds(p: int, n: nat)
    requires p % PAGE_SIZE == 0 && p + (n - 1) * PAGE_SIZE < TWO64
    ensures p + n * PAGE_SIZE <= TWO64
  {
  }
}
