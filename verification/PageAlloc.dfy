/**
 The page allocator: an intrusive list of free pages, the link of each free page
 being stored in the first word of the page itself.
 */
module PageAlloc {
  import opened Machine

  // ----- what the free list holds -----

  /** Addresses a page may have: not NULL, page aligned, inside the 64-bit space. */
  predicate PageAddr(p: int) {
    0 < p < TWO64 && p % PAGE_SIZE == 0
  }

  /** The `n` physically consecutive pages from `p` up. */
  function Run(p: int, n: nat): seq<int> {
    seq(n, i => p + i * PAGE_SIZE)
  }

  ghost predicate Distinct(s: seq<int>) {
    forall i, j :: 0 <= i < j < |s| ==> s[i] != s[j]
  }

  ghost predicate Pages(s: seq<int>) {
    Distinct(s) && forall i :: 0 <= i < |s| ==> PageAddr(s[i])
  }

  function At(s: seq<int>, i: nat): int {
    if i < |s| then s[i] else 0
  }

  function Before(s: seq<int>, i: nat): int
    requires i <= |s|
  {
    if i == 0 then 0 else s[i - 1]
  }

  /** The word of page `s[i]` holds the address of the next page of `s`, or NULL. */
  ghost predicate Linked(mem: map<int, int>, s: seq<int>, i: nat)
    requires i < |s|
  {
    s[i] in mem && mem[s[i]] == At(s, i + 1)
  }

  /** Following the stored links from `head` visits exactly `s` and then NULL. */
  ghost predicate Chain(mem: map<int, int>, head: int, s: seq<int>) {
    head == At(s, 0) && forall i: nat :: i < |s| ==> Linked(mem, s, i)
  }

  lemma RunIsPages(p: int, n: nat)
    requires p > 0 && p % PAGE_SIZE == 0 && p + n * PAGE_SIZE <= TWO64
    ensures Pages(Run(p, n))
  {
  }

  lemma PagesConcat(s: seq<int>, t: seq<int>)
    requires Pages(s) && Pages(t) && forall i, j :: 0 <= i < |s| && 0 <= j < |t| ==> s[i] != t[j]
    ensures Pages(s + t)
  {
  }

  /** The list survives stores to words that are not on it. */
  lemma ChainFrame(mem: map<int, int>, mem': map<int, int>, head: int, s: seq<int>)
    requires Chain(mem, head, s)
    requires forall i :: 0 <= i < |s| && s[i] in mem ==> s[i] in mem' && mem'[s[i]] == mem[s[i]]
    ensures Chain(mem', head, s)
  {
    forall i: nat | i < |s|
      ensures Linked(mem', s, i)
    {
      assert Linked(mem, s, i);
    }
  }

  /** Putting a run in front of the list, its last link pointing at the old head. */
  lemma ChainPrepend(mem: map<int, int>, run: seq<int>, head: int, s: seq<int>)
    requires |run| > 0
    requires forall i: nat :: i + 1 < |run| ==> Linked(mem, run, i)
    requires run[|run| - 1] in mem && mem[run[|run| - 1]] == head
    requires Chain(mem, head, s)
    ensures Chain(mem, run[0], run + s)
  {
    var t := run + s;
    forall i: nat | i < |t|
      ensures Linked(mem, t, i)
    {
      if i + 1 < |run| {
        assert Linked(mem, run, i);
      } else if i >= |run| {
        assert Linked(mem, s, i - |run|);
      }
    }
  }

  /** A run from `base` with its links stored, in front of a list it does not meet. */
  lemma ChainDonate(mem: map<int, int>, mem': map<int, int>, base: int, n: nat, head: int, s: seq<int>)
    requires n > 0 && base > 0 && base % PAGE_SIZE == 0 && base + n * PAGE_SIZE <= TWO64
    requires Pages(s) && Chain(mem, head, s)
    requires forall i :: 0 <= i < |s| ==> s[i] < base || base + n * PAGE_SIZE <= s[i]
    requires forall a :: a in mem && (a < base || base + n * PAGE_SIZE <= a) ==> a in mem' && mem'[a] == mem[a]
    requires forall j :: 0 <= j < n ==>
               Run(base, n)[j] in mem' && mem'[Run(base, n)[j]] == if j + 1 < n then Run(base, n)[j] + PAGE_SIZE else head
    ensures Pages(Run(base, n) + s) && Chain(mem', base, Run(base, n) + s)
  {
    RunIsPages(base, n);
    ChainFrame(mem, mem', head, s);
    ChainPrepend(mem', Run(base, n), head, s);
    PagesConcat(Run(base, n), s);
  }

  function Cut(s: seq<int>, k: nat, e: nat): seq<int>
    requires k <= e <= |s|
  {
    s[..k] + s[e..]
  }

  lemma CutAt(s: seq<int>, k: nat, e: nat, i: nat)
    requires k <= e <= |s| && i < |s| - (e - k)
    ensures Cut(s, k, e)[i] == s[if i < k then i else i + (e - k)]
    ensures At(Cut(s, k, e), i + 1) == At(s, if i + 1 < k then i + 1 else i + 1 + (e - k))
  {
  }

  lemma CutIsPages(s: seq<int>, k: nat, e: nat)
    requires Pages(s) && k <= e <= |s|
    ensures Pages(Cut(s, k, e))
  {
  }

  /** Positions `k` to `e` leave the list by one store, to the link before them. */
  lemma ChainCut(mem: map<int, int>, head: int, s: seq<int>, k: nat, e: nat)
    requires Pages(s) && Chain(mem, head, s) && k <= e <= |s|
    ensures k == 0 ==> Chain(mem, At(s, e), Cut(s, k, e))
    ensures k > 0 ==> Chain(mem[s[k - 1] := At(s, e)], head, Cut(s, k, e)) && s[k - 1] in mem && s[k - 1] in Cut(s, k, e)
  {
    var t := Cut(s, k, e);
    var mem' := if k == 0 then mem else mem[s[k - 1] := At(s, e)];
    assert k > 0 ==> t[k - 1] == s[k - 1] && Linked(mem, s, k - 1);
    forall i: nat | i < |t|
      ensures Linked(mem', t, i)
    {
      CutAt(s, k, e, i);
      assert Linked(mem, s, if i < k then i else i + (e - k));
    }
  }

  // ----- which run the search takes -----

  /** `pa & align_mask` is zero; `n << PAGE_SHIFT` leaves the word from order 52 on. */
  predicate Aligned(pa: int, order: nat) {
    if order + PAGE_SHIFT < 64 then pa % (Pow2(order) * PAGE_SIZE) == 0 else pa == 0
  }

  ghost predicate Consecutive(s: seq<int>, i: nat, j: nat)
    requires i <= j <= |s|
  {
    forall t :: i <= t < j ==> s[t] == s[i] + (t - i) * PAGE_SIZE
  }

  /**
   The search opens a run at position `j`: the page is aligned, and no shorter run
   the search opened reaches up to `j` (the page that breaks a run never starts one).
   */
  ghost predicate Opens(s: seq<int>, order: nat, j: nat)
    requires j < |s|
    decreases j
  {
    && Aligned(s[j], order)
    && forall i: nat :: i < j && j - i < Pow2(order) && Consecutive(s, i, j) ==> !Opens(s, order, i)
  }

  /** A full run of `2^order` pages that the search opens at position `k`. */
  ghost predicate Hit(s: seq<int>, order: nat, k: nat) {
    k + Pow2(order) <= |s| && Consecutive(s, k, k + Pow2(order)) && Opens(s, order, k)
  }

  ghost predicate NoHitBefore(s: seq<int>, order: nat, end: int) {
    forall k: nat :: k + Pow2(order) <= end ==> !Hit(s, order, k)
  }

  /** `s` without the run that starts at position `k`. */
  function Without(s: seq<int>, order: nat, k: nat): seq<int>
    requires k + Pow2(order) <= |s|
  {
    Cut(s, k, k + Pow2(order))
  }

  /** The result of alloc_pages and the list it leaves: the first hit, or NULL. */
  ghost predicate TakesRun(s: seq<int>, order: nat, p: int, s': seq<int>) {
    || (p == 0 && s' == s && NoHitBefore(s, order, |s|))
    || (exists k: nat :: Hit(s, order, k) && NoHitBefore(s, order, k + Pow2(order) - 1)
                         && p == s[k] && s' == Without(s, order, k))
  }

  /** What the search knows after reading `i` pages with `run` pages in the open run. */
  ghost predicate Scanned(s: seq<int>, order: nat, i: nat, run: nat) {
    && run <= i <= |s| && run < Pow2(order)
    && (run > 0 ==> Consecutive(s, i - run, i) && Opens(s, order, i - run))
    && (forall j: nat :: j < i && i - j < Pow2(order) && Consecutive(s, j, i) && Opens(s, order, j) ==> j == i - run)
    && NoHitBefore(s, order, i)
  }

  lemma ConsecutiveShorter(s: seq<int>, j: nat, i: nat)
    requires j < i < |s| && Consecutive(s, j, i + 1)
    ensures Consecutive(s, j, i) && s[i] == s[j] + (i - j) * PAGE_SIZE
  {
  }

  /** The number of pages in the open run once the page at `i` is read too. */
  function NextRun(s: seq<int>, order: nat, i: nat, run: nat): nat
    requires run <= i < |s|
  {
    if run == 0 then if Aligned(s[i], order) then 1 else 0
    else if s[i] == s[i - 1] + PAGE_SIZE then run + 1
    else 0
  }

  /** The counter `run` after `i` pages; it stays at `2^order` once it gets there. */
  function RunAfter(s: seq<int>, order: nat, i: nat): (r: nat)
    requires i <= |s|
    ensures r <= i && r <= Pow2(order)
  {
    if i == 0 then 0
    else
      var r := RunAfter(s, order, i - 1);
      if r == Pow2(order) then r else NextRun(s, order, i - 1, r)
  }

  lemma ScanStep(s: seq<int>, order: nat, i: nat, run: nat, run': nat)
    requires i < |s| && Scanned(s, order, i, run)
    requires run' == NextRun(s, order, i, run)
    ensures run' < Pow2(order) ==> Scanned(s, order, i + 1, run')
    ensures run' >= Pow2(order) ==> run' == Pow2(order) && Hit(s, order, i + 1 - run') && NoHitBefore(s, order, i)
  {
    forall j: nat | j < i && Consecutive(s, j, i + 1)
      ensures Consecutive(s, j, i)
    {
      ConsecutiveShorter(s, j, i);
    }
    assert run > 0 ==> !Opens(s, order, i) && s[i - 1] == s[i - run] + (run - 1) * PAGE_SIZE;
    assert run == 0 && Aligned(s[i], order) ==> Opens(s, order, i);
  }

  lemma {:induction false} ScanSound(s: seq<int>, order: nat, i: nat)
    requires i <= |s| && RunAfter(s, order, i) < Pow2(order)
    ensures Scanned(s, order, i, RunAfter(s, order, i))
  {
    if i > 0 {
      ScanSound(s, order, i - 1);
      ScanStep(s, order, i - 1, RunAfter(s, order, i - 1), RunAfter(s, order, i));
    }
  }

  lemma ScanHit(s: seq<int>, order: nat, i: nat)
    requires 0 < i <= |s| && RunAfter(s, order, i - 1) < Pow2(order) == RunAfter(s, order, i)
    ensures Hit(s, order, i - Pow2(order)) && NoHitBefore(s, order, i - 1)
  {
    ScanSound(s, order, i - 1);
    ScanStep(s, order, i - 1, RunAfter(s, order, i - 1), RunAfter(s, order, i));
  }

  lemma WrapNext(p: int, q: int)
    requires PageAddr(p) && PageAddr(q)
    ensures q == Wrap(p + PAGE_SIZE) <==> q == p + PAGE_SIZE
  {
  }

  /** The loop test of free_pages, `mem + PAGE_SIZE != end` on 64-bit addresses, finds the last page. */
  lemma LastPage(base: int, n: nat, i: nat)
    requires 0 < base && i < n && base + n * PAGE_SIZE <= TWO64
    ensures Wrap(Run(base, n)[i] + PAGE_SIZE) == Wrap(base + n * PAGE_SIZE) <==> i + 1 == n
    ensures i + 1 < n ==> Wrap(Run(base, n)[i] + PAGE_SIZE) == Run(base, n)[i + 1]
  {
    if i + 1 < n {
      assert 0 < Run(base, n)[i] + PAGE_SIZE < base + n * PAGE_SIZE;
    }
  }

  class PageAllocator {
    var freelist: int
    var mem: map<int, int>     // the words of physical memory
    ghost var pages: seq<int>  // the pages on the list, in list order

    ghost predicate Valid()
      reads this
    {
      Pages(pages) && Chain(mem, freelist, pages)
    }

    constructor ()
      ensures Valid() && pages == []
    {
      freelist, mem, pages := 0, map[], [];
    }

    /** The loop of free_pages: every page of the region links to the next, the last to `last`. */
    method LinkRun(base: int, n: nat, last: int)
      requires 0 < base && 0 < n && base + n * PAGE_SIZE <= TWO64
      modifies this`mem
      ensures forall j :: 0 <= j < n ==>
                Run(base, n)[j] in mem && mem[Run(base, n)[j]] == if j + 1 < n then Run(base, n)[j] + PAGE_SIZE else last
      ensures forall a :: a in old(mem) && (a < base || base + n * PAGE_SIZE <= a) ==> a in mem && mem[a] == old(mem[a])
    {
      var end := Wrap(base + n * PAGE_SIZE);
      var p := base;
      ghost var run := Run(base, n);
      ghost var i := 0;
      LastPage(base, n, 0);
      while Wrap(p + PAGE_SIZE) != end
        invariant 0 <= i < n && p == run[i]
        invariant Wrap(p + PAGE_SIZE) == end <==> i + 1 == n
        invariant forall j :: 0 <= j < i ==> run[j] in mem && mem[run[j]] == run[j] + PAGE_SIZE
        invariant forall a :: a in old(mem) && (a < base || base + n * PAGE_SIZE <= a) ==> a in mem && mem[a] == old(mem[a])
        decreases n - i
      {
        LastPage(base, n, i);
        mem := mem[p := Wrap(p + PAGE_SIZE)];
        p := Wrap(p + PAGE_SIZE);
        i := i + 1;
        LastPage(base, n, i);
      }
      mem := mem[p := last];
    }

    method FreePages(base: int, size: int)
      requires Valid()
      requires 0 <= base && 0 <= size
      requires base % PAGE_SIZE == 0 && size % PAGE_SIZE == 0
      requires size == 0 || base + size <= TWO64
      requires size > 0 ==> base > 0
      requires forall i :: 0 <= i < |pages| ==> pages[i] < base || base + size <= pages[i]
      modifies this
      ensures Valid()
      ensures pages == if size == 0 then [] else Run(base, size / PAGE_SIZE) + old(pages)
      ensures forall a :: a in old(mem) && (a < base || base + size <= a) ==> a in mem && mem[a] == old(mem[a])
    {
      if size == 0 {
        freelist, pages := 0, [];
        return;
      }
      var old_freelist := freelist;
      freelist := base;
      LinkRun(base, size / PAGE_SIZE, old_freelist);
      ChainDonate(old(mem), mem, base, size / PAGE_SIZE, old_freelist, pages);
      pages := Run(base, size / PAGE_SIZE) + pages;
    }

    method AllocPage() returns (p: int)
      requires Valid()
      modifies this`freelist, this`pages
      ensures Valid()
      ensures if old(pages) == [] then p == 0 && pages == [] else p == old(pages)[0] && pages == old(pages)[1..]
    {
      if freelist == 0 {
        return 0;
      }
      assert Linked(mem, pages, 0);
      CutIsPages(pages, 0, 1);
      ChainCut(mem, freelist, pages, 0, 1);
      p := freelist;
      freelist := mem[freelist];
      pages := Cut(pages, 0, 1);
    }

    /**
     The traversal of alloc_pages. Each round reads one page; `run` counts the pages
     of the open run, which began at `run_start` and follows `run_prev` on the list.
     */
    method Search(order: nat) returns (run_start: int, run_prev: int, next: int, ghost end: nat)
      requires Valid()
      requires order < 64
      ensures run_start == 0 ==> RunAfter(pages, order, |pages|) < Pow2(order)
      ensures run_start != 0 ==>
                && 0 < end <= |pages| && RunAfter(pages, order, end - 1) < Pow2(order) == RunAfter(pages, order, end)
                && run_start == pages[end - Pow2(order)] && run_prev == Before(pages, end - Pow2(order))
                && next == At(pages, end)
    {
      var prev, curr, run, run_next_pa := 0, 0, 0, 0;
      var n := Pow2(order);
      run_start, run_prev, next, end := 0, 0, freelist, 0;
      ghost var i := 0;
      while true
        invariant i <= |pages| && next == At(pages, i) && curr == Before(pages, i)
        invariant run == RunAfter(pages, order, i) < n
        invariant run > 0 ==>
                    && run_start == pages[i - run] && run_prev == Before(pages, i - run)
                    && run_next_pa == Wrap(curr + PAGE_SIZE)
        decreases |pages| - i
      {
        prev := curr;
        curr := next;
        if curr == 0 {
          return 0, run_prev, next, i;
        }
        assert Linked(mem, pages, i);
        next := mem[curr];
        var pa := curr;
        if run == 0 {
          if Aligned(pa, order) {
            run_start, run_prev, run_next_pa, run := curr, prev, Wrap(pa + PAGE_SIZE), 1;
          }
        } else {
          WrapNext(prev, pa);
          if pa == run_next_pa {
            run_next_pa, run := Wrap(run_next_pa + PAGE_SIZE), run + 1;
          } else {
            run := 0;
          }
        }
        i := i + 1;
        if run == n {
          end := i;
          return;
        }
      }
    }

    /** The store of alloc_pages that takes positions `k` to `e` off the list. */
    method Unlink(run_prev: int, next: int, ghost k: nat, ghost e: nat)
      requires Valid()
      requires k <= e <= |pages| && run_prev == Before(pages, k) && next == At(pages, e)
      modifies this
      ensures Valid()
      ensures pages == Cut(old(pages), k, e)
      ensures mem.Keys == old(mem.Keys)
      ensures forall a :: a in mem && a !in pages ==> mem[a] == old(mem[a])
    {
      CutIsPages(pages, k, e);
      ChainCut(mem, freelist, pages, k, e);
      if run_prev != 0 {
        mem := mem[run_prev := next];
      } else {
        freelist := next;
      }
      pages := Cut(pages, k, e);
    }

    /** Takes the first run of `2^order` pages the search finds off the list. */
    method AllocPages(order: nat) returns (run_start: int)
      requires Valid()
      requires order < 64
      modifies this
      ensures Valid()
      ensures TakesRun(old(pages), order, run_start, pages)
      ensures mem.Keys == old(mem.Keys)
      ensures forall a :: a in mem && a !in pages ==> mem[a] == old(mem[a])
      ensures run_start == 0 <==> forall k: nat :: !Hit(old(pages), order, k)
      ensures run_start == 0 ==> pages == old(pages) && mem == old(mem) && freelist == old(freelist)
    {
      var run_prev, next;
      ghost var end;
      run_start, run_prev, next, end := Search(order);
      if run_start == 0 {
        ScanSound(pages, order, |pages|);
      } else {
        ghost var k := end - Pow2(order);
        ScanHit(pages, order, end);
        Unlink(run_prev, next, k, end);
      }
    }

    method FreePage(page: int)
      requires Valid()
      requires PageAddr(page) && page !in pages
      modifies this
      ensures Valid()
      ensures pages == [page] + old(pages)
      ensures mem == old(mem)[page := old(freelist)]
    {
      mem := mem[page := freelist];
      ChainFrame(old(mem), mem, freelist, pages);
      ChainPrepend(mem, [page], freelist, pages);
      PagesConcat([page], pages);
      freelist := page;
      pages := [page] + pages;
    }
  }
}
