/**
 What the page allocator promises over whole runs of calls: the search gives out
 aligned runs and nothing else, and no page is ever lost or owned twice.
 */
module PageRuns {
  import opened Machine
  import opened PageAlloc

  function Elems(s: seq<int>): set<int> {
    set x | x in s
  }

  lemma ElemsConcat(s: seq<int>, t: seq<int>)
    ensures Elems(s + t) == Elems(s) + Elems(t)
  {
  }

  // ----- one call of alloc_pages -----

  /** The list holds, from position `k` on, `2^order` pages of 4096 bytes in a row that start on a boundary of their size. */
  ghost predicate Present(s: seq<int>, order: nat, k: nat) {
    && k + Pow2(order) <= |s| && order < 52 && s[k] % (Pow2(order) * 4096) == 0
    && forall t :: k <= t < k + Pow2(order) ==> s[t] == s[k] + (t - k) * 4096
  }

  /** What the mask test of the search means for a page. */
  lemma MaskIsBoundary(pa: int, order: nat)
    requires PageAddr(pa)
    ensures Aligned(pa, order) <==> order < 52 && pa % (Pow2(order) * 4096) == 0
  {
  }

  lemma {:induction false} Pow2Mono(a: nat, b: nat)
    requires a <= b
    ensures Pow2(a) <= Pow2(b)
  {
    if a < b {
      Pow2Mono(a, b - 1);
    }
  }

  /**
   A page alloc_pages returns starts `2^order` consecutive pages, aligned to their
   own length; exactly those leave the list, and the rest keep their order.
   */
  lemma TakenRunIsAligned(s: seq<int>, order: nat, p: int, s': seq<int>) returns (k: nat)
    requires Pages(s) && TakesRun(s, order, p, s') && p != 0
    ensures k <= |s'| && s == s'[..k] + Run(p, Pow2(order)) + s'[k..]
    ensures p % (Pow2(order) * 4096) == 0 && order < 52
    ensures Pages(s') && Elems(s') !! Elems(Run(p, Pow2(order))) && Elems(s) == Elems(s') + Elems(Run(p, Pow2(order)))
  {
    var n := Pow2(order);
    k :| Hit(s, order, k) && p == s[k] && s' == Without(s, order, k);
    HitIsRun(s, order, k);
    CutIsPages(s, k, k + n);
    CutSplits(s, k, k + n);
    ElemsOfSplit(s'[..k], Run(p, n), s'[k..]);
    assert s' == s'[..k] + s'[k..];
  }

  lemma HitIsRun(s: seq<int>, order: nat, k: nat)
    requires Pages(s) && Hit(s, order, k)
    ensures k + Pow2(order) <= |s| && s[k..k + Pow2(order)] == Run(s[k], Pow2(order))
    ensures s[k] % (Pow2(order) * PAGE_SIZE) == 0 && order < 52
  {
    assert Aligned(s[k], order) && PageAddr(s[k]);
  }

  lemma ElemsOfSplit(a: seq<int>, b: seq<int>, c: seq<int>)
    ensures Elems(a + b + c) == Elems(a + c) + Elems(b)
  {
    ElemsConcat(a + b, c);
    ElemsConcat(a, b);
    ElemsConcat(a, c);
  }

  lemma CutSplits(s: seq<int>, k: nat, e: nat)
    requires Distinct(s) && k <= e <= |s|
    ensures s == Cut(s, k, e)[..k] + s[k..e] + Cut(s, k, e)[k..]
    ensures Elems(Cut(s, k, e)) !! Elems(s[k..e])
  {
    forall i, j | 0 <= i < |s| - (e - k) && k <= j < e
      ensures Cut(s, k, e)[i] != s[j]
    {
      CutAt(s, k, e, i);
    }
  }

  /** A run that no shorter run from an earlier boundary leads up to is always found. */
  lemma UnshadowedRunIsFound(s: seq<int>, order: nat, k: nat, p: int, s': seq<int>)
    requires Pages(s) && TakesRun(s, order, p, s') && Present(s, order, k)
    requires forall i: nat :: i < k && k - i < Pow2(order) && s[i] % (Pow2(order) * 4096) == 0 ==>
               exists t :: i < t < k && s[t] != s[i] + (t - i) * 4096
    ensures p != 0
  {
    forall i: nat | i < k && k - i < Pow2(order) && Consecutive(s, i, k) ensures !Opens(s, order, i) {
      assert PageAddr(s[i]);
      MaskIsBoundary(s[i], order);
    }
    assert PageAddr(s[k]);
    MaskIsBoundary(s[k], order);
    assert Hit(s, order, k);
  }

  /** alloc_pages(0) does what alloc_page does: the head leaves the list, and NULL means that there is none. */
  lemma SinglePageIsHead(s: seq<int>, p: int, s': seq<int>)
    requires Pages(s) && TakesRun(s, 0, p, s')
    ensures if s == [] then p == 0 && s' == [] else p == s[0] != 0 && s' == s[1..]
  {
    assert Pow2(0) == 1;
    if s != [] {
      assert PageAddr(s[0]);
      assert Hit(s, 0, 0);
    }
  }

  lemma ShadowsNext(s: seq<int>)
    requires |s| == 3 && Aligned(s[0], 1) && Aligned(s[1], 1) && s[1] != s[0] + PAGE_SIZE
    ensures forall k: nat :: !Hit(s, 1, k)
  {
    assert Pow2(1) == 2;
    assert Opens(s, 1, 0);
    assert Consecutive(s, 0, 1);
    assert !Opens(s, 1, 1);
    assert !Consecutive(s, 0, 2) by {
      assert s[1] != s[0] + (1 - 0) * PAGE_SIZE;
    }
  }

  /**
   A run can be missed: behind any single aligned page an aligned pair is not found, because the page that
   breaks a run never starts one.
   */
  lemma ShadowedRunIsMissed(a: int, b: int, p: int, s': seq<int>)
    requires Pages([a, b, b + 4096]) && a % 8192 == 0 && b % 8192 == 0
    requires TakesRun([a, b, b + 4096], 1, p, s')
    ensures Present([a, b, b + 4096], 1, 1) && p == 0
  {
    var s := [a, b, b + 4096];
    assert Pow2(1) == 2;
    assert Present(s, 1, 1);
    AlignedApart(a, b);
    ShadowsNext(s);
  }

  lemma AlignedApart(a: int, b: int)
    requires Aligned(a, 1) && Aligned(b, 1)
    ensures b != a + PAGE_SIZE
  {
    assert Pow2(1) == 2;
  }

  // ----- runs of calls -----

  /** The free list, the pages clients hold, and every page ever donated. */
  datatype World = World(free: seq<int>, held: set<int>, donated: set<int>)

  datatype Call = Donate(base: int, n: nat) | TakePage | TakeRun(order: nat) | GiveBack(page: int)

  /** The call that frees nothing, which the code takes as a reset. */
  predicate IsEmptyFree(c: Call) {
    c.Donate? && c.n == 0
  }

  /** One call by clients that free only pages they hold, or pages new to the allocator. */
  ghost predicate Step(w: World, c: Call, w': World) {
    match c
    case Donate(base, n) =>
      && base >= 0 && base % PAGE_SIZE == 0
      && if n == 0 then w' == w.(free := [])
         else
           && base > 0 && base + n * PAGE_SIZE <= TWO64
           && (forall q :: q in Run(base, n) ==> q in w.held || q !in w.donated)
           && w' == World(Run(base, n) + w.free, w.held - Elems(Run(base, n)), w.donated + Elems(Run(base, n)))
    case TakePage =>
      w' == if w.free == [] then w else World(w.free[1..], w.held + {w.free[0]}, w.donated)
    case TakeRun(order) =>
      && w'.donated == w.donated
      && exists p :: TakesRun(w.free, order, p, w'.free)
                     && w'.held == if p == 0 then w.held else w.held + Elems(Run(p, Pow2(order)))
    case GiveBack(page) =>
      page in w.held && w' == World([page] + w.free, w.held - {page}, w.donated)
  }

  /** No page is in two places: free pages and held pages are disjoint, and all of them were donated. */
  ghost predicate Safe(w: World) {
    && Pages(w.free) && Elems(w.free) !! w.held && Elems(w.free) + w.held <= w.donated
    && forall q :: q in w.held ==> PageAddr(q)
  }

  /** And none is lost. */
  ghost predicate Conserved(w: World) {
    Safe(w) && Elems(w.free) + w.held == w.donated
  }

  lemma DonateConserves(w: World, base: int, n: nat, w': World)
    requires Safe(w) && n > 0 && Step(w, Donate(base, n), w')
    ensures Safe(w') && (Conserved(w') <==> Conserved(w))
  {
    var run := Elems(Run(base, n));
    RunIsPages(base, n);
    ElemsConcat(Run(base, n), w.free);
    forall i, j | 0 <= i < n && 0 <= j < |w.free|
      ensures Run(base, n)[i] != w.free[j]
    {
      assert Run(base, n)[i] in Run(base, n) && w.free[j] in Elems(w.free);
    }
    PagesConcat(Run(base, n), w.free);
    assert forall q :: q in run ==> q in w.held || q !in w.donated;
    SameLost(run, Elems(w.free), w.held, w.donated);
  }

  /** Moving pages to the list that were held or are new loses none and finds none. */
  lemma SameLost(run: set<int>, free: set<int>, held: set<int>, donated: set<int>)
    requires forall q :: q in run ==> q in held || q !in donated
    requires free + held <= donated
    ensures (run + free) + (held - run) == donated + run <==> free + held == donated
  {
    if (run + free) + (held - run) == donated + run {
      forall q | q in donated ensures q in free + held {
        assert q in donated + run;
      }
    }
  }

  lemma TakeRunConserves(w: World, order: nat, w': World)
    requires Safe(w) && Step(w, TakeRun(order), w')
    ensures Safe(w') && (Conserved(w') <==> Conserved(w))
  {
    var p :| TakesRun(w.free, order, p, w'.free)
             && w'.held == if p == 0 then w.held else w.held + Elems(Run(p, Pow2(order)));
    if p != 0 {
      var _ := TakenRunIsAligned(w.free, order, p, w'.free);
      assert Elems(w'.free) + w'.held == Elems(w.free) + w.held;
    }
  }

  /** free_pages with size 0 empties the list: every page on it is lost. */
  lemma EmptyFreeLosesTheList(w: World, base: int, w': World)
    requires Safe(w) && Step(w, Donate(base, 0), w')
    ensures Safe(w') && (Conserved(w') <==> Conserved(w) && w.free == [])
  {
    if w.free != [] {
      assert w.free[0] in Elems(w.free);
    }
  }

  /** Every call keeps pages in one place, and loses none exactly unless it frees nothing while pages are on the list. */
  lemma StepConserves(w: World, c: Call, w': World)
    requires Safe(w) && Step(w, c, w')
    ensures Safe(w') && w.donated <= w'.donated
    ensures Conserved(w') <==> Conserved(w) && (IsEmptyFree(c) ==> w.free == [])
  {
    match c
    case Donate(base, n) =>
      if n == 0 {
        EmptyFreeLosesTheList(w, base, w');
      } else {
        DonateConserves(w, base, n, w');
      }
    case TakePage =>
      if w.free != [] {
        CutIsPages(w.free, 0, 1);
        HeadLeaves(w.free);
        assert Elems(w'.free) + w'.held == Elems(w.free) + w.held;
      }
    case TakeRun(order) => TakeRunConserves(w, order, w');
    case GiveBack(page) =>
      ElemsConcat([page], w.free);
      PagesConcat([page], w.free);
      assert Elems(w'.free) + w'.held == Elems(w.free) + w.held;
  }

  lemma HeadLeaves(s: seq<int>)
    requires s != [] && Distinct(s)
    ensures Elems(s) == {s[0]} + Elems(s[1..]) && s[0] !in Elems(s[1..])
  {
    ElemsConcat([s[0]], s[1..]);
    assert [s[0]] + s[1..] == s;
  }

  /** No call of the run frees nothing while pages are on the list. */
  ghost predicate Lossless(ws: seq<World>, cs: seq<Call>)
    requires |ws| > |cs|
  {
    forall i :: 0 <= i < |cs| && IsEmptyFree(cs[i]) ==> ws[i].free == []
  }

  /**
   Over every run of calls from an empty allocator, free pages and held pages are disjoint pages that were donated. They
   are all the pages ever donated if and only if no call freed nothing while pages were on the list.
   */
  lemma {:induction false} RunsConserve(ws: seq<World>, cs: seq<Call>)
    requires |ws| == |cs| + 1 && ws[0] == World([], {}, {})
    requires forall i :: 0 <= i < |cs| ==> Step(ws[i], cs[i], ws[i + 1])
    ensures Safe(ws[|cs|]) && (Conserved(ws[|cs|]) <==> Lossless(ws, cs))
  {
    if |cs| > 0 {
      var n := |cs| - 1;
      RunsConserve(ws[..|cs|], cs[..n]);
      StepConserves(ws[n], cs[n], ws[n + 1]);
      LosslessSnoc(ws, cs);
    }
  }

  lemma LosslessSnoc(ws: seq<World>, cs: seq<Call>)
    requires |ws| == |cs| + 1 && |cs| > 0
    ensures var n := |cs| - 1;
            Lossless(ws, cs) <==> Lossless(ws[..|cs|], cs[..n]) && (IsEmptyFree(cs[n]) ==> ws[n].free == [])
  {
    var n := |cs| - 1;
    assert forall i :: 0 <= i < n ==> cs[..n][i] == cs[i] && ws[..|cs|][i] == ws[i];
  }

  lemma InRun(base: int, n: nat, q: int)
    requires base % PAGE_SIZE == 0 && q % PAGE_SIZE == 0 && base <= q < base + n * PAGE_SIZE
    ensures q in Run(base, n)
  {
    assert Run(base, n)[(q - base) / PAGE_SIZE] == q;
  }

  /** The call is one a client may make in the world it sees. */
  predicate Legal(c: Call, held: set<int>, donated: set<int>) {
    match c
    case Donate(base, n) =>
      && base >= 0 && base % PAGE_SIZE == 0
      && (n > 0 ==> base > 0 && base + n * PAGE_SIZE <= TWO64 && forall q :: q in Run(base, n) ==> q in held || q !in donated)
    case TakePage => true
    case TakeRun(order) => order < 64
    case GiveBack(page) => page in held
  }

  /** free_pages on the list in memory. */
  method MakeDonation(a: PageAllocator, base: int, n: nat, held: set<int>, donated: set<int>)
    returns (held': set<int>, donated': set<int>)
    requires a.Valid() && Safe(World(a.pages, held, donated)) && Legal(Donate(base, n), held, donated)
    modifies a
    ensures a.Valid() && Step(old(World(a.pages, held, donated)), Donate(base, n), World(a.pages, held', donated'))
  {
    forall j | 0 <= j < |a.pages|
      ensures a.pages[j] < base || base + n * PAGE_SIZE <= a.pages[j]
    {
      assert a.pages[j] in Elems(a.pages);
      if base <= a.pages[j] < base + n * PAGE_SIZE {
        InRun(base, n, a.pages[j]);
      }
    }
    a.FreePages(base, n * PAGE_SIZE);
    held', donated' := held - Elems(Run(base, n)), donated + Elems(Run(base, n));
    assert n == 0 ==> Elems(Run(base, n)) == {};
  }

  /** Makes one legal call on the list in memory. */
  method Make(a: PageAllocator, c: Call, held: set<int>, donated: set<int>) returns (held': set<int>, donated': set<int>)
    requires a.Valid() && Safe(World(a.pages, held, donated)) && Legal(c, held, donated)
    modifies a
    ensures a.Valid() && Step(old(World(a.pages, held, donated)), c, World(a.pages, held', donated'))
  {
    held', donated' := held, donated;
    match c
    case Donate(base, n) =>
      held', donated' := MakeDonation(a, base, n, held, donated);
    case TakePage =>
      var p := a.AllocPage();
      held' := if p == 0 then held else held + {p};
    case TakeRun(order) =>
      var p := a.AllocPages(order);
      held' := if p == 0 then held else held + Elems(Run(p, Pow2(order)));
    case GiveBack(page) =>
      assert page !in Elems(a.pages);
      a.FreePage(page);
      held' := held - {page};
  }

  /** The worlds a sequence of calls goes through: a legal call makes its step, one that is not is left out. */
  ghost predicate Went(ws: seq<World>, cs: seq<Call>) {
    && |ws| == |cs| + 1 && ws[0] == World([], {}, {})
    && forall i :: 0 <= i < |cs| ==>
         if Legal(cs[i], ws[i].held, ws[i].donated) then Step(ws[i], cs[i], ws[i + 1]) else ws[i + 1] == ws[i]
  }

  /** The call is made, and frees nothing while pages are on the list. */
  ghost predicate Loses(w: World, c: Call) {
    Legal(c, w.held, w.donated) && IsEmptyFree(c) && w.free != []
  }

  /** Any sequence of calls, made on the list in memory; `ws` are the worlds it goes through. */
  method MakeAll(cs: seq<Call>) returns (a: PageAllocator, held: set<int>, donated: set<int>, ghost ws: seq<World>)
    ensures a.Valid() && Safe(World(a.pages, held, donated))
    ensures Went(ws, cs) && ws[|cs|] == World(a.pages, held, donated)
    ensures Conserved(World(a.pages, held, donated)) <==> forall i :: 0 <= i < |cs| ==> !Loses(ws[i], cs[i])
  {
    a := new PageAllocator();
    held, donated := {}, {};
    ws := [World([], {}, {})];
    for i := 0 to |cs|
      invariant fresh(a) && a.Valid() && Safe(World(a.pages, held, donated))
      invariant Went(ws, cs[..i]) && ws[i] == World(a.pages, held, donated)
      invariant Conserved(World(a.pages, held, donated)) <==> forall k :: 0 <= k < i ==> !Loses(ws[k], cs[k])
    {
      if Legal(cs[i], held, donated) {
        held, donated := Make(a, cs[i], held, donated);
        StepConserves(ws[i], cs[i], World(a.pages, held, donated));
      }
      ws := ws + [World(a.pages, held, donated)];
    }
    assert cs[..|cs|] == cs;
  }
}
