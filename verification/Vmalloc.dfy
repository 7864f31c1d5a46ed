/**
 The virtual-range allocator: address ranges are cut from the top down and never
 reused, each page of a range gets its own frame from the page allocator, and the
 page table takes pages of its own from the same list.
 */
module Vmalloc {
  import opened Machine
  import opened PageAlloc
  import opened PageRuns

  // ----- who owns which page -----

  ghost function Frames(live: set<int>, pt: map<int, int>): set<int> {
    set v | v in live && v in pt :: pt[v]
  }

  ghost predicate OneFrameEach(live: set<int>, pt: map<int, int>) {
    && live <= pt.Keys
    && (forall v :: v in live ==> PageAddr(pt[v]))
    && forall v, w :: v in live && w in live && pt[v] == pt[w] ==> v == w
  }

  /** Every donated page is free, a page table, or the frame of one live virtual page. */
  ghost predicate Owners(free: seq<int>, tbl: set<int>, live: set<int>, pt: map<int, int>, donated: set<int>) {
    && OneFrameEach(live, pt)
    && Elems(free) !! tbl && Elems(free) !! Frames(live, pt) && tbl !! Frames(live, pt)
    && Elems(free) + tbl + Frames(live, pt) == donated
  }

  lemma HeadElems(s: seq<int>)
    requires s != [] && Distinct(s)
    ensures Elems(s[1..]) == Elems(s) - {s[0]} && s[0] in Elems(s)
  {
    assert s == [s[0]] + s[1..];
    ElemsConcat([s[0]], s[1..]);
  }

  /** The page at the head of the list, taken off it and put to no use yet. */
  lemma OwnersTake(free: seq<int>, tbl: set<int>, live: set<int>, pt: map<int, int>, donated: set<int>)
    requires free != [] && Distinct(free) && Owners(free, tbl, live, pt, donated)
    ensures Owners(free[1..], tbl, live, pt, donated - {free[0]})
  {
    HeadElems(free);
  }

  lemma OwnersTable(free: seq<int>, tbl: set<int>, live: set<int>, pt: map<int, int>, donated: set<int>)
    requires free != [] && Distinct(free) && Owners(free, tbl, live, pt, donated)
    ensures Owners(free[1..], tbl + {free[0]}, live, pt, donated)
  {
    HeadElems(free);
  }

  lemma OwnersMap(free: seq<int>, tbl: set<int>, live: set<int>, pt: map<int, int>, donated: set<int>, v: int, f: int)
    requires Owners(free, tbl, live, pt, donated) && v !in live && f !in donated && PageAddr(f)
    ensures Owners(free, tbl, live + {v}, pt[v := f], donated + {f})
  {
    var pt' := pt[v := f];
    assert forall w :: w in live ==> pt'[w] == pt[w] && pt[w] in Frames(live, pt);
    assert Frames(live + {v}, pt') == Frames(live, pt) + {f};
  }

  lemma OwnersUnmap(free: seq<int>, tbl: set<int>, live: set<int>, pt: map<int, int>, donated: set<int>, v: int)
    requires Owners(free, tbl, live, pt, donated) && v in live
    ensures Owners([pt[v]] + free, tbl, live - {v}, pt, donated) && pt[v] !in free
  {
    ElemsConcat([pt[v]], free);
    assert pt[v] in Frames(live, pt);
    assert Frames(live - {v}, pt) == Frames(live, pt) - {pt[v]};
    assert pt[v] !in Elems(free);
  }

  // ----- page tables -----

  /** The tables below `level` on the way to `va`, each named by its level and the address bits above it. */
  function TableKeys(va: int, level: nat): seq<(int, int)> {
    if level < 2 then [] else [(level - 1, va / Pow2(PAGE_SHIFT + 9 * (level - 1)))] + TableKeys(va, level - 1)
  }

  function Missing(tables: set<(int, int)>, keys: seq<(int, int)>): nat
    decreases keys
  {
    if keys == [] then 0
    else (if keys[0] in tables then 0 else 1) + Missing(tables + {keys[0]}, keys[1..])
  }

  function WithTables(tables: set<(int, int)>, keys: seq<(int, int)>): set<(int, int)>
    decreases keys
  {
    if keys == [] then tables else WithTables(tables + {keys[0]}, keys[1..])
  }

  /** Pages taken to map `n` pages from `va` up: one frame each and the tables not there yet. */
  function PagesNeeded(tables: set<(int, int)>, level: nat, va: int, n: nat): nat
    decreases n
  {
    if n == 0 then 0
    else
      1 + Missing(tables, TableKeys(va, level))
      + PagesNeeded(WithTables(tables, TableKeys(va, level)), level, va + PAGE_SIZE, n - 1)
  }

  /** Under four levels an address has three tables below the root, for its gigabytes by 512, its gigabyte and its 2 megabytes. */
  lemma TablesOf(va: int)
    ensures TableKeys(va, 4) == [(3, va / 0x80_0000_0000), (2, va / 0x4000_0000), (1, va / 0x20_0000)]
  {
    assert Pow2(12) == 0x1000;
    assert Pow2(21) == 0x20_0000;
    assert Pow2(30) == 0x4000_0000;
    assert Pow2(39) == 0x80_0000_0000;
    assert TableKeys(va, 1) == [];
    assert TableKeys(va, 2) == [(1, va / 0x20_0000)];
    assert TableKeys(va, 3) == [(2, va / 0x4000_0000)] + TableKeys(va, 2);
  }

  lemma SameTables(va: int, vb: int)
    requires va / 0x20_0000 == vb / 0x20_0000
    ensures TableKeys(va, 4) == TableKeys(vb, 4)
  {
    TablesOf(va);
    TablesOf(vb);
    var q := va / 0x20_0000;
    Coarser(va, q, 0x200);
    Coarser(vb, q, 0x200);
    Coarser(va, q, 0x4_0000);
    Coarser(vb, q, 0x4_0000);
  }

  lemma Coarser(x: int, q: int, f: int)
    requires x / 0x20_0000 == q && f > 0
    ensures x / (0x20_0000 * f) == q / f
  {
    var r, m := x % 0x20_0000, 0x20_0000 * f;
    assert x == q * 0x20_0000 + r;
    assert x == (q / f * f + q % f) * 0x20_0000 + r;
    assert q / f * f * 0x20_0000 == q / f * m;
    assert (q % f) * 0x20_0000 <= (f - 1) * 0x20_0000;
    DivModUnique(x, m, q / f, q % f * 0x20_0000 + r);
  }

  lemma {:induction false} NoneMissing(tables: set<(int, int)>, keys: seq<(int, int)>)
    requires forall k :: k in keys ==> k in tables
    ensures Missing(tables, keys) == 0 && WithTables(tables, keys) == tables
    decreases keys
  {
    if keys != [] {
      assert keys[0] in keys && tables + {keys[0]} == tables;
      NoneMissing(tables, keys[1..]);
    }
  }

  lemma ThreeMissing(va: int)
    ensures Missing({}, TableKeys(va, 4)) == 3
    ensures forall k :: k in TableKeys(va, 4) ==> k in WithTables({}, TableKeys(va, 4))
  {
    TablesOf(va);
    var a, b, c := (3, va / 0x80_0000_0000), (2, va / 0x4000_0000), (1, va / 0x20_0000);
    assert [a, b, c][1..] == [b, c] && [b, c][1..] == [c];
    assert WithTables({}, [a, b, c]) == WithTables({} + {a}, [b, c]) == WithTables({} + {a} + {b}, [c]) == {} + {a} + {b} + {c};
    assert Missing({} + {a} + {b}, [c]) == 1;
    assert Missing({} + {a}, [b, c]) == 2;
  }

  lemma {:induction false} NeighboursTakeNoTable(tables: set<(int, int)>, va: int, n: nat)
    requires n > 0 ==> forall k :: k in TableKeys(va, 4) ==> k in tables
    requires n > 0 ==> va / 0x20_0000 == (va + (n - 1) * PAGE_SIZE) / 0x20_0000
    ensures PagesNeeded(tables, 4, va, n) == n
    decreases n
  {
    if n > 0 {
      NoneMissing(tables, TableKeys(va, 4));
      if n > 1 {
        assert va / 0x20_0000 <= (va + PAGE_SIZE) / 0x20_0000 <= (va + (n - 1) * PAGE_SIZE) / 0x20_0000;
        SameTables(va, va + PAGE_SIZE);
      }
      NeighboursTakeNoTable(tables, va + PAGE_SIZE, n - 1);
    }
  }

  /** The first `n` pages mapped in one stretch of 2 megabytes take `n` frames and three tables. */
  lemma FirstMappingTakesThreeTables(va: int, n: nat)
    requires n > 0 && va / 0x20_0000 == (va + (n - 1) * 4096) / 0x20_0000
    ensures PagesNeeded({}, 4, va, n) == n + 3
  {
    ThreeMissing(va);
    var tables := WithTables({}, TableKeys(va, 4));
    if n > 1 {
      assert va / 0x20_0000 <= (va + PAGE_SIZE) / 0x20_0000 <= (va + (n - 1) * PAGE_SIZE) / 0x20_0000;
      SameTables(va, va + PAGE_SIZE);
    }
    NeighboursTakeNoTable(tables, va + PAGE_SIZE, n - 1);
  }

  /** The number of pages vm_memalign counts for a size: the rounding wraps, and the counter is a 32-bit `unsigned`. */
  function PagesOf(size: nat): nat {
    Align64(size, PAGE_SIZE) / PAGE_SIZE % TWO32
  }

  /** The pages counted cover the size, without a whole page to spare, if and only if they are fewer than 2^32. */
  lemma PagesCoverIff(size: nat)
    requires size < TWO64
    ensures size <= PagesOf(size) * PAGE_SIZE < size + PAGE_SIZE <==> size <= (TWO32 - 1) * PAGE_SIZE
  {
    if size + PAGE_SIZE - 1 < TWO64 {
      WrapCases(size + PAGE_SIZE - 1);
    }
  }

  /** What is left of `size` after `k` rounds of the loop of vm_free. */
  function LeftAfter(size: nat, k: nat): nat {
    Wrap(size - k * PAGE_SIZE)
  }

  /** The loop of vm_free ends exactly for sizes of whole pages; memalign records no other. */
  lemma VmFreeEnds(size: nat)
    requires size < TWO64
    ensures (exists k: nat :: LeftAfter(size, k) == 0) <==> size % PAGE_SIZE == 0
  {
    if size % PAGE_SIZE == 0 {
      assert LeftAfter(size, size / PAGE_SIZE) == 0;
    }
    forall k: nat | LeftAfter(size, k) == 0
      ensures size % PAGE_SIZE == 0
    {
      var q := (size - k * PAGE_SIZE) / TWO64;
      assert size == k * PAGE_SIZE + q * TWO64;
      assert size == (k + q * 0x10_0000_0000_0000) * PAGE_SIZE;
    }
  }

  lemma PageInRange(top: int, i: nat, n: nat)
    requires 0 <= top && top % PAGE_SIZE == 0 && i < n && top + n * PAGE_SIZE <= TWO64
    ensures var va := top + i * PAGE_SIZE;
            && va < TWO64 && va < top + n * PAGE_SIZE && va % PAGE_SIZE == 0
            && (i + 1 < n ==> Wrap(va + PAGE_SIZE) == top + (i + 1) * PAGE_SIZE)
  {
    WrapCases(top + i * PAGE_SIZE + PAGE_SIZE);
  }

  lemma RunEndsBefore(p: int, n: nat)
    ensures p + n * PAGE_SIZE !in Elems(Run(p, n))
  {
  }

  lemma RunSnoc(p: int, n: nat)
    ensures Elems(Run(p, n + 1)) == Elems(Run(p, n)) + {p + n * PAGE_SIZE}
  {
    assert Run(p, n + 1) == Run(p, n) + [p + n * PAGE_SIZE];
    ElemsConcat(Run(p, n), [p + n * PAGE_SIZE]);
  }

  class Vm {
    const alloc: PageAllocator
    const levels: nat             // PAGE_LEVEL
    var vfree_top: int            // a 64-bit register; 0 before the first range is cut
    var tables: set<(int, int)>
    var pt: map<int, int>         // leaf entries: virtual page to frame
    ghost var vtop: int           // the same limit counted without wrapping
    ghost var live: set<int>      // virtual pages in use
    ghost var tbl: set<int>       // pages that hold tables
    ghost const floor: int        // end of the identity map, which ranges must not reach
    ghost const donated: set<int>

    ghost predicate Valid()
      reads this, alloc
    {
      && alloc.Valid() && Owners(alloc.pages, tbl, live, pt, donated)
      && 0 < floor <= vtop <= TWO64 && vtop % PAGE_SIZE == 0 && vfree_top == Wrap(vtop)
      && forall v :: v in live ==> vtop <= v < TWO64 && v % PAGE_SIZE == 0
    }

    constructor (a: PageAllocator, ghost end_of_memory: int)
      requires a.Valid() && 0 < end_of_memory <= TWO64
      ensures Valid() && alloc == a && vtop == TWO64 && live == {} && tables == {} && floor == end_of_memory
      ensures donated == Elems(a.pages) && levels == 4
    {
      levels := 4;
      alloc, vfree_top, tables, pt, vtop, live, tbl := a, 0, {}, map[], TWO64, {}, {};
      floor, donated := end_of_memory, Elems(a.pages);
    }

    method AllocVpages(nr: nat) returns (r: int)
      requires Valid()
      requires vtop - PAGE_SIZE * nr >= floor
      modifies this`vfree_top, this`vtop
      ensures Valid() && vtop == old(vtop) - PAGE_SIZE * nr
      ensures r == Wrap(vtop) && (nr > 0 ==> r == vtop)
    {
      vfree_top := Wrap(vfree_top - PAGE_SIZE * nr);
      vtop := vtop - PAGE_SIZE * nr;
      r := vfree_top;
    }

    /**
     The walk of install_pte: each table that is not there yet is a page off the list.
     `hand` is a page the caller has taken and not put to use.
     */
    method WalkTables(va: int, ghost hand: set<int>)
      requires alloc.Valid() && Owners(alloc.pages, tbl, live, pt, donated - hand)
      requires Missing(tables, TableKeys(va, levels)) <= |alloc.pages|
      modifies this`tables, this`tbl, alloc`freelist, alloc`pages
      ensures alloc.Valid() && Owners(alloc.pages, tbl, live, pt, donated - hand)
      ensures tables == WithTables(old(tables), TableKeys(va, levels))
      ensures |alloc.pages| == |old(alloc.pages)| - Missing(old(tables), TableKeys(va, levels))
    {
      var keys := TableKeys(va, levels);
      for i := 0 to |keys|
        invariant alloc.Valid() && Owners(alloc.pages, tbl, live, pt, donated - hand)
        invariant WithTables(tables, keys[i..]) == WithTables(old(tables), keys)
        invariant Missing(tables, keys[i..]) <= |alloc.pages|
        invariant |alloc.pages| - Missing(tables, keys[i..]) == |old(alloc.pages)| - Missing(old(tables), keys)
      {
        assert keys[i..][0] == keys[i] && keys[i..][1..] == keys[i + 1..];
        if keys[i] !in tables {
          OwnersTable(alloc.pages, tbl, live, pt, donated - hand);
          ghost var p := alloc.pages[0];
          var _ := alloc.AllocPage();
          tbl := tbl + {p};
        }
        tables := tables + {keys[i]};
      }
    }

    /** One round of vm_memalign: a frame off the list, installed for `va`. */
    method MapPage(va: int)
      requires Valid() && vtop <= va < TWO64 && va % PAGE_SIZE == 0 && va !in live
      requires 1 + Missing(tables, TableKeys(va, levels)) <= |alloc.pages|
      modifies this`tables, this`tbl, this`live, this`pt, alloc`freelist, alloc`pages
      ensures Valid() && live == old(live) + {va}
      ensures pt.Keys == old(pt.Keys) + {va} && forall v :: v in old(pt) && v != va ==> pt[v] == old(pt)[v]
      ensures tables == WithTables(old(tables), TableKeys(va, levels))
      ensures |alloc.pages| == |old(alloc.pages)| - 1 - Missing(old(tables), TableKeys(va, levels))
    {
      OwnersTake(alloc.pages, tbl, live, pt, donated);
      HeadElems(alloc.pages);
      var pa := alloc.AllocPage();
      WalkTables(va, {pa});
      OwnersMap(alloc.pages, tbl, live, pt, donated - {pa}, va, pa);
      assert donated - {pa} + {pa} == donated;
      pt := pt[va := pa];
      live := live + {va};
    }

    /** A round that leaves enough pages on the list for the `left - 1` after it. */
    method MapNext(va: int, ghost left: nat)
      requires Valid() && vtop <= va < TWO64 && va % PAGE_SIZE == 0 && va !in live
      requires left > 0 && PagesNeeded(tables, levels, va, left) <= |alloc.pages|
      modifies this`tables, this`tbl, this`live, this`pt, alloc`freelist, alloc`pages
      ensures Valid() && live == old(live) + {va}
      ensures forall v :: v in old(live) ==> v in pt && pt[v] == old(pt[v])
      ensures PagesNeeded(tables, levels, va + PAGE_SIZE, left - 1) <= |alloc.pages|
    {
      MapPage(va);
    }

    /** One round of vm_free: the frame of `va` goes back on the list. */
    method UnmapPage(va: int)
      requires Valid() && va in live
      modifies this`live, alloc
      ensures Valid() && live == old(live) - {va}
      ensures alloc.pages == [pt[va]] + old(alloc.pages)
      ensures forall a :: a in old(alloc.mem) && a != pt[va] ==> a in alloc.mem && alloc.mem[a] == old(alloc.mem[a])
    {
      OwnersUnmap(alloc.pages, tbl, live, pt, donated, va);
      alloc.FreePage(pt[va]);
      live := live - {va};
    }

    /** Round `i` of the loop of vm_memalign: `before` was live when the range of `n` pages was cut. */
    method MapRound(p: int, ghost i: nat, ghost n: nat, ghost before: set<int>) returns (next: int)
      requires Valid() && i < n && p == vtop + i * PAGE_SIZE && vtop + n * PAGE_SIZE <= TWO64
      requires live == before + Elems(Run(vtop, i)) && forall v :: v in before ==> vtop + n * PAGE_SIZE <= v
      requires PagesNeeded(tables, levels, p, n - i) <= |alloc.pages|
      modifies this`tables, this`tbl, this`live, this`pt, alloc`freelist, alloc`pages
      ensures Valid() && live == before + Elems(Run(vtop, i + 1))
      ensures i + 1 < n ==> next == vtop + (i + 1) * PAGE_SIZE && PagesNeeded(tables, levels, next, n - (i + 1)) <= |alloc.pages|
      ensures forall v :: v in old(live) ==> v in pt && pt[v] == old(pt[v])
    {
      PageInRange(vtop, i, n);
      RunEndsBefore(vtop, i);
      MapNext(p, n - i);
      RunSnoc(vtop, i);
      next := Wrap(p + PAGE_SIZE);
    }

    /** The loop of vm_memalign over the `n` pages of a range that has just been cut. */
    method MapRange(mem: int, n: nat)
      requires Valid() && (n > 0 ==> mem == vtop) && vtop + n * PAGE_SIZE <= TWO64
      requires forall v :: v in live ==> vtop + n * PAGE_SIZE <= v
      requires PagesNeeded(tables, levels, vtop, n) <= |alloc.pages|
      modifies this`tables, this`tbl, this`live, this`pt, alloc`freelist, alloc`pages
      ensures Valid() && live == old(live) + Elems(Run(vtop, n))
      ensures forall v :: v in old(live) ==> v in pt && pt[v] == old(pt[v])
    {
      var p, pages := mem, n;
      ghost var i := 0;
      while pages > 0
        invariant Valid() && 0 <= i <= n && pages == n - i && (i < n ==> p == vtop + i * PAGE_SIZE)
        invariant live == old(live) + Elems(Run(vtop, i))
        invariant forall v :: v in old(live) ==> v in pt && pt[v] == old(pt[v])
        invariant i < n ==> PagesNeeded(tables, levels, p, n - i) <= |alloc.pages|
      {
        p := MapRound(p, i, n, old(live));
        pages := pages - 1;
        i := i + 1;
      }
    }

    /** vm_memalign for any size: it maps the pages it counts, below everything mapped before; none for a size it counts as 0. */
    method VmMemalign(size: nat) returns (mem: int)
      requires Valid() && size < TWO64
      requires vtop - PagesOf(size) * PAGE_SIZE >= floor
      requires PagesNeeded(tables, levels, vtop - PagesOf(size) * PAGE_SIZE, PagesOf(size)) <= |alloc.pages|
      modifies this`vfree_top, this`vtop, this`tables, this`tbl, this`live, this`pt, alloc`freelist, alloc`pages
      ensures Valid() && vtop == old(vtop) - PagesOf(size) * PAGE_SIZE
      ensures mem == Wrap(vtop) && (PagesOf(size) > 0 ==> mem == vtop)
      ensures live == old(live) + Elems(Run(vtop, PagesOf(size)))
      ensures forall v :: v in old(live) ==> old(vtop) <= v && v in pt && pt[v] == old(pt[v])
    {
      var size := Align64(size, PAGE_SIZE);
      var pages := size / PAGE_SIZE % TWO32;
      mem := AllocVpages(pages);
      MapRange(mem, pages);
    }

    /** vm_free for a page-multiple size: the frames of the range go back, last page first. */
    method VmFree(mem: int, size: nat)
      requires Valid() && size % PAGE_SIZE == 0 && Elems(Run(mem, size / PAGE_SIZE)) <= live
      modifies this`live, alloc
      ensures Valid() && live == old(live) - Elems(Run(mem, size / PAGE_SIZE))
      ensures |alloc.pages| == size / PAGE_SIZE + |old(alloc.pages)| && alloc.pages[size / PAGE_SIZE..] == old(alloc.pages)
      ensures forall i :: 0 <= i < size / PAGE_SIZE ==>
                Run(mem, size / PAGE_SIZE)[i] in pt && alloc.pages[size / PAGE_SIZE - 1 - i] == pt[Run(mem, size / PAGE_SIZE)[i]]
      ensures forall a :: a in old(alloc.mem) && a !in alloc.pages ==> a in alloc.mem && alloc.mem[a] == old(alloc.mem[a])
    {
      var n := size / PAGE_SIZE;
      ghost var run := Run(mem, n);
      var p, left := mem, size;
      ghost var i := 0;
      while left != 0
        invariant 0 <= i <= n && left == size - i * PAGE_SIZE && p == mem + i * PAGE_SIZE
        invariant Valid() && live == old(live) - Elems(run[..i])
        invariant |alloc.pages| == i + |old(alloc.pages)| && alloc.pages[i..] == old(alloc.pages)
        invariant forall j :: 0 <= j < i ==> run[j] in pt && alloc.pages[i - 1 - j] == pt[run[j]]
        invariant forall a :: a in old(alloc.mem) && a !in alloc.pages ==> a in alloc.mem && alloc.mem[a] == old(alloc.mem[a])
      {
        assert run[i] == p && p in Elems(run);
        assert p !in Elems(run[..i]);
        UnmapPage(p);
        assert run[..i + 1] == run[..i] + [p];
        ElemsConcat(run[..i], [p]);
        p, left := p + PAGE_SIZE, left - PAGE_SIZE;
        i := i + 1;
      }
      assert run[..n] == run;
    }
  }
}
