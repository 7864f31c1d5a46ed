/** The windows of the host bridge: placing ranges in them and translating addresses. */
module PciHost {
  import opened Machine
  import opened PciBars

  const INVALID: int := TWO64 - 1

  datatype Space = Space(kind: nat, pciStart: nat, start: nat, size: nat, used: nat)

  /** A window lies within the 64-bit addresses, and what is allocated lies within it. */
  ghost predicate Window(s: Space) {
    s.pciStart < TWO64 && s.size < TWO64 && s.pciStart + s.size <= TWO64 && s.used <= s.size
  }

  /** pci_bar_type, with the prefetch bit dropped from a register whose type is not 0. */
  function Kind(bar: nat): nat {
    if IsIo(bar) then 1
    else if bar % 8 >= 2 then bar % 8
    else bar % 16
  }

  /** 1 for I/O; the memory type for a type other than 0, prefetchable or not; else 0, or 8 for a prefetchable range. */
  lemma KindInBits(v: nat)
    ensures v % 2 == 1 ==> Kind(v) == 1
    ensures v % 2 == 0 && v / 2 % 4 != 0 ==> Kind(v) == 2 * (v / 2 % 4)
    ensures v % 2 == 0 && v / 2 % 4 == 0 ==> Kind(v) == 8 * (v / 8 % 2)
  {
    var q, r := v / 16, v % 16;
    assert v == 16 * q + r;
    DivModUnique(v, 2, 8 * q + r / 2, r % 2);
    DivModUnique(v, 8, 2 * q + r / 8, r % 8);
    DivModUnique(v / 2, 4, 2 * q + r / 8, r / 2 % 4);
    DivModUnique(v / 8, 2, q, r / 8);
  }

  // ---- one request against one window ----

  /** The first address not yet handed out. */
  function Next(s: Space): nat {
    s.pciStart + s.used
  }

  /** The address the code computes in 64-bit arithmetic. */
  function Tried(s: Space, size: nat): int
    requires size > 0
  {
    Align64(Wrap(Next(s)), size)
  }

  /** What would then be allocated, again in 64-bit arithmetic. */
  function Total(s: Space, size: nat): nat
    requires size > 0
  {
    Wrap(s.used + Wrap(size + Tried(s, size) - Wrap(Next(s))))
  }

  /** The assertion in pci_alloc_resource. */
  predicate Accepts(s: Space, size: nat)
    requires size > 0
  {
    Total(s, size) <= s.size
  }

  /** What placing a range should mean: aligned, past everything handed out, and inside the window. */
  ghost predicate Sound(s: Space, addr: int, size: nat)
    requires size > 0
  {
    addr % size == 0 && Next(s) <= addr && addr + size <= s.pciStart + s.size
  }

  /** The sum that must not pass 2^64: what would be allocated if numbers were unbounded. */
  function Needed(s: Space, size: nat): int
    requires size > 0
  {
    AlignUp(Next(s), size) + size - s.pciStart
  }

  /** The sizes a range can have: the powers of two a 64-bit word holds. */
  ghost predicate IsSize(size: nat) {
    0 < size < TWO64 && TWO64 % size == 0
  }

  lemma WrapAdd(x: int, y: int)
    ensures Wrap(x + Wrap(y)) == Wrap(x + y)
  {
    var q := y / TWO64;
    assert x + y == q * TWO64 + (x + Wrap(y));
    WrapShift(x + Wrap(y), q);
  }

  lemma WrapShift(x: int, q: int)
    ensures Wrap(q * TWO64 + x) == Wrap(x)
  {
    ModShift(x, q, TWO64);
  }

  /** The code's address is the true one, wrapped. */
  lemma TriedIsWrapped(s: Space, size: nat)
    requires Window(s) && IsSize(size)
    ensures Tried(s, size) == Wrap(AlignUp(Next(s), size))
  {
    WrapCases(Next(s));
    if Next(s) < TWO64 {
      Align64OfDivisor(Next(s), size);
    } else {
      TopIsAligned(size);
    }
  }

  lemma Telescoped(used: int, size: int, a: int, x: int)
    ensures Wrap(used + Wrap(size + Wrap(a) - Wrap(x))) == Wrap(used + size + a - x)
  {
    WrapAdd(used, size + Wrap(a) - Wrap(x));
    WrapAdd(used + size - Wrap(x), a);
    var q := x / TWO64;
    assert used + size + a - Wrap(x) == q * TWO64 + (used + size + a - x);
    WrapShift(used + size + a - x, q);
  }

  /** And so is the sum. */
  lemma TotalIsWrapped(s: Space, size: nat)
    requires Window(s) && IsSize(size)
    ensures Total(s, size) == Wrap(Needed(s, size))
  {
    TriedIsWrapped(s, size);
    Telescoped(s.used, size, AlignUp(Next(s), size), Next(s));
  }

  lemma TopIsAligned(size: nat)
    requires IsSize(size)
    ensures AlignUp(TWO64, size) == TWO64 && Align64(0, size) == 0
  {
    var q := TWO64 / size;
    assert TWO64 == q * size;
    DivModUnique(TWO64 + size - 1, size, q, size - 1);
    DivModUnique(size - 1, size, 0, size - 1);
    assert 0 * size == 0;
  }

  /** Without wrap-around a request is granted exactly when it fits, at the least aligned address. */
  lemma GrantedIffFits(s: Space, size: nat)
    requires Window(s) && IsSize(size) && Needed(s, size) < TWO64
    ensures Accepts(s, size) <==> AlignUp(Next(s), size) + size <= s.pciStart + s.size
    ensures Accepts(s, size) ==> Tried(s, size) == AlignUp(Next(s), size) && Total(s, size) == Needed(s, size) && Sound(s, Tried(s, size), size)
  {
    TriedIsWrapped(s, size);
    TotalIsWrapped(s, size);
    AlignUpProps(Next(s), size);
    var a, m := AlignUp(Next(s), size), Needed(s, size);
    WrapCases(m);
    if m <= s.size {
      WrapCases(a);
    }
  }

  lemma LeastMultiple(x: int, a: int, m: int)
    requires a > 0 && m % a == 0 && m >= x
    ensures AlignUp(x, a) <= m
  {
    AlignUpProps(x, a);
    var u := AlignUp(x, a);
    var p, q := m / a, u / a;
    assert m == p * a && u == q * a;
    if q > p {
      assert (q - p) * a == u - m;
      MultipleAtLeast(q - p, a);
    } else {
      assert (p - q) * a == m - u;
    }
  }

  /** A granted range is where it should be if and only if the sum did not pass 2^64. */
  lemma GrantSoundIffNoWrap(s: Space, size: nat)
    requires Window(s) && IsSize(size) && Accepts(s, size)
    ensures Sound(s, Tried(s, size), size) <==> Needed(s, size) < TWO64
  {
    TriedIsWrapped(s, size);
    TotalIsWrapped(s, size);
    AlignUpProps(Next(s), size);
    if Needed(s, size) < TWO64 {
      GrantedIffFits(s, size);
    } else if Sound(s, Tried(s, size), size) {
      LeastMultiple(Next(s), size, Tried(s, size));
    }
  }

  /**
   Once anything is in use in a window of the upper half of the addresses, it grants half of all addresses, at
   0, and counts itself empty again.
   */
  lemma HalfOfAllIsGranted(s: Space, half: nat)
    requires Window(s) && half == 0x8000_0000_0000_0000 && s.pciStart == s.size == half && s.used > 0
    ensures IsSize(half) && Accepts(s, half) && Tried(s, half) == 0 && Total(s, half) == 0
  {
    DivModUnique(TWO64, half, 2, 0);
    TriedIsWrapped(s, half);
    TotalIsWrapped(s, half);
    if Next(s) < TWO64 {
      AlignUpAtTop(Next(s), half);
    } else {
      TopIsAligned(half);
    }
    WrapCases(TWO64);
  }

  // ---- translation ----

  /** The test pci_host_bridge_get_paddr makes, in 64-bit arithmetic. */
  predicate Hits(s: Space, a: nat) {
    s.pciStart <= a < Wrap(s.pciStart + s.size)
  }

  /** The address is one of the window's. */
  predicate Inside(s: Space, a: nat) {
    s.pciStart <= a < s.pciStart + s.size
  }

  /** An address of a window is recognised if and only if the window ends below 2^64. */
  lemma HitsIffBelowTop(s: Space, a: nat)
    requires Window(s) && Inside(s, a)
    ensures Hits(s, a) <==> s.pciStart + s.size < TWO64
  {
    WrapCases(s.pciStart + s.size);
  }

  /** The first window from `k` on that recognises the address, or the number of windows. */
  function FirstHit(spaces: seq<Space>, a: nat, k: nat): (i: nat)
    requires k <= |spaces|
    ensures k <= i <= |spaces| && (i < |spaces| ==> Hits(spaces[i], a))
    decreases |spaces| - k
  {
    if k == |spaces| || Hits(spaces[k], a) then k else FirstHit(spaces, a, k + 1)
  }

  /** That window and no earlier one has the address between its start and its end, the end taken in 64 bits. */
  lemma {:induction false} FirstHitIs(spaces: seq<Space>, a: nat, k: nat)
    requires k <= |spaces|
    ensures var i := FirstHit(spaces, a, k);
            && (i < |spaces| ==> spaces[i].pciStart <= a < (spaces[i].pciStart + spaces[i].size) % 0x1_0000_0000_0000_0000)
            && forall j :: k <= j < i ==> !(spaces[j].pciStart <= a < (spaces[j].pciStart + spaces[j].size) % 0x1_0000_0000_0000_0000)
    decreases |spaces| - k
  {
    if k < |spaces| && !Hits(spaces[k], a) {
      FirstHitIs(spaces, a, k + 1);
    }
  }

  lemma WholeTurns(x: int)
    ensures (Wrap(x) - x) % TWO64 == 0
  {
    DivModUnique(Wrap(x) - x, TWO64, -(x / TWO64), 0);
  }

  /** pci_host_bridge_get_paddr: the first window that recognises the address translates it. */
  method GetPaddr(spaces: seq<Space>, a: nat) returns (p: nat)
    requires a < TWO64
    ensures p == var i := FirstHit(spaces, a, 0);
                 if i == |spaces| then INVALID else Wrap(Translated(spaces[i], a))
    ensures var i := FirstHit(spaces, a, 0);
            if i == |spaces| then p == 0xFFFF_FFFF_FFFF_FFFF
            else (p - spaces[i].start - (a - spaces[i].pciStart)) % 0x1_0000_0000_0000_0000 == 0
  {
    var k := 0;
    while k < |spaces|
      invariant 0 <= k <= |spaces| && FirstHit(spaces, a, k) == FirstHit(spaces, a, 0)
    {
      if Hits(spaces[k], a) {
        WholeTurns(spaces[k].start + (a - spaces[k].pciStart));
        return Wrap(spaces[k].start + (a - spaces[k].pciStart));
      }
      k := k + 1;
    }
    return INVALID;
  }

  /** No address belongs to two windows, and none of them wraps or reaches the top on either side. */
  ghost predicate Separate(spaces: seq<Space>) {
    && (forall i :: 0 <= i < |spaces| ==>
          Window(spaces[i]) && spaces[i].pciStart + spaces[i].size < TWO64 && spaces[i].start + spaces[i].size <= TWO64)
    && (forall i, j, a: nat :: 0 <= i < |spaces| && 0 <= j < |spaces| && Inside(spaces[i], a) && Inside(spaces[j], a) ==> i == j)
  }

  /** The address the CPU uses for an address of window `i`. */
  function Translated(s: Space, a: nat): int {
    s.start + (a - s.pciStart)
  }

  lemma {:induction false} OnlyHit(spaces: seq<Space>, i: nat, a: nat, k: nat)
    requires k <= i < |spaces| && Separate(spaces) && Inside(spaces[i], a)
    ensures FirstHit(spaces, a, k) == i
    decreases i - k
  {
    HitsIffBelowTop(spaces[i], a);
    WrapCases(spaces[k].pciStart + spaces[k].size);
    if k < i {
      assert !Inside(spaces[k], a);
      OnlyHit(spaces, i, a, k + 1);
    }
  }

  /** Every address of a window is translated, to an address within that window's CPU range. */
  lemma TranslatedInside(spaces: seq<Space>, i: nat, a: nat)
    requires i < |spaces| && Separate(spaces) && Inside(spaces[i], a)
    ensures FirstHit(spaces, a, 0) == i
    ensures Wrap(Translated(spaces[i], a)) == Translated(spaces[i], a)
    ensures spaces[i].start <= Translated(spaces[i], a) < spaces[i].start + spaces[i].size
    ensures Translated(spaces[i], a) - spaces[i].start == a - spaces[i].pciStart
  {
    OnlyHit(spaces, i, a, 0);
    WrapCases(Translated(spaces[i], a));
  }

  // ---- the bridge ----

  /** A range handed out: window number, address and size. */
  datatype Range = Range(space: nat, addr: int, size: nat)

  /** How a request ends: no such range in the device, no window of its kind, a failed assertion, or an address. */
  datatype Reply = NoRange | NoWindow | Abort | At(addr: nat)

  ghost predicate InWindow(spaces: seq<Space>, r: Range) {
    && r.space < |spaces| && r.size > 0 && r.addr % r.size == 0
    && spaces[r.space].pciStart <= r.addr && r.addr + r.size <= Next(spaces[r.space])
  }

  /** Ranges of one window do not overlap: they were handed out from the bottom up. */
  ghost predicate InOrder(a: Range, b: Range) {
    a.space == b.space ==> a.addr + a.size <= b.addr
  }

  ghost predicate AllPlaced(spaces: seq<Space>, log: seq<Range>) {
    && (forall i :: 0 <= i < |log| ==> InWindow(spaces, log[i]))
    && (forall i, j :: 0 <= i < j < |log| ==> InOrder(log[i], log[j]))
  }

  ghost predicate Windows(spaces: seq<Space>) {
    forall i :: 0 <= i < |spaces| ==> Window(spaces[i])
  }

  /** One more range, past everything in its window, leaves the earlier ones where they are. */
  lemma PlaceOne(spaces: seq<Space>, log: seq<Range>, i: nat, addr: int, size: nat)
    requires Windows(spaces) && AllPlaced(spaces, log) && i < |spaces| && size > 0 && Sound(spaces[i], addr, size)
    ensures var more := spaces[i := spaces[i].(used := addr + size - spaces[i].pciStart)];
            Windows(more) && AllPlaced(more, log + [Range(i, addr, size)])
  {
    var more := spaces[i := spaces[i].(used := addr + size - spaces[i].pciStart)];
    var all := log + [Range(i, addr, size)];
    forall k | 0 <= k < |all| ensures InWindow(more, all[k]) {
      assert k < |log| ==> InWindow(spaces, log[k]);
    }
    forall a, b | 0 <= a < b < |all| ensures InOrder(all[a], all[b]) {
      if b < |log| {
        assert InOrder(log[a], log[b]);
      } else {
        assert InWindow(spaces, log[a]);
      }
    }
  }

  /** The first window of a kind, or the number of windows. */
  function FirstOf(spaces: seq<Space>, kind: nat, i: nat): (r: nat)
    requires i <= |spaces|
    ensures i <= r <= |spaces| && (r < |spaces| ==> spaces[r].kind == kind)
    decreases |spaces| - i
  {
    if i == |spaces| || spaces[i].kind == kind then i else FirstOf(spaces, kind, i + 1)
  }

  lemma {:induction false} FirstOfIsFirst(spaces: seq<Space>, kind: nat, i: nat)
    requires i <= |spaces|
    ensures forall j :: i <= j < FirstOf(spaces, kind, i) ==> spaces[j].kind != kind
    decreases |spaces| - i
  {
    if i < |spaces| && spaces[i].kind != kind {
      FirstOfIsFirst(spaces, kind, i + 1);
    }
  }

  /** The window of a range is the first one of its kind, the kind being the one the register's bits say. */
  lemma WindowForIs(spaces: seq<Space>, regs: seq<Register>, n: nat)
    requires n < |regs|
    ensures var v, i := regs[n].value, WindowFor(spaces, regs, n);
            var kind := if v % 2 == 1 then 1 else if v / 2 % 4 != 0 then 2 * (v / 2 % 4) else 8 * (v / 8 % 2);
            && (i < |spaces| ==> spaces[i].kind == kind)
            && forall j :: 0 <= j < i ==> spaces[j].kind != kind
  {
    KindInBits(regs[n].value);
    FirstOfIsFirst(spaces, Kind(regs[n].value), 0);
  }

  lemma SizeIsPower(regs: seq<Register>, n: nat)
    requires Decodes(regs, n) && SizeOf(regs, n) > 0
    ensures IsSize(SizeOf(regs, n))
  {
    if Is64(regs[n].value) && regs[n + 1].step != 1 {
      var step := regs[n + 1].step;
      var q := TWO32 / step;
      assert TWO32 == q * step;
      assert TWO64 == TWO32 * TWO32 == q * (step * TWO32);
      DivModUnique(TWO64, step * TWO32, q, 0);
    } else {
      var step := regs[n].step;
      var q := TWO32 / step;
      assert TWO32 == q * step;
      assert TWO64 == (TWO32 * q) * step;
      DivModUnique(TWO64, step, TWO32 * q, 0);
    }
  }

  /** The window a range of the device is placed in, or the number of windows if there is none of its kind. */
  function WindowFor(spaces: seq<Space>, regs: seq<Register>, n: nat): (i: nat)
    requires n < |regs|
    ensures i <= |spaces|
  {
    FirstOf(spaces, Kind(regs[n].value), 0)
  }

  ghost predicate NoWrap(spaces: seq<Space>, regs: seq<Register>, n: nat)
    requires Decodes(regs, n)
  {
    var i, size := WindowFor(spaces, regs, n), SizeOf(regs, n);
    i < |spaces| && size > 0 ==> Needed(spaces[i], size) < TWO64
  }

  ghost predicate SameWindows(a: seq<Space>, b: seq<Space>) {
    |a| == |b| && forall i :: 0 <= i < |a| ==> a[i].size == b[i].size && a[i].kind == b[i].kind
  }

  /** Range `n` of the device is at the place that was handed out for it. */
  ghost predicate MappedAt(regs: seq<Register>, n: nat, r: Range) {
    Decodes(regs, n) && AddrOf(regs, n) == r.addr && SizeOf(regs, n) == r.size
  }

  /** How many registers a range takes. */
  function Width(bar: nat): nat {
    if Is64(bar) then 2 else 1
  }

  lemma WidthInBits(v: nat)
    ensures Width(v) == if v % 2 == 0 && v / 2 % 4 == 2 then 2 else 1
  {
    TypeBits(v);
  }

  /** The registers from `n` on decode ranges, one after another. */
  ghost predicate Device(regs: seq<Register>, n: nat)
    decreases BAR_NUM - n
  {
    |regs| == BAR_NUM && (n < BAR_NUM ==> Decodes(regs, n) && Device(regs, n + Width(regs[n].value)))
  }

  /** Every window and twice every range together stay within 2^64. */
  ghost predicate Roomy(spaces: seq<Space>, regs: seq<Register>, n: nat)
    requires Device(regs, n)
    decreases BAR_NUM - n
  {
    n < BAR_NUM ==>
      && (forall i :: 0 <= i < |spaces| ==> spaces[i].size + 2 * SizeOf(regs, n) <= TWO64)
      && Roomy(spaces, regs, n + Width(regs[n].value))
  }

  /** The ranges from `n` on that have a size and a window of their kind, after those already found. */
  ghost function Wanted(spaces: seq<Space>, regs: seq<Register>, n: nat, found: seq<nat>): seq<nat>
    requires Device(regs, n)
    decreases BAR_NUM - n
  {
    if n >= BAR_NUM then found
    else
      var more := if IsWanted(spaces, regs, n) then found + [n] else found;
      Wanted(spaces, regs, n + Width(regs[n].value), more)
  }

  /**
   A device with a 64-bit range, a 32-bit range, an I/O range and two empty registers, before windows of a
   terabyte and less.
   */
  lemma TypicalDevice(regs: seq<Register>, spaces: seq<Space>)
    requires regs == [Register(4, 0x1000), Register(0, 1), Register(0, 0x10_0000), Register(1, 0x100), Register(0, TWO32), Register(0, TWO32)]
    requires |spaces| == 3 && forall i :: 0 <= i < 3 ==> spaces[i].size <= 0x100_0000_0000
    ensures Device(regs, 0) && Roomy(spaces, regs, 0)
  {
    assert Device(regs, 6) && Roomy(spaces, regs, 6);
    assert Device(regs, 5) && Roomy(spaces, regs, 5);
    assert Device(regs, 4) && Roomy(spaces, regs, 4);
    assert Device(regs, 3) && Roomy(spaces, regs, 3);
    assert Device(regs, 2) && Roomy(spaces, regs, 2);
  }

  lemma RoomyNoWrap(spaces: seq<Space>, regs: seq<Register>, n: nat)
    requires n < BAR_NUM && Device(regs, n) && Windows(spaces) && Roomy(spaces, regs, n)
    ensures NoWrap(spaces, regs, n)
  {
    var i, size := WindowFor(spaces, regs, n), SizeOf(regs, n);
    if i < |spaces| && size > 0 {
      AlignUpProps(Next(spaces[i]), size);
    }
  }

  lemma {:induction false} FirstOfSame(a: seq<Space>, b: seq<Space>, kind: nat, i: nat)
    requires SameWindows(a, b) && i <= |a|
    ensures FirstOf(a, kind, i) == FirstOf(b, kind, i)
    decreases |a| - i
  {
    if i < |a| && a[i].kind != kind {
      FirstOfSame(a, b, kind, i + 1);
    }
  }

  /** What is still to be probed does not depend on what was programmed or handed out so far. */
  lemma {:induction false} RestIsSame(a: seq<Space>, b: seq<Space>, was: seq<Register>, regs: seq<Register>, n: nat, found: seq<nat>)
    requires SameWindows(a, b) && |regs| == BAR_NUM && Device(was, n) && Roomy(a, was, n)
    requires forall k :: n <= k < BAR_NUM ==> was[k] == regs[k]
    ensures Device(regs, n) && Roomy(b, regs, n) && Wanted(a, was, n, found) == Wanted(b, regs, n, found)
    decreases BAR_NUM - n
  {
    if n < BAR_NUM {
      FirstOfSame(a, b, Kind(was[n].value), 0);
      var more := if IsWanted(a, was, n) then found + [n] else found;
      RestIsSame(a, b, was, regs, n + Width(was[n].value), more);
    }
  }

  /** The ranges listed are where they were placed, and they end before register `lim`. */
  ghost predicate AllMapped(regs: seq<Register>, bars: seq<nat>, ranges: seq<Range>, lim: nat)
    decreases |bars|
  {
    && |bars| == |ranges|
    && (bars != [] ==>
          var n := |bars| - 1;
          && MappedAt(regs, bars[n], ranges[n]) && bars[n] + Width(regs[bars[n]].value) <= lim
          && AllMapped(regs, bars[..n], ranges[..n], lim))
  }

  lemma {:induction false} MappedStays(was: seq<Register>, regs: seq<Register>, bars: seq<nat>, ranges: seq<Range>, lim: nat, next: nat)
    requires AllMapped(was, bars, ranges, lim) && lim <= next && |was| == |regs| == BAR_NUM
    requires forall k :: 0 <= k < lim && k < BAR_NUM ==> was[k] == regs[k]
    ensures AllMapped(regs, bars, ranges, next)
    decreases |bars|
  {
    if bars != [] {
      MappedStays(was, regs, bars[..|bars| - 1], ranges[..|bars| - 1], lim, next);
    }
  }

  /** A range placed past the others joins them. */
  lemma MappedOne(was: seq<Register>, regs: seq<Register>, bars: seq<nat>, ranges: seq<Range>, n: nat, r: Range, next: nat)
    requires AllMapped(was, bars, ranges, n) && |was| == |regs| == BAR_NUM && n < BAR_NUM
    requires forall k :: 0 <= k < n ==> was[k] == regs[k]
    requires MappedAt(regs, n, r) && next == n + Width(regs[n].value)
    ensures AllMapped(regs, bars + [n], ranges + [r], next)
  {
    MappedStays(was, regs, bars, ranges, n, next);
    assert (bars + [n])[..|bars|] == bars && (ranges + [r])[..|bars|] == ranges;
  }

  /** The range has a size and there is a window of its kind. */
  predicate IsWanted(spaces: seq<Space>, regs: seq<Register>, n: nat)
    requires n < BAR_NUM == |regs| && (Is64(regs[n].value) ==> n + 1 < BAR_NUM)
  {
    SizeOf(regs, n) > 0 && WindowFor(spaces, regs, n) < |spaces|
  }

  /** The least aligned place past everything handed out ends inside the window, and below 2^32 unless the range is a 64-bit one. */
  ghost predicate HasPlace(spaces: seq<Space>, regs: seq<Register>, n: nat)
    requires Decodes(regs, n) && IsWanted(spaces, regs, n)
  {
    var s, size := spaces[WindowFor(spaces, regs, n)], SizeOf(regs, n);
    var addr := AlignUp(Next(s), size);
    addr + size <= s.pciStart + s.size && (Is64(regs[n].value) || addr < TWO32)
  }

  /** The windows after the range got that place. */
  ghost function WithPlace(spaces: seq<Space>, regs: seq<Register>, n: nat): (r: seq<Space>)
    requires Decodes(regs, n) && IsWanted(spaces, regs, n) && HasPlace(spaces, regs, n) && Windows(spaces)
    ensures SameWindows(spaces, r)
  {
    var i, size := WindowFor(spaces, regs, n), SizeOf(regs, n);
    AlignUpProps(Next(spaces[i]), size);
    spaces[i := spaces[i].(used := AlignUp(Next(spaces[i]), size) + size - spaces[i].pciStart)]
  }

  lemma PlacedWindows(spaces: seq<Space>, regs: seq<Register>, n: nat)
    requires Decodes(regs, n) && IsWanted(spaces, regs, n) && HasPlace(spaces, regs, n) && Windows(spaces)
    ensures Windows(WithPlace(spaces, regs, n))
  {
    AlignUpProps(Next(spaces[WindowFor(spaces, regs, n)]), SizeOf(regs, n));
  }

  /** Each wanted range from `n` on has a place, one after another. */
  ghost predicate Succeeds(spaces: seq<Space>, regs: seq<Register>, n: nat)
    requires Device(regs, n) && Windows(spaces)
    decreases BAR_NUM - n
  {
    n < BAR_NUM ==>
      var next := n + Width(regs[n].value);
      if !IsWanted(spaces, regs, n) then Succeeds(spaces, regs, next)
      else
        && HasPlace(spaces, regs, n)
        && (PlacedWindows(spaces, regs, n); Succeeds(WithPlace(spaces, regs, n), regs, next))
  }

  /** When the sum of its window does not pass 2^64 a wanted range is granted exactly when it fits, and its count is the true one. */
  lemma PlaceIff(spaces: seq<Space>, regs: seq<Register>, n: nat)
    requires Decodes(regs, n) && Windows(spaces) && NoWrap(spaces, regs, n)
    ensures IsWanted(spaces, regs, n) ==>
              var s, size := spaces[WindowFor(spaces, regs, n)], SizeOf(regs, n);
              var addr := AlignUp(Next(s), size);
              && (Accepts(s, size) <==> addr + size <= s.pciStart + s.size)
              && (Accepts(s, size) ==> Tried(s, size) == addr && Total(s, size) == addr + size - s.pciStart)
  {
    if IsWanted(spaces, regs, n) {
      SizeIsPower(regs, n);
      GrantedIffFits(spaces[WindowFor(spaces, regs, n)], SizeOf(regs, n));
    }
  }

  /** No aligned address is the invalid one. */
  lemma NotInvalid(regs: seq<Register>, n: nat, addr: nat)
    requires Decodes(regs, n) && SizeOf(regs, n) > 0 && addr % SizeOf(regs, n) == 0
    ensures addr != TWO64 - 1
  {
    SizeIsPower(regs, n);
    EvenSize(regs, n);
    MultipleOfMultiple(addr, SizeOf(regs, n), 2);
  }

  lemma EvenSize(regs: seq<Register>, n: nat)
    requires Decodes(regs, n) && SizeOf(regs, n) > 0
    ensures SizeOf(regs, n) % 2 == 0
  {
    if Is64(regs[n].value) && regs[n + 1].step != 1 {
      assert regs[n + 1].step * TWO32 == (regs[n + 1].step * 0x8000_0000) * 2;
    } else {
      MultipleOfMultiple(regs[n].step, Unit(regs[n].value), 2);
    }
  }

  lemma AppendRange(a: seq<Range>, b: seq<Range>, r: Range)
    ensures (a + b) + [r] == a + (b + [r])
  {
  }

  lemma SameRange(spaces: seq<Space>, was: seq<Register>, regs: seq<Register>, n: nat)
    requires Decodes(was, n) && Decodes(regs, n) && Windows(spaces) && forall k :: n <= k < BAR_NUM ==> was[k] == regs[k]
    ensures IsWanted(spaces, was, n) == IsWanted(spaces, regs, n)
    ensures IsWanted(spaces, was, n) ==> HasPlace(spaces, was, n) == HasPlace(spaces, regs, n)
    ensures IsWanted(spaces, was, n) && HasPlace(spaces, was, n) ==> WithPlace(spaces, was, n) == WithPlace(spaces, regs, n)
  {
    assert SizeOf(was, n) == SizeOf(regs, n);
  }

  /** Whether the rest succeeds does not depend on what was programmed so far. */
  lemma {:induction false} SucceedsSame(spaces: seq<Space>, was: seq<Register>, regs: seq<Register>, n: nat)
    requires Device(was, n) && Device(regs, n) && Windows(spaces) && forall k :: n <= k < BAR_NUM ==> was[k] == regs[k]
    ensures Succeeds(spaces, was, n) == Succeeds(spaces, regs, n)
    decreases BAR_NUM - n
  {
    if n < BAR_NUM {
      var next := n + Width(was[n].value);
      SameRange(spaces, was, regs, n);
      if !IsWanted(spaces, was, n) {
        SucceedsSame(spaces, was, regs, next);
      } else if HasPlace(spaces, was, n) {
        PlacedWindows(spaces, was, n);
        SucceedsSame(WithPlace(spaces, was, n), was, regs, next);
      }
    }
  }

  /** What one turn of the probe leaves to do when range `n` was placed. */
  lemma TurnedPlaced(a: seq<Space>, was: seq<Register>, regs: seq<Register>, n: nat, next: nat, bars: seq<nat>)
    requires n < BAR_NUM == |regs| && Device(was, n) && Windows(a) && Roomy(a, was, n)
    requires next == n + Width(was[n].value) && forall k :: next <= k < BAR_NUM ==> was[k] == regs[k]
    requires IsWanted(a, was, n) && HasPlace(a, was, n)
    ensures var b := WithPlace(a, was, n);
            && next <= BAR_NUM && Device(regs, next) && Windows(b) && Roomy(b, regs, next)
            && Wanted(b, regs, next, bars + [n]) == Wanted(a, was, n, bars)
            && Succeeds(b, regs, next) == Succeeds(a, was, n)
  {
    PlacedWindows(a, was, n);
    RestIsSame(a, WithPlace(a, was, n), was, regs, next, bars + [n]);
    SucceedsSame(WithPlace(a, was, n), was, regs, next);
  }

  /** What one turn leaves when range `n` was not wanted. */
  lemma TurnedSkipped(regs: seq<Register>, spaces: seq<Space>, n: nat, next: nat, bars: seq<nat>, ranges: seq<Range>)
    requires n < BAR_NUM && Device(regs, n) && Windows(spaces) && Roomy(spaces, regs, n) && AllMapped(regs, bars, ranges, n)
    requires next == n + Width(regs[n].value) && !IsWanted(spaces, regs, n)
    ensures next <= BAR_NUM && Device(regs, next) && Roomy(spaces, regs, next) && AllMapped(regs, bars, ranges, next)
    ensures Wanted(spaces, regs, next, bars) == Wanted(spaces, regs, n, bars)
    ensures Succeeds(spaces, regs, next) == Succeeds(spaces, regs, n)
  {
    MappedStays(regs, regs, bars, ranges, n, next);
  }

  /** pci_bar_set_addr with an address that was handed out for the range. */
  method Program(dev: PciDev, n: nat, addr: nat) returns (ok: bool)
    requires Decodes(dev.regs, n) && SizeOf(dev.regs, n) > 0 && addr < TWO64 && addr % SizeOf(dev.regs, n) == 0
    modifies dev
    ensures |dev.regs| == BAR_NUM && (ok <==> Is64(old(dev.regs[n].value)) || addr < TWO32)
    ensures ok ==> Decodes(dev.regs, n) && AddrOf(dev.regs, n) == addr && SizeOf(dev.regs, n) == old(SizeOf(dev.regs, n))
    ensures ok ==> Width(dev.regs[n].value) == Width(old(dev.regs[n].value))
    ensures ok ==> forall k :: 0 <= k < BAR_NUM && (k < n || k >= n + Width(old(dev.regs[n].value))) ==> dev.regs[k] == old(dev.regs[k])
  {
    ghost var regs := dev.regs;
    NotInvalid(regs, n, addr);
    TypeBits(regs[n].value);
    ok := dev.SetAddr(n, addr);
    if ok {
      ProgrammedAligned(regs, n, addr);
      KeepsKind(regs[n], addr % TWO32);
    }
  }

  class Bridge {
    var spaces: seq<Space>
    ghost var log: seq<Range>

    ghost predicate Valid()
      reads this
    {
      Windows(spaces) && AllPlaced(spaces, log)
    }

    /** The arithmetic of pci_alloc_resource, on window `i`. */
    method Place(i: nat, size: nat) returns (r: Reply)
      requires Valid() && i < |spaces| && IsSize(size)
      modifies this
      ensures old(Needed(spaces[i], size)) < TWO64 ==> Valid()
      ensures if old(Accepts(spaces[i], size)) then r.At? else r.Abort?
      ensures r.At? ==>
                && r.addr == old(Tried(spaces[i], size)) < TWO64
                && spaces == old(spaces[i := spaces[i].(used := Total(spaces[i], size))])
                && log == old(log) + [Range(i, r.addr, size)]
                && (old(Needed(spaces[i], size)) < TWO64 ==> old(Sound(spaces[i], Tried(spaces[i], size), size)))
      ensures !r.At? ==> spaces == old(spaces) && log == old(log)
    {
      var s := spaces[i];
      TriedIsWrapped(s, size);
      var addr := Align64(Wrap(s.pciStart + s.used), size);
      var more := Wrap(size + addr - Wrap(s.pciStart + s.used));
      if Wrap(s.used + more) > s.size {
        return Abort;
      }
      if Needed(s, size) < TWO64 {
        GrantedIffFits(s, size);
        PlaceOne(spaces, log, i, addr, size);
      }
      spaces := spaces[i := s.(used := Wrap(s.used + more))];
      log := log + [Range(i, addr, size)];
      return At(addr);
    }

    /**
     pci_alloc_resource for range `n` of a device. As long as the sum of its window does not pass 2^64, what is
     handed out stays placed.
     */
    method AllocResource(dev: PciDev, n: nat) returns (r: Reply)
      requires Valid() && Decodes(dev.regs, n)
      modifies this, dev
      ensures dev.regs == old(dev.regs)
      ensures NoWrap(old(spaces), dev.regs, n) ==> Valid()
      ensures r.NoRange? <==> SizeOf(dev.regs, n) == 0
      ensures r.NoWindow? <==> SizeOf(dev.regs, n) > 0 && WindowFor(old(spaces), dev.regs, n) == |old(spaces)|
      ensures r.Abort? <==> SizeOf(dev.regs, n) > 0 && WindowFor(old(spaces), dev.regs, n) < |old(spaces)|
                            && !Accepts(old(spaces)[WindowFor(old(spaces), dev.regs, n)], SizeOf(dev.regs, n))
      ensures r.At? ==>
                var i, size := WindowFor(old(spaces), dev.regs, n), SizeOf(dev.regs, n);
                && i < |old(spaces)| && size > 0 && r.addr < TWO64
                && r.addr == Tried(old(spaces)[i], size)
                && spaces == old(spaces)[i := old(spaces)[i].(used := Total(old(spaces)[i], size))]
                && log == old(log) + [Range(i, r.addr, size)]
                && (NoWrap(old(spaces), dev.regs, n) ==> Sound(old(spaces)[i], r.addr, size))
      ensures !r.At? ==> spaces == old(spaces) && log == old(log)
    {
      var size := dev.BarSize(n);
      if size == 0 {
        return NoRange;
      }
      SizeIsPower(dev.regs, n);
      var kind := Kind(dev.regs[n].value);
      var i := 0;
      while i < |spaces|
        invariant i <= |spaces| && FirstOf(spaces, kind, i) == FirstOf(spaces, kind, 0)
      {
        if spaces[i].kind == kind {
          break;
        }
        i := i + 1;
      }
      if i >= |spaces| {
        return NoWindow;
      }
      r := Place(i, size);
    }

    /** One range: a window is found for it and its address is programmed; false when an assertion fails. */
    method ProbeOne(dev: PciDev, n: nat) returns (ok: bool, placed: bool, ghost r: Range)
      requires Valid() && Decodes(dev.regs, n) && NoWrap(spaces, dev.regs, n)
      modifies this, dev
      ensures Valid() && |dev.regs| == BAR_NUM
      ensures ok <==> (IsWanted(old(spaces), old(dev.regs), n) ==> HasPlace(old(spaces), old(dev.regs), n))
      ensures ok ==> (placed <==> IsWanted(old(spaces), old(dev.regs), n))
      ensures ok ==> Width(dev.regs[n].value) == Width(old(dev.regs[n].value))
      ensures ok ==> forall k :: 0 <= k < BAR_NUM && (k < n || k >= n + Width(old(dev.regs[n].value))) ==> dev.regs[k] == old(dev.regs[k])
      ensures ok && !placed ==> spaces == old(spaces) && log == old(log) && dev.regs == old(dev.regs)
      ensures ok && placed ==> spaces == WithPlace(old(spaces), old(dev.regs), n)
      ensures ok && placed ==> log == old(log) + [r] && MappedAt(dev.regs, n, r)
    {
      r := Range(0, 0, 0);
      PlaceIff(spaces, dev.regs, n);
      var reply := AllocResource(dev, n);
      if reply.Abort? {
        return false, false, r;
      }
      if !reply.At? {
        return true, false, r;
      }
      r := log[|log| - 1];
      ok := Program(dev, n, reply.addr);
      placed := true;
    }

    /** One turn of the loop of pci_probe over the ranges of a device: range `n` is placed if it is wanted. */
    method ProbeTurn(dev: PciDev, n: nat, bars: seq<nat>, ghost ranges: seq<Range>, ghost earlier: seq<Range>)
      returns (ok: bool, next: nat, more: seq<nat>, ghost mapped: seq<Range>)
      requires Valid() && n < BAR_NUM && Device(dev.regs, n) && Roomy(spaces, dev.regs, n)
      requires AllMapped(dev.regs, bars, ranges, n) && log == earlier + ranges
      modifies this, dev
      ensures Valid()
      ensures ok ==> n < next <= BAR_NUM && Device(dev.regs, next) && Roomy(spaces, dev.regs, next)
      ensures ok ==> Wanted(spaces, dev.regs, next, more) == old(Wanted(spaces, dev.regs, n, bars))
      ensures if ok then Succeeds(spaces, dev.regs, next) == old(Succeeds(spaces, dev.regs, n)) else !old(Succeeds(spaces, dev.regs, n))
      ensures ok ==> AllMapped(dev.regs, more, mapped, next) && log == earlier + mapped
    {
      RoomyNoWrap(spaces, dev.regs, n);
      ghost var regs, windows, end := dev.regs, spaces, n + Width(dev.regs[n].value);
      var placed;
      ghost var r;
      ok, placed, r := ProbeOne(dev, n);
      more, mapped, next := bars, ranges, n;
      if ok {
        next := n + Width(dev.regs[n].value);
        assert next == end;
        if placed {
          AppendRange(earlier, ranges, r);
          more, mapped := bars + [n], ranges + [r];
          TurnedPlaced(windows, regs, dev.regs, n, end, bars);
          MappedOne(regs, dev.regs, bars, ranges, n, r, end);
        } else {
          TurnedSkipped(regs, windows, n, end, bars, ranges);
        }
      }
    }

    /**
     The loop of pci_probe over the ranges of one device; false when an assertion fails on the way, which is exactly when some
     range that has a size and a window finds no place in it. Otherwise each of these ranges is programmed.
     */
    method ProbeBars(dev: PciDev) returns (ok: bool, bars: seq<nat>, ghost ranges: seq<Range>)
      requires Valid() && Device(dev.regs, 0) && Roomy(spaces, dev.regs, 0)
      modifies this, dev
      ensures Valid() && (ok <==> Succeeds(old(spaces), old(dev.regs), 0))
      ensures ok ==> bars == Wanted(old(spaces), old(dev.regs), 0, [])
      ensures ok ==> log == old(log) + ranges && AllMapped(dev.regs, bars, ranges, BAR_NUM)
    {
      bars, ranges := [], [];
      ghost var goal, good := Wanted(spaces, dev.regs, 0, []), Succeeds(spaces, dev.regs, 0);
      var i := 0;
      ok := true;
      assert log + ranges == log;
      while i < BAR_NUM
        invariant i <= BAR_NUM && ok && Valid() && Device(dev.regs, i) && Roomy(spaces, dev.regs, i)
        invariant Wanted(spaces, dev.regs, i, bars) == goal && Succeeds(spaces, dev.regs, i) == good
        invariant log == old(log) + ranges && AllMapped(dev.regs, bars, ranges, i)
      {
        ok, i, bars, ranges := ProbeTurn(dev, i, bars, ranges, old(log));
        if !ok {
          return;
        }
      }
    }
  }
}
