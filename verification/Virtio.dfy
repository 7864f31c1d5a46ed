/**
 The split virtqueue (section 2.6 of VIRTIO 1.1): the driver's descriptor free list, the
 available ring it writes, the used ring the device writes, and 16-bit ring indices that
 wrap. Driver and device are stepped in any order.
 */
module Virtio {
  import opened Machine

  const IDX: int := 0x1_0000   // ring indices are 16 bits wide

  datatype Desc = Desc(addr: int, len: int, flags: bv16, next: int)
  datatype Used = Used(id: int, len: int)

  const VRING_DESC_F_NEXT: bv16 := 1

  // ----- ring slots -----

  /** The slot of the `k`-th entry in a ring of `n`. */
  function Slot(k: nat, n: nat): (r: nat)
    requires n > 0
    ensures r < n
    decreases k
  {
    if k < n then k else Slot(k - n, n)
  }

  lemma {:induction false} SlotIsMod(k: nat, n: nat)
    requires n > 0
    ensures Slot(k, n) == k % n
  {
    if k < n {
      assert 0 * n == 0;
      DivModUnique(k, n, 0, k);
    } else {
      SlotIsMod(k - n, n);
      var q := (k - n) / n;
      assert (q + 1) * n == q * n + n;
      DivModUnique(k, n, q + 1, (k - n) % n);
    }
  }

  /** The ring size divides the range of the indices, as every power of two below it does. */
  predicate GoodSize(num: nat) {
    0 < num < IDX && Slot(IDX, num) == 0
  }

  lemma Pow2Of16()
    ensures Pow2(16) == IDX
  {
    assert Pow2(8) == 0x100;
  }

  lemma DividesIndexRange(k: nat)
    requires k < 16
    ensures Pow2(k) < IDX && IDX % Pow2(k) == 0
  {
    Pow2Of16();
    Pow2Add(16 - k, k);
    FactorOf(Pow2(16 - k), Pow2(k), IDX);
  }

  /** Every power of two up to 2^15 is a good size. */
  lemma PowersOfTwoAreGood(k: nat)
    requires k < 16
    ensures GoodSize(Pow2(k))
  {
    DividesIndexRange(k);
    SlotIsMod(IDX, Pow2(k));
  }

  lemma {:induction false} SlotAdd(a: nat, b: nat, n: nat)
    requires n > 0 && Slot(b, n) == 0
    ensures Slot(a + b, n) == Slot(a, n)
    decreases b
  {
    if b >= n {
      SlotAdd(a, b - n, n);
    }
  }

  /** `idx & (num - 1)` on a 16-bit index is the slot of the count the index stands for. */
  lemma {:induction false} SlotOfIndex(k: nat, num: nat)
    requires GoodSize(num)
    ensures k % IDX % num == Slot(k, num)
    decreases k
  {
    if k < IDX {
      SlotIsMod(k, num);
    } else {
      SlotOfIndex(k - IDX, num);
      SlotAdd(k - IDX, IDX, num);
      ModShift(k - IDX, 1, IDX);
    }
  }

  /** Counts less than `n` apart use different slots. */
  lemma {:induction false} SlotsDiffer(i: nat, j: nat, n: nat)
    requires i < j < i + n
    ensures Slot(i, n) != Slot(j, n)
    decreases i
  {
    if i >= n {
      SlotsDiffer(i - n, j - n, n);
    }
  }

  lemma NextIndex(k: nat)
    ensures (k % IDX + 1) % IDX == (k + 1) % IDX
  {
  }

  /** Indices of counts at most `num` apart agree only when the counts do. */
  lemma IndexTellsCount(lo: nat, hi: nat, num: nat)
    requires lo <= hi <= lo + num && num < IDX
    ensures lo % IDX == hi % IDX <==> lo == hi
  {
  }

  /** The slots of the entries from `lo` on hold what `hist` recorded for them. */
  ghost predicate RingHolds<T>(ring: seq<T>, hist: seq<T>, lo: nat) {
    |ring| > 0 && lo <= |hist| && forall k :: lo <= k < |hist| ==> ring[Slot(k, |ring|)] == hist[k]
  }

  /** Appending to a ring that is not full overwrites nothing the other side has yet to read. */
  lemma RingAppend<T>(ring: seq<T>, hist: seq<T>, lo: nat, x: T)
    requires RingHolds(ring, hist, lo) && |hist| - lo < |ring|
    ensures RingHolds(ring[Slot(|hist|, |ring|) := x], hist + [x], lo)
  {
    forall k | lo <= k < |hist|
      ensures Slot(k, |ring|) != Slot(|hist|, |ring|)
    {
      SlotsDiffer(k, |hist|, |ring|);
    }
  }

  // ----- the descriptor free list -----

  ghost predicate Linked(desc: seq<Desc>, s: seq<int>, i: nat)
    requires i + 1 < |s|
  {
    0 <= s[i] < |desc| && desc[s[i]].next == s[i + 1]
  }

  /** `num_free` steps from `free_head` visit exactly `s`; the last link is not read. */
  ghost predicate FreeChain(desc: seq<Desc>, head: int, s: seq<int>) {
    (s != [] ==> head == s[0]) && forall i: nat :: i + 1 < |s| ==> Linked(desc, s, i)
  }

  function Ids(n: nat): seq<int> {
    seq(n, i => i)
  }

  lemma IdsCount(n: nat, h: int)
    ensures multiset(Ids(n))[h] == if 0 <= h < n then 1 else 0
  {
    if n > 0 {
      IdsCount(n - 1, h);
      assert Ids(n) == Ids(n - 1) + [n - 1];
    }
  }

  /** Distinct descriptor numbers below `n`. */
  ghost predicate Simple(s: seq<int>, n: nat) {
    && (forall i :: 0 <= i < |s| ==> 0 <= s[i] < n)
    && forall i, j :: 0 <= i < j < |s| ==> s[i] != s[j]
  }

  lemma SubsetIsSimple(s: seq<int>, n: nat)
    requires multiset(s) <= multiset(Ids(n))
    ensures Simple(s, n)
  {
    forall i | 0 <= i < |s|
      ensures 0 <= s[i] < n
    {
      assert s[i] in multiset(s);
      IdsCount(n, s[i]);
    }
    forall i, j | 0 <= i < j < |s|
      ensures s[i] != s[j]
    {
      assert s == s[..j] + [s[j]] + s[j + 1..];
      assert s[i] in multiset(s[..j]);
      IdsCount(n, s[i]);
    }
  }

  /** Every descriptor is on the free list or in flight, exactly once. */
  ghost predicate Shared(free: seq<int>, flight: seq<int>, n: nat) {
    Permutes(free + flight, n)
  }

  /** `s` lists the numbers below `n`, each once: take out the largest and the rest does the same. */
  ghost predicate Permutes(s: seq<int>, n: nat)
    decreases n
  {
    if n == 0 then s == []
    else exists i :: 0 <= i < |s| && s[i] == n - 1 && Permutes(s[..i] + s[i + 1..], n - 1)
  }

  lemma Cancel(a: multiset<int>, b: multiset<int>, x: int)
    ensures a + multiset{x} == b + multiset{x} <==> a == b
  {
    if a + multiset{x} == b + multiset{x} {
      assert a == a + multiset{x} - multiset{x};
      assert b == b + multiset{x} - multiset{x};
    }
  }

  lemma WithoutLargest(s: seq<int>, n: nat, i: nat)
    requires n > 0 && i < |s| && s[i] == n - 1
    ensures multiset(s[..i] + s[i + 1..]) == multiset(Ids(n - 1)) <==> multiset(s) == multiset(Ids(n))
  {
    var rest := s[..i] + s[i + 1..];
    assert s == s[..i] + [s[i]] + s[i + 1..];
    assert multiset(s) == multiset(rest) + multiset{n - 1};
    assert Ids(n) == Ids(n - 1) + [n - 1];
    Cancel(multiset(rest), multiset(Ids(n - 1)), n - 1);
  }

  lemma {:induction false} PermutesIsMultiset(s: seq<int>, n: nat)
    ensures Permutes(s, n) <==> multiset(s) == multiset(Ids(n))
  {
    if n == 0 {
      assert s != [] ==> s[0] in multiset(s);
    } else {
      forall i | 0 <= i < |s| && s[i] == n - 1
        ensures Permutes(s[..i] + s[i + 1..], n - 1) <==> multiset(s) == multiset(Ids(n))
      {
        PermutesIsMultiset(s[..i] + s[i + 1..], n - 1);
        WithoutLargest(s, n, i);
      }
      if multiset(s) == multiset(Ids(n)) {
        assert Ids(n)[n - 1] == n - 1;
        assert n - 1 in multiset(s);
        assert n - 1 in s;
      }
    }
  }

  /** Moving one number between lists keeps them a permutation. */
  lemma SharedMoves(free: seq<int>, flight: seq<int>, free': seq<int>, flight': seq<int>, n: nat)
    requires Shared(free, flight, n) && multiset(free) + multiset(flight) == multiset(free') + multiset(flight')
    ensures Shared(free', flight', n)
  {
    PermutesIsMultiset(free + flight, n);
    PermutesIsMultiset(free' + flight', n);
  }

  lemma AllAccounted(free: seq<int>, flight: seq<int>, n: nat)
    requires Shared(free, flight, n)
    ensures |free| + |flight| == n && Simple(free, n) && Simple(flight, n)
    ensures forall i, j :: 0 <= i < |free| && 0 <= j < |flight| ==> free[i] != flight[j]
  {
    PermutesIsMultiset(free + flight, n);
    assert |multiset(free + flight)| == |free| + |flight|;
    assert |multiset(Ids(n))| == n;
    SubsetIsSimple(free + flight, n);
    SubsetIsSimple(free, n);
    SubsetIsSimple(flight, n);
    forall i, j | 0 <= i < |free| && 0 <= j < |flight|
      ensures free[i] != flight[j]
    {
      assert (free + flight)[i] == free[i] && (free + flight)[|free| + j] == flight[j];
    }
  }

  /** `data` is NULL exactly for the free descriptors. */
  ghost predicate DataTells(data: seq<int>, free: seq<int>) {
    forall h :: 0 <= h < |data| ==> (data[h] == 0 <==> h in free)
  }

  lemma SplitHead(s: seq<int>)
    requires s != []
    ensures multiset(s) == multiset{s[0]} + multiset(s[1..])
  {
    assert s == [s[0]] + s[1..];
  }

  lemma DataTake(data: seq<int>, free: seq<int>, buf: int)
    requires DataTells(data, free) && free != [] && Simple(free, |data|) && buf != 0
    ensures DataTells(data[free[0] := buf], free[1..]) && data[free[0]] == 0
  {
    assert free == [free[0]] + free[1..];
  }

  lemma DataGive(data: seq<int>, free: seq<int>, h: int)
    requires DataTells(data, free) && 0 <= h < |data|
    ensures DataTells(data[h := 0], [h] + free)
  {
  }

  /** The first descriptor leaves the list; its own entry may be rewritten. */
  lemma FreeChainPop(desc: seq<Desc>, desc': seq<Desc>, head: int, s: seq<int>, n: nat)
    requires |desc| == |desc'| == n && s != [] && Simple(s, n) && FreeChain(desc, head, s)
    requires forall h :: 0 <= h < n && h != s[0] ==> desc'[h].next == desc[h].next
    ensures FreeChain(desc', desc[s[0]].next, s[1..])
  {
    if |s| > 1 {
      assert Linked(desc, s, 0);
    }
    forall i: nat | i + 1 < |s[1..]|
      ensures Linked(desc', s[1..], i)
    {
      assert Linked(desc, s, i + 1);
    }
  }

  /** A chain of descriptors goes in front of the list, its last link set to the old head. */
  lemma FreeChainPush(desc: seq<Desc>, head: int, s: seq<int>, chain: seq<int>, tail: int)
    requires chain != [] && Simple(chain + s, |desc|) && FreeChain(desc, head, s)
    requires forall i: nat :: i + 1 < |chain| ==> Linked(desc, chain, i)
    requires tail == chain[|chain| - 1] && 0 <= tail < |desc|
    ensures FreeChain(desc[tail := desc[tail].(next := head)], chain[0], chain + s)
  {
    var t, desc' := chain + s, desc[tail := desc[tail].(next := head)];
    assert t[|chain| - 1] == tail;
    forall i: nat | i + 1 < |t|
      ensures Linked(desc', t, i)
    {
      if i + 1 < |chain| {
        assert Linked(desc, chain, i);
      } else if i >= |chain| {
        assert Linked(desc, s, i - |chain|);
        assert t[i] == s[i - |chain|] && t[i + 1] == s[i - |chain| + 1];
      }
    }
  }

  /** Descriptors linked by the NEXT flag, which the last one does not carry. */
  ghost predicate IsChain(desc: seq<Desc>, chain: seq<int>) {
    && (forall i :: 0 <= i < |chain| ==>
          0 <= chain[i] < |desc| && (desc[chain[i]].flags & VRING_DESC_F_NEXT != 0 <==> i + 1 < |chain|))
    && forall i: nat :: i + 1 < |chain| ==> Linked(desc, chain, i)
  }

  function Heads(s: seq<Used>): seq<int> {
    seq(|s|, i requires 0 <= i < |s| => s[i].id)
  }

  /** Heads in flight: waiting in the available ring, at the device, or waiting in the used ring. */
  ghost function Flight(submitted: seq<int>, consumed: nat, held: seq<int>, completed: seq<Used>, reaped: nat): seq<int>
    requires consumed <= |submitted| && reaped <= |completed|
  {
    submitted[consumed..] + held + Heads(completed[reaped..])
  }

  lemma FlightCount(submitted: seq<int>, consumed: nat, held: seq<int>, completed: seq<Used>, reaped: nat)
    requires consumed <= |submitted| && reaped <= |completed|
    ensures |Flight(submitted, consumed, held, completed, reaped)| == |submitted| - consumed + |held| + |completed| - reaped
  {
  }

  lemma FlightSubmit(free: seq<int>, submitted: seq<int>, consumed: nat, held: seq<int>, completed: seq<Used>, reaped: nat, n: nat)
    requires consumed <= |submitted| && reaped <= |completed| && free != []
    requires Shared(free, Flight(submitted, consumed, held, completed, reaped), n)
    ensures Shared(free[1..], Flight(submitted + [free[0]], consumed, held, completed, reaped), n)
  {
    SplitHead(free);
    assert (submitted + [free[0]])[consumed..] == submitted[consumed..] + [free[0]];
    SharedMoves(free, Flight(submitted, consumed, held, completed, reaped),
                free[1..], Flight(submitted + [free[0]], consumed, held, completed, reaped), n);
  }

  lemma FlightTake(free: seq<int>, submitted: seq<int>, consumed: nat, held: seq<int>, completed: seq<Used>, reaped: nat, n: nat)
    requires consumed < |submitted| && reaped <= |completed|
    requires Shared(free, Flight(submitted, consumed, held, completed, reaped), n)
    ensures Shared(free, Flight(submitted, consumed + 1, held + [submitted[consumed]], completed, reaped), n)
  {
    assert submitted[consumed..] == [submitted[consumed]] + submitted[consumed + 1..];
    SharedMoves(free, Flight(submitted, consumed, held, completed, reaped),
                free, Flight(submitted, consumed + 1, held + [submitted[consumed]], completed, reaped), n);
  }

  lemma FlightComplete(free: seq<int>, submitted: seq<int>, consumed: nat, held: seq<int>, completed: seq<Used>, reaped: nat, n: nat, i: nat, u: Used)
    requires consumed <= |submitted| && reaped <= |completed| && i < |held| && u.id == held[i]
    requires Shared(free, Flight(submitted, consumed, held, completed, reaped), n)
    ensures Shared(free, Flight(submitted, consumed, held[..i] + held[i + 1..], completed + [u], reaped), n)
  {
    assert held == held[..i] + [held[i]] + held[i + 1..];
    assert Heads((completed + [u])[reaped..]) == Heads(completed[reaped..]) + [u.id];
    SharedMoves(free, Flight(submitted, consumed, held, completed, reaped),
                free, Flight(submitted, consumed, held[..i] + held[i + 1..], completed + [u], reaped), n);
  }

  lemma FlightReap(free: seq<int>, submitted: seq<int>, consumed: nat, held: seq<int>, completed: seq<Used>, reaped: nat, n: nat)
    requires consumed <= |submitted| && reaped < |completed|
    requires Shared(free, Flight(submitted, consumed, held, completed, reaped), n)
    ensures Shared([completed[reaped].id] + free, Flight(submitted, consumed, held, completed, reaped + 1), n)
  {
    assert Heads(completed[reaped..]) == [completed[reaped].id] + Heads(completed[reaped + 1..]);
    SharedMoves(free, Flight(submitted, consumed, held, completed, reaped),
                [completed[reaped].id] + free, Flight(submitted, consumed, held, completed, reaped + 1), n);
  }

  class Virtqueue {
    const num: nat
    var num_free: nat
    var free_head: int
    var last_used_idx: int
    var desc: seq<Desc>
    var data: seq<int>          // the buffer behind each head in flight, 0 for NULL
    var avail_idx: int
    var avail_ring: seq<int>
    // written by the device
    var used_idx: int
    var used_ring: seq<Used>
    var dev_avail_idx: int
    var held: seq<int>               // heads the device has taken and not completed

    ghost var free: seq<int>         // the descriptor free list
    ghost var submitted: seq<int>    // every head the driver ever made available, in order
    ghost var consumed: nat          // how many of them the device has taken
    ghost var completed: seq<Used>   // every element the device ever completed, in order
    ghost var reaped: nat            // how many of them the driver has taken back

    ghost predicate Counted(sub: seq<int>, reap: nat)
      reads this
    {
      && GoodSize(num)
      && |desc| == |data| == |avail_ring| == |used_ring| == num
      && consumed <= |sub| && reap <= |completed| && consumed == |held| + |completed|
      && avail_idx == |sub| % IDX && dev_avail_idx == consumed % IDX
      && used_idx == |completed| % IDX && last_used_idx == reap % IDX
    }

    /** A descriptor in flight is a single one that carries its buffer's address. */
    ghost predicate Described()
      reads this
    {
      && |desc| == |data|
      && forall h :: 0 <= h < |data| && data[h] != 0 ==> desc[h].addr == data[h] && desc[h].flags == 0 && desc[h].len != 0
    }

    /** The queue agrees with a free list, a history of submissions and a count of elements taken back. */
    ghost predicate ValidWith(list: seq<int>, sub: seq<int>, reap: nat)
      reads this
    {
      && Counted(sub, reap) && Described()
      && |list| == num_free && FreeChain(desc, free_head, list)
      && Shared(list, Flight(sub, consumed, held, completed, reap), num) && DataTells(data, list)
      && RingHolds(avail_ring, sub, consumed) && RingHolds(used_ring, completed, reap)
    }

    ghost predicate Valid()
      reads this
    {
      ValidWith(free, submitted, reaped)
    }

    /** vring_init_virtqueue on zeroed ring memory; the descriptor table may hold anything. */
    constructor (n: nat, table: seq<Desc>)
      requires GoodSize(n) && |table| == n
      ensures Valid() && num == num_free == n && submitted == [] && completed == [] && held == [] && consumed == reaped == 0
    {
      num, num_free := n, n;
      last_used_idx, free_head, avail_idx, used_idx, dev_avail_idx := 0, 0, 0, 0, 0;
      var d := table;
      for i := 0 to n - 1
        invariant |d| == n && forall j :: 0 <= j < i ==> d[j].next == j + 1
      {
        d := d[i := d[i].(next := i + 1)];
      }
      desc, data := d, seq(n, i => 0);
      avail_ring, used_ring, held := seq(n, i => 0), seq(n, i => Used(0, 0)), [];
      free, submitted, consumed, completed, reaped := Ids(n), [], 0, [], 0;
      new;
      PermutesIsMultiset(Ids(n), n);
      assert Ids(n) + Flight([], 0, [], [], 0) == Ids(n);
      forall h | 0 <= h < n
        ensures h in free
      {
        assert free[h] == h;
      }
    }

    /** num_free and the heads in flight add up to num, and no descriptor is counted twice. */
    lemma Accounts()
      requires Valid()
      ensures num_free + (|submitted| - consumed) + |held| + (|completed| - reaped) == num
      ensures Simple(free, num)
    {
      AllAccounted(free, Flight(submitted, consumed, held, completed, reaped), num);
      FlightCount(submitted, consumed, held, completed, reaped);
    }

    method AddOutbuf(buf: int, len: int) returns (r: int)
      requires Valid() && buf != 0 && len != 0
      modifies this`num_free, this`free_head, this`desc, this`data, this`avail_idx, this`avail_ring, this`free, this`submitted
      ensures Valid()
      ensures old(num_free) == 0 ==> r == -1 && num_free == 0 && submitted == old(submitted) && data == old(data) && desc == old(desc)
      ensures old(num_free) > 0 ==>
                && r == 0 && num_free == old(num_free) - 1 && free == old(free)[1..]
                && submitted == old(submitted) + [old(free)[0]] && 0 <= old(free)[0] < num
                && data == old(data)[old(free)[0] := buf] && old(data)[old(free)[0]] == 0
                && desc[old(free)[0]].addr == buf && desc[old(free)[0]].len == len && desc[old(free)[0]].flags == 0
    {
      if num_free == 0 {
        return -1;
      }
      SubmitHead(buf, len);
      submitted, free := submitted + [free[0]], free[1..];
      r := 0;
    }

    /** The stores of virtqueue_add_outbuf: the first free descriptor is filled in and made available. */
    method SubmitHead(buf: int, len: int)
      requires Valid() && buf != 0 && len != 0 && num_free > 0
      modifies this`num_free, this`free_head, this`desc, this`data, this`avail_idx, this`avail_ring
      ensures free != [] && ValidWith(free[1..], submitted + [free[0]], reaped)
      ensures 0 <= free[0] < num && data == old(data)[free[0] := buf] && old(data)[free[0]] == 0
      ensures desc[free[0]].addr == buf && desc[free[0]].len == len && desc[free[0]].flags == 0
    {
      FlightSubmit(free, submitted, consumed, held, completed, reaped, num);
      var head := TakeDesc(buf, len);
      PutAvail(head);
    }

    /** The first free descriptor is filled in and leaves the list. */
    method TakeDesc(buf: int, len: int) returns (head: int)
      requires Valid() && buf != 0 && len != 0 && num_free > 0
      modifies this`num_free, this`free_head, this`desc, this`data
      ensures num_free == |free| - 1 && FreeChain(desc, free_head, free[1..]) && DataTells(data, free[1..]) && Described()
      ensures head == free[0] && 0 <= head < num && data == old(data)[head := buf] && old(data)[head] == 0
      ensures |desc| == |old(desc)| && desc[head].addr == buf && desc[head].len == len && desc[head].flags == 0
      ensures |submitted| - consumed < num
    {
      Accounts();
      num_free := num_free - 1;
      head := free_head;
      ghost var desc0, head0 := desc, free_head;
      desc := desc[head := desc[head].(flags := 0)];
      desc := desc[head := desc[head].(addr := buf)];
      desc := desc[head := desc[head].(len := len)];
      FreeChainPop(desc0, desc, head0, free, |desc|);
      free_head := desc[head].next;
      DataTake(data, free, buf);
      data := data[head := buf];
    }

    /** The head goes into the next slot of the available ring, then the index moves. */
    method PutAvail(head: int)
      requires GoodSize(num) && |avail_ring| == num && avail_idx == |submitted| % IDX
      requires RingHolds(avail_ring, submitted, consumed) && |submitted| - consumed < num
      modifies this`avail_ring, this`avail_idx
      ensures |avail_ring| == num && avail_idx == (|submitted| + 1) % IDX
      ensures RingHolds(avail_ring, submitted + [head], consumed)
    {
      SlotOfIndex(|submitted|, num);
      NextIndex(|submitted|);
      RingAppend(avail_ring, submitted, consumed, head);
      var avail := avail_idx % num;
      avail_ring := avail_ring[avail := head];
      avail_idx := (avail_idx + 1) % IDX;
    }

    /** The device reads the next available head. */
    method DeviceTake() returns (h: int)
      requires Valid() && dev_avail_idx != avail_idx
      modifies this`dev_avail_idx, this`consumed, this`held
      ensures Valid()
      ensures old(consumed) < |submitted| && h == submitted[old(consumed)]
      ensures consumed == old(consumed) + 1 && held == old(held) + [h]
    {
      Accounts();
      IndexTellsCount(consumed, |submitted|, num);
      FlightTake(free, submitted, consumed, held, completed, reaped, num);
      h := ReadAvail();
      held := held + [h];
      consumed := consumed + 1;
    }

    /** The device's load of the oldest head it has not taken, after which its index moves. */
    method ReadAvail() returns (h: int)
      requires GoodSize(num) && |avail_ring| == num && dev_avail_idx == consumed % IDX
      requires RingHolds(avail_ring, submitted, consumed) && consumed < |submitted|
      modifies this`dev_avail_idx
      ensures h == submitted[consumed] && dev_avail_idx == (consumed + 1) % IDX
    {
      SlotOfIndex(consumed, num);
      NextIndex(consumed);
      h := avail_ring[dev_avail_idx % num];
      dev_avail_idx := (dev_avail_idx + 1) % IDX;
    }

    /** The device writes a used element for a head it holds, in any order it likes, and publishes it. */
    method DeviceComplete(i: nat, u: Used)
      requires Valid() && i < |held| && u.id == held[i]
      modifies this`used_idx, this`used_ring, this`held, this`completed
      ensures Valid()
      ensures held == old(held)[..i] + old(held)[i + 1..] && completed == old(completed) + [u]
    {
      Accounts();
      FlightComplete(free, submitted, consumed, held, completed, reaped, num, i, u);
      PutUsed(u);
      held := held[..i] + held[i + 1..];
      completed := completed + [u];
    }

    /** The element goes into the next slot of the used ring, then the index moves. */
    method PutUsed(u: Used)
      requires GoodSize(num) && |used_ring| == num && used_idx == |completed| % IDX
      requires RingHolds(used_ring, completed, reaped) && |completed| - reaped < num
      modifies this`used_ring, this`used_idx
      ensures |used_ring| == num && used_idx == (|completed| + 1) % IDX
      ensures RingHolds(used_ring, completed + [u], reaped)
    {
      SlotOfIndex(|completed|, num);
      NextIndex(|completed|);
      RingAppend(used_ring, completed, reaped, u);
      used_ring := used_ring[used_idx % num := u];
      used_idx := (used_idx + 1) % IDX;
    }

    /**
     detach_buf for a chain of any length: every descriptor but the last carries the
     NEXT flag, and all of them go in front of the free list in chain order.
     */
    method DetachBuf(head: int, ghost chain: seq<int>)
      requires |desc| == |data| && |free| == num_free && FreeChain(desc, free_head, free)
      requires chain != [] && chain[0] == head && Simple(chain + free, |desc|)
      requires IsChain(desc, chain)
      modifies this`num_free, this`free_head, this`desc, this`data
      ensures num_free == |chain| + |free| && FreeChain(desc, free_head, chain + free)
      ensures data == old(data)[head := 0] && |desc| == |old(desc)|
      ensures forall h :: 0 <= h < |desc| ==> desc[h] == old(desc)[h].(next := desc[h].next)
      ensures forall h :: 0 <= h < |desc| && h != chain[|chain| - 1] ==> desc[h] == old(desc)[h]
    {
      var i := head;
      data := data[head := 0];
      ghost var k := 0;
      while desc[i].flags & VRING_DESC_F_NEXT != 0
        invariant 0 <= k < |chain| && i == chain[k] && num_free == |free| + k
        modifies this`num_free
        decreases |chain| - k
      {
        assert Linked(desc, chain, k);
        i := desc[i].next;
        num_free := num_free + 1;
        k := k + 1;
      }
      FreeChainPush(desc, free_head, free, chain, i);
      desc := desc[i := desc[i].(next := free_head)];
      free_head := head;
      num_free := num_free + 1;
    }

    /** A single descriptor in flight goes back on the free list. */
    method Release(i: int)
      requires |free| == num_free && FreeChain(desc, free_head, free) && DataTells(data, free) && Described()
      requires Simple([i] + free, |desc|) && 0 <= i < |data| && data[i] != 0
      modifies this`num_free, this`free_head, this`desc, this`data
      ensures num_free == 1 + |free| && FreeChain(desc, free_head, [i] + free) && DataTells(data, [i] + free) && Described()
      ensures data == old(data)[i := 0] && |desc| == |old(desc)|
    {
      DataGive(data, free, i);
      assert IsChain(desc, [i]);
      DetachBuf(i, [i]);
    }

    /** virtqueue_get_buf when the device has published an element the driver has not taken. */
    method GetBuf() returns (ret: int, len: int)
      requires Valid() && last_used_idx != used_idx
      modifies this`num_free, this`free_head, this`desc, this`data, this`last_used_idx, this`free, this`reaped
      ensures Valid()
      ensures old(reaped) < |completed| && reaped == old(reaped) + 1
      ensures var u := completed[old(reaped)];
              && 0 <= u.id < num && ret == old(data)[u.id] != 0 && len == u.len
              && data == old(data)[u.id := 0] && free == [u.id] + old(free) && num_free == old(num_free) + 1
    {
      ret, len := TakeBack();
      free, reaped := [completed[reaped].id] + free, reaped + 1;
    }

    /** The loads and stores of virtqueue_get_buf. */
    method TakeBack() returns (ret: int, len: int)
      requires Valid() && last_used_idx != used_idx
      modifies this`num_free, this`free_head, this`desc, this`data, this`last_used_idx
      ensures reaped < |completed| && ValidWith([completed[reaped].id] + free, submitted, reaped + 1)
      ensures var u := completed[reaped];
              0 <= u.id < num && ret == old(data)[u.id] != 0 && len == u.len && data == old(data)[u.id := 0]
    {
      Accounts();
      IndexTellsCount(reaped, |completed|, num);
      Reapable();
      FlightReap(free, submitted, consumed, held, completed, reaped, num);
      var u := ReadUsed();
      len := u.len;
      ret := data[u.id];
      Release(u.id);
      NextIndex(reaped);
      last_used_idx := (last_used_idx + 1) % IDX;
    }

    /** The driver's load of the oldest element it has not taken. */
    method ReadUsed() returns (u: Used)
      requires GoodSize(num) && |used_ring| == num && last_used_idx == reaped % IDX
      requires RingHolds(used_ring, completed, reaped) && reaped < |completed|
      ensures u == completed[reaped]
    {
      SlotOfIndex(reaped, num);
      var last_used := last_used_idx % num;
      u := used_ring[last_used];
    }

    /** The next element to reap names a descriptor in flight, which is not on the free list. */
    lemma Reapable()
      requires Valid() && reaped < |completed|
      ensures 0 <= completed[reaped].id < num && data[completed[reaped].id] != 0
      ensures Simple([completed[reaped].id] + free, num)
    {
      var h := completed[reaped].id;
      FlightReap(free, submitted, consumed, held, completed, reaped, num);
      AllAccounted([h] + free, Flight(submitted, consumed, held, completed, reaped + 1), num);
      assert ([h] + free)[0] == h;
      forall i | 0 <= i < |free|
        ensures free[i] != h
      {
        assert ([h] + free)[i + 1] == free[i];
      }
    }

    /** A head waiting in the available ring is none of those waiting in the used ring. */
    lemma WaitingApart(k: nat)
      requires Valid() && consumed <= k < |submitted| && reaped < |completed|
      ensures submitted[k] != completed[reaped].id && 0 <= submitted[k] < num
    {
      var f := Flight(submitted, consumed, held, completed, reaped);
      AllAccounted(free, f, num);
      assert f[k - consumed] == submitted[k];
      assert f[|submitted| - consumed + |held|] == completed[reaped].id;
    }
  }

  datatype Step = Submit(buf: int, len: int) | Take | Complete(i: nat, len: int) | Reap

  /** The buffers seen are the first of those sent, and the rest wait in the ring in order. */
  ghost predicate Delivers(submitted: seq<int>, consumed: nat, data: seq<int>, sent: seq<int>, seen: seq<int>) {
    && |sent| == |submitted| && |seen| == consumed <= |sent| && seen == sent[..consumed]
    && forall k :: consumed <= k < |sent| ==> 0 <= submitted[k] < |data| && data[submitted[k]] == sent[k] != 0
  }

  /** How many descriptors are free, wait for the device, are held by it, or wait for the driver. */
  datatype Tally = Tally(free: int, waiting: int, held: int, done: int)

  predicate Accepted(t: Tally, step: Step) {
    step.Submit? && step.buf != 0 && step.len != 0 && t.free > 0
  }

  /** What a step does to the tally; a step that is not enabled does nothing. */
  function After(t: Tally, step: Step): Tally {
    match step
    case Submit(_, _) => if Accepted(t, step) then t.(free := t.free - 1, waiting := t.waiting + 1) else t
    case Take => if t.waiting > 0 then t.(waiting := t.waiting - 1, held := t.held + 1) else t
    case Complete(i, _) => if i < t.held then t.(held := t.held - 1, done := t.done + 1) else t
    case Reap => if t.done > 0 then t.(done := t.done - 1, free := t.free + 1) else t
  }

  /** The tally after a run of steps on a new queue of `n` descriptors. */
  function TallyAfter(n: nat, steps: seq<Step>): Tally {
    if steps == [] then Tally(n, 0, 0, 0) else After(TallyAfter(n, steps[..|steps| - 1]), steps[|steps| - 1])
  }

  /** The buffers a run of steps submits. */
  function SentBy(n: nat, steps: seq<Step>): seq<int> {
    if steps == [] then []
    else
      var (before, last) := (steps[..|steps| - 1], steps[|steps| - 1]);
      if Accepted(TallyAfter(n, before), last) then SentBy(n, before) + [last.buf] else SentBy(n, before)
  }

  ghost function TallyOf(vq: Virtqueue): Tally
    reads vq
  {
    Tally(vq.num_free, |vq.submitted| - vq.consumed, |vq.held|, |vq.completed| - vq.reaped)
  }

  /** The indices a side compares differ exactly when there is an entry for it. */
  lemma IndicesTell(vq: Virtqueue)
    requires vq.Valid()
    ensures vq.dev_avail_idx != vq.avail_idx <==> |vq.submitted| - vq.consumed > 0
    ensures vq.last_used_idx != vq.used_idx <==> |vq.completed| - vq.reaped > 0
  {
    vq.Accounts();
    IndexTellsCount(vq.consumed, |vq.submitted|, vq.num);
    IndexTellsCount(vq.reaped, |vq.completed|, vq.num);
  }

  method DriverSubmit(vq: Virtqueue, step: Step, sent: seq<int>, ghost seen: seq<int>) returns (sent': seq<int>)
    requires vq.Valid() && Delivers(vq.submitted, vq.consumed, vq.data, sent, seen) && step.Submit?
    modifies vq
    ensures vq.Valid() && Delivers(vq.submitted, vq.consumed, vq.data, sent', seen)
    ensures TallyOf(vq) == After(old(TallyOf(vq)), step)
    ensures sent' == if Accepted(old(TallyOf(vq)), step) then sent + [step.buf] else sent
  {
    sent' := sent;
    if step.buf != 0 && step.len != 0 {
      var r := vq.AddOutbuf(step.buf, step.len);
      if r == 0 {
        sent' := sent + [step.buf];
      }
    }
  }

  method DriverReap(vq: Virtqueue, ghost sent: seq<int>, ghost seen: seq<int>)
    requires vq.Valid() && Delivers(vq.submitted, vq.consumed, vq.data, sent, seen)
    modifies vq
    ensures vq.Valid() && Delivers(vq.submitted, vq.consumed, vq.data, sent, seen)
    ensures TallyOf(vq) == After(old(TallyOf(vq)), Reap)
  {
    IndicesTell(vq);
    if vq.last_used_idx != vq.used_idx {
      forall k | vq.consumed <= k < |vq.submitted| && vq.reaped < |vq.completed|
        ensures vq.submitted[k] != vq.completed[vq.reaped].id
      {
        vq.WaitingApart(k);
      }
      var _, _ := vq.GetBuf();
    }
  }

  method Device(vq: Virtqueue, step: Step, ghost sent: seq<int>, seen: seq<int>) returns (seen': seq<int>)
    requires vq.Valid() && Delivers(vq.submitted, vq.consumed, vq.data, sent, seen) && (step.Take? || step.Complete?)
    modifies vq
    ensures vq.Valid() && Delivers(vq.submitted, vq.consumed, vq.data, sent, seen')
    ensures TallyOf(vq) == After(old(TallyOf(vq)), step)
  {
    IndicesTell(vq);
    seen' := seen;
    if step.Take? {
      if vq.dev_avail_idx != vq.avail_idx {
        var h := vq.DeviceTake();
        seen' := seen + [vq.desc[h].addr];
      }
    } else if step.i < |vq.held| {
      vq.DeviceComplete(step.i, Used(vq.held[step.i], step.len));
    }
  }

  /**
   Driver and device steps in any order and number; a step that is not enabled is
   skipped. `sent` is what the driver submitted and `seen` what the device read in the
   descriptors it took: always the buffers submitted, in order, each once.
   */
  method Interleave(n: nat, table: seq<Desc>, steps: seq<Step>) returns (vq: Virtqueue, sent: seq<int>, seen: seq<int>)
    requires GoodSize(n) && |table| == n
    ensures vq.Valid() && TallyOf(vq) == TallyAfter(n, steps) && sent == SentBy(n, steps)
    ensures |seen| == |sent| - TallyAfter(n, steps).waiting && seen == sent[..|seen|]
    ensures Delivers(vq.submitted, vq.consumed, vq.data, sent, seen)
  {
    vq := new Virtqueue(n, table);
    sent, seen := [], [];
    for j := 0 to |steps|
      invariant fresh(vq) && vq.Valid() && Delivers(vq.submitted, vq.consumed, vq.data, sent, seen)
      invariant TallyOf(vq) == TallyAfter(n, steps[..j]) && sent == SentBy(n, steps[..j])
    {
      assert steps[..j + 1][..j] == steps[..j];
      if steps[j].Submit? {
        sent := DriverSubmit(vq, steps[j], sent, seen);
      } else if steps[j].Reap? {
        DriverReap(vq, sent, seen);
      } else {
        seen := Device(vq, steps[j], sent, seen);
      }
    }
    assert steps[..|steps|] == steps;
  }
}
