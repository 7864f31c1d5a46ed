/** The walk over a device's capability list. */
module PciCaps {
  const LIST_HEAD := 0x34
  const MAX_ID := 0x14

  /** Configuration space: 256 bytes. */
  ghost predicate Bytes(conf: seq<nat>) {
    |conf| == 256 && forall i :: 0 <= i < 256 ==> conf[i] < 256
  }

  /** The offset of the capability after the one at `off`; the offset of its link byte is an 8-bit number. */
  function Link(conf: seq<nat>, off: nat): (next: nat)
    requires Bytes(conf) && off < 256
    ensures next < 256
  {
    conf[(off + 1) % 256]
  }

  /** The offset reached after `k` links from `off`; 0 ends the list. */
  function Nth(conf: seq<nat>, off: nat, k: nat): (r: nat)
    requires Bytes(conf) && off < 256
    ensures r < 256
    decreases k
  {
    if k == 0 then off
    else
      var before := Nth(conf, off, k - 1);
      if before == 0 then 0 else Link(conf, before)
  }

  ghost predicate Ends(conf: seq<nat>, off: nat)
    requires Bytes(conf) && off < 256
  {
    exists k: nat :: Nth(conf, off, k) == 0
  }

  /** Some capability comes up twice. */
  ghost predicate Cyclic(conf: seq<nat>, off: nat)
    requires Bytes(conf) && off < 256
  {
    exists i: nat, j: nat :: Repeats(conf, off, i, j)
  }

  ghost predicate Repeats(conf: seq<nat>, off: nat, i: nat, j: nat)
    requires Bytes(conf) && off < 256
  {
    i < j && Nth(conf, off, i) == Nth(conf, off, j) != 0
  }

  /** A capability on the list has an id beyond the known ones. */
  ghost predicate HasBadId(conf: seq<nat>, off: nat)
    requires Bytes(conf) && off < 256
  {
    exists k: nat :: BadIdAt(conf, off, k)
  }

  ghost predicate BadIdAt(conf: seq<nat>, off: nat, k: nat)
    requires Bytes(conf) && off < 256
  {
    Nth(conf, off, k) != 0 && conf[Nth(conf, off, k)] > MAX_ID
  }

  // ---- a list ends or is cyclic, never both ----

  lemma {:induction false} StaysEnded(conf: seq<nat>, off: nat, k: nat, n: nat)
    requires Bytes(conf) && off < 256 && k <= n && Nth(conf, off, k) == 0
    ensures Nth(conf, off, n) == 0
    decreases n - k
  {
    if k < n {
      StaysEnded(conf, off, k + 1, n);
    }
  }

  /** Equal offsets stay equal. */
  lemma {:induction false} Shift(conf: seq<nat>, off: nat, i: nat, j: nat, d: nat)
    requires Bytes(conf) && off < 256 && Nth(conf, off, i) == Nth(conf, off, j)
    ensures Nth(conf, off, i + d) == Nth(conf, off, j + d)
    decreases d
  {
    if d > 0 {
      Shift(conf, off, i, j, d - 1);
    }
  }

  /** Once an offset repeats, every later one was seen before the repetition. */
  lemma {:induction false} Early(conf: seq<nat>, off: nat, i: nat, j: nat, k: nat) returns (e: nat)
    requires Bytes(conf) && off < 256 && Repeats(conf, off, i, j)
    ensures e < j && Nth(conf, off, e) == Nth(conf, off, k)
    decreases k
  {
    if k < j {
      e := k;
    } else {
      Shift(conf, off, i, j, k - j);
      e := Early(conf, off, i, j, i + (k - j));
    }
  }

  lemma {:induction false} NeverEnds(conf: seq<nat>, off: nat, i: nat, j: nat, k: nat)
    requires Bytes(conf) && off < 256 && Repeats(conf, off, i, j)
    ensures Nth(conf, off, k) != 0
  {
    if Nth(conf, off, k) == 0 {
      var e := Early(conf, off, i, j, k);
      StaysEnded(conf, off, e, j);
    }
  }

  /** The offsets of the first `n` capabilities. */
  function First(conf: seq<nat>, off: nat, n: nat): (s: seq<nat>)
    requires Bytes(conf) && off < 256
    ensures |s| == n && forall k :: 0 <= k < n ==> s[k] == Nth(conf, off, k)
    decreases n
  {
    if n == 0 then [] else First(conf, off, n - 1) + [Nth(conf, off, n - 1)]
  }

  ghost predicate Distinct(s: seq<nat>) {
    forall i, j :: 0 <= i < j < |s| ==> s[i] != s[j]
  }

  lemma {:induction false} DistinctFit(s: seq<nat>, bound: nat)
    requires Distinct(s) && forall k :: 0 <= k < |s| ==> 0 < s[k] <= bound
    ensures |s| <= bound
    decreases bound
  {
    assert s != [] ==> 0 < s[0] <= bound;
    if bound == 0 {
    } else if exists p :: 0 <= p < |s| && s[p] == bound {
      var p :| 0 <= p < |s| && s[p] == bound;
      DistinctFit(s[..p] + s[p + 1..], bound - 1);
    } else {
      DistinctFit(s, bound - 1);
    }
  }

  /** Two of the first 256 offsets of a list that has not ended are the same: there are 255 of them. */
  lemma Pigeonhole(conf: seq<nat>, off: nat) returns (i: nat, j: nat)
    requires Bytes(conf) && off < 256 && Nth(conf, off, 255) != 0
    ensures Repeats(conf, off, i, j) && j <= 255
  {
    var s := First(conf, off, 256);
    forall k | 0 <= k < 256 ensures 0 < s[k] <= 255 {
      if s[k] == 0 {
        StaysEnded(conf, off, k, 255);
      }
    }
    if Distinct(s) {
      DistinctFit(s, 255);
    }
    i, j :| 0 <= i < j < |s| && s[i] == s[j];
  }

  lemma EndsIffNotCyclic(conf: seq<nat>, off: nat)
    requires Bytes(conf) && off < 256
    ensures Ends(conf, off) <==> !Cyclic(conf, off)
    ensures Ends(conf, off) <==> Nth(conf, off, 255) == 0
  {
    if Nth(conf, off, 255) != 0 {
      var i, j := Pigeonhole(conf, off);
      forall k: nat ensures Nth(conf, off, k) != 0 {
        NeverEnds(conf, off, i, j, k);
      }
    } else if Cyclic(conf, off) {
      var i: nat, j: nat :| Repeats(conf, off, i, j);
      NeverEnds(conf, off, i, j, 255);
    }
  }

  /** A bad id on the list is met among the first 255 capabilities. */
  lemma BadIdIsEarly(conf: seq<nat>, off: nat, k: nat) returns (e: nat)
    requires Bytes(conf) && off < 256 && BadIdAt(conf, off, k)
    ensures e <= k && e <= 254 && BadIdAt(conf, off, e)
  {
    if k <= 254 {
      return k;
    }
    NotYetEnded(conf, off, k);
    var i, j := Pigeonhole(conf, off);
    e := Early(conf, off, i, j, k);
  }

  lemma NotYetEnded(conf: seq<nat>, off: nat, k: nat)
    requires Bytes(conf) && off < 256 && Nth(conf, off, k) != 0 && k >= 255
    ensures Nth(conf, off, 255) != 0
  {
    if Nth(conf, off, 255) == 0 {
      StaysEnded(conf, off, 255, k);
    }
  }

  // ---- the walk ----

  /** How a walk stops: at the end of the list, on the assertion about ids, or on the assertion about the count. */
  datatype Stop = Done | BadId | TooMany

  /** What was handed to the handler so far: the first capabilities of the list in order, none with a bad id. */
  ghost predicate Trail(conf: seq<nat>, off: nat, offsets: seq<nat>, ids: seq<nat>)
    requires Bytes(conf) && off < 256
    decreases |offsets|
  {
    && |offsets| == |ids|
    && (offsets != [] ==>
          var n := |offsets| - 1;
          && offsets[n] == Nth(conf, off, n) != 0
          && ids[n] == conf[Nth(conf, off, n)] <= MAX_ID
          && Trail(conf, off, offsets[..n], ids[..n]))
  }

  lemma {:induction false} TrailAt(conf: seq<nat>, off: nat, offsets: seq<nat>, ids: seq<nat>, k: nat)
    requires Bytes(conf) && off < 256 && Trail(conf, off, offsets, ids) && k < |offsets|
    ensures |ids| == |offsets| && offsets[k] == Nth(conf, off, k) != 0 && ids[k] == conf[offsets[k]] <= MAX_ID
    decreases |offsets|
  {
    var n := |offsets| - 1;
    if k < n {
      TrailAt(conf, off, offsets[..n], ids[..n], k);
    }
  }

  /** The capabilities handed out are the first ones of the list, with their ids, and no bad one among them. */
  ghost predicate Visits(conf: seq<nat>, off: nat, offsets: seq<nat>, ids: seq<nat>)
    requires Bytes(conf) && off < 256
  {
    |ids| == |offsets| && forall k :: 0 <= k < |offsets| ==>
      offsets[k] == Nth(conf, off, k) != 0 && ids[k] == conf[Nth(conf, off, k)] <= MAX_ID
  }

  lemma TrailVisits(conf: seq<nat>, off: nat, offsets: seq<nat>, ids: seq<nat>)
    requires Bytes(conf) && off < 256 && Trail(conf, off, offsets, ids)
    ensures Visits(conf, off, offsets, ids)
  {
    forall k | 0 <= k < |offsets|
      ensures offsets[k] == Nth(conf, off, k) != 0 && ids[k] == conf[Nth(conf, off, k)] <= MAX_ID
    {
      TrailAt(conf, off, offsets, ids, k);
    }
  }

  lemma NoBadId(conf: seq<nat>, off: nat, offsets: seq<nat>, ids: seq<nat>)
    requires Bytes(conf) && off < 256 && Trail(conf, off, offsets, ids)
    requires |offsets| > 254 || Nth(conf, off, |offsets|) == 0
    ensures !HasBadId(conf, off)
  {
    forall k: nat ensures !BadIdAt(conf, off, k) {
      if BadIdAt(conf, off, k) {
        var e := BadIdIsEarly(conf, off, k);
        if e < |offsets| {
          TrailAt(conf, off, offsets, ids, e);
        } else {
          StaysEnded(conf, off, |offsets|, e);
        }
      }
    }
  }

  lemma EndedTrail(conf: seq<nat>, off: nat, offsets: seq<nat>, ids: seq<nat>)
    requires Bytes(conf) && off < 256 && Trail(conf, off, offsets, ids) && Nth(conf, off, |offsets|) == 0
    ensures Ends(conf, off) && Distinct(offsets)
  {
    forall i, j | 0 <= i < j < |offsets| ensures offsets[i] != offsets[j] {
      TrailAt(conf, off, offsets, ids, i);
      TrailAt(conf, off, offsets, ids, j);
      if Nth(conf, off, i) == Nth(conf, off, j) {
        NeverEnds(conf, off, i, j, |offsets|);
      }
    }
  }

  method Collect(conf: seq<nat>) returns (offsets: seq<nat>, ids: seq<nat>, stop: Stop)
    requires Bytes(conf)
    ensures Trail(conf, conf[LIST_HEAD], offsets, ids)
    ensures stop.BadId? ==> BadIdAt(conf, conf[LIST_HEAD], |offsets|)
    ensures stop.TooMany? ==> |offsets| == 256
    ensures stop.Done? ==> Nth(conf, conf[LIST_HEAD], |offsets|) == 0
  {
    ghost var head := conf[LIST_HEAD];
    var capOffset := conf[LIST_HEAD];
    var count := 0;
    offsets, ids := [], [];
    while capOffset != 0
      invariant |offsets| == count <= 255
      invariant capOffset == Nth(conf, head, count)
      invariant Trail(conf, head, offsets, ids)
      decreases 256 - count
    {
      var capId := conf[capOffset];
      if capId > MAX_ID {
        return offsets, ids, BadId;
      }
      ghost var was, wasIds := offsets, ids;
      offsets, ids := offsets + [capOffset], ids + [capId];
      assert offsets[..count] == was && ids[..count] == wasIds;
      capOffset := conf[(capOffset + 1) % 256];
      count := count + 1;
      if count > 255 {
        return offsets, ids, TooMany;
      }
    }
    stop := Done;
  }

  /** The byte that leads on from the capabilities visited: at 0x34 before the first, after the id of the last one else. */
  function Onward(conf: seq<nat>, offsets: seq<nat>): nat
    requires Bytes(conf)
  {
    if offsets == [] then conf[0x34] else conf[(offsets[|offsets| - 1] + 1) % 256]
  }

  /** Each capability visited is where the byte after the id of the one before it says, and has an id up to 0x14. */
  ghost predicate Follows(conf: seq<nat>, offsets: seq<nat>, ids: seq<nat>)
    requires Bytes(conf)
  {
    |ids| == |offsets| && forall k :: 0 <= k < |offsets| ==>
      && 0 < offsets[k] < 256 && ids[k] == conf[offsets[k]] <= 0x14
      && offsets[k] == Onward(conf, offsets[..k])
  }

  lemma TrailFollows(conf: seq<nat>, offsets: seq<nat>, ids: seq<nat>)
    requires Bytes(conf) && Trail(conf, conf[LIST_HEAD], offsets, ids)
    ensures Follows(conf, offsets, ids)
    ensures Nth(conf, conf[LIST_HEAD], |offsets|) == Onward(conf, offsets)
  {
    var head := conf[LIST_HEAD];
    forall k | 0 <= k <= |offsets|
      ensures Nth(conf, head, k) == Onward(conf, offsets[..k])
      ensures k < |offsets| ==> 0 < offsets[k] < 256 && ids[k] == conf[offsets[k]] <= 0x14 && offsets[k] == Nth(conf, head, k)
    {
      if k < |offsets| {
        TrailAt(conf, head, offsets, ids, k);
      }
      if k > 0 {
        TrailAt(conf, head, offsets, ids, k - 1);
        assert offsets[..k][k - 1] == offsets[k - 1];
      }
    }
    TrailLength(conf, head, offsets, ids);
    assert offsets[..|offsets|] == offsets;
  }

  lemma TrailLength(conf: seq<nat>, off: nat, offsets: seq<nat>, ids: seq<nat>)
    requires Bytes(conf) && off < 256 && Trail(conf, off, offsets, ids)
    ensures |ids| == |offsets|
  {
  }

  /**
   * pci_cap_walk: the handler gets each capability of the list, in order. The count trips exactly on a cyclic list; a
   * list that ends is visited to its end, each capability once.
   */
  method CapWalk(conf: seq<nat>) returns (offsets: seq<nat>, ids: seq<nat>, stop: Stop)
    requires Bytes(conf)
    ensures Visits(conf, conf[LIST_HEAD], offsets, ids)
    ensures stop.BadId? <==> HasBadId(conf, conf[LIST_HEAD])
    ensures stop.TooMany? <==> !HasBadId(conf, conf[LIST_HEAD]) && Cyclic(conf, conf[LIST_HEAD])
    ensures stop.Done? <==> !HasBadId(conf, conf[LIST_HEAD]) && Ends(conf, conf[LIST_HEAD])
    ensures stop.Done? ==> Nth(conf, conf[LIST_HEAD], |offsets|) == 0 && Distinct(offsets)
    ensures Follows(conf, offsets, ids)
    ensures stop.Done? ==> Onward(conf, offsets) == 0
    ensures stop.BadId? ==> 0 < Onward(conf, offsets) < 256 && conf[Onward(conf, offsets)] > 0x14
    ensures stop.TooMany? ==> |offsets| == 256
  {
    offsets, ids, stop := Collect(conf);
    TrailFollows(conf, offsets, ids);
    ghost var head := conf[LIST_HEAD];
    EndsIffNotCyclic(conf, head);
    TrailVisits(conf, head, offsets, ids);
    if stop.TooMany? {
      TrailAt(conf, head, offsets, ids, 255);
      NoBadId(conf, head, offsets, ids);
    } else if stop.Done? {
      NoBadId(conf, head, offsets, ids);
      EndedTrail(conf, head, offsets, ids);
    }
  }
}
