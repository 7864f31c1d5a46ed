/** The bit search behind page_memalign, and the order it picks for a number of pages. */
module Bitops {
  import opened Machine

  function Log2(w: nat): nat {
    if w < 2 then 0 else 1 + Log2(w / 2)
  }

  lemma {:induction false} Log2Bounds(w: nat)
    requires w > 0
    ensures Pow2(Log2(w)) <= w < 2 * Pow2(Log2(w))
  {
    if w >= 2 {
      Log2Bounds(w / 2);
    }
  }

  /** A power of two at or below `w`, with twice it above `w`, sits at the highest bit. */
  lemma {:induction false} Log2Unique(w: nat, k: nat)
    requires Pow2(k) <= w < 2 * Pow2(k)
    ensures Log2(w) == k
  {
    if k > 0 {
      Log2Unique(w / 2, k - 1);
    }
  }

  lemma Log2Double(h: nat)
    requires h > 0
    ensures Log2(2 * h) == Log2(h) + 1
  {
    assert 2 * h / 2 == h;
  }

  lemma {:induction false} Log2Shift(w: nat, k: nat)
    requires w > 0
    ensures Log2(w * Pow2(k)) == Log2(w) + k
  {
    if k > 0 {
      var p := Pow2(k - 1);
      Log2Shift(w, k - 1);
      Scale(0, w, p);
      Log2Double(w * p);
      assert w * (2 * p) == 2 * (w * p);
    }
  }

  lemma Pow2Values()
    ensures Pow2(1) == 2 && Pow2(2) == 4 && Pow2(4) == 0x10 && Pow2(8) == 0x100 && Pow2(16) == 0x1_0000
    ensures Pow2(32) == 0x1_0000_0000 && Pow2(52) == 0x10_0000_0000_0000 && Pow2(63) == 0x8000_0000_0000_0000
  {
    assert Pow2(8) == 0x100;
    assert Pow2(16) == 0x1_0000;
    assert Pow2(24) == 0x100_0000;
    assert Pow2(32) == 0x1_0000_0000;
    assert Pow2(40) == 0x100_0000_0000;
    assert Pow2(48) == 0x1_0000_0000_0000;
    assert Pow2(56) == 0x100_0000_0000_0000;
  }

  lemma Scale(word: nat, limit: nat, f: nat)
    requires word < limit && f > 0
    ensures word * f < limit * f && (word > 0 ==> word * f > 0)
  {
  }

  /** One rung of the ladder: when the top `k` bits are all clear, shift them out. */
  method Rung(word: nat, num: nat, k: nat, limit: nat) returns (word': nat, num': int)
    requires word < TWO64 && limit * Pow2(k) == TWO64
    ensures word' < TWO64 && (word == 0 ==> word' == 0) && (word * Pow2(k) >= limit ==> word' >= limit)
    ensures num' == if word < limit then num - k else num
    ensures word > 0 ==> word' > 0 && Log2(word') + num' == Log2(word) + num
  {
    word', num' := word, num;
    if word < limit {
      Scale(word, limit, Pow2(k));
      if word > 0 {
        Log2Shift(word, k);
      }
      word', num' := word * Pow2(k), num - k;
    }
  }

  /**
   The position of the highest set bit, by the ladder of halving tests. A word with no
   bit set passes every test, which takes all of 63 away.
   */
  method Fls(w: nat) returns (num: int)
    requires w < TWO64
    ensures num == Log2(w)
  {
    Pow2Values();
    var word;
    word, num := Rung(w, 63, 32, 0x1_0000_0000);
    word, num := Rung(word, num, 16, 0x1_0000_0000_0000);
    word, num := Rung(word, num, 8, 0x100_0000_0000_0000);
    word, num := Rung(word, num, 4, 0x1000_0000_0000_0000);
    word, num := Rung(word, num, 2, 0x4000_0000_0000_0000);
    word, num := Rung(word, num, 1, 0x8000_0000_0000_0000);
    if w > 0 {
      Log2Unique(word, 63);
    }
  }
}
