/** Machine words, powers of two and the rounding macros shared by the runtime. */
module Machine {
  const PAGE_SHIFT: nat := 12
  const PAGE_SIZE: int := 4096

  // One more than the largest 64-bit unsigned value.
  const TWO64: int := 0x1_0000_0000_0000_0000

  /** The value an unsigned 64-bit register holds after an operation yields `x`. */
  function Wrap(x: int): (r: nat)
    ensures r < TWO64
  {
    x % TWO64
  }

  lemma WrapCases(x: int)
    requires -TWO64 <= x < 2 * TWO64
    ensures Wrap(x) == if x < 0 then x + TWO64 else if x < TWO64 then x else x - TWO64
  {
  }

  const TWO63: int := 0x8000_0000_0000_0000
  const TWO32: int := 0x1_0000_0000
  const TWO31: int := 0x8000_0000

  /** The value of `x` in `range` values around 0: what a signed register holds, overflow wrapping. */
  function SignedIn(x: int, range: int): int
    requires range > 0
  {
    if x % range < (range + 1) / 2 then x % range else x % range - range
  }

  /** What a 64-bit `long` holds after an operation yields `x`. */
  function ToLong(x: int): int {
    SignedIn(x, TWO64)
  }

  /** What a 32-bit `int` holds after an operation yields `x`. */
  function ToInt(x: int): int {
    SignedIn(x, TWO32)
  }

  lemma ModShift(x: int, q: int, range: int)
    requires range > 0
    ensures (x + q * range) % range == x % range
  {
    assert x + q * range == (q + x / range) * range + x % range;
    DivModUnique(x + q * range, range, q + x / range, x % range);
  }

  /** A signed register differs from the true value by a multiple of its range. */
  lemma SignedQuotient(x: int, range: int) returns (q: int)
    requires range > 0
    ensures SignedIn(x, range) == x + q * range
  {
    q := -(x / range);
    assert x == x / range * range + x % range;
    if SignedIn(x, range) != x % range {
      q := q - 1;
    }
  }

  /** Wrapping an operand does not change what a wrapped sum or product holds. */
  lemma SignedStep(x: int, f: int, c: int, range: int)
    requires range > 0
    ensures SignedIn(SignedIn(x, range) * f + c, range) == SignedIn(x * f + c, range)
  {
    var q := SignedQuotient(x, range);
    assert (x + q * range) * f + c == (x * f + c) + (q * f) * range;
    ModShift(x * f + c, q * f, range);
  }

  /** An `int` cast of a `long` is the `int` cast of the true value. */
  lemma IntOfLong(x: int)
    ensures ToInt(ToLong(x)) == ToInt(x)
  {
    var q := SignedQuotient(x, TWO64);
    assert x + q * TWO64 == x + (q * TWO32) * TWO32;
    ModShift(x, q * TWO32, TWO32);
  }

  lemma SmallSigned(x: int)
    ensures -TWO63 <= x < TWO63 <==> ToLong(x) == x
    ensures -TWO31 <= x < TWO31 <==> ToInt(x) == x
    ensures -TWO63 <= ToLong(x) < TWO63 && -TWO31 <= ToInt(x) < TWO31
  {
  }

  function Pow2(k: nat): (r: nat)
    ensures r > 0
  {
    if k == 0 then 1 else 2 * Pow2(k - 1)
  }

  /** The least multiple of `a` that is not below `x`. */
  function AlignUp(x: int, a: int): int
    requires a > 0
  {
    (x + a - 1) / a * a
  }

  /** The macro ALIGN on 64-bit operands: the addition wraps, the mask keeps whole units. */
  function Align64(x: int, a: int): int
    requires a > 0
  {
    Wrap(x + a - 1) / a * a
  }

  /** The powers of two a 64-bit word can hold. */
  ghost predicate IsAlignment(a: int) {
    exists k: nat :: k < 64 && a == Pow2(k)
  }

  lemma {:induction false} Pow2Add(a: nat, b: nat)
    ensures Pow2(a + b) == Pow2(a) * Pow2(b)
  {
    if b > 0 {
      Pow2Add(a, b - 1);
      assert Pow2(a) * (2 * Pow2(b - 1)) == 2 * (Pow2(a) * Pow2(b - 1));
    }
  }

  lemma Pow2OfWord()
    ensures Pow2(64) == TWO64
  {
    assert Pow2(8) == 0x100;
    assert Pow2(16) == 0x1_0000;
    assert Pow2(24) == 0x100_0000;
    assert Pow2(32) == 0x1_0000_0000;
    assert Pow2(40) == 0x100_0000_0000;
    assert Pow2(48) == 0x1_0000_0000_0000;
    assert Pow2(56) == 0x100_0000_0000_0000;
  }

  lemma FactorOf(p: int, a: int, t: int)
    requires p >= 2 && a > 0 && p * a == t
    ensures a < t && t % a == 0
  {
    MultipleAtLeast(p - 1, a);
    DivModUnique(t, a, p, 0);
  }

  /** Every alignment divides the number of addresses. */
  lemma AlignmentDivides(a: int)
    requires IsAlignment(a)
    ensures 0 < a < TWO64 && TWO64 % a == 0
  {
    var k: nat :| k < 64 && a == Pow2(k);
    Pow2OfWord();
    Pow2Add(64 - k, k);
    FactorOf(Pow2(64 - k), a, TWO64);
  }

  lemma LargeAlignment(a: int)
    requires IsAlignment(a) && a > 8
    ensures a % 8 == 0
  {
    var k: nat :| k < 64 && a == Pow2(k);
    if k <= 3 {
      SmallPow2(k);
    } else {
      EighthOfPow2(k);
    }
  }

  lemma SmallPow2(k: nat)
    requires k <= 3
    ensures Pow2(k) <= 8
  {
  }

  lemma EighthOfPow2(k: nat)
    requires k >= 3
    ensures Pow2(k) % 8 == 0
  {
    var q := Pow2(k - 3);
    assert Pow2(k - 2) == 2 * q;
    assert Pow2(k - 1) == 4 * q;
    assert Pow2(k) == 8 * q;
  }

  lemma PageSizeIsAlignment()
    ensures IsAlignment(PAGE_SIZE)
  {
    assert Pow2(PAGE_SHIFT) == PAGE_SIZE;
  }

  lemma MultipleAtLeast(d: int, a: int)
    requires a > 0 && d != 0
    ensures d * a >= a || d * a <= -a
  {
  }

  /** Quotient and remainder are the only pair that fits. */
  lemma DivModUnique(x: int, a: int, q: int, r: int)
    requires a > 0 && x == q * a + r && 0 <= r < a
    ensures x / a == q && x % a == r
  {
    var d := x / a - q;
    assert d * a == x / a * a - q * a;
    if d != 0 {
      MultipleAtLeast(d, a);
    }
  }

  lemma MultipleOfMultiple(x: int, a: int, b: int)
    requires a > 0 && b > 0 && x % a == 0 && a % b == 0
    ensures x % b == 0
  {
    var m, n := x / a, a / b;
    assert x == m * a && a == n * b;
    assert x == (m * n) * b by {
      assert m * (n * b) == (m * n) * b;
    }
    DivModUnique(x, b, m * n, 0);
  }

  lemma AlignUpProps(x: int, a: int)
    requires a > 0
    ensures AlignUp(x, a) % a == 0 && x <= AlignUp(x, a) < x + a
  {
    var m := (x + a - 1) / a;
    assert x + a - 1 == m * a + (x + a - 1) % a;
    DivModUnique(m * a, a, m, 0);
  }

  /** Rounding a value within `a` of 2^64 reaches 2^64 exactly. */
  lemma AlignUpAtTop(x: int, a: int)
    requires 0 < a < TWO64 && TWO64 % a == 0 && TWO64 - a < x < TWO64
    ensures AlignUp(x, a) == TWO64 && (x + a - 1 - TWO64) / a == 0
  {
    var r := x + a - 1 - TWO64;
    var q := TWO64 / a;
    assert TWO64 == q * a;
    DivModUnique(x + a - 1, a, q, r);
    assert 0 * a == 0;
    DivModUnique(r, a, 0, r);
  }

  /**
   ALIGN rounds up, and yields 0 when the rounded value is 2^64. The divisors of 2^64 are the powers of two
   below it.
   */
  lemma Align64OfDivisor(x: int, a: int)
    requires 0 <= x < TWO64 && 0 < a < TWO64 && TWO64 % a == 0
    ensures AlignUp(x, a) <= TWO64
    ensures Align64(x, a) == Wrap(AlignUp(x, a))
  {
    AlignUpProps(x, a);
    if x + a - 1 >= TWO64 {
      AlignUpAtTop(x, a);
      assert Wrap(x + a - 1) == x + a - 1 - TWO64;
      assert 0 * a == 0;
    } else {
      assert Wrap(x + a - 1) == x + a - 1;
    }
  }

  lemma Align64IsWrapped(x: int, a: int)
    requires 0 <= x < TWO64 && IsAlignment(a)
    ensures AlignUp(x, a) <= TWO64
    ensures Align64(x, a) == Wrap(AlignUp(x, a))
  {
    AlignmentDivides(a);
    Align64OfDivisor(x, a);
  }
}
