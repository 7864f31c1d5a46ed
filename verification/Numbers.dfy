/** The digits of a number as print_int and print_unsigned produce them, and back through atol. */
module Numbers {
  import opened Machine
  import opened Text

  const DIGITS: string := "0123456789abcdef"

  function Digit(d: nat): char
    requires d < 16
  {
    DIGITS[d]
  }

  /** Least significant digit first, the order the loops emit them in. */
  function RevDigits(n: nat, base: nat): string
    requires 2 <= base <= 16
  {
    if n == 0 then "" else [Digit(n % base)] + RevDigits(n / base, base)
  }

  function Digits(n: nat, base: nat): string
    requires 2 <= base <= 16
  {
    if n == 0 then "" else Digits(n / base, base) + [Digit(n % base)]
  }

  function Reverse(s: string): string {
    if s == "" then "" else Reverse(s[1..]) + [s[0]]
  }

  lemma {:induction false} ReverseSnoc(s: string, c: char)
    ensures Reverse(s + [c]) == [c] + Reverse(s)
  {
    if s != "" {
      assert (s + [c])[0] == s[0] && (s + [c])[1..] == s[1..] + [c];
      ReverseSnoc(s[1..], c);
    }
  }

  lemma {:induction false} ReverseAt(s: string, k: nat)
    requires k < |s|
    ensures |Reverse(s)| == |s| && Reverse(s)[k] == s[|s| - 1 - k]
  {
    if |s| > 1 {
      ReverseAt(s[1..], if k < |s| - 1 then k else 0);
    }
  }

  lemma {:induction false} ReverseDigits(n: nat, base: nat)
    requires 2 <= base <= 16
    ensures Reverse(RevDigits(n, base)) == Digits(n, base)
  {
    if n > 0 {
      ReverseDigits(n / base, base);
      assert RevDigits(n, base)[1..] == RevDigits(n / base, base);
    }
  }

  /** The text of print_int in base 10, before padding. */
  function IntText(n: int): string {
    if n == 0 then "0" else if n < 0 then "-" + Digits(-n, 10) else Digits(n, 10)
  }

  // ----- padding -----

  function Repeat(c: char, k: int): string
    decreases k
  {
    if k <= 0 then "" else Repeat(c, k - 1) + [c]
  }

  datatype Props = Props(pad: char, npad: int, alternate: bool)

  /** How many characters print_str pads a text of length `len` with on the left; its counter is an `int`. */
  function LeftPad(len: nat, npad: int): int {
    if npad > 0 then ToInt(npad - len) else 0
  }

  /** How many spaces it adds on the right: none unless the counter, reduced by a positive width, is negative. */
  function RightPad(len: nat, npad: int): int {
    var reduced := if npad > 0 then LeftPad(len, npad) else npad;
    if reduced < 0 then -ToInt(reduced + len) else 0
  }

  /** What print_str emits. */
  function PadText(s: string, p: Props): string {
    Repeat(p.pad, LeftPad(|s|, p.npad)) + s + Repeat(' ', RightPad(|s|, p.npad))
  }

  ghost predicate IsWidth(npad: int) {
    -TWO31 <= npad < TWO31
  }

  /** For text shorter than 2^31 that is padding on the left to a positive width, on the right to a negative one. */
  lemma PadPlain(len: nat, npad: int)
    requires len < TWO31 && IsWidth(npad)
    ensures npad > 0 ==> LeftPad(len, npad) == npad - len && RightPad(len, npad) <= 0
    ensures npad <= 0 ==> LeftPad(len, npad) == 0 && (RightPad(len, npad) == -npad - len || (npad == 0 && RightPad(len, npad) == 0))
  {
    SmallSigned(npad - len);
    SmallSigned(npad + len);
    SmallSigned(npad);
  }

  lemma {:induction false} RepeatAt(c: char, k: int)
    ensures |Repeat(c, k)| == (if k <= 0 then 0 else k) && forall i :: 0 <= i < |Repeat(c, k)| ==> Repeat(c, k)[i] == c
  {
    if k > 0 {
      RepeatAt(c, k - 1);
    }
  }

  // ----- through atol and back -----

  /** Reading the digits of `n` at position `i` yields `n`. */
  lemma {:induction false} DecimalOfDigits(s: string, i: nat, n: nat)
    requires i + |Digits(n, 10)| <= |s| && s[i..i + |Digits(n, 10)|] == Digits(n, 10)
    ensures Decimal(s, i, 0) == Decimal(s, i + |Digits(n, 10)|, n)
  {
    if n > 0 {
      var len := |Digits(n / 10, 10)|;
      assert s[i..i + len] == s[i..i + len + 1][..len] == Digits(n / 10, 10);
      DecimalOfDigits(s, i, n / 10);
      var c := s[i..i + len + 1][len];
      assert c == s[i + len] == Digit(n % 10);
      DigitValue(n % 10);
    }
  }

  lemma DigitValue(d: nat)
    requires d < 10
    ensures IsDigit(Digit(d)) && (Digit(d) - '0') as int == d
  {
  }

  lemma {:induction false} DigitsStart(n: nat)
    requires n > 0
    ensures Digits(n, 10) != "" && IsDigit(Digits(n, 10)[0])
  {
    DigitValue(n % 10);
    if n >= 10 {
      DigitsStart(n / 10);
    }
  }

  lemma {:induction false} BlanksSkipped(s: string, i: nat, k: nat)
    requires i <= k <= |s| && (forall j :: i <= j < k ==> s[j] == ' ') && Peek(s, k) != ' ' && Peek(s, k) != '\t'
    ensures Blanks(s, i) == k
    decreases k - i
  {
    if i < k {
      BlanksSkipped(s, i + 1, k);
    }
  }

  /** Digits of a positive number at `i`, with no digit after them. */
  lemma DecimalEnds(s: string, i: nat, n: nat)
    requires n > 0 && i + |Digits(n, 10)| <= |s| && s[i..i + |Digits(n, 10)|] == Digits(n, 10)
    requires !IsDigit(Peek(s, i + |Digits(n, 10)|))
    ensures Decimal(s, i, 0) == n && IsDigit(Peek(s, i))
  {
    DecimalOfDigits(s, i, n);
    DigitsStart(n);
    assert s[i] == s[i..i + |Digits(n, 10)|][0];
  }

  /** Spaces, then the text of `n`, then no digit. */
  lemma AtolAt(s: string, k: nat, n: int)
    requires k + |IntText(n)| <= |s| && s[k..k + |IntText(n)|] == IntText(n)
    requires (forall j :: 0 <= j < k ==> s[j] == ' ') && !IsDigit(Peek(s, k + |IntText(n)|))
    ensures Atol(s) == n
  {
    BlanksEndAt(s, k, n);
    if n == 0 {
      assert s[k] == s[k..k + 1][0] == '0';
      assert Decimal(s, k, 0) == Decimal(s, k + 1, 0);
    } else if n > 0 {
      DecimalEnds(s, k, n);
    } else {
      AfterSign(s, k, n);
      DecimalEnds(s, k + 1, -n);
    }
  }

  lemma AfterSign(s: string, k: nat, n: int)
    requires n < 0 && k + |IntText(n)| <= |s| && s[k..k + |IntText(n)|] == IntText(n)
    ensures s[k] == '-' && s[k + 1..k + 1 + |Digits(-n, 10)|] == Digits(-n, 10)
  {
    var t := IntText(n);
    assert s[k] == s[k..k + |t|][0] == '-';
    assert s[k + 1..k + |t|] == s[k..k + |t|][1..] == t[1..] == Digits(-n, 10);
  }

  lemma BlanksEndAt(s: string, k: nat, n: int)
    requires k + |IntText(n)| <= |s| && s[k..k + |IntText(n)|] == IntText(n) && forall j :: 0 <= j < k ==> s[j] == ' '
    ensures k < |s| && (n >= 0 ==> IsDigit(s[k])) && (n < 0 ==> s[k] == '-') && Blanks(s, 0) == k
  {
    var t := IntText(n);
    if n > 0 {
      DigitsStart(n);
    }
    assert t != "" && s[k] == s[k..k + |t|][0] == t[0];
    BlanksSkipped(s, 0, k);
  }

  /** The text of `n` between spaces reads as `n`. */
  lemma AtolOfIntText(n: int, k: int, m: int)
    ensures Atol(Repeat(' ', k) + IntText(n) + Repeat(' ', m)) == n
  {
    var s := Repeat(' ', k) + IntText(n) + Repeat(' ', m);
    RepeatAt(' ', k);
    RepeatAt(' ', m);
    var i := |Repeat(' ', k)|;
    assert s[i..i + |IntText(n)|] == IntText(n);
    AtolAt(s, i, n);
  }

  function Pow10(k: nat): nat {
    if k == 0 then 1 else 10 * Pow10(k - 1)
  }

  lemma Pow10Of20()
    ensures Pow10(20) == 100_000_000_000_000_000_000
  {
    assert Pow10(5) == 100_000;
    assert Pow10(10) == 10_000_000_000;
    assert Pow10(15) == 1_000_000_000_000_000;
  }

  lemma {:induction false} DigitsLength(n: nat, k: nat)
    requires n < Pow10(k)
    ensures |Digits(n, 10)| <= k
  {
    if n > 0 {
      assert k > 0 && n / 10 < Pow10(k - 1);
      DigitsLength(n / 10, k - 1);
    }
  }

  lemma LongTextIsShort(n: int)
    requires -TWO63 <= n < TWO63
    ensures |IntText(n)| <= 21
  {
    Pow10Of20();
    DigitsLength(if n < 0 then -n else n, 20);
  }

  /** A number printed in a width has that many characters, or its own when they are more. */
  lemma PaddedLength(n: int, p: Props)
    requires -TWO63 <= n < TWO63 && IsWidth(p.npad)
    ensures var wide := if p.npad < 0 then -p.npad else p.npad;
            |PadText(IntText(n), p)| == if wide > |IntText(n)| then wide else |IntText(n)|
  {
    var len := |IntText(n)|;
    LongTextIsShort(n);
    PadPlain(len, p.npad);
    RepeatAt(p.pad, LeftPad(len, p.npad));
    RepeatAt(' ', RightPad(len, p.npad));
  }

  /** atol undoes the decimal text of print_int, for every `long` and every space-padded width on either side. */
  lemma AtolUndoesPrintInt(n: int, p: Props)
    requires -TWO63 <= n < TWO63 && p.pad == ' '
    ensures ToLong(Atol(PadText(IntText(n), p))) == n
  {
    var t := IntText(n);
    SmallSigned(n);
    AtolOfIntText(n, LeftPad(|t|, p.npad), RightPad(|t|, p.npad));
  }
}
