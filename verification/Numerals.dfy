/** Numbers in positional notation, read digit by digit, and padded text: what printed numbers are held against. */
module Numerals {
  import opened Machine
  import opened Numbers
  import opened Printf

  /** The value of a digit, -1 for any other character. */
  function DigitOf(c: char): int {
    if '0' <= c <= '9' then (c - '0') as int
    else if 'a' <= c <= 'f' then 10 + (c - 'a') as int
    else -1
  }

  function ValueOf(u: string, base: nat): int {
    if u == "" then 0 else ValueOf(u[..|u| - 1], base) * base + DigitOf(u[|u| - 1])
  }

  /** `u` is the number `n` in base `base`, without needless zeros in front. */
  ghost predicate Numeral(u: string, n: int, base: nat) {
    && u != "" && (forall i :: 0 <= i < |u| ==> 0 <= DigitOf(u[i]) < base)
    && ValueOf(u, base) == n && (|u| > 1 ==> u[0] != '0')
  }

  lemma {:induction false} ValueAbove(u: string, base: nat)
    requires base > 0 && u != "" && u[0] != '0' && forall i :: 0 <= i < |u| ==> 0 <= DigitOf(u[i]) < base
    ensures ValueOf(u, base) > 0
  {
    if |u| > 1 {
      ValueAbove(u[..|u| - 1], base);
    }
  }

  lemma SameDigit(c: char, d: char)
    requires DigitOf(c) == DigitOf(d) >= 0
    ensures c == d
  {
  }

  lemma LastDigit(u: string, n: int, base: nat)
    requires base > 0 && Numeral(u, n, base)
    ensures n % base == DigitOf(u[|u| - 1]) && n / base == ValueOf(u[..|u| - 1], base)
  {
    DivModUnique(n, base, ValueOf(u[..|u| - 1], base), DigitOf(u[|u| - 1]));
  }

  lemma OneDigit(u: string, n: int, base: nat)
    requires base > 0 && Numeral(u, n, base)
    ensures |u| == 1 <==> n / base == 0
  {
    LastDigit(u, n, base);
    if |u| > 1 {
      ValueAbove(u[..|u| - 1], base);
    }
  }

  /** A number has one numeral. */
  lemma {:induction false} NumeralIsUnique(u: string, v: string, n: int, base: nat)
    requires base > 0 && Numeral(u, n, base) && Numeral(v, n, base)
    ensures u == v
    decreases |u|
  {
    LastDigit(u, n, base);
    LastDigit(v, n, base);
    OneDigit(u, n, base);
    OneDigit(v, n, base);
    SameDigit(u[|u| - 1], v[|v| - 1]);
    if |u| > 1 {
      NumeralIsUnique(u[..|u| - 1], v[..|v| - 1], n / base, base);
      assert u == u[..|u| - 1] + [u[|u| - 1]] && v == v[..|v| - 1] + [v[|v| - 1]];
    } else {
      assert u == [u[0]] && v == [v[0]];
    }
  }

  lemma DigitBack(d: nat)
    requires d < 16
    ensures DigitOf(Digit(d)) == d && (d != 0 ==> Digit(d) != '0')
  {
  }

  lemma NumeralSnoc(u: string, n: nat, d: nat, base: nat)
    requires 2 <= base <= 16 && Numeral(u, n, base) && u[0] != '0' && d < base
    ensures Numeral(u + [Digit(d)], n * base + d, base)
  {
    var v := u + [Digit(d)];
    DigitBack(d);
    assert v[..|v| - 1] == u && v[|v| - 1] == Digit(d);
  }

  lemma OneDigitNumeral(n: nat, base: nat)
    requires 2 <= base <= 16 && 0 < n < base
    ensures Digits(n, base) == [Digit(n)] && Numeral([Digit(n)], n, base) && Digit(n) != '0'
  {
    DivModUnique(n, base, 0, n);
    DigitBack(n);
    assert [Digit(n)][..0] == "";
  }

  lemma Quotient(n: nat, base: nat)
    requires 2 <= base <= n
    ensures 0 < n / base < n && n == n / base * base + n % base
  {
    if n / base == 0 {
      DivModUnique(n, base, 0, n % base);
    }
  }

  /** The digits the loops produce are the numeral. */
  lemma {:induction false} DigitsNumeral(n: nat, base: nat)
    requires 2 <= base <= 16 && n > 0
    ensures Numeral(Digits(n, base), n, base) && Digits(n, base)[0] != '0'
  {
    if n < base {
      OneDigitNumeral(n, base);
    } else {
      Quotient(n, base);
      var m, d := n / base, n % base;
      DigitsNumeral(m, base);
      NumeralSnoc(Digits(m, base), m, d, base);
      assert Digits(n, base) == Digits(m, base) + [Digit(d)];
    }
  }

  /** `out` is `body` in a field of `w` characters: on the right after `pad`, or for a negative width on the left before spaces. */
  ghost predicate Justified(out: string, body: string, w: int, pad: char) {
    var wide := if w < 0 then -w else w;
    && |out| == (if wide > |body| then wide else |body|)
    && if w >= 0 then
         out[|out| - |body|..] == body && forall i :: 0 <= i < |out| - |body| ==> out[i] == pad
       else
         out[..|body|] == body && forall i :: |body| <= i < |out| ==> out[i] == ' '
  }

  /** print_str justifies. */
  lemma PadJustifies(body: string, p: Props)
    requires IsWidth(p.npad) && (p.npad == 0 || |body| < TWO31)
    ensures Justified(PadText(body, p), body, p.npad, p.pad)
  {
    if p.npad != 0 {
      PadPlain(|body|, p.npad);
    }
    RepeatAt(p.pad, LeftPad(|body|, p.npad));
    RepeatAt(' ', RightPad(|body|, p.npad));
  }

  lemma DigitsShort(n: nat, base: nat)
    requires (base == 10 || base == 16) && n < TWO64
    ensures |Digits(n, base)| <= 20
  {
    Pow10Of20();
    RevDigitsLength(n, base, 20);
    ReverseDigits(n, base);
    if RevDigits(n, base) != "" {
      ReverseAt(RevDigits(n, base), 0);
    }
  }
}
