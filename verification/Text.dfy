/** C strings as the runtime sees them: text up to a NUL, and decimal numbers in it. */
module Text {
  import opened Machine

  const NUL: char := '\0'

  /** The character a pointer into `s` reads; the end of `s` reads as NUL. */
  function Peek(s: seq<char>, i: nat): char {
    if i < |s| then s[i] else NUL
  }

  /** The text from position `i` to the first NUL. */
  function CText(s: seq<char>, i: nat := 0): (r: string)
    decreases |s| - i
  {
    if i < |s| && s[i] != NUL then [s[i]] + CText(s, i + 1) else []
  }

  predicate IsDigit(c: char) {
    '0' <= c <= '9'
  }

  function Blanks(s: seq<char>, i: nat): (j: nat)
    ensures i <= j
    decreases |s| - i
  {
    if i < |s| && (s[i] == ' ' || s[i] == '\t') then Blanks(s, i + 1) else i
  }

  /** The digits from position `i`, read on from `acc`. */
  function Decimal(s: seq<char>, i: nat, acc: int): int
    decreases |s| - i
  {
    if i < |s| && IsDigit(s[i]) then Decimal(s, i + 1, acc * 10 + (s[i] - '0') as int) else acc
  }

  /** The number written at position `i`: blanks, a sign and digits. */
  function Atol(s: seq<char>, i: nat := 0): int {
    var j := Blanks(s, i);
    if Peek(s, j) == '-' then -Decimal(s, j + 1, 0)
    else if Peek(s, j) == '+' then Decimal(s, j + 1, 0)
    else Decimal(s, j, 0)
  }

  /** atol as the loop it is, on the text from `i` on: the number in a `long`, overflow wrapping. */
  method AtolLoop(s: seq<char>, i: nat) returns (acc: int)
    ensures acc == ToLong(Atol(s, i))
  {
    var p := i;
    while Peek(s, p) == ' ' || Peek(s, p) == '\t'
      invariant i <= p && Blanks(s, i) == Blanks(s, p)
      decreases |s| - p
    {
      p := p + 1;
    }
    var neg := false;
    if Peek(s, p) == '-' {
      neg, p := true, p + 1;
    } else if Peek(s, p) == '+' {
      p := p + 1;
    }
    acc := 0;
    ghost var q, true_acc := p, 0;
    while Peek(s, p) != NUL && IsDigit(Peek(s, p))
      invariant q <= p && Decimal(s, q, 0) == Decimal(s, p, true_acc) && acc == ToLong(true_acc)
      decreases |s| - p
    {
      var c := (Peek(s, p) - '0') as int;
      SignedStep(true_acc, 10, c, TWO64);
      acc := ToLong(acc * 10 + c);
      true_acc := true_acc * 10 + c;
      p := p + 1;
    }
    if neg {
      SignedStep(true_acc, -1, 0, TWO64);
      acc := ToLong(-acc);
    }
  }
}
