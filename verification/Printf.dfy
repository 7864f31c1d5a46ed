/**
 vsnprintf: a stream that counts every character but stores only what fits, the
 conversions that feed it, and the format loop.
 */
module Printf {
  import opened Machine
  import opened Text
  import opened Strings
  import opened Numbers

  function Min(a: int, b: int): int {
    if a < b then a else b
  }

  /** A buffer that held `orig`, with the first characters of `out` that fit written from `start` on. */
  ghost function Written(orig: seq<char>, start: nat, room: nat, out: seq<char>): seq<char>
    requires start + room < |orig|
  {
    orig[..start] + out[..Min(|out|, room)] + orig[start + Min(|out|, room)..]
  }

  lemma WriteNext(orig: seq<char>, start: nat, room: nat, out: seq<char>, c: char)
    requires start + room < |orig|
    ensures |Written(orig, start, room, out)| == |orig|
    ensures Written(orig, start, room, out + [c]) ==
              if |out| < room then Written(orig, start, room, out)[start + |out| := c] else Written(orig, start, room, out)
  {
    if |out| < room {
      assert (out + [c])[..|out| + 1] == out + [c] && out[..|out|] == out;
    } else {
      assert (out + [c])[..room] == out[..room];
    }
  }

  /** The first `room` characters of `out` at most, then a NUL, and the rest of the buffer as it was. */
  ghost function Stored(orig: seq<char>, start: nat, room: nat, out: seq<char>): seq<char>
    requires start + room < |orig|
  {
    var k := Min(|out|, room);
    orig[..start] + out[..k] + [NUL] + orig[start + k + 1..]
  }

  lemma FinishWritten(orig: seq<char>, start: nat, room: nat, out: seq<char>)
    requires start + room < |orig|
    ensures |Written(orig, start, room, out)| == |orig|
    ensures Written(orig, start, room, out)[start + Min(|out|, room) := NUL] == Stored(orig, start, room, out)
  {
  }

  /** What that is, place by place. */
  lemma StoredAt(orig: seq<char>, start: nat, room: nat, out: seq<char>, i: nat)
    requires start + room < |orig| && i < |orig|
    ensures var s, k := Stored(orig, start, room, out), if |out| < room then |out| else room;
            && |s| == |orig|
            && s[i] == if start <= i < start + k then out[i - start] else if i == start + k then '\0' else orig[i]
  {
  }

  /** pstream_t: `out` is everything written so far, fitting or not. */
  class PStream {
    const buffer: array<char>
    const start: nat      // where the caller's buffer begins
    const room: nat       // characters that fit before the final NUL
    var pos: nat
    var remain: nat
    var added: int        // an `int`: it wraps
    ghost var out: seq<char>
    ghost const orig: seq<char>

    ghost predicate Valid()
      reads this, buffer
    {
      && start + room < buffer.Length == |orig|
      && added == ToInt(|out|) && remain == room - Min(|out|, room) && pos == start + Min(|out|, room)
      && buffer[..] == Written(orig, start, room, out)
    }

    constructor (buf: array<char>, at: nat, size: nat)
      requires size >= 1 && at + size <= buf.Length
      ensures Valid() && buffer == buf && start == at && room == size - 1 && out == [] && orig == buf[..]
    {
      buffer, start, room, pos, remain, added, out, orig := buf, at, size - 1, at, size - 1, 0, [], buf[..];
    }

    method AddChar(c: char)
      requires Valid()
      modifies this, buffer
      ensures Valid() && out == old(out) + [c]
    {
      WriteNext(orig, start, room, out, c);
      if remain != 0 {
        buffer[pos] := c;
        pos := pos + 1;
        remain := remain - 1;
      }
      SignedStep(|out|, 1, 1, TWO32);
      added := ToInt(added + 1);
      out := out + [c];
    }

    /** The NUL at the end of vsnprintf. */
    method Finish()
      requires Valid()
      modifies buffer
      ensures buffer[..] == Stored(orig, start, room, out)
    {
      buffer[pos] := NUL;
      FinishWritten(orig, start, room, out);
    }

    /** `k` times the same character. */
    method AddPadding(c: char, k: int)
      requires Valid()
      modifies this, buffer
      ensures Valid() && out == old(out) + Repeat(c, k)
    {
      var n := 0;
      while n < k
        invariant Valid() && 0 <= n && (n == 0 || n <= k) && out == old(out) + Repeat(c, n)
      {
        AddChar(c);
        n := n + 1;
      }
    }

    /** print_str on the C string `s`. */
    method PrintStr(s: seq<char>, props: Props)
      requires Valid()
      modifies this, buffer
      ensures Valid() && out == old(out) + PadText(CText(s), props)
    {
      var len := StrlenAt(s, 0);
      var npad := props.npad;
      ghost var before := out;
      if npad > 0 {
        npad := ToInt(npad - len);
        AddPadding(props.pad, npad);
      }
      assert out == before + Repeat(props.pad, LeftPad(len, props.npad));
      AddText(s);
      if npad < 0 {
        npad := ToInt(npad + len);
        AddPadding(' ', -npad);
      }
      Chain(before, Repeat(props.pad, LeftPad(len, props.npad)), CText(s), Repeat(' ', RightPad(len, props.npad)));
    }

    /** print_int in base 10: every `long long` but the least is printed; for that one the code leaves its digit table. */
    method PrintInt(n: int, props: Props) returns (ok: bool)
      requires Valid() && -TWO63 <= n < TWO63
      modifies this, buffer
      ensures Valid() && (ok <==> n != -TWO63)
      ensures out == if ok then old(out) + PadText(IntText(n), props) else old(out)
    {
      var buf := new char[26];
      var p;
      ok, p := FormatInt(buf, n);
      if ok {
        buf[p] := NUL;
        NoNulInIntText(n);
        CTextOf(buf[..], IntText(n));
        PrintStr(buf[..], props);
      }
    }

    /** print_unsigned in base 10 or 16. */
    method PrintUnsigned(n: nat, base: nat, props: Props)
      requires Valid() && n < TWO64 && (base == 10 || base == 16)
      modifies this, buffer
      ensures Valid() && out == old(out) + UnsignedOut(n, base, props)
    {
      var buf := UnsignedString(n, base, props);
      var props' := props;
      if n != 0 && props.alternate && base == 16 && props.pad == '0' {
        AddChar('0');
        AddChar('x');
        if props.npad > 0 {
          props' := props.(npad := if props.npad - 2 > 0 then props.npad - 2 else 0);
        }
      }
      ghost var before := out;
      PrintStr(buf[..], props');
      assert out == before + PadText(UnsignedText(n, base, props), props');
    }

    /** The loop of print_str over the characters up to the NUL. */
    method AddText(s: seq<char>)
      requires Valid()
      modifies this, buffer
      ensures Valid() && out == old(out) + CText(s)
    {
      var p := 0;
      while Peek(s, p) != NUL
        invariant Valid() && out + CText(s, p) == old(out) + CText(s)
        decreases |s| - p
      {
        AddChar(s[p]);
        p := p + 1;
      }
    }
  }

  /** The text print_unsigned builds in its buffer. */
  function UnsignedText(n: nat, base: nat, p: Props): string
    requires 2 <= base <= 16
  {
    if n == 0 then "0"
    else if p.alternate && base == 16 && p.pad != '0' then "0x" + Digits(n, base)
    else Digits(n, base)
  }

  /** What print_unsigned emits: with zero padding the prefix goes before the zeros and counts toward the width. */
  function UnsignedOut(n: nat, base: nat, p: Props): string
    requires 2 <= base <= 16
  {
    if n != 0 && p.alternate && base == 16 && p.pad == '0' then
      "0x" + PadText(Digits(n, base), if p.npad > 0 then p.(npad := if p.npad > 2 then p.npad - 2 else 0) else p)
    else PadText(UnsignedText(n, base, p), p)
  }

  function RevUnsigned(n: nat, base: nat, p: Props): string
    requires 2 <= base <= 16
  {
    if n == 0 then "0"
    else if p.alternate && base == 16 && p.pad != '0' then RevDigits(n, base) + "x" + "0"
    else RevDigits(n, base)
  }

  lemma ReverseUnsigned(n: nat, base: nat, p: Props)
    requires 2 <= base <= 16
    ensures Reverse(RevUnsigned(n, base, p)) == UnsignedText(n, base, p)
  {
    ReverseDigits(n, base);
    ReverseSnoc(RevDigits(n, base), 'x');
    ReverseSnoc(RevDigits(n, base) + "x", '0');
  }

  /** The characters print_int emits before it turns them around. */
  function RevText(n: int): string {
    if n == 0 then "0" else if n < 0 then RevDigits(-n, 10) + "-" else RevDigits(n, 10)
  }

  lemma ReverseText(n: int)
    ensures Reverse(RevText(n)) == IntText(n)
  {
    if n != 0 {
      ReverseDigits(if n < 0 then -n else n, 10);
      ReverseSnoc(RevDigits(if n < 0 then -n else n, 10), '-');
    }
  }

  lemma Shrinks(n: nat, base: nat, k: nat)
    requires (base == 10 || base == 16) && 0 < n < Pow10(k)
    ensures k > 0 && n / base < Pow10(k - 1) && Digit(n % base) != NUL
  {
  }

  lemma {:induction false} RevDigitsLength(n: nat, base: nat, k: nat)
    requires (base == 10 || base == 16) && n < Pow10(k)
    ensures |RevDigits(n, base)| <= k && (n > 0 ==> RevDigits(n, base) != "")
    ensures forall i :: 0 <= i < |RevDigits(n, base)| ==> RevDigits(n, base)[i] != NUL
  {
    if n > 0 {
      Shrinks(n, base, k);
      RevDigitsLength(n / base, base, k - 1);
      assert RevDigits(n, base) == [Digit(n % base)] + RevDigits(n / base, base);
    }
  }

  /**
   print_int up to its final NUL: digits, sign and the turn-around, all inside the local buffer. The negation is one of
   64-bit numbers.
   */
  method FormatInt(buf: array<char>, n: int) returns (ok: bool, p: nat)
    requires -TWO63 <= n < TWO63 && buf.Length == 26
    modifies buf
    ensures ok <==> n != -TWO63
    ensures ok ==> p == |IntText(n)| < 22 && buf[..p] == IntText(n)
  {
    var m := Magnitude(n);
    ok, p := EmitDigits(buf, m, 10);
    if ok {
      p := SignAndTurn(buf, n, p);
    }
  }

  /** The negation at the top of print_int, on 64-bit numbers: the least one is its own negation. */
  method Magnitude(n: int) returns (m: int)
    requires -TWO63 <= n < TWO63
    ensures m == if n == -TWO63 then n else Abs(n)
  {
    SmallSigned(-n);
    m := if n < 0 then ToLong(-n) else n;
  }

  /** The sign, or the only digit of 0, and the turn-around. */
  method SignAndTurn(buf: array<char>, n: int, len: nat) returns (p: nat)
    requires buf.Length == 26 && len <= 20 && buf[..len] == RevDigits(Abs(n), 10) && (len == 0 <==> n == 0)
    modifies buf
    ensures p == |IntText(n)| < 22 && buf[..p] == IntText(n)
  {
    p := len;
    if n < 0 {
      buf[p] := '-';
      p := p + 1;
    }
    if p == 0 {
      buf[p] := '0';
      p := p + 1;
    }
    assert buf[..p] == RevText(n);
    ReverseText(n);
    ReverseInPlace(buf, p);
  }

  /** The local buffer of print_unsigned, as the C string it holds in the end. */
  method UnsignedString(n: nat, base: nat, props: Props) returns (buf: array<char>)
    requires n < TWO64 && (base == 10 || base == 16)
    ensures fresh(buf) && CText(buf[..]) == UnsignedText(n, base, props)
  {
    buf := new char[27];
    var p := FormatUnsigned(buf, n, base, props);
    buf[p] := NUL;
    CTextOf(buf[..], UnsignedText(n, base, props));
  }

  /** The buffer of print_unsigned up to its final NUL. */
  method FormatUnsigned(buf: array<char>, n: nat, base: nat, props: Props) returns (p: nat)
    requires n < TWO64 && (base == 10 || base == 16) && buf.Length == 27
    modifies buf
    ensures p == |UnsignedText(n, base, props)| < 23 && buf[..p] == UnsignedText(n, base, props)
    ensures NUL !in UnsignedText(n, base, props)
  {
    var ok;
    ok, p := EmitDigits(buf, n, base);
    if p == 0 {
      buf[p] := '0';
      p := p + 1;
    } else if props.alternate && base == 16 && props.pad != '0' {
      buf[p] := 'x';
      p := p + 1;
      buf[p] := '0';
      p := p + 1;
    }
    assert buf[..p] == RevUnsigned(n, base, props);
    ReverseUnsigned(n, base, props);
    ReverseInPlace(buf, p);
    NoNulInDigits(n, base);
  }

  /** C's remainder and quotient, which round toward 0. */
  function CRem(m: int, base: nat): int
    requires base > 0
  {
    if m < 0 then -(-m % base) else m % base
  }

  function CDiv(m: int, base: nat): int
    requires base > 0
  {
    if m < 0 then -(-m / base) else m / base
  }

  function Abs(m: int): nat {
    if m < 0 then -m else m
  }

  /**
   The digit loop: the digits of `n`, least significant first, at the front of `buf`. Any negative number comes to a
   remainder that is no index of the digit table; `ok` is false then.
   */
  method EmitDigits(buf: array<char>, n: int, base: nat) returns (ok: bool, p: nat)
    requires (base == 10 || base == 16) && -TWO64 < n < TWO64 && buf.Length > 20
    modifies buf
    ensures ok <==> n >= 0
    ensures ok ==> p == |RevDigits(n, base)| <= 20 && buf[..p] == RevDigits(n, base) && (p == 0 <==> n == 0)
  {
    Pow10Of20();
    RevDigitsLength(Abs(n), base, 20);
    p := 0;
    var m := n;
    ghost var all := RevDigits(Abs(n), base);
    while m != 0
      invariant (m < 0 <==> n < 0) || m == 0 <= n
      invariant p + |RevDigits(Abs(m), base)| == |all| <= 20
      invariant n >= 0 ==> buf[..p] + RevDigits(Abs(m), base) == all
      decreases Abs(m)
    {
      DigitStep(Abs(m), base);
      CDivStep(m, base);
      if CRem(m, base) < 0 {
        return false, p;
      }
      var d := Digit(CRem(m, base));
      ghost var was, rest := buf[..p], RevDigits(Abs(m) / base, base);
      Regroup(was, d, rest);
      buf[p] := d;
      assert buf[..p + 1] == was + [d];
      p := p + 1;
      m := CDiv(m, base);
    }
    ok := true;
  }

  /** A negative number has a nonzero digit left as long as its remainders are 0. */
  lemma CDivStep(m: int, base: nat)
    requires (base == 10 || base == 16) && m != 0
    ensures Abs(CDiv(m, base)) == Abs(m) / base && Abs(CRem(m, base)) == Abs(m) % base < base
    ensures m > 0 ==> CRem(m, base) >= 0 && CDiv(m, base) >= 0
    ensures m < 0 && CRem(m, base) >= 0 ==> CRem(m, base) == 0 && CDiv(m, base) < 0
  {
  }

  lemma Chain(a: string, b: string, c: string, d: string)
    ensures ((a + b) + c) + d == a + (b + c + d)
  {
  }

  lemma Regroup(s: string, c: char, t: string)
    ensures s + ([c] + t) == (s + [c]) + t
  {
  }

  lemma DigitStep(m: nat, base: nat)
    requires (base == 10 || base == 16) && m > 0
    ensures 0 <= m / base < m && RevDigits(m, base) == [Digit(m % base)] + RevDigits(m / base, base)
  {
  }

  /** The swap loop of print_int and print_unsigned. */
  method ReverseInPlace(buf: array<char>, n: nat)
    requires n <= buf.Length
    modifies buf
    ensures buf[..n] == Reverse(old(buf[..n])) && buf[n..] == old(buf[n..])
  {
    var i := 0;
    while i < n / 2
      invariant 0 <= i <= n / 2
      invariant forall k :: 0 <= k < i ==> buf[k] == old(buf[n - 1 - k]) && buf[n - 1 - k] == old(buf[k])
      invariant forall k :: i <= k < n - i ==> buf[k] == old(buf[k])
      invariant forall k :: n <= k < buf.Length ==> buf[k] == old(buf[k])
    {
      buf[i], buf[n - 1 - i] := buf[n - 1 - i], buf[i];
      i := i + 1;
    }
    ghost var was := old(buf[..n]);
    forall k | 0 <= k < n
      ensures |Reverse(was)| == n && buf[..n][k] == Reverse(was)[k]
    {
      ReverseAt(was, k);
    }
  }

  /** A NUL-free text followed by a NUL is what a C string reads. */
  lemma {:induction false} CTextFrom(s: seq<char>, i: nat, t: string)
    requires i + |t| < |s| && s[i..i + |t|] == t && s[i + |t|] == NUL && NUL !in t
    ensures CText(s, i) == t
    decreases |t|
  {
    if t != "" {
      assert s[i] == s[i..i + |t|][0] == t[0];
      assert s[i + 1..i + |t|] == t[1..];
      CTextFrom(s, i + 1, t[1..]);
      assert t == [t[0]] + t[1..];
    }
  }

  lemma CTextOf(s: seq<char>, t: string)
    requires |t| < |s| && s[..|t|] == t && s[|t|] == NUL && NUL !in t
    ensures CText(s) == t
  {
    assert s[0..0 + |t|] == t;
    CTextFrom(s, 0, t);
  }

  lemma {:induction false} NoNulInDigits(n: nat, base: nat)
    requires 2 <= base <= 16
    ensures NUL !in Digits(n, base)
  {
    if n > 0 {
      NoNulInDigits(n / base, base);
    }
  }

  lemma NoNulInIntText(n: int)
    ensures NUL !in IntText(n)
  {
    NoNulInDigits(if n < 0 then -n else n, 10);
  }
}
