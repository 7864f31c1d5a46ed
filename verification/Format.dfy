/** The format loop of vsnprintf, and what it leaves in the caller's buffer. */
module Format {
  import opened Machine
  import opened Text
  import opened Numbers
  import opened Printf

  // ----- arguments -----

  /**
   What a variadic argument holds. Reading one of the other kind, or one too many, is undefined in C; it reads
   as 0 or "".
   */
  datatype Arg = Num(n: int) | Str(s: string)

  function NumArg(args: seq<Arg>): int {
    if args != [] && args[0].Num? then args[0].n else 0
  }

  function StrArg(args: seq<Arg>): string {
    if args != [] && args[0].Str? then args[0].s else ""
  }

  function Rest(args: seq<Arg>): seq<Arg> {
    if args == [] then [] else args[1..]
  }

  function Unsigned(n: int, nlong: int): nat {
    if nlong == 0 then n % TWO32 else n % TWO64
  }

  function Signed(n: int, nlong: int): int {
    if nlong == 0 then ToInt(n) else ToLong(n)
  }

  function CharOf(n: int): char {
    (n % 0x100) as char
  }

  // ----- the meaning of a format -----

  /** The length of the number fmtnum steps over. */
  function NumLen(fmt: string, i: nat): nat {
    if Peek(fmt, i) == '-' then 1 + DigitRun(fmt, i + 1) else DigitRun(fmt, i)
  }

  function DigitRun(fmt: string, i: nat): nat
    decreases |fmt| - i
  {
    if i < |fmt| && IsDigit(fmt[i]) then 1 + DigitRun(fmt, i + 1) else 0
  }

  /**
   One character after a '%': it changes how the conversion goes on, ends it with some text, or makes the code leave
   its tables. The last happens for the least `long`, whose negation is no index of the digit table, and for a width of
   2^31 digits or more, whose count moves the format pointer out of the format.
   */
  datatype Action =
    | More(next: nat, props: Props, nlong: int)
    | Emit(text: string, next: nat, args: seq<Arg>)
    | Wild

  /** The number of fmtnum at `i`, an `int`, and the rest of the conversion after it. */
  function Width(fmt: string, i: nat, p: Props, nlong: int): Action {
    if NumLen(fmt, i) < TWO31 then More(i + NumLen(fmt, i), p.(npad := ToInt(Atol(fmt, i))), nlong) else Wild
  }

  function Act(fmt: string, i: nat, p: Props, nlong: int, args: seq<Arg>): Action
    requires i < |fmt|
  {
    var f := fmt[i];
    if f == '%' then Emit("%", i + 1, args)
    else if f == 'c' then Emit([CharOf(NumArg(args))], i + 1, Rest(args))
    else if f == '#' then More(i + 1, p.(alternate := true), nlong)
    else if f == '0' then Width(fmt, i + 1, p.(pad := '0'), nlong)
    else if '1' <= f <= '9' || f == '-' then Width(fmt, i, p, nlong)
    else if f == 'l' then More(i + 1, p, ToInt(nlong + 1))
    else if f == 't' || f == 'z' then More(i + 1, p, 1)
    else if f == 'd' then
      if Signed(NumArg(args), nlong) == -TWO63 then Wild
      else Emit(PadText(IntText(Signed(NumArg(args), nlong)), p), i + 1, Rest(args))
    else if f == 'u' then Emit(UnsignedOut(Unsigned(NumArg(args), nlong), 10, p), i + 1, Rest(args))
    else if f == 'x' then Emit(UnsignedOut(Unsigned(NumArg(args), nlong), 16, p), i + 1, Rest(args))
    else if f == 'p' then Emit(UnsignedOut(Unsigned(NumArg(args), 1), 16, p.(alternate := true)), i + 1, Rest(args))
    else if f == 's' then Emit(PadText(CText(StrArg(args)), p), i + 1, Rest(args))
    else Emit([f], i + 1, args)
  }

  lemma ActAdvances(fmt: string, i: nat, p: Props, nlong: int, args: seq<Arg>)
    requires i < |fmt| && !Act(fmt, i, p, nlong, args).Wild?
    ensures Act(fmt, i, p, nlong, args).next > i
  {
  }

  const PLAIN: Props := Props(' ', 0, false)

  /** Everything a format produces from position `i`, outside a conversion. */
  function Render(fmt: string, i: nat, args: seq<Arg>): string
    decreases |fmt| - i
  {
    if Peek(fmt, i) == NUL then ""
    else if fmt[i] != '%' then [fmt[i]] + Render(fmt, i + 1, args)
    else Conversion(fmt, i + 1, PLAIN, 0, args)
  }

  /** Everything from position `i` on, inside a conversion. */
  function Conversion(fmt: string, i: nat, p: Props, nlong: int, args: seq<Arg>): string
    decreases |fmt| - i
  {
    if Peek(fmt, i) == NUL || Act(fmt, i, p, nlong, args).Wild? then ""
    else
      ActAdvances(fmt, i, p, nlong, args);
      match Act(fmt, i, p, nlong, args)
      case More(next, p', nlong') => Conversion(fmt, next, p', nlong', args)
      case Emit(text, next, args') => text + Render(fmt, next, args')
  }

  /** No conversion from position `i` on makes the code leave its tables. */
  predicate Fine(fmt: string, i: nat, args: seq<Arg>)
    decreases |fmt| - i
  {
    if Peek(fmt, i) == NUL then true
    else if fmt[i] != '%' then Fine(fmt, i + 1, args)
    else FineConversion(fmt, i + 1, PLAIN, 0, args)
  }

  predicate FineConversion(fmt: string, i: nat, p: Props, nlong: int, args: seq<Arg>)
    decreases |fmt| - i
  {
    if Peek(fmt, i) == NUL then true
    else if Act(fmt, i, p, nlong, args).Wild? then false
    else
      ActAdvances(fmt, i, p, nlong, args);
      match Act(fmt, i, p, nlong, args)
      case More(next, p', nlong') => FineConversion(fmt, next, p', nlong', args)
      case Emit(_, next, args') => Fine(fmt, next, args')
  }

  // ----- the loop -----

  /** fmtnum: the number at `i`, an `int`, and the position after it; false when its count of characters is no `int`. */
  method FmtNum(fmt: string, i: nat) returns (ok: bool, num: int, next: nat)
    ensures ok <==> NumLen(fmt, i) < TWO31
    ensures num == ToInt(Atol(fmt, i)) && next == i + NumLen(fmt, i)
  {
    var f, len := i, 0;
    if Peek(fmt, f) == '-' {
      f, len := f + 1, 1;
    }
    while '0' <= Peek(fmt, f) <= '9'
      invariant i <= f && len + DigitRun(fmt, f) == NumLen(fmt, i)
      decreases |fmt| - f
    {
      f, len := f + 1, len + 1;
    }
    num := AtolLoop(fmt, i);
    IntOfLong(Atol(fmt, i));
    ok, num, next := len < TWO31, ToInt(num), i + len;
  }

  /** A conversion character that prints something; false when the code leaves its digit table. */
  method Print(s: PStream, f: char, props: Props, nlong: int, args: seq<Arg>, ghost fmt: string, ghost i: nat)
    returns (ok: bool, args': seq<Arg>)
    requires s.Valid()
    requires f !in "#0123456789-ltz" && i < |fmt| && fmt[i] == f
    modifies s, s.buffer
    ensures s.Valid()
    ensures var a := Act(fmt, i, props, nlong, args);
            if ok then a.Emit? && a.next == i + 1 && a.args == args' && s.out == old(s.out) + a.text
            else a.Wild? && s.out == old(s.out)
  {
    ok, args' := true, args;
    if f in "duxp" {
      ok := PrintNumber(s, f, props, nlong, args, fmt, i);
      args' := Rest(args);
    } else if f == 's' {
      s.PrintStr(StrArg(args), props);
      args' := Rest(args);
    } else if f == 'c' {
      s.AddChar(CharOf(NumArg(args)));
      args' := Rest(args);
    } else {
      s.AddChar(f);
    }
  }

  /** The conversions of numbers. */
  method PrintNumber(s: PStream, f: char, props: Props, nlong: int, args: seq<Arg>, ghost fmt: string, ghost i: nat) returns (ok: bool)
    requires s.Valid() && f in "duxp" && i < |fmt| && fmt[i] == f
    modifies s, s.buffer
    ensures s.Valid()
    ensures var a := Act(fmt, i, props, nlong, args);
            if ok then a.Emit? && a.next == i + 1 && a.args == Rest(args) && s.out == old(s.out) + a.text
            else a.Wild? && s.out == old(s.out)
  {
    ok := true;
    if f == 'd' {
      SmallSigned(NumArg(args));
      ok := s.PrintInt(Signed(NumArg(args), nlong), props);
    } else if f == 'u' {
      s.PrintUnsigned(Unsigned(NumArg(args), nlong), 10, props);
    } else if f == 'x' {
      s.PrintUnsigned(Unsigned(NumArg(args), nlong), 16, props);
    } else {
      s.PrintUnsigned(Unsigned(NumArg(args), 1), 16, props.(alternate := true));
    }
  }

  /** One flag, width or length character. */
  method Flag(fmt: string, i: nat, props: Props, nlong: int, ghost args: seq<Arg>)
    returns (ok: bool, next: nat, props': Props, nlong': int)
    requires Peek(fmt, i) in "#0123456789-ltz"
    ensures i < |fmt| && Act(fmt, i, props, nlong, args) == if ok then More(next, props', nlong') else Wild
  {
    var f := fmt[i];
    ok, props', nlong', next := true, props, nlong, i + 1;
    if f == '#' {
      props' := props.(alternate := true);
    } else if f == 'l' {
      nlong' := ToInt(nlong + 1);
    } else if f == 't' || f == 'z' {
      nlong' := 1;
    } else {
      if f == '0' {
        props' := props.(pad := '0');
      } else {
        next := i;
      }
      var num;
      ok, num, next := FmtNum(fmt, next);
      props' := props'.(npad := num);
    }
  }

  lemma FlagStep(fmt: string, i: nat, p: Props, nlong: int, args: seq<Arg>)
    requires Peek(fmt, i) != NUL && i < |fmt| && Act(fmt, i, p, nlong, args).More?
    ensures var a := Act(fmt, i, p, nlong, args);
            && a.next > i && Conversion(fmt, i, p, nlong, args) == Conversion(fmt, a.next, a.props, a.nlong, args)
            && FineConversion(fmt, i, p, nlong, args) == FineConversion(fmt, a.next, a.props, a.nlong, args)
  {
    ActAdvances(fmt, i, p, nlong, args);
  }

  /** The flags, width and length characters of a conversion. */
  method Flags(fmt: string, i: nat, ghost args: seq<Arg>) returns (ok: bool, next: nat, props: Props, nlong: int)
    ensures !ok ==> !FineConversion(fmt, i, PLAIN, 0, args)
    ensures ok ==> next >= i && Peek(fmt, next) !in "#0123456789-ltz"
    ensures ok ==> Conversion(fmt, next, props, nlong, args) == Conversion(fmt, i, PLAIN, 0, args)
    ensures ok ==> FineConversion(fmt, next, props, nlong, args) == FineConversion(fmt, i, PLAIN, 0, args)
  {
    ok, props, nlong, next := true, PLAIN, 0, i;
    ghost var all, fine := Conversion(fmt, i, PLAIN, 0, args), FineConversion(fmt, i, PLAIN, 0, args);
    while Peek(fmt, next) in "#0123456789-ltz"
      invariant ok && next >= i
      invariant Conversion(fmt, next, props, nlong, args) == all && FineConversion(fmt, next, props, nlong, args) == fine
      decreases |fmt| - next
    {
      ghost var at, p, l := next, props, nlong;
      ok, next, props, nlong := Flag(fmt, next, props, nlong, args);
      if !ok {
        return;
      }
      FlagStep(fmt, at, p, l, args);
    }
  }

  /** The part of the loop from a '%' to the end of its conversion. */
  method Convert(s: PStream, fmt: string, i: nat, args: seq<Arg>) returns (ok: bool, next: nat, args': seq<Arg>)
    requires s.Valid()
    modifies s, s.buffer
    ensures s.Valid() && (!ok ==> !FineConversion(fmt, i, PLAIN, 0, args))
    ensures ok ==> next >= i && s.out + Render(fmt, next, args') == old(s.out) + Conversion(fmt, i, PLAIN, 0, args)
    ensures ok ==> FineConversion(fmt, i, PLAIN, 0, args) == Fine(fmt, next, args')
  {
    var props, nlong;
    ok, next, props, nlong := Flags(fmt, i, args);
    args' := args;
    if ok && Peek(fmt, next) != NUL {
      PrintStep(fmt, next, props, nlong, args);
      ghost var a, before := Act(fmt, next, props, nlong, args), s.out;
      ok, args' := Print(s, fmt[next], props, nlong, args, fmt, next);
      next := next + 1;
      if ok {
        Assoc(before, a.text, Render(fmt, next, args'));
      }
    }
  }

  lemma Assoc(a: string, b: string, c: string)
    ensures (a + b) + c == a + (b + c)
  {
  }

  lemma PrintStep(fmt: string, i: nat, p: Props, nlong: int, args: seq<Arg>)
    requires Peek(fmt, i) != NUL && i < |fmt| && !Act(fmt, i, p, nlong, args).More?
    ensures var a := Act(fmt, i, p, nlong, args);
            if a.Wild? then !FineConversion(fmt, i, p, nlong, args)
            else
              && Conversion(fmt, i, p, nlong, args) == a.text + Render(fmt, a.next, a.args)
              && FineConversion(fmt, i, p, nlong, args) == Fine(fmt, a.next, a.args)
  {
  }

  /** The loop of vsnprintf over the whole format. */
  method FormatAll(s: PStream, fmt: string, args: seq<Arg>) returns (ok: bool)
    requires s.Valid()
    modifies s, s.buffer
    ensures s.Valid() && (ok <==> Fine(fmt, 0, args))
    ensures ok ==> s.out == old(s.out) + Render(fmt, 0, args)
  {
    var i, va := 0, args;
    ok := true;
    while Peek(fmt, i) != NUL
      invariant s.Valid() && ok && s.out + Render(fmt, i, va) == old(s.out) + Render(fmt, 0, args)
      invariant Fine(fmt, i, va) == Fine(fmt, 0, args)
      decreases |fmt| - i
    {
      var f := fmt[i];
      i := i + 1;
      if f != '%' {
        s.AddChar(f);
      } else {
        ok, i, va := Convert(s, fmt, i, va);
        if !ok {
          return;
        }
      }
    }
  }

  /**
   vsnprintf into `buf` from position `at`: the code keeps to its tables exactly for a fine format and arguments. Then
   as much of the output as fits before a NUL is stored and nothing else is touched. The return value is an `int`: it is
   the length of the whole output exactly when that is below 2^31.
   */
  method Vsnprintf(buf: array<char>, at: nat, size: nat, fmt: string, args: seq<Arg>) returns (ok: bool, r: int)
    requires 1 <= size < TWO31 && at + size <= buf.Length
    modifies buf
    ensures ok <==> Fine(fmt, 0, args)
    ensures ok ==> buf[..] == Stored(old(buf[..]), at, size - 1, Render(fmt, 0, args))
    ensures ok ==> r == ToInt(|Render(fmt, 0, args)|) && (r == |Render(fmt, 0, args)| <==> |Render(fmt, 0, args)| < TWO31)
  {
    var s := new PStream(buf, at, size);
    ok := FormatAll(s, fmt, args);
    r := s.added;
    if ok {
      assert s.out == Render(fmt, 0, args);
      SmallSigned(|s.out|);
      s.Finish();
    }
  }

  /** A format without conversions is its own output. */
  lemma {:induction false} RenderPlain(fmt: string, i: nat, args: seq<Arg>)
    requires i <= |fmt| && '%' !in fmt && NUL !in fmt
    ensures Render(fmt, i, args) == fmt[i..] && Fine(fmt, i, args)
    decreases |fmt| - i
  {
    if i < |fmt| {
      RenderPlain(fmt, i + 1, args);
      assert fmt[i] in fmt;
    }
  }

  /** A width written out as `w` pads to what an `int` holds of `w`: to `w` itself below 2^31, to 5 for 2^32 + 5. */
  lemma WidthIsInt(w: nat, n: int)
    requires w > 0 && |Digits(w, 10)| < TWO31 && ToInt(n) == n
    ensures var fmt := "%" + Digits(w, 10) + "d";
            && Fine(fmt, 0, [Num(n)])
            && Render(fmt, 0, [Num(n)]) == PadText(IntText(n), PLAIN.(npad := ToInt(w)))
  {
    var fmt := "%" + Digits(w, 10) + "d";
    WidthAction(fmt, w, [Num(n)]);
    OneConversion(fmt, 1 + |Digits(w, 10)|, PLAIN.(npad := ToInt(w)), n);
  }

  lemma OneConversion(fmt: string, e: nat, p: Props, n: int)
    requires 1 < e && e + 1 == |fmt| && fmt[0] == '%' && fmt[1] != NUL && fmt[e] == 'd' && ToInt(n) == n
    requires Act(fmt, 1, PLAIN, 0, [Num(n)]) == More(e, p, 0)
    ensures Fine(fmt, 0, [Num(n)]) && Render(fmt, 0, [Num(n)]) == PadText(IntText(n), p)
  {
    LastDecimal(fmt, e, p, n);
    FlagStep(fmt, 1, PLAIN, 0, [Num(n)]);
  }

  /** A format that ends with the 'd' of an `int`. */
  lemma LastDecimal(fmt: string, i: nat, p: Props, n: int)
    requires i + 1 == |fmt| && fmt[i] == 'd' && ToInt(n) == n
    ensures FineConversion(fmt, i, p, 0, [Num(n)]) && Conversion(fmt, i, p, 0, [Num(n)]) == PadText(IntText(n), p)
  {
    SmallSigned(n);
    PrintStep(fmt, i, p, 0, [Num(n)]);
    assert Render(fmt, i + 1, Rest([Num(n)])) == "";
    assert PadText(IntText(n), p) + "" == PadText(IntText(n), p);
  }

  lemma WidthAction(fmt: string, w: nat, args: seq<Arg>)
    requires w > 0 && |Digits(w, 10)| < TWO31 && fmt == "%" + Digits(w, 10) + "d"
    ensures |fmt| == |Digits(w, 10)| + 2 > 2 && fmt[1] != NUL && fmt[0] == '%' && fmt[|fmt| - 1] == 'd'
    ensures Act(fmt, 1, PLAIN, 0, args) == More(1 + |Digits(w, 10)|, PLAIN.(npad := ToInt(w)), 0)
  {
    var d := Digits(w, 10);
    var e := 1 + |d|;
    assert fmt[1..e] == d;
    FirstDigit(w);
    assert fmt[1] == d[0];
    DecimalEnds(fmt, 1, w);
    assert Blanks(fmt, 1) == 1;
    forall k | 1 <= k < e ensures IsDigit(fmt[k]) {
      DigitsAreDigits(w, k - 1);
      assert fmt[k] == d[k - 1];
    }
    DigitRunIs(fmt, 1, e);
  }

  lemma {:induction false} FirstDigit(w: nat)
    requires w > 0
    ensures Digits(w, 10) != "" && '1' <= Digits(w, 10)[0] <= '9'
  {
    if w >= 10 {
      FirstDigit(w / 10);
    }
  }

  lemma {:induction false} DigitsAreDigits(w: nat, k: nat)
    requires k < |Digits(w, 10)|
    ensures IsDigit(Digits(w, 10)[k])
  {
    DigitValue(w % 10);
    if k < |Digits(w / 10, 10)| {
      DigitsAreDigits(w / 10, k);
    }
  }

  lemma {:induction false} DigitRunIs(fmt: string, i: nat, e: nat)
    requires i <= e < |fmt| && !IsDigit(fmt[e]) && forall k :: i <= k < e ==> IsDigit(fmt[k])
    ensures DigitRun(fmt, i) == e - i
    decreases e - i
  {
    if i < e {
      DigitRunIs(fmt, i + 1, e);
    }
  }

  lemma RenderLong(args: seq<Arg>)
    requires ToLong(NumArg(args)) != -TWO63
    ensures Fine("%ld", 0, args) && Render("%ld", 0, args) == PadText(IntText(ToLong(NumArg(args))), PLAIN)
  {
    var fmt := "%ld";
    assert ToInt(0 + 1) == 1;
    assert Render(fmt, 3, Rest(args)) == "";
    assert Conversion(fmt, 2, PLAIN, 1, args) == PadText(IntText(ToLong(NumArg(args))), PLAIN) + "";
    FlagStep(fmt, 1, PLAIN, 0, args);
  }

  /** The least `long` is not printed: the code leaves its digit table. */
  lemma LeastLongIsWild()
    ensures !Fine("%ld", 0, [Num(-TWO63)])
  {
    var fmt, args := "%ld", [Num(-TWO63)];
    assert ToInt(0 + 1) == 1;
    SmallSigned(-TWO63);
    assert Act(fmt, 2, PLAIN, 1, args).Wild?;
    FlagStep(fmt, 1, PLAIN, 0, args);
  }

  /** A single "%ld" prints a `long` so that atol reads it back if and only if it is not the least one. */
  lemma PrintedLongReadsBack(n: int)
    requires -TWO63 <= n < TWO63
    ensures Fine("%ld", 0, [Num(n)]) <==> n != -TWO63
    ensures n != -TWO63 ==> ToLong(Atol(Render("%ld", 0, [Num(n)]))) == n
  {
    SmallSigned(n);
    if n == -TWO63 {
      LeastLongIsWild();
    } else {
      RenderLong([Num(n)]);
      AtolUndoesPrintInt(n, PLAIN);
    }
  }
}
