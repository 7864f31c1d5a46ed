/**
 What each conversion of a format means, stated on the text of the format: what a conversion puts in front of the output of
 the rest of the format, and which argument it takes.
 */
module FormatLaws {
  import opened Machine
  import opened Text
  import opened Numbers
  import opened Printf
  import opened Format
  import opened Numerals

  // ----- the rest of a format stands for itself -----

  lemma {:induction false} BlanksShift(s: string, k: nat, t: string, i: nat)
    requires k <= |s| && s[k..] == t
    ensures Blanks(s, k + i) == k + Blanks(t, i)
    decreases |t| - i
  {
    if i < |t| {
      assert t[i] == s[k + i];
      BlanksShift(s, k, t, i + 1);
    }
  }

  lemma {:induction false} DecimalShift(s: string, k: nat, t: string, i: nat, acc: int)
    requires k <= |s| && s[k..] == t
    ensures Decimal(s, k + i, acc) == Decimal(t, i, acc)
    decreases |t| - i
  {
    if i < |t| && IsDigit(t[i]) {
      assert t[i] == s[k + i];
      DecimalShift(s, k, t, i + 1, acc * 10 + (t[i] - '0') as int);
    } else {
      assert i < |t| ==> t[i] == s[k + i];
    }
  }

  lemma PeekShift(s: string, k: nat, t: string, i: nat)
    requires k <= |s| && s[k..] == t
    ensures Peek(s, k + i) == Peek(t, i) && (i < |t| <==> k + i < |s|)
  {
  }

  lemma AtolShift(s: string, k: nat, t: string, i: nat)
    requires k <= |s| && s[k..] == t
    ensures Atol(s, k + i) == Atol(t, i)
  {
    BlanksShift(s, k, t, i);
    var j := Blanks(t, i);
    PeekShift(s, k, t, j);
    DecimalShift(s, k, t, j, 0);
    DecimalShift(s, k, t, j + 1, 0);
  }

  lemma {:induction false} DigitRunShift(s: string, k: nat, t: string, i: nat)
    requires k <= |s| && s[k..] == t
    ensures DigitRun(s, k + i) == DigitRun(t, i)
    decreases |t| - i
  {
    if i < |t| {
      assert t[i] == s[k + i];
      DigitRunShift(s, k, t, i + 1);
    }
  }

  lemma WidthShift(s: string, k: nat, t: string, i: nat, p: Props, nlong: int)
    requires k <= |s| && s[k..] == t
    ensures Width(s, k + i, p, nlong) == Moved(Width(t, i, p, nlong), k)
  {
    AtolShift(s, k, t, i);
    PeekShift(s, k, t, i);
    DigitRunShift(s, k, t, i);
    DigitRunShift(s, k, t, i + 1);
  }

  function Moved(a: Action, k: nat): Action {
    match a
    case More(next, p, nlong) => More(next + k, p, nlong)
    case Emit(text, next, args) => Emit(text, next + k, args)
    case Wild => Wild
  }

  lemma ActShift(s: string, k: nat, t: string, i: nat, p: Props, nlong: int, args: seq<Arg>)
    requires k <= |s| && s[k..] == t && i < |t|
    ensures Act(s, k + i, p, nlong, args) == Moved(Act(t, i, p, nlong, args), k)
  {
    var f := t[i];
    assert s[k + i] == f;
    if f == '0' {
      WidthShift(s, k, t, i + 1, p.(pad := '0'), nlong);
    } else if '1' <= f <= '9' || f == '-' {
      WidthShift(s, k, t, i, p, nlong);
    }
  }

  lemma {:induction false} RenderShift(s: string, k: nat, t: string, i: nat, args: seq<Arg>)
    requires k <= |s| && s[k..] == t
    ensures Render(s, k + i, args) == Render(t, i, args) && Fine(s, k + i, args) == Fine(t, i, args)
    decreases |t| - i
  {
    PeekShift(s, k, t, i);
    if Peek(t, i) != NUL {
      assert s[k + i] == t[i];
      if t[i] == '%' {
        ConversionShift(s, k, t, i + 1, PLAIN, 0, args);
      } else {
        RenderShift(s, k, t, i + 1, args);
      }
    }
  }

  lemma {:induction false} ConversionShift(s: string, k: nat, t: string, i: nat, p: Props, nlong: int, args: seq<Arg>)
    requires k <= |s| && s[k..] == t
    ensures Conversion(s, k + i, p, nlong, args) == Conversion(t, i, p, nlong, args)
    ensures FineConversion(s, k + i, p, nlong, args) == FineConversion(t, i, p, nlong, args)
    decreases |t| - i
  {
    PeekShift(s, k, t, i);
    if Peek(t, i) != NUL {
      ActShift(s, k, t, i, p, nlong, args);
      var a := Act(t, i, p, nlong, args);
      match a
      case More(next, p', nlong') =>
        ActAdvances(t, i, p, nlong, args);
        ConversionShift(s, k, t, next, p', nlong', args);
        MoreShift(s, k, t, i, p, nlong, args, next, p', nlong');
      case Emit(text, next, args') =>
        ActAdvances(t, i, p, nlong, args);
        RenderShift(s, k, t, next, args');
        EmitShift(s, k, t, i, p, nlong, args, text, next, args');
      case Wild =>
        WildIsEmpty(s, k + i, p, nlong, args);
        WildIsEmpty(t, i, p, nlong, args);
    }
  }

  lemma MoreShift(s: string, k: nat, t: string, i: nat, p: Props, nlong: int, args: seq<Arg>, next: nat, p': Props, nlong': int)
    requires k + i < |s| && i < |t| && s[k + i] == t[i] != NUL
    requires Act(s, k + i, p, nlong, args) == More(next + k, p', nlong') && Act(t, i, p, nlong, args) == More(next, p', nlong')
    requires Conversion(s, k + next, p', nlong', args) == Conversion(t, next, p', nlong', args)
    requires FineConversion(s, k + next, p', nlong', args) == FineConversion(t, next, p', nlong', args)
    ensures Conversion(s, k + i, p, nlong, args) == Conversion(t, i, p, nlong, args)
    ensures FineConversion(s, k + i, p, nlong, args) == FineConversion(t, i, p, nlong, args)
  {
    FlagGoes(s, k + i, p, nlong, args, k + next, p', nlong');
    FlagGoes(t, i, p, nlong, args, next, p', nlong');
  }

  lemma FlagGoes(s: string, i: nat, p: Props, nlong: int, args: seq<Arg>, next: nat, p': Props, nlong': int)
    requires i < |s| && s[i] != NUL && Act(s, i, p, nlong, args) == More(next, p', nlong')
    ensures Conversion(s, i, p, nlong, args) == Conversion(s, next, p', nlong', args)
    ensures FineConversion(s, i, p, nlong, args) == FineConversion(s, next, p', nlong', args)
  {
    FlagStep(s, i, p, nlong, args);
  }

  lemma EmitShift(s: string, k: nat, t: string, i: nat, p: Props, nlong: int, args: seq<Arg>, text: string, next: nat, args': seq<Arg>)
    requires k + i < |s| && i < |t| && s[k + i] == t[i] != NUL
    requires Act(s, k + i, p, nlong, args) == Emit(text, next + k, args') && Act(t, i, p, nlong, args) == Emit(text, next, args')
    requires Render(s, k + next, args') == Render(t, next, args') && Fine(s, k + next, args') == Fine(t, next, args')
    ensures Conversion(s, k + i, p, nlong, args) == Conversion(t, i, p, nlong, args)
    ensures FineConversion(s, k + i, p, nlong, args) == FineConversion(t, i, p, nlong, args)
  {
    PrintStep(s, k + i, p, nlong, args);
    PrintStep(t, i, p, nlong, args);
  }

  lemma WildIsEmpty(s: string, i: nat, p: Props, nlong: int, args: seq<Arg>)
    requires i < |s| && s[i] != NUL && Act(s, i, p, nlong, args).Wild?
    ensures Conversion(s, i, p, nlong, args) == "" && !FineConversion(s, i, p, nlong, args)
  {
  }

  // ----- one step inside a conversion -----

  /** The conversion text `s` goes on as `t` does. */
  ghost predicate Goes(s: string, p: Props, nlong: int, t: string, p': Props, nlong': int, args: seq<Arg>) {
    && Conversion(s, 0, p, nlong, args) == Conversion(t, 0, p', nlong', args)
    && FineConversion(s, 0, p, nlong, args) == FineConversion(t, 0, p', nlong', args)
  }

  /** The format prints `text`, and then what `rest` prints of the arguments `args'`. */
  ghost predicate Puts(fmt: string, args: seq<Arg>, text: string, rest: string, args': seq<Arg>) {
    && Render(fmt, 0, args) == text + Render(rest, 0, args')
    && Fine(fmt, 0, args) == Fine(rest, 0, args')
  }

  /** The same inside a conversion. */
  ghost predicate PutsIn(s: string, p: Props, nlong: int, args: seq<Arg>, text: string, rest: string, args': seq<Arg>) {
    && Conversion(s, 0, p, nlong, args) == text + Render(rest, 0, args')
    && FineConversion(s, 0, p, nlong, args) == Fine(rest, 0, args')
  }

  /** The characters `c` change how the conversion goes on. */
  lemma Skip(c: string, t: string, p: Props, nlong: int, args: seq<Arg>, p': Props, nlong': int)
    requires c != "" && c[0] != NUL && Act(c + t, 0, p, nlong, args) == More(|c|, p', nlong')
    ensures Goes(c + t, p, nlong, t, p', nlong', args)
  {
    assert (c + t)[|c|..] == t;
    FlagStep(c + t, 0, p, nlong, args);
    ConversionShift(c + t, |c|, t, 0, p', nlong', args);
  }

  /** The character `c` ends the conversion with `text`. */
  lemma Ends(c: char, t: string, p: Props, nlong: int, args: seq<Arg>, text: string, args': seq<Arg>)
    requires c != NUL && Act([c] + t, 0, p, nlong, args) == Emit(text, 1, args')
    ensures PutsIn([c] + t, p, nlong, args, text, t, args')
  {
    assert ([c] + t)[1..] == t;
    PrintStep([c] + t, 0, p, nlong, args);
    RenderShift([c] + t, 1, t, 0, args');
  }

  /** A length or conversion character comes next. */
  predicate Leads(t: string) {
    t != "" && t[0] in "ltzduxsp"
  }

  /** A width as it is written: none for 0, with a minus sign for the left. */
  function WidthText(w: int): string {
    if w == 0 then "" else IntText(w)
  }

  lemma WidthLength(w: int, t: string)
    requires -TWO31 <= w < TWO31 && Leads(t)
    ensures NumLen(WidthText(w) + t, 0) == |WidthText(w)| < TWO31
  {
    var c := WidthText(w);
    var s, at := c + t, if w < 0 then 1 else 0;
    LongTextIsShort(w);
    forall k | at <= k < |c| ensures IsDigit(s[k]) {
      assert s[k] == c[k] == Digits(if w < 0 then -w else w, 10)[k - at];
      DigitsAreDigits(if w < 0 then -w else w, k - at);
    }
    assert s[|c|] == t[0];
    DigitRunIs(s, at, |c|);
    if w > 0 {
      FirstDigit(w);
      assert s[0] == c[0];
    } else if w < 0 {
      assert s[0] == c[0] == '-';
    }
  }

  /** Text that does not start with a number reads as 0. */
  lemma NoNumber(t: string)
    requires Leads(t)
    ensures Atol(t, 0) == 0
  {
    assert Blanks(t, 0) == 0 && Peek(t, 0) == t[0];
    assert Decimal(t, 0, 0) == 0;
  }

  lemma WidthValue(w: int, t: string)
    requires -TWO31 <= w < TWO31 && Leads(t)
    ensures Atol(WidthText(w) + t, 0) == w
  {
    var s := WidthText(w) + t;
    if w == 0 {
      assert s == t;
      NoNumber(t);
    } else {
      assert s[..|IntText(w)|] == IntText(w) && s[|IntText(w)|] == t[0];
      AtolAt(s, 0, w);
    }
  }

  lemma WidthIs(w: int, t: string, p: Props, nlong: int)
    requires -TWO31 <= w < TWO31 && Leads(t)
    ensures Width(WidthText(w) + t, 0, p, nlong) == More(|WidthText(w)|, p.(npad := w), nlong)
  {
    WidthLength(w, t);
    WidthValue(w, t);
    SmallSigned(w);
  }

  lemma ActWidth(w: int, t: string, p: Props, args: seq<Arg>)
    requires -TWO31 <= w < TWO31 && w != 0 && Leads(t)
    ensures IntText(w) != "" && IntText(w)[0] != NUL
    ensures Act(WidthText(w) + t, 0, p, 0, args) == More(|WidthText(w)|, p.(npad := w), 0)
  {
    if w > 0 {
      FirstDigit(w);
    }
    assert (WidthText(w) + t)[0] == WidthText(w)[0];
    WidthIs(w, t, p, 0);
  }

  lemma WidthStep(w: int, t: string, p: Props, args: seq<Arg>)
    requires -TWO31 <= w < TWO31 && Leads(t) && p.npad == 0
    ensures Goes(WidthText(w) + t, p, 0, t, p.(npad := w), 0, args)
  {
    if w == 0 {
      assert WidthText(w) + t == t;
    } else {
      ActWidth(w, t, p, args);
      Skip(WidthText(w), t, p, 0, args, p.(npad := w), 0);
    }
  }

  lemma ActZero(w: int, t: string, p: Props, args: seq<Arg>)
    requires -TWO31 <= w < TWO31 && Leads(t)
    ensures Act("0" + WidthText(w) + t, 0, p, 0, args) == More(|"0" + WidthText(w)|, p.(pad := '0', npad := w), 0)
  {
    var s := "0" + WidthText(w) + t;
    assert s[1..] == WidthText(w) + t;
    WidthShift(s, 1, WidthText(w) + t, 0, p.(pad := '0'), 0);
    WidthIs(w, t, p.(pad := '0'), 0);
  }

  /** The '0' flag, if there is one, and the width. */
  lemma FieldStep(zero: bool, w: int, t: string, p: Props, args: seq<Arg>)
    requires -TWO31 <= w < TWO31 && Leads(t) && p.npad == 0 && p.pad == ' '
    ensures Goes(FieldText(zero, w) + t, p, 0, t, p.(pad := if zero then '0' else ' ', npad := w), 0, args)
  {
    if zero {
      ActZero(w, t, p, args);
      Skip("0" + WidthText(w), t, p, 0, args, p.(pad := '0', npad := w), 0);
    } else {
      assert FieldText(zero, w) == WidthText(w);
      WidthStep(w, t, p, args);
    }
  }

  function FieldText(zero: bool, w: int): string {
    (if zero then "0" else "") + WidthText(w)
  }

  /** The flags of a conversion: '#', '0' and a width. */
  function FlagText(alternate: bool, zero: bool, w: int): string {
    (if alternate then "#" else "") + FieldText(zero, w)
  }

  function FlagProps(alternate: bool, zero: bool, w: int): Props {
    Props(if zero then '0' else ' ', w, alternate)
  }

  lemma HashStep(t: string, args: seq<Arg>)
    ensures Goes("#" + t, PLAIN, 0, t, PLAIN.(alternate := true), 0, args)
  {
    Skip("#", t, PLAIN, 0, args, PLAIN.(alternate := true), 0);
  }

  lemma FlagSplit(alternate: bool, zero: bool, w: int, t: string)
    ensures FlagText(alternate, zero, w) + t == if alternate then "#" + (FieldText(zero, w) + t) else FieldText(zero, w) + t
  {
    assert !alternate ==> FlagText(alternate, zero, w) == FieldText(zero, w);
  }

  lemma Onward(s: string, p: Props, u: string, p': Props, t: string, p'': Props, args: seq<Arg>)
    requires Goes(s, p, 0, u, p', 0, args) && Goes(u, p', 0, t, p'', 0, args)
    ensures Goes(s, p, 0, t, p'', 0, args)
  {
  }

  lemma FlagsStep(alternate: bool, zero: bool, w: int, t: string, args: seq<Arg>)
    requires -TWO31 <= w < TWO31 && Leads(t)
    ensures Goes(FlagText(alternate, zero, w) + t, PLAIN, 0, t, FlagProps(alternate, zero, w), 0, args)
  {
    FieldStep(zero, w, t, PLAIN.(alternate := alternate), args);
    FlagSplit(alternate, zero, w, t);
    if alternate {
      HashStep(FieldText(zero, w) + t, args);
      Onward("#" + (FieldText(zero, w) + t), PLAIN, FieldText(zero, w) + t, PLAIN.(alternate := true), t, FlagProps(true, zero, w), args);
    }
  }

  /** The length modifiers: none for `int`, the others for `long`. */
  predicate IsLength(mods: string) {
    mods == "" || mods == "l" || mods == "ll" || mods == "t" || mods == "z"
  }

  /** What the length modifiers leave in the counter. */
  function LengthOf(mods: string): int {
    if mods == "" then 0 else if mods == "ll" then 2 else 1
  }

  lemma LengthStep(mods: string, t: string, p: Props, args: seq<Arg>)
    requires IsLength(mods)
    ensures Goes(mods + t, p, 0, t, p, LengthOf(mods), args)
  {
    assert ToInt(0 + 1) == 1 && ToInt(1 + 1) == 2;
    if mods == "" {
      assert mods + t == t;
    } else if mods == "ll" {
      assert mods + t == "l" + ("l" + t);
      Skip("l", "l" + t, p, 0, args, p, 1);
      Skip("l", t, p, 1, args, p, 2);
    } else {
      Skip(mods, t, p, 0, args, p, 1);
    }
  }

  /** A conversion as it is written. */
  function DirectiveText(alternate: bool, zero: bool, w: int, mods: string, c: char): string {
    "%" + FlagText(alternate, zero, w) + mods + [c]
  }

  lemma Opening(fmt: string, t: string, args: seq<Arg>)
    requires fmt == "%" + t
    ensures Render(fmt, 0, args) == Conversion(t, 0, PLAIN, 0, args) && Fine(fmt, 0, args) == FineConversion(t, 0, PLAIN, 0, args)
  {
    assert fmt[1..] == t;
    ConversionShift(fmt, 1, t, 0, PLAIN, 0, args);
  }

  lemma Pieces(alternate: bool, zero: bool, w: int, mods: string, c: char, rest: string)
    ensures DirectiveText(alternate, zero, w, mods, c) + rest == "%" + (FlagText(alternate, zero, w) + (mods + ([c] + rest)))
  {
  }

  /** Flags and length, up to the conversion character. */
  lemma Before(alternate: bool, zero: bool, w: int, mods: string, c: char, rest: string, args: seq<Arg>)
    requires -TWO31 <= w < TWO31 && IsLength(mods) && c in "duxsp"
    ensures Goes(FlagText(alternate, zero, w) + (mods + ([c] + rest)), PLAIN, 0, [c] + rest, FlagProps(alternate, zero, w), LengthOf(mods), args)
  {
    FlagsStep(alternate, zero, w, mods + ([c] + rest), args);
    LengthStep(mods, [c] + rest, FlagProps(alternate, zero, w), args);
  }

  /** A whole conversion that prints `text`. */
  lemma Directive(alternate: bool, zero: bool, w: int, mods: string, c: char, rest: string, args: seq<Arg>, text: string, args': seq<Arg>)
    requires -TWO31 <= w < TWO31 && IsLength(mods) && c in "duxsp"
    requires Act([c] + rest, 0, FlagProps(alternate, zero, w), LengthOf(mods), args) == Emit(text, 1, args')
    ensures Puts(DirectiveText(alternate, zero, w, mods, c) + rest, args, text, rest, args')
  {
    var t := FlagText(alternate, zero, w) + (mods + ([c] + rest));
    Pieces(alternate, zero, w, mods, c, rest);
    Opening("%" + t, t, args);
    Before(alternate, zero, w, mods, c, rest, args);
    Ends(c, rest, FlagProps(alternate, zero, w), LengthOf(mods), args, text, args');
  }

  // ----- what the conversions print -----

  /** "%s" prints its argument, in its field, and then what the rest of the format prints of the other arguments. */
  lemma StringDirective(alternate: bool, zero: bool, w: int, t: string, rest: string, args: seq<Arg>) returns (out: string)
    requires -TWO31 <= w < TWO31 && NUL !in t && (w == 0 || |t| < TWO31)
    ensures Justified(out, t, w, if zero then '0' else ' ')
    ensures Puts(DirectiveText(alternate, zero, w, "", 's') + rest, [Str(t)] + args, out, rest, args)
  {
    var p := FlagProps(alternate, zero, w);
    out := PadText(t, p);
    PadJustifies(t, p);
    ActString(t, rest, p, 0, args);
    Directive(alternate, zero, w, "", 's', rest, [Str(t)] + args, out, args);
  }

  lemma ActString(t: string, rest: string, p: Props, nlong: int, args: seq<Arg>)
    requires NUL !in t
    ensures Act("s" + rest, 0, p, nlong, [Str(t)] + args) == Emit(PadText(t, p), 1, args)
  {
    CTextWhole(t);
    assert ([Str(t)] + args)[1..] == args;
  }

  lemma {:induction false} CTextWhole(t: string, i: nat := 0)
    requires i <= |t| && NUL !in t
    ensures CText(t, i) == t[i..]
    decreases |t| - i
  {
    if i < |t| {
      assert t[i] in t;
      CTextWhole(t, i + 1);
    }
  }

  /** A plain "%s" prints exactly its argument. */
  lemma PlainString(t: string, rest: string, args: seq<Arg>)
    requires NUL !in t
    ensures Puts("%s" + rest, [Str(t)] + args, t, rest, args)
  {
    var out := StringDirective(false, false, 0, t, rest, args);
    assert DirectiveText(false, false, 0, "", 's') == "%s" && out == t;
  }

  lemma RenderNothing(args: seq<Arg>)
    ensures Render("", 0, args) == "" && Fine("", 0, args)
  {
  }

  /** "%s" of a string is the string, and "%s%s" of two is the first and then the second. */
  lemma PlainStrings(t: string, u: string)
    requires NUL !in t && NUL !in u
    ensures Render("%s", 0, [Str(t)]) == t && Render("%s%s", 0, [Str(t), Str(u)]) == t + u
  {
    RenderNothing([]);
    PlainString(t, "", []);
    PlainString(u, "", []);
    PlainString(t, "%s", [Str(u)]);
    assert "%s" + "" == "%s" && "%s" + "%s" == "%s%s" && t + "" == t && u + "" == u;
    assert [Str(t)] + [] == [Str(t)] && [Str(u)] + [] == [Str(u)] && [Str(t)] + [Str(u)] == [Str(t), Str(u)];
  }

  /** The number a conversion reads: an `unsigned` without a length modifier, else an `unsigned long`. */
  function WordOf(n: int, mods: string): nat {
    if mods == "" then n % 0x1_0000_0000 else n % 0x1_0000_0000_0000_0000
  }

  /**
   A hexadecimal number in its field. Unless it is 0, '#' puts "0x" in front of it; with zero padding the zeros come after
   that, and the field is two characters less.
   */
  ghost predicate HexOut(out: string, u: string, v: nat, alternate: bool, zero: bool, w: int) {
    if !alternate || v == 0 then Justified(out, u, w, if zero then '0' else ' ')
    else if !zero then Justified(out, "0x" + u, w, ' ')
    else |out| >= 2 && out[..2] == "0x" && Justified(out[2..], u, if w > 2 then w - 2 else if w > 0 then 0 else w, '0')
  }

  lemma UnsignedNumeral(v: nat, base: nat) returns (u: string)
    requires v < TWO64 && (base == 10 || base == 16)
    ensures Numeral(u, v, base) && u == (if v == 0 then "0" else Digits(v, base)) && |u| <= 20
  {
    DigitsShort(v, base);
    if v == 0 {
      u := "0";
      assert u[..0] == "";
    } else {
      u := Digits(v, base);
      DigitsNumeral(v, base);
    }
  }

  lemma HexIsOut(v: nat, p: Props, u: string)
    requires v < TWO64 && IsWidth(p.npad) && (p.pad == ' ' || p.pad == '0')
    requires u == (if v == 0 then "0" else Digits(v, 16)) && |u| <= 20
    ensures HexOut(UnsignedOut(v, 16, p), u, v, p.alternate, p.pad == '0', p.npad)
  {
    if !p.alternate || v == 0 {
      PadJustifies(u, p);
    } else if p.pad == ' ' {
      PadJustifies("0x" + u, p);
    } else {
      PadJustifies(u, if p.npad > 0 then p.(npad := if p.npad > 2 then p.npad - 2 else 0) else p);
      assert UnsignedOut(v, 16, p)[2..] == PadText(u, if p.npad > 0 then p.(npad := if p.npad > 2 then p.npad - 2 else 0) else p);
    }
  }

  lemma ActUnsigned(c: char, n: int, rest: string, p: Props, mods: string, args: seq<Arg>)
    requires IsLength(mods) && (c == 'u' || c == 'x')
    ensures Act([c] + rest, 0, p, LengthOf(mods), [Num(n)] + args) == Emit(UnsignedOut(WordOf(n, mods), if c == 'u' then 10 else 16, p), 1, args)
  {
    assert ([Num(n)] + args)[1..] == args;
  }

  lemma ActPointer(n: int, rest: string, p: Props, args: seq<Arg>)
    ensures Act("p" + rest, 0, p, 0, [Num(n)] + args) == Emit(UnsignedOut(WordOf(n, "l"), 16, p.(alternate := true)), 1, args)
  {
    assert ([Num(n)] + args)[1..] == args;
  }

  /** "%u" prints the decimal numeral of its argument. */
  lemma DecimalDirective(alternate: bool, zero: bool, w: int, mods: string, n: int, rest: string, args: seq<Arg>)
    returns (out: string, u: string)
    requires -TWO31 <= w < TWO31 && IsLength(mods)
    ensures Numeral(u, WordOf(n, mods), 10) && Justified(out, u, w, if zero then '0' else ' ')
    ensures Puts(DirectiveText(alternate, zero, w, mods, 'u') + rest, [Num(n)] + args, out, rest, args)
  {
    var p := FlagProps(alternate, zero, w);
    u := UnsignedNumeral(WordOf(n, mods), 10);
    out := UnsignedOut(WordOf(n, mods), 10, p);
    PadJustifies(u, p);
    ActUnsigned('u', n, rest, p, mods, args);
    Directive(alternate, zero, w, mods, 'u', rest, [Num(n)] + args, out, args);
  }

  /** "%x" prints the hexadecimal numeral of its argument. */
  lemma HexDirective(alternate: bool, zero: bool, w: int, mods: string, n: int, rest: string, args: seq<Arg>)
    returns (out: string, u: string)
    requires -TWO31 <= w < TWO31 && IsLength(mods)
    ensures Numeral(u, WordOf(n, mods), 16) && HexOut(out, u, WordOf(n, mods), alternate, zero, w)
    ensures Puts(DirectiveText(alternate, zero, w, mods, 'x') + rest, [Num(n)] + args, out, rest, args)
  {
    var p := FlagProps(alternate, zero, w);
    u := UnsignedNumeral(WordOf(n, mods), 16);
    out := UnsignedOut(WordOf(n, mods), 16, p);
    HexIsOut(WordOf(n, mods), p, u);
    ActUnsigned('x', n, rest, p, mods, args);
    Directive(alternate, zero, w, mods, 'x', rest, [Num(n)] + args, out, args);
  }

  /** "%p" prints as "%#lx" does. */
  lemma PointerDirective(alternate: bool, zero: bool, w: int, n: int, rest: string, args: seq<Arg>) returns (out: string, u: string)
    requires -TWO31 <= w < TWO31
    ensures Numeral(u, WordOf(n, "l"), 16) && HexOut(out, u, WordOf(n, "l"), true, zero, w)
    ensures Puts(DirectiveText(alternate, zero, w, "", 'p') + rest, [Num(n)] + args, out, rest, args)
  {
    var p := FlagProps(alternate, zero, w);
    u := UnsignedNumeral(WordOf(n, "l"), 16);
    out := UnsignedOut(WordOf(n, "l"), 16, p.(alternate := true));
    HexIsOut(WordOf(n, "l"), p.(alternate := true), u);
    ActPointer(n, rest, p, args);
    Directive(alternate, zero, w, "", 'p', rest, [Num(n)] + args, out, args);
  }

  /** `m` is what a signed register of `range` values holds of `n`. */
  ghost predicate Holds(m: int, n: int, range: int)
    requires range > 0
  {
    -range <= 2 * m < range && (n - m) % range == 0
  }

  lemma HeldIs(m: int, n: int, range: int)
    requires range > 0 && range % 2 == 0 && Holds(m, n, range)
    ensures SignedIn(n, range) == m
  {
    var q := (n - m) / range;
    assert n == m + q * range;
    ModShift(m, q, range);
    if m < 0 {
      DivModUnique(m, range, -1, m + range);
    } else {
      DivModUnique(m, range, 0, m);
    }
  }

  /** "%d" prints the decimal numeral with its sign, for every number but the least `long`. */
  lemma SignedDirective(alternate: bool, zero: bool, w: int, mods: string, n: int, m: int, rest: string, args: seq<Arg>)
    returns (out: string, u: string)
    requires -TWO31 <= w < TWO31 && IsLength(mods)
    requires Holds(m, n, if mods == "" then 0x1_0000_0000 else 0x1_0000_0000_0000_0000)
    ensures Numeral(u, if m < 0 then -m else m, 10) && Justified(out, if m < 0 then "-" + u else u, w, if zero then '0' else ' ')
    ensures var fmt := DirectiveText(alternate, zero, w, mods, 'd') + rest;
            if m == -0x8000_0000_0000_0000 then !Fine(fmt, 0, [Num(n)] + args) else Puts(fmt, [Num(n)] + args, out, rest, args)
  {
    var p := FlagProps(alternate, zero, w);
    out, u := SignedText(m, p);
    HeldIs(m, n, if mods == "" then TWO32 else TWO64);
    ActSigned(n, m, rest, p, LengthOf(mods), args);
    if m == -TWO63 {
      WildDirective(alternate, zero, w, mods, 'd', rest, [Num(n)] + args);
    } else {
      Directive(alternate, zero, w, mods, 'd', rest, [Num(n)] + args, out, args);
    }
  }

  lemma SignedText(m: int, p: Props) returns (out: string, u: string)
    requires -TWO63 <= m < TWO63 && IsWidth(p.npad)
    ensures Numeral(u, if m < 0 then -m else m, 10) && Justified(out, if m < 0 then "-" + u else u, p.npad, p.pad)
    ensures out == PadText(IntText(m), p)
  {
    u := UnsignedNumeral(if m < 0 then -m else m, 10);
    out := PadText(IntText(m), p);
    PadJustifies(IntText(m), p);
  }

  lemma WildDirective(alternate: bool, zero: bool, w: int, mods: string, c: char, rest: string, args: seq<Arg>)
    requires -TWO31 <= w < TWO31 && IsLength(mods) && c in "duxsp"
    requires Act([c] + rest, 0, FlagProps(alternate, zero, w), LengthOf(mods), args).Wild?
    ensures !Fine(DirectiveText(alternate, zero, w, mods, c) + rest, 0, args)
  {
    var t := FlagText(alternate, zero, w) + (mods + ([c] + rest));
    Pieces(alternate, zero, w, mods, c, rest);
    Opening("%" + t, t, args);
    Before(alternate, zero, w, mods, c, rest, args);
    PrintStep([c] + rest, 0, FlagProps(alternate, zero, w), LengthOf(mods), args);
  }

  lemma ActSigned(n: int, m: int, rest: string, p: Props, nlong: int, args: seq<Arg>)
    requires Signed(n, nlong) == m
    ensures Act("d" + rest, 0, p, nlong, [Num(n)] + args) == if m == -TWO63 then Wild else Emit(PadText(IntText(m), p), 1, args)
  {
    assert ([Num(n)] + args)[1..] == args;
  }

  // ----- atol -----

  lemma {:induction false} BlanksRead(s: string, i: nat, k: nat)
    requires i <= k <= |s| && (forall j :: i <= j < k ==> s[j] == ' ' || s[j] == '\t') && Peek(s, k) != ' ' && Peek(s, k) != '\t'
    ensures Blanks(s, i) == k
    decreases k - i
  {
    if i < k {
      BlanksRead(s, i + 1, k);
    }
  }

  lemma {:induction false} DigitsRead(s: string, i: nat, u: string)
    requires i + |u| <= |s| && s[i..i + |u|] == u && forall j :: 0 <= j < |u| ==> '0' <= u[j] <= '9'
    ensures Decimal(s, i, 0) == Decimal(s, i + |u|, ValueOf(u, 10))
    decreases |u|
  {
    if u != "" {
      var n := |u| - 1;
      assert s[i..i + n] == s[i..i + |u|][..n] == u[..n] && s[i + n] == s[i..i + |u|][n] == u[n];
      DigitsRead(s, i, u[..n]);
    }
  }

  /** The same by places: blanks up to `k`, a sign up to `d`, digits up to `e`. */
  lemma AtolParts(s: string, k: nat, d: nat, e: nat)
    requires k <= d <= e <= |s| && d <= k + 1 && forall j :: 0 <= j < k ==> s[j] == ' ' || s[j] == '\t'
    requires if d > k then s[k] == '-' || s[k] == '+' else Peek(s, k) !in " \t-+"
    requires (forall j :: d <= j < e ==> '0' <= s[j] <= '9') && !IsDigit(Peek(s, e))
    ensures Atol(s) == if d > k && s[k] == '-' then -ValueOf(s[d..e], 10) else ValueOf(s[d..e], 10)
  {
    BlanksRead(s, 0, k);
    DigitsRead(s, d, s[d..e]);
  }

  /** atol skips spaces and tabs, takes a sign, and reads the digits up to the first character that is none. */
  lemma AtolMeaning(blanks: string, sign: string, u: string, rest: string)
    requires forall j :: 0 <= j < |blanks| ==> blanks[j] == ' ' || blanks[j] == '\t'
    requires sign == "" || sign == "-" || sign == "+"
    requires forall j :: 0 <= j < |u| ==> '0' <= u[j] <= '9'
    requires rest == "" || !('0' <= rest[0] <= '9')
    requires sign == "" && u == "" && rest != "" ==> rest[0] !in " \t-+"
    ensures Atol(blanks + sign + u + rest) == if sign == "-" then -ValueOf(u, 10) else ValueOf(u, 10)
  {
    var s, k, d := blanks + sign + u + rest, |blanks|, |blanks| + |sign|;
    PartsAt(blanks, sign, u, rest);
    AtolParts(s, k, d, d + |u|);
  }

  lemma PartsAt(blanks: string, sign: string, u: string, rest: string)
    ensures var s, k, d := blanks + sign + u + rest, |blanks|, |blanks| + |sign|;
            && (forall j :: 0 <= j < k ==> s[j] == blanks[j]) && (forall j :: k <= j < d ==> s[j] == sign[j - k])
            && s[d..d + |u|] == u && (forall j :: d <= j < d + |u| ==> s[j] == u[j - d])
            && Peek(s, d + |u|) == Peek(rest, 0)
  {
  }

  /** Ordinary characters stand for themselves. */
  lemma PlainCharacter(c: char, rest: string, args: seq<Arg>)
    requires c != NUL && c != '%'
    ensures Puts([c] + rest, args, [c], rest, args)
  {
    assert ([c] + rest)[1..] == rest;
    RenderShift([c] + rest, 1, rest, 0, args);
  }

  /** "%c" prints the low byte of its argument. */
  lemma CharacterDirective(n: int, rest: string, args: seq<Arg>)
    ensures Puts("%c" + rest, [Num(n)] + args, [(n % 256) as char], rest, args)
  {
    assert ([Num(n)] + args)[1..] == args && "%c" + rest == "%" + ("c" + rest);
    Opening("%c" + rest, "c" + rest, [Num(n)] + args);
    Ends('c', rest, PLAIN, 0, [Num(n)] + args, [(n % 256) as char], args);
  }

  /** "%%" prints a '%', and so does '%' before a character that is no conversion print that one; neither takes an argument. */
  lemma OtherDirective(c: char, rest: string, args: seq<Arg>)
    requires c != NUL && c !in "c#0123456789-ltzduxps"
    ensures Puts("%" + [c] + rest, args, [c], rest, args)
  {
    assert "%" + [c] + rest == "%" + ([c] + rest);
    Opening("%" + [c] + rest, [c] + rest, args);
    Ends(c, rest, PLAIN, 0, args, [c], args);
  }
}
