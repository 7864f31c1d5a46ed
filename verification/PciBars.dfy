/** Base address registers: probing their size and programming their address. */
module PciBars {
  import opened Machine

  const BAR_NUM := 6

  /** A 32-bit register of which only the bits of weight `step` and above can be written; the rest is wired. */
  datatype Register = Register(value: nat, step: nat)

  ghost predicate IsRegister(r: Register) {
    r.value < TWO32 && 0 < r.step <= TWO32 && TWO32 % r.step == 0
  }

  /** What the register holds after `w` is written to it. */
  function Stored(r: Register, w: nat): Register
    requires r.step > 0
  {
    Register(w - w % r.step + r.value % r.step, r.step)
  }

  predicate IsIo(bar: nat) {
    bar % 2 == 1
  }

  /** Memory type 2 in bits 1 and 2 of a memory register. */
  predicate Is64(bar: nat) {
    bar % 8 == 4
  }

  /** Bit 0 tells I/O from memory, bits 1 and 2 hold the memory type, and bit 3, prefetchable, does not matter. */
  lemma TypeBits(v: nat)
    ensures Is64(v) <==> v % 2 == 0 && v / 2 % 4 == 2
  {
    var q, r := v / 8, v % 8;
    assert v == 8 * q + r;
    DivModUnique(v, 2, 4 * q + r / 2, r % 2);
    DivModUnique(v / 2, 4, q, r / 2);
  }

  /** The number of values the information bits take: pci_bar_mask clears what is below it. */
  function Unit(bar: nat): nat {
    if IsIo(bar) then 4 else 16
  }

  /** Register `n` decodes a range: its information bits are wired, and a 64-bit range is the pair of registers. */
  ghost predicate Decodes(regs: seq<Register>, n: nat) {
    && n < BAR_NUM == |regs|
    && IsRegister(regs[n]) && regs[n].step % Unit(regs[n].value) == 0
    && regs[n].value % regs[n].step < Unit(regs[n].value)
    && (Is64(regs[n].value) ==>
          && n + 1 < BAR_NUM && IsRegister(regs[n + 1]) && regs[n + 1].step < TWO32
          && (regs[n].step == TWO32 || regs[n + 1].step == 1)
          && regs[n + 1].value % regs[n + 1].step == 0)
  }

  /** What that asks of the registers, in bits: 2 information bits for I/O, 4 for memory, and a pair for memory type 2. */
  lemma DecodesInBits(regs: seq<Register>, n: nat)
    requires n < 6 == |regs|
    ensures var v, step, unit := regs[n].value, regs[n].step, if regs[n].value % 2 == 1 then 4 else 16;
            Decodes(regs, n) <==>
            && v < 0x1_0000_0000 && 0 < step <= 0x1_0000_0000 && 0x1_0000_0000 % step == 0 && step % unit == 0 && v % step < unit
            && (v % 2 == 0 && v / 2 % 4 == 2 ==>
                  && n + 1 < 6 && regs[n + 1].value < 0x1_0000_0000 && 0 < regs[n + 1].step < 0x1_0000_0000
                  && 0x1_0000_0000 % regs[n + 1].step == 0 && regs[n + 1].value % regs[n + 1].step == 0
                  && (step == 0x1_0000_0000 || regs[n + 1].step == 1))
  {
    TypeBits(regs[n].value);
  }

  /** The number of bytes the range has; 0 when no address bit can be written. */
  function SizeOf(regs: seq<Register>, n: nat): nat
    requires n < BAR_NUM == |regs| && (Is64(regs[n].value) ==> n + 1 < BAR_NUM)
  {
    if !Is64(regs[n].value) then regs[n].step % TWO32
    else if regs[n + 1].step == 1 then regs[n].step
    else regs[n + 1].step * TWO32
  }

  /** The address the range is at. */
  function AddrOf(regs: seq<Register>, n: nat): int
    requires n < BAR_NUM == |regs| && (Is64(regs[n].value) ==> n + 1 < BAR_NUM)
  {
    var low := regs[n].value - regs[n].value % Unit(regs[n].value);
    if Is64(regs[n].value) then low + regs[n + 1].value * TWO32 else low
  }

  // ---- arithmetic on multiples ----

  lemma SumOfMultiples(x: int, y: int, b: int)
    requires b > 0 && x % b == 0 && y % b == 0
    ensures (x + y) % b == 0 && (x - y) % b == 0
  {
    var p, q := x / b, y / b;
    assert x + y == (p + q) * b && x - y == (p - q) * b;
    DivModUnique(x + y, b, p + q, 0);
    DivModUnique(x - y, b, p - q, 0);
  }

  /** A multiple plus less than one unit: the remainder is what was added. */
  lemma RemainderAbove(m: int, low: int, b: int)
    requires b > 0 && m % b == 0 && 0 <= low < b
    ensures (m + low) % b == low
  {
    DivModUnique(m + low, b, m / b, low);
  }

  lemma AllOnes(step: nat)
    requires 0 < step <= TWO32 && TWO32 % step == 0
    ensures (TWO32 - 1) % step == step - 1
  {
    var q := TWO32 / step;
    assert TWO32 == q * step;
    assert (q - 1) * step == q * step - step;
    DivModUnique(TWO32 - 1, step, q - 1, step - 1);
  }

  // ---- what a write changes ----

  /** Writing keeps the register's wired bits; writing back what it held restores it, whatever was written between. */
  lemma WriteBack(r: Register, w: nat)
    requires IsRegister(r) && w < TWO32
    ensures Stored(r, w).value % r.step == r.value % r.step && IsRegister(Stored(r, w))
    ensures Stored(Stored(r, w), r.value) == r
  {
    var step := r.step;
    var up := w - w % step;
    assert up == w / step * step;
    DivModUnique(up, step, w / step, 0);
    RemainderAbove(up, r.value % step, step);
    SumOfMultiples(TWO32, up, step);
    MultipleBelow(TWO32 - up, step);
  }

  lemma MultipleBelow(d: int, step: int)
    requires step > 0 && d % step == 0 && d > 0
    ensures d >= step
  {
    if d < step {
      DivModUnique(d, step, 0, d);
    }
  }

  /** An aligned address is stored whole, above the wired bits. */
  lemma StoredAligned(r: Register, w: nat, unit: nat)
    requires IsRegister(r) && w < TWO32 && w % r.step == 0 && unit > 0 && r.step % unit == 0 && r.value % r.step < unit
    ensures Stored(r, w).value == w + r.value % r.step
    ensures Stored(r, w).value % unit == r.value % r.step == r.value % unit
  {
    var low := r.value % r.step;
    MultipleOfMultiple(w, r.step, unit);
    RemainderAbove(w, low, unit);
    var up := r.value - low;
    DivModUnique(up, r.step, r.value / r.step, 0);
    MultipleOfMultiple(up, r.step, unit);
    RemainderAbove(up, low, unit);
  }

  lemma LowBits(a: nat)
    ensures a % 8 == a % 16 % 8 && a % 2 == a % 16 % 2 && a % 2 == a % 4 % 2
  {
    var q := a / 16;
    assert a == 16 * q + a % 16;
    DivModUnique(a, 8, 2 * q + a % 16 / 8, a % 16 % 8);
    DivModUnique(a, 2, 8 * q + a % 16 / 2, a % 16 % 2);
    DivModUnique(a, 2, 2 * (a / 4) + a % 4 / 2, a % 4 % 2);
  }

  /** The information bits decide what kind of register it is. */
  lemma SameKind(a: nat, b: nat)
    requires a % Unit(a) == b % Unit(a)
    ensures IsIo(a) == IsIo(b) && Unit(a) == Unit(b) && Is64(a) == Is64(b)
  {
    LowBits(a);
    LowBits(b);
    if IsIo(a) {
      OddIsNot64(a);
      OddIsNot64(b);
    }
  }

  lemma OddIsNot64(a: nat)
    requires a % 2 == 1
    ensures a % 8 != 4
  {
    if a % 8 == 4 {
      DivModUnique(a, 2, 4 * (a / 8) + 2, 0);
    }
  }

  lemma InformationCleared(step: nat, low: nat, unit: nat)
    requires unit == 4 || unit == 16
    requires 0 < step <= TWO32 && step % unit == 0 && low < unit
    ensures var val := TWO32 - step + low;
            val - val % unit == TWO32 - step
  {
    SumOfMultiples(TWO32, step, unit);
    RemainderAbove(TWO32 - step, low, unit);
  }

  lemma KeepsKind(r: Register, w: nat)
    requires IsRegister(r) && w < TWO32 && r.step % Unit(r.value) == 0
    ensures IsRegister(Stored(r, w)) && Unit(Stored(r, w).value) == Unit(r.value) && Is64(Stored(r, w).value) == Is64(r.value)
    ensures Stored(r, w).value % Unit(r.value) == r.value % Unit(r.value)
  {
    WriteBack(r, w);
    RemainderThrough(r.value, r.step, Unit(r.value));
    RemainderThrough(Stored(r, w).value, r.step, Unit(r.value));
    SameKind(r.value, Stored(r, w).value);
  }

  lemma RemainderThrough(x: nat, a: nat, b: nat)
    requires a > 0 && b > 0 && a % b == 0
    ensures x % b == x % a % b
  {
    var up := x - x % a;
    DivModUnique(up, a, x / a, 0);
    MultipleOfMultiple(up, a, b);
    var q, p := up / b, x % a / b;
    assert x == (q + p) * b + x % a % b;
    DivModUnique(x, b, q + p, x % a % b);
  }

  /** Negating what stuck of all ones gives the size. */
  lemma SizeFound(regs: seq<Register>, n: nat)
    requires Decodes(regs, n)
    ensures Is64(regs[n].value) ==>
              Wrap(TWO64 - ((TWO32 - regs[n + 1].step) * TWO32 + (TWO32 - regs[n].step))) == SizeOf(regs, n)
    ensures !Is64(regs[n].value) ==> (TWO32 - (TWO32 - regs[n].step)) % TWO32 == SizeOf(regs, n)
  {
    if Is64(regs[n].value) {
      Negated(regs[n].step, regs[n + 1].step);
    }
  }

  lemma Negated(low: nat, high: nat)
    requires 0 < low <= TWO32 && 0 < high < TWO32 && (low == TWO32 || high == 1)
    ensures Wrap(TWO64 - ((TWO32 - high) * TWO32 + (TWO32 - low))) == if high == 1 then low else high * TWO32
  {
    WrapCases(TWO64 - ((TWO32 - high) * TWO32 + (TWO32 - low)));
  }

  class PciDev {
    var regs: seq<Register>

    method WriteBar(n: nat, w: nat)
      requires n < |regs| && IsRegister(regs[n])
      modifies this
      ensures regs == old(regs[n := Stored(regs[n], w)])
    {
      regs := regs[n := Stored(regs[n], w)];
    }

    /** Writes all ones, reads back what stuck, and restores the register. */
    method SizeHelper(n: nat) returns (val: nat)
      requires n < |regs| && IsRegister(regs[n])
      modifies this
      ensures regs == old(regs)
      ensures val == TWO32 - regs[n].step + regs[n].value % regs[n].step
    {
      var bar := regs[n].value;
      AllOnes(regs[n].step);
      WriteBack(regs[n], TWO32 - 1);
      WriteBar(n, TWO32 - 1);
      val := regs[n].value;
      WriteBar(n, bar);
    }

    /** The probe finds the size of the range and leaves configuration space as it was. */
    method BarSize(n: nat) returns (size: nat)
      requires Decodes(regs, n)
      modifies this
      ensures regs == old(regs)
      ensures size == SizeOf(regs, n)
      ensures var v := regs[n].value;
              if v % 2 == 0 && v / 2 % 4 == 2 then
                n + 1 < |regs| && size == if regs[n + 1].step == 1 then regs[n].step else regs[n + 1].step * 0x1_0000_0000
              else size == if regs[n].step == 0x1_0000_0000 then 0 else regs[n].step
    {
      TypeBits(regs[n].value);
      size := SizeHelper(n);
      if size == 0 {
        return 0;
      }
      var bar := regs[n].value;
      ghost var low := bar % regs[n].step;
      InformationCleared(regs[n].step, low, Unit(bar));
      size := size - size % Unit(bar);
      SizeFound(regs, n);
      if Is64(bar) {
        var size64 := SizeHelper(n + 1);
        size := Wrap(TWO64 - (size64 * TWO32 + size));
      } else {
        size := (TWO32 - size) % TWO32;
      }
    }

    /** Programs an address; false when one of the assertions on the way fails. */
    method SetAddr(n: nat, addr: nat) returns (ok: bool)
      requires Decodes(regs, n) && addr < TWO64
      modifies this
      ensures var v := old(regs[n].value);
              ok <==> addr != 0xFFFF_FFFF_FFFF_FFFF && ((v % 2 == 0 && v / 2 % 4 == 2) || addr < 0x1_0000_0000)
      ensures regs == if ok then Programmed(old(regs), n, addr) else old(regs)
    {
      TypeBits(regs[n].value);
      if addr == TWO64 - 1 || (!Is64(regs[n].value) && addr / TWO32 != 0) {
        return false;
      }
      KeepsKind(regs[n], addr % TWO32);
      WriteBar(n, addr % TWO32);
      if Is64(regs[n].value) {
        WriteBar(n + 1, addr / TWO32);
      }
      ok := true;
    }
  }

  /** The registers after an address is written to range `n`. */
  ghost function Programmed(regs: seq<Register>, n: nat, addr: nat): (r: seq<Register>)
    requires Decodes(regs, n)
    ensures |r| == |regs|
  {
    var low := regs[n := Stored(regs[n], addr % TWO32)];
    if Is64(regs[n].value) then low[n + 1 := Stored(regs[n + 1], addr / TWO32)] else low
  }

  /** The low register of a range takes its part of an aligned address and keeps its information bits. */
  lemma LowRegister(r: Register, addr: nat)
    requires IsRegister(r) && r.step % Unit(r.value) == 0 && r.value % r.step < Unit(r.value) && addr % r.step == 0
    ensures var s := Stored(r, addr % TWO32);
            && IsRegister(s) && s.step == r.step && Is64(s.value) == Is64(r.value) && Unit(s.value) == Unit(r.value)
            && s.value % s.step < Unit(s.value)
            && s.value - s.value % Unit(s.value) == addr % TWO32
  {
    var w := addr % TWO32;
    RemainderThrough(addr, TWO32, r.step);
    WriteBack(r, w);
    KeepsKind(r, w);
    StoredAligned(r, w, Unit(r.value));
  }

  lemma HighRegister(r: Register, v: nat)
    requires IsRegister(r) && v < TWO32 && v % r.step == 0 && r.value % r.step == 0
    ensures Stored(r, v) == Register(v, r.step)
  {
  }

  /**
   A multiple of a size of 2^32 or more has nothing in the low register, and a multiple of the step in the high
   one.
   */
  lemma HighMultiple(addr: nat, step: nat)
    requires step > 0 && addr % (step * TWO32) == 0
    ensures addr % TWO32 == 0 && addr / TWO32 % step == 0
  {
    var q := addr / (step * TWO32);
    assert addr == (step * TWO32) * q == (step * q) * TWO32;
    DivModUnique(addr, TWO32, step * q, 0);
    assert step * q == q * step;
    DivModUnique(step * q, step, q, 0);
  }

  lemma Parts(regs: seq<Register>, n: nat, addr: nat)
    requires Decodes(regs, n) && addr < TWO64 && SizeOf(regs, n) > 0 && addr % SizeOf(regs, n) == 0
    requires Is64(regs[n].value) || addr < TWO32
    ensures addr % regs[n].step == 0
    ensures Is64(regs[n].value) ==> addr / TWO32 < TWO32 && addr / TWO32 % regs[n + 1].step == 0
  {
    if Is64(regs[n].value) && regs[n + 1].step != 1 {
      HighMultiple(addr, regs[n + 1].step);
    }
  }

  lemma ProgrammedPair(regs: seq<Register>, n: nat, addr: nat)
    requires Decodes(regs, n) && Is64(regs[n].value) && addr < TWO64
    requires addr % regs[n].step == 0 && addr / TWO32 < TWO32 && addr / TWO32 % regs[n + 1].step == 0
    ensures var p := Programmed(regs, n, addr);
            Decodes(p, n) && SizeOf(p, n) == SizeOf(regs, n) && AddrOf(p, n) == addr
  {
    LowRegister(regs[n], addr);
    HighRegister(regs[n + 1], addr / TWO32);
    var p := Programmed(regs, n, addr);
    assert p[n] == Stored(regs[n], addr % TWO32) && p[n + 1] == Register(addr / TWO32, regs[n + 1].step);
    assert addr % TWO32 + addr / TWO32 * TWO32 == addr;
  }

  lemma ProgrammedOne(regs: seq<Register>, n: nat, addr: nat)
    requires Decodes(regs, n) && !Is64(regs[n].value) && addr < TWO32 && addr % regs[n].step == 0
    ensures var p := Programmed(regs, n, addr);
            Decodes(p, n) && SizeOf(p, n) == SizeOf(regs, n) && AddrOf(p, n) == addr
  {
    LowRegister(regs[n], addr);
    var p := Programmed(regs, n, addr);
    assert p[n] == Stored(regs[n], addr % TWO32);
  }

  /** What is in the registers then: the halves of the address, with the information bits below the low one. */
  lemma ProgrammedValues(regs: seq<Register>, n: nat, addr: nat)
    requires Decodes(regs, n) && addr < TWO64 && SizeOf(regs, n) > 0 && addr % SizeOf(regs, n) == 0
    requires Is64(regs[n].value) || addr < TWO32
    ensures var v, p := regs[n].value, Programmed(regs, n, addr);
            && p[n].value == addr % 0x1_0000_0000 + v % (if v % 2 == 1 then 4 else 16)
            && (v % 2 == 0 && v / 2 % 4 == 2 ==> n + 1 < |p| && p[n + 1].value == addr / 0x1_0000_0000)
            && forall i :: 0 <= i < |p| && i != n && !(i == n + 1 && v % 2 == 0 && v / 2 % 4 == 2) ==> p[i] == regs[i]
  {
    Parts(regs, n, addr);
    TypeBits(regs[n].value);
    RemainderThrough(addr, TWO32, regs[n].step);
    StoredAligned(regs[n], addr % TWO32, Unit(regs[n].value));
    if Is64(regs[n].value) {
      HighRegister(regs[n + 1], addr / TWO32);
    }
  }

  /** A range programmed with a size-aligned address is at that address, and its size is what it was. */
  lemma ProgrammedAligned(regs: seq<Register>, n: nat, addr: nat)
    requires Decodes(regs, n) && addr < TWO64 && SizeOf(regs, n) > 0 && addr % SizeOf(regs, n) == 0
    requires Is64(regs[n].value) || addr < TWO32
    ensures var p := Programmed(regs, n, addr);
            Decodes(p, n) && SizeOf(p, n) == SizeOf(regs, n) && AddrOf(p, n) == addr
  {
    Parts(regs, n, addr);
    if Is64(regs[n].value) {
      ProgrammedPair(regs, n, addr);
    } else {
      ProgrammedOne(regs, n, addr);
    }
  }
}
