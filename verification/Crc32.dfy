/**
 The table-driven CRC-32 against the bit-at-a-time definition with the reflected
 polynomial 0xEDB88320 (section 8 of RFC 1952).
 */
module Crc32 {
  const POLY: bv64 := 0xEDB88320

  function Xor(x: bv64, y: bv64): bv64 {
    x ^ y
  }

  function Half(x: bv64): bv64 {
    x >> 1
  }

  function Odd(x: bv64): bv64 {
    x & 1
  }

  function Shift8(x: bv64): bv64 {
    x >> 8
  }

  function Low8(x: bv64): bv64 {
    x & 0xFF
  }

  function High(x: bv64): bv64 {
    x & !0xFF
  }

  function Carry(bit: bv64): bv64 {
    if bit == 0 then 0 else POLY
  }

  /** One bit: shift right, and add the polynomial when the bit that fell out was set. */
  function Bit(x: bv64): bv64 {
    Xor(Half(x), Carry(Odd(x)))
  }

  function Bits8(x: bv64): bv64 {
    Bit(Bit(Bit(Bit(Bit(Bit(Bit(Bit(x))))))))
  }

  // ----- the table, 16 rows of 16 entries -----

  function Row0(j: bv64): bv64 {
    if j == 0 then 0x00000000 else if j == 1 then 0x77073096 else if j == 2 then 0xEE0E612C else if j == 3 then 0x990951BA
    else if j == 4 then 0x076DC419 else if j == 5 then 0x706AF48F else if j == 6 then 0xE963A535 else if j == 7 then 0x9E6495A3
    else if j == 8 then 0x0EDB8832 else if j == 9 then 0x79DCB8A4 else if j == 10 then 0xE0D5E91E else if j == 11 then 0x97D2D988
    else if j == 12 then 0x09B64C2B else if j == 13 then 0x7EB17CBD else if j == 14 then 0xE7B82D07 else 0x90BF1D91
  }

  function Row1(j: bv64): bv64 {
    if j == 0 then 0x1DB71064 else if j == 1 then 0x6AB020F2 else if j == 2 then 0xF3B97148 else if j == 3 then 0x84BE41DE
    else if j == 4 then 0x1ADAD47D else if j == 5 then 0x6DDDE4EB else if j == 6 then 0xF4D4B551 else if j == 7 then 0x83D385C7
    else if j == 8 then 0x136C9856 else if j == 9 then 0x646BA8C0 else if j == 10 then 0xFD62F97A else if j == 11 then 0x8A65C9EC
    else if j == 12 then 0x14015C4F else if j == 13 then 0x63066CD9 else if j == 14 then 0xFA0F3D63 else 0x8D080DF5
  }

  function Row2(j: bv64): bv64 {
    if j == 0 then 0x3B6E20C8 else if j == 1 then 0x4C69105E else if j == 2 then 0xD56041E4 else if j == 3 then 0xA2677172
    else if j == 4 then 0x3C03E4D1 else if j == 5 then 0x4B04D447 else if j == 6 then 0xD20D85FD else if j == 7 then 0xA50AB56B
    else if j == 8 then 0x35B5A8FA else if j == 9 then 0x42B2986C else if j == 10 then 0xDBBBC9D6 else if j == 11 then 0xACBCF940
    else if j == 12 then 0x32D86CE3 else if j == 13 then 0x45DF5C75 else if j == 14 then 0xDCD60DCF else 0xABD13D59
  }

  function Row3(j: bv64): bv64 {
    if j == 0 then 0x26D930AC else if j == 1 then 0x51DE003A else if j == 2 then 0xC8D75180 else if j == 3 then 0xBFD06116
    else if j == 4 then 0x21B4F4B5 else if j == 5 then 0x56B3C423 else if j == 6 then 0xCFBA9599 else if j == 7 then 0xB8BDA50F
    else if j == 8 then 0x2802B89E else if j == 9 then 0x5F058808 else if j == 10 then 0xC60CD9B2 else if j == 11 then 0xB10BE924
    else if j == 12 then 0x2F6F7C87 else if j == 13 then 0x58684C11 else if j == 14 then 0xC1611DAB else 0xB6662D3D
  }

  function Row4(j: bv64): bv64 {
    if j == 0 then 0x76DC4190 else if j == 1 then 0x01DB7106 else if j == 2 then 0x98D220BC else if j == 3 then 0xEFD5102A
    else if j == 4 then 0x71B18589 else if j == 5 then 0x06B6B51F else if j == 6 then 0x9FBFE4A5 else if j == 7 then 0xE8B8D433
    else if j == 8 then 0x7807C9A2 else if j == 9 then 0x0F00F934 else if j == 10 then 0x9609A88E else if j == 11 then 0xE10E9818
    else if j == 12 then 0x7F6A0DBB else if j == 13 then 0x086D3D2D else if j == 14 then 0x91646C97 else 0xE6635C01
  }

  function Row5(j: bv64): bv64 {
    if j == 0 then 0x6B6B51F4 else if j == 1 then 0x1C6C6162 else if j == 2 then 0x856530D8 else if j == 3 then 0xF262004E
    else if j == 4 then 0x6C0695ED else if j == 5 then 0x1B01A57B else if j == 6 then 0x8208F4C1 else if j == 7 then 0xF50FC457
    else if j == 8 then 0x65B0D9C6 else if j == 9 then 0x12B7E950 else if j == 10 then 0x8BBEB8EA else if j == 11 then 0xFCB9887C
    else if j == 12 then 0x62DD1DDF else if j == 13 then 0x15DA2D49 else if j == 14 then 0x8CD37CF3 else 0xFBD44C65
  }

  function Row6(j: bv64): bv64 {
    if j == 0 then 0x4DB26158 else if j == 1 then 0x3AB551CE else if j == 2 then 0xA3BC0074 else if j == 3 then 0xD4BB30E2
    else if j == 4 then 0x4ADFA541 else if j == 5 then 0x3DD895D7 else if j == 6 then 0xA4D1C46D else if j == 7 then 0xD3D6F4FB
    else if j == 8 then 0x4369E96A else if j == 9 then 0x346ED9FC else if j == 10 then 0xAD678846 else if j == 11 then 0xDA60B8D0
    else if j == 12 then 0x44042D73 else if j == 13 then 0x33031DE5 else if j == 14 then 0xAA0A4C5F else 0xDD0D7CC9
  }

  function Row7(j: bv64): bv64 {
    if j == 0 then 0x5005713C else if j == 1 then 0x270241AA else if j == 2 then 0xBE0B1010 else if j == 3 then 0xC90C2086
    else if j == 4 then 0x5768B525 else if j == 5 then 0x206F85B3 else if j == 6 then 0xB966D409 else if j == 7 then 0xCE61E49F
    else if j == 8 then 0x5EDEF90E else if j == 9 then 0x29D9C998 else if j == 10 then 0xB0D09822 else if j == 11 then 0xC7D7A8B4
    else if j == 12 then 0x59B33D17 else if j == 13 then 0x2EB40D81 else if j == 14 then 0xB7BD5C3B else 0xC0BA6CAD
  }

  function Row8(j: bv64): bv64 {
    if j == 0 then 0xEDB88320 else if j == 1 then 0x9ABFB3B6 else if j == 2 then 0x03B6E20C else if j == 3 then 0x74B1D29A
    else if j == 4 then 0xEAD54739 else if j == 5 then 0x9DD277AF else if j == 6 then 0x04DB2615 else if j == 7 then 0x73DC1683
    else if j == 8 then 0xE3630B12 else if j == 9 then 0x94643B84 else if j == 10 then 0x0D6D6A3E else if j == 11 then 0x7A6A5AA8
    else if j == 12 then 0xE40ECF0B else if j == 13 then 0x9309FF9D else if j == 14 then 0x0A00AE27 else 0x7D079EB1
  }

  function Row9(j: bv64): bv64 {
    if j == 0 then 0xF00F9344 else if j == 1 then 0x8708A3D2 else if j == 2 then 0x1E01F268 else if j == 3 then 0x6906C2FE
    else if j == 4 then 0xF762575D else if j == 5 then 0x806567CB else if j == 6 then 0x196C3671 else if j == 7 then 0x6E6B06E7
    else if j == 8 then 0xFED41B76 else if j == 9 then 0x89D32BE0 else if j == 10 then 0x10DA7A5A else if j == 11 then 0x67DD4ACC
    else if j == 12 then 0xF9B9DF6F else if j == 13 then 0x8EBEEFF9 else if j == 14 then 0x17B7BE43 else 0x60B08ED5
  }

  function Row10(j: bv64): bv64 {
    if j == 0 then 0xD6D6A3E8 else if j == 1 then 0xA1D1937E else if j == 2 then 0x38D8C2C4 else if j == 3 then 0x4FDFF252
    else if j == 4 then 0xD1BB67F1 else if j == 5 then 0xA6BC5767 else if j == 6 then 0x3FB506DD else if j == 7 then 0x48B2364B
    else if j == 8 then 0xD80D2BDA else if j == 9 then 0xAF0A1B4C else if j == 10 then 0x36034AF6 else if j == 11 then 0x41047A60
    else if j == 12 then 0xDF60EFC3 else if j == 13 then 0xA867DF55 else if j == 14 then 0x316E8EEF else 0x4669BE79
  }

  function Row11(j: bv64): bv64 {
    if j == 0 then 0xCB61B38C else if j == 1 then 0xBC66831A else if j == 2 then 0x256FD2A0 else if j == 3 then 0x5268E236
    else if j == 4 then 0xCC0C7795 else if j == 5 then 0xBB0B4703 else if j == 6 then 0x220216B9 else if j == 7 then 0x5505262F
    else if j == 8 then 0xC5BA3BBE else if j == 9 then 0xB2BD0B28 else if j == 10 then 0x2BB45A92 else if j == 11 then 0x5CB36A04
    else if j == 12 then 0xC2D7FFA7 else if j == 13 then 0xB5D0CF31 else if j == 14 then 0x2CD99E8B else 0x5BDEAE1D
  }

  function Row12(j: bv64): bv64 {
    if j == 0 then 0x9B64C2B0 else if j == 1 then 0xEC63F226 else if j == 2 then 0x756AA39C else if j == 3 then 0x026D930A
    else if j == 4 then 0x9C0906A9 else if j == 5 then 0xEB0E363F else if j == 6 then 0x72076785 else if j == 7 then 0x05005713
    else if j == 8 then 0x95BF4A82 else if j == 9 then 0xE2B87A14 else if j == 10 then 0x7BB12BAE else if j == 11 then 0x0CB61B38
    else if j == 12 then 0x92D28E9B else if j == 13 then 0xE5D5BE0D else if j == 14 then 0x7CDCEFB7 else 0x0BDBDF21
  }

  function Row13(j: bv64): bv64 {
    if j == 0 then 0x86D3D2D4 else if j == 1 then 0xF1D4E242 else if j == 2 then 0x68DDB3F8 else if j == 3 then 0x1FDA836E
    else if j == 4 then 0x81BE16CD else if j == 5 then 0xF6B9265B else if j == 6 then 0x6FB077E1 else if j == 7 then 0x18B74777
    else if j == 8 then 0x88085AE6 else if j == 9 then 0xFF0F6A70 else if j == 10 then 0x66063BCA else if j == 11 then 0x11010B5C
    else if j == 12 then 0x8F659EFF else if j == 13 then 0xF862AE69 else if j == 14 then 0x616BFFD3 else 0x166CCF45
  }

  function Row14(j: bv64): bv64 {
    if j == 0 then 0xA00AE278 else if j == 1 then 0xD70DD2EE else if j == 2 then 0x4E048354 else if j == 3 then 0x3903B3C2
    else if j == 4 then 0xA7672661 else if j == 5 then 0xD06016F7 else if j == 6 then 0x4969474D else if j == 7 then 0x3E6E77DB
    else if j == 8 then 0xAED16A4A else if j == 9 then 0xD9D65ADC else if j == 10 then 0x40DF0B66 else if j == 11 then 0x37D83BF0
    else if j == 12 then 0xA9BCAE53 else if j == 13 then 0xDEBB9EC5 else if j == 14 then 0x47B2CF7F else 0x30B5FFE9
  }

  function Row15(j: bv64): bv64 {
    if j == 0 then 0xBDBDF21C else if j == 1 then 0xCABAC28A else if j == 2 then 0x53B39330 else if j == 3 then 0x24B4A3A6
    else if j == 4 then 0xBAD03605 else if j == 5 then 0xCDD70693 else if j == 6 then 0x54DE5729 else if j == 7 then 0x23D967BF
    else if j == 8 then 0xB3667A2E else if j == 9 then 0xC4614AB8 else if j == 10 then 0x5D681B02 else if j == 11 then 0x2A6F2B94
    else if j == 12 then 0xB40BBE37 else if j == 13 then 0xC30C8EA1 else if j == 14 then 0x5A05DF1B else 0x2D02EF8D
  }

  /** crcTable[i] */
  function Entry(i: bv64): bv64 {
    var j := i & 15;
    match (i >> 4) & 15
    case 0 => Row0(j)
    case 1 => Row1(j)
    case 2 => Row2(j)
    case 3 => Row3(j)
    case 4 => Row4(j)
    case 5 => Row5(j)
    case 6 => Row6(j)
    case 7 => Row7(j)
    case 8 => Row8(j)
    case 9 => Row9(j)
    case 10 => Row10(j)
    case 11 => Row11(j)
    case 12 => Row12(j)
    case 13 => Row13(j)
    case 14 => Row14(j)
    case _ => Row15(j)
  }

  /** The first row follows from the second, because eight bits are linear. */
  lemma Row0Correct(j: bv64)
    requires j < 16
    ensures Row0(j) == Bits8(j)
  {
    Row1Correct(j);
    Row1Correct(0);
    Row0Linear(j);
    SecondRow(j);
    Bits8Linear(16 | j, 16);
  }

  lemma Row0Linear(j: bv64)
    requires j < 16
    ensures Row0(j) == Xor(Row1(j), Row1(0))
  {
  }

  lemma SecondRow(j: bv64)
    requires j < 16
    ensures Xor(16 | j, 16) == j && 16 | 0 == 16 as bv64
  {
  }

  lemma Row1Correct(j: bv64)
    requires j < 16
    ensures Row1(j) == Bits8(16 | j)
  {
  }

  lemma Row2Correct(j: bv64)
    requires j < 16
    ensures Row2(j) == Bits8(32 | j)
  {
  }

  lemma Row3Correct(j: bv64)
    requires j < 16
    ensures Row3(j) == Bits8(48 | j)
  {
  }

  lemma Row4Correct(j: bv64)
    requires j < 16
    ensures Row4(j) == Bits8(64 | j)
  {
  }

  lemma Row5Correct(j: bv64)
    requires j < 16
    ensures Row5(j) == Bits8(80 | j)
  {
  }

  lemma Row6Correct(j: bv64)
    requires j < 16
    ensures Row6(j) == Bits8(96 | j)
  {
  }

  lemma Row7Correct(j: bv64)
    requires j < 16
    ensures Row7(j) == Bits8(112 | j)
  {
  }

  lemma Row8Correct(j: bv64)
    requires j < 16
    ensures Row8(j) == Bits8(128 | j)
  {
  }

  lemma Row9Correct(j: bv64)
    requires j < 16
    ensures Row9(j) == Bits8(144 | j)
  {
  }

  lemma Row10Correct(j: bv64)
    requires j < 16
    ensures Row10(j) == Bits8(160 | j)
  {
  }

  lemma Row11Correct(j: bv64)
    requires j < 16
    ensures Row11(j) == Bits8(176 | j)
  {
  }

  lemma Row12Correct(j: bv64)
    requires j < 16
    ensures Row12(j) == Bits8(192 | j)
  {
  }

  lemma Row13Correct(j: bv64)
    requires j < 16
    ensures Row13(j) == Bits8(208 | j)
  {
  }

  lemma Row14Correct(j: bv64)
    requires j < 16
    ensures Row14(j) == Bits8(224 | j)
  {
  }

  lemma Row15Correct(j: bv64)
    requires j < 16
    ensures Row15(j) == Bits8(240 | j)
  {
  }

  lemma EntryIsBits8(i: bv64)
    requires i < 256
    ensures Entry(i) == Bits8(i)
  {
    var j := i & 15;
    if i >> 4 == 0 {
      Row0Correct(j);
      assert i == j;
    } else if i >> 4 == 1 {
      Row1Correct(j);
      assert i == 16 | j;
    } else if i >> 4 == 2 {
      Row2Correct(j);
      assert i == 32 | j;
    } else if i >> 4 == 3 {
      Row3Correct(j);
      assert i == 48 | j;
    } else if i >> 4 == 4 {
      Row4Correct(j);
      assert i == 64 | j;
    } else if i >> 4 == 5 {
      Row5Correct(j);
      assert i == 80 | j;
    } else if i >> 4 == 6 {
      Row6Correct(j);
      assert i == 96 | j;
    } else if i >> 4 == 7 {
      Row7Correct(j);
      assert i == 112 | j;
    } else if i >> 4 == 8 {
      Row8Correct(j);
      assert i == 128 | j;
    } else if i >> 4 == 9 {
      Row9Correct(j);
      assert i == 144 | j;
    } else if i >> 4 == 10 {
      Row10Correct(j);
      assert i == 160 | j;
    } else if i >> 4 == 11 {
      Row11Correct(j);
      assert i == 176 | j;
    } else if i >> 4 == 12 {
      Row12Correct(j);
      assert i == 192 | j;
    } else if i >> 4 == 13 {
      Row13Correct(j);
      assert i == 208 | j;
    } else if i >> 4 == 14 {
      Row14Correct(j);
      assert i == 224 | j;
    } else if i >> 4 == 15 {
      Row15Correct(j);
      assert i == 240 | j;
    }
  }

  // ----- the bit-at-a-time definition -----

  /** A 32-bit value in a 64-bit register. */
  predicate Is32(x: bv64) {
    x <= MASK
  }

  const MASK: bv64 := 0xFFFF_FFFF

  function Fold(c: bv64, buf: seq<bv8>): bv64
    decreases buf
  {
    if buf == [] then c else Fold(Bits8(Xor(c, buf[0] as bv64)), buf[1..])
  }

  /** The CRC of `buf` continued from `crc`, bit by bit. */
  function Crc(crc: bv64, buf: seq<bv8>): bv64 {
    Xor(Fold(Xor(crc, MASK), buf), MASK)
  }

  lemma HalfLinear(x: bv64, y: bv64)
    ensures Half(Xor(x, y)) == Xor(Half(x), Half(y))
  {
  }

  lemma OddLinear(x: bv64, y: bv64)
    ensures Odd(Xor(x, y)) == Xor(Odd(x), Odd(y))
  {
  }

  lemma OddIsBit(x: bv64)
    ensures Odd(x) == 0 || Odd(x) == 1
  {
  }

  lemma CarryLinear(a: bv64, b: bv64)
    requires (a == 0 || a == 1) && (b == 0 || b == 1)
    ensures Carry(Xor(a, b)) == Xor(Carry(a), Carry(b))
  {
    CarryOfBit();
    assert Xor(0, 0) == 0 && Xor(0, 1) == 1 && Xor(1, 0) == 1 && Xor(1, 1) == 0;
    assert Xor(POLY, POLY) == 0 && Xor(POLY, 0) == POLY && Xor(0, POLY) == POLY;
  }

  lemma CarryOfBit()
    ensures Carry(0) == 0 && Carry(1) == POLY
  {
  }

  lemma XorAssoc(a: bv64, b: bv64, c: bv64)
    ensures Xor(Xor(a, b), c) == Xor(a, Xor(b, c))
  {
  }

  lemma XorSwap(a: bv64, b: bv64)
    ensures Xor(a, b) == Xor(b, a)
  {
  }

  lemma Regroup(a: bv64, b: bv64, p: bv64, q: bv64)
    ensures Xor(Xor(a, b), Xor(p, q)) == Xor(Xor(a, p), Xor(b, q))
  {
    XorAssoc(a, b, Xor(p, q));
    XorAssoc(b, p, q);
    XorSwap(b, p);
    XorAssoc(p, b, q);
    XorAssoc(a, p, Xor(b, q));
  }

  lemma BitLinear(x: bv64, y: bv64)
    ensures Bit(Xor(x, y)) == Xor(Bit(x), Bit(y))
  {
    HalfLinear(x, y);
    OddLinear(x, y);
    OddIsBit(x);
    OddIsBit(y);
    CarryLinear(Odd(x), Odd(y));
    Regroup(Half(x), Half(y), Carry(Odd(x)), Carry(Odd(y)));
  }

  lemma Bits8Linear(x: bv64, y: bv64)
    ensures Bits8(Xor(x, y)) == Xor(Bits8(x), Bits8(y))
  {
    var a, b := x, y;
    BitLinear(a, b);
    a, b := Bit(a), Bit(b);
    BitLinear(a, b);
    a, b := Bit(a), Bit(b);
    BitLinear(a, b);
    a, b := Bit(a), Bit(b);
    BitLinear(a, b);
    a, b := Bit(a), Bit(b);
    BitLinear(a, b);
    a, b := Bit(a), Bit(b);
    BitLinear(a, b);
    a, b := Bit(a), Bit(b);
    BitLinear(a, b);
    a, b := Bit(a), Bit(b);
    BitLinear(a, b);
  }

  /** Eight clear bits just fall out. */
  lemma Bits8OfHigh(x: bv64)
    ensures Bits8(High(x)) == Shift8(x)
  {
  }

  lemma HighLow(x: bv64)
    ensures x == Xor(High(x), Low8(x)) && Low8(x) < 256
  {
  }

  lemma Shift8OfByte(c: bv64, b: bv64)
    requires b < 256
    ensures Shift8(Xor(c, b)) == Shift8(c)
  {
  }

  /** One table step does the work of eight bit steps. */
  lemma ByteStep(c: bv64, b: bv64)
    requires b < 256
    ensures Xor(Shift8(c), Entry(Low8(Xor(c, b)))) == Bits8(Xor(c, b))
  {
    var x := Xor(c, b);
    HighLow(x);
    Shift8OfByte(c, b);
    Bits8Linear(High(x), Low8(x));
    Bits8OfHigh(x);
    EntryIsBits8(Low8(x));
  }

  lemma {:induction false} FoldConcat(c: bv64, a: seq<bv8>, b: seq<bv8>)
    ensures Fold(c, a + b) == Fold(Fold(c, a), b)
    decreases a
  {
    if a == [] {
      assert a + b == b;
    } else {
      assert (a + b)[0] == a[0] && (a + b)[1..] == a[1..] + b;
      FoldConcat(Bits8(Xor(c, a[0] as bv64)), a[1..], b);
    }
  }

  lemma FoldNext(c: bv64, buf: seq<bv8>, i: nat)
    requires i < |buf|
    ensures Fold(c, buf[..i + 1]) == Bits8(Xor(Fold(c, buf[..i]), buf[i] as bv64))
  {
    assert buf[..i + 1] == buf[..i] + [buf[i]];
    FoldConcat(c, buf[..i], [buf[i]]);
    var f := Fold(c, buf[..i]);
    assert Fold(f, [buf[i]]) == Fold(Bits8(Xor(f, buf[i] as bv64)), []);
  }

  /** For every seed and every buffer the table gives the bit-at-a-time CRC. */
  method ComputeBuf(inCrc32: bv64, buf: seq<bv8>) returns (r: bv64)
    ensures r == Crc(inCrc32, buf)
  {
    var crc32 := Xor(inCrc32, MASK);
    for i := 0 to |buf|
      invariant crc32 == Fold(Xor(inCrc32, MASK), buf[..i])
    {
      var b := buf[i] as bv64;
      ByteStep(crc32, b);
      FoldNext(Xor(inCrc32, MASK), buf, i);
      crc32 := Xor(Shift8(crc32), Entry(Low8(Xor(crc32, b))));
    }
    assert buf[..|buf|] == buf;
    r := Xor(crc32, MASK);
  }

  lemma XorTwice(f: bv64, m: bv64)
    ensures Xor(Xor(f, m), m) == f
  {
  }

  /** Continuing from the CRC of one buffer is the CRC of the two joined. */
  lemma CrcContinues(c: bv64, a: seq<bv8>, b: seq<bv8>)
    ensures Crc(Crc(c, a), b) == Crc(c, a + b)
  {
    FoldConcat(Xor(c, MASK), a, b);
    var f := Fold(Xor(c, MASK), a);
    XorTwice(f, MASK);
  }

  // ----- what a CRC is for -----

  lemma BitStays32(x: bv64)
    requires Is32(x)
    ensures Is32(Bit(x))
  {
  }

  /** On 32-bit values only zero is shifted to zero: a carry sets the top bit, which no shift does. */
  lemma BitOfNonzero(x: bv64)
    requires Is32(x) && Bit(x) == 0
    ensures x == 0
  {
  }

  lemma Bits8OfNonzero(x: bv64)
    requires Is32(x)
    ensures Is32(Bits8(x)) && (Bits8(x) == 0 ==> x == 0)
  {
    var y, k := x, 0;
    while k < 8
      invariant 0 <= k <= 8 && Is32(y) && (y == 0 ==> x == 0)
      invariant y == [x, Bit(x), Bit(Bit(x)), Bit(Bit(Bit(x))), Bit(Bit(Bit(Bit(x)))), Bit(Bit(Bit(Bit(Bit(x))))),
                      Bit(Bit(Bit(Bit(Bit(Bit(x)))))), Bit(Bit(Bit(Bit(Bit(Bit(Bit(x))))))), Bits8(x)][k]
    {
      BitStays32(y);
      if Bit(y) == 0 {
        BitOfNonzero(y);
      }
      y, k := Bit(y), k + 1;
    }
  }

  lemma XorSame(x: bv64)
    ensures Xor(x, x) == 0 && Xor(0, x) == x
  {
  }

  lemma XorZero(x: bv64, y: bv64)
    ensures Xor(x, y) == 0 <==> x == y
  {
    XorTwice(x, y);
    XorSame(y);
  }

  lemma XorStays32(x: bv64, y: bv64)
    requires Is32(x) && Is32(y)
    ensures Is32(Xor(x, y))
  {
  }

  lemma Bits8Injective(x: bv64, y: bv64)
    requires Is32(x) && Is32(y) && Bits8(x) == Bits8(y)
    ensures x == y
  {
    Bits8Linear(x, y);
    XorZero(Bits8(x), Bits8(y));
    XorStays32(x, y);
    Bits8OfNonzero(Xor(x, y));
    XorZero(x, y);
  }

  lemma ByteIs32(b: bv8)
    ensures Is32(b as bv64)
  {
  }

  /** Registers that differ stay different, whatever is read next. */
  lemma {:induction false} FoldInjective(c: bv64, d: bv64, buf: seq<bv8>)
    requires Is32(c) && Is32(d) && c != d
    ensures Fold(c, buf) != Fold(d, buf) && Is32(Fold(c, buf)) && Is32(Fold(d, buf))
    decreases buf
  {
    if buf != [] {
      var b := buf[0] as bv64;
      ByteIs32(buf[0]);
      XorStays32(c, b);
      XorStays32(d, b);
      Bits8OfNonzero(Xor(c, b));
      Bits8OfNonzero(Xor(d, b));
      if Bits8(Xor(c, b)) == Bits8(Xor(d, b)) {
        Bits8Injective(Xor(c, b), Xor(d, b));
        XorCancel(c, d, b);
      }
      FoldInjective(Bits8(Xor(c, b)), Bits8(Xor(d, b)), buf[1..]);
    }
  }

  lemma XorCancel(x: bv64, y: bv64, b: bv64)
    ensures Xor(x, b) == Xor(y, b) <==> x == y
  {
    XorTwice(x, b);
    XorTwice(y, b);
  }

  lemma BytesDiffer(x: bv8, y: bv8)
    requires x != y
    ensures x as bv64 != y as bv64
  {
  }

  lemma {:induction false} FoldStays32(c: bv64, buf: seq<bv8>)
    requires Is32(c)
    ensures Is32(Fold(c, buf))
    decreases buf
  {
    if buf != [] {
      ByteIs32(buf[0]);
      XorStays32(c, buf[0] as bv64);
      Bits8OfNonzero(Xor(c, buf[0] as bv64));
      FoldStays32(Bits8(Xor(c, buf[0] as bv64)), buf[1..]);
    }
  }

  /** For every 32-bit seed, a change confined to one byte changes the CRC. */
  lemma OneByteErrorIsDetected(crc: bv64, pre: seq<bv8>, x: bv8, y: bv8, post: seq<bv8>)
    requires Is32(crc) && x != y
    ensures Crc(crc, pre + [x] + post) != Crc(crc, pre + [y] + post)
  {
    XorStays32(crc, MASK);
    var c := Fold(Xor(crc, MASK), pre);
    FoldStays32(Xor(crc, MASK), pre);
    OneByteFold(Xor(crc, MASK), pre, x, post);
    OneByteFold(Xor(crc, MASK), pre, y, post);
    BytesDiffer(x, y);
    ByteIs32(x);
    ByteIs32(y);
    var cx, cy := Xor(c, x as bv64), Xor(c, y as bv64);
    XorStays32(c, x as bv64);
    XorStays32(c, y as bv64);
    XorSwap(c, x as bv64);
    XorSwap(c, y as bv64);
    XorCancel(x as bv64, y as bv64, c);
    Bits8OfNonzero(cx);
    Bits8OfNonzero(cy);
    if Bits8(cx) == Bits8(cy) {
      Bits8Injective(cx, cy);
    }
    FoldInjective(Bits8(cx), Bits8(cy), post);
    XorCancel(Fold(Bits8(cx), post), Fold(Bits8(cy), post), MASK);
  }

  lemma OneByteFold(c: bv64, pre: seq<bv8>, x: bv8, post: seq<bv8>)
    ensures Fold(c, pre + [x] + post) == Fold(Bits8(Xor(Fold(c, pre), x as bv64)), post)
  {
    assert pre + [x] + post == pre + ([x] + post);
    FoldConcat(c, pre, [x] + post);
    assert ([x] + post)[1..] == post;
  }

  // ----- what the two complements are for -----

  /** A zero byte in front of a buffer changes its CRC: the register does not start at 0. */
  lemma LeadingZeroCounts(a: seq<bv8>)
    ensures Crc(0, [0] + a) != Crc(0, a)
  {
    OnesAfterByte();
    assert ([0] + a)[0] == 0 && ([0] + a)[1..] == a;
    FoldInjective(Bits8(MASK), MASK, a);
    XorCancel(Fold(Bits8(MASK), a), Fold(MASK, a), MASK);
  }

  lemma OnesAfterByte()
    ensures Xor(0, MASK) == MASK && Xor(MASK, 0) == MASK && Bits8(MASK) != MASK && Is32(MASK) && Is32(Bits8(MASK))
  {
    Bits8OfNonzero(MASK);
    OnesStep();
  }

  /** The `k` low bytes of a register, low byte first. */
  function Bytes(w: bv64, k: nat): seq<bv8>
    decreases k
  {
    if k == 0 then [] else [LowByte(w)] + Bytes(Shift8(w), k - 1)
  }

  function LowByte(w: bv64): bv8 {
    Low8(w) as bv8
  }

  lemma LowByteIs(w: bv64)
    ensures LowByte(w) as bv64 == Low8(w)
  {
  }

  /** Reading the low byte of `w` is reading all of it and leaving the rest in the register. */
  lemma ReadByte(c: bv64, w: bv64)
    ensures Bits8(Xor(c, LowByte(w) as bv64)) == Xor(Bits8(Xor(c, w)), Shift8(w))
  {
    var b, h := Low8(w), High(w);
    LowByteIs(w);
    HighLow(w);
    XorSwap(h, b);
    XorAssoc(c, b, h);
    Bits8Linear(Xor(c, b), h);
    Bits8OfHigh(w);
    XorTwice(Bits8(Xor(c, b)), Shift8(w));
  }

  /** The same with `e` already in the register. */
  lemma ReadByteOnTop(e: bv64, w: bv64)
    ensures Bits8(Xor(Xor(e, w), LowByte(w) as bv64)) == Xor(Bits8(e), Shift8(w))
  {
    ReadByte(Xor(e, w), w);
    XorTwice(e, w);
  }

  /** `k` bytes of clear input. */
  function Steps(c: bv64, k: nat): bv64
    decreases k
  {
    if k == 0 then c else Steps(Bits8(c), k - 1)
  }

  function ShiftBytes(w: bv64, k: nat): bv64
    decreases k
  {
    if k == 0 then w else ShiftBytes(Shift8(w), k - 1)
  }

  /** Reading the bytes of `w` takes it out of the register, byte by byte. */
  lemma {:induction false} ReadBytes(e: bv64, w: bv64, k: nat)
    ensures Fold(Xor(e, w), Bytes(w, k)) == Xor(Steps(e, k), ShiftBytes(w, k))
    decreases k
  {
    if k > 0 {
      ReadByteOnTop(e, w);
      FoldFirst(Xor(e, w), LowByte(w), Bytes(Shift8(w), k - 1));
      ReadBytes(Bits8(e), Shift8(w), k - 1);
    }
  }

  lemma FoldFirst(c: bv64, b: bv8, rest: seq<bv8>)
    ensures Fold(c, [b] + rest) == Fold(Bits8(Xor(c, b as bv64)), rest)
  {
    assert ([b] + rest)[0] == b && ([b] + rest)[1..] == rest;
  }

  lemma FourShifts(w: bv64)
    requires Is32(w)
    ensures ShiftBytes(w, 4) == 0
  {
    var u := Shift8(Shift8(w));
    assert ShiftBytes(w, 4) == ShiftBytes(Shift8(w), 3) == ShiftBytes(u, 2);
    assert ShiftBytes(u, 2) == ShiftBytes(Shift8(u), 1) == ShiftBytes(Shift8(Shift8(u)), 0);
  }

  lemma OnesStep()
    ensures Bits8(MASK) == 0x2DFD1072
  {
    assert Bit(0xFFFFFFFF) == 0x92477CDF && Bit(0x92477CDF) == 0xA49B3D4F;
    assert Bit(0xA49B3D4F) == 0xBFF51D87 && Bit(0xBFF51D87) == 0xB2420DE3;
    assert Bit(0xB2420DE3) == 0xB49985D1 && Bit(0xB49985D1) == 0xB7F441C8;
    assert Bit(0xB7F441C8) == 0x5BFA20E4 && Bit(0x5BFA20E4) == 0x2DFD1072;
  }

  lemma SecondStep()
    ensures Bits8(0x2DFD1072) == 0xBE26ED00
  {
    assert Bit(0x2DFD1072) == 0x16FE8839 && Bit(0x16FE8839) == 0xE6C7C73C;
    assert Bit(0xE6C7C73C) == 0x7363E39E && Bit(0x7363E39E) == 0x39B1F1CF;
    assert Bit(0x39B1F1CF) == 0xF1607BC7 && Bit(0xF1607BC7) == 0x9508BEC3;
    assert Bit(0x9508BEC3) == 0xA73CDC41 && Bit(0xA73CDC41) == 0xBE26ED00;
  }

  lemma ThirdStep()
    ensures Bits8(0xBE26ED00) == 0x00BE26ED
  {
    assert Bit(0xBE26ED00) == 0x5F137680 && Bit(0x5F137680) == 0x2F89BB40;
    assert Bit(0x2F89BB40) == 0x17C4DDA0 && Bit(0x17C4DDA0) == 0x0BE26ED0;
    assert Bit(0x0BE26ED0) == 0x05F13768 && Bit(0x05F13768) == 0x02F89BB4;
    assert Bit(0x02F89BB4) == 0x017C4DDA && Bit(0x017C4DDA) == 0x00BE26ED;
  }

  lemma FourthStep()
    ensures Bits8(0x00BE26ED) == 0xDEBB20E3
  {
    assert Bit(0x00BE26ED) == 0xEDE79056 && Bit(0xEDE79056) == 0x76F3C82B;
    assert Bit(0x76F3C82B) == 0xD6C16735 && Bit(0xD6C16735) == 0x86D830BA;
    assert Bit(0x86D830BA) == 0x436C185D && Bit(0x436C185D) == 0xCC0E8F0E;
    assert Bit(0xCC0E8F0E) == 0x66074787 && Bit(0x66074787) == 0xDEBB20E3;
  }

  lemma OnesSteps()
    ensures Steps(MASK, 4) == 0xDEBB20E3
  {
    OnesStep();
    SecondStep();
    ThirdStep();
    FourthStep();
    assert Steps(0x2DFD1072, 3) == Steps(0xBE26ED00, 2) == Steps(0x00BE26ED, 1) == Steps(0xDEBB20E3, 0);
  }

  /** A buffer followed by its own CRC, low byte first, has one and the same CRC whatever the buffer and the seed. */
  lemma Residue(crc: bv64, a: seq<bv8>)
    requires Is32(crc)
    ensures Crc(crc, a + Bytes(Crc(crc, a), 4)) == 0x2144DF1C
  {
    XorStays32(crc, MASK);
    var f := Fold(Xor(crc, MASK), a);
    FoldStays32(Xor(crc, MASK), a);
    var w := Crc(crc, a);
    XorStays32(f, MASK);
    FoldConcat(Xor(crc, MASK), a, Bytes(w, 4));
    XorTwice(f, MASK);
    XorSwap(w, MASK);
    ReadBytes(MASK, w, 4);
    FourShifts(w);
    OnesSteps();
    assert Xor(0xDEBB20E3, 0) == 0xDEBB20E3 && Xor(0xDEBB20E3, MASK) == 0x2144DF1C;
  }

  /** The CRC of nothing is the seed, and that of a single zero byte is 0xD202EF8D. */
  lemma ShortBuffers(crc: bv64)
    ensures Crc(crc, []) == crc && Crc(0, [0]) == 0xD202EF8D
  {
    XorTwice(crc, MASK);
    OnesAfterByte();
    OnesStep();
    FoldFirst(MASK, 0, []);
    assert [0] + [] == [0];
    assert Xor(0x2DFD1072, MASK) == 0xD202EF8D;
  }
}
