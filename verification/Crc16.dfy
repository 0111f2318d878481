/** The table-driven CRC of crc16.c against division of polynomials by x^16 + x^12 + x^5 + 1, and what it
    detects. */
module Crc16 {

  type Bits = seq<bool>

  // ---------- polynomials over the integers modulo 2, highest power first ----------

  /** The coefficients of x^16 + x^12 + x^5 + 1, counted from x^16. */
  predicate Generator(i: nat) { i == 0 || i == 4 || i == 11 || i == 16 }

  function Xor(s: Bits, t: Bits): (r: Bits)
    requires |s| == |t|
    ensures |r| == |s|
  {
    seq(|s|, i requires 0 <= i < |s| => s[i] != t[i])
  }

  function Zeros(n: nat): Bits { seq(n, _ => false) }

  /** The generator is subtracted from the highest powers. */
  function Subtract(s: Bits): (r: Bits)
    requires |s| > 16
    ensures |r| == |s|
  {
    seq(|s|, i requires 0 <= i < |s| => s[i] != (i <= 16 && Generator(i)))
  }

  /** Long division: the remainder of s by the generator. */
  function Remainder(s: Bits): (r: Bits)
    requires |s| >= 16
    ensures |r| == 16
    decreases |s|
  {
    if |s| == 16 then s else Remainder((if s[0] then Subtract(s) else s)[1..])
  }

  lemma {:induction false} RemainderXor(s: Bits, t: Bits)
    requires |s| == |t| >= 16
    ensures Remainder(Xor(s, t)) == Xor(Remainder(s), Remainder(t))
    decreases |s|
  {
    if |s| > 16 {
      var s', t' := if s[0] then Subtract(s) else s, if t[0] then Subtract(t) else t;
      var u := Xor(s, t);
      assert (if u[0] then Subtract(u) else u)[1..] == Xor(s'[1..], t'[1..]);
      RemainderXor(s'[1..], t'[1..]);
    }
  }

  lemma {:induction false} LeadingZeros(n: nat, s: Bits)
    requires |s| >= 16
    ensures Remainder(Zeros(n) + s) == Remainder(s)
  {
    if n == 0 {
      assert Zeros(0) + s == s;
    } else {
      assert (Zeros(n) + s)[1..] == Zeros(n - 1) + s;
      LeadingZeros(n - 1, s);
    }
  }

  /** The generator has a constant term, so no power of x times a polynomial below x^16 is a multiple of
      it. */
  lemma {:induction false} BurstRemains(w: Bits, n: nat)
    requires |w| == 16 && true in w
    ensures true in Remainder(w + Zeros(n))
    decreases n
  {
    var s := w + Zeros(n);
    if n == 0 {
      assert s == w;
    } else {
      var s' := (if s[0] then Subtract(s) else s)[1..];
      var w' := s'[..16];
      assert s' == w' + Zeros(n - 1);
      if s[0] {
        assert w'[15];
      } else {
        var i :| 0 <= i < 16 && w[i];
        assert w'[i - 1];
      }
      BurstRemains(w', n - 1);
    }
  }

  // ---------- the bits of a message ----------

  /** A byte, as the operand of 16-bit operations. */
  type Byte = b: bv16 | b < 0x100

  /** The i-th bit from the top */
  function Mask(i: nat): bv16
    requires i < 16
  {
    if i == 0 then 0x8000 else if i == 1 then 0x4000 else if i == 2 then 0x2000 else if i == 3 then 0x1000
    else if i == 4 then 0x0800 else if i == 5 then 0x0400 else if i == 6 then 0x0200 else if i == 7 then 0x0100
    else if i == 8 then 0x0080 else if i == 9 then 0x0040 else if i == 10 then 0x0020 else if i == 11 then 0x0010
    else if i == 12 then 0x0008 else if i == 13 then 0x0004 else if i == 14 then 0x0002 else 0x0001
  }

  predicate Hits(w: bv16, mask: bv16) { w & mask != 0 }

  predicate Bit(w: bv16, i: nat)
    requires i < 16
  {
    Hits(w, Mask(i))
  }

  function WordBits(w: bv16): (r: Bits)
    ensures |r| == 16 && forall i: nat | i < 16 :: r[i] == Bit(w, i)
  {
    seq(16, i requires 0 <= i < 16 => Bit(w, i))
  }

  function ByteBits(b: Byte): (r: Bits)
    ensures |r| == 8 && forall i: nat | i < 8 :: r[i] == Bit(b, 8 + i)
  {
    seq(8, i requires 0 <= i < 8 => Bit(b, 8 + i))
  }

  function MessageBits(m: seq<Byte>): (r: Bits)
    ensures |r| == 8 * |m|
  {
    if m == [] then [] else MessageBits(m[..|m| - 1]) + ByteBits(m[|m| - 1])
  }

  // ---------- the shift register ----------

  function ShiftZero(c: bv16): bv16 {
    if Hits(c, 0x8000) then (c << 1) ^ 0x1021 else c << 1
  }

  function ShiftIn(c: bv16, bit: bool): bv16 {
    ShiftZero(if bit then c ^ 0x8000 else c)
  }

  function Register(bits: Bits): bv16 {
    if bits == [] then 0 else ShiftIn(Register(bits[..|bits| - 1]), bits[|bits| - 1])
  }

  /** The register, laid over what is still to be divided. */
  function Overlay(c: bv16, s: Bits): (r: Bits)
    requires |s| >= 16
    ensures |r| == |s|
  {
    seq(|s|, i requires 0 <= i < |s| => s[i] != (i < 16 && WordBits(c)[i]))
  }

  lemma MaskIs(i: nat)
    requires i < 16
    ensures Mask(i) & (Mask(i) - 1) == 0 && Mask(i) != 0 && Mask(i) >> 1 == if i < 15 then Mask(i + 1) else 0
    ensures Hits(0x1021, Mask(i)) <==> Generator(i + 1)
  {
  }

  lemma HitsShifted(c: bv16, m: bv16)
    ensures Hits(c << 1, m) <==> Hits(c, m >> 1)
    ensures !Hits(c, 0)
  {
  }

  lemma HitsXor(x: bv16, y: bv16, m: bv16)
    requires m & (m - 1) == 0 && m != 0
    ensures Hits(x ^ y, m) <==> (Hits(x, m) != Hits(y, m))
  {
  }

  lemma ShiftZeroBit(c: bv16, i: nat)
    requires i < 16
    ensures Bit(ShiftZero(c), i) == ((i < 15 && Bit(c, i + 1)) != (Bit(c, 0) && Generator(i + 1)))
  {
    MaskIs(i);
    assert Mask(0) == 0x8000;
    hide Mask, Hits, Generator;
    HitsShifted(c, Mask(i));
    HitsXor(c << 1, 0x1021, Mask(i));
  }

  lemma TopBit(c: bv16, i: nat)
    requires i < 16
    ensures Bit(c ^ 0x8000, i) == (Bit(c, i) != (i == 0))
  {
    MaskIs(i);
    assert Hits(0x8000, Mask(i)) <==> i == 0;
    hide Mask, Hits, Generator;
    HitsXor(c, 0x8000, Mask(i));
  }

  lemma ShiftInBit(c: bv16, bit: bool, i: nat)
    requires i < 16
    ensures Bit(ShiftIn(c, bit), i) == ((i < 15 && Bit(c, i + 1)) != ((Bit(c, 0) != bit) && Generator(i + 1)))
  {
    TopBit(c, 0);
    if i < 15 {
      TopBit(c, i + 1);
    }
    ShiftZeroBit(if bit then c ^ 0x8000 else c, i);
    hide Bit, ShiftZero;
  }

  lemma OneBit(c: bv16, s: Bits)
    requires |s| > 16
    ensures Remainder(Overlay(c, s)) == Remainder(Overlay(ShiftIn(c, s[0]), s[1..]))
  {
    hide Bit, WordBits, ShiftIn;
    var d, c' := Overlay(c, s), ShiftIn(c, s[0]);
    var w, w' := WordBits(c), WordBits(c');
    assert w[0] == Bit(c, 0);
    var left, right := (if d[0] then Subtract(d) else d)[1..], Overlay(c', s[1..]);
    forall i: nat | i < |s| - 1
      ensures left[i] == right[i]
    {
      if i < 16 {
        ShiftInBit(c, s[0], i);
      }
    }
    assert left == right;
  }

  /** The shift register divides: after all bits it holds the remainder of the message times x^16. */
  lemma RegisterDivides(bits: Bits)
    ensures WordBits(Register(bits)) == Remainder(bits + Zeros(16))
  {
    hide Bit, WordBits, ShiftIn, Remainder;
    var s := bits + Zeros(16);
    var k := 0;
    ZeroWord();
    assert bits[..0] == [] && s[0..] == s;
    assert Overlay(0, s) == s;
    while k < |bits|
      invariant 0 <= k <= |bits| && Remainder(s) == Remainder(Overlay(Register(bits[..k]), s[k..]))
    {
      OneBit(Register(bits[..k]), s[k..]);
      assert bits[..k + 1][..k] == bits[..k];
      k := k + 1;
    }
    assert bits[..k] == bits;
    var c := Register(bits);
    assert Overlay(c, s[k..]) == WordBits(c);
    Undivided(WordBits(c));
  }

  lemma ZeroWord()
    ensures WordBits(0) == Zeros(16)
  {
  }

  lemma Undivided(s: Bits)
    requires |s| == 16
    ensures Remainder(s) == s
  {
  }

  // ---------- byte by byte, with the table ----------

  const CRC_TABLE: seq<seq<bv16>> := [
    [0x0000, 0x1021, 0x2042, 0x3063, 0x4084, 0x50a5, 0x60c6, 0x70e7],
    [0x8108, 0x9129, 0xa14a, 0xb16b, 0xc18c, 0xd1ad, 0xe1ce, 0xf1ef],
    [0x1231, 0x0210, 0x3273, 0x2252, 0x52b5, 0x4294, 0x72f7, 0x62d6],
    [0x9339, 0x8318, 0xb37b, 0xa35a, 0xd3bd, 0xc39c, 0xf3ff, 0xe3de],
    [0x2462, 0x3443, 0x0420, 0x1401, 0x64e6, 0x74c7, 0x44a4, 0x5485],
    [0xa56a, 0xb54b, 0x8528, 0x9509, 0xe5ee, 0xf5cf, 0xc5ac, 0xd58d],
    [0x3653, 0x2672, 0x1611, 0x0630, 0x76d7, 0x66f6, 0x5695, 0x46b4],
    [0xb75b, 0xa77a, 0x9719, 0x8738, 0xf7df, 0xe7fe, 0xd79d, 0xc7bc],
    [0x48c4, 0x58e5, 0x6886, 0x78a7, 0x0840, 0x1861, 0x2802, 0x3823],
    [0xc9cc, 0xd9ed, 0xe98e, 0xf9af, 0x8948, 0x9969, 0xa90a, 0xb92b],
    [0x5af5, 0x4ad4, 0x7ab7, 0x6a96, 0x1a71, 0x0a50, 0x3a33, 0x2a12],
    [0xdbfd, 0xcbdc, 0xfbbf, 0xeb9e, 0x9b79, 0x8b58, 0xbb3b, 0xab1a],
    [0x6ca6, 0x7c87, 0x4ce4, 0x5cc5, 0x2c22, 0x3c03, 0x0c60, 0x1c41],
    [0xedae, 0xfd8f, 0xcdec, 0xddcd, 0xad2a, 0xbd0b, 0x8d68, 0x9d49],
    [0x7e97, 0x6eb6, 0x5ed5, 0x4ef4, 0x3e13, 0x2e32, 0x1e51, 0x0e70],
    [0xff9f, 0xefbe, 0xdfdd, 0xcffc, 0xbf1b, 0xaf3a, 0x9f59, 0x8f78],
    [0x9188, 0x81a9, 0xb1ca, 0xa1eb, 0xd10c, 0xc12d, 0xf14e, 0xe16f],
    [0x1080, 0x00a1, 0x30c2, 0x20e3, 0x5004, 0x4025, 0x7046, 0x6067],
    [0x83b9, 0x9398, 0xa3fb, 0xb3da, 0xc33d, 0xd31c, 0xe37f, 0xf35e],
    [0x02b1, 0x1290, 0x22f3, 0x32d2, 0x4235, 0x5214, 0x6277, 0x7256],
    [0xb5ea, 0xa5cb, 0x95a8, 0x8589, 0xf56e, 0xe54f, 0xd52c, 0xc50d],
    [0x34e2, 0x24c3, 0x14a0, 0x0481, 0x7466, 0x6447, 0x5424, 0x4405],
    [0xa7db, 0xb7fa, 0x8799, 0x97b8, 0xe75f, 0xf77e, 0xc71d, 0xd73c],
    [0x26d3, 0x36f2, 0x0691, 0x16b0, 0x6657, 0x7676, 0x4615, 0x5634],
    [0xd94c, 0xc96d, 0xf90e, 0xe92f, 0x99c8, 0x89e9, 0xb98a, 0xa9ab],
    [0x5844, 0x4865, 0x7806, 0x6827, 0x18c0, 0x08e1, 0x3882, 0x28a3],
    [0xcb7d, 0xdb5c, 0xeb3f, 0xfb1e, 0x8bf9, 0x9bd8, 0xabbb, 0xbb9a],
    [0x4a75, 0x5a54, 0x6a37, 0x7a16, 0x0af1, 0x1ad0, 0x2ab3, 0x3a92],
    [0xfd2e, 0xed0f, 0xdd6c, 0xcd4d, 0xbdaa, 0xad8b, 0x9de8, 0x8dc9],
    [0x7c26, 0x6c07, 0x5c64, 0x4c45, 0x3ca2, 0x2c83, 0x1ce0, 0x0cc1],
    [0xef1f, 0xff3e, 0xcf5d, 0xdf7c, 0xaf9b, 0xbfba, 0x8fd9, 0x9ff8],
    [0x6e17, 0x7e36, 0x4e55, 0x5e74, 0x2e93, 0x3eb2, 0x0ed1, 0x1ef0]
  ]

  /** crc16tab[i] */
  function Lookup(i: Byte): bv16 { CRC_TABLE[i >> 3][i & 7] }

  /** What eight shifts make of a byte at the top of the register. */
  function Entry(i: Byte): bv16 {
    ShiftZero(ShiftZero(ShiftZero(ShiftZero(ShiftZero(ShiftZero(ShiftZero(ShiftZero(i << 8))))))))
  }

  /** Every entry of the table is right. */
  lemma TableRight(i: Byte)
    ensures Lookup(i) == Entry(i)
  {
    hide Lookup, Entry;
    if i < 0x80 {
      if i < 0x20 {
        Rows0(i);
      } else if i < 0x40 {
        Rows4(i);
      } else if i < 0x60 {
        Rows8(i);
      } else {
        Rows12(i);
      }
    } else if i < 0xa0 {
      Rows16(i);
    } else if i < 0xc0 {
      Rows20(i);
    } else if i < 0xe0 {
      Rows24(i);
    } else {
      Rows28(i);
    }
  }

  lemma Rows0(i: Byte)
    requires 0x00 <= i < 0x20
    ensures Lookup(i) == Entry(i)
  {
  }

  lemma Rows4(i: Byte)
    requires 0x20 <= i < 0x40
    ensures Lookup(i) == Entry(i)
  {
  }

  lemma Rows8(i: Byte)
    requires 0x40 <= i < 0x60
    ensures Lookup(i) == Entry(i)
  {
  }

  lemma Rows12(i: Byte)
    requires 0x60 <= i < 0x80
    ensures Lookup(i) == Entry(i)
  {
  }

  lemma Rows16(i: Byte)
    requires 0x80 <= i < 0xa0
    ensures Lookup(i) == Entry(i)
  {
  }

  lemma Rows20(i: Byte)
    requires 0xa0 <= i < 0xc0
    ensures Lookup(i) == Entry(i)
  {
  }

  lemma Rows24(i: Byte)
    requires 0xc0 <= i < 0xe0
    ensures Lookup(i) == Entry(i)
  {
  }

  lemma Rows28(i: Byte)
    requires 0xe0 <= i < 0x100
    ensures Lookup(i) == Entry(i)
  {
  }

  function ShiftByte(c: bv16, b: Bits): bv16
    requires |b| == 8
  {
    ShiftIn(ShiftIn(ShiftIn(ShiftIn(ShiftIn(ShiftIn(ShiftIn(ShiftIn(c, b[0]), b[1]), b[2]), b[3]), b[4]), b[5]),
        b[6]), b[7])
  }

  lemma OneByte(c: bv16, b: Bits, s: Bits)
    requires |b| == 8 && |s| >= 16
    ensures Remainder(Overlay(c, b + s)) == Remainder(Overlay(ShiftByte(c, b), s))
  {
    hide Remainder, Overlay, ShiftIn;
    var t, k, d := b + s, 0, c;
    OneBit(d, t);
    d := ShiftIn(d, t[0]);
    OneBit(d, t[1..]);
    d := ShiftIn(d, t[1]);
    assert t[1..][1..] == t[2..];
    OneBit(d, t[2..]);
    d := ShiftIn(d, t[2]);
    assert t[2..][1..] == t[3..];
    OneBit(d, t[3..]);
    d := ShiftIn(d, t[3]);
    assert t[3..][1..] == t[4..];
    OneBit(d, t[4..]);
    d := ShiftIn(d, t[4]);
    assert t[4..][1..] == t[5..];
    OneBit(d, t[5..]);
    d := ShiftIn(d, t[5]);
    assert t[5..][1..] == t[6..];
    OneBit(d, t[6..]);
    d := ShiftIn(d, t[6]);
    assert t[6..][1..] == t[7..];
    OneBit(d, t[7..]);
    assert t[7..][1..] == s;
  }

  lemma NoBits(d: bv16)
    requires d & 0x8000 == 0 && d & 0x4000 == 0 && d & 0x2000 == 0 && d & 0x1000 == 0
    requires d & 0x0800 == 0 && d & 0x0400 == 0 && d & 0x0200 == 0 && d & 0x0100 == 0
    requires d & 0x0080 == 0 && d & 0x0040 == 0 && d & 0x0020 == 0 && d & 0x0010 == 0
    requires d & 0x0008 == 0 && d & 0x0004 == 0 && d & 0x0002 == 0 && d & 0x0001 == 0
    ensures d == 0
  {
  }

  lemma SameBit(x: bv16, y: bv16, i: nat)
    requires i < 16 && Bit(x, i) == Bit(y, i)
    ensures (x ^ y) & Mask(i) == 0
  {
    MaskIs(i);
    HitsXor(x, y, Mask(i));
  }

  lemma XorZero(x: bv16, y: bv16)
    requires x ^ y == 0
    ensures x == y
  {
  }

  lemma SameBits(x: bv16, y: bv16)
    requires WordBits(x) == WordBits(y)
    ensures x == y
  {
    forall i: nat | i < 16
      ensures (x ^ y) & Mask(i) == 0
    {
      assert WordBits(x)[i] == WordBits(y)[i];
      SameBit(x, y, i);
    }
    AllMasks(x ^ y);
    XorZero(x, y);
  }

  lemma AllMasks(d: bv16)
    requires forall i: nat | i < 16 :: d & Mask(i) == 0
    ensures d == 0
  {
    assert d & Mask(0) == 0 && d & Mask(1) == 0 && d & Mask(2) == 0 && d & Mask(3) == 0;
    assert d & Mask(4) == 0 && d & Mask(5) == 0 && d & Mask(6) == 0 && d & Mask(7) == 0;
    assert d & Mask(8) == 0 && d & Mask(9) == 0 && d & Mask(10) == 0 && d & Mask(11) == 0;
    assert d & Mask(12) == 0 && d & Mask(13) == 0 && d & Mask(14) == 0 && d & Mask(15) == 0;
    NoBits(d);
  }

  lemma MaskEight(i: nat)
    requires i < 16
    ensures Mask(i) >> 8 == if i < 8 then Mask(i + 8) else 0
    ensures i >= 8 ==> Mask(i) << 8 == Mask(i - 8)
  {
  }

  lemma HitsByte(c: bv16, m: bv16)
    ensures Hits(c << 8, m) <==> Hits(c, m >> 8)
    ensures Hits(c >> 8, m) <==> Hits(c, m << 8)
    ensures !Hits(c, 0)
  {
  }

  lemma UpEight(c: bv16, i: nat)
    requires i < 16
    ensures Bit(c << 8, i) == (i < 8 && Bit(c, i + 8))
  {
    MaskEight(i);
    hide Hits, Mask;
    HitsByte(c, Mask(i));
  }

  lemma TopByte(c: bv16, b: Byte, i: nat)
    requires i < 8
    ensures (c >> 8) ^ b < 0x100 && Bit((c >> 8) ^ b, 8 + i) == (Bit(c, i) != Bit(b, 8 + i))
  {
    MaskIs(8 + i);
    MaskEight(8 + i);
    hide Hits, Mask;
    HitsByte(c, Mask(8 + i));
    HitsXor(c >> 8, b, Mask(8 + i));
  }

  lemma XorBits(x: bv16, y: bv16)
    ensures WordBits(x ^ y) == Xor(WordBits(x), WordBits(y))
  {
    forall i: nat | i < 16
      ensures Bit(x ^ y, i) == (Bit(x, i) != Bit(y, i))
    {
      MaskIs(i);
      HitsXor(x, y, Mask(i));
    }
  }

  lemma ZeroShifts(c: bv16)
    ensures ShiftByte(c, Zeros(8))
            == ShiftZero(ShiftZero(ShiftZero(ShiftZero(ShiftZero(ShiftZero(ShiftZero(ShiftZero(c))))))))
  {
  }

  /** What a table entry is: the remainder of its index times x^16. */
  lemma EntryDivides(i: Byte)
    ensures WordBits(Lookup(i)) == Remainder(ByteBits(i) + Zeros(16))
  {
    TableRight(i);
    hide Bit, Lookup;
    ZeroShifts(i << 8);
    OneByte(i << 8, Zeros(8), Zeros(16));
    hide ShiftZero, ShiftByte, Entry, Remainder;
    var w, b, z := WordBits(i << 8), ByteBits(i), Zeros(8) + Zeros(16);
    forall k: nat | k < 16
      ensures w[k] == (k < 8 && b[k])
    {
      UpEight(i, k);
    }
    assert Overlay(i << 8, z) == b + Zeros(16);
    Overlaid(Lookup(i));
  }

  lemma Overlaid(c: bv16)
    ensures Remainder(Overlay(c, Zeros(16))) == WordBits(c)
  {
    var w := WordBits(c);
    assert Overlay(c, Zeros(16)) == w;
    Undivided(w);
  }

  lemma HighBits(c: bv16, b: Byte, k: nat)
    requires k < 16
    ensures (c >> 8) ^ b < 0x100
    ensures WordBits(c << 8)[k] == (k < 8 && WordBits(c)[k + 8])
    ensures k < 8 ==> ByteBits((c >> 8) ^ b)[k] == (WordBits(c)[k] != ByteBits(b)[k])
  {
    TopByte(c, b, if k < 8 then k else 0);
    hide Bit;
    UpEight(c, k);
  }

  /** The register over a byte is the sum of a byte at its top and of its lower half. */
  lemma OverlayByte(c: bv16, b: Byte)
    ensures (c >> 8) ^ b < 0x100
    ensures Overlay(c, ByteBits(b) + Zeros(16)) == Xor(ByteBits((c >> 8) ^ b) + Zeros(16), Zeros(8) + WordBits(c << 8))
  {
    HighBits(c, b, 0);
    hide Bit, WordBits, ByteBits;
    var i: Byte := (c >> 8) ^ b;
    var bits, top, w, u := ByteBits(b), ByteBits(i), WordBits(c), WordBits(c << 8);
    forall k: nat | k < 16
      ensures u[k] == (k < 8 && w[k + 8])
      ensures k < 8 ==> top[k] == (w[k] != bits[k])
    {
      HighBits(c, b, k);
    }
    Overlapped(w, bits, top, u);
    OverlayIs(c, bits + Zeros(16));
  }

  lemma OverlayIs(c: bv16, s: Bits)
    requires |s| >= 16
    ensures Overlay(c, s) == Xor(s, WordBits(c) + Zeros(|s| - 16))
  {
    var w := WordBits(c);
    hide Bit;
    assert Overlay(c, s) == Xor(s, w + Zeros(|s| - 16));
  }

  lemma Overlapped(w: Bits, bits: Bits, top: Bits, u: Bits)
    requires |w| == |u| == 16 && |bits| == |top| == 8
    requires forall k: nat | k < 16 :: u[k] == (k < 8 && w[k + 8])
    requires forall k: nat | k < 8 :: top[k] == (w[k] != bits[k])
    ensures Xor(bits + Zeros(16), w + Zeros(8)) == Xor(top + Zeros(16), Zeros(8) + u)
  {
  }

  lemma FromBits(x: bv16, y: bv16, z: bv16)
    requires WordBits(x) == Xor(WordBits(y), WordBits(z))
    ensures x == y ^ z
  {
    hide WordBits, Xor;
    XorBits(y, z);
    SameBits(x, y ^ z);
  }

  lemma AddUp(x: bv16, e: bv16, low: bv16, s: Bits, t: Bits)
    requires |s| == |t| == 24 && WordBits(x) == Remainder(Xor(s, t))
    requires WordBits(e) == Remainder(s) && WordBits(low) == Remainder(t)
    ensures x == e ^ low
  {
    hide WordBits, Xor, Remainder;
    RemainderXor(s, t);
    FromBits(x, e, low);
  }

  /** One round of the loop of crc16_ccitt shifts in the eight bits of a byte. */
  lemma ByteStep(c: bv16, b: Byte)
    ensures (c >> 8) ^ b < 0x100 && ShiftByte(c, ByteBits(b)) == (c << 8) ^ Lookup((c >> 8) ^ b)
  {
    hide Overlay, ShiftByte, Lookup, Xor, WordBits, ByteBits;
    OverlayByte(c, b);
    var i: Byte, low, x := (c >> 8) ^ b, c << 8, ShiftByte(c, ByteBits(b));
    ByteSum(c, b, i, low);
    XorSwap(Lookup(i), low);
  }

  lemma XorSwap(x: bv16, y: bv16)
    ensures x ^ y == y ^ x
  {
  }

  lemma ByteSum(c: bv16, b: Byte, i: Byte, low: bv16)
    requires Overlay(c, ByteBits(b) + Zeros(16)) == Xor(ByteBits(i) + Zeros(16), Zeros(8) + WordBits(low))
    ensures ShiftByte(c, ByteBits(b)) == Lookup(i) ^ low
  {
    hide Bit, Lookup, ShiftByte, Remainder, Overlay, Xor, WordBits;
    var x := ShiftByte(c, ByteBits(b));
    OneByte(c, ByteBits(b), Zeros(16));
    Overlaid(x);
    EntryDivides(i);
    LeadingZeros(8, WordBits(low));
    Undivided(WordBits(low));
    AddUp(x, Lookup(i), low, ByteBits(i) + Zeros(16), Zeros(8) + WordBits(low));
  }

  lemma {:induction false} RegisterByte(bits: Bits, b: Bits)
    requires |b| == 8
    ensures Register(bits + b) == ShiftByte(Register(bits), b)
  {
    var s := bits + b;
    var n := |bits|;
    assert s[..n] == bits;
    assert s[..n + 1][..n] == s[..n] && s[..n + 2][..n + 1] == s[..n + 1] && s[..n + 3][..n + 2] == s[..n + 2];
    assert s[..n + 4][..n + 3] == s[..n + 3] && s[..n + 5][..n + 4] == s[..n + 4] && s[..n + 6][..n + 5] == s[..n + 5];
    assert s[..n + 7][..n + 6] == s[..n + 6] && s[..n + 8][..n + 7] == s[..n + 7] && s[..n + 8] == s;
    hide ShiftIn;
    assert Register(s[..n + 1]) == ShiftIn(Register(s[..n]), b[0]);
    assert Register(s[..n + 2]) == ShiftIn(Register(s[..n + 1]), b[1]);
    assert Register(s[..n + 3]) == ShiftIn(Register(s[..n + 2]), b[2]);
    assert Register(s[..n + 4]) == ShiftIn(Register(s[..n + 3]), b[3]);
    assert Register(s[..n + 5]) == ShiftIn(Register(s[..n + 4]), b[4]);
    assert Register(s[..n + 6]) == ShiftIn(Register(s[..n + 5]), b[5]);
    assert Register(s[..n + 7]) == ShiftIn(Register(s[..n + 6]), b[6]);
  }

  /** The CRC of a message, and what it is: the remainder of the message times x^16. */
  function Crc(m: seq<Byte>): bv16 { Register(MessageBits(m)) }

  lemma CrcDivides(m: seq<Byte>)
    ensures WordBits(Crc(m)) == Remainder(MessageBits(m) + Zeros(16))
  {
    RegisterDivides(MessageBits(m));
  }

  /** crc16_ccitt, for the first len bytes of buf. */
  method Crc16Ccitt(buf: seq<Byte>, len: nat) returns (crc: bv16)
    requires len <= |buf|
    ensures crc == Crc(buf[..len])
  {
    hide Lookup, ShiftByte, MessageBits, ByteBits, WordBits;
    crc := 0;
    EmptyMessage(buf[..0]);
    for counter := 0 to len
      invariant crc == Crc(buf[..counter])
    {
      NextByte(buf[..counter + 1]);
      assert buf[..counter + 1][..counter] == buf[..counter];
      var b := buf[counter];
      ByteStep(crc, b);
      IndexMasked(crc, b);
      crc := (crc << 8) ^ Lookup(((crc >> 8) ^ b) & 0x00ff);
    }
  }

  lemma EmptyMessage(m: seq<Byte>)
    requires m == []
    ensures Crc(m) == 0
  {
  }

  lemma NextByte(m: seq<Byte>)
    requires m != []
    ensures Crc(m) == ShiftByte(Crc(m[..|m| - 1]), ByteBits(m[|m| - 1]))
  {
    RegisterByte(MessageBits(m[..|m| - 1]), ByteBits(m[|m| - 1]));
  }

  lemma IndexMasked(c: bv16, b: Byte)
    ensures ((c >> 8) ^ b) & 0x00ff < 0x100 && ((c >> 8) ^ b) & 0x00ff == (c >> 8) ^ b
  {
  }

  // ---------- what the CRC detects ----------

  function XorBytes(a: seq<Byte>, b: seq<Byte>): (r: seq<Byte>)
    requires |a| == |b|
    ensures |r| == |a|
  {
    if a == [] then [] else XorBytes(a[..|a| - 1], b[..|b| - 1]) + [XorByte(a[|a| - 1], b[|b| - 1])]
  }

  function XorByte(x: Byte, y: Byte): Byte { x ^ y }

  lemma XorBit(x: bv16, y: bv16, i: nat)
    requires i < 16
    ensures Bit(x ^ y, i) == (Bit(x, i) != Bit(y, i))
  {
    hide Bit;
    XorBits(x, y);
    var u, v, w := WordBits(x ^ y), WordBits(x), WordBits(y);
    assert u[i] == Xor(v, w)[i];
  }

  lemma XorByteBits(x: Byte, y: Byte)
    ensures ByteBits(XorByte(x, y)) == Xor(ByteBits(x), ByteBits(y))
  {
    var l, r := ByteBits(XorByte(x, y)), Xor(ByteBits(x), ByteBits(y));
    hide Bit;
    forall i: nat | i < 8
      ensures l[i] == r[i]
    {
      XorBit(x, y, 8 + i);
    }
    assert l == r;
  }

  lemma {:induction false} XorMessageBits(a: seq<Byte>, b: seq<Byte>)
    requires |a| == |b|
    ensures MessageBits(XorBytes(a, b)) == Xor(MessageBits(a), MessageBits(b))
  {
    hide ByteBits, XorByte;
    if a != [] {
      XorMessageBits(a[..|a| - 1], b[..|b| - 1]);
      XorByteBits(a[|a| - 1], b[|b| - 1]);
    }
  }

  /** The CRC of a sum is the sum of the CRCs. */
  lemma CrcLinear(a: seq<Byte>, b: seq<Byte>)
    requires |a| == |b|
    ensures Crc(XorBytes(a, b)) == Crc(a) ^ Crc(b)
  {
    hide Remainder, WordBits, MessageBits, Crc;
    CrcDivides(a);
    CrcDivides(b);
    CrcDivides(XorBytes(a, b));
    XorMessageBits(a, b);
    var s, t := MessageBits(a) + Zeros(16), MessageBits(b) + Zeros(16);
    assert MessageBits(XorBytes(a, b)) + Zeros(16) == Xor(s, t);
    RemainderXor(s, t);
    FromBits(Crc(XorBytes(a, b)), Crc(a), Crc(b));
  }

  function TwoBytes(hi: Byte, lo: Byte): bv16 { ((hi as bv16) << 8) + (lo as bv16) }

  /** The CRC branch of check in xmodem.c: the last two bytes of the frame are the CRC of the others, high
      byte first. */
  predicate CrcMatches(frame: seq<Byte>)
    requires |frame| >= 2
  {
    var sz := |frame| - 2;
    Crc(frame[..sz]) == TwoBytes(frame[sz], frame[sz + 1])
  }

  lemma SumIsXor(hi: Byte, lo: Byte)
    ensures TwoBytes(hi, lo) == ((hi as bv16) << 8) ^ lo
  {
  }

  lemma SentBit(hi: Byte, lo: Byte, i: nat)
    requires i < 16
    ensures Bit(TwoBytes(hi, lo), i) == if i < 8 then Bit(hi, 8 + i) else Bit(lo, i)
  {
    SumIsXor(hi, lo);
    hide TwoBytes, Bit;
    XorBit((hi as bv16) << 8, lo, i);
    UpEight(hi as bv16, i);
    if i < 8 {
      HighClear(lo, i);
    }
  }

  lemma SentCrc(hi: Byte, lo: Byte)
    ensures WordBits(TwoBytes(hi, lo)) == ByteBits(hi) + ByteBits(lo)
  {
    hide Bit, TwoBytes;
    var l, r := WordBits(TwoBytes(hi, lo)), ByteBits(hi) + ByteBits(lo);
    forall i: nat | i < 16
      ensures l[i] == r[i]
    {
      SentBit(hi, lo, i);
    }
    assert l == r;
  }

  lemma HighClear(lo: Byte, i: nat)
    requires i < 8
    ensures !Bit(lo, i)
  {
  }

  /** A message with its CRC behind it. */
  function Framed(m: seq<Byte>): (f: seq<Byte>)
    ensures |f| == |m| + 2
  {
    m + [HighByte(Crc(m)), LowByte(Crc(m))]
  }

  function HighByte(c: bv16): Byte { c >> 8 }

  function LowByte(c: bv16): Byte { c & 0xff }

  lemma BytesBack(c: bv16)
    ensures TwoBytes(HighByte(c), LowByte(c)) == c
  {
  }

  /** check accepts every correctly framed message. */
  lemma FramedMatches(m: seq<Byte>)
    ensures CrcMatches(Framed(m))
  {
    hide Crc, TwoBytes, HighByte, LowByte;
    BytesBack(Crc(m));
    assert Framed(m)[..|m|] == m;
  }

  lemma LastTwo(frame: seq<Byte>)
    requires |frame| >= 2
    ensures var sz := |frame| - 2;
            MessageBits(frame) == MessageBits(frame[..sz]) + (ByteBits(frame[sz]) + ByteBits(frame[sz + 1]))
  {
    hide ByteBits;
    var sz := |frame| - 2;
    assert frame[..sz + 1][..sz] == frame[..sz];
  }

  lemma FrameBits(frame: seq<Byte>)
    requires |frame| >= 2
    ensures var sz := |frame| - 2;
            MessageBits(frame) == MessageBits(frame[..sz]) + WordBits(TwoBytes(frame[sz], frame[sz + 1]))
  {
    hide WordBits, Bit, ByteBits, TwoBytes, MessageBits;
    LastTwo(frame);
    SentCrc(frame[|frame| - 2], frame[|frame| - 1]);
  }

  /** Putting 16 bits where x^16 had left zeros adds them to the remainder. */
  lemma RemainderOfFrame(m: Bits, s: Bits)
    requires |s| == 16
    ensures Remainder(m + s) == Xor(Remainder(m + Zeros(16)), s)
  {
    hide Remainder;
    var left, right := m + Zeros(16), Zeros(|m|) + s;
    assert m + s == Xor(left, right);
    RemainderXor(left, right);
    LeadingZeros(|m|, s);
    Undivided(s);
  }

  /** check accepts a frame exactly when the generator divides it. */
  lemma MatchesDivides(frame: seq<Byte>)
    requires |frame| >= 2
    ensures CrcMatches(frame) <==> Remainder(MessageBits(frame)) == Zeros(16)
  {
    hide Remainder, WordBits, Crc, MessageBits, TwoBytes, Xor, Zeros;
    var sz := |frame| - 2;
    var crc, sent := Crc(frame[..sz]), TwoBytes(frame[sz], frame[sz + 1]);
    CrcDivides(frame[..sz]);
    FrameBits(frame);
    RemainderOfFrame(MessageBits(frame[..sz]), WordBits(sent));
    XorZeros(WordBits(crc), WordBits(sent));
    if WordBits(crc) == WordBits(sent) {
      SameBits(crc, sent);
    }
  }

  lemma XorZeros(s: Bits, t: Bits)
    requires |s| == |t|
    ensures Xor(s, t) == Zeros(|s|) <==> s == t
  {
    if Xor(s, t) == Zeros(|s|) {
      forall i | 0 <= i < |s|
        ensures s[i] == t[i]
      {
        assert !Xor(s, t)[i];
      }
    }
  }

  /** The frames differ, but only within 16 consecutive bits. */
  ghost predicate Burst(f: seq<Byte>, g: seq<Byte>, at: nat) {
    && |f| == |g| && at + 16 <= 8 * |f| && f != g
    && forall i | 0 <= i < 8 * |f| && !(at <= i < at + 16) :: MessageBits(f)[i] == MessageBits(g)[i]
  }

  lemma {:induction false} BitsDiffer(f: seq<Byte>, g: seq<Byte>)
    requires |f| == |g| && MessageBits(f) == MessageBits(g)
    ensures f == g
  {
    if f != [] {
      var n := |f| - 1;
      assert MessageBits(f)[..8 * n] == MessageBits(f[..n]) && MessageBits(g)[..8 * n] == MessageBits(g[..n]);
      assert MessageBits(f)[8 * n..] == ByteBits(f[n]) && MessageBits(g)[8 * n..] == ByteBits(g[n]);
      BitsDiffer(f[..n], g[..n]);
      SameByte(f[n], g[n]);
    }
  }

  lemma SameByte(x: Byte, y: Byte)
    requires ByteBits(x) == ByteBits(y)
    ensures x == y
  {
    var u, v := WordBits(x), WordBits(y);
    forall i: nat | i < 16
      ensures u[i] == v[i]
    {
      if i < 8 {
        HighClear(x, i);
        HighClear(y, i);
      } else {
        assert ByteBits(x)[i - 8] == ByteBits(y)[i - 8];
      }
    }
    SameBits(x, y);
  }

  /** A frame that check accepts is not accepted again after any damage within 16 consecutive bits. */
  lemma BurstDetected(f: seq<Byte>, g: seq<Byte>, at: nat)
    requires |f| >= 2 && CrcMatches(f) && Burst(f, g, at)
    ensures !CrcMatches(g)
  {
    hide Remainder, CrcMatches, MessageBits;
    MatchesDivides(f);
    MatchesDivides(g);
    var s, t := MessageBits(f), MessageBits(g);
    var e := Xor(s, t);
    var w, n := e[at..at + 16], |s| - at - 16;
    assert e == Zeros(at) + (w + Zeros(n));
    LeadingZeros(at, w + Zeros(n));
    if true !in w {
      assert forall i | 0 <= i < |s| :: s[i] == t[i] by {
        forall i | at <= i < at + 16
          ensures s[i] == t[i]
        {
          assert w[i - at] == e[i];
        }
      }
      assert s == t;
      BitsDiffer(f, g);
      assert false;
    }
    BurstRemains(w, n);
    RemainderXor(s, t);
    XorZeros(Remainder(s), Remainder(t));
  }
}
