/** memcpy by words (memcpy.c), as configured: little endian, indexed copies, 4-byte words. */
module Memcpy {
  import opened Wrappers

  // ---------- 32-bit words as their bytes, least significant first ----------

  datatype Word = Word(b0: Byte, b1: Byte, b2: Byte, b3: Byte) {
    function At(i: nat): Byte
      requires i < 4
    {
      if i == 0 then b0 else if i == 1 then b1 else if i == 2 then b2 else b3
    }

    function Value(): nat { b0 + b1 * 0x100 + b2 * 0x1_0000 + b3 * 0x100_0000 }
  }

  /** w >> (8 * k) */
  function ShiftRight(w: Word, k: nat): Word
    requires 1 <= k <= 3
  {
    if k == 1 then Word(w.b1, w.b2, w.b3, 0) else if k == 2 then Word(w.b2, w.b3, 0, 0) else Word(w.b3, 0, 0, 0)
  }

  /** w << (8 * k) */
  function ShiftLeft(w: Word, k: nat): Word
    requires 1 <= k <= 3
  {
    if k == 1 then Word(0, w.b0, w.b1, w.b2) else if k == 2 then Word(0, 0, w.b0, w.b1) else Word(0, 0, 0, w.b0)
  }

  /** The lowest n bits of x | y */
  function OrBits(x: nat, y: nat, n: nat): (r: nat) {
    if n == 0 then 0 else 2 * OrBits(x / 2, y / 2, n - 1) + if x % 2 == 1 || y % 2 == 1 then 1 else 0
  }

  function Bound(n: nat): nat { if n == 0 then 1 else 2 * Bound(n - 1) }

  lemma {:induction false} OrBitsIs(x: nat, y: nat, n: nat)
    ensures OrBits(x, y, n) < Bound(n)
    ensures x < Bound(n) ==> OrBits(x, 0, n) == OrBits(0, x, n) == x
  {
    if n > 0 {
      OrBitsIs(x / 2, y / 2, n - 1);
    }
  }

  function OrByte(x: Byte, y: Byte): Byte {
    assert OrBits(x, y, 8) < 256 by {
      OrBitsIs(x, y, 8);
      EightBits();
    }
    OrBits(x, y, 8)
  }

  lemma EightBits()
    ensures Bound(8) == 256
  {
    assert Bound(4) == 16;
  }

  function Or(v: Word, w: Word): Word {
    Word(OrByte(v.b0, w.b0), OrByte(v.b1, w.b1), OrByte(v.b2, w.b2), OrByte(v.b3, w.b3))
  }

  lemma OrZero(x: Byte)
    ensures OrByte(x, 0) == x && OrByte(0, x) == x
  {
    hide OrBits;
    OrBitsIs(x, 0, 8);
    EightBits();
  }

  function Power(k: nat): nat
    requires k <= 3
  {
    if k == 0 then 1 else if k == 1 then 0x100 else if k == 2 then 0x1_0000 else 0x100_0000
  }

  /** The byte moves are the shifts of the 32-bit values. */
  lemma ShiftsAre(w: Word, k: nat)
    requires 1 <= k <= 3
    ensures ShiftRight(w, k).Value() == w.Value() / Power(k)
    ensures ShiftLeft(w, k).Value() == w.Value() * Power(k) % 0x1_0000_0000
  {
    var low := if k == 1 then w.b0 else if k == 2 then w.b0 + w.b1 * 0x100 else w.b0 + w.b1 * 0x100 + w.b2 * 0x1_0000;
    var high := if k == 1 then w.b3 else if k == 2 then w.b2 + w.b3 * 0x100 else w.b1 + w.b2 * 0x100 + w.b3 * 0x1_0000;
    Quotient(w.Value(), ShiftRight(w, k).Value(), low, Power(k));
    Quotient(w.Value() * Power(k), high, ShiftLeft(w, k).Value(), 0x1_0000_0000);
  }

  lemma Quotient(x: int, q: int, r: int, d: int)
    requires d > 0 && x == d * q + r && 0 <= r < d
    ensures x / d == q && x % d == r
  {
    var e := q - x / d;
    assert d * e == d * q - d * (x / d);
    if e > 0 {
      Grows(d, e);
    } else if e < 0 {
      Grows(d, -e);
    }
  }

  lemma Grows(d: int, e: int)
    requires d > 0
    ensures e > 0 ==> d * e >= d
  {
    var f := e - 1;
    assert d * e == d + d * f;
    assert f >= 0 ==> d * f >= 0;
  }

  /** The word put together from the upper bytes of one word and the lower bytes of the next. */
  lemma Spliced(v: Word, w: Word, shift: nat, i: nat)
    requires 1 <= shift <= 3 && i < 4
    ensures Or(ShiftRight(v, shift), ShiftLeft(w, 4 - shift)).At(i) == if i + shift < 4 then v.At(i + shift)
              else w.At(i + shift - 4)
  {
    OrZero(v.b1);
    OrZero(v.b2);
    OrZero(v.b3);
    OrZero(w.b0);
    OrZero(w.b1);
    OrZero(w.b2);
  }

  // ---------- memory ----------

  /** One call: what memory held and which words had been loaded when it began, and its arguments. */
  datatype Call = Call(data: seq<Byte>, loaded: set<nat>, dest: nat, src: nat, count: nat)

  predicate Aligned(a: nat) { a % 4 == 0 }

  lemma AlignedOn(a: nat)
    requires Aligned(a)
    ensures Aligned(a + 4) && Aligned(a + 8) && Aligned(a + 12) && Aligned(a + 16)
    ensures Aligned(a + 20) && Aligned(a + 24) && Aligned(a + 28) && Aligned(a + 32)
  {
  }

  ghost predicate Fits(c: Call) {
    && Aligned(|c.data|)
    && c.dest + c.count <= |c.data| && c.src + c.count <= |c.data|
    && (c.dest + c.count <= c.src || c.src + c.count <= c.dest)
  }

  /** The aligned word at address a overlaps the source. */
  ghost predicate Overlaps(c: Call, a: nat) {
    Aligned(a) && a < c.src + c.count && c.src < a + 4
  }

  ghost predicate Copied(c: Call, n: nat, data: seq<Byte>)
    requires Fits(c) && n <= c.count
  {
    && |data| == |c.data|
    && forall i {:trigger data[i]} | 0 <= i < |data| :: data[i] == if c.dest <= i < c.dest
        + n then c.data[c.src + (i - c.dest)] else c.data[i]
  }

  ghost predicate LoadsOverlap(c: Call, loaded: set<nat>) {
    forall a | a in loaded :: a in c.loaded || Overlaps(c, a)
  }

  lemma CopiedStart(c: Call)
    requires Fits(c)
    ensures Copied(c, 0, c.data) && LoadsOverlap(c, c.loaded)
  {
  }

  lemma CopiedAll(c: Call, data: seq<Byte>)
    requires Fits(c) && Copied(c, c.count, data)
    ensures data[c.dest..c.dest + c.count] == c.data[c.src..c.src + c.count]
    ensures data[..c.dest] == c.data[..c.dest] && data[c.dest + c.count..] == c.data[c.dest + c.count..]
  {
    forall i | c.dest <= i < c.dest + c.count
      ensures data[i] == c.data[c.src + (i - c.dest)]
    {
      CopiedAt(c, data, i);
    }
    forall i | 0 <= i < |data| && !(c.dest <= i < c.dest + c.count)
      ensures data[i] == c.data[i]
    {
      CopiedAt(c, data, i);
    }
    hide Copied;
  }

  lemma CopiedAt(c: Call, data: seq<Byte>, i: nat)
    requires Fits(c) && Copied(c, c.count, data) && i < |data|
    ensures |data| == |c.data|
    ensures data[i] == if c.dest <= i < c.dest + c.count then c.data[c.src + (i - c.dest)] else c.data[i]
  {
  }

  lemma CopiedByte(c: Call, n: nat, data: seq<Byte>)
    requires Fits(c) && n < c.count && Copied(c, n, data)
    ensures Copied(c, n + 1, data[c.dest + n := data[c.src + n]])
  {
  }

  ghost function Patched(data: seq<Byte>, a: nat, w: Word): seq<Byte>
    requires a + 4 <= |data|
  {
    data[a := w.b0][a + 1 := w.b1][a + 2 := w.b2][a + 3 := w.b3]
  }

  lemma CopiedWord(c: Call, n: nat, data: seq<Byte>, w: Word)
    requires Fits(c) && n + 4 <= c.count && Copied(c, n, data)
    requires forall i | 0 <= i < 4 :: w.At(i) == c.data[c.src + n + i]
    ensures Copied(c, n + 4, Patched(data, c.dest + n, w))
  {
    assert w.At(0) == w.b0 && w.At(1) == w.b1 && w.At(2) == w.b2 && w.At(3) == w.b3;
  }

  /** w was loaded from address a, which may reach beyond the source. */
  ghost predicate Carries(c: Call, a: nat, w: Word)
    requires Fits(c)
  {
    forall i | 0 <= i < 4 && c.src <= a + i < c.src + c.count :: w.At(i) == c.data[a + i]
  }

  lemma CarriesLoaded(c: Call, n: nat, data: seq<Byte>, a: nat)
    requires Fits(c) && n <= c.count && Copied(c, n, data) && a + 4 <= |data|
    ensures Carries(c, a, Word(data[a], data[a + 1], data[a + 2], data[a + 3]))
  {
  }

  lemma SplicedRight(c: Call, a: nat, v: Word, w: Word, shift: nat, n: nat)
    requires Fits(c) && 1 <= shift <= 3 && n + 4 <= c.count && a + shift == c.src + n
    requires Carries(c, a, v) && Carries(c, a + 4, w)
    ensures var u := Or(ShiftRight(v, shift), ShiftLeft(w, 4 - shift));
            forall i | 0 <= i < 4 :: u.At(i) == c.data[c.src + n + i]
  {
    var u := Or(ShiftRight(v, shift), ShiftLeft(w, 4 - shift));
    forall i | 0 <= i < 4
      ensures u.At(i) == c.data[c.src + n + i]
    {
      Spliced(v, w, shift, i);
    }
  }

  class Memory {
    const data: array<Byte>
    /** The addresses of the aligned words that have been loaded. */
    ghost var loaded: set<nat>

    /** n bytes have been copied and nothing else written. */
    ghost predicate Progress(c: Call, n: nat)
      reads this, data
    {
      Fits(c) && n <= c.count && Copied(c, n, data[..]) && LoadsOverlap(c, loaded)
    }

    method LoadWord(a: nat, ghost c: Call, ghost n: nat) returns (w: Word)
      requires Progress(c, n) && a + 4 <= data.Length && Overlaps(c, a)
      modifies this`loaded
      ensures Progress(c, n) && Carries(c, a, w) && loaded == old(loaded) + {a}
    {
      CarriesLoaded(c, n, data[..], a);
      w := Word(data[a], data[a + 1], data[a + 2], data[a + 3]);
      loaded := loaded + {a};
    }

    method StoreWord(a: nat, w: Word, ghost c: Call, ghost n: nat)
      requires Progress(c, n) && n + 4 <= c.count && a == c.dest + n && Aligned(a)
      requires forall i | 0 <= i < 4 :: w.At(i) == c.data[c.src + n + i]
      modifies data
      ensures Progress(c, n + 4)
    {
      ghost var was := data[..];
      CopiedWord(c, n, was, w);
      hide Copied;
      data[a] := w.b0;
      data[a + 1] := w.b1;
      data[a + 2] := w.b2;
      data[a + 3] := w.b3;
      assert data[..] == Patched(was, a, w);
    }

    /** *dst8++ = *src8++ */
    method CopyByte(dst8: nat, src8: nat, ghost c: Call, ghost n: nat)
      requires Progress(c, n) && n < c.count && dst8 == c.dest + n && src8 == c.src + n
      modifies data
      ensures Progress(c, n + 1)
    {
      ghost var was := data[..];
      CopiedByte(c, n, was);
      hide Copied;
      data[dst8] := data[src8];
      assert data[..] == was[dst8 := was[src8]];
    }

    method CopyCase(taken: bool, dst8: nat, src8: nat, ghost c: Call) returns (d: nat, s: nat)
      requires c.dest <= dst8 && Progress(c, dst8 - c.dest) && src8 == c.src + (dst8 - c.dest)
      requires taken ==> dst8 < c.dest + c.count
      modifies data
      ensures d == (if taken then dst8 + 1 else dst8) && s == (if taken then src8 + 1 else src8)
                && Progress(c, d - c.dest)
    {
      d, s := dst8, src8;
      if taken {
        CopyByte(d, s, c, d - c.dest);
        d, s := d + 1, s + 1;
      }
    }

    /** COPY_REMAINING: the cases fall through. */
    method CopyRemaining(dst8: nat, src8: nat, count: nat, ghost c: Call)
      requires count <= 7 && count <= c.count && Progress(c, c.count - count)
      requires dst8 == c.dest + c.count - count && src8 == c.src + c.count - count
      modifies data
      ensures Progress(c, c.count)
    {
      hide Progress, Aligned;
      var d, s := CopyCase(count == 7, dst8, src8, c);
      d, s := CopyCase(count >= 6, d, s, c);
      d, s := CopyCase(count >= 5, d, s, c);
      d, s := CopyCase(count >= 4, d, s, c);
      d, s := CopyCase(count >= 3, d, s, c);
      d, s := CopyCase(count >= 2, d, s, c);
      d, s := CopyCase(count >= 1, d, s, c);
    }

    /** CP_INCR and CP_INDEX */
    method CopyWord(dstN: nat, srcN: nat, ghost c: Call)
      requires c.dest <= dstN && Aligned(dstN) && Aligned(srcN) && srcN == c.src + (dstN - c.dest)
      requires Progress(c, dstN - c.dest) && dstN + 4 <= c.dest + c.count
      modifies data, this`loaded
      ensures Progress(c, dstN - c.dest + 4)
    {
      CallFits(c, data[..], dstN - c.dest);
      hide Progress, Aligned;
      var w := LoadWord(srcN, c, dstN - c.dest);
      StoreWord(dstN, w, c, dstN - c.dest);
    }

    lemma CallFits(c: Call, now: seq<Byte>, n: nat)
      requires Progress(c, n) && now == data[..]
      ensures Fits(c) && n <= c.count && data.Length == |c.data|
    {
    }

    /** COPY_NO_SHIFT: source and destination are both aligned. */
    method CopyNoShift(dst8: nat, src8: nat, count: nat, ghost c: Call)
      requires Aligned(dst8) && Aligned(src8) && count <= c.count && Progress(c, c.count - count)
      requires dst8 == c.dest + c.count - count && src8 == c.src + c.count - count
      modifies data, this`loaded
      ensures Progress(c, c.count)
    {
      hide Progress, Aligned;
      var dstN, srcN := dst8, src8;
      var length := count / 4;
      while length % 8 != 0
        invariant c.dest <= dstN && 0 <= srcN && Aligned(dstN) && Aligned(srcN) && srcN == c.src + (dstN - c.dest)
        invariant dstN + 4 * length + count % 4 == c.dest + c.count && 0 <= length
        invariant Progress(c, dstN - c.dest)
      {
        AlignedOn(dstN);
        AlignedOn(srcN);
        CopyWord(dstN, srcN, c);
        dstN, srcN := dstN + 4, srcN + 4;
        length := length - 1;
      }
      length := length / 8;
      while length != 0
        invariant c.dest <= dstN && 0 <= srcN && Aligned(dstN) && Aligned(srcN) && srcN == c.src + (dstN - c.dest)
        invariant dstN + 32 * length + count % 4 == c.dest + c.count && 0 <= length
        invariant Progress(c, dstN - c.dest)
      {
        AlignedOn(dstN);
        AlignedOn(srcN);
        length := length - 1;
        CopyEight(dstN, srcN, c);
        dstN, srcN := dstN + 32, srcN + 32;
      }
      CopyRemaining(dstN, srcN, count % 4, c);
    }

    /** The unrolled loop body of COPY_NO_SHIFT */
    method CopyEight(dstN: nat, srcN: nat, ghost c: Call)
      requires c.dest <= dstN && Aligned(dstN) && Aligned(srcN) && srcN == c.src + (dstN - c.dest)
      requires Progress(c, dstN - c.dest) && dstN + 32 <= c.dest + c.count
      modifies data, this`loaded
      ensures Progress(c, dstN - c.dest + 32)
    {
      hide Progress, Aligned;
      AlignedOn(dstN);
      AlignedOn(srcN);
      CopyWord(dstN, srcN, c);
      CopyWord(dstN + 4, srcN + 4, c);
      CopyWord(dstN + 8, srcN + 8, c);
      CopyWord(dstN + 12, srcN + 12, c);
      CopyWord(dstN + 16, srcN + 16, c);
      CopyWord(dstN + 20, srcN + 20, c);
      CopyWord(dstN + 24, srcN + 24, c);
      CopyWord(dstN + 28, srcN + 28, c);
    }

    /** Between two words of COPY_SHIFT: srcWord is the word before srcN, of which the bytes from shift
        on are the next to be written. */
    ghost predicate Shifting(c: Call, dstN: int, srcN: int, srcWord: Word, shift: nat)
      reads this, data
    {
      && 4 <= srcN && c.dest <= dstN && Aligned(dstN) && Aligned(srcN) && 1 <= shift <= 3
      && srcN + shift == c.src + (dstN - c.dest) + 4
      && Progress(c, dstN - c.dest) && Carries(c, srcN - 4, srcWord)
    }

    /** CP_INCR_SH and CP_INDEX_SH: the word before is carried in srcWord. */
    method CopyShifted(dstN: nat, srcN: nat, srcWord: Word, shift: nat, ghost c: Call) returns (next: Word)
      requires Shifting(c, dstN, srcN, srcWord, shift) && dstN + 4 <= c.dest + c.count
      modifies data, this`loaded
      ensures Shifting(c, dstN + 4, srcN + 4, next, shift)
    {
      CallFits(c, data[..], dstN - c.dest);
      AlignedOn(dstN);
      AlignedOn(srcN);
      hide Progress, Aligned, ShiftLeft, ShiftRight, Or, Carries;
      var dstWord := ShiftRight(srcWord, shift);
      next := LoadWord(srcN, c, dstN - c.dest);
      SplicedRight(c, srcN - 4, srcWord, next, shift, dstN - c.dest);
      dstWord := Or(dstWord, ShiftLeft(next, 4 - shift));
      StoreWord(dstN, dstWord, c, dstN - c.dest);
    }

    /** COPY_SHIFT: the destination is aligned, the source is shift bytes past an aligned word. */
    method CopyShift(shift: nat, dst8: nat, src8: nat, count: nat, ghost c: Call)
      requires 1 <= shift <= 3 && Aligned(dst8) && src8 % 4 == shift
      requires 5 <= count <= c.count <= count + 3 && Progress(c, c.count - count)
      requires dst8 == c.dest + c.count - count && src8 == c.src + c.count - count
      modifies data, this`loaded
      ensures Progress(c, c.count)
    {
      var dstN, srcN := dst8 - dst8 % 4, src8 - src8 % 4;
      var length := count / 4;
      var srcWord := FirstWord(dstN, srcN, shift, c);
      hide Shifting;
      dstN, srcN, srcWord := ShiftWords(dstN, srcN + 4, srcWord, shift, length, c);
      ShiftingEnds(dstN, srcN, srcWord, shift, c);
      CopyRemaining(dstN, srcN + shift - 4, count % 4, c);
    }

    /** The two loops of COPY_SHIFT */
    method ShiftWords(dst: nat, src: nat, word: Word, shift: nat, words: nat, ghost c: Call)
      returns (dstN: nat, srcN: nat, srcWord: Word)
      requires Shifting(c, dst, src, word, shift) && dst + 4 * words <= c.dest + c.count
      modifies data, this`loaded
      ensures Shifting(c, dstN, srcN, srcWord, shift) && dstN == dst + 4 * words && srcN == src + 4 * words
    {
      hide Shifting;
      var length := words;
      dstN, srcN, srcWord := dst, src, word;
      while length % 8 != 0
        invariant 0 <= length <= words && dstN == dst + 4 * (words - length) && srcN == src + 4 * (words - length)
        invariant Shifting(c, dstN, srcN, srcWord, shift)
      {
        srcWord := CopyShifted(dstN, srcN, srcWord, shift, c);
        dstN, srcN := dstN + 4, srcN + 4;
        length := length - 1;
      }
      length := length / 8;
      while length != 0
        invariant 0 <= length && dstN == dst + 4 * words - 32 * length && srcN == src + 4 * words - 32 * length
        invariant Shifting(c, dstN, srcN, srcWord, shift)
      {
        length := length - 1;
        srcWord := CopyEightShifted(dstN, srcN, srcWord, shift, c);
        dstN, srcN := dstN + 32, srcN + 32;
      }
    }

    method FirstWord(dstN: nat, srcN: nat, shift: nat, ghost c: Call) returns (w: Word)
      requires 1 <= shift <= 3 && Aligned(dstN) && Aligned(srcN) && c.dest <= dstN <= c.dest + 3 && dstN + 5 <= c.dest
                 + c.count
      requires srcN + shift == c.src + (dstN - c.dest) && Progress(c, dstN - c.dest)
      modifies this`loaded
      ensures Shifting(c, dstN, srcN + 4, w, shift)
    {
      CallFits(c, data[..], dstN - c.dest);
      AlignedOn(srcN);
      hide Progress, Carries;
      w := LoadWord(srcN, c, dstN - c.dest);
    }

    lemma ShiftingEnds(dstN: nat, srcN: nat, srcWord: Word, shift: nat, c: Call)
      requires Shifting(c, dstN, srcN, srcWord, shift)
      ensures c.dest <= dstN && srcN + shift == c.src + (dstN - c.dest) + 4 && Progress(c, dstN - c.dest)
    {
    }

    /** The unrolled loop body of COPY_SHIFT */
    method CopyEightShifted(dstN: nat, srcN: nat, srcWord: Word, shift: nat, ghost c: Call) returns (next: Word)
      requires Shifting(c, dstN, srcN, srcWord, shift) && dstN + 32 <= c.dest + c.count
      modifies data, this`loaded
      ensures Shifting(c, dstN + 32, srcN + 32, next, shift)
    {
      hide Shifting;
      next := CopyShifted(dstN, srcN, srcWord, shift, c);
      next := CopyShifted(dstN + 4, srcN + 4, next, shift, c);
      next := CopyShifted(dstN + 8, srcN + 8, next, shift, c);
      next := CopyShifted(dstN + 12, srcN + 12, next, shift, c);
      next := CopyShifted(dstN + 16, srcN + 16, next, shift, c);
      next := CopyShifted(dstN + 20, srcN + 20, next, shift, c);
      next := CopyShifted(dstN + 24, srcN + 24, next, shift, c);
      next := CopyShifted(dstN + 28, srcN + 28, next, shift, c);
    }

    /** memcpy: for disjoint regions the destination gets the bytes of the source, nothing else is
        written, and every word that is loaded overlaps the source. */
    method Copy(dest: nat, src: nat, count: nat) returns (result: nat)
      requires Aligned(data.Length) && dest + count <= data.Length && src + count <= data.Length
      requires dest + count <= src || src + count <= dest
      modifies data, this`loaded
      ensures result == dest
      ensures data[dest..dest + count] == old(data[src..src + count])
      ensures data[..dest] == old(data[..dest]) && data[dest + count..] == old(data[dest + count..])
      ensures forall a | a in loaded && a !in old(loaded) :: Aligned(a) && a < src + count && src < a + 4
    {
      ghost var c := Call(data[..], loaded, dest, src, count);
      CopiedStart(c);
      CopyAll(dest, src, count, c);
      CopiedAll(c, data[..]);
      result := dest;
    }

    method CopyAll(dest: nat, src: nat, count: nat, ghost c: Call)
      requires c.dest == dest && c.src == src && c.count == count && Progress(c, 0)
      modifies data, this`loaded
      ensures Progress(c, count)
    {
      hide Progress;
      var dst8, src8, left := dest, src, count;
      if left < 8 {
        CopyRemaining(dst8, src8, left, c);
        return;
      }
      ghost var stop := (dest + 3) / 4 * 4;
      while dst8 % 4 != 0
        invariant dest <= dst8 <= stop && dst8 - dest == src8 - src == count - left
        invariant Progress(c, dst8 - dest)
        decreases left
      {
        CopyByte(dst8, src8, c, dst8 - dest);
        dst8, src8, left := dst8 + 1, src8 + 1, left - 1;
      }
      match src8 % 4
      case 0 => CopyNoShift(dst8, src8, left, c);
      case 1 => CopyShift(1, dst8, src8, left, c);
      case 2 => CopyShift(2, dst8, src8, left, c);
      case _ => CopyShift(3, dst8, src8, left, c);
    }
  }
}
