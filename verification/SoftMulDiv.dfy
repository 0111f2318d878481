/** Multiplication and division in software (stdio.c): shift and add, shift and subtract, on 32-bit words. */
module SoftMulDiv {
  import opened Wrappers

  const WORDS := 0x1_0000_0000

  /** unsigned */
  type Word = x: int | 0 <= x < 0x1_0000_0000

  /** int */
  type Signed = x: int | -0x8000_0000 <= x < 0x8000_0000

  function ToWord(x: int): Word { x % WORDS }

  /** The conversion from unsigned to int. */
  function ToSigned(x: int): Signed {
    if x % WORDS < 0x8000_0000 then x % WORDS else x % WORDS - WORDS
  }

  function Abs(x: int): nat { if x < 0 then -x else x }

  // ---------- multiplication ----------

  lemma AddWraps(a: int, b: int)
    ensures ToWord(ToWord(a) + ToWord(b)) == ToWord(a + b)
  {
    AddMultiple(a % WORDS + b % WORDS, a / WORDS + b / WORDS, WORDS);
  }

  lemma Halved(xs: int, y: int)
    ensures xs * y == 2 * xs * (y / 2) + if y % 2 == 1 then xs else 0
  {
    assert y == 2 * (y / 2) + y % 2;
    calc {
      xs * y;
      xs * (2 * (y / 2) + y % 2);
      2 * xs * (y / 2) + xs * (y % 2);
    }
  }

  lemma SmallWord(x: Word)
    ensures ToWord(x) == x
  {
  }

  lemma Step(sum: int, xs: int, y: int, product: int)
    requires sum + xs * y == product
    ensures (if y % 2 == 1 then sum + xs else sum) + (xs + xs) * (y / 2) == product
  {
    Halved(xs, y);
  }

  lemma Commutes(x: int, y: int)
    ensures x * y == y * x
  {
  }

  /** __umulsi3: the product, modulo 2^32. */
  method UMulSi3(x0: Word, y0: Word) returns (acc: Word)
    ensures acc == ToWord(x0 * y0)
  {
    SmallWord(x0);
    SmallWord(y0);
    SmallWord(0);
    hide ToWord;
    var x: int, y: int := x0, y0;
    if x < y {
      x, y := y, x;
    }
    Commutes(x0, y0);
    acc := 0;
    // What x and acc would be if words were unbounded.
    ghost var xs: int, sum: int, product := x, 0, x0 * y0;
    while y != 0
      invariant 0 <= y && x == ToWord(xs) && acc == ToWord(sum) && sum + xs * y == product
      decreases y
    {
      Step(sum, xs, y, product);
      AddWraps(sum, xs);
      AddWraps(xs, xs);
      if y % 2 == 1 {
        acc := ToWord(acc + x);
        sum := sum + xs;
      }
      x := ToWord(x + x);
      xs := xs + xs;
      y := y / 2;
    }
  }

  lemma Negated(a: int, b: int)
    ensures (-a) * b == -(a * b)
  {
  }

  function Signs(x: int, y: int, magnitude: int): int {
    if (x < 0) != (y < 0) then -magnitude else magnitude
  }

  lemma SignedProduct(x: int, y: int)
    ensures x * y == Signs(x, y, Abs(x) * Abs(y))
  {
    if x < 0 {
      Negated(-x, y);
    }
    if y < 0 {
      Negated(-y, Abs(x));
      Commutes(y, Abs(x));
      Commutes(-y, Abs(x));
    }
  }

  lemma NegWraps(p: int)
    ensures -(p % WORDS) % WORDS == -p % WORDS
  {
    AddMultiple(-(p % WORDS), -(p / WORDS), WORDS);
  }

  /** __mulsi3: the product of signed numbers, wrapped. */
  method MulSi3(x: Signed, y: Signed) returns (r: Signed)
    ensures r == ToSigned(x * y)
  {
    var negative := (x < 0) != (y < 0);
    var acc: int := UMulSi3(Abs(x), Abs(y));
    SignedProduct(x, y);
    SignedWraps(Abs(x) * Abs(y));
    r := if negative then ToSigned(-acc) else ToSigned(acc);
  }

  lemma SignedWraps(p: int)
    ensures ToSigned(p % WORDS) == ToSigned(p) && ToSigned(-(p % WORDS)) == ToSigned(-p)
  {
    NegWraps(p);
    AddMultiple(p % WORDS, 0, WORDS);
  }

  // ---------- division ----------

  /** The first loop of __udiv_umod_si3: the divisor is shifted up to the dividend. */
  method Align(x: Word, y0: Word) returns (y: Word, aux: Word, ghost k: nat)
    requires 0 < y0
    ensures y == y0 * aux && aux == Power2(k) && x < 2 * y
  {
    y, aux, k := y0, 1, 0;
    while y < x && y < 0x8000_0000
      invariant 0 < y < WORDS && y == y0 * aux && aux == Power2(k) && 0 < aux <= y
      decreases WORDS - y
    {
      y, aux, k := y * 2, aux * 2, k + 1;
    }
  }

  function Power2(k: nat): (p: nat)
    ensures p >= 1
  {
    if k == 0 then 1 else 2 * Power2(k - 1)
  }

  /** __udiv_umod_si3: quotient or remainder; 0 when the divisor is 0. */
  method UDivUModSi3(x0: Word, y0: Word, opt: bool) returns (r: Word)
    ensures y0 == 0 ==> r == 0
    ensures y0 != 0 ==> r == if opt then x0 / y0 else x0 % y0
  {
    if y0 == 0 {
      return 0;
    }
    var x := x0;
    var y, aux;
    ghost var k;
    y, aux, k := Align(x, y0);
    var acc: int := 0;
    while x != 0 && aux != 0
      invariant 0 <= x < WORDS && 0 <= acc && x0 == y0 * acc + x
      invariant if aux == 0 then x < y0 else aux == Power2(k) && y == y0 * aux && x < 2 * y
      decreases aux
    {
      if y <= x {
        Taken(y0, acc, aux);
        x, acc := x - y, acc + aux;
      }
      HalfWay(y0, aux, k);
      aux, y := aux / 2, y / 2;
      k := if k > 0 then k - 1 else 0;
    }
    Unique(x0, y0, acc, x);
    r := if opt then acc else x;
  }

  lemma Taken(y: int, acc: int, aux: int)
    ensures y * (acc + aux) == y * acc + y * aux
  {
  }

  lemma HalfWay(y: int, aux: int, k: nat)
    requires aux == Power2(k)
    ensures k > 0 ==> aux / 2 == Power2(k - 1) && y * aux == 2 * (y * (aux / 2))
    ensures k == 0 ==> aux / 2 == 0
  {
    if k > 0 {
      var h := Power2(k - 1);
      assert aux == 2 * h;
      assert y * aux == 2 * (y * h);
    }
  }

  lemma Multiple(y: int, d: int)
    requires 0 < y
    ensures d != 0 ==> y * d >= y || y * d <= -y
  {
    if d != 0 {
      var e := if d > 0 then d - 1 else -d - 1;
      assert y * d == if d > 0 then y + y * e else -y - y * e;
      NonNegative(y, e);
    }
  }

  lemma NonNegative(a: int, b: int)
    requires a >= 0 && b >= 0
    ensures a * b >= 0
  {
  }

  lemma Unique(x: int, y: int, q: int, r: int)
    requires 0 < y && x == y * q + r && 0 <= r < y
    ensures q == x / y && r == x % y
  {
    var d := q - x / y;
    assert y * d == y * q - y * (x / y);
    Multiple(y, d);
  }

  /** q and r are the quotient and remainder of a division that truncates toward zero: the remainder has
      the sign of the dividend. */
  predicate Truncates(x: int, y: int, q: int, r: int) {
    x == q * y + r && Abs(r) < Abs(y) && (r == 0 || (r < 0) == (x < 0))
  }

  function Quotient(x: int, y: int): int
    requires y != 0
  {
    if (x < 0) != (y < 0) then -(Abs(x) / Abs(y)) else Abs(x) / Abs(y)
  }

  function Remainder(x: int, y: int): int
    requires y != 0
  {
    if x < 0 then -(Abs(x) % Abs(y)) else Abs(x) % Abs(y)
  }

  /** There is exactly one such quotient and remainder. */
  lemma TruncatesIff(x: int, y: int, q: int, r: int)
    requires y != 0
    ensures Truncates(x, y, q, r) <==> q == Quotient(x, y) && r == Remainder(x, y)
  {
    var a, b, p, s := Abs(x), Abs(y), Signs(x, y, q), if x < 0 then -r else r;
    Magnitudes(x, y, q, r, p, s);
    hide Truncates;
    if a == b * p + s && 0 <= s < b {
      Unique(a, b, p, s);
    }
    assert a == b * (a / b) + a % b;
  }

  lemma Magnitudes(x: int, y: int, q: int, r: int, p: int, s: int)
    requires y != 0 && p == Signs(x, y, q) && s == if x < 0 then -r else r
    ensures Truncates(x, y, q, r) <==> Abs(x) == Abs(y) * p + s && 0 <= s < Abs(y)
  {
    var m := q * y;
    SignedProduct(q, y);
    assert m == Signs(q, y, Abs(q) * Abs(y));
    assert Abs(y) * p == if x < 0 then -m else m by {
      if y < 0 {
        Negated(y, q);
        Commutes(y, q);
        Commutes(-y, q);
      }
      Commutes(Abs(y), p);
      Commutes(Abs(y), q);
      Negated(q, Abs(y));
    }
  }

  /** __div_mod_si3: the truncated quotient or the remainder, wrapped; 0 when the divisor is 0. */
  method DivModSi3(x: Signed, y: Signed, opt: bool) returns (r: Signed)
    ensures y == 0 ==> r == 0
    ensures y != 0 ==> forall q, m | Truncates(x, y, q, m) :: r == ToSigned(if opt then q else m)
  {
    if y == 0 {
      return 0;
    }
    var acc: int := UDivUModSi3(Abs(x), Abs(y), opt);
    r := if opt then (if (x < 0) != (y < 0) then ToSigned(-acc) else ToSigned(acc))
         else (if x < 0 then ToSigned(-acc) else ToSigned(acc));
    forall q, m | Truncates(x, y, q, m)
      ensures r == ToSigned(if opt then q else m)
    {
      TruncatesIff(x, y, q, m);
    }
  }

  lemma Smaller(a: nat, b: nat)
    requires b > 0
    ensures a / b <= a && (b >= 2 && a > 0 ==> a / b < a) && a % b < b && a % b <= a && a / 1 == a
  {
    var q := a / b;
    assert a == b * q + a % b;
    if b >= 2 {
      assert b * q == 2 * q + (b - 2) * q;
      NonNegative(b - 2, q);
    }
  }

  lemma Fits(v: int)
    ensures -0x8000_0000 <= v <= 0x8000_0000 ==> (ToSigned(v) == v <==> v != 0x8000_0000)
    ensures ToSigned(0x8000_0000) == -0x8000_0000
  {
  }

  /** Only -2^31 / -1 does not fit, and comes out as -2^31. */
  lemma QuotientFits(x: Signed, y: Signed)
    requires y != 0
    ensures ToSigned(Quotient(x, y)) == Quotient(x, y) <==> !(x == -0x8000_0000 && y == -1)
    ensures ToSigned(Quotient(-0x8000_0000, -1)) == -0x8000_0000
    ensures ToSigned(Remainder(x, y)) == Remainder(x, y)
  {
    Smaller(Abs(x), Abs(y));
    Smaller(Abs(-0x8000_0000), Abs(-1));
    Fits(Quotient(x, y));
    Fits(Remainder(x, y));
    hide ToSigned;
  }
}
