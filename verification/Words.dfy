/** Machine words and their binary digits, and facts about products, quotients and powers of two. */
module Words {
  const WORD := 0x1_0000_0000

  type Byte = b: int | 0 <= b < 256

  type Word = w: int | 0 <= w < 0x1_0000_0000

  // Unsigned 32-bit arithmetic.
  function Wrap32(x: int): Word { x % WORD }

  lemma MulLe(a: int, b: int, m: nat)
    requires a <= b
    ensures a * m <= b * m
  {}

  /** Quotient and remainder are determined by their defining equation. */
  lemma DivModIs(x: int, m: nat, q: int, r: nat)
    requires m > 0 && x == q * m + r && r < m
    ensures x / m == q && x % m == r
  {
    var q', r' := x / m, x % m;
    assert x == q' * m + r';
    assert (q + 1) * m == q * m + m && (q' + 1) * m == q' * m + m;
    if q' < q {
      MulLe(q' + 1, q, m);
    } else if q < q' {
      MulLe(q + 1, q', m);
    }
  }

  // ----- binary digits

  function Pow2(k: nat): (p: nat)
    ensures p > 0
  {
    if k == 0 then 1 else 2 * Pow2(k - 1)
  }

  lemma {:induction false} Pow2Sum(a: nat, b: nat)
    ensures Pow2(a + b) == Pow2(a) * Pow2(b)
  {
    if a > 0 {
      Pow2Sum(a - 1, b);
      var x, y, z := Pow2(a - 1), Pow2(b), Pow2(a - 1 + b);
      assert Pow2(a) == 2 * x && Pow2(a + b) == 2 * z;
      hide Pow2;
      Regrouped(x, y);
    }
  }

  lemma Regrouped(x: int, y: int)
    ensures 2 * (x * y) == 2 * x * y
  {}

  // Bitwise inclusive or, and bitwise and, of non-negative integers.
  function BitwiseOr(a: nat, b: nat): nat {
    if a == 0 && b == 0 then 0 else (if a % 2 == 1 || b % 2 == 1 then 1 else 0) + 2 * BitwiseOr(a / 2, b / 2)
  }

  function BitwiseAnd(a: nat, b: nat): (r: nat)
    ensures r <= a
  {
    if a == 0 then 0 else (if a % 2 == 1 && b % 2 == 1 then 1 else 0) + 2 * BitwiseAnd(a / 2, b / 2)
  }

  function Digit(x: nat, i: nat): nat { if i == 0 then x % 2 else Digit(x / 2, i - 1) }

  /** The operators work on each binary digit by itself. */
  lemma {:induction false} OrDigit(a: nat, b: nat, i: nat)
    ensures Digit(BitwiseOr(a, b), i) == if Digit(a, i) == 1 || Digit(b, i) == 1 then 1 else 0
    decreases i
  {
    var d := if a % 2 == 1 || b % 2 == 1 then 1 else 0;
    assert BitwiseOr(0, 0) == 0;
    assert BitwiseOr(a, b) == d + 2 * BitwiseOr(a / 2, b / 2);
    if i > 0 {
      OrDigit(a / 2, b / 2, i - 1);
      assert BitwiseOr(a, b) / 2 == BitwiseOr(a / 2, b / 2);
    }
  }

  lemma {:induction false} AndDigit(a: nat, b: nat, i: nat)
    ensures Digit(BitwiseAnd(a, b), i) == if Digit(a, i) == 1 && Digit(b, i) == 1 then 1 else 0
    decreases i
  {
    var d := if a % 2 == 1 && b % 2 == 1 then 1 else 0;
    assert BitwiseAnd(0, b / 2) == 0;
    assert BitwiseAnd(a, b) == d + 2 * BitwiseAnd(a / 2, b / 2);
    if i > 0 {
      AndDigit(a / 2, b / 2, i - 1);
      assert BitwiseAnd(a, b) / 2 == BitwiseAnd(a / 2, b / 2);
    }
  }

  // A digit as C code takes it, by a shift and a remainder.
  lemma {:induction false} DigitIs(x: nat, i: nat)
    ensures Digit(x, i) == x / Pow2(i) % 2
  {
    if i > 0 {
      DigitIs(x / 2, i - 1);
      HalfFirst(x, Pow2(i - 1));
    }
  }

  lemma HalfFirst(x: nat, p: nat)
    requires p > 0
    ensures x / 2 / p == x / (2 * p)
  {
    var q, r := x / (2 * p), x % (2 * p);
    assert x == q * (2 * p) + r;
    assert x / 2 == q * p + r / 2;
    DivModIs(x / 2, p, q, r / 2);
  }

  lemma {:induction false} OrBound(a: nat, b: nat, k: nat)
    requires a < Pow2(k) && b < Pow2(k)
    ensures BitwiseOr(a, b) < Pow2(k)
    decreases k
  {
    if k > 0 {
      OrBound(a / 2, b / 2, k - 1);
      assert BitwiseOr(0, 0) == 0;
    }
  }

  function OrWord(a: Word, b: Word): Word {
    assert BitwiseOr(a, b) < WORD by {
      WordIsPow2();
      OrBound(a, b, 32);
    }
    BitwiseOr(a, b)
  }

  lemma WordIsPow2()
    ensures Pow2(32) == WORD
  {
    assert Pow2(4) == 16;
    Pow2Sum(4, 4);
    Pow2Sum(8, 8);
    Pow2Sum(16, 16);
  }
}
