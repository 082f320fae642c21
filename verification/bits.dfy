/** Machine integers, powers of two, and the bitwise operators of Go
    stated on unbounded naturals, together with the division and modulus
    facts the codec proofs use. */
module Bits {

  /** Go's `byte`. */
  type byte = x: int | 0 <= x < 0x100

  /** Go's `uint32`. */
  type uint32 = x: int | 0 <= x < 0x1_0000_0000

  const Two32: nat := 0x1_0000_0000

  function Pow2(k: nat): (r: nat)
    ensures r >= 1
  {
    if k == 0 then 1 else 2 * Pow2(k - 1)
  }

  /** Go's `byte(x)` conversion: keeps the low eight bits. */
  function ToByte(x: nat): (b: byte)
    ensures x < 0x100 ==> b == x
  {
    x % 0x100
  }

  /** Go's `uint32` shift left: bits shifted past bit 31 are lost, and a
      count of 32 or more gives 0. */
  function Shl32(i: uint32, k: nat): uint32
  {
    (i * Pow2(k)) % Two32
  }

  /** Go's `uint32` shift right; a count of 32 or more gives 0. */
  function Shr32(i: uint32, k: nat): (r: uint32)
    ensures r <= i
  {
    DivBounds(i, Pow2(k));
    i / Pow2(k)
  }

  /** Bitwise or of two naturals, bit by bit from the least significant. */
  function Or(a: nat, b: nat): nat
    decreases a + b
  {
    if a == 0 then b
    else if b == 0 then a
    else 2 * Or(a / 2, b / 2) + (if a % 2 == 1 || b % 2 == 1 then 1 else 0)
  }

  /** Bitwise and of two naturals, bit by bit from the least significant. */
  function And(a: nat, b: nat): nat
    decreases a
  {
    if a == 0 || b == 0 then 0
    else 2 * And(a / 2, b / 2) + (if a % 2 == 1 && b % 2 == 1 then 1 else 0)
  }

  // ---------------------------------------------------------------------
  // Powers of two

  lemma {:induction false} Pow2Add(a: nat, b: nat)
    ensures Pow2(a + b) == Pow2(a) * Pow2(b)
  {
    if a > 0 {
      Pow2Add(a - 1, b);
      assert Pow2(a + b) == 2 * Pow2(a - 1 + b);
    }
  }

  lemma Pow2Le(a: nat, b: nat)
    requires a <= b
    ensures Pow2(a) <= Pow2(b)
  {
    Pow2Add(a, b - a);
    MulLe(Pow2(a), Pow2(b - a));
  }

  lemma Pow2Values()
    ensures Pow2(7) == 0x80 && Pow2(8) == 0x100
    ensures Pow2(28) == 0x1000_0000 && Pow2(32) == Two32
  {
    Pow2Add(8, 8);
    Pow2Add(16, 8);
    Pow2Add(24, 8);
    Pow2Add(24, 4);
  }

  // ---------------------------------------------------------------------
  // Products

  lemma MulSucc(a: nat, k: nat)
    ensures a * k + a == a * (k + 1)
  {
  }

  /** Moving the leading digit d (of weight w) up one place of weight p. */
  lemma ShiftDigit(d: nat, w: nat, p: nat, v: nat)
    ensures d * (w * p) + v * p == (d * w + v) * p
  {
  }

  /** A leading digit below p in front of a tail below w stays below p * w. */
  lemma DigitBound(d: nat, p: nat, w: nat, v: nat)
    requires d < p && v < w
    ensures d * w + v < w * p
  {
    assert d * w <= (p - 1) * w;
  }

  // ---------------------------------------------------------------------
  // Division and modulus

  lemma MulLe(a: int, b: int)
    requires a >= 0 && b >= 1
    ensures a <= a * b
  {
  }

  /** Quotient and remainder of a natural by a positive divisor. */
  lemma DivBounds(n: int, m: int)
    requires n >= 0 && m >= 1
    ensures 0 <= n / m <= n && 0 <= n % m < m
  {
    var q, r := n / m, n % m;
    assert n == q * m + r;
    if q < 0 {
      MulLe(-q, m);
      assert false;
    }
    MulLe(q, m);
  }

  /** Quotient and remainder are determined by any decomposition
      n == q * m + r with 0 <= r < m. */
  lemma {:induction false} DivModUnique(n: int, m: int, q: int, r: int)
    requires m > 0 && 0 <= r < m && n == q * m + r
    ensures n / m == q && n % m == r
  {
    var q', r' := n / m, n % m;
    assert n == q' * m + r';
    if q' > q {
      var d := q' - q;
      assert d * m == q' * m - q * m;
      MulLe(d, m);
    } else if q' < q {
      var d := q - q';
      assert d * m == q * m - q' * m;
      MulLe(d, m);
    }
  }

  /** n written in the mixed radix (p, a): a low digit below p, a middle
      digit below a, and the rest as a multiple of p * a. */
  lemma MixedRadix(n: nat, p: nat, a: nat)
    requires p > 0 && a > 0
    ensures n == ((n / p) / a) * (p * a) + (((n / p) % a) * p + n % p)
    ensures ((n / p) % a) * p + n % p < p * a
  {
    var q, r := n / p, n % p;
    var q2, r2 := q / a, q % a;
    assert n == q2 * (p * a) + (r2 * p + r) by {
      assert n == q * p + r;
      assert q == q2 * a + r2;
      assert q * p == q2 * (p * a) + r2 * p;
    }
    assert r2 * p + r < p * a by {
      assert r2 <= a - 1;
      assert r2 * p <= (a - 1) * p;
    }
  }

  /** Splitting a remainder modulo p * a into a low digit modulo p and
      the higher digits modulo a. */
  lemma ModMul(n: nat, p: nat, a: nat)
    requires p > 0 && a > 0
    ensures n % (p * a) == ((n / p) % a) * p + n % p
  {
    MixedRadix(n, p, a);
    DivModUnique(n, p * a, (n / p) / a, ((n / p) % a) * p + n % p);
  }

  /** The quotient of n % (p * a) by p is the higher digits of n modulo a. */
  lemma DivOfModMul(n: nat, p: nat, a: nat)
    requires p > 0 && a > 0
    ensures (n % (p * a)) / p == (n / p) % a
    ensures (n % (p * a)) % p == n % p
  {
    ModMul(n, p, a);
    DivModUnique(n % (p * a), p, (n / p) % a, n % p);
  }

  lemma DivDiv(n: nat, p: nat, a: nat)
    requires p > 0 && a > 0
    ensures (n / p) / a == n / (p * a)
  {
    MixedRadix(n, p, a);
    DivModUnique(n, p * a, (n / p) / a, ((n / p) % a) * p + n % p);
  }

  // ---------------------------------------------------------------------
  // Bitwise operators on disjoint fields

  /** Or-ing a value below 2^k into a multiple of 2^k adds it. */
  lemma {:induction false} OrDisjoint(a: nat, k: nat, b: nat)
    requires b < Pow2(k)
    ensures Or(a * Pow2(k), b) == a * Pow2(k) + b
  {
    var x := a * Pow2(k);
    if k == 0 {
      assert b == 0;
    } else if x == 0 || b == 0 {
    } else {
      assert x == 2 * (a * Pow2(k - 1));
      DivModUnique(x, 2, a * Pow2(k - 1), 0);
      OrDisjoint(a, k - 1, b / 2);
      assert Or(x, b) == 2 * Or(x / 2, b / 2) + b % 2;
    }
  }

  /** And-ing with the mask of k low one-bits keeps n modulo 2^k. */
  lemma {:induction false} AndLowMask(n: nat, k: nat)
    ensures And(n, Pow2(k) - 1) == n % Pow2(k)
  {
    if k == 0 || n == 0 {
    } else {
      var m := Pow2(k) - 1;
      assert m == 2 * (Pow2(k - 1) - 1) + 1;
      DivModUnique(m, 2, Pow2(k - 1) - 1, 1);
      AndLowMask(n / 2, k - 1);
      assert And(n, m) == 2 * ((n / 2) % Pow2(k - 1)) + n % 2;
      ModMul(n, 2, Pow2(k - 1));
    }
  }

  // ---------------------------------------------------------------------
  // Digits in radix 2^base

  /** Digit k (counted from the least significant) of n in radix 2^base. */
  function Digit(n: int, base: nat, k: nat): int
  {
    (n / Pow2(base * k)) % Pow2(base)
  }

  lemma DigitBelow(n: nat, base: nat, k: nat)
    ensures 0 <= Digit(n, base, k) < Pow2(base)
  {
    DivBounds(n, Pow2(base * k));
    DivBounds(n / Pow2(base * k), Pow2(base));
  }

  /** One more digit weighs 2^base times as much. */
  lemma Pow2Step(base: nat, i: nat)
    ensures Pow2(base * (i + 1)) == Pow2(base) * Pow2(base * i)
  {
    MulSucc(base, i);
    Pow2Add(base * i, base);
  }

  /** Digit i of n shifted right by one digit is digit i + 1 of n. */
  lemma DigitOfShifted(n: nat, base: nat, i: nat)
    ensures Digit(n / Pow2(base), base, i) == Digit(n, base, i + 1)
  {
    var p, w, w' := Pow2(base), Pow2(base * i), Pow2(base * (i + 1));
    Pow2Step(base, i);
    DivBounds(n, p);
    DivDiv(n, p, w);
    calc {
      Digit(n / p, base, i);
      ((n / p) / w) % p;
      (n / (p * w)) % p;
      (n / w') % p;
      Digit(n, base, i + 1);
    }
  }
}
