/** Python's integer bit operators `<<`, `>>`, `&` and `^`, restricted to
    non-negative operands, as functions on unbounded integers, with the facts
    about them that the field extractor needs. */
module Bits {

  /** 2 to the power n. */
  function Pow2(n: nat): (r: nat)
    ensures r >= 1
  {
    if n == 0 then 1 else 2 * Pow2(n - 1)
  }

  /** The number whose n low bits are ones: 2^n - 1. */
  function Ones(n: nat): nat
  {
    if n == 0 then 0 else 2 * Ones(n - 1) + 1
  }

  /** `x << n`: x doubled n times (Python integers never overflow). */
  function ShiftLeft(x: nat, n: nat): nat
  {
    if n == 0 then x else 2 * ShiftLeft(x, n - 1)
  }

  /** `x >> n`: x halved n times, rounding down. */
  function ShiftRight(x: nat, n: nat): nat
  {
    if n == 0 then x else ShiftRight(x / 2, n - 1)
  }

  /** `x & y`, bit by bit from the least significant bit up. */
  function BitAnd(x: nat, y: nat): nat
    decreases x
  {
    if x == 0 || y == 0 then 0
    else 2 * BitAnd(x / 2, y / 2) + (if x % 2 == 1 && y % 2 == 1 then 1 else 0)
  }

  /** `x ^ y`, bit by bit from the least significant bit up. */
  function BitXor(x: nat, y: nat): nat
    decreases x + y
  {
    if x == 0 && y == 0 then 0
    else 2 * BitXor(x / 2, y / 2) + (if x % 2 != y % 2 then 1 else 0)
  }

  /** d*t >= d for a positive d and t >= 1. */
  lemma {:induction false} MulAtLeast(d: int, t: int)
    requires d > 0 && t >= 1
    ensures d * t >= d
  {
    assert d * t == d * (t - 1) + d;
    if t > 1 {
      MulAtLeast(d, t - 1);
    }
  }

  /** (a*b)*c == a*(b*c). */
  lemma MulAssoc(a: int, b: int, c: int)
    ensures (a * b) * c == a * (b * c)
  {
  }

  /** Dividing by a positive number never makes a natural number larger. */
  lemma DivAtMost(x: nat, p: nat)
    requires p >= 1
    ensures x / p <= x
  {
    var q := x / p;
    if q >= 1 {
      MulAtLeast(p, q);
      MulAssoc(1, p, q);
      assert p * q >= q by { MulAtLeast(q, p); }
    }
  }

  /** Quotient and remainder are determined by any decomposition x == d*q + m with 0 <= m < d. */
  lemma DivModUnique(x: int, d: int, q: int, m: int)
    requires d > 0 && 0 <= m < d && x == d * q + m
    ensures x / d == q && x % d == m
  {
    var q', m' := x / d, x % d;
    assert x == d * q' + m';
    assert d * (q - q') == m' - m;
    if q > q' {
      MulAtLeast(d, q - q');
    } else if q < q' {
      MulAtLeast(d, q' - q);
    }
  }

  /** Removing the lowest bit commutes with taking a remainder modulo a power of two. */
  lemma ModPow2Step(x: nat, n: nat)
    requires n > 0
    ensures x % Pow2(n) == 2 * ((x / 2) % Pow2(n - 1)) + x % 2
    ensures (x % Pow2(n)) / 2 == (x / 2) % Pow2(n - 1)
    ensures (x % Pow2(n)) % 2 == x % 2
  {
    var p := Pow2(n - 1);
    var q, u, r := (x / 2) / p, (x / 2) % p, x % 2;
    assert x == 2 * (x / 2) + r;
    assert x / 2 == p * q + u;
    assert x == (2 * p) * q + (2 * u + r);
    DivModUnique(x, 2 * p, q, 2 * u + r);
    DivModUnique(2 * u + r, 2, u, r);
  }

  /** Shifting right by n+1 is shifting right by one, then by n. */
  lemma DivPow2Step(x: nat, n: nat)
    ensures x / Pow2(n + 1) == (x / 2) / Pow2(n)
  {
    var p := Pow2(n);
    var q, u, r := (x / 2) / p, (x / 2) % p, x % 2;
    assert x == 2 * (x / 2) + r;
    assert x / 2 == p * q + u;
    assert x == (2 * p) * q + (2 * u + r);
    DivModUnique(x, 2 * p, q, 2 * u + r);
  }

  /** `x ^ 0 == x`. */
  lemma {:induction false} XorZeroRight(x: nat)
    ensures BitXor(x, 0) == x
    decreases x
  {
    if x != 0 {
      XorZeroRight(x / 2);
    }
  }

  /** An AND with an operand below 2^n only sees the mask's low n bits. */
  lemma {:induction false} AndLowBits(x: nat, m: nat, n: nat)
    requires x < Pow2(n)
    ensures BitAnd(x, m) == BitAnd(x, m % Pow2(n))
    decreases n
  {
    if n == 0 || x == 0 {
    } else {
      ModPow2Step(m, n);
      AndLowBits(x / 2, m / 2, n - 1);
      var m' := m % Pow2(n);
      if m' == 0 {
        assert (m / 2) % Pow2(n - 1) == 0;
        assert BitAnd(x / 2, m / 2) == BitAnd(x / 2, 0) == 0;
      } else {
        assert m' / 2 == (m / 2) % Pow2(n - 1);
      }
    }
  }

  /** An AND with k low one-bits is the remainder modulo 2^k. */
  lemma {:induction false} AndOnes(x: nat, k: nat)
    ensures BitAnd(x, Pow2(k) - 1) == x % Pow2(k)
    decreases k
  {
    if k == 0 {
      assert Pow2(k) == 1;
    } else if x == 0 {
      DivModUnique(0, Pow2(k), 0, 0);
    } else {
      AndOnesStep(x, k);
      AndOnes(x / 2, k - 1);
      ModPow2Step(x, k);
    }
  }

  /** One step of AndOnes: the lowest bit of x survives, the rest meet k-1 ones. */
  lemma AndOnesStep(x: nat, k: nat)
    requires x > 0 && k > 0
    ensures BitAnd(x, Pow2(k) - 1) == 2 * BitAnd(x / 2, Pow2(k - 1) - 1) + x % 2
  {
    var p, m := Pow2(k - 1), Pow2(k) - 1;
    assert m == 2 * (p - 1) + 1;
    DivModUnique(m, 2, p - 1, 1);
  }

  /** `Ones(n) ^ Ones(j)` for j <= n: the ones from bit j to bit n-1, that is Ones(n-j) << j. */
  lemma {:induction false} XorOnes(n: nat, j: nat)
    requires j <= n
    ensures BitXor(Ones(n), Ones(j)) == ShiftLeft(Ones(n - j), j)
    decreases j
  {
    if j == 0 {
      XorZeroRight(Ones(n));
    } else {
      XorOddOdd(Ones(n - 1), Ones(j - 1));
      XorOnes(n - 1, j - 1);
      assert (n - 1) - (j - 1) == n - j;
    }
  }

  /** XOR of `c << k` with j >= k low ones: the low k ones survive, above them
      stands `c ^ Ones(j-k)` shifted left by k. */
  lemma {:induction false} XorShiftedOnes(c: nat, k: nat, j: nat)
    requires k <= j
    ensures BitXor(ShiftLeft(c, k), Ones(j)) == Ones(k) + ShiftLeft(BitXor(c, Ones(j - k)), k)
    decreases k
  {
    if k > 0 {
      XorEvenOdd(ShiftLeft(c, k - 1), Ones(j - 1));
      XorShiftedOnes(c, k - 1, j - 1);
      assert (j - 1) - (k - 1) == j - k;
    }
  }

  /** `(2a) ^ (2b + 1) == 2 * (a ^ b) + 1`. */
  lemma XorEvenOdd(a: nat, b: nat)
    ensures BitXor(2 * a, 2 * b + 1) == 2 * BitXor(a, b) + 1
  {
    DivModUnique(2 * a, 2, a, 0);
    DivModUnique(2 * b + 1, 2, b, 1);
  }

  /** `(2a + 1) ^ (2b + 1) == 2 * (a ^ b)`. */
  lemma XorOddOdd(a: nat, b: nat)
    ensures BitXor(2 * a + 1, 2 * b + 1) == 2 * BitXor(a, b)
  {
    DivModUnique(2 * a + 1, 2, a, 1);
    DivModUnique(2 * b + 1, 2, b, 1);
  }

  /** Shifting left by a, then by b, is shifting left by a + b. */
  lemma {:induction false} ShiftLeftAdd(x: nat, a: nat, b: nat)
    ensures ShiftLeft(ShiftLeft(x, a), b) == ShiftLeft(x, a + b)
    decreases b
  {
    if b > 0 {
      ShiftLeftAdd(x, a, b - 1);
    }
  }

  /** `x << n == x * 2^n`. */
  lemma {:induction false} ShiftLeftIsMul(x: nat, n: nat)
    ensures ShiftLeft(x, n) == x * Pow2(n)
    decreases n
  {
    if n > 0 {
      ShiftLeftIsMul(x, n - 1);
      MulAssoc(2, x, Pow2(n - 1));
      MulAssoc(x, 2, Pow2(n - 1));
    }
  }

  /** `x << 8 == 256 * x`. */
  lemma ShiftLeftByte(x: nat)
    ensures ShiftLeft(x, 8) == 256 * x
  {
    var p := Pow2(8);
    assert p == 256;
    ShiftLeftIsMul(x, 8);
  }

  /** `x >> n == x / 2^n`. */
  lemma {:induction false} ShiftRightIsDiv(x: nat, n: nat)
    ensures ShiftRight(x, n) == x / Pow2(n)
    decreases n
  {
    if n > 0 {
      ShiftRightIsDiv(x / 2, n - 1);
      DivPow2Step(x, n - 1);
    }
  }

  /** Fewer low ones make a smaller number. */
  lemma {:induction false} OnesAtMost(k: nat, n: nat)
    requires k <= n
    ensures Ones(k) <= Ones(n)
    decreases n - k
  {
    if k < n {
      OnesAtMost(k + 1, n);
    }
  }

  /** Ones(n) is 2^n - 1. */
  lemma {:induction false} OnesIsPow2(n: nat)
    ensures Ones(n) == Pow2(n) - 1
    decreases n
  {
    if n > 0 {
      OnesIsPow2(n - 1);
    }
  }

  /** The mask `(255 << k) ^ 255` of a k-bit field, 0 <= k <= 8: k low one-bits, and the
      same k ones again at bits 8 .. k+7, above any byte. */
  lemma FieldMask(k: nat)
    requires k <= 8
    ensures BitXor(ShiftLeft(255, k), 255) == Ones(k) + 256 * Ones(k)
  {
    assert Ones(8) == 255;
    ByteMask(Ones(8), k);
  }

  /** FieldMask with the byte's eight ones written as Ones(8). */
  lemma ByteMask(top: nat, k: nat)
    requires top == Ones(8) && k <= 8
    ensures BitXor(ShiftLeft(top, k), top) == Ones(k) + 256 * Ones(k)
  {
    var hi := ShiftLeft(Ones(k), 8 - k);
    assert BitXor(top, Ones(8 - k)) == hi by {
      XorOnes(8, 8 - k);
      assert 8 - (8 - k) == k;
    }
    XorShiftedOnes(top, k, 8);
    assert ShiftLeft(hi, k) == 256 * Ones(k) by {
      ShiftLeftAdd(Ones(k), 8 - k, k);
      assert (8 - k) + k == 8;
      ShiftLeftByte(Ones(k));
    }
  }
}
