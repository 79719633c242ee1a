/** Powers of two, exact division and bitwise operators on natural numbers.

    The C and TypeScript sources work on 32- and 64-bit words.  A word is a natural number
    below a power of two here; `|`, `&` and `^` are defined bit by bit, and shifts are
    multiplications and divisions by `Pow2`.
 */
module Bits {

  function Pow2(n: nat): (p: nat)
    ensures p > 0
  {
    if n == 0 then 1 else 2 * Pow2(n - 1)
  }

  lemma {:induction false} Pow2Add(a: nat, b: nat)
    ensures Pow2(a + b) == Pow2(a) * Pow2(b)
  {
    if b != 0 {
      Pow2Add(a, b - 1);
      MulTwice(Pow2(a), Pow2(b - 1));
    }
  }

  lemma MulAssoc(x: nat, y: nat, z: nat)
    ensures x * (y * z) == (x * y) * z
  {
  }

  lemma MulSwap(x: nat, y: nat, z: nat)
    ensures x * (y * z) == y * (x * z)
  {
  }

  lemma MulOrder(k: nat, a: nat, b: nat)
    requires 0 < k
    ensures k * a < k * b <==> a < b
    ensures k * a == k * b <==> a == b
  {
    if a < b {
      MulLe(k, a + 1, k, b);
      assert k * (a + 1) == k * a + k;
    } else if b < a {
      MulLe(k, b + 1, k, a);
      assert k * (b + 1) == k * b + k;
    }
  }

  lemma MulBelow(x: nat, b: nat, p: nat, t: nat)
    requires x < b && b * p <= t && 0 < p
    ensures x * p < t
  {
    MulLe(x + 1, p, b, p);
    assert (x + 1) * p == x * p + p;
  }

  lemma MulDist(a: nat, b: nat, p: nat)
    ensures (a + b) * p == a * p + b * p
    ensures a >= b ==> (a - b) * p == a * p - b * p
  {
  }

  lemma MulTwice(x: nat, y: nat)
    ensures 2 * (x * y) == x * (2 * y)
  {
  }

  lemma {:induction false} Pow2Monotone(a: nat, b: nat)
    requires a <= b
    ensures Pow2(a) <= Pow2(b)
    decreases b
  {
    if a < b { Pow2Monotone(a, b - 1); }
  }

  lemma Pow2Strict(a: nat, b: nat)
    requires a < b
    ensures 2 * Pow2(a) <= Pow2(b)
  {
    Pow2Monotone(a + 1, b);
  }

  // ---- exact arithmetic ----

  lemma DivUnique(x: int, d: int, q: int, r: int)
    requires 0 < d && 0 <= r < d && x == q * d + r
    ensures x / d == q && x % d == r
  {
    var q', r' := x / d, x % d;
    assert (q - q') * d == r' - r;
    assert q - q' >= 1 ==> (q - q') * d >= d;
    assert q - q' <= -1 ==> (q - q') * d <= -d;
  }

  lemma SmallMod(x: nat, d: nat)
    requires 0 < d
    ensures x < d ==> x % d == x
    ensures 0 <= x % d < d
  {
    if x < d { DivUnique(x, d, 0, x); }
    DivMod(x, d);
  }

  lemma DivMod(x: int, d: int)
    requires 0 < d
    ensures x == x % d + x / d * d && 0 <= x % d < d
    ensures 0 <= x ==> 0 <= x / d
  {
  }

  lemma DivBelow(x: nat, d: nat, m: nat)
    requires 0 < d && x < m * d
    ensures x / d < m
  {
    DivMod(x, d);
    if m <= x / d { MulLe(m, d, x / d, d); }
  }

  lemma DivCancel(x: nat, d: nat, k: nat)
    requires 0 < d && 0 < k
    ensures k * d > 0 && (k * x) / (k * d) == x / d && (k * x) % (k * d) == k * (x % d)
  {
    var q, r := x / d, x % d;
    assert k * x == q * (k * d) + k * r by { assert x == q * d + r; }
    assert 0 <= k * r < k * d;
    DivUnique(k * x, k * d, q, k * r);
  }

  lemma DivDiv(x: nat, a: nat, b: nat)
    requires 0 < a && 0 < b
    ensures a * b > 0 && x / (a * b) == (x / a) / b
    ensures x % (a * b) == (x / a) % b * a + x % a
  {
    var q, r := x / a, x % a;
    DivMod(x, a);
    DivMod(q, b);
    DivParts(x, a, b, r, q / b, q % b);
  }

  lemma DivParts(x: nat, a: nat, b: nat, r: nat, q': nat, r': nat)
    requires x == r + (r' + q' * b) * a && r < a && r' < b
    ensures a * b > 0 && x / (a * b) == q' && x % (a * b) == r' * a + r
  {
    MulLe(1, 1, a, b);
    MulDist(r', q' * b, a);
    MulAssoc(q', b, a);
    MulLe(r' + 1, a, b, a);
    MulDist(r', 1, a);
    DivUnique(x, a * b, q', r' * a + r);
  }

  lemma DivAtLeast(x: nat, d: nat, m: nat)
    requires 0 < d && m * d <= x
    ensures m <= x / d
  {
    DivMod(x, d);
    if x / d < m { MulLe(x / d + 1, d, m, d); }
  }

  lemma DivAtMost(x: nat, d: nat)
    requires 0 < d
    ensures x / d <= x
  {
    DivBelow(x, d, x + 1) by { MulLe(x + 1, 1, x + 1, d); }
  }

  lemma MulLe(a: nat, b: nat, c: nat, d: nat)
    requires a <= c && b <= d
    ensures a * b <= c * d
  {
    assert a * b <= c * b;
    assert c * b <= c * d;
  }

  // ---- bitwise operators ----

  function Or(a: nat, b: nat): nat
    decreases a + b
  {
    if a == 0 && b == 0 then 0
    else 2 * Or(a / 2, b / 2) + (if a % 2 == 1 || b % 2 == 1 then 1 else 0)
  }

  function And(a: nat, b: nat): nat
    decreases a + b
  {
    if a == 0 && b == 0 then 0
    else 2 * And(a / 2, b / 2) + (if a % 2 == 1 && b % 2 == 1 then 1 else 0)
  }

  function Xor(a: nat, b: nat): nat
    decreases a + b
  {
    if a == 0 && b == 0 then 0
    else 2 * Xor(a / 2, b / 2) + (if a % 2 != b % 2 then 1 else 0)
  }

  lemma {:induction false} OrZero(a: nat)
    ensures Or(a, 0) == a && Or(0, a) == a
    decreases a
  {
    if a != 0 { OrZero(a / 2); }
  }

  lemma {:induction false} AndZero(a: nat)
    ensures And(a, 0) == 0 && And(0, a) == 0
    decreases a
  {
    if a != 0 { AndZero(a / 2); }
  }

  lemma {:induction false} XorZero(a: nat)
    ensures Xor(a, 0) == a && Xor(0, a) == a
    decreases a
  {
    if a != 0 { XorZero(a / 2); }
  }

  lemma HalveShifted(lo: nat, hi: nat, k: nat)
    requires k > 0
    ensures (lo + hi * Pow2(k)) / 2 == lo / 2 + hi * Pow2(k - 1)
    ensures (lo + hi * Pow2(k)) % 2 == lo % 2
    ensures lo < Pow2(k) ==> lo / 2 < Pow2(k - 1)
  {
    var y := hi * Pow2(k - 1);
    assert hi * Pow2(k) == 2 * y;
  }

  /** `|` acts separately on the bits below and above position `k`. */
  lemma {:induction false} OrSplit(a: nat, x: nat, b: nat, y: nat, k: nat)
    requires a < Pow2(k) && b < Pow2(k)
    ensures Or(a + x * Pow2(k), b + y * Pow2(k)) == Or(a, b) + Or(x, y) * Pow2(k)
    ensures Or(a, b) < Pow2(k)
    decreases k
  {
    if k != 0 {
      HalveShifted(a, x, k);
      HalveShifted(b, y, k);
      OrSplit(a / 2, x, b / 2, y, k - 1);
      HalveShifted(0, Or(x, y), k);
    }
  }

  lemma {:induction false} AndSplit(a: nat, x: nat, b: nat, y: nat, k: nat)
    requires a < Pow2(k) && b < Pow2(k)
    ensures And(a + x * Pow2(k), b + y * Pow2(k)) == And(a, b) + And(x, y) * Pow2(k)
    ensures And(a, b) < Pow2(k)
    decreases k
  {
    if k != 0 {
      HalveShifted(a, x, k);
      HalveShifted(b, y, k);
      AndSplit(a / 2, x, b / 2, y, k - 1);
      HalveShifted(0, And(x, y), k);
    }
  }

  lemma {:induction false} XorSplit(a: nat, x: nat, b: nat, y: nat, k: nat)
    requires a < Pow2(k) && b < Pow2(k)
    ensures Xor(a + x * Pow2(k), b + y * Pow2(k)) == Xor(a, b) + Xor(x, y) * Pow2(k)
    ensures Xor(a, b) < Pow2(k)
    decreases k
  {
    if k != 0 {
      HalveShifted(a, x, k);
      HalveShifted(b, y, k);
      XorSplit(a / 2, x, b / 2, y, k - 1);
      HalveShifted(0, Xor(x, y), k);
    }
  }

  /** Bits that do not overlap are joined by addition. */
  lemma OrDisjoint(lo: nat, hi: nat, k: nat)
    requires lo < Pow2(k)
    ensures Or(lo, hi * Pow2(k)) == lo + hi * Pow2(k)
    ensures Or(hi * Pow2(k), lo) == lo + hi * Pow2(k)
  {
    hide Or, Pow2;
    OrSplit(lo, 0, 0, hi, k);
    OrSplit(0, hi, lo, 0, k);
    OrZero(lo);
    OrZero(hi);
  }

  lemma {:induction false} AndOnes(a: nat, k: nat)
    requires a < Pow2(k)
    ensures And(a, Pow2(k) - 1) == a
    decreases k
  {
    if k != 0 {
      assert (Pow2(k) - 1) / 2 == Pow2(k - 1) - 1;
      AndOnes(a / 2, k - 1);
    }
  }

  /** A mask of `k` ones takes the remainder modulo `2^k`. */
  lemma {:induction false} AndMask(a: nat, k: nat)
    ensures And(a, Pow2(k) - 1) == a % Pow2(k)
    decreases k
  {
    if k == 0 {
      AndZero(a);
    } else {
      AndMask(a / 2, k - 1);
      DivDiv(a, 2, Pow2(k - 1));
      assert (Pow2(k) - 1) / 2 == Pow2(k - 1) - 1;
    }
  }

  /** A single-bit mask reads one bit. */
  lemma {:induction false} AndBit(a: nat, k: nat)
    ensures And(a, Pow2(k)) == (a / Pow2(k)) % 2 * Pow2(k)
    decreases k
  {
    if k == 0 {
      AndZero(a / 2);
    } else {
      AndBit(a / 2, k - 1);
      DivDiv(a, 2, Pow2(k - 1));
    }
  }

  lemma AndDouble(a: nat, h: nat, low: nat)
    requires low < 2
    ensures And(a, 2 * h + low) == 2 * And(a / 2, h) + a % 2 * low
  {
    assert (2 * h + low) / 2 == h;
    if a == 0 && h == 0 && low == 0 { AndZero(0); }
  }

  /** Clearing one bit subtracts it when it is set. */
  lemma {:induction false} AndClear(a: nat, k: nat, n: nat)
    requires k < n && a < Pow2(n)
    ensures Pow2(k) < Pow2(n)
    ensures And(a, Pow2(n) - 1 - Pow2(k)) == a - And(a, Pow2(k))
    decreases k
  {
    hide And, Pow2;
    Pow2Strict(k, n);
    Pow2Halves(n);
    if k == 0 {
      AndClearZero(a, n);
      PowZero();
    } else {
      Pow2Halves(k);
      var p, m := Pow2(k - 1), Pow2(n - 1);
      AndClear(a / 2, k - 1, n - 1);
      AndClearStep(a, p, m);
    }
  }

  lemma PowZero()
    ensures Pow2(0) == 1
  {
  }

  lemma Pow2Halves(n: nat)
    requires 0 < n
    ensures Pow2(n) == 2 * Pow2(n - 1)
  {
  }

  lemma AndClearZero(a: nat, n: nat)
    requires 0 < n && a < Pow2(n)
    ensures And(a, Pow2(n) - 2) == a - And(a, 1)
  {
    assert Pow2(n) == 2 * Pow2(n - 1);
    hide And, Pow2;
    AndDouble(a, Pow2(n - 1) - 1, 0);
    AndOnes(a / 2, n - 1);
    AndDouble(a, 0, 1);
    AndZero(a / 2);
  }

  lemma AndClearStep(a: nat, p: nat, m: nat)
    requires p < m && And(a / 2, m - 1 - p) == a / 2 - And(a / 2, p)
    ensures And(a, 2 * m - 1 - 2 * p) == a - And(a, 2 * p)
  {
    hide And;
    AndDouble(a, m - 1 - p, 1);
    AndDouble(a, p, 0);
  }

  lemma OrOne(a: nat)
    ensures Or(a, 1) == if a % 2 == 1 then a else a + 1
  {
    OrZero(a / 2);
  }
}
