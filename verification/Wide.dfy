/** The 64-, 128- and 256-bit unsigned integers of glue/compiler_rt.c.

    Every helper works word by word, as the C code does; its contract says what the result is
    as one number.  `Val` reads a pair of words as a number below 2^128.
 */
module Wide {
  import opened Bits

  const W: nat := 0x1_0000_0000_0000_0000
  const WW: nat := 0x1_0000_0000_0000_0000_0000_0000_0000_0000

  type Word = x: nat | x < 0x1_0000_0000_0000_0000

  datatype U128 = U128(lo: Word, hi: Word)

  function Val(a: U128): nat { a.lo + a.hi * W }

  lemma WordPowers()
    ensures Pow2(32) == 0x1_0000_0000 && Pow2(64) == W && Pow2(128) == WW && W * W == WW
  {
    assert Pow2(8) == 256;
    Pow2Double(8, 256);
    Pow2Double(16, 0x1_0000);
    Pow2Double(32, 0x1_0000_0000);
    Pow2Double(64, W);
  }

  lemma Pow2Double(n: nat, p: nat)
    requires Pow2(n) == p
    ensures Pow2(2 * n) == p * p
  {
    Pow2Add(n, n);
  }

  lemma ValRange(a: U128)
    ensures Val(a) < WW && Val(a) / W == a.hi && Val(a) % W == a.lo
  {
    DivUnique(Val(a), W, a.hi, a.lo);
  }

  /** The two words of a number below 2^128. */
  function Split(x: nat): (r: U128)
    requires x < WW
    ensures Val(r) == x
  {
    U128(x % W, x / W)
  }

  // ---- 64-bit words ----

  /** `x << n` on uint64_t. */
  function Shl64(x: Word, n: nat): (r: Word)
    requires n < 64
  {
    (x * Pow2(n)) % W
  }

  lemma Shr64Fits(x: Word, n: nat)
    ensures 0 <= x / Pow2(n) < W
  {
    hide Pow2;
    DivMod(x, Pow2(n));
    DivAtMost(x, Pow2(n));
  }

  /** `x >> n` on uint64_t. */
  function Shr64(x: Word, n: nat): (r: Word)
    requires n < 64
  {
    Shr64Fits(x, n);
    x / Pow2(n)
  }

  function Or64(a: Word, b: Word): (r: Word)
  {
    assert Or(a, b) < W by { hide Pow2, Or; WordPowers(); OrSplit(a, 0, b, 0, 64); }
    Or(a, b)
  }

  function And64(a: Word, b: Word): (r: Word)
  {
    assert And(a, b) < W by { hide Pow2, And; WordPowers(); AndSplit(a, 0, b, 0, 64); }
    And(a, b)
  }

  function Not64(a: Word): (r: Word) { W - 1 - a }

  /** Shifting left keeps the low `64 - n` bits. */
  lemma Shl64Parts(x: Word, n: nat)
    requires n < 64
    ensures Shl64(x, n) == x % Pow2(64 - n) * Pow2(n)
    ensures Shl64(x, n) + x / Pow2(64 - n) * W == x * Pow2(n)
    ensures x / Pow2(64 - n) < Pow2(n)
  {
    Pow2Word(n);
    ShlParts(x, Pow2(n), Pow2(64 - n));
  }

  lemma ShlParts(x: Word, p: nat, q: nat)
    requires 0 < p && 0 < q && p * q == W
    ensures (x * p) % W == x % q * p
    ensures x % q * p + x / q * W == x * p
    ensures x / q < p
  {
    var h, l := x / q, x % q;
    DivMod(x, q);
    ShlPartsSum(x, p, q, h, l);
    DivUnique(x * p, W, h, l * p);
    DivBelow(x, q, p);
  }

  lemma ShlPartsSum(x: nat, p: nat, q: nat, h: nat, l: nat)
    requires p * q == W && x == l + h * q && l < q
    ensures l * p < W && x * p == h * W + l * p
  {
    assert (h * q) * p == h * (p * q);
    MulLe(l, p, q - 1, p);
    assert (q - 1) * p == p * q - p;
    assert p != 0;
  }

  // ---- 128-bit helpers ----

  function From64(v: Word): (r: U128)
    ensures Val(r) == v
  {
    U128(v, 0)
  }

  function Or128(a: U128, b: U128): (r: U128)
    ensures Val(r) == Or(Val(a), Val(b))
  {
    OrWords(a, b);
    U128(Or64(a.lo, b.lo), Or64(a.hi, b.hi))
  }

  function And128(a: U128, b: U128): (r: U128)
    ensures Val(r) == And(Val(a), Val(b))
  {
    AndWords(a, b);
    U128(And64(a.lo, b.lo), And64(a.hi, b.hi))
  }

  lemma OrWords(a: U128, b: U128)
    ensures Or(Val(a), Val(b)) == Or(a.lo, b.lo) + Or(a.hi, b.hi) * W
  {
    hide Pow2, Or;
    WordPowers();
    OrSplit(a.lo, a.hi, b.lo, b.hi, 64);
  }

  lemma AndWords(a: U128, b: U128)
    ensures And(Val(a), Val(b)) == And(a.lo, b.lo) + And(a.hi, b.hi) * W
  {
    hide Pow2, And;
    WordPowers();
    AndSplit(a.lo, a.hi, b.lo, b.hi, 64);
  }

  function Not128(a: U128): (r: U128)
    ensures Val(r) == WW - 1 - Val(a)
  {
    U128(Not64(a.lo), Not64(a.hi))
  }

  predicate IsZero(a: U128)
    ensures IsZero(a) <==> Val(a) == 0
  {
    a.lo == 0 && a.hi == 0
  }

  predicate Gt(a: U128, b: U128)
    ensures Gt(a, b) <==> Val(a) > Val(b)
  {
    a.hi > b.hi || (a.hi == b.hi && a.lo > b.lo)
  }

  predicate Ge(a: U128, b: U128)
    ensures Ge(a, b) <==> Val(a) >= Val(b)
  {
    a.hi > b.hi || (a.hi == b.hi && a.lo >= b.lo)
  }

  function Add128(a: U128, b: U128): (r: U128)
    ensures Val(r) == (Val(a) + Val(b)) % WW
  {
    var lo := (a.lo + b.lo) % W;
    var hi := (a.hi + b.hi + (if lo < a.lo then 1 else 0)) % W;
    assert lo == if a.lo + b.lo < W then a.lo + b.lo else a.lo + b.lo - W;
    var s := a.hi + b.hi + (if lo < a.lo then 1 else 0);
    assert hi == if s < W then s else s - W;
    WrapSum(Val(a) + Val(b), lo + s * W, lo + hi * W);
    U128(lo, hi)
  }

  function Sub128(a: U128, b: U128): (r: U128)
    ensures Val(r) == (Val(a) - Val(b)) % WW
  {
    var lo := (a.lo - b.lo) % W;
    var hi := (a.hi - b.hi - (if a.lo < b.lo then 1 else 0)) % W;
    assert lo == if a.lo < b.lo then a.lo - b.lo + W else a.lo - b.lo;
    var d := a.hi - b.hi - (if a.lo < b.lo then 1 else 0);
    assert hi == if d < 0 then d + W else d;
    WrapDifference(Val(a) - Val(b), lo + d * W, lo + hi * W);
    U128(lo, hi)
  }

  lemma WrapSum(x: int, y: int, z: int)
    requires x == y && 0 <= z < WW && (z == y || z == y - WW)
    ensures z == x % WW
  {
  }

  lemma WrapDifference(x: int, y: int, z: int)
    requires x == y && 0 <= z < WW && (z == y || z == y + WW)
    ensures z == x % WW
  {
  }

  /** The C helper takes any non-negative count. */
  function Shl128(a: U128, n: nat): (r: U128)
    ensures Val(r) == (Val(a) * Pow2(n)) % WW
  {
    if n == 0 then ValRange(a); a
    else if n >= 128 then ShlAll(Val(a), n); U128(0, 0)
    else if n >= 64 then Shl128High(a, n); U128(0, Shl64(a.lo, n - 64))
    else Shl128Low(a, n); U128(Shl64(a.lo, n), Or64(Shl64(a.hi, n), Shr64(a.lo, 64 - n)))
  }

  function Shr128(a: U128, n: nat): (r: U128)
    ensures Val(r) == Val(a) / Pow2(n)
  {
    if n == 0 then a
    else if n >= 128 then ShrAll(Val(a), n); U128(0, 0)
    else if n >= 64 then Shr128High(a, n); U128(Shr64(a.hi, n - 64), 0)
    else Shr128Low(a, n); U128(Or64(Shr64(a.lo, n), Shl64(a.hi, 64 - n)), Shr64(a.hi, n))
  }

  lemma ShlAll(x: nat, n: nat)
    requires n >= 128
    ensures (x * Pow2(n)) % WW == 0
  {
    WordPowers();
    Pow2Add(n - 128, 128);
    var k := x * Pow2(n - 128);
    assert x * Pow2(n) == k * WW;
    DivUnique(x * Pow2(n), WW, k, 0);
  }

  lemma ShrAll(x: nat, n: nat)
    requires n >= 128 && x < WW
    ensures x / Pow2(n) == 0
  {
    WordPowers();
    Pow2Monotone(128, n);
    DivUnique(x, Pow2(n), 0, x);
  }

  lemma Shl128High(a: U128, n: nat)
    requires 64 <= n < 128
    ensures Val(U128(0, Shl64(a.lo, n - 64))) == (Val(a) * Pow2(n)) % WW
  {
    WordPowers();
    hide Pow2, Shl64;
    Pow2Add(n - 64, 64);
    Shl64Parts(a.lo, n - 64);
    Shl128HighSum(a, Pow2(n - 64), Shl64(a.lo, n - 64), a.lo / Pow2(64 - (n - 64)));
  }

  lemma Shl128HighSum(a: U128, p: nat, l: nat, c: nat)
    requires l + c * W == a.lo * p && l < W
    ensures l * W == (Val(a) * (p * W)) % WW
  {
    MulDist(a.lo, a.hi * W, p);
    MulAssoc(Val(a), p, W);
    assert a.hi * W * p == a.hi * p * W by { MulSwap(a.hi, W, p); }
    DivUnique(Val(a) * (p * W), WW, a.hi * p + c, l * W);
  }

  lemma Shl128Low(a: U128, n: nat)
    requires 0 < n < 64
    ensures Val(U128(Shl64(a.lo, n), Or64(Shl64(a.hi, n), Shr64(a.lo, 64 - n)))) == (Val(a) * Pow2(n)) % WW
  {
    hide Pow2, Or64, Shl64;
    Shl64Parts(a.lo, n);
    Shl64Parts(a.hi, n);
    Shl128LowWord(a, n);
    Shl128Sum(a, Pow2(n), Shl64(a.lo, n), Shl64(a.hi, n), Shr64(a.lo, 64 - n), a.hi / Pow2(64 - n));
  }

  lemma Shl128LowWord(a: U128, n: nat)
    requires 0 < n < 64
    ensures Or64(Shl64(a.hi, n), Shr64(a.lo, 64 - n)) == Shl64(a.hi, n) + Shr64(a.lo, 64 - n)
  {
    Shl64Parts(a.lo, n);
    Shl64Parts(a.hi, n);
    OrDisjoint(a.lo / Pow2(64 - n), a.hi % Pow2(64 - n), n);
  }

  lemma Shl128Sum(a: U128, p: nat, lo': nat, hi': nat, c: nat, h: nat)
    requires lo' + c * W == a.lo * p && hi' + h * W == a.hi * p
    requires lo' < W && hi' + c < W
    ensures lo' + (hi' + c) * W == (Val(a) * p) % WW
  {
    assert Val(a) * p == a.lo * p + (a.hi * p) * W;
    assert (hi' + h * W) * W == hi' * W + h * WW;
    DivUnique(Val(a) * p, WW, h, lo' + (hi' + c) * W);
  }

  lemma Shr128High(a: U128, n: nat)
    requires 64 <= n < 128
    ensures Val(U128(Shr64(a.hi, n - 64), 0)) == Val(a) / Pow2(n)
  {
    WordPowers();
    Pow2Add(64, n - 64);
    ValRange(a);
    DivDiv(Val(a), W, Pow2(n - 64));
  }

  lemma Shr128Low(a: U128, n: nat)
    requires 0 < n < 64
    ensures Val(U128(Or64(Shr64(a.lo, n), Shl64(a.hi, 64 - n)), Shr64(a.hi, n))) == Val(a) / Pow2(n)
  {
    Shl64Parts(a.hi, 64 - n);
    Shr64Below(a.lo, n);
    OrDisjoint(Shr64(a.lo, n), a.hi % Pow2(n), 64 - n);
    Pow2Word(n);
    Shr128Sum(a, Pow2(n), Pow2(64 - n));
  }

  lemma Pow2Word(n: nat)
    requires n <= 64
    ensures Pow2(n) * Pow2(64 - n) == W
  {
    WordPowers();
    Pow2Add(n, 64 - n);
  }

  lemma Shr64Below(x: Word, n: nat)
    requires n < 64
    ensures Shr64(x, n) < Pow2(64 - n)
  {
    Pow2Word(n);
    DivBelow(x, Pow2(n), Pow2(64 - n));
  }

  /** `(y << (64 - s)) | (x >> s)` */
  function Funnel(x: Word, y: Word, s: nat): (r: Word)
    requires 0 < s < 64
    ensures r == x / Pow2(s) + y % Pow2(s) * Pow2(64 - s)
  {
    FunnelWord(x, y, s);
    Or64(Shl64(y, 64 - s), Shr64(x, s))
  }

  lemma FunnelWord(x: Word, y: Word, s: nat)
    requires 0 < s < 64
    ensures Or64(Shl64(y, 64 - s), Shr64(x, s)) == x / Pow2(s) + y % Pow2(s) * Pow2(64 - s)
  {
    hide Or, Pow2;
    Shl64Parts(y, 64 - s);
    Shr64Below(x, s);
    OrDisjoint(x / Pow2(s), y % Pow2(s), 64 - s);
  }

  lemma Shr128Sum(a: U128, p: nat, q: nat)
    requires 0 < p && p * q == W
    ensures a.lo / p + a.hi % p * q + a.hi / p * W == Val(a) / p
  {
    DivMod(a.lo, p);
    DivMod(a.hi, p);
    var u := a.lo / p + a.hi % p * q + a.hi / p * W;
    assert u * p == (a.lo / p) * p + (a.hi % p) * (p * q) + (a.hi / p * p) * W;
    DivUnique(Val(a), p, u, a.lo % p);
  }

  /** `x.lo |= 1` */
  function SetLast(a: U128): (r: U128)
    ensures Val(r) == if Val(a) % 2 == 1 then Val(a) else Val(a) + 1
  {
    OrOne(a.lo);
    ValParity(a);
    U128(Or64(a.lo, 1), a.hi)
  }

  lemma ValParity(a: U128)
    ensures Val(a) % 2 == a.lo % 2
  {
    DivUnique(Val(a), 2, a.lo / 2 + a.hi * 0x8000_0000_0000_0000, a.lo % 2);
  }

  // ---- leading zeros ----

  lemma SmallPowers()
    ensures Pow2(1) == 2 && Pow2(2) == 4 && Pow2(3) == 8 && Pow2(4) == 16 && Pow2(8) == 0x100
    ensures Pow2(16) == 0x1_0000 && Pow2(63) == 0x8000_0000_0000_0000
  {
    Pow2Double(8, 256);
    WordPowers();
    assert Pow2(64) == 2 * Pow2(63);
  }

  /** One stage of the shift cascade: `if (x <= W / c - 1) { n += s; x <<= s; }` with `c == 2^s`. */
  method ClzStage(ghost a: Word, x0: Word, n0: nat, s: nat, ghost c: nat, ghost low: nat, limit: nat)
    returns (x: Word, n: nat)
    requires x0 == a * Pow2(n0) && s < 64 && c == Pow2(s)
    requires low <= x0 && (limit + 1) * c == W && low * c <= limit + 1
    ensures x == a * Pow2(n) && low * c <= x && n0 <= n <= n0 + s
  {
    hide Pow2;
    x, n := x0, n0;
    if x <= limit {
      MulLe(x, c, limit, c);
      assert limit * c == W - c;
      MulLe(low, c, x, c);
      Pow2Add(n, s);
      MulAssoc(a, Pow2(n), c);
      n := n + s;
      x := Shl64(x, s);
    }
  }

  /** The shift cascade of `u128_clz` and `__floatunditf` on one non-zero word: the count that
      brings the leading bit to position 63. */
  method Clz64(a: Word) returns (n: nat)
    requires a != 0
    ensures n < 64 && Pow2(63) <= a * Pow2(n) < W
  {
    assert Pow2(0) == 1;
    hide Pow2;
    SmallPowers();
    WordPowers();
    var x: Word := a;
    n := 0;
    x, n := ClzStage(a, x, n, 32, 0x1_0000_0000, 1, 0xFFFF_FFFF);
    x, n := ClzStage(a, x, n, 16, 0x1_0000, 0x1_0000_0000, 0xFFFF_FFFF_FFFF);
    x, n := ClzStage(a, x, n, 8, 0x100, 0x1_0000_0000_0000, 0xFF_FFFF_FFFF_FFFF);
    x, n := ClzStage(a, x, n, 4, 16, 0x100_0000_0000_0000, 0xFFF_FFFF_FFFF_FFFF);
    x, n := ClzStage(a, x, n, 2, 4, 0x1000_0000_0000_0000, 0x3FFF_FFFF_FFFF_FFFF);
    if x <= 0x7FFF_FFFF_FFFF_FFFF {
      Pow2Add(n, 1);
      MulAssoc(a, Pow2(n), 2);
      n := n + 1;
    }
  }

  method Clz128(a: U128) returns (n: nat)
    ensures Val(a) == 0 <==> n == 128
    ensures n < 128 ==> Pow2(127) <= Val(a) * Pow2(n) < WW
    ensures n <= 128
  {
    if a.hi != 0 {
      n := Clz64(a.hi);
      ClzHigh(a, n);
      return;
    }
    if a.lo != 0 {
      n := Clz64(a.lo);
      ClzLow(a.lo, n);
      n := n + 64;
      return;
    }
    return 128;
  }

  lemma ClzHigh(a: U128, n: nat)
    requires Pow2(63) <= a.hi * Pow2(n) < W && n < 64
    ensures Pow2(127) <= Val(a) * Pow2(n) < WW
  {
    hide Pow2;
    WordPowers();
    Pow2Word(n);
    ClzHighSum(a.lo, a.hi, Pow2(n), Pow2(64 - n), Pow2(63));
    Pow2Add(63, 64);
  }

  lemma ClzHighSum(lo: Word, hi: nat, p: nat, q: nat, t: nat)
    requires p * q == W && t <= hi * p < W
    ensures t * W <= (lo + hi * W) * p < WW
  {
    assert (lo + hi * W) * p == lo * p + (hi * p) * W;
    assert hi + 1 <= q by {
      if hi >= q { MulLe(q, p, hi, p); }
    }
    MulLe(hi + 1, p, q, p);
    assert (hi + 1) * p == hi * p + p;
    MulLe(lo, p, W - 1, p);
    assert p > 0;
  }

  lemma ClzLow(x: Word, n: nat)
    requires Pow2(63) <= x * Pow2(n) < W
    ensures Pow2(127) <= x * Pow2(n + 64) < WW
  {
    hide Pow2;
    WordPowers();
    Pow2Add(63, 64);
    Pow2Add(n, 64);
    MulAssoc(x, Pow2(n), W);
  }

  // ---- wide multiplication ----

  const H: nat := 0x1_0000_0000

  lemma HalvesOf(x: Word)
    ensures And64(x, 0xFFFF_FFFF) == x % H && Shr64(x, 32) == x / H
    ensures x == x % H + x / H * H && x / H < H
  {
    WordPowers();
    AndMask(x, 32);
  }

  /** The full product of two 64-bit words. */
  method Mul64(a: Word, b: Word) returns (hi: Word, lo: Word)
    ensures lo + hi * W == a * b
  {
    hide And64, Shr64, Or64, Shl64;
    HalvesOf(a);
    HalvesOf(b);
    var aLo, aHi := And64(a, 0xFFFF_FFFF), Shr64(a, 32);
    var bLo, bHi := And64(b, 0xFFFF_FFFF), Shr64(b, 32);
    var p00 := HalfProduct(aLo, bLo);
    var p01 := HalfProduct(aLo, bHi);
    var p10 := HalfProduct(aHi, bLo);
    var p11 := HalfProduct(aHi, bHi);
    Mul64Sum(a, b, aLo, aHi, bLo, bHi);
    hi, lo := Mul64Join(p00, p01, p10, p11, a, b);
  }

  /** The column sums of the schoolbook product. */
  method Mul64Join(p00: Word, p01: Word, p10: Word, p11: Word, ghost a: Word, ghost b: Word)
    returns (hi: Word, lo: Word)
    requires a * b == p00 + (p01 + p10) * H + p11 * W
    ensures lo + hi * W == a * b
  {
    hide And64, Shr64, Or64, Shl64;
    HalvesOf(p00);
    HalvesOf(p01);
    HalvesOf(p10);
    MiddleFits(p00, p01, p10);
    var mid: Word := (Shr64(p00, 32) + And64(p01, 0xFFFF_FFFF) + And64(p10, 0xFFFF_FFFF)) % W;
    HalvesOf(mid);
    JoinHalves(p00, mid);
    lo := Or64(And64(p00, 0xFFFF_FFFF), Shl64(mid, 32));
    ghost var h := p11 + p01 / H + p10 / H + mid / H;
    Mul64Columns(p00, p01, p10, p11, mid, lo, h);
    ProductBound(a, b, lo, h);
    DivUnique(h, W, 0, h);
    hi := (p11 + Shr64(p01, 32) + Shr64(p10, 32) + Shr64(mid, 32)) % W;
  }

  lemma MiddleFits(x: Word, y: Word, z: Word)
    ensures 0 <= x / H && 0 <= y % H && 0 <= z % H
    ensures (x / H + y % H + z % H) % W == x / H + y % H + z % H
  {
    var m := x / H + y % H + z % H;
    DivUnique(m, W, 0, m);
  }

  lemma Mul64Columns(p00: nat, p01: nat, p10: nat, p11: nat, mid: nat, lo: nat, h: nat)
    requires mid == p00 / H + p01 % H + p10 % H
    requires lo == p00 % H + mid % H * H && h == p11 + p01 / H + p10 / H + mid / H
    ensures lo + h * W == p00 + (p01 + p10) * H + p11 * W
  {
    DivMod(p00, H);
    DivMod(p01, H);
    DivMod(p10, H);
    DivMod(mid, H);
  }

  /** A 32x32-bit product does not wrap. */
  method HalfProduct(x: nat, y: nat) returns (p: Word)
    requires x < H && y < H
    ensures p == x * y
  {
    MulLe(x, y, H - 1, H - 1);
    p := (x * y) % W;
  }

  lemma JoinHalves(x: Word, y: Word)
    ensures Or64(And64(x, 0xFFFF_FFFF), Shl64(y, 32)) == x % H + y % H * H
  {
    HalvesOf(x);
    WordPowers();
    Shl64Parts(y, 32);
    OrDisjoint(x % H, y % H, 32);
  }

  lemma Mul64Sum(a: nat, b: nat, aLo: nat, aHi: nat, bLo: nat, bHi: nat)
    requires a == aLo + aHi * H && b == bLo + bHi * H
    ensures a * b == aLo * bLo + (aLo * bHi + aHi * bLo) * H + aHi * bHi * W
  {
    calc {
      a * b;
      aLo * b + (aHi * H) * b;
      aLo * bLo + aLo * (bHi * H) + (aHi * H) * bLo + (aHi * H) * (bHi * H);
      { assert aLo * (bHi * H) == aLo * bHi * H; assert (aHi * H) * bLo == aHi * bLo * H;
        assert (aHi * H) * (bHi * H) == aHi * bHi * W; }
      aLo * bLo + (aLo * bHi + aHi * bLo) * H + aHi * bHi * W;
    }
  }

  lemma ProductBound(a: Word, b: Word, lo: nat, h: nat)
    requires lo + h * W == a * b
    ensures h < W
  {
    MulLe(a, b, W - 1, W - 1);
  }

  datatype U256 = U256(w0: Word, w1: Word, w2: Word, w3: Word)

  function Val256(a: U256): nat { a.w0 + a.w1 * W + (a.w2 + a.w3 * W) * WW }

  /** `s = x + y; carry = s < x`. */
  method AddCarry(x: Word, y: Word) returns (s: Word, carry: nat)
    ensures s + carry * W == x + y && carry <= 1
  {
    s := (x + y) % W;
    carry := if s < x then 1 else 0;
  }

  /** The exact 256-bit product, for every pair of 128-bit inputs. */
  method MulFull(a: U128, b: U128) returns (r: U256)
    ensures Val256(r) == Val(a) * Val(b)
  {
    var h0, l0 := Mul64(a.lo, b.lo);
    var h1, l1 := Mul64(a.lo, b.hi);
    var h2, l2 := Mul64(a.hi, b.lo);
    var h3, l3 := Mul64(a.hi, b.hi);
    MulFullSum(a, b, l0 + h0 * W, l1 + h1 * W, l2 + h2 * W, l3 + h3 * W);
    r := MulColumns(h0, l0, h1, l1, h2, l2, h3, l3);
  }

  /** Column sums with carries. */
  method MulColumns(h0: Word, l0: Word, h1: Word, l1: Word, h2: Word, l2: Word, h3: Word, l3: Word)
    returns (r: U256)
    requires l0 + h0 * W + (l1 + h1 * W + l2 + h2 * W) * W + (l3 + h3 * W) * WW < WW * WW
    ensures Val256(r) == l0 + h0 * W + (l1 + h1 * W + l2 + h2 * W) * W + (l3 + h3 * W) * WW
  {
    var w1, c := AddCarry(h0, l1);
    var w1b, c' := AddCarry(w1, l2);
    assert h0 + l1 + l2 == w1b + (c + c') * W;

    var w2, d := AddCarry(l3, c + c');
    var w2b, d' := AddCarry(w2, h1);
    var w2c, d'' := AddCarry(w2b, h2);
    var carry: nat := d + d' + d'';
    assert l3 + (c + c') + h1 + h2 == w2c + carry * W;

    assert h3 + carry < W;
    r := U256(l0, w1b, w2c, (h3 + carry) % W);
  }

  lemma MulFullSum(a: U128, b: U128, p0: nat, p1: nat, p2: nat, p3: nat)
    requires p0 == a.lo * b.lo && p1 == a.lo * b.hi && p2 == a.hi * b.lo && p3 == a.hi * b.hi
    ensures Val(a) * Val(b) == p0 + (p1 + p2) * W + p3 * WW
    ensures Val(a) * Val(b) < WW * WW
  {
    assert Val(a) * Val(b) == a.lo * b.lo + a.lo * (b.hi * W) + (a.hi * W) * b.lo + (a.hi * W) * (b.hi * W);
    MulAssoc(a.lo, b.hi, W);
    assert (a.hi * W) * b.lo == a.hi * b.lo * W;
    assert (a.hi * W) * (b.hi * W) == a.hi * b.hi * WW;
    ValRange(a);
    ValRange(b);
    MulLe(Val(a), Val(b), WW - 1, WW - 1);
  }
}
