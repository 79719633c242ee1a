/** Conversions of glue/compiler_rt.c between binary128 and 64-bit integers. */
module QuadInt {
  import opened Bits
  import opened Wide
  import opened Rounding
  import opened QuadFormat


  // ---- quad to integer ----

  /** The integer part of a significand whose binary point is `shift` places up:
      `sig.hi >> (shift - 64)` or `(sig.hi << (64 - shift)) | (sig.lo >> shift)`. */
  function IntegerWord(sig: U128, shift: nat): (r: Word)
    requires 49 <= shift <= 112 && Val(sig) / Pow2(shift) < W
    ensures r == Val(sig) / Pow2(shift)
  {
    if shift >= 64 then Shr128High(sig, shift); Shr64(sig.hi, shift - 64)
    else IntegerLow(sig, shift); Funnel(sig.lo, sig.hi, shift)
  }

  lemma IntegerLow(sig: U128, shift: nat)
    requires 0 < shift < 64 && Val(sig) / Pow2(shift) < W
    ensures Funnel(sig.lo, sig.hi, shift) == Val(sig) / Pow2(shift)
  {
    hide Pow2, Funnel;
    Pow2Word(shift);
    Shr128Sum(sig, Pow2(shift), Pow2(64 - shift));
    DivMod(sig.hi, Pow2(shift));
    NoHighWord(Funnel(sig.lo, sig.hi, shift), sig.hi / Pow2(shift));
  }

  lemma NoHighWord(lo: nat, rest: nat)
    requires lo + rest * W < W
    ensures rest == 0
  {
  }

  /** The magnitude of a finite number of exponent `BIAS + n`, as a whole number. */
  lemma WholePart(q: Quad, n: nat)
    requires Finite(q) && ExpOf(q) == BIAS + n && n <= 112
    ensures Mag(q) / Unit() == Sig(q) / Pow2(112 - n)
    ensures P112 <= Sig(q) < P113
  {
    FieldRange(q);
    hide ExpOf, Frac, Pow2;
    Pow2Add(BIAS + n - 1, 112 - n);
    assert BIAS + n - 1 + (112 - n) == BIAS + 111;
    CancelScale(Sig(q), Pow2(112 - n), Pow2(BIAS + n - 1), Mag(q), Unit());
  }

  lemma CancelScale(x: nat, d: nat, k: nat, n: nat, m: nat)
    requires 0 < d && 0 < k && n == x * k && m == k * d
    ensures m > 0 && n / m == x / d
  {
    DivCancel(x, d, k);
  }

  lemma WholeRange(sig: nat, n: nat)
    requires P112 <= sig < P113 && n <= 63
    ensures Pow2(n) <= sig / Pow2(112 - n) < Pow2(n + 1)
  {
    hide Pow2;
    QuadPowers();
    Pow2Add(n, 112 - n);
    Pow2Add(n + 1, 112 - n);
    DivAtLeast(sig, Pow2(112 - n), Pow2(n));
    DivBelow(sig, Pow2(112 - n), Pow2(n + 1));
  }

  lemma FractionOnly(q: Quad)
    requires Finite(q) && ExpOf(q) < BIAS
    ensures Mag(q) / Unit() == 0
  {
    FieldRange(q);
    hide ExpOf, Frac, Pow2;
    QuadPowers();
    Pow2Add(113, Exp(q) - 1);
    Pow2Monotone(113 + (Exp(q) - 1), BIAS + 111);
    MulOrder(Pow2(Exp(q) - 1), Sig(q), P113);
    DivUnique(Mag(q), Unit(), 0, Mag(q));
  }

  /** The magnitude's integer part when it has at most 64 bits: `q` with exponent below `BIAS + 64`. */
  function Whole(q: Quad): (r: Word)
    requires BIAS <= ExpOf(q) < BIAS + 64
    ensures r == Mag(q) / Unit()
    ensures Pow2(ExpOf(q) - BIAS) <= r < Pow2(ExpOf(q) - BIAS + 1)
  {
    WholeFits(q);
    IntegerWord(Split(Sig(q)), 112 - (ExpOf(q) - BIAS))
  }

  lemma WholeFits(q: Quad)
    requires BIAS <= ExpOf(q) < BIAS + 64
    ensures Sig(q) < WW
    ensures var n := ExpOf(q) - BIAS;
            Sig(q) / Pow2(112 - n) < W && Mag(q) / Unit() == Sig(q) / Pow2(112 - n) &&
            Pow2(n) <= Sig(q) / Pow2(112 - n) < Pow2(n + 1)
  {
    hide Pow2, ExpOf, Frac, Sig;
    var n := ExpOf(q) - BIAS;
    WholePart(q, n);
    WholeRange(Sig(q), n);
    WordPowers();
    Pow2Monotone(n + 1, 64);
  }

  /** `__fixunstfdi` */
  function FixU64(q: Quad): (r: Word)
  {
    var exp := ExpOf(q);
    if exp == 0 then 0
    else if SignOf(q) != 0 then 0
    else if exp == EXP_INF then 0
    else if exp < BIAS then 0
    else if exp >= BIAS + 64 then W - 1
    else Whole(q)
  }

  /** `fp128_to_i64` */
  function FixI64(q: Quad): (r: int)
  {
    var exp := ExpOf(q);
    if exp == 0 then 0
    else if exp == EXP_INF then 0
    else if exp < BIAS then 0
    else if exp >= BIAS + 63 then (if SignOf(q) != 0 then -0x8000_0000_0000_0000 else 0x7FFF_FFFF_FFFF_FFFF)
    else WithSign(SignOf(q), Whole(q))
  }

  lemma FixU64Truncates(q: Quad)
    requires Finite(q)
    ensures SignOf(q) == 0 ==> FixU64(q) == if Mag(q) / Unit() < W then Mag(q) / Unit() else W - 1
    ensures SignOf(q) != 0 ==> FixU64(q) == 0
  {
    FieldRange(q);
    hide SignOf, ExpOf, Frac, Pow2, Whole, Mag, Unit;
    if ExpOf(q) < BIAS {
      FractionOnly(q);
    } else if ExpOf(q) >= BIAS + 64 {
      LargeMagnitude(q, 64);
      WordPowers();
    }
  }

  lemma LargeMagnitude(q: Quad, n: nat)
    requires Finite(q) && ExpOf(q) >= BIAS + n && n <= 112
    ensures Pow2(n) <= Mag(q) / Unit()
  {
    FieldRange(q);
    hide ExpOf, Frac, Pow2;
    QuadPowers();
    Pow2Add(n, BIAS + 111);
    Pow2Add(112, ExpOf(q) - 1);
    Pow2Monotone(n + (BIAS + 111), 112 + (ExpOf(q) - 1));
    MulLe(P112, Pow2(ExpOf(q) - 1), Sig(q), Pow2(ExpOf(q) - 1));
    DivAtLeast(Mag(q), Unit(), Pow2(n));
  }

  /** Truncation toward zero, saturating outside the range of int64. */
  lemma FixI64Truncates(q: Quad)
    requires Finite(q)
    ensures Mag(q) / Unit() < P63 ==> FixI64(q) == WithSign(SignOf(q), Mag(q) / Unit())
    ensures Mag(q) / Unit() >= P63 ==> FixI64(q) == if SignOf(q) == 0 then P63 - 1 else -0x8000_0000_0000_0000
  {
    FieldRange(q);
    hide SignOf, ExpOf, Frac, Pow2, Whole, Mag, Unit;
    SmallPowers();
    if ExpOf(q) < BIAS {
      FractionOnly(q);
    } else if ExpOf(q) >= BIAS + 63 {
      LargeMagnitude(q, 63);
    } else {
      Pow2Monotone(ExpOf(q) - BIAS + 1, 63);
    }
  }

  // ---- integer to quad ----

  /** `a & ~(1ULL << msb)` */
  lemma ClearLeading(a: Word, msb: nat)
    requires msb < 64 && Pow2(msb) <= a < Pow2(msb + 1)
    ensures And64(a, Not64(Shl64(1, msb))) == a - Pow2(msb)
  {
    hide Pow2, And;
    WordPowers();
    Pow2Strict(msb, 64);
    SmallMod(1 * Pow2(msb), W);
    AndClear(a, msb, 64);
    AndBit(a, msb);
    SmallPowers();
    Pow2Add(msb, 1);
    DivUnique(a, Pow2(msb), 1, a - Pow2(msb));
  }

  lemma ShiftedVal(val: Word, shift: nat)
    requires 49 <= shift <= 112 && val * Pow2(shift) < P112
    ensures Val(if shift >= 64 then U128(0, Shl64(val, shift - 64))
                else U128(Shl64(val, shift), Shr64(val, 64 - shift)))
            == val * Pow2(shift)
  {
    hide Pow2;
    SmallMod(val * Pow2(shift), WW);
    var v := From64(val);
    if shift >= 64 {
      Shl128High(v, shift);
    } else {
      Shl64Parts(val, shift);
    }
  }

  /** The leading bit of a non-zero word. */
  lemma LeadingBit(a: Word, lz: nat)
    requires lz < 64 && Pow2(63) <= a * Pow2(lz) < W
    ensures Pow2(63 - lz) <= a < Pow2(64 - lz)
  {
    hide Pow2;
    WordPowers();
    Pow2Add(63 - lz, lz);
    Pow2Add(64 - lz, lz);
    MulOrder(Pow2(lz), a, Pow2(63 - lz));
    MulOrder(Pow2(lz), a, Pow2(64 - lz));
  }

  lemma FloatScale(a: Word, msb: nat)
    requires msb < 64 && Pow2(msb) <= a < Pow2(msb + 1)
    ensures (a - Pow2(msb)) * Pow2(112 - msb) < P112
    ensures (P112 + (a - Pow2(msb)) * Pow2(112 - msb)) * Pow2(BIAS + msb - 1) == a * Unit()
  {
    hide Pow2;
    QuadPowers();
    SmallPowers();
    Pow2Add(msb, 1);
    Pow2Add(msb, 112 - msb);
    Pow2Add(112 - msb, BIAS + msb - 1);
    assert 112 - msb + (BIAS + msb - 1) == BIAS + 111;
    FloatRegroup(a, Pow2(msb), Pow2(112 - msb), Pow2(BIAS + msb - 1));
  }

  lemma FloatRegroup(a: nat, p: nat, s: nat, g: nat)
    requires p <= a < 2 * p && p * s == P112 && 0 < s
    ensures (a - p) * s < P112 && (P112 + (a - p) * s) * g == a * (s * g)
  {
    MulDist(a, p, s);
    MulBelow(a - p, p, s, P112);
    MulAssoc(a, s, g);
  }

  /** `__floatunditf`: exact, and undone by `__fixunstfdi`. */
  method FloatU64(a: Word) returns (q: Quad)
    ensures Finite(q) && SignOf(q) == 0 && Mag(q) == a * Unit()
    ensures FixU64(q) == a
    ensures a == 1 ==> q == Quad(0, 0x3FFF_0000_0000_0000)
  {
    hide Pow2, Val, SignOf, ExpOf, Frac, Make, And64, Shl64, Shr64, Unit, FixU64;
    if a == 0 {
      ZeroPattern();
      return Quad(0, 0);
    }
    var lz := Clz64(a);
    LeadingBit(a, lz);
    var msb := 63 - lz;
    var exp := msb + 16383;
    ClearLeading(a, msb);
    var val := And64(a, Not64(Shl64(1, msb)));
    var shift := 112 - msb;
    FloatScale(a, msb);
    ShiftedVal(val, shift);
    var frac := if shift >= 64 then U128(0, Shl64(val, shift - 64))
                else U128(Shl64(val, shift), Shr64(val, 64 - shift));
    q := Pack(0, exp, frac);
    SmallMod(val * Pow2(shift), P112);
    MakeFields(0, exp, val * Pow2(shift));
    ExactWhole(q, a);
    if a == 1 { OneIs(q); }
  }

  lemma ZeroPattern()
    ensures var q := Quad(0, 0); Finite(q) && SignOf(q) == 0 && Mag(q) == 0 && FixU64(q) == 0 && FixI64(q) == 0
  {
  }

  lemma ExactWhole(q: Quad, a: Word)
    requires Finite(q) && SignOf(q) == 0 && Mag(q) == a * Unit()
    ensures FixU64(q) == a
  {
    hide Pow2, SignOf, ExpOf, Frac, Mag, FixU64;
    DivUnique(Mag(q), Unit(), a, 0);
    FixU64Truncates(q);
  }

  /** `__floatditf`: exact for every int64, the minimum included, and undone by `fp128_to_i64`. */
  method FloatI64(a: int) returns (q: Quad)
    requires -0x8000_0000_0000_0000 <= a < 0x8000_0000_0000_0000
    ensures Finite(q) && Signed(q) == a * Unit()
    ensures FixI64(q) == a
  {
    if a == 0 {
      ZeroPattern();
      return Quad(0, 0);
    }
    var sign, ua := 0, a;
    if a < 0 {
      sign := 1;
      ua := -(a + 1) + 1;
    }
    q := FloatU64(ua);
    if sign != 0 {
      SetSign(q);
      q := Quad(q.lo, Or64(q.hi, P63));
    }
    SignedInteger(q, a, ua);
  }

  /** `bits.u[1] |= 1ULL << 63` */
  lemma SetSign(q: Quad)
    requires SignOf(q) == 0
    ensures var r := Quad(q.lo, Or64(q.hi, P63));
            SignOf(r) == 1 && ExpOf(r) == ExpOf(q) && Frac(r) == Frac(q) && Mag(r) == Mag(q)
  {
    hide Or, Pow2;
    SmallPowers();
    OrDisjoint(q.hi, 1, 63);
    assert Or64(q.hi, P63) == q.hi + P63;
    SignBitFields(q.hi);
  }

  lemma SignBitFields(x: nat)
    requires x < P63
    ensures (x + P63) / P63 == 1 && (x + P63) / P48 % 0x8000 == x / P48 % 0x8000 && (x + P63) % P48 == x % P48
  {
    DivMod(x, P48);
    DivUnique(x + P63, P48, x / P48 + 0x8000, x % P48);
  }

  lemma SignedInteger(q: Quad, a: int, ua: nat)
    requires Finite(q) && a != 0 && Mag(q) == ua * Unit() && SignOf(q) == (if a < 0 then 1 else 0)
    requires ua == (if a < 0 then -a else a) && -0x8000_0000_0000_0000 <= a < 0x8000_0000_0000_0000
    ensures Signed(q) == a * Unit() && FixI64(q) == a
  {
    hide Pow2, SignOf, ExpOf, Frac, Mag, FixI64;
    DivUnique(Mag(q), Unit(), ua, 0);
    FixI64Truncates(q);
    if a < 0 { NegateProduct(ua, Unit()); }
  }

  lemma NegateProduct(x: int, u: int)
    ensures -(x * u) == (-x) * u
  {
  }
}
