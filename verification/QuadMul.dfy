/** `__multf3` of glue/compiler_rt.c. */
module QuadMul {
  import opened Bits
  import opened Wide
  import opened Rounding
  import opened QuadFormat
  import opened QuadMulSmall

  // ---- the 116-bit window of the 256-bit product ----

  lemma ShiftWord(w: Word, x: nat, p: nat, q: nat)
    requires 0 < p && p * q == W
    ensures (w + x * W) % p == w % p
    ensures (w + x * W) / p == w / p + x % p * q + x / p * W
  {
    DivMod(w, p);
    DivMod(x, p);
    MulAssoc(x, q, p);
    MulDist(w / p, x * q, p);
    DivUnique(w + x * W, p, w / p + x * q, w % p);
    MulDist(x % p, x / p * p, q);
    MulAssoc(x / p, p, q);
  }

  /** Two funnelled words are the low 128 bits of the shifted number. */
  lemma FunnelPair(w0: Word, w1: Word, w2: Word, x: nat, p: nat, q: nat)
    requires 0 < p && p * q == W
    ensures (w0 + (w1 + (w2 + x * W) * W) * W) / p ==
            (w0 / p + w1 % p * q) + (w1 / p + w2 % p * q) * W + (w2 + x * W) / p * WW
  {
    var n2 := w2 + x * W;
    var n1 := w1 + n2 * W;
    ShiftWord(w0, n1, p, q);
    ShiftWord(w1, n2, p, q);
    ShiftWord(w2, x, p, q);
    FunnelSum(w0 / p + w1 % p * q, w1 / p + w2 % p * q, n2 / p);
  }

  lemma FunnelSum(lo: int, hi: int, rest: int)
    ensures lo + (hi + rest * W) * W == lo + hi * W + rest * WW
  {
  }

  lemma FunnelVal(w0: Word, w1: Word, w2: Word, x: nat, s: nat)
    requires 0 < s < 64 && (w0 + (w1 + (w2 + x * W) * W) * W) / Pow2(s) < P116
    ensures Val(U128(Funnel(w0, w1, s), Funnel(w1, w2, s))) == (w0 + (w1 + (w2 + x * W) * W) * W) / Pow2(s)
  {
    hide Pow2, Funnel;
    Pow2Word(s);
    FunnelPair(w0, w1, w2, x, Pow2(s), Pow2(64 - s));
    DivMod(w2 + x * W, Pow2(s));
    NoRest(Funnel(w0, w1, s), Funnel(w1, w2, s), (w2 + x * W) / Pow2(s));
  }

  lemma NoRest(lo: nat, hi: nat, rest: nat)
    requires lo + hi * W + rest * WW < P116
    ensures rest == 0
  {
  }

  /** Lines 647-678: the words of the product shifted right, then masked to 116 bits. */
  method ExtractWindow(prod: U256, bottom: nat) returns (sig: U128)
    requires Val256(prod) / Pow2(bottom) < P116
    ensures Val(sig) == Val256(prod) / Pow2(bottom)
  {
    hide Pow2, Funnel, Val, Shr128;
    Nested(prod);
    if bottom >= 128 {
      UpperHalf(prod, bottom - 128);
      sig := Shr128(U128(prod.w2, prod.w3), bottom - 128);
    } else if bottom > 0 {
      sig := FunnelWindow(prod, bottom);
    } else {
      WholeLow(prod);
      sig := U128(prod.w0, prod.w1);
    }
    MaskWindow(sig);
    sig := U128(sig.lo, And64(sig.hi, 0xF_FFFF_FFFF_FFFF));
  }

  method FunnelWindow(prod: U256, bottom: nat) returns (sig: U128)
    requires 0 < bottom < 128 && Val256(prod) / Pow2(bottom) < P116
    ensures Val(sig) == Val256(prod) / Pow2(bottom)
  {
    hide Pow2, Funnel, Val;
    Nested(prod);
    if bottom < 64 {
      FunnelVal(prod.w0, prod.w1, prod.w2, prod.w3, bottom);
      sig := U128(Funnel(prod.w0, prod.w1, bottom), Funnel(prod.w1, prod.w2, bottom));
    } else {
      var s := bottom - 64;
      HighWords(prod, s);
      if s == 0 {
        WholeWords(prod.w1, prod.w2, prod.w3);
        sig := U128(prod.w1, prod.w2);
      } else {
        FunnelVal(prod.w1, prod.w2, prod.w3, 0, s);
        sig := U128(Funnel(prod.w1, prod.w2, s), Funnel(prod.w2, prod.w3, s));
      }
    }
  }

  lemma WholeLow(prod: U256)
    requires Val256(prod) / Pow2(0) < P116
    ensures Val(U128(prod.w0, prod.w1)) == Val256(prod) / Pow2(0)
  {
    DivUnique(Val256(prod), 1, Val256(prod), 0);
    NoRest(prod.w0, prod.w1, prod.w2 + prod.w3 * W);
  }

  /** Quotient and remainder of the product at and above bit 128. */
  lemma UpperHalf(prod: U256, s: nat)
    ensures Val256(prod) / Pow2(128 + s) == Val(U128(prod.w2, prod.w3)) / Pow2(s)
    ensures Val256(prod) % Pow2(128 + s) != 0 <==>
              prod.w0 != 0 || prod.w1 != 0 || Val(U128(prod.w2, prod.w3)) % Pow2(s) != 0
  {
    hide Pow2;
    WordPowers();
    Pow2Add(128, s);
    var lo, hi := prod.w0 + prod.w1 * W, prod.w2 + prod.w3 * W;
    DivUnique(Val256(prod), WW, hi, lo);
    DivDiv(Val256(prod), WW, Pow2(s));
  }

  lemma Nested(a: U256)
    ensures Val256(a) == a.w0 + (a.w1 + (a.w2 + a.w3 * W) * W) * W
  {
  }

  lemma WholeWords(w1: Word, w2: Word, w3: Word)
    requires (w1 + (w2 + w3 * W) * W) / Pow2(0) < P116
    ensures Val(U128(w1, w2)) == (w1 + (w2 + w3 * W) * W) / Pow2(0)
  {
    DivUnique(w1 + (w2 + w3 * W) * W, 1, w1 + (w2 + w3 * W) * W, 0);
    NoRest(w1, w2, w3);
  }

  lemma HighWords(prod: U256, s: nat)
    ensures Val256(prod) / Pow2(64 + s) == (prod.w1 + (prod.w2 + prod.w3 * W) * W) / Pow2(s)
    ensures Val256(prod) % Pow2(64 + s) ==
            (prod.w1 + (prod.w2 + prod.w3 * W) * W) % Pow2(s) * W + prod.w0
  {
    hide Pow2;
    WordPowers();
    Pow2Add(64, s);
    var n1 := prod.w1 + (prod.w2 + prod.w3 * W) * W;
    DivUnique(Val256(prod), W, n1, prod.w0);
    DivDiv(Val256(prod), W, Pow2(s));
  }

  /** `result_sig.hi &= (1ULL << 52) - 1` */
  lemma MaskWindow(sig: U128)
    requires Val(sig) < P116
    ensures And64(sig.hi, 0xF_FFFF_FFFF_FFFF) == sig.hi
  {
    hide Pow2, And;
    SmallPowers();
    QuadPowers();
    Pow2Add(48, 4);
    AndMask(sig.hi, 52);
  }

  /** Lines 680-704: any bit of the product below `bottom`; the C shifts are defined below 256. */
  method StickyBelow(prod: U256, bottom: nat) returns (sticky: bool)
    requires bottom < 256
    ensures sticky <==> Val256(prod) % Pow2(bottom) != 0
  {
    hide Pow2, And, Val, Val256;
    sticky := false;
    if bottom > 0 {
      if bottom >= 128 {
        sticky := prod.w0 != 0 || prod.w1 != 0;
        if bottom > 128 {
          var mask := W - 1;
          if bottom - 128 < 64 { mask := LowMask(bottom - 128); }
          sticky := sticky || And64(prod.w2, mask) != 0;
        }
        if bottom > 192 {
          var mask := LowMask(bottom - 192);
          sticky := sticky || And64(prod.w3, mask) != 0;
        }
        if bottom < 192 { StickyTop(prod, bottom - 128); } else { StickyWordTop(prod, bottom - 192); }
      } else if bottom >= 64 {
        sticky := prod.w0 != 0;
        var mask := LowMask(bottom - 64);
        StickyHigh(prod, bottom - 64);
        sticky := sticky || And64(prod.w1, mask) != 0;
      } else {
        var mask := LowMask(bottom);
        StickyLow(prod, bottom);
        sticky := And64(prod.w0, mask) != 0;
      }
    } else {
      NoneBelow(prod);
    }
  }

  lemma NoneBelow(prod: U256)
    ensures Val256(prod) % Pow2(0) == 0
  {
  }

  /** The masked words at and above bit 128. */
  lemma StickyTop(prod: U256, s: nat)
    requires s < 64
    ensures Val256(prod) % Pow2(128 + s) != 0 <==> prod.w0 != 0 || prod.w1 != 0 || And(prod.w2, Pow2(s) - 1) != 0
    ensures And(prod.w2, Pow2(0) - 1) == 0
  {
    assert Pow2(0) == 1;
    hide Pow2, And;
    AndZero(prod.w2);
    UpperHalf(prod, s);
    Pow2Word(s);
    ShiftWord(prod.w2, prod.w3, Pow2(s), Pow2(64 - s));
    AndMask(prod.w2, s);
  }

  lemma StickyWordTop(prod: U256, s: nat)
    requires s < 64
    ensures Val256(prod) % Pow2(192 + s) != 0 <==>
              prod.w0 != 0 || prod.w1 != 0 || And(prod.w2, W - 1) != 0 || And(prod.w3, Pow2(s) - 1) != 0
    ensures And(prod.w3, Pow2(0) - 1) == 0
  {
    assert Pow2(0) == 1;
    hide Pow2, And;
    AndZero(prod.w3);
    WordPowers();
    UpperHalf(prod, 64 + s);
    Pow2Add(64, s);
    DivUnique(prod.w2 + prod.w3 * W, W, prod.w3, prod.w2);
    DivDiv(prod.w2 + prod.w3 * W, W, Pow2(s));
    AndMask(prod.w2, 64);
    SmallMod(prod.w2, W);
    AndMask(prod.w3, s);
  }

  /** `(1ULL << n) - 1` */
  method LowMask(n: nat) returns (m: Word)
    requires n < 64
    ensures m == Pow2(n) - 1
  {
    hide Pow2;
    Pow2Strict(n, 64);
    WordPowers();
    SmallMod(1 * Pow2(n), W);
    m := Shl64(1, n) - 1;
  }

  lemma StickyHigh(prod: U256, s: nat)
    requires s < 64
    ensures Val256(prod) % Pow2(64 + s) != 0 <==> prod.w0 != 0 || And(prod.w1, Pow2(s) - 1) != 0
  {
    hide Pow2, And;
    HighWords(prod, s);
    Pow2Word(s);
    ShiftWord(prod.w1, prod.w2 + prod.w3 * W, Pow2(s), Pow2(64 - s));
    AndMask(prod.w1, s);
  }

  lemma StickyLow(prod: U256, s: nat)
    requires s < 64
    ensures Val256(prod) % Pow2(s) != 0 <==> And(prod.w0, Pow2(s) - 1) != 0
  {
    hide Pow2, And;
    Nested(prod);
    Pow2Word(s);
    ShiftWord(prod.w0, prod.w1 + (prod.w2 + prod.w3 * W) * W, Pow2(s), Pow2(64 - s));
    AndMask(prod.w0, s);
  }

  /** The leading bit of the product, as the code finds it in the high half. */
  lemma TopBit(hi: U128, lo: nat, lz: nat, p: nat)
    requires lo < WW && p == lo + Val(hi) * WW && 0 < p < P113 * P113
    requires Val(hi) == 0 <==> lz == 128
    requires lz < 128 ==> Pow2(127) <= Val(hi) * Pow2(lz) < WW
    requires lz <= 128
    ensures 30 <= lz
    ensures P127 <= p ==> Pow2(255 - lz) <= p
    ensures p < Pow2(256 - lz)
    ensures p < P127 ==> lz == 128
  {
    hide Pow2, Val;
    WordPowers();
    Pow2Add(127, 1);
    assert Pow2(1) == 2 by { SmallPowers(); }
    if lz < 128 {
      TopBitHigh(Val(hi), lo, lz, p);
      MulLe(1, WW, Val(hi), WW);
    }
  }

  lemma TopBitHigh(h: nat, lo: nat, lz: nat, p: nat)
    requires lo < WW && p == lo + h * WW && 0 < h && p < P113 * P113
    requires lz < 128 && Pow2(127) <= h * Pow2(lz) < Pow2(128) && Pow2(128) == WW
    ensures 30 <= lz && Pow2(255 - lz) <= p < Pow2(256 - lz)
  {
    hide Pow2;
    HighHalf(h, lz);
    Pow2Add(127 - lz, 128);
    Pow2Add(128 - lz, 128);
    MulLe(Pow2(127 - lz), WW, h, WW);
    MulLe(h + 1, WW, Pow2(128 - lz), WW);
    if lz < 30 {
      QuadPowers();
      Pow2Add(113, 113);
      Pow2Monotone(226, 255 - lz);
    }
  }

  lemma HighHalf(h: nat, lz: nat)
    requires lz < 128 && Pow2(127) <= h * Pow2(lz) < Pow2(128)
    ensures Pow2(127 - lz) <= h < Pow2(128 - lz)
  {
    hide Pow2;
    Pow2Add(127 - lz, lz);
    Pow2Add(128 - lz, lz);
    MulOrder(Pow2(lz), h, Pow2(127 - lz));
    MulOrder(Pow2(lz), h, Pow2(128 - lz));
  }

  lemma Halves(prod: U256)
    ensures Val256(prod) == (prod.w0 + prod.w1 * W) + Val(U128(prod.w2, prod.w3)) * WW
    ensures prod.w0 + prod.w1 * W < WW
  {
  }

  /** Lines 634-705: the top 116 bits of the product, the rest jammed into the last bit. */
  method ProductWindow(prod: U256) returns (sig: U128, top: nat)
    requires 0 < Val256(prod) < P113 * P113
    ensures 127 <= top <= 225 && Val(sig) == Jam(Val256(prod), Pow2(top - 115)) && Val(sig) < P116
    ensures P127 <= Val256(prod) ==> Pow2(top) <= Val256(prod)
    ensures Val256(prod) < P127 ==> top == 127
    ensures Val256(prod) < Pow2(top + 1)
  {
    hide Pow2, Val, Val256;
    Halves(prod);
    var prodHi := U128(prod.w2, prod.w3);
    var lz := Clz128(prodHi);
    TopBit(prodHi, prod.w0 + prod.w1 * W, lz, Val256(prod));
    top := 255 - lz;
    var bottom := top - 115;
    WindowFits(Val256(prod), top);
    sig := ExtractWindow(prod, bottom);
    var sticky := StickyBelow(prod, bottom);
    if sticky { sig := SetLast(sig); }
  }

  lemma WindowFits(p: nat, top: nat)
    requires 127 <= top && p < Pow2(top + 1)
    ensures p / Pow2(top - 115) < P116
  {
    hide Pow2;
    QuadPowers();
    Pow2Add(116, top - 115);
    DivBelow(p, Pow2(top - 115), P116);
  }

  // ---- specification ----

  /** The exact product, in units of 2^-32988. */
  function ExactProduct(a: Quad, b: Quad): nat { TimesNat(Mag(a), Mag(b)) }

  function TimesNat(x: nat, y: nat): nat { x * y }

  /** The exact product is `ExactProduct(a, b) / Unit()`. */
  function RoundedProduct(a: Quad, b: Quad): Quad { Nearest(ResultSign(a, b), ExactProduct(a, b), Unit()) }

  /** The exact product is at least 2^-16382. */
  predicate NormalProduct(a: Quad, b: Quad) { P112 * Unit() <= ExactProduct(a, b) }

  /** Exactly when the product of two non-zero finite numbers comes out correctly rounded. */
  predicate ProductRounds(a: Quad, b: Quad)
    requires NonZeroFinite(a) && NonZeroFinite(b)
  {
    if P127 <= Sig(a) * Sig(b) then
      NormalProduct(a, b) || (ProductParts(a, b); HarmlessTruncation(ExactProduct(a, b), Unit()))
    else SmallProductRounds(Sig(a) * Sig(b), Exp(a) + Exp(b) - BIAS - 97)
  }

  // ---- scale of the product ----

  /** The product in terms of significands and exponents. */
  lemma ProductParts(a: Quad, b: Quad)
    requires Mag(a) != 0 && Mag(b) != 0
    ensures ExactProduct(a, b) == Sig(a) * Sig(b) * Pow2(Exp(a) + Exp(b) - 2)
    ensures 0 < Sig(a) * Sig(b) < P113 * P113 && 0 < ExactProduct(a, b) && 1 <= Exp(a) && 1 <= Exp(b)
  {
    MagZero(a);
    MagZero(b);
    FieldRange(a);
    FieldRange(b);
    hide Pow2, ExpOf, Frac;
    assert Sig(a) < P113 && Sig(b) < P113;
    Pow2Add(Exp(a) - 1, Exp(b) - 1);
    ProductRegroup(Sig(a), Sig(b), Pow2(Exp(a) - 1), Pow2(Exp(b) - 1));
  }

  lemma ProductRegroup(x: nat, y: nat, p: nat, q: nat)
    requires 0 < x < P113 && 0 < y < P113 && 0 < p && 0 < q
    ensures (x * p) * (y * q) == (x * y) * (p * q) && 0 < x * y < P113 * P113 && 0 < (x * p) * (y * q)
  {
    calc { (x * p) * (y * q); x * (p * (y * q)); { MulSwap(p, y, q); } x * (y * (p * q)); (x * y) * (p * q); }
    MulLe(1, 1, x, y);
    MulLe(x, y, P113 - 1, P113 - 1);
    MulLe(1, 1, p, q);
    MulLe(1, 1, x * y, p * q);
  }

  /** The window of the significand product is a window of the exact product, at the scale of the
      result exponent. */
  lemma ProductScaled(p: nat, s: nat, m: nat, f: nat, exp: nat)
    requires 1 <= exp && Window(s, p, Pow2(m)) && f + m == exp - 1 + BIAS + 111
    ensures Window(s, p * Pow2(f), Pow2(exp - 1) * Unit())
  {
    hide Pow2;
    WindowScale(s, p, Pow2(m), Pow2(f));
    Pow2Add(f, m);
    Pow2Add(exp - 1, BIAS + 111);
  }

  lemma ProductScaledDown(p: nat, s: nat, m: nat, f: nat, k: nat)
    requires Window(s, p, Pow2(m)) && f + m + k == BIAS + 111
    ensures Window(s, p * Pow2(f) * Pow2(k), Unit())
  {
    hide Pow2, Window;
    Pow2Add(f, k);
    MulAssoc(p, Pow2(f), Pow2(k));
    assert p * Pow2(f) * Pow2(k) == Pow2(f + k) * p;
    WindowScale(s, p, Pow2(m), Pow2(f + k));
    Pow2Add(f + k, m);
  }

  lemma ProductWindowed(p: nat, s: nat, top: nat)
    requires 0 < p && 127 <= top && s == Jam(p, Pow2(top - 115)) && Pow2(top) <= p < Pow2(top + 1) && s < P116
    ensures Window(s, p, Pow2(top - 112))
  {
    hide Pow2;
    Pow2Add(3, top - 115);
    SmallPowers();
    QuadPowers();
    JamScale(p, Pow2(top - 115), 8);
    Pow2Add(115, top - 115);
    DivMod(p, Pow2(top - 115));
    var q, step := p / Pow2(top - 115), Pow2(top - 115);
    if q < P115 {
      MulBelow(q, P115, step, Pow2(top));
      MulDist(q, 1, step);
      MulLe(q + 1, step, P115, step);
    }
    WindowJam(s, p, Pow2(top - 112));
  }

  // ---- the operation ----

  /** Lines 613-743 for finite non-zero operands. */
  method MulFinite(a: Quad, b: Quad, expFieldA: nat, fracA: U128, expFieldB: nat, fracB: U128,
                   sign: nat) returns (r: Quad)
    requires NonZeroFinite(a) && NonZeroFinite(b) && sign == ResultSign(a, b)
    requires expFieldA == ExpOf(a) && Val(fracA) == Frac(a) < P112
    requires expFieldB == ExpOf(b) && Val(fracB) == Frac(b) < P112
    ensures P127 <= Sig(a) * Sig(b) && NormalProduct(a, b) ==> r == RoundedProduct(a, b)
    ensures P127 <= Sig(a) * Sig(b) && !NormalProduct(a, b) ==>
              0 < ExactProduct(a, b) && r == Truncated(sign, ExactProduct(a, b), Unit())
    ensures r == RoundedProduct(a, b) <==> ProductRounds(a, b)
    ensures SignOf(r) == sign && !IsNaN(r)
  {
    hide IsNaN, Pow2, Val, Val256, ExpOf, Frac, SignOf, Sig, Exp, Mag, Nearest, Truncated, Unit, Jam, Window,
         ExactProduct, RoundInt, PackRounded, ResultSign, HarmlessTruncation, SmallProductRounds;
    ProductParts(a, b);
    MagZero(a);
    MagZero(b);
    var sigA, expA := Unpack(a, expFieldA, fracA);
    var sigB, expB := Unpack(b, expFieldB, fracB);
    var exp: int := expA + expB - BIAS;
    var prod := MulFull(sigA, sigB);
    var sig, top := ProductWindow(prod);
    exp := exp + top - 224;
    r := RoundPack(sign, exp, sig);
    if P127 <= Sig(a) * Sig(b) {
      MulResult(sign, exp, Val(sig), top, Sig(a) * Sig(b), Exp(a) + Exp(b) - 2, ExactProduct(a, b));
      if !NormalProduct(a, b) { TruncatedIsNearest(sign, ExactProduct(a, b), Unit()); }
    } else {
      SubnormalOperand(a, b);
      SmallWindow(Sig(a) * Sig(b));
      SmallProduct(sign, exp, Sig(a) * Sig(b), Exp(a) + Exp(b) - 2);
    }
  }

  lemma SubnormalOperand(a: Quad, b: Quad)
    requires Finite(a) && Finite(b) && Sig(a) * Sig(b) < P127
    ensures Exp(a) + Exp(b) - BIAS - 97 < EXP_INF
  {
    if ExpOf(a) != 0 && ExpOf(b) != 0 { MulLe(P112, P112, Sig(a), Sig(b)); }
    FieldRange(a);
    FieldRange(b);
  }

  lemma SmallWindow(p: nat)
    ensures RoundInt(Jam(p, Pow2(12)), 8) == RoundInt(p, C15)
  {
    assert Pow2(12) == 4096;
    JamRound(p, 4096, 2);
  }

  lemma MulResult(sign: nat, exp: int, s: nat, top: nat, p: nat, f: nat, n: nat)
    requires sign <= 1 && 127 <= top && s == Jam(p, Pow2(top - 115)) && s < P116 && Pow2(top) <= p < Pow2(top + 1)
    requires 0 < p && 0 < n && n == p * Pow2(f) && exp == f + 2 - BIAS + top - 224 && RoundInt(s, 8) <= P113
    ensures P112 * Unit() <= n ==> PackRounded(sign, exp, RoundInt(s, 8)) == Nearest(sign, n, Unit())
    ensures n < P112 * Unit() ==> PackRounded(sign, exp, RoundInt(s, 8)) == Truncated(sign, n, Unit())
  {
    ProductWindowed(p, s, top);
    hide Pow2, Jam, Window, Nearest, Truncated, PackRounded, RoundInt;
    if exp >= 1 {
      ProductScaled(p, s, top - 112, f, exp);
      WindowNearest(sign, exp, s, n, Unit());
      WindowLow(s, n, Pow2(exp - 1), Unit());
    } else {
      ProductScaledDown(p, s, top - 112, f, 1 - exp);
      WindowTruncated(sign, exp, s, n, Unit());
    }
  }

  predicate IsZeroQuad(q: Quad) { ExpOf(q) == 0 && Frac(q) == 0 }

  /** `__multf3`: the correctly rounded product exactly on `ProductRounds`.  When the significand
      product reaches 2^127, as it does for normal operands, a result below the normal range is
      truncated. */
  method MulTf3(a: Quad, b: Quad) returns (r: Quad)
    ensures NonZeroFinite(a) && NonZeroFinite(b) ==> (r == RoundedProduct(a, b) <==> ProductRounds(a, b))
    ensures NonZeroFinite(a) && NonZeroFinite(b) && P127 <= Sig(a) * Sig(b) && !NormalProduct(a, b) ==>
              0 < ExactProduct(a, b) && r == Truncated(ResultSign(a, b), ExactProduct(a, b), Unit())
    ensures Finite(a) && Finite(b) && (Mag(a) == 0 || Mag(b) == 0) ==> r == Zero(ResultSign(a, b))
    ensures IsNaN(a) || IsNaN(b) || (IsInf(a) && IsZeroQuad(b)) || (IsZeroQuad(a) && IsInf(b)) ==> IsNaN(r)
    ensures (IsInf(a) && !IsNaN(b) && !IsZeroQuad(b)) || (IsInf(b) && !IsNaN(a) && !IsZeroQuad(a)) ==>
              r == Inf(ResultSign(a, b))
    ensures !IsNaN(r) ==> SignOf(r) == (SignOf(a) + SignOf(b)) % 2
    ensures NonZeroFinite(a) && NonZeroFinite(b) ==>
              !IsNaN(r) && (SignOf(r) == 1 <==> (Signed(a) < 0) != (Signed(b) < 0))
  {
    FieldRange(a);
    FieldRange(b);
    hide Pow2, Val, ExpOf, Frac, SignOf, Nearest, Truncated, Unit, ExactProduct, Make, Pack, ProductRounds;
    var signA, expA, fracA := Fields(a);
    var signB, expB, fracB := Fields(b);
    var sign := if signA == signB then 0 else 1;
    MakeFields(0, EXP_INF, 1);
    MakeFields(sign, EXP_INF, 0);
    MakeFields(sign, 0, 0);
    if expA == EXP_INF {
      if !IsZero(fracA) { return a; }
      if expB == 0 && IsZero(fracB) { return Pack(0, EXP_INF, From64(1)); }
      if expB == EXP_INF && !IsZero(fracB) { return b; }
      return Pack(sign, EXP_INF, From64(0));
    }
    if expB == EXP_INF {
      if !IsZero(fracB) { return b; }
      if expA == 0 && IsZero(fracA) { return Pack(0, EXP_INF, From64(1)); }
      return Pack(sign, EXP_INF, From64(0));
    }
    MagZero(a);
    MagZero(b);
    if expA == 0 && IsZero(fracA) { return Pack(sign, 0, From64(0)); }
    if expB == 0 && IsZero(fracB) { return Pack(sign, 0, From64(0)); }
    r := MulFinite(a, b, expA, fracA, expB, fracB, sign);
  }

  /** Normal operands always reach the required product. */
  lemma NormalOperands(a: Quad, b: Quad)
    requires ExpOf(a) != 0 && ExpOf(b) != 0
    ensures Mag(a) != 0 && Mag(b) != 0 && P127 <= Sig(a) * Sig(b)
  {
    MulLe(P112, P112, Sig(a), Sig(b));
    hide Pow2;
    MagZero(a);
    MagZero(b);
  }
}
