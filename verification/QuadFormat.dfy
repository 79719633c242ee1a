/** The binary128 interchange format (section 3.4 of IEEE 754-2008) as two 64-bit words, and the
    packing and final rounding shared by the arithmetic of glue/compiler_rt.c. */
module QuadFormat {
  import opened Bits
  import opened Wide
  import opened Rounding

  const P115: nat := 8 * P112
  const P116: nat := 8 * P113
  const EXP_INF: nat := 0x7FFF
  const BIAS: nat := 16383
  const P127: nat := 0x8000_0000_0000_0000_0000_0000_0000_0000
  const P48: nat := 0x1_0000_0000_0000
  const P63: nat := 0x8000_0000_0000_0000

  /** `fp128_bits`: `lo` is `u[0]`, `hi` is `u[1]`. */
  datatype Quad = Quad(lo: Word, hi: Word)

  lemma QuadPowers()
    ensures Pow2(48) == P48 && Pow2(112) == P112 && Pow2(113) == P113
    ensures Pow2(115) == P115 && Pow2(116) == P116 && Pow2(15) == 0x8000
  {
    WordPowers();
    SmallPowers();
    assert Pow2(16) == 2 * Pow2(15);
    Pow2Add(32, 16);
    Pow2Add(64, 48);
    Pow2Add(112, 1);
    Pow2Add(112, 3);
    Pow2Add(112, 4);
  }

  // ---- fields ----

  function SignOf(q: Quad): nat { q.hi / 0x8000_0000_0000_0000 }

  function ExpOf(q: Quad): nat { q.hi / P48 % 0x8000 }

  function Frac(q: Quad): nat { q.lo + q.hi % P48 * W }

  /** The pattern with the given sign bit, biased exponent and fraction. */
  function Make(sign: nat, exp: nat, frac: nat): Quad
    requires sign <= 1 && exp <= EXP_INF && frac < P112
  {
    Quad(frac % W, frac / W + exp * P48 + sign * 0x8000_0000_0000_0000)
  }

  lemma FieldRange(q: Quad)
    ensures SignOf(q) <= 1 && ExpOf(q) <= EXP_INF && Frac(q) < P112
  {
  }

  /** The field extraction of every operation: `(u[1] >> 63) & 1`, `(u[1] >> 48) & 0x7FFF` and
      `{ u[0], u[1] & 0x0000FFFFFFFFFFFF }`. */
  method Fields(q: Quad) returns (sign: nat, exp: nat, frac: U128)
    ensures sign == SignOf(q) && exp == ExpOf(q) && Val(frac) == Frac(q)
    ensures sign <= 1 && exp <= EXP_INF && Val(frac) < P112
  {
    hide And, Pow2;
    QuadPowers();
    SmallPowers();
    AndMask(Shr64(q.hi, 63), 1);
    AndMask(Shr64(q.hi, 48), 15);
    AndMask(q.hi, 48);
    sign := And64(Shr64(q.hi, 63), 1);
    exp := And64(Shr64(q.hi, 48), 0x7FFF);
    frac := U128(q.lo, And64(q.hi, 0xFFFF_FFFF_FFFF));
  }

  lemma MakeFields(sign: nat, exp: nat, frac: nat)
    requires sign <= 1 && exp <= EXP_INF && frac < P112
    ensures var q := Make(sign, exp, frac); SignOf(q) == sign && ExpOf(q) == exp && Frac(q) == frac
  {
    DivMod(frac, W);
  }

  /** A pattern is determined by its fields. */
  lemma QuadIsMake(q: Quad)
    ensures Frac(q) < P112 && ExpOf(q) <= EXP_INF && SignOf(q) <= 1
    ensures q == Make(SignOf(q), ExpOf(q), Frac(q))
  {
    DivUnique(Frac(q), W, q.hi % P48, q.lo);
  }

  // ---- values ----

  predicate IsNaN(q: Quad) { ExpOf(q) == EXP_INF && Frac(q) != 0 }
  predicate IsInf(q: Quad) { ExpOf(q) == EXP_INF && Frac(q) == 0 }
  predicate Finite(q: Quad) { ExpOf(q) != EXP_INF }

  /** Significand with the implicit bit of normal numbers. */
  function Sig(q: Quad): nat { if ExpOf(q) == 0 then Frac(q) else P112 + Frac(q) }

  /** Subnormals share the exponent of the smallest normals. */
  function Exp(q: Quad): nat { if ExpOf(q) == 0 then 1 else ExpOf(q) }

  /** Magnitude of a finite number, in units of 2^-16494. */
  function Mag(q: Quad): nat { Sig(q) * Pow2(Exp(q) - 1) }

  function WithSign(sign: nat, v: int): int { if sign == 0 then v else -v }

  function Signed(q: Quad): int { WithSign(SignOf(q), Mag(q)) }

  predicate NonZeroFinite(q: Quad) { Finite(q) && Mag(q) != 0 }

  /** The sign of a product or quotient. */
  function ResultSign(a: Quad, b: Quad): (s: nat)
    ensures s <= 1
  {
    if SignOf(a) == SignOf(b) then 0 else 1
  }

  function Zero(sign: nat): Quad requires sign <= 1 { Make(sign, 0, 0) }
  function Inf(sign: nat): Quad requires sign <= 1 { Make(sign, EXP_INF, 0) }

  ghost predicate Normalised(r: Rounded) { r.sig < P113 && (r.exp > 0 ==> P112 <= r.sig) }

  /** The pattern of a rounded magnitude; overflow gives infinity (section 7.4 of IEEE 754-2008). */
  function Encode(sign: nat, r: Rounded): Quad
    requires sign <= 1 && Normalised(r)
  {
    if r.sig < P112 then Make(sign, 0, r.sig)
    else if r.exp + 1 >= EXP_INF then Inf(sign)
    else Make(sign, r.exp + 1, r.sig - P112)
  }

  /** Encoding is exact up to overflow. */
  lemma EncodeExact(sign: nat, r: Rounded)
    requires sign <= 1 && Normalised(r)
    ensures SignOf(Encode(sign, r)) == sign
    ensures r.sig < P112 || r.exp + 1 < EXP_INF ==>
              Finite(Encode(sign, r)) && Mag(Encode(sign, r)) == Magnitude(r)
    ensures P112 <= r.sig && r.exp + 1 >= EXP_INF ==> IsInf(Encode(sign, r))
  {
    if r.sig < P112 { MakeFields(sign, 0, r.sig); }
    else if r.exp + 1 < EXP_INF { MakeFields(sign, r.exp + 1, r.sig - P112); }
    else { MakeFields(sign, EXP_INF, 0); }
  }

  /** The correctly rounded quad nearest to `n / d`. */
  function Nearest(sign: nat, n: nat, d: nat): Quad
    requires sign <= 1 && 0 < d
  {
    RoundRepresentable(n, d);
    Encode(sign, RoundQ(n, d))
  }

  /** A finite number is its own nearest neighbour. */
  /**
   * What correct rounding means on quads: the sign is the given one, a finite result is nearest to
   * `n / d` among all finite quads with an even significand on a tie, and the result is infinite
   * exactly when the rounded magnitude is beyond the largest finite one.
   */
  lemma NearestMeans(sign: nat, n: nat, d: nat, q: Quad)
    requires sign <= 1 && 0 < d && Finite(q)
    ensures var r := Nearest(sign, n, d);
            && SignOf(r) == sign && !IsNaN(r)
            && (Finite(r) ==> Dist(Mag(r) * d, n) <= Dist(Mag(q) * d, n))
            && (Finite(r) && Dist(Mag(r) * d, n) == Dist(Mag(q) * d, n) && Mag(q) != Mag(r) ==> Frac(r) % 2 == 0)
            && (IsInf(r) <==> P112 * Pow2(EXP_INF - 1) <= Magnitude(RoundQ(n, d)))
  {
    hide RoundQ, Dist, Mag, SignOf, ExpOf, Frac, Pow2, Encode, Magnitude, Representable;
    var x := RoundQ(n, d);
    RoundRepresentable(n, d);
    QuadRepresentable(q);
    RoundNearest(n, d, Mag(q));
    EncodeExact(sign, x);
    EncodeSign(sign, x);
    OverflowAt(x);
    if Finite(Encode(sign, x)) { EncodeParity(sign, x); }
  }

  lemma QuadRepresentable(q: Quad)
    ensures Representable(Mag(q))
  {
    FieldRange(q);
    hide SignOf, ExpOf, Frac, Pow2;
    assert Magnitude(Rounded(Sig(q), Exp(q) - 1)) == Mag(q);
  }

  lemma EncodeParity(sign: nat, r: Rounded)
    requires sign <= 1 && Normalised(r) && Finite(Encode(sign, r))
    ensures Frac(Encode(sign, r)) % 2 == r.sig % 2
  {
    hide SignOf, ExpOf, Frac, Make;
    if r.sig < P112 {
      MakeFields(sign, 0, r.sig);
    } else if r.exp + 1 < EXP_INF {
      MakeFields(sign, r.exp + 1, r.sig - P112);
    } else {
      MakeFields(sign, EXP_INF, 0);
    }
  }

  lemma OverflowAt(r: Rounded)
    requires Normalised(r)
    ensures P112 <= r.sig && r.exp + 1 >= EXP_INF <==> P112 * Pow2(EXP_INF - 1) <= Magnitude(r)
  {
    hide Pow2;
    if r.exp + 1 >= EXP_INF {
      Pow2Monotone(EXP_INF - 1, r.exp);
      MulLe(P112, Pow2(EXP_INF - 1), r.sig, Pow2(r.exp));
    } else {
      Pow2Strict(r.exp, EXP_INF - 1);
      MulLe(r.sig + 1, Pow2(r.exp), P113, Pow2(r.exp));
      MulDist(r.sig, 1, Pow2(r.exp));
      MulLe(P112, 2 * Pow2(r.exp), P112, Pow2(EXP_INF - 1));
    }
  }

  lemma NearestExact(q: Quad)
    requires Finite(q) && SignOf(q) <= 1
    ensures Nearest(SignOf(q), Mag(q), 1) == q
  {
    QuadIsMake(q);
    hide SignOf, ExpOf, Frac, Make;
    var e, m := Exp(q) - 1, Sig(q);
    var p := Pow2(e);
    assert e == 0 ==> p == 1;
    RoundIntExact(m, p);
    assert P113 * (p * 1) == P113 * p && P112 * (p * 1) == P112 * p;
    MulOrder(p, m, P113);
    if e > 0 { MulLe(P112, p, m, p); }
    RoundAt(m * p, 1, e);
    assert RoundQ(Mag(q), 1) == Rounded(m, e);
  }

  // ---- packing ----

  /** `fp128_pack` */
  function Pack(sign: nat, exp: nat, sig: U128): (q: Quad)
    requires sign <= 1 && exp <= EXP_INF
    ensures q == Make(sign, exp, Val(sig) % P112)
  {
    PackWord(sign, exp, sig);
    Quad(sig.lo, Or64(Or64(Shl64(sign, 63), Shl64(exp, 48)), And64(sig.hi, 0xFFFF_FFFF_FFFF)))
  }

  lemma PackWord(sign: nat, exp: nat, sig: U128)
    requires sign <= 1 && exp <= EXP_INF
    ensures Make(sign, exp, Val(sig) % P112) ==
            Quad(sig.lo, Or64(Or64(Shl64(sign, 63), Shl64(exp, 48)), And64(sig.hi, 0xFFFF_FFFF_FFFF)))
  {
    hide And, Or, Pow2;
    QuadPowers();
    SmallPowers();
    assert Shl64(sign, 63) == sign * 0x8000_0000_0000_0000;
    assert Shl64(exp, 48) == exp * P48;
    var top := sign * 0x8000 + exp;
    OrDisjoint(exp * P48, sign, 63);
    AndMask(sig.hi, 48);
    OrDisjoint(sig.hi % P48, top, 48);
    var f := sig.lo + sig.hi % P48 * W;
    DivUnique(Val(sig), P112, sig.hi / P48, f);
    DivUnique(f, W, sig.hi % P48, sig.lo);
  }

  /** `u128_or(sig, u128_shl(u128_from64(1), 112))`: the implicit bit of a normal number. */
  method WithImplicitBit(frac: U128) returns (sig: U128)
    requires Val(frac) < P112
    ensures Val(sig) == P112 + Val(frac)
  {
    hide Or, Pow2;
    QuadPowers();
    var bit := Shl128(From64(1), 112);
    assert Val(bit) == 1 * P112;
    OrDisjoint(Val(frac), 1, 112);
    sig := Or128(frac, bit);
  }

  /** The implicit bit of a normal number and the effective exponent of a non-zero one. */
  method Unpack(q: Quad, expField: nat, frac: U128) returns (sig: U128, exp: nat)
    requires expField == ExpOf(q) && Val(frac) == Frac(q) < P112
    ensures Val(sig) == Sig(q) < P113
    ensures Val(sig) != 0 ==> exp == Exp(q) && (exp >= 2 ==> P112 <= Val(sig))
  {
    sig, exp := frac, expField;
    if exp != 0 {
      sig := WithImplicitBit(frac);
    } else if !IsZero(sig) {
      exp := 1;
    }
  }

  lemma MagZero(q: Quad)
    ensures Mag(q) == 0 <==> Sig(q) == 0
  {
    hide Sig, Pow2;
    MulOrder(Pow2(Exp(q) - 1), 0, Sig(q));
  }

  lemma LowBits(a: U128)
    ensures And64(a.lo, 7) == Val(a) % 8 && And64(a.lo, 1) == Val(a) % 2
  {
    hide And, Pow2;
    SmallPowers();
    AndMask(a.lo, 3);
    AndMask(a.lo, 1);
    DivUnique(Val(a), 8, a.lo / 8 + a.hi * 0x2000_0000_0000_0000, a.lo % 8);
    DivUnique(Val(a), 2, a.lo / 2 + a.hi * 0x8000_0000_0000_0000, a.lo % 2);
  }

  lemma Bit113(a: U128)
    requires Val(a) <= P113
    ensures IsZero(And128(a, Shl128(From64(1), 113))) <==> Val(a) < P113
  {
    hide And, Pow2;
    QuadPowers();
    AndBit(Val(a), 113);
  }

  /** Removing the guard bits, ties to even (`bits > 4 || (bits == 4 && (sig.lo & 1))`), with the
      carry into the exponent. */
  method RoundGuardBits(sig: U128) returns (r: U128, carry: nat)
    requires Val(sig) < P116
    ensures RoundInt(Val(sig), 8) <= P113
    ensures carry == 0 ==> Val(r) == RoundInt(Val(sig), 8) < P113
    ensures carry != 0 ==> carry == 1 && RoundInt(Val(sig), 8) == P113 && Val(r) == P112
  {
    hide And64, Pow2, Val, Shl128, Shr128, RoundInt;
    SmallPowers();
    RoundEight(Val(sig));
    LowBits(sig);
    var roundBits := And64(sig.lo, 7);
    r, carry := Shr128(sig, 3), 0;
    LowBits(r);
    if roundBits > 4 || (roundBits == 4 && And64(r.lo, 1) != 0) {
      SmallMod(Val(r) + 1, WW);
      r := Add128(r, From64(1));
      Bit113(r);
      if !IsZero(And128(r, Shl128(From64(1), 113))) {
        r := Shr128(r, 1);
        carry := 1;
      }
    }
  }

  /** Rounding three bits away, as the guard bits decide it. */
  lemma RoundEight(v: nat)
    requires v < P116
    ensures v / 8 < P113
    ensures RoundInt(v, 8) == if v % 8 > 4 || (v % 8 == 4 && v / 8 % 2 != 0) then v / 8 + 1 else v / 8
  {
  }

  lemma HalfSig(y: nat, k: nat)
    requires y <= P113 && 0 < k
    ensures 0 <= y / Pow2(k) <= P112
  {
    hide Pow2;
    Pow2Strict(0, k);
    assert Pow2(0) == 1 by { Pow2Add(0, 0); }
    DivBelow(y, Pow2(k), P112 + 1) by { MulLe(P112 + 1, 2, P112 + 1, Pow2(k)); }
    DivMod(y, Pow2(k));
  }

  /** The pattern for a rounded significand `y` at biased exponent `exp`. */
  function PackRounded(sign: nat, exp: int, y: nat): Quad
    requires sign <= 1 && y <= P113
  {
    if exp <= 0 then
      HalfSig(y, 1 - exp);
      Encode(sign, Rounded(y / Pow2(1 - exp), 0))
    else if P112 <= y then Encode(sign, Carry(y, exp - 1))
    else if exp < EXP_INF then Make(sign, exp, y)
    else Inf(sign)
  }

  /** Overflow to infinity, truncation of a subnormal result, removal of the implicit bit. */
  method PackSig(sign: nat, exp0: int, sig0: U128) returns (q: Quad)
    requires sign <= 1 && Val(sig0) < P113
    ensures exp0 >= EXP_INF ==> q == Inf(sign)
    ensures 1 <= exp0 < EXP_INF ==> q == Make(sign, exp0, Val(sig0) % P112)
    ensures exp0 <= 0 ==> 0 <= Val(sig0) / Pow2(1 - exp0) < P112 && q == Make(sign, 0, Val(sig0) / Pow2(1 - exp0))
  {
    hide Pow2, Val, Pack, Make, Shl128, Shr128, And128, Not128, From64;
    var exp, sig := exp0, sig0;
    if exp >= EXP_INF {
      SmallMod(0, P112);
      InfIs(sign);
      return Pack(sign, EXP_INF, From64(0));
    }
    if exp <= 0 {
      var shift := 1 - exp;
      ShiftedOut(Val(sig), shift);
      SmallMod(Val(sig) / Pow2(shift), P112);
      if shift >= 113 { return Pack(sign, 0, From64(0)); }
      sig := Shr128(sig, shift);
      exp := 0;
    }
    if exp > 0 {
      ClearImplicit(sig);
      SmallMod(Val(sig) % P112, P112);
      sig := And128(sig, Not128(Shl128(From64(1), 112)));
    }
    q := Pack(sign, exp, sig);
  }

  lemma InfIs(sign: nat)
    requires sign <= 1
    ensures Inf(sign) == Make(sign, EXP_INF, 0)
  {
  }

  lemma ShiftedOut(y: nat, k: nat)
    requires y < P113 && 0 < k
    ensures 0 <= y / Pow2(k) < P112 && (k >= 113 ==> y / Pow2(k) == 0)
  {
    hide Pow2;
    Pow2Strict(0, k);
    assert Pow2(0) == 1 by { Pow2Add(0, 0); }
    DivMod(y, Pow2(k));
    DivBelow(y, Pow2(k), P112) by { MulLe(P112, 2, P112, Pow2(k)); }
    if k >= 113 {
      QuadPowers();
      Pow2Monotone(113, k);
      DivUnique(y, Pow2(k), 0, y);
    }
  }

  lemma ClearImplicit(sig: U128)
    requires Val(sig) < P113
    ensures Val(And128(sig, Not128(Shl128(From64(1), 112)))) == Val(sig) % P112
  {
    hide And, Pow2, Val;
    QuadPowers();
    WordPowers();
    AndClear(Val(sig), 112, 128);
    AndBit(Val(sig), 112);
  }

  /** The common tail of addition, multiplication and division: round off three guard bits, carry
      into the exponent, and pack as infinity, a normal or a truncated subnormal number. */
  lemma PackRoundedSign(sign: nat, exp: int, y: nat)
    requires sign <= 1 && y <= P113
    ensures SignOf(PackRounded(sign, exp, y)) == sign && !IsNaN(PackRounded(sign, exp, y))
  {
    hide SignOf, ExpOf, Frac, Make, Encode, Pow2;
    if exp <= 0 {
      HalfSig(y, 1 - exp);
      EncodeSign(sign, Rounded(y / Pow2(1 - exp), 0));
    } else if P112 <= y {
      EncodeSign(sign, Carry(y, exp - 1));
    } else if exp < EXP_INF {
      MakeFields(sign, exp, y);
    } else {
      MakeFields(sign, EXP_INF, 0);
    }
  }

  lemma EncodeSign(sign: nat, r: Rounded)
    requires sign <= 1 && Normalised(r)
    ensures SignOf(Encode(sign, r)) == sign && !IsNaN(Encode(sign, r))
  {
    hide SignOf, ExpOf, Frac, Make;
    if r.sig < P112 {
      MakeFields(sign, 0, r.sig);
    } else if r.exp + 1 < EXP_INF {
      MakeFields(sign, r.exp + 1, r.sig - P112);
    } else {
      MakeFields(sign, EXP_INF, 0);
    }
  }

  method RoundPack(sign: nat, exp: int, sig: U128) returns (q: Quad)
    requires sign <= 1 && Val(sig) < P116
    ensures RoundInt(Val(sig), 8) <= P113
    ensures q == PackRounded(sign, exp, RoundInt(Val(sig), 8))
    ensures SignOf(q) == sign && !IsNaN(q)
  {
    hide RoundInt, SignOf, IsNaN;
    var r, carry := RoundGuardBits(sig);
    q := PackSig(sign, exp + carry, r);
    PackCases(sign, exp, RoundInt(Val(sig), 8), carry, Val(r));
    PackRoundedSign(sign, exp, RoundInt(Val(sig), 8));
  }

  lemma PackCases(sign: nat, exp: int, y: nat, carry: nat, v: nat)
    requires sign <= 1 && v < P113
    requires if carry == 0 then v == y else carry == 1 && y == P113 && v == P112
    ensures exp + carry >= EXP_INF ==> PackRounded(sign, exp, y) == Inf(sign)
    ensures 1 <= exp + carry < EXP_INF ==> PackRounded(sign, exp, y) == Make(sign, exp + carry, v % P112)
    ensures exp + carry <= 0 && 0 <= v / Pow2(1 - exp - carry) < P112 ==>
              PackRounded(sign, exp, y) == Make(sign, 0, v / Pow2(1 - exp - carry))
  {
    hide Make;
    if exp > 0 {
      SmallMod(v, P112);
    } else if carry == 1 {
      PackCarried(exp);
      hide Pow2;
      HalfSig(y, 1 - exp);
    } else {
      hide Pow2;
      ShiftedOut(y, 1 - exp);
    }
  }

  lemma PackCarried(exp: int)
    requires exp <= 0
    ensures P113 / Pow2(1 - exp) == P112 / Pow2(-exp)
    ensures exp == 0 ==> P112 / Pow2(-exp) == P112
  {
    assert Pow2(1 - exp) == 2 * Pow2(-exp);
    DivCancel(P112, Pow2(-exp), 2);
  }

  /** A significand that rounds like the exact value packs as the correctly rounded quad. */
  lemma WindowNearest(sign: nat, exp: nat, s: nat, n: nat, d: nat)
    requires sign <= 1 && 1 <= exp && 0 < d && Window(s, n, Pow2(exp - 1) * d)
    ensures RoundInt(s, 8) <= P113 && PackRounded(sign, exp, RoundInt(s, 8)) == Nearest(sign, n, d)
  {
    RoundAt(n, d, exp - 1);
    RoundIntRange(n, Pow2(exp - 1) * d, P112, P113);
    hide RoundInt, Pow2, RoundQ;
  }

  // ---- results below the normal range ----

  /** 1.0 in units of 2^-16494. */
  function Unit(): nat { Pow2(BIAS + 111) }

  lemma TruncatedBelow(n: nat, d: nat)
    requires 0 < n < P112 * d
    ensures TruncatedSig(n, d) <= P112
  {
    UnderflowBinade(n, d);
    var k := UnderflowShift(n, d);
    TruncatedAt(n, d, k);
    hide Pow2, TruncatedSig;
    RoundIntRange(n * Pow2(k), d, P112, P113);
    HalfSig(RoundInt(n * Pow2(k), d), k);
  }

  /** What multiplication and division return below the smallest normal number: the magnitude
      rounded to 113 bits, then truncated. */
  function Truncated(sign: nat, n: nat, d: nat): Quad
    requires sign <= 1 && 0 < n < P112 * d
  {
    TruncatedBelow(n, d);
    Encode(sign, Rounded(TruncatedSig(n, d), 0))
  }

  /** Truncation does no harm when the exact value rounds down, or lies within half a unit of
      113-bit precision below the next subnormal. */
  predicate HarmlessTruncation(n: nat, d: nat)
    requires 0 < n < P112 * d
  {
    RoundInt(n, d) == n / d || (d - n % d) * Pow2(UnderflowShift(n, d) + 1) <= d
  }

  lemma TruncatedIsNearest(sign: nat, n: nat, d: nat)
    requires sign <= 1 && 0 < n < P112 * d
    ensures Truncated(sign, n, d) == Nearest(sign, n, d) <==> HarmlessTruncation(n, d)
  {
    UnderflowBinade(n, d);
    var k := UnderflowShift(n, d);
    TruncatedAt(n, d, k);
    TruncationExact(n, d, k);
    RoundIntRange(n, d, 0, P112);
    TruncatedBelow(n, d);
    assert RoundQ(n, d) == Rounded(RoundInt(n, d), 0);
    hide Pow2, TruncatedSig, RoundInt, RoundQ;
    EncodeInjective(sign, TruncatedSig(n, d), RoundInt(n, d));
  }

  lemma EncodeInjective(sign: nat, x: nat, y: nat)
    requires sign <= 1 && x <= P112 && y <= P112
    ensures Encode(sign, Rounded(x, 0)) == Encode(sign, Rounded(y, 0)) <==> x == y
  {
    hide Make;
    MakeFields(sign, 1, 0);
    if x < P112 { MakeFields(sign, 0, x); }
    if y < P112 { MakeFields(sign, 0, y); }
  }

  lemma WindowTruncated(sign: nat, exp: int, s: nat, n: nat, d: nat)
    requires sign <= 1 && exp <= 0 && 0 < n && 0 < d && Window(s, n * Pow2(1 - exp), d)
    ensures n < P112 * d && RoundInt(s, 8) <= P113
    ensures PackRounded(sign, exp, RoundInt(s, 8)) == Truncated(sign, n, d)
  {
    UnderflowHalf(n, d, 1 - exp);
    TruncatedAt(n, d, 1 - exp);
    RoundIntRange(n * Pow2(1 - exp), d, P112, P113);
    hide Pow2, RoundInt, TruncatedSig;
    HalfSig(RoundInt(s, 8), 1 - exp);
  }

  /** 1.0 has the exponent field 0x3FFF and an empty fraction. */
  lemma OneIs(q: Quad)
    requires Finite(q) && SignOf(q) == 0 && Mag(q) == Unit()
    ensures q == Quad(0, 0x3FFF_0000_0000_0000)
  {
    var one := Quad(0, 0x3FFF_0000_0000_0000);
    assert Finite(one) && SignOf(one) == 0 && Sig(one) == P112 && Exp(one) == BIAS;
    assert Mag(one) == Unit() by {
      hide Sig, Exp, Pow2;
      QuadPowers();
      Pow2Add(112, BIAS - 1);
    }
    hide SignOf, Finite, Mag, Pow2, Nearest;
    NearestExact(q);
    NearestExact(one);
  }
}
