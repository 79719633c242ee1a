/** `__multf3` when the significand product is below 2^127, which takes a subnormal operand.

    The code then looks for the leading bit in an empty high half and takes it to be bit 127.
 */
module QuadMulSmall {
  import opened Bits
  import opened Rounding
  import opened QuadFormat

  const C15: nat := 0x8000

  /** Whether the result for significand product `p` at result exponent `exp` is correctly rounded. */
  predicate SmallProductRounds(p: nat, exp: int) {
    if exp > 1 then P127 - 8192 <= p
    else if exp == 1 then P127 - 16384 <= p
    else
      var k := 1 - exp;
      var d := C15 * Pow2(k);
      RoundInt(p, d) == p / d || (d - p % d) * Pow2(k + 1) <= d
  }

  lemma TopRange(p: nat)
    requires p < P127
    ensures RoundInt(p, C15) <= P112
    ensures RoundInt(p, C15) == P112 <==> P127 - 16384 <= p
    ensures RoundInt(p, 16384) <= P113
    ensures RoundInt(p, 16384) == P113 <==> P127 - 8192 <= p
    ensures RoundInt(p, C15) < P112 ==> 2 * p < (P112 + RoundInt(p, C15)) * C15
  {
    DivMod(p, C15);
    DivMod(p, 16384);
  }

  lemma HalfwayToZero(n: nat)
    ensures Magnitude(RoundQ(n, C15)) * C15 <= 2 * n
  {
    assert Representable(0) by { assert Magnitude(Rounded(0, 0)) == 0; }
    RoundNearest(n, C15, 0);
  }

  lemma TooLarge(m: nat, p: nat, g: nat, s: nat)
    requires m * C15 <= 2 * (p * g) && 2 * p < s * C15 && 0 < g
    ensures m != s * g
  {
    MulAssoc(2, p, g);
    MulOrder(g, 2 * p, s * C15);
    MulSwap(g, s, C15);
    MulAssoc(s, g, C15);
  }

  /** Below the leading binade the packed number is too large. */
  lemma MissingLeadingBit(sign: nat, exp: nat, p: nat)
    requires sign <= 1 && 1 <= exp < EXP_INF && p < P127 && RoundInt(p, C15) < P112
    ensures Make(sign, exp, RoundInt(p, C15)) != Nearest(sign, p * Pow2(exp - 1), C15)
  {
    TopRange(p);
    hide Pow2, RoundInt, RoundQ, Make, SignOf, ExpOf, Frac, Magnitude;
    var m := RoundQ(p * Pow2(exp - 1), C15);
    RoundRepresentable(p * Pow2(exp - 1), C15);
    HalfwayToZero(p * Pow2(exp - 1));
    TooLarge(Magnitude(m), p, Pow2(exp - 1), P112 + RoundInt(p, C15));
    EncodeExact(sign, m);
    MakeFields(sign, exp, RoundInt(p, C15));
  }

  /** At the top of the binade the result is right when one more bit of precision also rounds up. */
  lemma TopOfBinade(sign: nat, exp: nat, p: nat)
    requires sign <= 1 && 1 <= exp < EXP_INF && p < P127 && RoundInt(p, C15) == P112
    ensures Encode(sign, Rounded(P112, exp - 1)) == Nearest(sign, p * Pow2(exp - 1), C15) <==>
            exp == 1 || P127 - 8192 <= p
  {
    TopRange(p);
    if exp == 1 {
      assert Pow2(0) == 1;
    } else {
      TopRounded(exp, p);
      TopEncoded(sign, exp, RoundInt(p, 16384));
    }
  }

  lemma TopRounded(exp: nat, p: nat)
    requires 2 <= exp && P127 - 16384 <= p < P127
    ensures P112 <= RoundInt(p, 16384) <= P113
    ensures RoundQ(p * Pow2(exp - 1), C15) == Carry(RoundInt(p, 16384), exp - 2)
  {
    var h := Pow2(exp - 2);
    assert Pow2(exp - 1) == 2 * h;
    hide Pow2;
    RoundIntRange(p, 16384, P112, P113);
    MulTwice(p, h);
    MulAssoc(2, p, h);
    MulLe(P127 - 16384, h, p, h);
    MulOrder(h, p, P127);
    RoundAt(p * (2 * h), C15, exp - 2);
    RoundIntScale(p, 16384, 2 * h);
  }

  lemma TopEncoded(sign: nat, exp: nat, y: nat)
    requires sign <= 1 && 2 <= exp < EXP_INF && P112 <= y <= P113
    ensures Encode(sign, Rounded(P112, exp - 1)) == Encode(sign, Carry(y, exp - 2)) <==> y == P113
  {
    if y < P113 {
      MakeFields(sign, exp, 0);
      MakeFields(sign, exp - 1, y - P112);
    }
  }

  /** The exact product `p * 2^f / Unit()` at the scale of the result exponent. */
  lemma SmallScale(sign: nat, p: nat, f: nat, exp: nat)
    requires sign <= 1 && 1 <= exp && f + 15 == exp - 1 + BIAS + 111
    ensures Nearest(sign, p * Pow2(f), Unit()) == Nearest(sign, p * Pow2(exp - 1), C15)
  {
    assert Pow2(15) == C15 by { QuadPowers(); }
    hide Pow2, RoundQ;
    Pow2Add(f, 15);
    Pow2Add(exp - 1, BIAS + 111);
    MulAssoc(p, Pow2(f), C15);
    MulAssoc(p, Pow2(exp - 1), Unit());
    RoundRatio(p * Pow2(f), Unit(), p * Pow2(exp - 1), C15);
  }

  lemma SmallScaleDown(sign: nat, p: nat, f: nat, k: nat)
    requires sign <= 1 && f + 15 + k == BIAS + 111
    ensures C15 * Pow2(k) > 0 && Nearest(sign, p * Pow2(f), Unit()) == Nearest(sign, p, C15 * Pow2(k))
  {
    assert Pow2(15) == C15 by { QuadPowers(); }
    hide Pow2, RoundQ;
    Pow2Add(15, k);
    Pow2Add(f, 15 + k);
    RoundScale(p, C15 * Pow2(k), Pow2(f));
  }

  /** The packed result against the correctly rounded product. */
  lemma SmallProduct(sign: nat, exp: int, p: nat, f: nat)
    requires sign <= 1 && exp < EXP_INF && 0 < p < P127 && exp == f + 2 - BIAS - 97
    ensures RoundInt(p, C15) <= P113
    ensures PackRounded(sign, exp, RoundInt(p, C15)) == Nearest(sign, p * Pow2(f), Unit()) <==>
            SmallProductRounds(p, exp)
  {
    TopRange(p);
    hide Nearest, Pow2, RoundInt;
    if exp >= 1 {
      SmallScale(sign, p, f, exp);
      if RoundInt(p, C15) < P112 {
        MissingLeadingBit(sign, exp, p);
      } else {
        TopOfBinade(sign, exp, p);
      }
    } else {
      SmallScaleDown(sign, p, f, 1 - exp);
      SmallUnderflow(sign, p, 1 - exp);
    }
  }

  lemma SmallUnderflow(sign: nat, p: nat, k: nat)
    requires sign <= 1 && 0 < p < P127 && 1 <= k
    ensures var d := C15 * Pow2(k);
            && RoundInt(p, C15) <= P113
            && (PackRounded(sign, 1 - k, RoundInt(p, C15)) == Nearest(sign, p, d) <==>
                RoundInt(p, d) == p / d || (d - p % d) * Pow2(k + 1) <= d)
  {
    var d := C15 * Pow2(k);
    TopRange(p);
    TruncationExact(p, d, k);
    RoundIntScale(p, C15, Pow2(k));
    hide Pow2;
    assert p < P112 * d by { MulLe(C15, 1, C15, Pow2(k)); }
    RoundIntRange(p, d, 0, P112);
    assert RoundQ(p, d) == Rounded(RoundInt(p, d), 0);
    hide RoundInt, RoundQ;
    HalfSig(RoundInt(p, C15), k);
    EncodeInjective(sign, RoundInt(p, C15) / Pow2(k), RoundInt(p, d));
  }
}
