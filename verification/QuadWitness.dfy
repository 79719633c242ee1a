/** Inputs on which the arithmetic of glue/compiler_rt.c is not correctly rounded. */
module QuadWitness {
  import opened Bits
  import opened Wide
  import opened Rounding
  import opened QuadFormat
  import QuadAdd
  import QuadMul
  import QuadDiv

  // ---- addition: 1.0...01 * 2^-16382 - 2^-16382 ----

  lemma SumBelowNormal()
    ensures var a, b := Make(0, 1, 1), Make(1, 1, 0);
            Finite(a) && Finite(b) && QuadAdd.SubnormalSum(a, b)
  {
    MakeFields(0, 1, 1);
    MakeFields(1, 1, 0);
    assert Pow2(0) == 1;
  }

  // ---- multiplication: 2^-16382 * 1.5 * 2^-112 ----

  /** The exact product is 3/2 units; it rounds to 2 but is truncated to 1. */
  lemma ProductTruncatedWrong()
    ensures var a, b := Make(0, 1, 0), Make(0, BIAS - 112, P112 / 2);
            NonZeroFinite(a) && NonZeroFinite(b) && !QuadMul.ProductRounds(a, b)
  {
    var a, b := Make(0, 1, 0), Make(0, BIAS - 112, P112 / 2);
    MakeFields(0, 1, 0);
    MakeFields(0, BIAS - 112, P112 / 2);
    hide Make, SignOf, ExpOf, Frac, Pow2;
    MagZero(a);
    MagZero(b);
    assert P127 <= Sig(a) * Sig(b);
    TruncatedProductScale(a, b);
    hide Mag, Unit;
    TieAtThreeHalves(QuadMul.ExactProduct(a, b), Unit(), Pow2(BIAS - 113) * (P112 * (P112 / 2)));
  }

  lemma TruncatedProductScale(a: Quad, b: Quad)
    requires Sig(a) == P112 && Exp(a) == 1 && Sig(b) == P112 + P112 / 2 && Exp(b) == BIAS - 112
    ensures Mag(a) * Mag(b) == 3 * (Pow2(BIAS - 113) * (P112 * (P112 / 2)))
    ensures Unit() == 2 * (Pow2(BIAS - 113) * (P112 * (P112 / 2)))
  {
    hide Pow2, Sig, Exp;
    assert Pow2(0) == 1 by { Pow2Add(0, 0); }
    assert Pow2(224) == P112 * P112 by {
      QuadPowers();
      Pow2Add(112, 112);
    }
    Pow2Add(BIAS - 113, 224);
  }

  lemma TieAtThreeHalves(n: nat, d: nat, h: nat)
    requires 0 < h && n == 3 * h && d == 2 * h
    ensures n < P112 * d && !HarmlessTruncation(n, d)
  {
    DivUnique(n, d, 1, h);
    var k := UnderflowShift(n, d);
    assert Pow2(k + 1) >= 2;
    UnderflowBinade(n, d);
    hide Pow2;
    Pow2Monotone(2, k + 1);
    assert Pow2(2) == 4 by { SmallPowers(); }
    MulLe(h, 4, h, Pow2(k + 1));
  }

  /** The smallest subnormal times 1.5 * 2^16383: the code sees no leading bit in the high half. */
  lemma SubnormalProductWrong()
    ensures var a, b := Make(0, 0, 1), Make(0, 2 * BIAS, P112 / 2);
            NonZeroFinite(a) && NonZeroFinite(b) && !QuadMul.ProductRounds(a, b)
  {
    MakeFields(0, 0, 1);
    MakeFields(0, 2 * BIAS, P112 / 2);
    hide Make, SignOf, ExpOf, Frac, Pow2;
    MagZero(Make(0, 0, 1));
    MagZero(Make(0, 2 * BIAS, P112 / 2));
  }

  // ---- division: 5 / 3 ----

  lemma LeadOfFive()
    ensures QuadDiv.LeadShift(5 * (P112 / 4)) == 15 && QuadDiv.Lead(5 * (P112 / 4)) == 5 * (P127 / 4)
    ensures QuadDiv.LeadShift(3 * (P112 / 2)) == 15 && QuadDiv.Lead(3 * (P112 / 2)) == 3 * (P127 / 2)
  {
    QuadPowers();
    QuadDiv.LeadShiftIs(5 * (P112 / 4), 15);
    QuadDiv.LeadShiftIs(3 * (P112 / 2), 15);
  }

  /** The remainder of the 116-bit quotient is 2^127, so `carry:remainder` is `1:0`. */
  lemma FiveThirdsTie()
    ensures QuadDiv.TieLost(5 * (P127 / 4), 3 * (P127 / 2))
  {
    hide Pow2;
    QuadPowers();
    DivUnique(5 * (P127 / 4) * P115, 3 * (P127 / 2), 0x6_AAAA_AAAA_AAAA_AAAA_AAAA_AAAA_AAAA, P127);
  }

  lemma SixBelowTen(q: nat, g: nat)
    ensures (6 * q) * g <= (5 * q) * (2 * g)
  {
    MulAssoc(5 * q, 2, g);
    MulLe(6 * q, g, 10 * q, g);
  }

  lemma FiveThirdsNormal(five: Quad, three: Quad)
    requires Exp(five) == BIAS + 2 && Sig(five) == 5 * (P112 / 4) && Exp(three) == BIAS + 1
    requires Sig(three) == 3 * (P112 / 2)
    ensures QuadDiv.NormalQuotient(five, three)
  {
    hide Sig, Exp, Pow2;
    QuadPowers();
    assert Pow2(BIAS + 1) == 2 * Pow2(BIAS) by {
      Pow2Add(BIAS, 1);
      SmallPowers();
    }
    assert Mag(three) <= Mag(five) by { SixBelowTen(P112 / 4, Pow2(BIAS)); }
    assert P112 <= Unit() by { Pow2Monotone(112, BIAS + 111); }
    hide Mag, Unit;
    MulLe(P112, Mag(three), Unit(), Mag(five));
  }

  /** 5 / 3 comes out one unit in the last place too small. */
  lemma FiveThirdsWrong()
    ensures var five, three := Make(0, BIAS + 2, P112 / 4), Make(0, BIAS + 1, P112 / 2);
            NonZeroFinite(five) && NonZeroFinite(three) && !QuadDiv.QuotientRounds(five, three)
  {
    var five, three := Make(0, BIAS + 2, P112 / 4), Make(0, BIAS + 1, P112 / 2);
    MakeFields(0, BIAS + 2, P112 / 4);
    MakeFields(0, BIAS + 1, P112 / 2);
    hide Make, SignOf, ExpOf, Frac, Pow2, QuadDiv.TieLost, QuadDiv.LeadShift, QuadDiv.Lead, QuadDiv.NormalQuotient, Mag;
    MagZero(five);
    MagZero(three);
    LeadOfFive();
    FiveThirdsTie();
    FiveThirdsNormal(five, three);
  }
}
