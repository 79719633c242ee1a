/** Conversions of glue/compiler_rt.c between binary128 and binary64. */
module QuadConvert {
  import opened Bits
  import opened Wide
  import opened Rounding
  import opened QuadFormat

  const P52: nat := 0x10_0000_0000_0000
  const P53: nat := 0x20_0000_0000_0000
  const P60: nat := 0x1000_0000_0000_0000
  const D_INF: nat := 0x7FF

  lemma DoublePowers()
    ensures Pow2(52) == P52 && Pow2(53) == P53 && Pow2(60) == P60 && Pow2(63) == P63 && Pow2(4) == 16
  {
    SmallPowers();
    QuadPowers();
    Pow2Add(48, 4);
    Pow2Add(52, 1);
    Pow2Add(52, 8);
  }

  // ---- binary64 patterns ----

  function DSign(u: Word): nat { u / P63 }
  function DExp(u: Word): nat { u / P52 % 0x800 }
  function DFrac(u: Word): nat { u % P52 }

  function DMake(sign: nat, exp: nat, frac: nat): Word
    requires sign <= 1 && exp <= D_INF && frac < P52
  {
    frac + exp * P52 + sign * P63
  }

  lemma DFields(u: Word)
    ensures DSign(u) <= 1 && DExp(u) <= D_INF && DFrac(u) < P52 && u == DMake(DSign(u), DExp(u), DFrac(u))
  {
  }

  lemma DMakeFields(sign: nat, exp: nat, frac: nat)
    requires sign <= 1 && exp <= D_INF && frac < P52
    ensures var u := DMake(sign, exp, frac); DSign(u) == sign && DExp(u) == exp && DFrac(u) == frac
  {
  }

  predicate DFinite(u: Word) { DExp(u) != D_INF }
  predicate DIsNaN(u: Word) { DExp(u) == D_INF && DFrac(u) != 0 }

  function DSig(u: Word): nat { if DExp(u) == 0 then DFrac(u) else P52 + DFrac(u) }
  function DEffExp(u: Word): nat { if DExp(u) == 0 then 1 else DExp(u) }

  /** Magnitude of a finite double, in units of 2^-1074. */
  function DMag(u: Word): nat { DSig(u) * Pow2(DEffExp(u) - 1) }

  /** One binary64 unit, 2^-1074, in binary128 units of 2^-16494. */
  function DoubleUnit(): nat { Pow2(BIAS - 963) }

  // ---- fp128_to_f64 ----

  /** `(hi[47:0] << 4) | (lo >> 60)`: the top 52 bits of the fraction. */
  function TopFraction(q: Quad): (f: Word)
    ensures f == Frac(q) / P60 && f < P52
  {
    TopFractionWord(q);
    Or64(Shl64(q.hi % P48, 4), Shr64(q.lo, 60))
  }

  lemma TopFractionWord(q: Quad)
    ensures Or64(Shl64(q.hi % P48, 4), Shr64(q.lo, 60)) == Frac(q) / P60 < P52
  {
    hide Or, Pow2;
    DoublePowers();
    var h := q.hi % P48;
    assert Shl64(h, 4) == h * 16;
    OrDisjoint(q.lo / P60, h, 4);
    DivUnique(Frac(q), P60, q.lo / P60 + h * 16, q.lo % P60);
  }

  /** `(sign << 63) | (exp << 52) | frac` */
  function PackDouble(sign: nat, exp: nat, frac: nat): (u: Word)
    requires sign <= 1 && exp <= D_INF && frac < P52
    ensures u == DMake(sign, exp, frac)
  {
    PackDoubleWord(sign, exp, frac);
    Or64(Or64(Shl64(sign, 63), Shl64(exp, 52)), frac)
  }

  lemma PackDoubleWord(sign: nat, exp: nat, frac: nat)
    requires sign <= 1 && exp <= D_INF && frac < P52
    ensures Or64(Or64(Shl64(sign, 63), Shl64(exp, 52)), frac) == DMake(sign, exp, frac)
  {
    hide Or, Pow2;
    DoublePowers();
    assert Shl64(sign, 63) == sign * P63 && Shl64(exp, 52) == exp * P52;
    OrDisjoint(exp * P52, sign, 63);
    OrDisjoint(frac, sign * 0x800 + exp, 52);
  }

  /** `fp128_to_f64` */
  function Narrow(q: Quad): (u: Word)
  {
    FieldRange(q);
    var sign, exp := SignOf(q), ExpOf(q);
    if exp == EXP_INF then
      if Frac(q) == 0 then PackDouble(sign, D_INF, 0) else PackDouble(sign, D_INF, P52 / 2 + 1)
    else if exp == 0 then PackDouble(sign, 0, 0)
    else
      var unbiased := exp - BIAS;
      if unbiased > 1023 then PackDouble(sign, D_INF, 0)
      else if unbiased < -1074 then PackDouble(sign, 0, 0)
      else if unbiased < -1022 then PackDouble(sign, 0, Denormalised(TopFraction(q), -1022 - unbiased))
      else PackDouble(sign, unbiased + 1023, TopFraction(q))
  }

  /** `((1 << 52) | frac52) >> shift` */
  function Denormalised(frac: Word, shift: nat): (f: nat)
    requires frac < P52 && 1 <= shift <= 52
    ensures f == (P52 + frac) / Pow2(shift) && f < P52
  {
    DenormalisedWord(frac, shift);
    Shr64(Or64(P52, frac), shift)
  }

  lemma DenormalisedWord(frac: Word, shift: nat)
    requires frac < P52 && 1 <= shift <= 52
    ensures Or64(P52, frac) == P52 + frac && 0 <= (P52 + frac) / Pow2(shift) < P52
  {
    hide Or, Pow2;
    DoublePowers();
    OrDisjoint(frac, 1, 52);
    SmallPowers();
    Pow2Monotone(1, shift);
    DivMod(P52 + frac, Pow2(shift));
    DivBelow(P52 + frac, Pow2(shift), P52) by { MulLe(P52, 2, P52, Pow2(shift)); }
  }

  // ---- truncation to binary64 ----

  lemma NormalScale(exp: nat)
    requires exp >= BIAS - 1022
    ensures Pow2(exp - (BIAS - 1022)) * DoubleUnit() == P60 * Pow2(exp - 1)
  {
    hide Pow2;
    DoublePowers();
    Pow2Add(exp - (BIAS - 1022), BIAS - 963);
    Pow2Add(60, exp - 1);
  }

  lemma SubnormalScale(exp: nat, shift: nat)
    requires 1 <= exp && exp + shift == BIAS - 1022
    ensures DoubleUnit() == (Pow2(shift) * P60) * Pow2(exp - 1)
  {
    hide Pow2;
    DoublePowers();
    Pow2Add(shift, 60);
    Pow2Add(shift + 60, exp - 1);
  }

  /** `m` whole steps of `p` doubles' units, against `m` whole and a fraction `l / 2^60` of a step. */
  lemma StepBounds(m: nat, l: nat, g: nat, p: nat, k: nat)
    requires l < P60 && 0 < g && p * k == P60 * g
    ensures (m * p) * k <= (m * P60 + l) * g < ((m + 1) * p) * k
  {
    MulAssoc(m, p, k);
    MulAssoc(m, P60, g);
    MulDist(m, 1, p);
    MulDist(m * p, p, k);
    MulDist(m * P60, l, g);
    MulOrder(g, l, P60);
  }

  lemma WholeBounds(m: nat, l: nat, g: nat, s: nat, k: nat)
    requires l < P60 && 0 < g && 0 < s && k == (s * P60) * g
    ensures m / s * k <= (m * P60 + l) * g < (m / s + 1) * k
  {
    var f, r := m / s, m % s;
    DivMod(m, s);
    var step, rest := s * P60, r * P60 + l;
    assert m * P60 + l == f * step + rest by {
      MulDist(r, f * s, P60);
      MulAssoc(f, s, P60);
    }
    ScaledBounds(f, step, rest, g);
  }

  lemma ScaledBounds(f: nat, step: nat, rest: nat, g: nat)
    requires rest < step && 0 < g
    ensures f * (step * g) <= (f * step + rest) * g < (f + 1) * (step * g)
  {
    MulDist(f * step, rest, g);
    MulAssoc(f, step, g);
    MulOrder(g, rest, step);
    MulDist(f, 1, step * g);
  }

  lemma TinyBelowUnit(q: Quad)
    requires Finite(q) && ExpOf(q) < BIAS - 1074
    ensures Mag(q) < DoubleUnit()
  {
    FieldRange(q);
    hide Pow2, ExpOf, Frac;
    QuadPowers();
    Pow2Add(113, Exp(q) - 1);
    Pow2Monotone(113 + Exp(q) - 1, BIAS - 963);
    MulOrder(Pow2(Exp(q) - 1), Sig(q), P113);
  }

  /** `u` has the sign of `q` and `q` lies in the step of doubles that starts at `u`. */
  ghost predicate NarrowedTo(q: Quad, u: Word) {
    && DFinite(u) && DSign(u) == SignOf(q)
    && DMag(u) * DoubleUnit() <= Mag(q) < (DMag(u) + Pow2(DEffExp(u) - 1)) * DoubleUnit()
    && (DEffExp(u) > 1 ==> P52 <= DSig(u))
  }

  lemma NarrowTiny(q: Quad)
    requires Finite(q) && ExpOf(q) < BIAS - 1074 && SignOf(q) <= 1
    ensures NarrowedTo(q, DMake(SignOf(q), 0, 0))
  {
    TinyBelowUnit(q);
    DMakeFields(SignOf(q), 0, 0);
    hide SignOf, ExpOf, Mag, DoubleUnit, DMake, DSign, DExp, DFrac;
    assert Pow2(0) == 1;
  }

  lemma NarrowSubnormal(q: Quad, f: nat, shift: nat)
    requires BIAS - 1074 <= ExpOf(q) < BIAS - 1022 && SignOf(q) <= 1
    requires f == Frac(q) / P60 < P52 && shift == BIAS - 1022 - ExpOf(q)
    requires 0 <= (P52 + f) / Pow2(shift) < P52
    ensures NarrowedTo(q, DMake(SignOf(q), 0, (P52 + f) / Pow2(shift)))
  {
    DMakeFields(SignOf(q), 0, (P52 + f) / Pow2(shift));
    assert Pow2(0) == 1;
    DivMod(Frac(q), P60);
    hide SignOf, ExpOf, Frac, DoubleUnit, DMake, DSign, DExp, DFrac, Pow2;
    SubnormalScale(ExpOf(q), shift);
    WholeBounds(P52 + f, Frac(q) % P60, Pow2(ExpOf(q) - 1), Pow2(shift), DoubleUnit());
  }

  lemma NarrowNormal(q: Quad, f: nat, e: nat)
    requires BIAS - 1022 <= ExpOf(q) <= BIAS + 1023 && SignOf(q) <= 1
    requires f == Frac(q) / P60 < P52 && e == ExpOf(q) - BIAS + 1023
    ensures NarrowedTo(q, DMake(SignOf(q), e, f))
  {
    DMakeFields(SignOf(q), e, f);
    DivMod(Frac(q), P60);
    hide SignOf, ExpOf, Frac, DoubleUnit, DMake, DSign, DExp, DFrac, Pow2;
    NormalScale(ExpOf(q));
    StepBounds(P52 + f, Frac(q) % P60, Pow2(ExpOf(q) - 1), Pow2(e - 1), DoubleUnit());
    MulDist(P52 + f, 1, Pow2(e - 1));
  }

  lemma NarrowBounds(q: Quad)
    requires Finite(q) && ExpOf(q) <= BIAS + 1023
    ensures NarrowedTo(q, Narrow(q))
  {
    FieldRange(q);
    hide SignOf, ExpOf, Frac, DMake, Pow2, NarrowedTo, TopFraction, Denormalised, PackDouble;
    if ExpOf(q) < BIAS - 1074 {
      NarrowTiny(q);
    } else if ExpOf(q) < BIAS - 1022 {
      DenormalisedWord(TopFraction(q), BIAS - 1022 - ExpOf(q));
      NarrowSubnormal(q, TopFraction(q), BIAS - 1022 - ExpOf(q));
    } else {
      NarrowNormal(q, TopFraction(q), ExpOf(q) - BIAS + 1023);
    }
  }

  /** Doubles at or above the binade of exponent `e` are multiples of its step. */
  lemma DoubleGrid(u: Word, m: nat, e: nat)
    requires 1 <= e && (e > 1 ==> P52 <= m) && DMag(u) < (m + 1) * Pow2(e - 1)
    ensures DMag(u) <= m * Pow2(e - 1)
  {
    DFields(u);
    hide DSign, DExp, DFrac, Pow2;
    var e' := DEffExp(u);
    if e <= e' {
      Pow2Add(e' - e, e - 1);
      MulAssoc(DSig(u), Pow2(e' - e), Pow2(e - 1));
      MulOrder(Pow2(e - 1), DSig(u) * Pow2(e' - e), m + 1);
      MulLe(DSig(u) * Pow2(e' - e), Pow2(e - 1), m, Pow2(e - 1));
    } else {
      Pow2Strict(e' - 1, e - 1);
      MulLe(DSig(u), Pow2(e' - 1), P53, Pow2(e' - 1));
      MulLe(P52, Pow2(e - 1), m, Pow2(e - 1));
    }
  }

  /** `fp128_to_f64` of a finite quad below 2^1024 in magnitude is the largest-magnitude double not
      exceeding it. */
  lemma NarrowIsLargest(q: Quad, u: Word)
    requires Finite(q) && ExpOf(q) <= BIAS + 1023 && DFinite(u) && DMag(u) * DoubleUnit() <= Mag(q)
    ensures DFinite(Narrow(q)) && DSign(Narrow(q)) == SignOf(q) && DMag(Narrow(q)) * DoubleUnit() <= Mag(q)
    ensures DMag(u) <= DMag(Narrow(q))
  {
    NarrowBounds(q);
    NarrowedLargest(q, Narrow(q), u);
  }

  lemma NarrowedLargest(q: Quad, v: Word, u: Word)
    requires NarrowedTo(q, v) && DMag(u) * DoubleUnit() <= Mag(q)
    ensures DMag(u) <= DMag(v)
  {
    hide SignOf, DSign, DExp, DFrac, Pow2, Mag, DoubleUnit;
    StepBelow(DMag(u), DSig(v), Pow2(DEffExp(v) - 1), DoubleUnit(), Mag(q));
    DoubleGrid(u, DSig(v), DEffExp(v));
  }

  lemma StepBelow(x: nat, m: nat, p: nat, k: nat, v: nat)
    requires x * k <= v < (m * p + p) * k && 0 < k
    ensures x < (m + 1) * p
  {
    MulOrder(k, x, m * p + p);
    MulDist(m, 1, p);
  }

  /** Beyond that range: infinity, and NaN for NaN. */
  lemma NarrowSpecial(q: Quad)
    ensures Finite(q) && ExpOf(q) > BIAS + 1023 ==> Narrow(q) == DMake(SignOf(q), D_INF, 0)
    ensures IsInf(q) ==> Narrow(q) == DMake(SignOf(q), D_INF, 0)
    ensures IsNaN(q) ==> DIsNaN(Narrow(q))
  {
    DMakeFields(SignOf(q), D_INF, P52 / 2 + 1);
  }

  // ---- f64_to_fp128 ----

  lemma NormalisedBelow(u: Word, v: Word)
    requires DEffExp(u) < DEffExp(v)
    ensures DMag(u) < DMag(v)
  {
    hide DSig, DEffExp, DFrac, DExp, DSign, Pow2;
    DSigRange(u);
    DSigRange(v);
    Pow2Strict(DEffExp(u) - 1, DEffExp(v) - 1);
    ScaledBelow(DSig(u), DSig(v), Pow2(DEffExp(u) - 1), Pow2(DEffExp(v) - 1));
  }

  lemma DSigRange(u: Word)
    ensures 1 <= DEffExp(u) && DSig(u) < P53 && (1 < DEffExp(u) ==> P52 <= DSig(u))
  {
    DFields(u);
  }

  lemma ScaledBelow(x: nat, y: nat, p: nat, q: nat)
    requires x < P53 && P52 <= y && 0 < p && 2 * p <= q
    ensures x * p < y * q
  {
    MulOrder(p, x, P53);
    MulLe(P52, 2 * p, y, q);
  }

  /** A double is determined by its sign and magnitude. */
  lemma DMagInjective(u: Word, v: Word)
    requires DFinite(u) && DFinite(v) && DSign(u) == DSign(v) && DMag(u) == DMag(v)
    ensures u == v
  {
    if DEffExp(u) < DEffExp(v) { NormalisedBelow(u, v); }
    if DEffExp(v) < DEffExp(u) { NormalisedBelow(v, u); }
    MulOrder(Pow2(DEffExp(u) - 1), DSig(u), DSig(v));
    DFields(u);
    DFields(v);
  }

  /** A quad with the exact value of a double narrows back to it. */
  lemma NarrowExact(q: Quad, u: Word)
    requires Finite(q) && ExpOf(q) <= BIAS + 1023 && DFinite(u)
    requires SignOf(q) == DSign(u) && Mag(q) == DMag(u) * DoubleUnit()
    ensures Narrow(q) == u
  {
    hide Narrow, SignOf, ExpOf, Mag, Pow2, DSign, DExp, DFrac, DMag;
    NarrowIsLargest(q, u);
    MulOrder(DoubleUnit(), DMag(u), DMag(Narrow(q)));
    DMagInjective(Narrow(q), u);
  }

  /** Lines 162-168: shift a subnormal fraction until its leading bit is at position 52. */
  method NormaliseFraction(frac0: nat) returns (frac: nat, unbiased: int, ghost k: nat)
    requires 0 < frac0 < P52
    ensures P52 <= frac < P53 && k <= 52 && frac == frac0 * Pow2(k) && unbiased == -1022 - k
  {
    hide Pow2, And64, Shl64;
    frac, unbiased, k := frac0, -1022, 0;
    assert Pow2(0) == 1 by { Pow2Add(0, 0); }
    while And64(frac, P52) == 0
      invariant 0 < frac < P53 && frac == frac0 * Pow2(k) && unbiased == -1022 - k
      decreases P53 - frac
    {
      BitTest52(frac);
      Doubled(frac0, frac, k);
      frac := Shl64(frac, 1);
      unbiased, k := unbiased - 1, k + 1;
    }
    BitTest52(frac);
    FewPlaces(frac0, frac, k);
  }

  lemma Doubled(frac0: nat, frac: nat, k: nat)
    requires frac == frac0 * Pow2(k) && frac < P52
    ensures Shl64(frac, 1) == 2 * frac == frac0 * Pow2(k + 1)
  {
    hide Pow2;
    SmallPowers();
    Pow2Add(k, 1);
    MulTwice(frac0, Pow2(k));
    SmallMod(frac * 2, W);
  }

  lemma FewPlaces(frac0: nat, frac: nat, k: nat)
    requires 0 < frac0 && frac == frac0 * Pow2(k) < P53
    ensures k <= 52
  {
    hide Pow2;
    DoublePowers();
    MulLe(1, Pow2(k), frac0, Pow2(k));
    if k > 52 { Pow2Monotone(53, k); }
  }

  lemma BitTest52(x: Word)
    requires x < P53
    ensures And64(x, P52) == 0 <==> x < P52
  {
    hide And, Pow2;
    DoublePowers();
    AndBit(x, 52);
  }

  /** Lines 173-181: the 52-bit fraction at the top of the 112-bit field. */
  method WidenFields(sign: nat, exp: nat, frac: nat) returns (q: Quad)
    requires sign <= 1 && exp <= EXP_INF && frac < P52
    ensures frac * P60 < P112 && q == Make(sign, exp, frac * P60)
  {
    hide Pow2, And;
    DoublePowers();
    AndMask(frac, 4);
    var fracHi := Shr64(frac, 4);
    var fracLo := Shl64(And64(frac, 0xF), 60);
    assert fracLo == frac % 16 * P60;
    DivUnique(frac * P60, W, frac / 16, frac % 16 * P60);
    q := Pack(sign, exp, U128(fracLo, fracHi));
    SmallMod(frac * P60, P112);
  }

  lemma WidenNormal(sign: nat, u: Word, q: Quad)
    requires sign <= 1 && 1 <= DExp(u) < D_INF && DSign(u) == sign && DFrac(u) * P60 < P112
    requires q == Make(sign, DExp(u) - 1023 + BIAS, DFrac(u) * P60)
    ensures Finite(q) && SignOf(q) == DSign(u) && ExpOf(q) <= BIAS + 1023 && Mag(q) == DMag(u) * DoubleUnit()
  {
    MakeFields(sign, DExp(u) - 1023 + BIAS, DFrac(u) * P60);
    hide Make, SignOf, ExpOf, Frac, DSign, DExp, DFrac, Pow2;
    NormalScale(ExpOf(q));
    MulAssoc(DSig(u), Pow2(DExp(u) - 1), DoubleUnit());
    MulAssoc(DSig(u), P60, Pow2(ExpOf(q) - 1));
  }

  lemma WidenSubnormal(sign: nat, u: Word, q: Quad, frac: nat, k: nat)
    requires sign <= 1 && DExp(u) == 0 && DSign(u) == sign && P52 <= frac < P53 && k <= 52
    requires frac == DFrac(u) * Pow2(k) && (frac - P52) * P60 < P112
    requires q == Make(sign, BIAS - 1022 - k, (frac - P52) * P60)
    ensures Finite(q) && SignOf(q) == DSign(u) && ExpOf(q) <= BIAS + 1023 && Mag(q) == DMag(u) * DoubleUnit()
  {
    MakeFields(sign, BIAS - 1022 - k, (frac - P52) * P60);
    assert Pow2(0) == 1;
    hide Make, SignOf, ExpOf, Frac, DSign, DExp, DFrac, Pow2;
    SubnormalScale(ExpOf(q), k);
    assert Sig(q) == frac * P60;
    WidenRegroup(DFrac(u), Pow2(k), Pow2(ExpOf(q) - 1));
  }

  lemma WidenRegroup(x: nat, p: nat, g: nat)
    ensures (x * p) * P60 * g == x * ((p * P60) * g)
  {
    MulAssoc(x, p, P60);
    MulAssoc(x, p * P60, g);
  }

  /** `f64_to_fp128`: exact, and undone by `fp128_to_f64` on every double that is not a NaN. */
  method Widen(u: Word) returns (q: Quad)
    ensures DFinite(u) ==> Finite(q) && SignOf(q) == DSign(u) && Mag(q) == DMag(u) * DoubleUnit()
    ensures DExp(u) == D_INF && DFrac(u) == 0 ==> q == Inf(DSign(u))
    ensures DIsNaN(u) ==> IsNaN(q)
    ensures !DIsNaN(u) ==> Narrow(q) == u
    ensures u == 0x3FF0_0000_0000_0000 ==> q == Quad(0, 0x3FFF_0000_0000_0000)
  {
    DFields(u);
    OneDouble();
    hide DSign, DExp, DFrac, Make, SignOf, ExpOf, Frac, Pow2, Narrow, DMag, Mag, DoubleUnit;
    var sign, exp64, frac := DSign(u), DExp(u), DFrac(u);
    if exp64 == D_INF {
      if frac != 0 {
        q := Make(sign, EXP_INF, P112 / 2 + 1);
        MakeFields(sign, EXP_INF, P112 / 2 + 1);
      } else {
        q := Make(sign, EXP_INF, 0);
        WidenInfinity(u);
      }
      return;
    }
    if exp64 == 0 && frac == 0 {
      q := Make(sign, 0, 0);
      WidenZero(u);
    } else if exp64 == 0 {
      var unbiased;
      ghost var k;
      frac, unbiased, k := NormaliseFraction(frac);
      q := WidenFields(sign, unbiased + BIAS, frac - P52);
      WidenSubnormal(sign, u, q, frac, k);
    } else {
      q := WidenFields(sign, exp64 - 1023 + BIAS, frac);
      WidenNormal(sign, u, q);
    }
    NarrowExact(q, u);
    if u == 0x3FF0_0000_0000_0000 { OneIs(q); }
  }

  /** 1.0 as a double. */
  lemma OneDouble()
    ensures var u := 0x3FF0_0000_0000_0000; DFinite(u) && DSign(u) == 0 && DMag(u) * DoubleUnit() == Unit()
  {
    var u := 0x3FF0_0000_0000_0000;
    assert DExp(u) == 1023 && DFrac(u) == 0 && DSign(u) == 0;
    hide DExp, DFrac, DSign, Pow2;
    DoublePowers();
    Pow2Add(52, 1022);
    Pow2Add(1074, BIAS - 963);
  }

  lemma WidenInfinity(u: Word)
    requires DExp(u) == D_INF && DFrac(u) == 0 && DSign(u) <= 1
    ensures Narrow(Make(DSign(u), EXP_INF, 0)) == u
  {
    MakeFields(DSign(u), EXP_INF, 0);
    DFields(u);
    NarrowSpecial(Make(DSign(u), EXP_INF, 0));
  }

  lemma WidenZero(u: Word)
    requires DExp(u) == 0 && DFrac(u) == 0 && DSign(u) <= 1
    ensures var q := Make(DSign(u), 0, 0);
            Finite(q) && SignOf(q) == DSign(u) && ExpOf(q) <= BIAS + 1023 && Mag(q) == DMag(u) * DoubleUnit()
  {
    MakeFields(DSign(u), 0, 0);
  }
}
