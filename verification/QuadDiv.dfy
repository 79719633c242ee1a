/** `__divtf3` of glue/compiler_rt.c. */
module QuadDiv {
  import opened Bits
  import opened Wide
  import opened Rounding
  import opened QuadFormat

  // ---- long division ----

  /** `carry:remainder` as one number. */
  function Partial(carry: nat, rem: U128): nat { carry * WW + Val(rem) }

  /** One step: compare and subtract. */
  lemma SubtractStep(n: nat, d: nat, q: nat, x: nat, p: nat)
    requires n * p == 2 * (q * d) + x && x < 2 * d
    ensures x >= d ==> n * (2 * p) == 2 * ((2 * q + 1) * d) + 2 * (x - d) && x - d < d
    ensures x < d ==> n * (2 * p) == 2 * ((2 * q) * d) + 2 * x
  {
    MulTwice(n, p);
    MulDist(2 * q, 1, d);
    MulAssoc(2, q, d);
  }

  /** Lines 822-823: shift left, keeping the bit that falls off. */
  method ShiftOut(x: U128) returns (carry: nat, r: U128)
    ensures Partial(carry, r) == 2 * Val(x) && carry <= 1
  {
    SmallPowers();
    hide And, Pow2;
    AndMask(Shr64(x.hi, 63), 1);
    carry := And64(Shr64(x.hi, 63), 1);
    assert carry == x.hi / 0x8000_0000_0000_0000;
    r := Shl128(x, 1);
    ShiftOutSum(x, carry);
  }

  lemma ShiftOutSum(x: U128, carry: nat)
    requires carry == x.hi / 0x8000_0000_0000_0000
    ensures carry <= 1 && carry * WW + (Val(x) * 2) % WW == 2 * Val(x)
  {
    if carry == 0 {
      DivUnique(Val(x) * 2, WW, 0, Val(x) * 2);
    } else {
      DivUnique(Val(x) * 2, WW, 1, Val(x) * 2 - WW);
    }
  }

  /** The 116-step loop.  Afterwards `carry:remainder` is twice the true remainder. */
  method LongDivision(n: U128, d: U128) returns (quotient: U128, carry: nat, remainder: U128)
    requires P127 <= Val(n) && P127 <= Val(d)
    ensures Val(n) * Pow2(116) == 2 * (Val(quotient) * Val(d)) + Partial(carry, remainder)
    ensures Partial(carry, remainder) < 2 * Val(d) && Partial(carry, remainder) % 2 == 0
    ensures Val(quotient) < Pow2(116) && carry <= 1
  {
    ValRange(n);
    ValRange(d);
    quotient, remainder, carry := From64(0), n, 0;
    assert Pow2(0) == 1;
    hide Pow2, Val;
    for i := 0 to 116
      invariant Val(n) * Pow2(i) == 2 * (Val(quotient) * Val(d)) + Partial(carry, remainder)
      invariant Partial(carry, remainder) < 2 * Val(d) && carry <= 1
      invariant i > 0 ==> Partial(carry, remainder) % 2 == 0
      invariant Val(quotient) < Pow2(i)
    {
      quotient, carry, remainder := DivisionStep(n, d, quotient, carry, remainder, i);
    }
  }

  method DivisionStep(ghost n: U128, d: U128, q0: U128, carry0: nat, rem0: U128, ghost i: nat)
    returns (quotient: U128, carry: nat, remainder: U128)
    requires i < 116 && carry0 <= 1 && P127 <= Val(d) < WW && Val(q0) < Pow2(i)
    requires Val(n) * Pow2(i) == 2 * (Val(q0) * Val(d)) + Partial(carry0, rem0) && Partial(carry0, rem0) < 2 * Val(d)
    ensures Val(n) * Pow2(i + 1) == 2 * (Val(quotient) * Val(d)) + Partial(carry, remainder)
    ensures Partial(carry, remainder) < 2 * Val(d) && carry <= 1 && Partial(carry, remainder) % 2 == 0
    ensures Val(quotient) < Pow2(i + 1)
  {
    hide Pow2, Val, Shl128, SetLast, Ge, Sub128, Partial;
    NextQuotient(q0, i);
    SubtractStep(Val(n), Val(d), Val(q0), Partial(carry0, rem0), Pow2(i));
    PartialZero(rem0);
    quotient, remainder := Shl128(q0, 1), rem0;
    if carry0 != 0 || Ge(remainder, d) {
      Difference(carry0, rem0, d);
      remainder := Sub128(remainder, d);
      quotient := SetLast(quotient);
    }
    carry, remainder := ShiftOut(remainder);
  }

  lemma PartialZero(rem: U128)
    ensures Partial(0, rem) == Val(rem)
  {
  }

  lemma NextQuotient(q: U128, i: nat)
    requires i < 116 && Val(q) < Pow2(i)
    ensures Pow2(i + 1) == 2 * Pow2(i)
    ensures Val(Shl128(q, 1)) == 2 * Val(q) && Val(SetLast(Shl128(q, 1))) == 2 * Val(q) + 1
  {
    hide Pow2, Val, Shl128, SetLast;
    SmallPowers();
    WordPowers();
    Pow2Add(i, 1);
    Pow2Strict(i, 128);
    SmallMod(Val(q) * 2, WW);
  }

  lemma Difference(carry: nat, rem: U128, d: U128)
    requires carry <= 1 && Partial(carry, rem) < 2 * Val(d) && (carry != 0 || Val(rem) >= Val(d))
    ensures Val(Sub128(rem, d)) == Partial(carry, rem) - Val(d)
    ensures Partial(carry, rem) >= Val(d)
  {
    ValRange(rem);
    ValRange(d);
    hide Val, Sub128;
    var c: int := carry;
    DivUnique(Val(rem) - Val(d), WW, -c, Partial(carry, rem) - Val(d));
  }

  // ---- specification ----

  function Scaled(m: nat): nat { m * Unit() }

  /** The exact quotient is `Mag(a) * Unit() / Mag(b)`. */
  function RoundedQuotient(a: Quad, b: Quad): Quad
    requires NonZeroFinite(b)
  {
    Nearest(ResultSign(a, b), Scaled(Mag(a)), Mag(b))
  }

  /** The exact quotient is at least 2^-16382. */
  predicate NormalQuotient(a: Quad, b: Quad) { P112 * Mag(b) <= Scaled(Mag(a)) }

  /** Places by which a significand is shifted to bring its leading bit to position 127. */
  function LeadShift(x: nat): nat
    requires 0 < x
    decreases if x < P127 then P127 - x else 0
  {
    if P127 <= x then 0 else 1 + LeadShift(2 * x)
  }

  function Lead(x: nat): (r: nat)
    requires 0 < x
    ensures 0 < r
  {
    MulLe(1, 1, x, Pow2(LeadShift(x)));
    x * Pow2(LeadShift(x))
  }

  /** The quotient ends exactly on a rounding tie, over an even significand, with a remainder of
      2^127 that the code does not see: twice the remainder is `carry = 1`, `remainder = 0`. */
  predicate TieLost(n: nat, d: nat)
    requires 0 < d
  {
    var q := n * Pow2(115) / d;
    n * Pow2(115) % d == P127 && if P115 <= q then q % 16 == 4 else q % 8 == 2
  }

  /** The tie of these operands is lost. */
  predicate LosesTie(a: Quad, b: Quad) {
    Sig(a) != 0 && Sig(b) != 0 && TieLost(Lead(Sig(a)), Lead(Sig(b)))
  }

  /** The quotient below the normal range, rounded to 113 bits and truncated after. */
  function TruncatedQuotient(a: Quad, b: Quad): Quad {
    var sign, n, d := ResultSign(a, b), Scaled(Mag(a)), Mag(b);
    if 0 < n < P112 * d then Truncated(sign, n, d) else Zero(sign)
  }

  /** Exactly when the quotient of two non-zero finite numbers comes out correctly rounded. */
  predicate QuotientRounds(a: Quad, b: Quad)
    requires NonZeroFinite(a) && NonZeroFinite(b)
  {
    MagZero(a);
    MagZero(b);
    if NormalQuotient(a, b) then !LosesTie(a, b) || Overflows(a, b)
    else HarmlessTruncation(Scaled(Mag(a)), Mag(b))
  }

  /** The biased exponent of the quotient before rounding. */
  function QuotientExp(a: Quad, b: Quad): int
    requires Sig(a) != 0 && Sig(b) != 0
  {
    Exp(a) - LeadShift(Sig(a)) - Exp(b) + LeadShift(Sig(b)) + BIAS
      - (if Lead(Sig(a)) < Lead(Sig(b)) then 1 else 0)
  }

  predicate Overflows(a: Quad, b: Quad)
    requires Sig(a) != 0 && Sig(b) != 0
  {
    QuotientExp(a, b) >= EXP_INF
  }

  lemma {:induction false} LeadShiftIs(x: nat, k: nat)
    requires 0 < x && P127 <= x * Pow2(k) < WW
    ensures LeadShift(x) == k && Lead(x) == x * Pow2(k)
    decreases k
  {
    if k > 0 {
      MulTwice(x, Pow2(k - 1));
      MulAssoc(2, x, Pow2(k - 1));
      assert x < P127 by { MulLe(2 * x, 1, 2 * x, Pow2(k - 1)); }
      LeadShiftIs(2 * x, k - 1);
    }
  }

  // ---- quotient and remainder ----

  /** The significand the loop delivers: the quotient, jammed when the remainder is seen to be
      non-zero, and shifted left once when its leading bit is missing. */
  ghost predicate QuotientSig(s: nat, n: nat, d: nat) {
    && 0 < d
    && var q, r := n * Pow2(115) / d, n * Pow2(115) % d;
       var j := if r == 0 || r == P127 || q % 2 == 1 then q else q + 1;
       s == if P115 <= q then j else 2 * j
  }

  lemma TrueQuotient(n: nat, d: nat, q: nat, x: nat, p: nat)
    requires 0 < d && n * (2 * p) == 2 * (q * d) + x && x < 2 * d && x % 2 == 0
    ensures n * p / d == q && n * p % d == x / 2
  {
    MulTwice(n, p);
    DivUnique(n * p, d, q, x / 2);
  }

  lemma QuotientRange(n: nat, d: nat, p: nat)
    requires P127 <= n < WW && P127 <= d < WW && 0 < p
    ensures var q := n * (2 * p) / d; p <= q < 4 * p && (q < 2 * p <==> n < d)
  {
    var x := n * (2 * p);
    MulSwap(n, 2, p);
    MulOrder(p, d, 2 * n);
    DivAtLeast(x, d, p);
    MulOrder(2 * p, n, 2 * d);
    DivBelow(x, d, 4 * p);
    if n < d {
      MulOrder(2 * p, n, d);
      DivBelow(x, d, 2 * p);
    } else {
      MulLe(d, 2 * p, n, 2 * p);
      DivAtLeast(x, d, 2 * p);
    }
  }

  lemma Bit115(a: U128)
    requires Val(a) < P116
    ensures IsZero(And128(a, Shl128(From64(1), 115))) <==> Val(a) < P115
  {
    hide And, Pow2;
    QuadPowers();
    AndBit(Val(a), 115);
  }

  /** Lines 810-824, in terms of the true quotient and remainder. */
  method QuotientAndRemainder(n: U128, d: U128) returns (quotient: U128, remainder: U128)
    requires P127 <= Val(n) && P127 <= Val(d)
    ensures Val(quotient) == Val(n) * Pow2(115) / Val(d) && P115 <= 2 * Val(quotient) && Val(quotient) < P116
    ensures IsZero(remainder) <==>
            Val(n) * Pow2(115) % Val(d) == 0 || Val(n) * Pow2(115) % Val(d) == P127
    ensures Val(quotient) < P115 <==> Val(n) < Val(d)
  {
    ValRange(n);
    ValRange(d);
    hide Pow2, Val, Partial;
    var carry;
    quotient, carry, remainder := LongDivision(n, d);
    QuadPowers();
    Pow2Add(115, 1);
    Pow2Add(114, 1);
    SmallPowers();
    ghost var x := Partial(carry, remainder);
    TrueQuotient(Val(n), Val(d), Val(quotient), x, Pow2(115));
    QuotientRange(Val(n), Val(d), Pow2(114));
    SeenZero(carry, remainder);
  }

  /** Lines 802-836. */
  method DivideSignificands(n: U128, d: U128) returns (sig: U128, shifted: bool)
    requires P127 <= Val(n) && P127 <= Val(d)
    ensures QuotientSig(Val(sig), Val(n), Val(d)) && P115 <= Val(sig) < P116
    ensures shifted <==> Val(n) < Val(d)
    ensures shifted <==> Val(n) * Pow2(115) / Val(d) < P115
  {
    var quotient, remainder := QuotientAndRemainder(n, d);
    hide Pow2, Val;
    sig, shifted := JamAndShift(quotient, IsZero(remainder));
  }

  /** Lines 826-836. */
  method JamAndShift(quotient0: U128, exact: bool) returns (sig: U128, shifted: bool)
    requires P115 <= 2 * Val(quotient0) && Val(quotient0) < P116
    ensures var q := Val(quotient0);
            var j := if exact || q % 2 == 1 then q else q + 1;
            shifted == (q < P115) && Val(sig) == (if shifted then 2 * j else j) && P115 <= Val(sig) < P116
  {
    hide Pow2, Val, Shl128, SetLast, And128;
    SmallPowers();
    var quotient := quotient0;
    if !exact { quotient := SetLast(quotient); }
    Bit115(quotient);
    sig, shifted := quotient, false;
    if IsZero(And128(quotient, Shl128(From64(1), 115))) {
      SmallMod(Val(quotient) * 2, WW);
      sig, shifted := Shl128(quotient, 1), true;
    }
  }

  lemma SeenZero(carry: nat, rem: U128)
    requires carry <= 1 && Partial(carry, rem) % 2 == 0
    ensures IsZero(rem) <==> Partial(carry, rem) / 2 == 0 || Partial(carry, rem) / 2 == P127
  {
    ValRange(rem);
    hide Val;
  }

  // ---- the effect of the unseen remainder ----

  /** The significand that a fully seen remainder would give. */
  ghost function IdealSig(n: nat, d: nat): nat
    requires 0 < d
  {
    var j := Jam(n * Pow2(115), d);
    if P115 <= n * Pow2(115) / d then j else 2 * j
  }

  /** Only on a lost tie does the rounded significand differ; it is then one too small, and the
      correct one is odd. */
  lemma UnseenRemainder(s: nat, n: nat, d: nat)
    requires QuotientSig(s, n, d)
    ensures TieLost(n, d) ==> RoundInt(IdealSig(n, d), 8) == RoundInt(s, 8) + 1 && RoundInt(s, 8) % 2 == 0
    ensures !TieLost(n, d) ==> RoundInt(IdealSig(n, d), 8) == RoundInt(s, 8)
  {
    hide Pow2, RoundInt;
    var x := n * Pow2(115);
    DivMod(x, d);
    var q := x / d;
    if x % d == P127 && q % 2 == 0 {
      if P115 <= q { LostBit(q); } else { LostBitShifted(q); }
    }
  }

  lemma LostBit(q: nat)
    requires q % 2 == 0
    ensures q % 16 == 4 ==> RoundInt(q + 1, 8) == RoundInt(q, 8) + 1 && RoundInt(q, 8) % 2 == 0
    ensures q % 16 != 4 ==> RoundInt(q + 1, 8) == RoundInt(q, 8)
  {
    hide RoundInt;
    var t, c := q / 8, q % 8;
    EighthParity(q, t, c);
    RoundEighth(t, c);
    RoundEighth(t, c + 1);
  }

  lemma RoundEighth(t: nat, c: nat)
    requires c < 8
    ensures RoundInt(8 * t + c, 8) == if c > 4 || (c == 4 && t % 2 == 1) then t + 1 else t
  {
    DivUnique(8 * t + c, 8, t, c);
  }

  lemma EighthParity(q: nat, t: nat, c: nat)
    requires q == 8 * t + c && c < 8 && q % 2 == 0
    ensures (q % 16 == 4 <==> c == 4 && t % 2 == 0) && c % 2 == 0
  {
    DivUnique(q, 16, t / 2, 8 * (t % 2) + c);
  }

  lemma LostBitShifted(q: nat)
    requires q % 2 == 0
    ensures q % 8 == 2 ==> RoundInt(2 * (q + 1), 8) == RoundInt(2 * q, 8) + 1 && RoundInt(2 * q, 8) % 2 == 0
    ensures q % 8 != 2 ==> RoundInt(2 * (q + 1), 8) == RoundInt(2 * q, 8)
  {
    RoundIntScale(q, 4, 2);
    RoundIntScale(q + 1, 4, 2);
    hide RoundInt;
    TieOfFour(q);
  }

  lemma TieOfFour(q: nat)
    requires q % 2 == 0
    ensures q % 8 == 2 ==> RoundInt(q + 1, 4) == RoundInt(q, 4) + 1 && RoundInt(q, 4) % 2 == 0
    ensures q % 8 != 2 ==> RoundInt(q + 1, 4) == RoundInt(q, 4)
  {
    var k, c := q / 8, q % 8;
    assert q == 8 * k + c && (c == 0 || c == 2 || c == 4 || c == 6);
    DivUnique(q, 4, 2 * k + c / 4, c % 4);
    DivUnique(q + 1, 4, 2 * k + c / 4, c % 4 + 1);
  }

  lemma IdealWindow(n: nat, d: nat)
    requires P127 <= n < WW && P127 <= d < WW
    ensures P115 <= n * Pow2(115) / d ==> Window(IdealSig(n, d), n * P112, d)
    ensures n * Pow2(115) / d < P115 ==> Window(IdealSig(n, d), n * P113, d)
  {
    hide Pow2;
    QuadPowers();
    Pow2Add(114, 1);
    SmallPowers();
    var x := n * Pow2(115);
    DivMod(x, d);
    QuotientRange(n, d, Pow2(114));
    assert x == 8 * (n * P112) && x == 4 * (n * P113);
    if P115 <= x / d { WindowJam(Jam(x, d), n * P112, d); } else { WindowShifted(Jam(x, d), n * P113, d); }
  }

  // ---- scale of the quotient ----

  /** `n / d` with `n = x * 2^i`, `d = y * 2^j`, against the exact quotient of the operands. */
  lemma QuotientScale(x: nat, y: nat, i: nat, j: nat, eA: nat, eB: nat, c: nat, exp: nat)
    requires 1 <= eA && 1 <= eB && 1 <= exp && 0 < y
    requires i + c + (exp - 1) + (eB - 1) == (eA - 1) + (BIAS + 111) + j
    ensures (x * Pow2(i) * Pow2(c)) * (Pow2(exp - 1) * (y * Pow2(eB - 1))) ==
            Scaled(x * Pow2(eA - 1)) * (y * Pow2(j))
  {
    hide Pow2;
    Pow2Add(i, c);
    Pow2Add(exp - 1, eB - 1);
    Pow2Add(i + c, exp - 1 + (eB - 1));
    Pow2Add(eA - 1, BIAS + 111);
    Pow2Add(eA - 1 + (BIAS + 111), j);
    Regroup(x, y, Pow2(i), Pow2(c), Pow2(exp - 1), Pow2(eB - 1));
    RegroupScaled(x, y, Pow2(eA - 1), Unit(), Pow2(j));
  }

  lemma Regroup(x: nat, y: nat, a: nat, b: nat, c: nat, d: nat)
    ensures (x * a * b) * (c * (y * d)) == (x * y) * ((a * b) * (c * d))
  {
    MulAssoc(x, a, b);
    MulSwap(c, y, d);
    RegroupScaled(x, y, a * b, c * d, 1);
    assert (x * (a * b)) * (y * (c * d)) == (x * y) * ((a * b) * (c * d)) by {
      MulSwap(x * (a * b), y, c * d);
      MulAssoc(x, a * b, c * d);
      MulSwap(y, x, (a * b) * (c * d));
      MulAssoc(x, y, (a * b) * (c * d));
    }
  }

  lemma RegroupScaled(x: nat, y: nat, a: nat, u: nat, c: nat)
    ensures (x * a * u) * (y * c) == (x * y) * ((a * u) * c)
  {
    MulAssoc(x, a, u);
    MulSwap(x * (a * u), y, c);
    MulAssoc(x, a * u, c);
    MulSwap(y, x, (a * u) * c);
    MulAssoc(x, y, (a * u) * c);
  }

  // ---- the operation ----

  lemma DivideScaled(sA: nat, sB: nat, i: nat, j: nat, eA: nat, eB: nat, c: nat, exp: int, s: nat)
    requires 1 <= eA && 1 <= eB && 0 < sA && 0 < sB
    requires exp == eA - i - eB + j + BIAS + 112 - c
    requires Window(s, sA * Pow2(i) * Pow2(c), sB * Pow2(j))
    ensures exp >= 1 ==> Pow2(exp - 1) * (sB * Pow2(eB - 1)) > 0 &&
                         Window(s, Scaled(sA * Pow2(eA - 1)), Pow2(exp - 1) * (sB * Pow2(eB - 1)))
    ensures exp <= 0 ==> Window(s, Scaled(sA * Pow2(eA - 1)) * Pow2(1 - exp), sB * Pow2(eB - 1))
  {
    hide Pow2, Window, Scaled;
    MulOrder(sB, 0, Pow2(eB - 1));
    if exp >= 1 {
      QuotientScale(sA, sB, i, j, eA, eB, c, exp);
      MulOrder(Pow2(exp - 1), 0, sB * Pow2(eB - 1));
      WindowRatio(s, sA * Pow2(i) * Pow2(c), sB * Pow2(j),
                  Scaled(sA * Pow2(eA - 1)), Pow2(exp - 1) * (sB * Pow2(eB - 1)));
    } else {
      QuotientScaleDown(sA, sB, i, j, eA, eB, c, 1 - exp);
      WindowRatio(s, sA * Pow2(i) * Pow2(c), sB * Pow2(j),
                  Scaled(sA * Pow2(eA - 1)) * Pow2(1 - exp), sB * Pow2(eB - 1));
    }
  }

  lemma QuotientScaleDown(x: nat, y: nat, i: nat, j: nat, eA: nat, eB: nat, c: nat, k: nat)
    requires 1 <= eA && 1 <= eB && 0 < y
    requires i + c + (eB - 1) == (eA - 1) + (BIAS + 111) + j + k
    ensures (x * Pow2(i) * Pow2(c)) * (y * Pow2(eB - 1)) ==
            (Scaled(x * Pow2(eA - 1)) * Pow2(k)) * (y * Pow2(j))
  {
    hide Pow2;
    Pow2Add(i, c);
    Pow2Add(i + c, eB - 1);
    Pow2Add(eA - 1, BIAS + 111);
    Pow2Add(k, j);
    Pow2Add(eA - 1 + (BIAS + 111), k + j);
    RegroupScaled(x, y, Pow2(i), Pow2(c), Pow2(eB - 1));
    Regroup(x * Pow2(eA - 1), y, Unit(), Pow2(k), 1, Pow2(j));
    MulAssoc(x, Pow2(eA - 1), 1);
    RegroupLast(x, y, Pow2(eA - 1), Unit() * Pow2(k), Pow2(j), Unit(), Pow2(k));
  }

  lemma RegroupLast(x: nat, y: nat, a: nat, uk: nat, c: nat, u: nat, k: nat)
    requires uk == u * k
    ensures ((x * a) * y) * (uk * c) == (x * y) * ((a * u) * (k * c))
  {
    MulAssoc(u, k, c);
    assert uk * c == u * (k * c);
    MulAssoc(a, u, k * c);
    MulSwap(x * a, y, u * (k * c));
    MulAssoc(x * a, y, u * (k * c));
    MulAssoc(x, a, u * (k * c));
    MulSwap(y, x, a * (u * (k * c)));
    MulAssoc(x, y, a * (u * (k * c)));
  }

  /** A rounded significand that is one too small, with the correct one odd. */
  lemma OneTooSmall(sign: nat, exp: int, s: nat, y: nat, n: nat, d: nat)
    requires sign <= 1 && 0 < n && 0 < d && y % 2 == 0 && RoundInt(s, 8) == y + 1
    requires exp >= 1 ==> Pow2(exp - 1) * d > 0 && Window(s, n, Pow2(exp - 1) * d)
    requires exp <= 0 ==> Window(s, n * Pow2(1 - exp), d)
    ensures y <= P113
    ensures exp <= 0 ==> n < P112 * d && PackRounded(sign, exp, y) == Truncated(sign, n, d)
    ensures exp >= 1 ==> P112 <= y < P113 && PackRounded(sign, exp, y) == Encode(sign, Rounded(y, exp - 1))
    ensures exp >= 1 ==> (PackRounded(sign, exp, y) == Nearest(sign, n, d) <==> exp >= EXP_INF)
  {
    if exp <= 0 {
      WindowTruncated(sign, exp, s, n, d);
      hide RoundInt, Window, Truncated;
      HalfOdd(y, 1 - exp);
    } else {
      WindowNearest(sign, exp, s, n, d);
      RoundIntRange(n, Pow2(exp - 1) * d, P112, P113);
      hide RoundInt, Window, Nearest, Pow2;
      NeighbourEncodings(sign, exp, y);
    }
  }

  lemma HalfOdd(y: nat, k: nat)
    requires y % 2 == 0 && 0 < k
    ensures (y + 1) / Pow2(k) == y / Pow2(k)
  {
    var p := Pow2(k - 1);
    assert Pow2(k) == 2 * p;
    hide Pow2;
    DivDiv(y, 2, p);
    DivDiv(y + 1, 2, p);
  }

  lemma NeighbourEncodings(sign: nat, exp: nat, y: nat)
    requires sign <= 1 && 1 <= exp && P112 <= y < P113
    ensures Normalised(Carry(y + 1, exp - 1)) &&
            (Encode(sign, Rounded(y, exp - 1)) == Encode(sign, Carry(y + 1, exp - 1)) <==> exp >= EXP_INF)
  {
    hide Make;
    if exp < EXP_INF {
      MakeFields(sign, exp, y - P112);
      if y + 1 < P113 { MakeFields(sign, exp, y + 1 - P112); } else { MakeFields(sign, exp + 1, 0); }
    }
  }

  /** Lines 795-800: a significand with its leading bit at position 127. */
  method LeftJustify(sig: U128) returns (r: U128, lz: nat)
    requires Val(sig) != 0
    ensures lz == LeadShift(Val(sig)) && Val(r) == Lead(Val(sig)) && P127 <= Val(r)
    ensures Val(r) == Val(sig) * Pow2(lz)
  {
    hide Pow2, Val, Shl128;
    lz := Clz128(sig);
    WordPowers();
    Pow2Add(127, 1);
    SmallPowers();
    LeadShiftIs(Val(sig), lz);
    SmallMod(Val(sig) * Pow2(lz), WW);
    r := Shl128(sig, lz);
  }

  /** `r` is one unit in the last place below the correctly rounded quotient. */
  ghost predicate OneUlpBelow(r: Quad, a: Quad, b: Quad)
    requires NonZeroFinite(a) && NonZeroFinite(b) && Sig(a) != 0 && Sig(b) != 0
  {
    var e := QuotientExp(a, b) - 1;
    e >= 0 && Pow2(e) * Mag(b) > 0 &&
    var y := RoundInt(Scaled(Mag(a)), Pow2(e) * Mag(b));
    P112 < y <= P113 && RoundedQuotient(a, b) == Encode(ResultSign(a, b), Carry(y, e)) &&
    r == Encode(ResultSign(a, b), Rounded(y - 1, e))
  }

  lemma ScaledPositive(m: nat)
    requires 0 < m
    ensures 0 < Scaled(m)
  {
    hide Pow2;
    MulOrder(m, 0, Unit());
  }

  lemma PowerProducts(x: nat)
    ensures x * P112 == x * Pow2(112) && x * P113 == x * Pow2(113)
  {
    QuadPowers();
  }

  /** The exact quotient lies in the window of the ideal significand. */
  lemma DivWindow(a: Quad, b: Quad, exp: int, u: nat)
    requires NonZeroFinite(a) && NonZeroFinite(b) && Sig(a) != 0 && Sig(b) != 0 && exp == QuotientExp(a, b)
    requires P127 <= Lead(Sig(a)) < WW && P127 <= Lead(Sig(b)) < WW && u == IdealSig(Lead(Sig(a)), Lead(Sig(b)))
    requires Lead(Sig(a)) < Lead(Sig(b)) <==> Lead(Sig(a)) * Pow2(115) / Lead(Sig(b)) < P115
    ensures exp >= 1 ==> Pow2(exp - 1) * Mag(b) > 0 && Window(u, Scaled(Mag(a)), Pow2(exp - 1) * Mag(b))
    ensures exp <= 0 ==> Window(u, Scaled(Mag(a)) * Pow2(1 - exp), Mag(b))
  {
    hide Pow2, ExpOf, Frac, Window, Scaled, LeadShift, IdealSig, Sig;
    var n, d := Lead(Sig(a)), Lead(Sig(b));
    IdealWindow(n, d);
    PowerProducts(n);
    DivideScaled(Sig(a), Sig(b), LeadShift(Sig(a)), LeadShift(Sig(b)), Exp(a), Exp(b),
                 if n < d then 113 else 112, exp, u);
  }

  /** The packed quotient against the correctly rounded one. */
  lemma DivResult(a: Quad, b: Quad, sign: nat, exp: int, s: nat)
    requires NonZeroFinite(a) && NonZeroFinite(b) && sign == ResultSign(a, b) && Sig(a) != 0 && Sig(b) != 0
    requires P127 <= Lead(Sig(a)) < WW && P127 <= Lead(Sig(b)) < WW
    requires exp == QuotientExp(a, b) && QuotientSig(s, Lead(Sig(a)), Lead(Sig(b)))
    requires Lead(Sig(a)) < Lead(Sig(b)) <==> Lead(Sig(a)) * Pow2(115) / Lead(Sig(b)) < P115
    requires RoundInt(s, 8) <= P113
    ensures PackRounded(sign, exp, RoundInt(s, 8)) == RoundedQuotient(a, b) <==> QuotientRounds(a, b)
    ensures 0 < Scaled(Mag(a))
    ensures !NormalQuotient(a, b) ==> PackRounded(sign, exp, RoundInt(s, 8)) == TruncatedQuotient(a, b)
    ensures NormalQuotient(a, b) && LosesTie(a, b) ==>
              OneUlpBelow(PackRounded(sign, exp, RoundInt(s, 8)), a, b)
  {
    hide Pow2, SignOf, ExpOf, Frac, Mag, Sig, Window, Truncated, Nearest, PackRounded, HarmlessTruncation, TieLost,
         QuotientSig, RoundInt, LeadShift, Lead, IdealSig, Scaled, QuotientExp, ResultSign, RoundQ;
    var n, d := Lead(Sig(a)), Lead(Sig(b));
    var u, x, m := IdealSig(n, d), Scaled(Mag(a)), Mag(b);
    DivWindow(a, b, exp, u);
    UnseenRemainder(s, n, d);
    ScaledPositive(Mag(a));
    if exp >= 1 {
      WindowLow(u, x, Pow2(exp - 1), m);
      WindowNearest(sign, exp, u, x, m);
    } else {
      WindowTruncated(sign, exp, u, x, m);
      TruncatedIsNearest(sign, x, m);
    }
    if TieLost(n, d) {
      OneTooSmall(sign, exp, u, RoundInt(s, 8), x, m);
      if exp >= 1 { CorrectSignificand(a, b, exp, u); }
    }
  }

  lemma CorrectSignificand(a: Quad, b: Quad, exp: int, u: nat)
    requires NonZeroFinite(a) && NonZeroFinite(b) && exp >= 1 && Pow2(exp - 1) * Mag(b) > 0
    requires Window(u, Scaled(Mag(a)), Pow2(exp - 1) * Mag(b))
    ensures var y := RoundInt(Scaled(Mag(a)), Pow2(exp - 1) * Mag(b));
            y == RoundInt(u, 8) && P112 <= y <= P113 && Normalised(Carry(y, exp - 1)) &&
            RoundedQuotient(a, b) == Encode(ResultSign(a, b), Carry(y, exp - 1))
  {
    RoundAt(Scaled(Mag(a)), Mag(b), exp - 1);
    RoundIntRange(Scaled(Mag(a)), Pow2(exp - 1) * Mag(b), P112, P113);
    hide Pow2, RoundInt, RoundQ;
  }

  /** Lines 781-864 for finite non-zero operands. */
  method DivFinite(a: Quad, b: Quad, expFieldA: nat, fracA: U128, expFieldB: nat, fracB: U128,
                   sign: nat) returns (r: Quad)
    requires NonZeroFinite(a) && NonZeroFinite(b) && sign == ResultSign(a, b) && Sig(a) != 0 && Sig(b) != 0
    requires expFieldA == ExpOf(a) && Val(fracA) == Frac(a) < P112
    requires expFieldB == ExpOf(b) && Val(fracB) == Frac(b) < P112
    ensures r == RoundedQuotient(a, b) <==> QuotientRounds(a, b)
    ensures 0 < Scaled(Mag(a))
    ensures !NormalQuotient(a, b) ==> r == TruncatedQuotient(a, b)
    ensures NormalQuotient(a, b) && LosesTie(a, b) ==> OneUlpBelow(r, a, b)
    ensures SignOf(r) == sign && !IsNaN(r)
  {
    hide IsNaN, Pow2, Val, SignOf, ExpOf, Frac, Mag, Sig, Exp, Window, Truncated, Nearest, PackRounded,
         HarmlessTruncation, TieLost, QuotientSig, RoundInt, LeadShift, Lead, Scaled, ResultSign, OneUlpBelow,
         QuotientRounds, RoundedQuotient, NormalQuotient, LosesTie, TruncatedQuotient;
    var sigA, expA := Unpack(a, expFieldA, fracA);
    var sigB, expB := Unpack(b, expFieldB, fracB);
    var exp: int := expA - expB + BIAS;
    var n, lzA := LeftJustify(sigA);
    var d, lzB := LeftJustify(sigB);
    ValRange(n);
    ValRange(d);
    exp := exp - lzA + lzB;
    var sig, shifted := DivideSignificands(n, d);
    if shifted { exp := exp - 1; }
    r := RoundPack(sign, exp, sig);
    DivResult(a, b, sign, exp, Val(sig));
  }

  /** `__divtf3`: the correctly rounded quotient exactly on `QuotientRounds`; on a lost tie it is one
      unit in the last place too small, and below the normal range it is truncated. */
  method DivTf3(a: Quad, b: Quad) returns (r: Quad)
    ensures NonZeroFinite(a) && NonZeroFinite(b) ==>
              && (r == RoundedQuotient(a, b) <==> QuotientRounds(a, b))
              && 0 < Scaled(Mag(a))
              && (!NormalQuotient(a, b) ==> r == TruncatedQuotient(a, b))
              && (NormalQuotient(a, b) && LosesTie(a, b) ==> OneUlpBelow(r, a, b))
    ensures IsNaN(a) || (IsNaN(b) && !IsInf(a)) || (IsInf(a) && ExpOf(b) == EXP_INF) ==> IsNaN(r)
    ensures Finite(a) && Finite(b) && Mag(a) == 0 && Mag(b) == 0 ==> IsNaN(r)
    ensures (IsInf(a) && Finite(b)) || (NonZeroFinite(a) && Finite(b) && Mag(b) == 0) ==> r == Inf(ResultSign(a, b))
    ensures (Finite(a) && IsInf(b)) || (Finite(a) && Mag(a) == 0 && NonZeroFinite(b)) ==> r == Zero(ResultSign(a, b))
    ensures !IsNaN(r) ==> SignOf(r) == (SignOf(a) + SignOf(b)) % 2
    ensures NonZeroFinite(a) && NonZeroFinite(b) ==>
              !IsNaN(r) && (SignOf(r) == 1 <==> (Signed(a) < 0) != (Signed(b) < 0))
  {
    FieldRange(a);
    FieldRange(b);
    hide Pow2, Val, ExpOf, Frac, SignOf, Nearest, Truncated, Make, Pack, QuotientRounds, OneUlpBelow, Scaled, TieLost,
         Lead, LeadShift, LosesTie, TruncatedQuotient;
    var signA, expA, fracA := Fields(a);
    var signB, expB, fracB := Fields(b);
    var sign := if signA == signB then 0 else 1;
    MakeFields(0, EXP_INF, 1);
    MakeFields(sign, EXP_INF, 0);
    MakeFields(sign, 0, 0);
    if expA == EXP_INF {
      if !IsZero(fracA) { return a; }
      if expB == EXP_INF { return Pack(0, EXP_INF, From64(1)); }
      return Pack(sign, EXP_INF, From64(0));
    }
    if expB == EXP_INF {
      if !IsZero(fracB) { return b; }
      return Pack(sign, 0, From64(0));
    }
    MagZero(a);
    MagZero(b);
    var zeroA := expA == 0 && IsZero(fracA);
    var zeroB := expB == 0 && IsZero(fracB);
    if zeroA && zeroB { return Pack(0, EXP_INF, From64(1)); }
    if zeroA { return Pack(sign, 0, From64(0)); }
    if zeroB { return Pack(sign, EXP_INF, From64(0)); }
    r := DivFinite(a, b, expA, fracA, expB, fracB, sign);
  }
}
