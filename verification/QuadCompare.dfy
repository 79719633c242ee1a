/** `fp128_compare` of glue/compiler_rt.c. */
module QuadCompare {
  import opened Bits
  import opened Rounding
  import opened QuadFormat

  /** `fp128_compare`; 1 for unordered operands. */
  function Compare(a: Quad, b: Quad): int
  {
    var fracHiA, fracHiB := a.hi % P48, b.hi % P48;
    var nanA := ExpOf(a) == EXP_INF && (fracHiA != 0 || a.lo != 0);
    var nanB := ExpOf(b) == EXP_INF && (fracHiB != 0 || b.lo != 0);
    if nanA || nanB then 1
    else
      var zeroA := ExpOf(a) == 0 && fracHiA == 0 && a.lo == 0;
      var zeroB := ExpOf(b) == 0 && fracHiB == 0 && b.lo == 0;
      if zeroA && zeroB then 0
      else if SignOf(a) != SignOf(b) then (if SignOf(a) != 0 then -1 else 1)
      else if ExpOf(a) != ExpOf(b) then Directed(a, ExpOf(a) < ExpOf(b))
      else if fracHiA != fracHiB then Directed(a, fracHiA < fracHiB)
      else if a.lo != b.lo then Directed(a, a.lo < b.lo)
      else 0
  }

  /** The comparison of magnitudes, reversed for negative operands. */
  function Directed(a: Quad, below: bool): int {
    var cmp := if below then -1 else 1;
    if SignOf(a) != 0 then -cmp else cmp
  }

  // ---- extended real values ----

  datatype Extended = NegInf | Real(units: int) | PosInf

  function ValueOf(q: Quad): Extended
    requires !IsNaN(q)
  {
    if IsInf(q) then (if SignOf(q) == 0 then PosInf else NegInf) else Real(Signed(q))
  }

  predicate Below(x: Extended, y: Extended) {
    match (x, y)
    case (Real(u), Real(v)) => u < v
    case (NegInf, _) => !y.NegInf?
    case (_, PosInf) => !x.PosInf?
    case (PosInf, _) => false
    case (_, NegInf) => false
  }

  /** The sign of `x - y`. */
  function Order(x: Extended, y: Extended): int { if Below(x, y) then -1 else if Below(y, x) then 1 else 0 }

  lemma LargerExponent(a: Quad, b: Quad)
    requires ExpOf(a) < ExpOf(b)
    ensures Mag(a) < Mag(b)
  {
    FieldRange(a);
    hide ExpOf, Frac, Pow2, Mag;
    if ExpOf(b) == 1 {
      LargerSignificand(a, b);
    } else {
      HigherBinade(a, b);
    }
  }

  lemma HigherBinade(a: Quad, b: Quad)
    requires Exp(a) < Exp(b) && Sig(a) < P113 && P112 <= Sig(b)
    ensures Mag(a) < Mag(b)
  {
    hide ExpOf, Frac, Pow2, Sig;
    Pow2Strict(Exp(a) - 1, Exp(b) - 1);
    MulOrder(Pow2(Exp(a) - 1), Sig(a), P113);
    MulLe(P112, 2 * Pow2(Exp(a) - 1), Sig(b), Pow2(Exp(b) - 1));
  }

  lemma LargerSignificand(a: Quad, b: Quad)
    requires Exp(a) == Exp(b)
    ensures Mag(a) < Mag(b) <==> Sig(a) < Sig(b)
    ensures Mag(a) == Mag(b) <==> Sig(a) == Sig(b)
  {
    hide ExpOf, Frac, Pow2, Sig;
    MulOrder(Pow2(Exp(a) - 1), Sig(a), Sig(b));
  }

  /** Magnitudes compare by exponent, then fraction words. */
  lemma MagnitudeOrder(a: Quad, b: Quad)
    ensures Mag(a) < Mag(b) <==> ExpOf(a) < ExpOf(b) || (ExpOf(a) == ExpOf(b) && Frac(a) < Frac(b))
    ensures Mag(a) == Mag(b) <==> ExpOf(a) == ExpOf(b) && Frac(a) == Frac(b)
  {
    hide Pow2, ExpOf, Frac, Mag;
    if ExpOf(a) < ExpOf(b) {
      LargerExponent(a, b);
    } else if ExpOf(b) < ExpOf(a) {
      LargerExponent(b, a);
    } else {
      LargerSignificand(a, b);
    }
  }

  lemma FractionOrder(a: Quad, b: Quad)
    ensures Frac(a) < Frac(b) <==> a.hi % P48 < b.hi % P48 || (a.hi % P48 == b.hi % P48 && a.lo < b.lo)
    ensures Frac(a) == Frac(b) <==> a.hi % P48 == b.hi % P48 && a.lo == b.lo
    ensures Frac(a) == 0 <==> a.hi % P48 == 0 && a.lo == 0
    ensures Frac(b) == 0 <==> b.hi % P48 == 0 && b.lo == 0
  {
  }

  /** For numbers, signed zeros, subnormals and infinities alike, the comparison is the sign of the
      difference of the extended-real values. */
  lemma CompareIsOrder(a: Quad, b: Quad)
    requires !IsNaN(a) && !IsNaN(b)
    ensures Compare(a, b) == Order(ValueOf(a), ValueOf(b))
  {
    FractionOrder(a, b);
    MagnitudeOrder(a, b);
    FieldRange(a);
    FieldRange(b);
    MagZero(a);
    MagZero(b);
    hide SignOf, ExpOf, Frac, Mag, Pow2;
  }

  /** Equal operands are identical patterns or zeros of either sign. */
  lemma CompareEqual(a: Quad, b: Quad)
    requires !IsNaN(a) && !IsNaN(b)
    ensures Compare(a, b) == 0 <==> a == b || (Finite(a) && Finite(b) && Mag(a) == 0 && Mag(b) == 0)
  {
    FractionOrder(a, b);
    QuadIsMake(a);
    QuadIsMake(b);
    MagZero(a);
    MagZero(b);
    hide SignOf, ExpOf, Frac, Mag, Pow2, Make;
  }

  /** `a <= b` is a total preorder on numbers, and the comparison is antisymmetric. */
  lemma CompareTotalPreorder(a: Quad, b: Quad, c: Quad)
    requires !IsNaN(a) && !IsNaN(b) && !IsNaN(c)
    ensures Compare(a, b) == -Compare(b, a)
    ensures Compare(a, b) <= 0 && Compare(b, c) <= 0 ==> Compare(a, c) <= 0
    ensures Compare(a, b) == 0 ==> Compare(a, c) == Compare(b, c)
  {
    hide Compare, ValueOf;
    CompareIsOrder(a, b);
    CompareIsOrder(b, a);
    CompareIsOrder(b, c);
    CompareIsOrder(a, c);
  }
}
