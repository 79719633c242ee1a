/** What correct rounding means, independently of any floating-point code.

    Magnitudes are rationals `n / d`, measured in units of the smallest binary128 subnormal.
    `RoundQ` is roundTiesToEven with a 113-bit significand and no upper exponent limit
    (section 4.3.1 of IEEE 754-2008); `RoundNearest` says so without mentioning how it is
    computed.
 */
module Rounding {
  import opened Bits

  const P112: nat := 0x1_0000_0000_0000_0000_0000_0000_0000
  const P113: nat := 0x2_0000_0000_0000_0000_0000_0000_0000

  function Dist(a: int, b: int): nat { if a < b then b - a else a - b }

  /** The integer nearest to `n / d`, ties to even. */
  function RoundInt(n: nat, d: nat): (q: nat)
    requires 0 < d
  {
    var q := n / d;
    var r := n % d;
    if 2 * r < d || (2 * r == d && q % 2 == 0) then q else q + 1
  }

  /** The magnitude `sig * 2^exp`. */
  datatype Rounded = Rounded(sig: nat, exp: nat)

  function Magnitude(r: Rounded): nat { r.sig * Pow2(r.exp) }

  /** A significand that rounded up to 2^113 moves to the next exponent. */
  function Carry(y: nat, e: nat): Rounded {
    if y == P113 then Rounded(P112, e + 1) else Rounded(y, e)
  }

  function RoundQ(n: nat, d: nat): Rounded
    requires 0 < d
    decreases if n > d then n - d else 0
  {
    if n < P113 * d then Carry(RoundInt(n, d), 0)
    else
      var r := RoundQ(n, 2 * d);
      Rounded(r.sig, r.exp + 1)
  }

  // ---- rounding to an integer ----

  lemma RoundIntRange(n: nat, d: nat, lo: nat, hi: nat)
    requires 0 < d && lo * d <= n < hi * d
    ensures lo <= RoundInt(n, d) <= hi
  {
    DivMod(n, d);
    DivBelow(n, d, hi);
    if n / d < lo { MulLe(n / d + 1, d, lo, d); }
  }

  lemma RoundIntExact(q: nat, d: nat)
    requires 0 < d
    ensures RoundInt(q * d, d) == q
  {
    DivUnique(q * d, d, q, 0);
  }

  /** No integer is nearer, and only an even one can be as near as another. */
  lemma RoundIntNearest(n: nat, d: nat, k: nat)
    requires 0 < d
    ensures Dist(RoundInt(n, d) * d, n) <= Dist(k * d, n)
    ensures Dist(RoundInt(n, d) * d, n) == Dist(k * d, n) && k != RoundInt(n, d) ==> RoundInt(n, d) % 2 == 0
  {
    var q, r := n / d, n % d;
    DivMod(n, d);
    assert (q + 1) * d == q * d + d;
    if k <= q {
      MulGap(k, q, d);
    } else {
      MulGap(q + 1, k, d);
    }
  }

  lemma MulGap(a: nat, b: nat, d: nat)
    requires a <= b
    ensures a * d <= b * d && (a < b ==> a * d + d <= b * d)
  {
    MulLe(a, d, b, d);
    if a < b {
      MulLe(a + 1, d, b, d);
      assert (a + 1) * d == a * d + d;
    }
  }

  lemma RoundIntScale(n: nat, d: nat, k: nat)
    requires 0 < d && 0 < k
    ensures k * d > 0 && RoundInt(k * n, k * d) == RoundInt(n, d)
  {
    DivCancel(n, d, k);
    MulTwice(k, n % d);
    MulOrder(k, 2 * (n % d), d);
  }

  // ---- the binade of n / d ----

  /** `RoundQ` rounds to a multiple of `2^e`, where `e` is the exponent of `n / d`. */
  lemma {:induction false} RoundAt(n: nat, d: nat, e: nat)
    requires 0 < d && n < P113 * (Pow2(e) * d)
    requires e > 0 ==> P112 * (Pow2(e) * d) <= n
    ensures Pow2(e) * d > 0
    ensures RoundQ(n, d) == Carry(RoundInt(n, Pow2(e) * d), e)
    decreases e
  {
    if e > 0 {
      var p := Pow2(e - 1);
      assert Pow2(e) * d == p * (2 * d) by { MulTwice(p, d); }
      assert d <= p * d by { MulLe(1, d, p, d); }
      RoundAt(n, 2 * d, e - 1) by {
        if e - 1 > 0 { assert P112 * (p * (2 * d)) <= n; }
      }
    }
  }

  /** The exponent of `n / d`. */
  lemma {:induction false} FindExponent(n: nat, d: nat) returns (e: nat)
    requires 0 < d
    ensures n < P113 * (Pow2(e) * d)
    ensures e > 0 ==> P112 * (Pow2(e) * d) <= n
    decreases if n > d then n - d else 0
  {
    if n < P113 * d {
      e := 0;
    } else {
      var e' := FindExponent(n, 2 * d);
      e := e' + 1;
      assert Pow2(e) * d == Pow2(e') * (2 * d) by { MulTwice(Pow2(e'), d); }
      if e' == 0 { assert Pow2(e) == 2; }
    }
  }

  lemma RoundScale(n: nat, d: nat, k: nat)
    requires 0 < d && 0 < k
    ensures k * d > 0 && RoundQ(k * n, k * d) == RoundQ(n, d)
  {
    var e := FindExponent(n, d);
    RoundAt(n, d, e);
    hide Pow2, RoundQ, RoundInt;
    var m := Pow2(e) * d;
    MulSwap(Pow2(e), k, d);
    MulSwap(P113, k, m);
    MulSwap(P112, k, m);
    MulOrder(k, 0, d);
    MulOrder(k, n, P113 * m);
    MulOrder(k, n, P112 * m);
    RoundAt(k * n, k * d, e);
    RoundIntScale(n, m, k);
  }

  /** Equal ratios round alike. */
  lemma RoundRatio(n: nat, d: nat, n': nat, d': nat)
    requires 0 < d && 0 < d' && n * d' == n' * d
    ensures RoundQ(n, d) == RoundQ(n', d')
  {
    hide RoundQ;
    RoundScale(n, d, d');
    RoundScale(n', d', d);
  }

  // ---- nearest representable magnitude ----

  /** A magnitude with a 113-bit significand. */
  ghost predicate Representable(v: nat) {
    exists r: Rounded :: r.sig < P113 && Magnitude(r) == v
  }

  /** A representable magnitude below the binade of exponent `e` is below its smallest member;
      any other is a multiple of `2^e`. */
  lemma RepresentableGrid(m: nat, f: nat, e: nat)
    requires m < P113
    ensures (exists k: nat :: m * Pow2(f) == k * Pow2(e)) || (e > 0 && m * Pow2(f) < P112 * Pow2(e))
  {
    hide Pow2;
    if e <= f {
      Pow2Add(f - e, e);
      MulAssoc(m, Pow2(f - e), Pow2(e));
      var k := m * Pow2(f - e);
      assert m * Pow2(f) == k * Pow2(e);
    } else {
      Pow2Strict(f, e);
      MulLe(m, Pow2(f), P113 - 1, Pow2(f));
    }
  }

  lemma RoundedForm(n: nat, d: nat) returns (e: nat, y: nat)
    requires 0 < d
    ensures Pow2(e) * d > 0 && y == RoundInt(n, Pow2(e) * d)
    ensures n < P113 * (Pow2(e) * d) && (e > 0 ==> P112 * (Pow2(e) * d) <= n)
    ensures RoundQ(n, d) == Carry(y, e) && y <= P113 && (e > 0 ==> P112 <= y)
    ensures Magnitude(RoundQ(n, d)) == y * Pow2(e)
  {
    e := FindExponent(n, d);
    RoundAt(n, d, e);
    y := RoundInt(n, Pow2(e) * d);
    if e > 0 { RoundIntRange(n, Pow2(e) * d, P112, P113); } else { RoundIntRange(n, Pow2(e) * d, 0, P113); }
    if y == P113 {
      assert Pow2(e + 1) == 2 * Pow2(e);
      assert P112 * (2 * Pow2(e)) == P113 * Pow2(e);
    }
  }

  /** roundTiesToEven: no representable magnitude is nearer to `n / d`, and when another one is
      equally near, the significand of the result is even. */
  lemma RoundNearest(n: nat, d: nat, v: nat)
    requires 0 < d && Representable(v)
    ensures Dist(Magnitude(RoundQ(n, d)) * d, n) <= Dist(v * d, n)
    ensures Dist(Magnitude(RoundQ(n, d)) * d, n) == Dist(v * d, n) && v != Magnitude(RoundQ(n, d))
            ==> RoundQ(n, d).sig % 2 == 0
  {
    var r: Rounded :| r.sig < P113 && Magnitude(r) == v;
    var e, y := RoundedForm(n, d);
    hide Pow2, RoundQ, RoundInt, Dist;
    var p := Pow2(e);
    RepresentableGrid(r.sig, r.exp, e);
    if k: nat :| v == k * p {
      NearestOnGrid(n, d, p, y, k);
      if v != y * p { assert k != y; }
    } else {
      NearestOnGrid(n, d, p, y, P112);
      MulAssoc(P112, p, d);
      MulGap(v, P112 * p, d);
      FartherBelow(n, v * d, P112 * p * d);
    }
  }

  lemma NearestOnGrid(n: nat, d: nat, p: nat, y: nat, k: nat)
    requires 0 < p * d && y == RoundInt(n, p * d)
    ensures Dist(y * p * d, n) <= Dist(k * p * d, n)
    ensures Dist(y * p * d, n) == Dist(k * p * d, n) && k != y ==> y % 2 == 0
  {
    hide RoundInt, Dist;
    MulAssoc(y, p, d);
    MulAssoc(k, p, d);
    RoundIntNearest(n, p * d, k);
  }

  lemma FartherBelow(n: nat, x: nat, y: nat)
    requires x < y <= n
    ensures Dist(y, n) < Dist(x, n)
  {
  }

  /** The result is itself representable, with a normalised significand. */
  lemma RoundRepresentable(n: nat, d: nat)
    requires 0 < d
    ensures RoundQ(n, d).sig < P113
    ensures RoundQ(n, d).exp > 0 ==> P112 <= RoundQ(n, d).sig
    ensures Representable(Magnitude(RoundQ(n, d)))
  {
    var e, y := RoundedForm(n, d);
    var r := RoundQ(n, d);
    assert r.sig < P113 && Magnitude(r) == r.sig * Pow2(r.exp);
  }

  // ---- jamming: the lost bits folded into the last one ----

  /** `floor(n / d)`, with its last bit set when the division is inexact. */
  function Jam(n: nat, d: nat): nat
    requires 0 < d
  {
    if n % d == 0 || n / d % 2 == 1 then n / d else n / d + 1
  }

  /** The key lemma: with at least two bits to spare, rounding the jammed quotient is rounding
      the exact one. */
  lemma JamRound(n: nat, d: nat, m: nat)
    requires 0 < d && 0 < m
    ensures 4 * m * d > 0
    ensures RoundInt(n, 4 * m * d) == RoundInt(Jam(n, d), 4 * m)
  {
    MulOrder(4 * m, 0, d);
    JamRemainder(n, d, 4 * m);
    JamParts(n / d, n % d == 0, 2 * m);
    DivMod(n, d);
    JamHalf(n / d % (4 * m), d, n % d, m, Jam(n, d) % (4 * m));
  }

  /** Setting the last bit changes only the last bit of the remainder. */
  lemma JamParts(q: nat, exact: bool, m: nat)
    requires 0 < m
    ensures var j := if exact || q % 2 == 1 then q else q + 1;
            var s := q % (2 * m);
            j / (2 * m) == q / (2 * m) && j % (2 * m) == if exact || s % 2 == 1 then s else s + 1
  {
    var u, s := q / (2 * m), q % (2 * m);
    DivMod(q, 2 * m);
    assert u * (2 * m) == 2 * (u * m);
    var j := if exact || q % 2 == 1 then q else q + 1;
    DivUnique(j, 2 * m, u, j - u * (2 * m));
  }

  lemma JamRemainder(n: nat, d: nat, D: nat)
    requires 0 < d && 0 < D
    ensures D * d > 0
    ensures n / (D * d) == n / d / D && n % (D * d) == n / d % D * d + n % d
  {
    DivDiv(n, d, D);
    assert d * D == D * d;
  }

  lemma JamHalf(s: nat, d: nat, r: nat, m: nat, s': nat)
    requires r < d && s < 4 * m && s' == if r == 0 || s % 2 == 1 then s else s + 1
    ensures 2 * (s * d + r) < 4 * m * d <==> 2 * s' < 4 * m
    ensures 2 * (s * d + r) == 4 * m * d <==> 2 * s' == 4 * m
  {
    assert 4 * m * d == 2 * (2 * m * d);
    if s < 2 * m {
      MulGap(s, 2 * m, d);
    } else {
      MulGap(2 * m, s, d);
    }
  }

  /** Jamming twice is jamming once. */
  lemma JamJam(n: nat, d: nat, m: nat)
    requires 0 < d && 0 < m
    ensures 2 * m * d > 0 && Jam(Jam(n, d), 2 * m) == Jam(n, 2 * m * d)
  {
    MulOrder(2 * m, 0, d);
    JamRemainder(n, d, 2 * m);
    JamParts(n / d, n % d == 0, m);
    DivMod(n, d);
    var s := n / d % (2 * m);
    if s > 0 { MulLe(1, d, s, d); }
  }

  lemma JamExact(n: nat, d: nat)
    requires 0 < d && n % d == 0
    ensures Jam(n, d) == n / d && Jam(n, d) * d == n
  {
    DivMod(n, d);
  }

  lemma JamScale(n: nat, d: nat, k: nat)
    requires 0 < d && 0 < k
    ensures k * d > 0 && Jam(k * n, k * d) == Jam(n, d)
  {
    DivCancel(n, d, k);
    MulOrder(k, 0, n % d);
  }

  /** Adding or subtracting an even number commutes with jamming, and jamming does not change
      how the two compare. */
  lemma JamCombine(A: nat, b: nat, p: nat, x: nat)
    requires 0 < p && A % 2 == 0 && x == A * p
    ensures Jam(x + b, p) == A + Jam(b, p)
    ensures x > b ==> A > Jam(b, p) && Jam(x - b, p) == A - Jam(b, p)
    ensures x < b ==> A < Jam(b, p) && Jam(b - x, p) == Jam(b, p) - A
    ensures x == b ==> A == Jam(b, p)
  {
    DivMod(b, p);
    JamAdd(A, b / p, b % p, p);
    if x > b { JamSub(A, b / p, b % p, p); }
    if x <= b { JamRest(A, b / p, b % p, p); }
  }

  /** Jamming in terms of quotient and remainder. */
  lemma JamIs(q: nat, r: nat, p: nat)
    requires r < p
    ensures Jam(r + q * p, p) == if r == 0 || q % 2 == 1 then q else q + 1
  {
    DivUnique(r + q * p, p, q, r);
  }

  lemma JamAdd(A: nat, q: nat, r: nat, p: nat)
    requires r < p && A % 2 == 0
    ensures Jam(A * p + (r + q * p), p) == A + Jam(r + q * p, p)
  {
    hide Jam;
    MulDist(A, q, p);
    JamIs(q, r, p);
    JamIs(A + q, r, p);
  }

  lemma JamSub(A: nat, q: nat, r: nat, p: nat)
    requires r < p && A % 2 == 0 && A * p > r + q * p
    ensures A > Jam(r + q * p, p) && Jam(A * p - (r + q * p), p) == A - Jam(r + q * p, p)
  {
    hide Jam;
    assert q < A by { if A <= q { MulLe(A, p, q, p); } }
    MulDist(A, q, p);
    JamIs(q, r, p);
    if r == 0 {
      JamIs(A - q, 0, p);
    } else {
      MulDist(A - q, 1, p);
      JamIs(A - q - 1, p - r, p);
    }
  }

  lemma JamRest(A: nat, q: nat, r: nat, p: nat)
    requires r < p && A % 2 == 0 && A * p <= r + q * p
    ensures A * p < r + q * p ==> A < Jam(r + q * p, p)
    ensures A * p == r + q * p ==> A == Jam(r + q * p, p)
    ensures A <= Jam(r + q * p, p) && Jam(r + q * p - A * p, p) == Jam(r + q * p, p) - A
  {
    hide Jam;
    assert A <= q by { if q < A { MulGap(q, A, p); } }
    MulDist(q, A, p);
    JamIs(q, r, p);
    JamIs(q - A, r, p);
    if A < q { MulGap(A, q, p); }
  }

  // ---- significands with three guard bits ----

  /** `s`, with three guard bits, rounds like `n / m`, whose binade it is in. */
  ghost predicate Window(s: nat, n: nat, m: nat) {
    0 < m && 8 * P112 <= s < 8 * P113 && P112 * m <= n < P113 * m && RoundInt(s, 8) == RoundInt(n, m)
  }

  lemma WindowScale(s: nat, n: nat, m: nat, k: nat)
    requires 0 < k && Window(s, n, m)
    ensures Window(s, k * n, k * m)
  {
    RoundIntScale(n, m, k);
    hide RoundInt;
    MulSwap(P112, k, m);
    MulSwap(P113, k, m);
    MulOrder(k, n, P112 * m);
    MulOrder(k, n, P113 * m);
  }

  /** A window depends on the ratio only. */
  lemma WindowRatio(s: nat, n: nat, m: nat, n': nat, m': nat)
    requires Window(s, n, m) && 0 < m' && n * m' == n' * m
    ensures Window(s, n', m')
  {
    WindowScale(s, n, m, m');
    RoundIntScale(n', m', m);
    hide RoundInt;
    MulSwap(P112, m, m');
    MulSwap(P113, m, m');
    MulOrder(m, n', P112 * m');
    MulOrder(m, n', P113 * m');
  }

  lemma WindowJam(s: nat, n: nat, m: nat)
    requires 0 < m && s == Jam(8 * n, m) && 8 * P112 <= s < 8 * P113
    ensures Window(s, n, m)
  {
    JamRound(8 * n, m, 2);
    RoundIntScale(n, m, 8);
    JamBounds(8 * n, m, 8 * P112, 8 * P113);
  }

  lemma WindowLow(s: nat, n: nat, k: nat, d: nat)
    requires 0 < k && Window(s, n, k * d)
    ensures P112 * d <= n
  {
    MulLe(1, d, k, d);
    MulLe(P112, d, P112, k * d);
  }

  /** One guard bit may be missing, as after a one-place left shift. */
  lemma WindowShifted(t: nat, n: nat, m: nat)
    requires 0 < m && t == Jam(4 * n, m) && 8 * P112 <= 2 * t < 8 * P113
    ensures Window(2 * t, n, m)
  {
    JamRound(4 * n, m, 1);
    RoundIntScale(n, m, 4);
    RoundIntScale(t, 4, 2);
    JamBounds(4 * n, m, 4 * P112, 4 * P113);
  }

  lemma JamBounds(n: nat, m: nat, lo: nat, hi: nat)
    requires 0 < m && lo % 2 == 0 && lo <= Jam(n, m) < hi
    ensures lo * m <= n < hi * m
  {
    DivMod(n, m);
    MulLe(lo, m, n / m, m);
    MulLe(n / m + 1, m, hi, m);
    assert (n / m + 1) * m == n / m * m + m;
  }

  // ---- truncation below the normal range ----

  /** `n / d`, below the smallest normal magnitude, rounded to 113 significant bits and then
      truncated to whole units. */
  function TruncatedSig(n: nat, d: nat): nat
    requires 0 < n && 0 < d
    decreases if n < P112 * d then P112 * d - n else 0
  {
    if P112 * d <= n then RoundInt(n, d) else TruncatedSig(2 * n, d) / 2
  }

  lemma {:induction false} TruncatedAt(n: nat, d: nat, k: nat)
    requires 0 < n && 0 < d && P112 * d <= n * Pow2(k) && (k > 0 ==> n * Pow2(k) < P113 * d)
    ensures TruncatedSig(n, d) == RoundInt(n * Pow2(k), d) / Pow2(k)
    decreases k
  {
    if k > 0 {
      var p := Pow2(k - 1);
      assert n * Pow2(k) == (2 * n) * p by { assert n * (2 * p) == (2 * n) * p; }
      assert n < P112 * d by { MulLe(2 * n, 1, 2 * n, p); assert P113 * d == 2 * (P112 * d); }
      TruncatedAt(2 * n, d, k - 1);
      DivDiv(RoundInt(n * Pow2(k), d), p, 2);
    }
  }

  /** How far `n / d` lies below the normal range, in binary places. */
  function UnderflowShift(n: nat, d: nat): nat
    requires 0 < n && 0 < d
    decreases if n < P112 * d then P112 * d - n else 0
  {
    if P112 * d <= n then 0 else 1 + UnderflowShift(2 * n, d)
  }

  lemma {:induction false} UnderflowShiftIs(n: nat, d: nat, k: nat)
    requires 0 < n && 0 < d && P112 * d <= n * Pow2(k) && (k > 0 ==> n * Pow2(k) < P113 * d)
    ensures UnderflowShift(n, d) == k
    decreases k
  {
    if k > 0 {
      UnderflowHalf(n, d, k);
      UnderflowShiftIs(2 * n, d, k - 1);
    }
  }

  lemma UnderflowHalf(n: nat, d: nat, k: nat)
    requires 0 < k && n * Pow2(k) < P113 * d
    ensures n * Pow2(k) == (2 * n) * Pow2(k - 1) && n < P112 * d
  {
    var p := Pow2(k - 1);
    assert n * (2 * p) == (2 * n) * p;
    MulLe(2 * n, 1, 2 * n, p);
    assert P113 * d == 2 * (P112 * d);
  }

  lemma {:induction false} UnderflowBinade(n: nat, d: nat)
    requires 0 < n < P112 * d
    ensures var k := UnderflowShift(n, d); k > 0 && P112 * d <= n * Pow2(k) < P113 * d
    decreases P112 * d - n
  {
    var k := UnderflowShift(2 * n, d);
    assert P113 * d == 2 * (P112 * d);
    if 2 * n < P112 * d {
      UnderflowBinade(2 * n, d);
    } else {
      assert Pow2(0) == 1;
    }
    assert n * Pow2(k + 1) == (2 * n) * Pow2(k) by { assert n * (2 * Pow2(k)) == (2 * n) * Pow2(k); }
  }

  /** Rounding `n / d` at `k` extra places and truncating them gives the nearest integer exactly
      when the nearest integer is below, or so close above that the extra places round up to it. */
  lemma TruncationExact(n: nat, d: nat, k: nat)
    requires 0 < d && 0 < k
    ensures RoundInt(n * Pow2(k), d) / Pow2(k) == RoundInt(n, d) <==>
            RoundInt(n, d) == n / d || (d - n % d) * Pow2(k + 1) <= d
  {
    hide Pow2, RoundInt;
    Pow2Halves(k);
    Pow2Halves(k + 1);
    var q, r, p := n / d, n % d, Pow2(k);
    DivMod(n, d);
    RoundIntIs(n, d);
    RoundFraction(q, r, d, Pow2(k - 1));
    FractionRange(r, d, p);
    MulTwice(d - r, p);
    if 2 * r <= d { MulBelowHalf(r, d, p); }
    TruncationCase(q, p, RoundInt(r * p, d), RoundInt(n, d), d, (d - r) * p);
  }

  lemma TruncationCase(q: nat, p: nat, z: nat, near: nat, d: nat, m: nat)
    requires 0 < p && z <= p && (z == p <==> 2 * m <= d) && (near == q || near == q + 1) && (near == q ==> 2 * m > d)
    ensures (q * p + z) / p == near <==> near == q || 2 * m <= d
  {
    TruncatedWhole(q, z, p);
  }

  lemma RoundIntIs(n: nat, d: nat)
    requires 0 < d
    ensures RoundInt(n, d) == n / d || RoundInt(n, d) == n / d + 1
    ensures RoundInt(n, d) == n / d ==> 2 * (n % d) <= d
  {
  }

  lemma TruncatedWhole(q: nat, z: nat, p: nat)
    requires 0 < p && z <= p
    ensures (q * p + z) / p == if z == p then q + 1 else q
  {
    if z == p {
      MulDist(q, 1, p);
      DivUnique(q * p + z, p, q + 1, 0);
    } else {
      DivUnique(q * p + z, p, q, z);
    }
  }

  lemma RoundShift(x: nat, u: nat, d: nat)
    requires 0 < d && u % 2 == 0
    ensures RoundInt(x + u * d, d) == u + RoundInt(x, d)
  {
    DivMod(x, d);
    MulDist(u, x / d, d);
    DivUnique(x + u * d, d, u + x / d, x % d);
  }

  /** The whole part of `n / d` passes through the rounding of its fraction. */
  lemma RoundFraction(q: nat, r: nat, d: nat, h: nat)
    requires 0 < d
    ensures RoundInt((r + q * d) * (2 * h), d) == q * (2 * h) + RoundInt(r * (2 * h), d)
  {
    var p := 2 * h;
    MulDist(r, q * d, p);
    MulAssoc(q, d, p);
    MulAssoc(q, p, d);
    MulTwice(q, h);
    RoundShift(r * p, q * p, d);
  }

  /** The scaled fraction rounds to `p` itself exactly when it is within half a step of it. */
  lemma FractionRange(r: nat, d: nat, p: nat)
    requires 0 < d && r < d && 0 < p && p % 2 == 0
    ensures RoundInt(r * p, d) <= p
    ensures RoundInt(r * p, d) == p <==> 2 * ((d - r) * p) <= d
  {
    var x := r * p;
    MulOrder(p, r, d);
    MulDist(d, r, p);
    DivMod(x, d);
    DivBelow(x, d, p);
    FractionCase(x, d, p, x / d, x % d, (d - r) * p);
  }

  /** `x` is `m` short of `p` whole steps. */
  lemma FractionCase(x: nat, d: nat, p: nat, z: nat, y: nat, m: nat)
    requires 0 < d && y < d && x == y + z * d && z < p && p % 2 == 0 && z == x / d && y == x % d && x + m == p * d
    ensures RoundInt(x, d) <= p
    ensures RoundInt(x, d) == p <==> 2 * m <= d
  {
    if z < p - 1 {
      MulLe(z + 2, d, p, d);
      MulDist(z, 2, d);
    } else {
      MulDist(z, 1, d);
    }
  }

  lemma MulBelowHalf(r: nat, d: nat, p: nat)
    requires 2 * r <= d && 2 <= p && 0 < d
    ensures 2 * ((d - r) * p) > d
  {
    MulLe(d - r, 2, d - r, p);
  }
}
