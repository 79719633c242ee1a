/** `__addtf3` and `__subtf3` of glue/compiler_rt.c. */
module QuadAdd {
  import opened Bits
  import opened Wide
  import opened Rounding
  import opened QuadFormat

  const P114: nat := 4 * P112
  const P117: nat := 16 * P113

  // ---- specification ----

  function Abs(x: int): nat { if x < 0 then -x else x }

  /** The correctly rounded sum of two finite numbers.  An exact zero sum of opposite signs is +0. */
  function RoundedSum(a: Quad, b: Quad): Quad
  {
    var s := Signed(a) + Signed(b);
    if Mag(a) == 0 && Mag(b) == 0 then Zero(if SignOf(a) == 1 && SignOf(b) == 1 then 1 else 0)
    else if s == 0 then Zero(0)
    else Nearest(if s < 0 then 1 else 0, Abs(s), 1)
  }

  /** Both operands are non-zero and their exact sum is a non-zero magnitude below 2^-16382. */
  predicate SubnormalSum(a: Quad, b: Quad) {
    Mag(a) != 0 && Mag(b) != 0 && 0 < Abs(Signed(a) + Signed(b)) < P112
  }

  // ---- shifting with a sticky bit ----

  lemma MaskVal(n: nat)
    requires n < 128
    ensures Val(Sub128(Shl128(From64(1), n), From64(1))) == Pow2(n) - 1
  {
    hide Pow2, Val, Shl128, Sub128, From64;
    WordPowers();
    Pow2Strict(n, 128);
    SmallMod(1 * Pow2(n), WW);
    SmallMod(Pow2(n) - 1, WW);
  }

  /** `mask = (1 << n) - 1; sticky = (x & mask) != 0` */
  lemma StickyTest(x: U128, n: nat)
    requires n < 128
    ensures IsZero(And128(x, Sub128(Shl128(From64(1), n), From64(1)))) <==> Val(x) % Pow2(n) == 0
  {
    hide Pow2, And, Val, Shl128, Sub128;
    MaskVal(n);
    AndMask(Val(x), n);
  }

  method ShiftRightJam(x: U128, n: nat) returns (r: U128)
    requires n < 128
    ensures Val(r) == Jam(Val(x), Pow2(n))
  {
    StickyTest(x, n);
    hide Pow2, Val, And128, Sub128, Shl128, Shr128, SetLast;
    var sticky := !IsZero(And128(x, Sub128(Shl128(From64(1), n), From64(1))));
    r := Shr128(x, n);
    if sticky { r := SetLast(r); }
  }

  /** Aligning the smaller operand: everything that falls off is kept in the last bit. */
  method Align(x: U128, diff: nat) returns (r: U128)
    requires 0 < Val(x) < P116
    ensures Val(r) == Jam(Val(x), Pow2(diff))
  {
    if diff < 128 {
      r := ShiftRightJam(x, diff);
    } else {
      r := From64(1);
      JamTiny(Val(x), diff);
    }
  }

  lemma JamTiny(x: nat, n: nat)
    requires 0 < x < P116 && n >= 128
    ensures Jam(x, Pow2(n)) == 1
  {
    hide Pow2;
    WordPowers();
    Pow2Monotone(128, n);
    DivUnique(x, Pow2(n), 0, x);
  }

  // ---- adding aligned significands ----

  /** Lines 428-448: add or subtract by sign; `Cancelled` is the exact zero. */
  datatype Combined = Cancelled | Combined(sign: nat, sig: U128)

  method Combine(signA: nat, sigA: U128, signB: nat, sigB: U128) returns (c: Combined)
    requires signA <= 1 && signB <= 1 && 0 < Val(sigA) <= P116 && 0 < Val(sigB) <= P116
    ensures signA == signB ==> c.Combined? && c.sign == signA && Val(c.sig) == Val(sigA) + Val(sigB)
    ensures signA != signB && Val(sigA) > Val(sigB) ==>
              c.Combined? && c.sign == signA && Val(c.sig) == Val(sigA) - Val(sigB)
    ensures signA != signB && Val(sigA) < Val(sigB) ==>
              c.Combined? && c.sign == signB && Val(c.sig) == Val(sigB) - Val(sigA)
    ensures signA != signB && Val(sigA) == Val(sigB) ==> c.Cancelled?
  {
    hide Val, Add128, Sub128, Gt;
    var sig: U128, sign;
    if signA == signB {
      sig, sign := Add128(sigA, sigB), signA;
    } else if Gt(sigA, sigB) {
      sig, sign := Sub128(sigA, sigB), signA;
    } else if Gt(sigB, sigA) {
      sig, sign := Sub128(sigB, sigA), signB;
    } else {
      return Cancelled;
    }
    if IsZero(sig) { return Cancelled; }
    c := Combined(sign, sig);
  }

  // ---- normalisation ----

  /** The leading-zero count is determined by the binade. */
  lemma ClzExact(x: nat, lz: nat, k: nat)
    requires Pow2(127) <= x * Pow2(lz) < Pow2(128) && Pow2(k) <= x < Pow2(k + 1) && k <= 127
    ensures lz == 127 - k
  {
    hide Pow2;
    if lz < 127 - k {
      Pow2Add(k + 1, lz);
      Pow2Monotone(k + 1 + lz, 127);
      MulBelow(x, Pow2(k + 1), Pow2(lz), Pow2(127));
    } else if lz > 127 - k {
      Pow2Add(k, lz);
      Pow2Monotone(128, k + lz);
      MulLe(Pow2(k), Pow2(lz), x, Pow2(lz));
    }
  }

  /** Position of the leading bit, against the target count 12. */
  lemma ClzBounds(x: nat, lz: nat)
    requires Pow2(127) <= x * Pow2(lz) < WW && x < P117
    ensures lz < 12 ==> lz == 11 && P116 <= x
    ensures lz == 12 ==> P115 <= x < P116
    ensures lz > 12 ==> x < P115 && P115 <= x * Pow2(lz - 12) < P116
    ensures lz > 12 && P114 <= x ==> lz == 13
  {
    hide Pow2;
    if lz < 12 {
      ClzFew(x, lz);
    } else {
      ClzMany(x, lz);
    }
  }

  lemma ClzFew(x: nat, lz: nat)
    requires Pow2(127) <= x * Pow2(lz) < WW && x < P117 && lz < 12
    ensures lz == 11 && P116 <= x
  {
    WordPowers();
    QuadPowers();
    assert Pow2(11) == 2048;
    hide Pow2;
    Pow2Add(116, 11);
    Pow2Add(116, 1);
    Pow2Monotone(lz, 11);
    MulLe(x, Pow2(lz), x, 2048);
    ClzExact(x, lz, 116);
  }

  lemma ClzMany(x: nat, lz: nat)
    requires Pow2(127) <= x * Pow2(lz) < WW && x < P117 && lz >= 12
    ensures P115 <= x * Pow2(lz - 12) < P116
    ensures lz == 12 ==> P115 <= x < P116
    ensures lz > 12 ==> x < P115 && (P114 <= x ==> lz == 13)
  {
    assert Pow2(12) == 4096 && Pow2(0) == 1;
    hide Pow2;
    ClzRange();
    Pow2Add(lz - 12, 12);
    MulAssoc(x, Pow2(lz - 12), 4096);
    if lz > 12 {
      Pow2Strict(12, lz);
      MulLe(x, 8192, x, Pow2(lz));
      if P114 <= x { ClzExact(x, lz, 114); }
    }
  }

  lemma ClzRange()
    ensures Pow2(127) == P115 * 4096 && WW == P116 * 4096 == P115 * 8192 && Pow2(128) == WW
    ensures Pow2(114) == P114 && Pow2(115) == P115
  {
    WordPowers();
    QuadPowers();
    assert Pow2(12) == 4096;
    hide Pow2;
    Pow2Add(115, 12);
    Pow2Add(113, 1);
    Pow2Add(114, 1);
  }

  lemma NormaliseRight(x: nat, v: nat, exp: nat)
    requires 1 <= exp && x == Jam(8 * v, Pow2(exp - 1)) && P116 <= x < P117
    ensures Window(Jam(x, Pow2(1)), v, Pow2(exp)) && P112 <= v && Jam(x, Pow2(1)) < P116
  {
    var m := Pow2(exp - 1);
    assert Pow2(1) == 2 && Pow2(exp) == 2 * m;
    hide Pow2;
    JamJam(8 * v, m, 1);
    WindowJam(Jam(x, 2), v, 2 * m);
    MulLe(P112, 1, P112, 2 * m);
  }

  lemma NormaliseNone(x: nat, v: nat, m: nat)
    requires 0 < m && x == Jam(8 * v, m) && P115 <= x < P116
    ensures Window(x, v, m) && P112 <= v
  {
    WindowJam(x, v, m);
    MulLe(P112, 1, P112, m);
  }

  lemma NormaliseExact(x: nat, v: nat, m: nat, p: nat, m': nat)
    requires 0 < p && 0 < m' && x * m == 8 * v && m == p * m' && x * p < P116
    ensures P115 <= x * p ==> Window(x * p, v, m') && P112 <= v
    ensures x * p < P115 && m' == 1 ==> v < P112 && x * p == 8 * v
  {
    MulAssoc(x, p, m');
    DivUnique(8 * v, m', x * p, 0);
    if P115 <= x * p {
      WindowJam(x * p, v, m');
      MulLe(P112, 1, P112, m');
    }
  }

  lemma NormaliseOnce(x: nat, v: nat, m: nat, m': nat)
    requires 0 < m' && m == 2 * m' && x == Jam(8 * v, m) && P114 <= x < P115
    ensures Window(2 * x, v, m') && P112 <= v
  {
    JamScale(4 * v, m', 2);
    WindowShifted(x, v, m');
    MulLe(P112, 1, P112, m');
  }

  /** `sig`, with three guard bits at biased exponent `exp`, stands for the magnitude `v`:
      exactly, or jammed with so many bits that one left shift normalises it. */
  ghost predicate StandsFor(sig: nat, v: nat, exp: nat) {
    1 <= exp && 0 < sig < P117 && sig == Jam(8 * v, Pow2(exp - 1)) &&
    (sig * Pow2(exp - 1) == 8 * v || (exp >= 2 && P114 <= sig))
  }

  /** Lines 450-472: bring the leading bit to position 115, but not below exponent 1.
      `v` is the exact magnitude that `sig0` and `exp0` stand for. */
  method Normalise(sig0: U128, exp0: nat, ghost v: nat) returns (sig: U128, exp: nat)
    requires StandsFor(Val(sig0), v, exp0)
    ensures 1 <= exp && Val(sig) < P116
    ensures P112 <= v ==> Window(Val(sig), v, Pow2(exp - 1))
    ensures v < P112 ==> exp == 1 && Val(sig) == 8 * v
  {
    hide Val, Jam, Window, Pow2, Shl128;
    sig, exp := sig0, exp0;
    var lz := Clz128(sig);
    ghost var x := Val(sig0);
    ClzBounds(x, lz);
    if lz < 12 {
      var shift := 12 - lz;
      sig := ShiftRightJam(sig, shift);
      exp := exp + shift;
      NormaliseRight(x, v, exp0);
    } else if lz > 12 {
      var shift := lz - 12;
      if shift > exp - 1 { shift := exp - 1; }
      NormaliseLeft(x, v, exp0, lz - 12, shift);
      if shift > 0 {
        sig := Shl128(sig, shift);
        exp := exp - shift;
      }
    } else {
      NormaliseNone(x, v, Pow2(exp0 - 1));
    }
  }

  lemma ShiftFits(x: nat, shift: nat, full: nat)
    requires shift <= full && x * Pow2(full) < P116
    ensures (x * Pow2(shift)) % WW == x * Pow2(shift) < P116
  {
    hide Pow2;
    Pow2Monotone(shift, full);
    MulLe(x, Pow2(shift), x, Pow2(full));
    SmallMod(x * Pow2(shift), WW);
  }

  lemma NormaliseLeft(x: nat, v: nat, exp: nat, full: nat, shift: nat)
    requires StandsFor(x, v, exp) && 0 < full && shift == if full > exp - 1 then exp - 1 else full
    requires x < P115 && P115 <= x * Pow2(full) < P116 && (P114 <= x ==> full == 1)
    ensures (x * Pow2(shift)) % WW == x * Pow2(shift) < P116
    ensures P112 <= v ==> Window(x * Pow2(shift), v, Pow2(exp - shift - 1))
    ensures v < P112 ==> exp - shift == 1 && x * Pow2(shift) == 8 * v
    ensures shift == 0 ==> x * Pow2(shift) == x
  {
    assert Pow2(0) == 1;
    ShiftFits(x, shift, full);
    if x * Pow2(exp - 1) == 8 * v {
      hide Pow2, Window, Jam;
      Pow2Add(shift, exp - 1 - shift);
      NormaliseExact(x, v, Pow2(exp - 1), Pow2(shift), Pow2(exp - 1 - shift));
    } else {
      NormaliseInexact(x, v, exp);
    }
  }

  lemma NormaliseInexact(x: nat, v: nat, exp: nat)
    requires exp >= 2 && x == Jam(8 * v, Pow2(exp - 1)) && P114 <= x < P115
    ensures Window(x * Pow2(1), v, Pow2(exp - 2)) && P112 <= v
  {
    assert Pow2(1) == 2 && Pow2(exp - 1) == 2 * Pow2(exp - 2);
    hide Pow2;
    NormaliseOnce(x, v, Pow2(exp - 1), Pow2(exp - 2));
  }

  // ---- alignment ----

  /** An inexact alignment shifts by at least four places. */
  lemma FarApart(diff: nat, sB: nat)
    requires (8 * sB) % Pow2(diff) != 0
    ensures diff >= 4 && 16 <= Pow2(diff)
  {
    if diff <= 3 {
      Pow2Add(diff, 3 - diff);
      assert Pow2(3) == 8;
      var c := Pow2(3 - diff) * sB;
      assert 8 * sB == c * Pow2(diff) by { MulAssoc(Pow2(diff), Pow2(3 - diff), sB); }
      DivUnique(8 * sB, Pow2(diff), c, 0);
    } else {
      Pow2Monotone(4, diff);
      assert Pow2(4) == 16;
    }
  }

  /** The same at the scale of the smaller operand, for the ratio `n / p`. */
  ghost predicate StandsForRatio(sig: nat, n: nat, p: nat, far: bool) {
    0 < p && 0 < sig < P117 && sig == Jam(8 * n, p) && (sig * p == 8 * n || (far && P114 <= sig))
  }

  lemma JamSmall(b: nat, p: nat)
    requires 0 < p && 0 < b < P116
    ensures 0 < Jam(b, p) <= P116
    ensures 16 <= p ==> Jam(b, p) <= P112
  {
    DivMod(b, p);
    DivAtMost(b, p);
    if 16 <= p { DivBelow(b, p, P112) by { MulLe(P112, 16, P112, p); } }
  }

  lemma AlignFacts(sA: nat, sB: nat, p: nat, far: bool)
    requires 0 < p && 0 < sA < P113 && 0 < sB < P113
    requires (8 * sB) % p != 0 ==> far && 16 <= p && P112 <= sA
    ensures 0 < Jam(8 * sB, p) <= P116
    ensures Jam(8 * sB, p) * p == 8 * sB || (far && Jam(8 * sB, p) <= P112 <= sA && sB < sA * p)
  {
    JamSmall(8 * sB, p);
    if (8 * sB) % p == 0 {
      JamExact(8 * sB, p);
    } else {
      MulLe(P112, 16, sA, p);
    }
  }

  lemma AlignedPlus(sA: nat, sB: nat, p: nat, far: bool, j: nat, x: nat)
    requires 0 < p && 0 < sA < P113 && 0 < j <= P116 && j == Jam(8 * sB, p) && x == sA * p
    requires j * p == 8 * sB || (far && j <= P112 <= sA)
    ensures StandsForRatio(8 * sA + j, x + sB, p, far)
  {
    MulAssoc(8, sA, p);
    JamCombine(8 * sA, 8 * sB, p, 8 * x);
    MulDist(8 * sA, j, p);
    hide Jam;
  }

  lemma AlignedMinus(sA: nat, sB: nat, p: nat, far: bool, j: nat, x: nat)
    requires 0 < p && 0 < sA < P113 && 0 < j <= P116 && j == Jam(8 * sB, p) && x == sA * p && x > sB
    requires j * p == 8 * sB || (far && j <= P112 <= sA)
    ensures 8 * sA > j && StandsForRatio(8 * sA - j, x - sB, p, far)
  {
    MulAssoc(8, sA, p);
    JamCombine(8 * sA, 8 * sB, p, 8 * x);
    MulDist(8 * sA, j, p);
    hide Jam;
  }

  lemma AlignedRest(sA: nat, sB: nat, p: nat, far: bool, j: nat, x: nat)
    requires 0 < p && 0 < sA < P113 && 0 < j <= P116 && j == Jam(8 * sB, p) && x == sA * p && x <= sB
    requires j * p == 8 * sB
    ensures x == sB ==> 8 * sA == j
    ensures x < sB ==> 8 * sA < j && StandsForRatio(j - 8 * sA, sB - x, p, far)
  {
    MulAssoc(8, sA, p);
    JamCombine(8 * sA, 8 * sB, p, 8 * x);
    MulDist(j, 8 * sA, p);
    hide Jam;
  }

  lemma Rescale(sig: nat, n: nat, v: nat, eA: nat, p: nat, k: nat)
    requires 1 <= eA && 0 < k && Pow2(eA - 1) == p * k && v == n * k && StandsForRatio(sig, n, p, eA >= 2)
    ensures StandsFor(sig, v, eA)
  {
    JamScale(8 * n, p, k);
    hide Jam, Pow2;
    MulSwap(k, 8, n);
    MulAssoc(sig, p, k);
    assert 8 * n * k == 8 * v;
  }

  /** Alignment loses nothing that matters: the aligned sum and difference stand for the exact ones. */
  lemma AlignedCombine(sA: nat, sB: nat, eA: nat, eB: nat, j: nat, va: nat, vb: nat)
    requires 1 <= eB <= eA && 0 < sA < P113 && 0 < sB < P113 && (eA >= 2 ==> P112 <= sA)
    requires j == Jam(8 * sB, Pow2(eA - eB)) && va == sA * Pow2(eA - 1) && vb == sB * Pow2(eB - 1)
    ensures 0 < j <= P116
    ensures StandsFor(8 * sA + j, va + vb, eA)
    ensures va > vb ==> 8 * sA > j && StandsFor(8 * sA - j, va - vb, eA)
    ensures va < vb ==> 8 * sA < j && StandsFor(j - 8 * sA, vb - va, eA)
    ensures va == vb ==> 8 * sA == j
  {
    hide Pow2, Jam, StandsFor, StandsForRatio;
    var p, k := Pow2(eA - eB), Pow2(eB - 1);
    var far := eA >= 2;
    Pow2Add(eA - eB, eB - 1);
    if (8 * sB) % p != 0 { FarApart(eA - eB, sB); }
    AlignFacts(sA, sB, p, far);
    var x := sA * p;
    MulAssoc(sA, p, k);
    AlignedPlus(sA, sB, p, far, j, x);
    AlignedScaled(x, sB, k, va, vb);
    Rescale(8 * sA + j, x + sB, va + vb, eA, p, k);
    if x > sB {
      AlignedMinus(sA, sB, p, far, j, x);
      Rescale(8 * sA - j, x - sB, va - vb, eA, p, k);
    } else {
      AlignedRest(sA, sB, p, far, j, x);
      if x < sB {
        Rescale(j - 8 * sA, sB - x, vb - va, eA, p, k);
      }
    }
  }

  lemma AlignedScaled(x: nat, y: nat, k: nat, va: nat, vb: nat)
    requires 0 < k && va == x * k && vb == y * k
    ensures va < vb <==> x < y
    ensures va > vb <==> x > y
    ensures va + vb == (x + y) * k
    ensures x >= y ==> va - vb == (x - y) * k
    ensures y >= x ==> vb - va == (y - x) * k
  {
    MulOrder(k, x, y);
    MulOrder(k, y, x);
    MulDist(x, y, k);
    MulDist(y, x, k);
  }

  // ---- the operation ----

  /** Lines 394-397. */
  method GuardBits(sig: U128) returns (r: U128)
    requires Val(sig) < P113
    ensures Val(r) == 8 * Val(sig)
  {
    hide Val, Shl128;
    SmallPowers();
    r := Shl128(sig, 3);
  }

  /** Lines 394-426: guard bits, then the operand with the smaller exponent is shifted right. */
  method AlignBoth(sigA0: U128, expA: nat, sigB0: U128, expB: nat) returns (sigA: U128, sigB: U128, exp: nat)
    requires 0 < Val(sigA0) < P113 && 0 < Val(sigB0) < P113 && 1 <= expA && 1 <= expB
    ensures exp == if expA < expB then expB else expA
    ensures expA >= expB ==> Val(sigA) == 8 * Val(sigA0) && Val(sigB) == Jam(8 * Val(sigB0), Pow2(expA - expB))
    ensures expA < expB ==> Val(sigB) == 8 * Val(sigB0) && Val(sigA) == Jam(8 * Val(sigA0), Pow2(expB - expA))
  {
    hide Val, Pow2;
    sigA := GuardBits(sigA0);
    sigB := GuardBits(sigB0);
    if expA > expB {
      exp := expA;
      sigB := Align(sigB, expA - expB);
    } else if expA < expB {
      exp := expB;
      sigA := Align(sigA, expB - expA);
    } else {
      exp := expA;
      JamOne(Val(sigB));
    }
  }

  lemma JamOne(x: nat)
    ensures Jam(x, Pow2(0)) == x
  {
    DivUnique(x, 1, x, 0);
  }

  /** The exact signed sum, and what the combined significand stands for. */
  ghost predicate SumOf(c: Combined, sum: int, exp: nat) {
    match c
    case Cancelled => sum == 0
    case Combined(sign, sig) =>
      sum != 0 && sign == (if sum < 0 then 1 else 0) && StandsFor(Val(sig), Abs(sum), exp)
  }

  method AddSignificands(signA: nat, sigA0: U128, expA: nat, signB: nat, sigB0: U128, expB: nat,
                         ghost va: nat, ghost vb: nat)
    returns (c: Combined, exp: nat)
    requires signA <= 1 && signB <= 1 && 0 < Val(sigA0) < P113 && 0 < Val(sigB0) < P113
    requires 1 <= expA && 1 <= expB && (expA >= 2 ==> P112 <= Val(sigA0)) && (expB >= 2 ==> P112 <= Val(sigB0))
    requires va == Val(sigA0) * Pow2(expA - 1) && vb == Val(sigB0) * Pow2(expB - 1)
    ensures SumOf(c, WithSign(signA, va) + WithSign(signB, vb), exp)
    ensures c.Combined? ==> c.sign <= 1
  {
    hide Val, Pow2, Jam, StandsFor;
    var sigA, sigB;
    sigA, sigB, exp := AlignBoth(sigA0, expA, sigB0, expB);
    if expA >= expB {
      AlignedCombine(Val(sigA0), Val(sigB0), expA, expB, Val(sigB), va, vb);
    } else {
      AlignedCombine(Val(sigB0), Val(sigA0), expB, expA, Val(sigA), vb, va);
    }
    c := Combine(signA, sigA, signB, sigB);
  }

  method FinishSum(sign: nat, sig0: U128, exp0: nat, ghost v: nat) returns (r: Quad)
    requires sign <= 1 && StandsFor(Val(sig0), v, exp0)
    ensures P112 <= v ==> r == Nearest(sign, v, 1)
    ensures v < P112 ==> r == Make(sign, 1, v)
  {
    hide Val, Pow2, Jam, StandsFor;
    var sig, exp := Normalise(sig0, exp0, v);
    r := RoundPack(sign, exp, sig);
    if P112 <= v {
      WindowNearest(sign, exp, Val(sig), v, 1);
    } else {
      RoundIntExact(v, 8);
    }
  }

  /** `__addtf3`.  For finite operands the result is the correctly rounded sum exactly when the sum
      is not in the subnormal range; there, the exponent field is 1 instead of 0. */
  method AddTf3(a: Quad, b: Quad) returns (r: Quad)
    ensures Finite(a) && Finite(b) ==> (r == RoundedSum(a, b) <==> !SubnormalSum(a, b))
    ensures Finite(a) && Finite(b) && SubnormalSum(a, b) ==>
              r == Make(if Signed(a) + Signed(b) < 0 then 1 else 0, 1, Abs(Signed(a) + Signed(b)))
    ensures IsNaN(a) || IsNaN(b) || (IsInf(a) && IsInf(b) && SignOf(a) != SignOf(b)) ==> IsNaN(r)
    ensures IsInf(a) && (Finite(b) || a == b) ==> r == a
    ensures IsInf(b) && Finite(a) ==> r == b
  {
    var signA, expA, fracA := Fields(a);
    var signB, expB, fracB := Fields(b);
    if expA == EXP_INF {
      if !IsZero(fracA) { return a; }
      if expB == EXP_INF && !IsZero(fracB) { return b; }
      if expB == EXP_INF && signA != signB {
        r := Pack(0, EXP_INF, From64(1));
        MakeFields(0, EXP_INF, 1);
        return;
      }
      return a;
    }
    if expB == EXP_INF { return b; }
    r := AddFinite(a, b, signA, expA, fracA, signB, expB, fracB);
  }

  method AddFinite(a: Quad, b: Quad, signA: nat, expFieldA: nat, fracA: U128, signB: nat, expFieldB: nat, fracB: U128)
    returns (r: Quad)
    requires Finite(a) && Finite(b)
    requires signA == SignOf(a) && expFieldA == ExpOf(a) && Val(fracA) == Frac(a)
    requires signB == SignOf(b) && expFieldB == ExpOf(b) && Val(fracB) == Frac(b)
    ensures r == RoundedSum(a, b) <==> !SubnormalSum(a, b)
    ensures SubnormalSum(a, b) ==>
              r == Make(if Signed(a) + Signed(b) < 0 then 1 else 0, 1, Abs(Signed(a) + Signed(b)))
  {
    hide SignOf, ExpOf, Frac, Val, Pow2, Make, Nearest;
    FieldRange(a);
    FieldRange(b);
    var sigA, expA := Unpack(a, expFieldA, fracA);
    var sigB, expB := Unpack(b, expFieldB, fracB);
    MagZero(a);
    MagZero(b);
    if IsZero(sigA) && IsZero(sigB) {
      return Pack(if signA == 1 && signB == 1 then 1 else 0, 0, From64(0));
    }
    if IsZero(sigA) {
      NearestExact(b);
      return b;
    }
    if IsZero(sigB) {
      NearestExact(a);
      return a;
    }
    var c, exp := AddSignificands(signA, sigA, expA, signB, sigB, expB, Mag(a), Mag(b));
    match c
    case Cancelled =>
      r := Pack(0, 0, From64(0));
    case Combined(sign, sig) =>
      r := FinishSum(sign, sig, exp, Abs(Signed(a) + Signed(b)));
      if SubnormalSum(a, b) { SubnormalDiffers(sign, Abs(Signed(a) + Signed(b))); }
  }

  lemma SubnormalDiffers(sign: nat, v: nat)
    requires sign <= 1 && 0 < v < P112
    ensures Make(sign, 1, v) != Nearest(sign, v, 1)
  {
    RoundIntExact(v, 1);
    assert RoundQ(v, 1) == Rounded(v, 0);
    MakeFields(sign, 1, v);
    MakeFields(sign, 0, v);
  }

  // ---- subtraction ----

  /** `ub.u[1] ^= 1ULL << 63` */
  function Negate(q: Quad): (r: Quad)
    ensures ExpOf(r) == ExpOf(q) && Frac(r) == Frac(q) && SignOf(r) == 1 - SignOf(q)
  {
    NegateWord(q.hi);
    var hi: Word := Xor(q.hi, 0x8000_0000_0000_0000);
    FlippedFields(q.hi, hi);
    Quad(q.lo, hi)
  }

  lemma FlippedFields(x: Word, y: Word)
    requires var s := 0x8000_0000_0000_0000; y == if x < s then x + s else x - s
    ensures y / 0x8000_0000_0000_0000 == 1 - x / 0x8000_0000_0000_0000
    ensures y / P48 % 0x8000 == x / P48 % 0x8000 && y % P48 == x % P48
  {
    var c := if x < 0x8000_0000_0000_0000 then 0x8000 else -0x8000;
    DivMod(x, P48);
    assert y == x % P48 + (x / P48 + c) * P48;
    DivUnique(y, P48, x / P48 + c, x % P48);
  }

  lemma NegateWord(hi: Word)
    ensures var s := 0x8000_0000_0000_0000; Xor(hi, s) == if hi < s then hi + s else hi - s
  {
    hide Pow2;
    SmallPowers();
    var s := 0x8000_0000_0000_0000;
    XorSplit(hi % s, hi / s, 0, 1, 63);
    XorZero(hi % s);
    assert Xor(0, 1) == 1 && Xor(1, 1) == 0;
  }

  lemma NegateSigned(q: Quad)
    ensures Signed(Negate(q)) == -Signed(q) && Mag(Negate(q)) == Mag(q)
  {
    hide Negate, SignOf, ExpOf, Frac, Pow2;
    FieldRange(q);
  }

  lemma InfinityIs(q: Quad)
    ensures SignOf(q) <= 1 && (IsInf(q) ==> q == Inf(SignOf(q)))
  {
    QuadIsMake(q);
  }

  /** `__subtf3`: the correctly rounded difference, exactly when it is not in the subnormal range
      (or one operand is zero); an exact zero difference of non-zero operands is +0. */
  method SubTf3(a: Quad, b: Quad) returns (r: Quad)
    ensures Finite(a) && Finite(b) && Signed(a) != Signed(b) ==>
              var s := Signed(a) - Signed(b);
              (r == Nearest(if s < 0 then 1 else 0, Abs(s), 1) <==> Mag(a) == 0 || Mag(b) == 0 || P112 <= Abs(s))
    ensures Finite(a) && Finite(b) && Signed(a) == Signed(b) && Mag(a) != 0 ==> r == Zero(0)
    ensures Finite(a) && Finite(b) && Mag(a) == 0 && Mag(b) == 0 ==>
              r == Zero(if SignOf(a) == 1 && SignOf(b) == 0 then 1 else 0)
    ensures Finite(a) && Finite(b) && Mag(a) != 0 && Mag(b) != 0 && 0 < Abs(Signed(a) - Signed(b)) < P112 ==>
              r == Make(if Signed(a) < Signed(b) then 1 else 0, 1, Abs(Signed(a) - Signed(b)))
    ensures IsNaN(a) || IsNaN(b) || (IsInf(a) && a == b) ==> IsNaN(r)
    ensures IsInf(a) && (Finite(b) || (IsInf(b) && SignOf(a) != SignOf(b))) ==> r == a
    ensures Finite(a) && IsInf(b) ==> r == Inf(1 - SignOf(b))
  {
    NegateSigned(b);
    InfinityIs(a);
    InfinityIs(Negate(b));
    hide SignOf, ExpOf, Frac, Make, Negate, Nearest, Mag;
    FieldRange(a);
    FieldRange(b);
    r := AddTf3(a, Negate(b));
  }
}
