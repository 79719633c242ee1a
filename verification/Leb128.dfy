/** The LEB128 readers of host/src/constants.ts and host/src/dylink.ts. */
module Leb128 {
  import opened Bits
  import opened Int32

  const TWO64 := 0x1_0000_0000_0000_0000

  // ---- reading from a byte array as JavaScript does ----

  /** An element, or -1 for the `undefined` outside the array. */
  function Get(src: seq<Byte>, pos: int): int { if 0 <= pos < |src| then src[pos] else -1 }

  /** `byte & 0x7f`, which is 0 for `undefined`. */
  function Low7(b: int): nat { if b < 0 then 0 else b % 128 }

  /** `byte & 0x80`. */
  predicate More(b: int) { b >= 128 }

  /** `byte & 0x40`. */
  predicate SignBit(b: int) { b >= 0 && (b / 64) % 2 == 1 }

  /** `result | (byte & 0x7f) << shift` on 32-bit words: the shift count is taken modulo 32. */
  function Gather32(result: nat, b: int, shift: nat): nat {
    Or(result, (Low7(b) * Pow2(shift % 32)) % TWO32)
  }

  /** The word gathered from `pos` on, and the position after the last byte. */
  function Fold32(src: seq<Byte>, pos: int, shift: nat, result: nat): (nat, int)
    decreases |src| - pos
  {
    var b := Get(src, pos);
    var r := Gather32(result, b, shift);
    if More(b) then Fold32(src, pos + 1, shift + 7, r) else (r, pos + 1)
  }

  /** The same on BigInts, which do not wrap. */
  function Fold(src: seq<Byte>, pos: int, shift: nat, result: nat): (nat, int)
    decreases |src| - pos
  {
    var b := Get(src, pos);
    var r := Or(result, Low7(b) * Pow2(shift));
    if More(b) then Fold(src, pos + 1, shift + 7, r) else (r, pos + 1)
  }

  /** `subarray`: a negative bound counts from the end, and both are clamped to the array. */
  function Slice(src: seq<Byte>, from: int, to: int): seq<Byte> {
    var a := Clamp(from, |src|);
    var b := Clamp(to, |src|);
    if a <= b then src[a..b] else []
  }

  function Clamp(i: int, n: nat): (r: nat)
    ensures r <= n
  {
    if i >= n then n else if i >= 0 then i else if i + n >= 0 then i + n else 0
  }

  // ---- the readers ----

  function ReadU(src: seq<Byte>, off: int): (int, int) {
    var (r, end) := Fold32(src, off, 0, 0);
    (ToI32(r), end - off)
  }

  method ReadULEB128(src: seq<Byte>, off: int) returns (value: int, consumed: int)
    ensures (value, consumed) == ReadU(src, off)
  {
    hide Pow2, Gather32, ToI32;
    var result, shift, pos := 0, 0, off;
    while true
      invariant Fold32(src, pos, shift, result) == Fold32(src, off, 0, 0)
      decreases |src| - pos
    {
      var byte := Get(src, pos);
      pos := pos + 1;
      result := Gather32(result, byte, shift);
      if !More(byte) { break; }
      shift := shift + 7;
    }
    return ToI32(result), pos - off;
  }

  function ReadVar(src: seq<Byte>, off: int): (nat, int) {
    var (r, end) := Fold32(src, off, 0, 0);
    (r % TWO32, end)
  }

  /** The reader of host/src/dylink.ts, which advances the offset and makes the result unsigned. */
  method ReadVarUint(src: seq<Byte>, off: int) returns (value: nat, next: int)
    ensures (value, next) == ReadVar(src, off)
  {
    hide Pow2, Gather32;
    var result: nat := 0;
    var shift := 0;
    next := off;
    while true
      invariant Fold32(src, next, shift, result) == Fold32(src, off, 0, 0)
      decreases |src| - next
    {
      var byte := Get(src, next);
      next := next + 1;
      result := Gather32(result, byte, shift);
      shift := shift + 7;
      if !More(byte) { break; }
    }
    value := result % TWO32;
  }

  /** `result | ~0 << shift` on 32-bit words. */
  function Extend32(result: nat, shift: nat): nat
    requires shift < 32
  {
    Pow2Monotone(shift, 32);
    TwoToThe32();
    Or(result, TWO32 - Pow2(shift))
  }

  function ReadS32(src: seq<Byte>, off: int): (int, int) {
    var (r, end) := Fold32(src, off, 0, 0);
    FoldAdvances(src, off, 0, 0);
    var shift := 7 * (end - off);
    if shift < 32 && SignBit(Get(src, end - 1)) then (ToI32(Extend32(r, shift)), end - off) else (ToI32(r), end - off)
  }

  method ReadSLEB128I32(src: seq<Byte>, off: int) returns (value: int, consumed: int)
    ensures (value, consumed) == ReadS32(src, off)
  {
    hide Pow2, Gather32, ToI32, Extend32;
    var result, shift, pos, byte := 0, 0, off, 0;
    while true
      invariant Fold32(src, pos, shift, result) == Fold32(src, off, 0, 0)
      invariant shift == 7 * (pos - off)
      decreases |src| - pos
    {
      byte := Get(src, pos);
      pos := pos + 1;
      result := Gather32(result, byte, shift);
      shift := shift + 7;
      if !More(byte) { break; }
    }
    if shift < 32 && SignBit(byte) {
      result := Extend32(result, shift);
    }
    return ToI32(result), pos - off;
  }

  function ReadS64(src: seq<Byte>, off: int): (int, int) {
    var (r, end) := Fold(src, off, 0, 0);
    FoldAdvances(src, off, 0, 0);
    var shift := 7 * (end - off);
    if shift < 64 && SignBit(Get(src, end - 1)) then (r - Pow2(shift), end - off) else (r, end - off)
  }

  /** On BigInts `result | ~0n << shift` clears nothing: `result` has no bit at `shift` or above. */
  method ReadSLEB128I64(src: seq<Byte>, off: int) returns (value: int, consumed: int)
    ensures (value, consumed) == ReadS64(src, off)
  {
    hide Pow2, Or;
    var shift, pos, byte := 0, off, 0;
    var result: nat := 0;
    while true
      invariant Fold(src, pos, shift, result) == Fold(src, off, 0, 0)
      invariant shift == 7 * (pos - off)
      decreases |src| - pos
    {
      byte := Get(src, pos);
      pos := pos + 1;
      result := Or(result, Low7(byte) * Pow2(shift));
      shift := shift + 7;
      if !More(byte) { break; }
    }
    if shift < 64 && SignBit(byte) {
      return result - Pow2(shift), pos - off;
    }
    return result, pos - off;
  }

  lemma {:induction false} FoldAdvances(src: seq<Byte>, pos: int, shift: nat, result: nat)
    ensures Fold32(src, pos, shift, result).1 > pos
    ensures Fold(src, pos, shift, result).1 > pos
    decreases |src| - pos
  {
    hide Pow2, Or;
    var b := Get(src, pos);
    if More(b) {
      FoldAdvances(src, pos + 1, shift + 7, Gather32(result, b, shift));
      FoldAdvances(src, pos + 1, shift + 7, Or(result, Low7(b) * Pow2(shift)));
    }
  }

  lemma TwoToThe32()
    ensures Pow2(32) == TWO32 && Pow2(28) == 0x1000_0000 && Pow2(7) == 128 && Pow2(35) == 128 * 0x1000_0000
  {
    assert Pow2(4) == 16 && Pow2(3) == 8;
    Pow2Add(4, 3);
    Pow2Add(7, 7);
    Pow2Add(14, 14);
    Pow2Add(28, 4);
    Pow2Add(28, 7);
  }

  // ---- encodings, in any number of bytes that has room ----

  function ULeb(v: nat, k: nat): (r: seq<Byte>)
    requires 0 < k && v < Pow2(7 * k)
    ensures |r| == k
    decreases k
  {
    TwoToThe32();
    if k == 1 then [v]
    else
      Pow2Add(7 * (k - 1), 7);
      DivBelow(v, 128, Pow2(7 * (k - 1)));
      [128 + v % 128] + ULeb(v / 128, k - 1)
  }

  /** A signed number that `k` groups of seven bits can hold. */
  predicate Fits(v: int, k: nat) { 0 < k && 0 <= v + Pow2(7 * k - 1) < 2 * Pow2(7 * k - 1) }

  /** Two's complement: the rest of the number is shifted down arithmetically. */
  function SLeb(v: int, k: nat): (r: seq<Byte>)
    requires Fits(v, k)
    ensures |r| == k
    decreases k
  {
    if k == 1 then [v % 128]
    else
      SignedRest(v, k);
      [128 + v % 128] + SLeb(v / 128, k - 1)
  }

  lemma SignedRest(v: int, k: nat)
    requires 1 < k && Fits(v, k)
    ensures Fits(v / 128, k - 1)
  {
    TwoToThe32();
    Pow2Add(7 * (k - 1) - 1, 7);
  }

  // ---- the readers undo the encodings ----

  predicate At(src: seq<Byte>, pos: int, bytes: seq<Byte>) {
    0 <= pos && pos + |bytes| <= |src| && src[pos..pos + |bytes|] == bytes
  }

  lemma AtFirst(src: seq<Byte>, pos: int, b: Byte, rest: seq<Byte>)
    requires At(src, pos, [b] + rest)
    ensures Get(src, pos) == b && At(src, pos + 1, rest)
  {
    assert src[pos..pos + 1 + |rest|][0] == b;
    assert src[pos + 1..pos + 1 + |rest|] == src[pos..pos + 1 + |rest|][1..];
  }

  lemma AtSplit(src: seq<Byte>, pos: int, a: seq<Byte>, b: seq<Byte>)
    requires At(src, pos, a + b)
    ensures At(src, pos, a) && At(src, pos + |a|, b)
  {
    var whole := src[pos..pos + |a| + |b|];
    assert whole[..|a|] == a && whole[|a|..] == b;
    assert src[pos..pos + |a|] == whole[..|a|] && src[pos + |a|..pos + |a| + |b|] == whole[|a|..];
  }

  lemma SliceAt(src: seq<Byte>, pos: int, bytes: seq<Byte>)
    requires At(src, pos, bytes)
    ensures Slice(src, pos, pos + |bytes|) == bytes
  {
  }

  lemma ULebFirst(src: seq<Byte>, pos: int, v: nat, k: nat)
    requires 0 < k && v < Pow2(7 * k) && At(src, pos, ULeb(v, k))
    ensures var b := Get(src, pos);
            && Low7(b) == v % 128 && (More(b) <==> k > 1)
            && (k > 1 ==> v / 128 < Pow2(7 * (k - 1)) && At(src, pos + 1, ULeb(v / 128, k - 1)))
            && (k == 1 ==> v < 128)
  {
    TwoToThe32();
    if k > 1 {
      Pow2Add(7 * (k - 1), 7);
      DivBelow(v, 128, Pow2(7 * (k - 1)));
      AtFirst(src, pos, 128 + v % 128, ULeb(v / 128, k - 1));
    } else {
      assert [v] == [v] + [];
      AtFirst(src, pos, v, []);
    }
  }

  lemma GatherLast(result: nat, b: int, shift: nat)
    requires shift <= 28 && result < Pow2(shift)
    ensures Gather32(result, b, shift) == (result + Low7(b) * Pow2(shift)) % TWO32
  {
    hide Pow2, Or, Low7;
    TwoToThe32();
    Pow2Add(32 - shift, shift);
    GatherWrapped(result, Low7(b), Pow2(shift), Pow2(32 - shift), shift);
  }

  lemma GatherWrapped(result: nat, x: nat, p: nat, q: nat, shift: nat)
    requires p == Pow2(shift) && 0 < q && q * p == TWO32 && result < p
    ensures Or(result, (x * p) % TWO32) == (result + x * p) % TWO32
  {
    hide Pow2, Or;
    WrappedParts(result, x, p, q, TWO32);
    OrDisjoint(result, x % q, shift);
  }

  lemma WrappedParts(result: nat, x: nat, p: nat, q: nat, w: nat)
    requires 0 < q && q * p == w && result < p
    ensures w > 0 && (x * p) % w == x % q * p && (result + x * p) % w == result + x % q * p
  {
    DivMod(x, q);
    WrapAt(result, x, x / q, x % q, p, q, w);
  }

  lemma WrapAt(result: nat, x: nat, d: nat, r: nat, p: nat, q: nat, w: nat)
    requires x == r + d * q && r < q && q * p == w && result < p
    ensures w > 0 && (x * p) % w == r * p && (result + x * p) % w == result + r * p
  {
    ScaledParts(x, d, r, p, q, w);
    DivUnique(x * p, w, d, r * p);
    DivUnique(result + x * p, w, d, result + r * p);
  }

  lemma ScaledParts(x: nat, d: nat, r: nat, p: nat, q: nat, w: nat)
    requires x == r + d * q && r < q && q * p == w
    ensures x * p == d * w + r * p && r * p + p <= w
  {
    MulDist(r, d * q, p);
    MulAssoc(d, q, p);
    MulLe(r + 1, p, q, p);
    MulDist(r, 1, p);
  }

  lemma GatherMore(result: nat, x: nat, v: nat, shift: nat)
    requires x == v % 128 && result < Pow2(shift)
    ensures result + x * Pow2(shift) < Pow2(shift + 7)
    ensures result + x * Pow2(shift) + v / 128 * Pow2(shift + 7) == result + v * Pow2(shift)
  {
    hide Pow2;
    TwoToThe32();
    Pow2Add(7, shift);
    var p := Pow2(shift);
    MulLe(x + 1, p, 128, p);
    MulDist(x, 1, p);
    MulAssoc(v / 128, 128, p);
    MulDist(v / 128 * 128, x, p);
  }

  lemma {:induction false} Fold32Reads(src: seq<Byte>, pos: int, shift: nat, result: nat, v: nat, k: nat)
    requires 0 < k && v < Pow2(7 * k) && At(src, pos, ULeb(v, k))
    requires shift + 7 * k <= 35 && result < Pow2(shift)
    ensures Fold32(src, pos, shift, result) == ((result + v * Pow2(shift)) % TWO32, pos + k)
    decreases k
  {
    hide Pow2, Or, Gather32, Low7;
    ULebFirst(src, pos, v, k);
    GatherLast(result, Get(src, pos), shift);
    if k == 1 {
      SmallMod(v, 128);
    } else {
      GatherMore(result, v % 128, v, shift);
      TwoToThe32();
      Pow2Monotone(shift + 7, 28);
      SmallMod(result + v % 128 * Pow2(shift), TWO32);
      Fold32Reads(src, pos + 1, shift + 7, result + v % 128 * Pow2(shift), v / 128, k - 1);
    }
  }

  lemma {:induction false} FoldReads(src: seq<Byte>, pos: int, shift: nat, result: nat, v: nat, k: nat)
    requires 0 < k && v < Pow2(7 * k) && At(src, pos, ULeb(v, k)) && result < Pow2(shift)
    ensures Fold(src, pos, shift, result) == (result + v * Pow2(shift), pos + k)
    decreases k
  {
    hide Pow2, Or, Low7;
    ULebFirst(src, pos, v, k);
    OrDisjoint(result, v % 128, shift);
    if k == 1 {
      SmallMod(v, 128);
    } else {
      GatherMore(result, v % 128, v, shift);
      FoldReads(src, pos + 1, shift + 7, result + v % 128 * Pow2(shift), v / 128, k - 1);
    }
  }

  /** However long the encoding, its bytes are all consumed. */
  lemma {:induction false} FoldConsumes(src: seq<Byte>, pos: int, shift: nat, result: nat, v: nat, k: nat)
    requires 0 < k && v < Pow2(7 * k) && At(src, pos, ULeb(v, k))
    ensures Fold32(src, pos, shift, result).1 == pos + k
    decreases k
  {
    hide Pow2, Gather32, Low7;
    ULebFirst(src, pos, v, k);
    if k > 1 {
      FoldConsumes(src, pos + 1, shift + 7, Gather32(result, Get(src, pos), shift), v / 128, k - 1);
    }
  }

  /** `readVarUint` undoes every encoding of every u32, and `readULEB128` up to the sign of its result. */
  lemma ReadsUnsigned(src: seq<Byte>, off: int, v: nat, k: nat)
    requires 0 < k <= 5 && v < Pow2(7 * k) && v < TWO32 && At(src, off, ULeb(v, k))
    ensures ReadVar(src, off) == (v, off + k)
    ensures ReadU(src, off) == (if v < 0x8000_0000 then v else v - TWO32, k)
  {
    hide Pow2, Fold32, ULeb;
    assert Pow2(0) == 1 by { PowZero(); }
    Fold32Reads(src, off, 0, 0, v, k);
    SmallMod(v, TWO32);
  }

  // ---- signed numbers ----

  lemma ModParts(v: int, m: nat)
    requires 0 < m
    ensures (v % (128 * m)) % 128 == v % 128 && (v % (128 * m)) / 128 == (v / 128) % m && 0 <= v % (128 * m) < 128 * m
  {
    var w, c := v / 128, v % 128;
    var q, u := w / m, w % m;
    DivMod(v, 128);
    DivMod(w, m);
    assert q * (128 * m) == 128 * (q * m);
    DivUnique(v, 128 * m, q, 128 * u + c);
    DivUnique(128 * u + c, 128, u, c);
  }

  lemma {:induction false} SLebIsULeb(v: int, k: nat)
    requires Fits(v, k)
    ensures 0 <= v % Pow2(7 * k) && SLeb(v, k) == ULeb(v % Pow2(7 * k), k)
    decreases k
  {
    hide Pow2;
    TwoToThe32();
    if k > 1 {
      SignedRest(v, k);
      Pow2Add(7, 7 * (k - 1));
      ModParts(v, Pow2(7 * (k - 1)));
      SLebIsULeb(v / 128, k - 1);
    }
  }

  /** The sign of the number is bit 6 of the last byte. */
  lemma {:induction false} SLebSign(v: int, k: nat)
    requires Fits(v, k)
    ensures SignBit(SLeb(v, k)[k - 1]) <==> v < 0
    decreases k
  {
    if k == 1 {
      assert Pow2(6) == 64;
    } else {
      hide Pow2;
      SignedRest(v, k);
      SLebSign(v / 128, k - 1);
    }
  }

  lemma SignedParts(v: int, k: nat)
    requires Fits(v, k)
    ensures Pow2(7 * k) == 2 * Pow2(7 * k - 1)
    ensures v % Pow2(7 * k) == if v < 0 then v + Pow2(7 * k) else v
  {
    hide Pow2;
    assert Pow2(1) == 2 by { PowOne(); }
    Pow2Add(1, 7 * k - 1);
    if v < 0 {
      DivUnique(v, Pow2(7 * k), -1, v + Pow2(7 * k));
    } else {
      DivUnique(v, Pow2(7 * k), 0, v);
    }
  }

  lemma PowOne()
    ensures Pow2(1) == 2
  {
  }

  lemma LastByte(src: seq<Byte>, off: int, v: int, k: nat)
    requires Fits(v, k) && At(src, off, SLeb(v, k))
    ensures SignBit(Get(src, off + k - 1)) <==> v < 0
  {
    hide Pow2, SignBit;
    SLebSign(v, k);
    assert src[off..off + k][k - 1] == SLeb(v, k)[k - 1];
  }

  lemma ExtendNegative(v: int, shift: nat, p: nat)
    requires shift < 32 && p == Pow2(shift) && 0 - p <= v < 0
    ensures Extend32(v + p, shift) == v + TWO32
  {
    hide Pow2, Or;
    TwoToThe32();
    Pow2Monotone(shift, 32);
    Pow2Add(32 - shift, shift);
    MulDist(Pow2(32 - shift), 1, p);
    OrDisjoint(v + p, Pow2(32 - shift) - 1, shift);
  }

  /** `readSLEB128_i32` undoes every encoding of every i32. */
  lemma ReadsI32(src: seq<Byte>, off: int, v: I32, k: nat)
    requires 0 < k <= 5 && Fits(v, k) && At(src, off, SLeb(v, k))
    ensures ReadS32(src, off) == (v, k)
  {
    hide Pow2, Fold32, SignBit, Extend32, Fits, SLeb, ULeb, At, ToI32;
    SLebIsULeb(v, k);
    LastByte(src, off, v, k);
    assert Pow2(0) == 1 by { PowZero(); }
    DivMod(v, Pow2(7 * k));
    Fold32Reads(src, off, 0, 0, v % Pow2(7 * k), k);
    SignedWord(v, k);
  }

  /** The gathered word, sign-extended where the code does so, is the number. */
  lemma SignedWord(v: I32, k: nat)
    requires 0 < k <= 5 && Fits(v, k)
    ensures 0 <= v % Pow2(7 * k)
    ensures var r := v % Pow2(7 * k) % TWO32;
            ToI32(if 7 * k < 32 && v < 0 then Extend32(r, 7 * k) else r) == v
  {
    hide Pow2, Extend32, Fits;
    SignedParts(v, k);
    FitsMeans(v, k);
    TwoToThe32();
    if k < 5 {
      Pow2Monotone(7 * k, 28);
      if v < 0 { ExtendNegative(v, 7 * k, Pow2(7 * k)); }
    }
  }

  lemma FitsMeans(v: int, k: nat)
    requires Fits(v, k)
    ensures 0 <= v + Pow2(7 * k - 1) < 2 * Pow2(7 * k - 1)
  {
  }

  /** `readSLEB128_i64` undoes every encoding of every i64 modulo 2^64, in however many bytes. */
  lemma ReadsI64(src: seq<Byte>, off: int, v: int, k: nat)
    requires Fits(v, k) && At(src, off, SLeb(v, k))
    ensures ReadS64(src, off).0 % TWO64 == v % TWO64 && ReadS64(src, off).1 == k
  {
    hide Pow2, Fold, SignBit, Fits, SLeb, ULeb, At;
    SLebIsULeb(v, k);
    SignedParts(v, k);
    LastByte(src, off, v, k);
    assert Pow2(0) == 1 by { PowZero(); }
    DivMod(v, Pow2(7 * k));
    FoldReads(src, off, 0, 0, v % Pow2(7 * k), k);
    if 64 <= 7 * k && v < 0 {
      WrapsAway(v, 7 * k);
    }
  }

  lemma WrapsAway(v: int, n: nat)
    requires 64 <= n
    ensures (v + Pow2(n)) % TWO64 == v % TWO64
  {
    hide Pow2;
    TwoToThe32();
    Pow2Add(32, 32);
    Pow2Add(64, n - 64);
    var q := Pow2(n - 64);
    DivMod(v, TWO64);
    assert (v / TWO64 + q) * TWO64 == v / TWO64 * TWO64 + q * TWO64;
    DivUnique(v + q * TWO64, TWO64, v / TWO64 + q, v % TWO64);
  }
}
