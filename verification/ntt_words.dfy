/** Modular arithmetic on limbs for the number-theoretic transform. */
module NttWords {
  import opened Limbs
  import opened LimbMul
  import opened Udiv

  /** 2^NTT_MOD_LOG2_MIN. */
  const MIN: int := 0x2000_0000_0000_0000

  /** The moduli lie strictly between 2^61 and 2^62. */
  predicate IsModulus(m: int) {
    MIN < m < 2 * MIN
  }

  /** The sum, reduced once. */
  function AddMod(a: limb, b: limb, m: limb): (r: limb)
    requires a < m && b < m && 2 * m <= B
    ensures r < m && (r == a + b || r == a + b - m)
  {
    ModUnique(a + b, B, 0, a + b);
    var r := (a + b) % B;
    if r >= m then r - m else r
  }

  /** The difference; one that wrapped around gets m back. */
  function SubMod(a: limb, b: limb, m: limb): (r: limb)
    requires a < m && b < m
    ensures r < m && (r == a - b || r == a - b + m)
  {
    SubWraps(a, b, m);
    var r := (a - b) % B;
    if r > a then (r + m) % B else r
  }

  lemma SubWraps(a: limb, b: limb, m: limb)
    requires a < m && b < m
    ensures var r := (a - b) % B; if b <= a then r == a - b else r > a && (r + m) % B == a - b + m
  {
    if b <= a {
      ModUnique(a - b, B, 0, a - b);
    } else {
      ModUnique(a - b, B, -1, a - b + B);
      ModUnique(a - b + B + m, B, 1, a - b + m);
    }
  }

  /** floor(2^125 / m). */
  ghost predicate IsFastInverse(mInv: limb, m: int) {
    mInv * m <= B * MIN < (mInv + 1) * m
  }

  /** The inverse used by mul_mod_fast, cut down to a limb. */
  function InitMulModFast(m: limb): (mInv: limb)
    requires MIN <= m < 2 * MIN
    ensures IsFastInverse(mInv, m) <==> m != MIN
  {
    FastInverse(m);
    (B * MIN / m) % B
  }

  /** The smallest modulus the source's assertion lets through is the one whose inverse needs 65 bits. */
  lemma FastInverse(m: int)
    requires MIN <= m < 2 * MIN
    ensures var v := (B * MIN / m) % B; v * m <= B * MIN && (B * MIN < (v + 1) * m <==> m != MIN)
  {
    DivMod(B * MIN, m);
    var v := B * MIN / m;
    assert (v + 1) * m == v * m + m;
    if m == MIN {
      ModUnique(B * MIN, MIN, B, 0);
      ModUnique(B, B, 1, 0);
    } else {
      if v >= B { MulStrict(MIN, m, B); MulMono(B, v, m); }
      ModUnique(v, B, 0, v);
    }
  }

  /** The estimated quotient is at most the true one and at most two less. */
  lemma QuotientClose(r: int, m: limb, mInv: limb)
    requires 0 <= r < B * MIN && IsModulus(m) && IsFastInverse(mInv, m)
    ensures 0 <= r / MIN < B && 0 <= (r / MIN) * mInv / B < B
    ensures 0 <= r - ((r / MIN) * mInv / B) * m < 3 * m
  {
    var a1 := r / MIN;
    var q := a1 * mInv / B;
    DivMod(r, MIN);
    if a1 >= B { MulMono(B, a1, MIN); }
    MulMono(0, a1, mInv); MulMono(a1, B - 1, mInv); MulMono(mInv, B - 1, B - 1);
    DivMod(a1 * mInv, B);
    if q >= B { MulMono(B, q, B); }
    QuotientIdentity(r, m, mInv, a1, r % MIN, q, (a1 * mInv) % B, B * MIN - mInv * m, MIN);
    QuotientBound(r - q * m, m, a1, r % MIN, (a1 * mInv) % B, B * MIN - mInv * m);
  }

  lemma QuotientIdentity(r: int, m: int, v: int, a1: int, rho: int, q: int, g: int, e: int, p: int)
    requires r == a1 * p + rho && a1 * v == q * B + g && B * p == v * m + e
    ensures B * (r - q * m) == B * rho + a1 * e + m * g
  {
    assert B * (a1 * p) == a1 * (B * p);
    assert a1 * (v * m + e) == m * (a1 * v) + a1 * e;
    assert m * (q * B + g) == B * (q * m) + m * g;
  }

  lemma QuotientBound(d: int, m: int, a1: int, rho: int, g: int, e: int)
    requires B * d == B * rho + a1 * e + m * g && 0 <= rho < MIN < m && 0 <= a1 < B && 0 <= g < B && 0 <= e < m
    ensures 0 <= d < 3 * m
  {
    MulMono(0, a1, e); MulMono(a1, B, e); MulMono(e, m, B);
    MulMono(0, g, m); MulMono(g, B, m);
    MulMono(rho, m, B);
    if d < 0 { MulMono(d, -1, B); }
    if d >= 3 * m { MulMono(3 * m, d, B); }
  }

  /** (limb)((slimb_t)x >> 1): an arithmetic shift of the word read as a signed number. */
  function SignedHalf(x: limb): limb {
    if 2 * x < B then x / 2 else (x - B) / 2 + B
  }

  /** rest reduced from [0, 3m) to [0, m), as a plain number. */
  function Less(rest: int, m: int): int {
    var d := rest - 2 * m;
    var e := if d < 0 then d + m else d;
    if e < 0 then e + m else e
  }

  function BitAnd(x: nat, y: nat): (r: nat)
    ensures r <= y
  {
    if x == 0 || y == 0 then 0 else (if x % 2 == 1 && y % 2 == 1 then 1 else 0) + 2 * BitAnd(x / 2, y / 2)
  }

  lemma {:induction false} OnesAnd(k: nat, y: nat)
    requires y < Pow2(k)
    ensures BitAnd(Pow2(k) - 1, y) == y
  {
    if k > 0 && y > 0 {
      OnesAnd(k - 1, y / 2);
    }
  }

  /** A mask of equal bits keeps all of m or none. */
  lemma MaskAnd(mask: limb, m: limb)
    ensures mask == B - 1 ==> BitAnd(mask, m) == m
    ensures mask == 0 ==> BitAnd(mask, m) == 0
  {
    Pow2Limb();
    OnesAnd(64, m);
  }

  /** The two masked additions, on wrapped double words. */
  function Masked(d: int, m: limb): limb
    requires 0 <= d < B * B
  {
    HighWord(d);
    var e := (d + BitAnd(SignedHalf(d / B), m)) % (B * B);
    HighWord(e);
    (e % B + BitAnd(e / B, m)) % B
  }

  lemma HighWord(d: int)
    requires 0 <= d < B * B
    ensures 0 <= d / B < B && 0 <= d % B < B
  {
    DivMod(d, B);
    var h := d / B;
    if h >= B { MulMono(B, h, B); }
  }

  lemma MaskedIsLess(rest: int, m: limb)
    requires 0 <= rest < 3 * m && 4 * m < B
    ensures 0 <= (rest - m * 2) % (B * B) < B * B && Masked((rest - m * 2) % (B * B), m) == Less(rest, m)
  {
    hide BitAnd;
    var d := rest - 2 * m;
    DoubleFits(2 * m, d);
    var e := if d < 0 then d + m else d;
    DoubleFits(m, e);
    SecondWord(d, m);
    LowWord(e, m);
    MaskAnd(B - 1, m);
    MaskAnd(0, m);
  }

  lemma SecondWord(d: int, m: int)
    requires 0 < m && -2 * m <= d < m && 4 * m < B
    ensures (d % (B * B) + if d < 0 then m else 0) % (B * B) == (if d < 0 then d + m else d) % (B * B)
  {
    var w := B * B;
    assert w > 4 * m by { MulMono(1, B, B); }
    if d < -m {
      ModUnique(d, w, -1, d + w); ModUnique(d + m, w, -1, d + m + w); ModUnique(d + w + m, w, 0, d + w + m);
    } else if d < 0 {
      ModUnique(d, w, -1, d + w); ModUnique(d + m, w, 0, d + m); ModUnique(d + w + m, w, 1, d + m);
    } else {
      ModUnique(d, w, 0, d);
    }
  }

  lemma LowWord(e: int, m: int)
    requires 0 < m && -m <= e < m && 4 * m < B
    ensures ((if e < 0 then e + B else e) + if e < 0 then m else 0) % B == if e < 0 then e + m else e
  {
    if e < 0 { ModUnique(e + B + m, B, 1, e + m); } else { ModUnique(e, B, 0, e); }
  }

  lemma LessIsMod(r: int, q: int, m: int)
    requires 0 < m && 0 <= r - q * m < 3 * m
    ensures Less(r - q * m, m) == r % m && 0 <= r % m < m
  {
    var d := r - q * m;
    var k := if d < m then q else if d < 2 * m then q + 1 else q + 2;
    assert (q + 1) * m == q * m + m && (q + 2) * m == q * m + 2 * m;
    ModUnique(r, m, k, r - k * m);
  }

  /** r mod m for a double word r below 2^125, by one multiplication and two masked additions. */
  function ModFast(r: int, m: limb, mInv: limb): (x: limb)
    requires 0 <= r < B * MIN && IsModulus(m) && IsFastInverse(mInv, m)
    ensures x == r % m
  {
    ModFastFits(r, m, mInv);
    ModFastWords(r, m, mInv)
  }

  /** The words the code computes, whatever modulus and inverse it is given. */
  function ModFastWords(r: int, m: limb, mInv: limb): limb {
    var a1 := (r / MIN) % B;
    var q := (a1 * mInv / B) % B;
    Masked((r - q * m - m * 2) % (B * B), m)
  }

  lemma ModFastFits(r: int, m: limb, mInv: limb)
    requires 0 <= r < B * MIN && IsModulus(m) && IsFastInverse(mInv, m)
    ensures ModFastWords(r, m, mInv) == r % m && 0 <= r % m < m
  {
    hide IsFastInverse, Less, Masked;
    QuotientClose(r, m, mInv);
    var q := r / MIN * mInv / B;
    ModUnique(r / MIN, B, 0, r / MIN);
    ModUnique(q, B, 0, q);
    MaskedIsLess(r - q * m, m);
    LessIsMod(r, q, m);
  }

  /** With the modulus 2^61, which the source's assertion lets through, the remainder is right in these cases only. */
  lemma SmallestModulus(r: int)
    requires 0 <= r < B * MIN
    ensures ModFastWords(r, MIN, InitMulModFast(MIN)) == r % MIN <==> r < 2 * MIN || (r - 2 * MIN) % B < MIN
  {
    hide Less, Masked;
    SmallestInverse();
    ModFastWordsAtZero(r);
    if r < 3 * MIN {
      MaskedIsLess(r, MIN);
      LessIsMod(r, 0, MIN);
      if r >= 2 * MIN { ModUnique(r - 2 * MIN, B, 0, r - 2 * MIN); }
    } else {
      ModUnique(r - 2 * MIN, B * B, 0, r - 2 * MIN);
      MaskedIsLow(r - 2 * MIN);
      LowModulus(r);
    }
  }

  /** At 3 * 2^61, for one, the result is not below the modulus. */
  lemma SmallestModulusFails()
    ensures ModFastWords(3 * MIN, MIN, InitMulModFast(MIN)) == MIN && (3 * MIN) % MIN == 0
  {
    hide Less, Masked;
    SmallestInverse();
    ModFastWordsAtZero(3 * MIN);
    ModUnique(MIN, B * B, 0, MIN);
    MaskedIsLow(MIN);
  }

  lemma SmallestInverse()
    ensures InitMulModFast(MIN) == 0
  {
    ModUnique(B * MIN, MIN, B, 0);
    ModUnique(B, B, 1, 0);
  }

  lemma ModFastWordsAtZero(r: int)
    ensures ModFastWords(r, MIN, 0) == Masked((r - MIN * 2) % (B * B), MIN)
  {
  }

  lemma {:induction false} PowerAnd(k: nat, x: nat)
    requires x < Pow2(k)
    ensures BitAnd(x, Pow2(k)) == 0
  {
    if x > 0 {
      PowerAnd(k - 1, x / 2);
    }
  }

  /** A double word with a high part below 2^61 passes the masks unchanged, so its low word is what is left. */
  lemma MaskedIsLow(d: int)
    requires 0 <= d < B * MIN
    ensures d < B * B && Masked(d, MIN) == d % B
  {
    hide BitAnd;
    DivMod(d, B);
    var h := d / B;
    if h >= MIN { MulMono(MIN, h, B); }
    assert Pow2(61) == MIN by { Pow2Limb(); Pow2Add(61, 3); assert Pow2(3) == 8; }
    PowerAnd(61, d / B);
    PowerAnd(61, d / B / 2);
    ModUnique(d, B * B, 0, d);
    ModUnique(d % B, B, 0, d % B);
  }

  lemma LowModulus(r: int)
    requires r >= 2 * MIN
    ensures (r - 2 * MIN) % B == r % MIN <==> (r - 2 * MIN) % B < MIN
  {
    var d := r - 2 * MIN;
    DivMod(d, B);
    DivMod(d % B, MIN);
    ModUnique(r, MIN, 2 + 8 * (d / B) + d % B / MIN, d % B % MIN);
    if d % B < MIN { ModUnique(d % B, MIN, 0, d % B); }
  }

  function MulModFast(a: limb, b: limb, m: limb, mInv: limb): (x: limb)
    requires a * b < B * MIN && IsModulus(m) && IsFastInverse(mInv, m)
    ensures x < m && x == (a * b) % m
  {
    MulMono(0, a, b);
    var x := ModFast(a * b, m, mInv);
    DivMod(a * b, m);
    x
  }

  /** floor(b * 2^64 / m), for a multiplier b used many times. */
  ghost predicate IsScaled(bInv: limb, b: int, m: int) {
    bInv * m <= b * B < (bInv + 1) * m
  }

  function InitMulModFast2(b: limb, m: limb): (bInv: limb)
    requires b < m
    ensures IsScaled(bInv, b, m)
  {
    ScaledFits(b, m);
    b * B / m
  }

  lemma ScaledFits(b: limb, m: limb)
    requires b < m
    ensures var v := b * B / m; 0 <= v < B && v * m <= b * B < (v + 1) * m
  {
    var v := b * B / m;
    DivMod(b * B, m);
    assert (v + 1) * m == v * m + m;
    if v >= B { MulMono(B, v, m); MulStrict(b, m, B); }
  }

  /** a * b less a multiple of m, below 2m. */
  function MulModFast3(a: limb, b: limb, m: limb, bInv: limb): (r: limb)
    requires b < m && 2 * m <= B && IsScaled(bInv, b, m)
    ensures r < 2 * m && r == a * b - (a * bInv / B) * m
  {
    ScaledClose(a, b, m, bInv);
    var q := (a * bInv / B) % B;
    ((a * b) % B - (q * m) % B) % B
  }

  lemma ScaledClose(a: limb, b: limb, m: limb, bInv: limb)
    requires b < m && 2 * m <= B && IsScaled(bInv, b, m)
    ensures var q := a * bInv / B;
            0 <= q < B && q % B == q && 0 <= a * b - q * m < 2 * m
            && ((a * b) % B - (q * m) % B) % B == a * b - q * m
  {
    var q, g := a * bInv / B, (a * bInv) % B;
    MulMono(0, a, bInv); MulMono(a, B, bInv);
    DivMod(a * bInv, B);
    if q >= B { MulMono(B, q, B); MulMono(bInv, B - 1, B); }
    ModUnique(q, B, 0, q);
    ScaledIdentity(a, b, m, bInv, q, g, b * B - bInv * m);
    ScaledBound(a * b - q * m, a, m, g, b * B - bInv * m);
    WrappedDifference(a * b, q * m);
  }

  lemma ScaledIdentity(a: int, b: int, m: int, v: int, q: int, g: int, e: int)
    requires a * v == q * B + g && b * B == v * m + e
    ensures B * (a * b - q * m) == m * g + a * e
  {
    assert B * (a * b) == a * (b * B);
    assert a * (v * m + e) == m * (a * v) + a * e;
    assert m * (q * B + g) == B * (q * m) + m * g;
  }

  lemma ScaledBound(d: int, a: int, m: int, g: int, e: int)
    requires B * d == m * g + a * e && 0 <= a < B && 0 <= g < B && 0 <= e < m
    ensures 0 <= d < 2 * m
  {
    MulMono(0, a, e); MulMono(a, B, e); MulMono(e, m, B);
    MulMono(0, g, m); MulStrict(g, B, m);
    if d < 0 { MulMono(d, -1, B); }
    if d >= 2 * m { MulMono(2 * m, d, B); }
  }

  lemma WrappedDifference(x: int, y: int)
    requires 0 <= x - y < B
    ensures (x % B - y % B) % B == x - y
  {
    DivMod(x, B);
    DivMod(y, B);
    var k := y / B - x / B;
    assert x % B - y % B == k * B + (x - y);
    ModUnique(x % B - y % B, B, k, x - y);
  }

  function MulModFast2(a: limb, b: limb, m: limb, bInv: limb): (r: limb)
    requires b < m && 2 * m <= B && IsScaled(bInv, b, m)
    ensures r < m && r == (a * b) % m
  {
    ReducedOnce(a * b, a * bInv / B, m, MulModFast3(a, b, m, bInv));
    var r := MulModFast3(a, b, m, bInv);
    if r >= m then r - m else r
  }

  lemma ReducedOnce(x: int, q: int, m: int, r: int)
    requires 0 < m && 0 <= r < 2 * m && r == x - q * m
    ensures (if r >= m then r - m else r) == x % m
  {
    var k := if r >= m then q + 1 else q;
    assert (q + 1) * m == q * m + m;
    ModUnique(x, m, k, x - k * m);
  }
}
