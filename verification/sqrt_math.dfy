/** Integer square roots and the step that doubles their length, on plain integers. */
module SqrtMath {
  import opened Limbs
  import opened LimbMul

  /** s is the integer square root of a and r what it leaves over. */
  ghost predicate IsSqrt(a: int, s: int, r: int) {
    0 <= s && s * s <= a < (s + 1) * (s + 1) && r == a - s * s
  }

  /** There is only one such root and remainder. */
  lemma SqrtIsUnique(a: int, s: int, r: int, s': int, r': int)
    requires IsSqrt(a, s, r) && IsSqrt(a, s', r')
    ensures s == s' && r == r'
  {
    NotBeyond(a, s, s');
    NotBeyond(a, s', s);
  }

  lemma NotBeyond(a: int, s: int, t: int)
    requires 0 <= s && 0 <= t && a < (s + 1) * (s + 1) && t * t <= a
    ensures t <= s
  {
    if t > s {
      MulMono(s + 1, t, s + 1);
      MulMono(s + 1, t, t);
    }
  }

  lemma SqrtRange(a: int, s: int, r: int)
    requires 0 <= s
    ensures IsSqrt(a, s, r) <==> a == s * s + r && 0 <= r <= 2 * s
  {
    assert (s + 1) * (s + 1) == s * s + 2 * s + 1;
  }

  lemma SquareMono(x: int, y: int)
    requires 0 <= x <= y
    ensures x * x <= y * y
  {
  }

  /** The root of a number between two squares lies between their roots. */
  lemma SqrtBetween(a: int, s: int, r: int, lo: int, hi: int)
    requires IsSqrt(a, s, r) && 0 <= lo && lo * lo <= a < hi * hi && 0 <= hi
    ensures lo <= s < hi
  {
    if s < lo { SquareMono(s + 1, lo); }
    if s >= hi { SquareMono(hi, s); }
  }

  /** x = s1^2 + r1 extended by two digits y1, y0 of base b, with the quotient q of r1 * b + y1 by 2 * s1. */
  lemma StepIdentity(s1: int, r1: int, b: int, y1: int, y0: int, q: int, u: int)
    requires r1 * b + y1 == q * (2 * s1) + u
    ensures (s1 * s1 + r1) * (b * b) + y1 * b + y0 == (s1 * b + q) * (s1 * b + q) + (u * b + y0 - q * q)
  {
    assert (r1 * b + y1) * b == (q * (2 * s1) + u) * b;
    StepExpand(s1, r1, b, y1, q, u);
  }

  lemma StepExpand(s1: int, r1: int, b: int, y1: int, q: int, u: int)
    ensures (s1 * s1 + r1) * (b * b) + y1 * b == (s1 * b) * (s1 * b) + (r1 * b + y1) * b
    ensures (q * (2 * s1) + u) * b == 2 * (s1 * b) * q + u * b
    ensures (s1 * b + q) * (s1 * b + q) == (s1 * b) * (s1 * b) + 2 * (s1 * b) * q + q * q
  {
  }

  /** The quotient has at most one unit more than a digit. */
  lemma QuotientRange(s1: int, r1: int, b: int, y1: int, q: int, u: int)
    requires 0 <= r1 <= 2 * s1 && 1 <= b <= 2 * s1 && 0 <= y1 < b
    requires r1 * b + y1 == q * (2 * s1) + u && 0 <= u < 2 * s1
    ensures 0 <= q <= b
  {
    MulMono(r1, 2 * s1, b); MulMono(0, r1, b);
    assert (b + 1) * (2 * s1) == (2 * s1) * b + 2 * s1;
    if q > b { MulMono(b + 1, q, 2 * s1); }
    if q < 0 { MulMono(q, -1, 2 * s1); }
  }

  /** One step: s1 * b + q is the root, or one more than the root when the remainder comes out negative. */
  lemma SqrtStep(x: int, s1: int, r1: int, b: int, y1: int, y0: int, q: int, u: int, s: int, r: int)
    requires IsSqrt(x, s1, r1) && 1 <= b <= 2 * s1
    requires 0 <= y1 < b && 0 <= y0 < b
    requires r1 * b + y1 == q * (2 * s1) + u && 0 <= u < 2 * s1
    requires s == s1 * b + q && r == u * b + y0 - q * q
    ensures 0 <= q <= b && -(b * b) <= r <= 2 * s && 1 <= s
    ensures r >= 0 ==> IsSqrt(x * (b * b) + y1 * b + y0, s, r)
    ensures r < 0 ==> IsSqrt(x * (b * b) + y1 * b + y0, s - 1, r + 2 * (s - 1) + 1)
    ensures q == b ==> u < b
  {
    SqrtRange(x, s1, r1);
    QuotientRange(s1, r1, b, y1, q, u);
    StepIdentity(s1, r1, b, y1, y0, q, u);
    StepBounds(s1, b, y0, q, u, s, r);
    FullQuotient(s1, r1, b, y1, q, u);
    var y := x * (b * b) + y1 * b + y0;
    SqrtRange(y, s, r);
    SqrtRange(y, s - 1, r + 2 * (s - 1) + 1);
    assert (s - 1) * (s - 1) + (2 * (s - 1) + 1) == s * s;
  }

  lemma FullQuotient(s1: int, r1: int, b: int, y1: int, q: int, u: int)
    requires 0 <= r1 <= 2 * s1 && 0 <= y1 < b && 0 <= u
    requires r1 * b + y1 == q * (2 * s1) + u
    ensures q == b ==> u < b
  {
    MulMono(r1, 2 * s1, b);
    if q == b { assert q * (2 * s1) == (2 * s1) * b; }
  }

  lemma StepBounds(s1: int, b: int, y0: int, q: int, u: int, s: int, r: int)
    requires 1 <= b <= 2 * s1 && 0 <= y0 < b && 0 <= u < 2 * s1 && 0 <= q <= b
    requires s == s1 * b + q && r == u * b + y0 - q * q
    ensures -(b * b) <= r <= 2 * s && 1 <= s
    ensures r < 0 ==> r + 2 * (s - 1) + 1 >= 0
  {
    MulMono(u, 2 * s1 - 1, b); MulMono(0, u, b);
    assert (2 * s1 - 1) * b == 2 * (s1 * b) - b;
    SquareMono(q, b);
    assert q * q >= 0;
    MulMono(b, 2 * s1, b);
    assert (2 * s1) * b == 2 * (s1 * b);
    if q == 0 { assert q * q == 0; }
  }

  /** s is the root of v with remainder r, or one more than the root when r is negative. */
  ghost predicate StepOutcome(v: int, s: int, r: int, p: int) {
    && 1 <= s <= p && -p <= r <= 2 * s
    && (r >= 0 ==> IsSqrt(v, s, r) && s < p <= 2 * s)
    && (r < 0 ==> IsSqrt(v, s - 1, r + 2 * (s - 1) + 1) && p <= 2 * (s - 1)
                  && 0 <= r + 2 * (s - 1) + 1 <= 2 * (s - 1))
  }

  lemma HalfScaled(hp: int, s1: int, b: int, t: int)
    requires hp <= 2 * s1 && s1 * b <= t && b >= 1
    ensures hp * b <= 2 * t
  {
    MulMono(hp, 2 * s1, b);
    assert (2 * s1) * b == 2 * (s1 * b);
  }

  lemma DigitPair(y: int, b: int)
    requires b >= 1 && 0 <= y < b * b
    ensures y == (y / b) * b + y % b && 0 <= y / b < b && 0 <= y % b < b
  {
    DivMod(y, b);
    if y / b >= b { MulMono(b, y / b, b); }
  }

  /** A root s1 with its leading bit set gives a root of twice the length with its leading bit set. */
  lemma RootDoubled(v: int, x: int, s1: int, b: int, y: int, t: int, rt: int)
    requires v == x * (b * b) + y && IsSqrt(v, t, rt)
    requires 0 <= s1 && s1 * s1 <= x < b * b && 0 <= y < b * b && 1 <= b <= 2 * s1
    ensures t < b * b && b * b <= 2 * t
  {
    var bb := b * b;
    MulMono(x, bb - 1, bb);
    MulMono(s1 * s1, x, bb);
    SquareOfProduct(s1, b);
    MulMono(0, s1, b);
    SqrtBetween(v, t, rt, s1 * b, bb);
    MulMono(b, 2 * s1, b);
  }

  lemma SquareOfProduct(s: int, b: int)
    ensures (s * b) * (s * b) == (s * s) * (b * b)
    ensures (b * b - 1) * (b * b) == (b * b) * (b * b) - b * b
    ensures (2 * s) * b == 2 * (s * b)
  {
  }

  /** Everything the word-level code needs to know about one step. */
  lemma DoubleOutcome(v: int, x: int, s1: int, r1: int, b: int, y: int, q: int, u: int)
    requires v == x * (b * b) + y
    requires IsSqrt(x, s1, r1) && 2 <= b <= 2 * s1 && x < b * b && 0 <= y < b * b
    requires r1 * b + y / b == q * (2 * s1) + u && 0 <= u < 2 * s1
    ensures 0 <= q <= b && StepOutcome(v, s1 * b + q, u * b + y % b - q * q, b * b)
  {
    var s, r := s1 * b + q, u * b + y % b - q * q;
    DigitPair(y, b);
    SqrtStep(x, s1, r1, b, y / b, y % b, q, u, s, r);
    assert x * (b * b) + (y / b) * b + y % b == v;
    var t, rt := if r >= 0 then s else s - 1, if r >= 0 then r else r + 2 * (s - 1) + 1;
    RootDoubled(v, x, s1, b, y, t, rt);
    SqrtRange(v, t, rt);
  }
}
