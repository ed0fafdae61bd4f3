/** The error analysis of the Newton reciprocal and of division by a reciprocal, on plain integers. */
module RecipMath {
  import opened Limbs
  import opened LimbMul

  /** r approximates n2 / a from below, by less than 2: algorithm 3.5 of Modern Computer Arithmetic. */
  ghost predicate IsRecip(a: int, r: int, n2: int) {
    a * r < n2 < a * (r + 2)
  }

  /** So r is the largest number whose product with a stays below n2, or one less. */
  lemma RecipIsClose(a: int, r: int, n2: int)
    requires a > 0 && n2 > 0 && IsRecip(a, r, n2)
    ensures var q := (n2 - 1) / a; q - 1 <= r <= q
  {
    var q := (n2 - 1) / a;
    DivMod(n2 - 1, a);
    assert (q + 1) * a == q * a + a;
    if r > q { MulMono(q + 1, r, a); }
    if r < q - 1 { MulMono(r + 2, q, a); }
  }

  /** A reciprocal of a normalised number has one limb more, and that limb is 1. */
  lemma RecipRange(a: int, r: int, p: int)
    requires p > 0 && p <= 2 * a && a < p && IsRecip(a, r, p * p)
    ensures p <= r < 2 * p
  {
    MulMono(p, 2 * a, p);
    assert (2 * p) * a == (2 * a) * p;
    MulMono(a, p - 1, p + 1);
    assert (p - 1) * (p + 1) == p * p - 1;
    assert a * (r + 2) == (r + 2) * a;
    if r >= 2 * p { MulMono(2 * p, r, a); }
    if r <= p - 1 { MulMono(r + 2, p + 1, a); }
  }

  /** Base case: the quotient of n2 by a, one less when the division is exact. */
  lemma RecipBase(a: int, q: int, rem: int, r: int, n2: int)
    requires n2 == q * a + rem && 0 <= rem < a && r == (if rem == 0 then q - 1 else q)
    ensures IsRecip(a, r, n2)
  {
    assert a * (q + 1) == q * a + a && a * (q - 1) == q * a - a && a * (q + 2) == q * a + 2 * a;
  }

  /** An approximate reciprocal of the high part still bounds the product with the whole number. */
  lemma RecipHigh(a: int, al: int, ah: int, l: int, xh: int, h2: int)
    requires a == al + l * ah && 0 <= al && l > 0 && IsRecip(ah, xh, h2) && xh >= 0
    ensures l * h2 < a * (xh + 2)
  {
    MulStrict(h2, ah * (xh + 2), l);
    assert l * (ah * (xh + 2)) == (l * ah) * (xh + 2);
    MulMono(l * ah, a, xh + 2);
  }

  /** One correction of the estimate of the high part. */
  lemma RecipDecrement(a: int, xh: int, nn: int, p: int, hp: int)
    requires nn == p * hp && 0 < a < p && hp > 0 && a * xh >= nn
    ensures nn < a * (xh - 1 + 2) && xh >= hp + 1 && a * (xh - 1) == a * xh - a
  {
    MulStrict(a, p, hp);
    assert a * xh == xh * a && hp * a == a * hp;
    if xh <= hp { MulMono(xh, hp, a); }
    assert a * (xh - 1 + 2) == a * xh + a;
  }

  /** The Newton step, scaled by B^k: what is left of n2 after subtracting a * x. */
  lemma NewtonIdentity(a: int, xh: int, l: int, k: int, t: int, tm: int, tl: int, uf: int, ul: int)
    requires a * xh == l * (l * k) - t
    requires t == tl + l * tm
    requires tm * xh == uf * k + ul
    ensures k * ((l * (l * k)) * l - a * (xh * l + uf)) == tl * (l * k) + tm * t + a * ul
  {
    var h2 := l * k;
    var nn := l * h2;
    assert a * (tm * xh) == a * (uf * k + ul);
    assert a * (tm * xh) == tm * (a * xh);
    Distribute3(tm, nn, t);
    assert a * (uf * k + ul) == k * (a * uf) + a * ul;
    TimesH2(t, tl, l, tm, h2);
    NewtonExpand(a, xh, l, k, uf, nn);
    assert (a * xh) * h2 == nn * h2 - t * h2;
  }

  lemma TimesH2(t: int, tl: int, l: int, tm: int, h2: int)
    requires t == tl + l * tm
    ensures t * h2 == tl * h2 + tm * (l * h2)
  {
  }

  lemma Distribute3(tm: int, nn: int, t: int)
    ensures tm * (nn - t) == tm * nn - tm * t
  {
  }

  lemma NewtonExpand(a: int, xh: int, l: int, k: int, uf: int, nn: int)
    ensures k * (nn * l - a * (xh * l + uf)) == nn * (l * k) - (a * xh) * (l * k) - k * (a * uf)
  {
    assert a * (xh * l + uf) == (a * xh) * l + a * uf;
    assert k * (nn * l) == nn * (l * k);
    assert k * ((a * xh) * l) == (a * xh) * (l * k);
  }

  /** The Newton step keeps the bound of IsRecip. */
  lemma NewtonStep(a: int, xh: int, l: int, hp: int, k: int, t: int, tm: int, tl: int, uf: int, ul: int)
    requires l >= 1 && hp >= 1 && k >= 1 && a > 0
    requires B * (l * l) <= 2 * a && a < l * hp && B * hp <= k
    requires a * xh == l * (l * k) - t && 1 <= t < 2 * a
    requires t == tl + l * tm && 0 <= tl < l && 0 <= tm
    requires tm * xh == uf * k + ul && 0 <= ul < k
    ensures IsRecip(a, xh * l + uf, (l * (l * k)) * l)
  {
    NewtonIdentity(a, xh, l, k, t, tm, tl, uf, ul);
    NewtonLow(a, l, k, tl);
    NewtonHigh(a, l, hp, k, t, tm, tl);
    NewtonPositive(l, k, t, tm, tl);
    NewtonSum(a * k, tl * (l * k), tm * t);
    NewtonFinish(a, xh * l + uf, (l * (l * k)) * l, k, tl * (l * k) + tm * t, ul);
  }

  lemma NewtonSum(ak: int, x: int, y: int)
    requires B * x <= 2 * ak && B * y <= 4 * ak && 0 <= ak
    ensures x + y <= ak
  {
    MulMono(6, B, ak);
    if x + y > ak { MulStrict(ak, x + y, B); }
  }

  lemma NewtonFinish(a: int, x: int, n2: int, k: int, s: int, ul: int)
    requires a > 0 && k >= 1 && 0 < s <= a * k && 0 <= ul < k
    requires k * (n2 - a * x) == s + a * ul
    ensures IsRecip(a, x, n2)
  {
    var rest := n2 - a * x;
    MulMono(ul, k - 1, a); MulMono(0, ul, a);
    assert a * (x + 2) == a * x + 2 * a;
    if rest <= 0 { MulMono(rest, 0, k); }
    if rest >= 2 * a { MulMono(2 * a, rest, k); }
  }

  lemma NewtonPositive(l: int, k: int, t: int, tm: int, tl: int)
    requires l >= 1 && k >= 1 && 1 <= t && t == tl + l * tm && 0 <= tl && 0 <= tm
    ensures tl * (l * k) + tm * t > 0
  {
    MulMono(1, l, k); MulMono(0, tl, l * k); MulMono(0, tm, t);
    if tl >= 1 { MulMono(1, tl, l * k); } else {
      assert tm >= 1;
      MulMono(1, tm, t);
    }
  }

  lemma NewtonLow(a: int, l: int, k: int, tl: int)
    requires l >= 1 && k >= 1 && 0 <= tl < l && B * (l * l) <= 2 * a
    ensures B * (tl * (l * k)) <= 2 * (a * k)
  {
    MulMono(1, l, k);
    MulMono(tl, l, l * k);
    MulMono(B * (l * l), 2 * a, k);
    assert (B * (l * l)) * k == B * (l * (l * k));
    MulMono(tl * (l * k), l * (l * k), B);
  }

  lemma NewtonHigh(a: int, l: int, hp: int, k: int, t: int, tm: int, tl: int)
    requires l >= 1 && hp >= 1 && k >= 1 && 0 < a < l * hp && B * hp <= k
    requires 1 <= t < 2 * a && t == tl + l * tm && 0 <= tl && 0 <= tm
    ensures B * (tm * t) <= 4 * (a * k)
  {
    MulMono(l * tm, t, t);
    SquareBound(t, 2 * a);
    MulMono(a, l * hp, 4 * a);
    HighBound(a, l, hp, t, tm);
    MulCancelLe(tm * t, 4 * (a * hp), l);
    HighScale(tm * t, a, hp, k);
  }

  lemma SquareBound(x: int, y: int)
    requires 0 <= x <= y
    ensures x * x <= y * y
  {
  }

  lemma HighScale(x: int, a: int, hp: int, k: int)
    requires x <= 4 * (a * hp) && B * hp <= k && a > 0
    ensures B * x <= 4 * (a * k)
  {
    MulMono(x, 4 * (a * hp), B);
    MulMono(B * hp, k, 4 * a);
    assert B * (4 * (a * hp)) == (B * hp) * (4 * a);
    assert k * (4 * a) == 4 * (a * k);
  }

  lemma HighBound(a: int, l: int, hp: int, t: int, tm: int)
    requires (l * tm) * t <= t * t <= (2 * a) * (2 * a) && a * (4 * a) <= (l * hp) * (4 * a)
    ensures (tm * t) * l <= (4 * (a * hp)) * l
  {
    assert (l * tm) * t == (tm * t) * l;
    assert (4 * (a * hp)) * l == (l * hp) * (4 * a);
    assert (2 * a) * (2 * a) == a * (4 * a);
  }

  // ---- dividing by a reciprocal -----------------------------------------

  /** The estimated quotient is never above the true one. */
  lemma EstimateNotAbove(a: int, ah: int, al: int, e: int, inv: int, q: int, ql: int, s: int, b: int)
    requires a == al + e * ah && 0 <= al && e > 0 && s > 0 && b > 0 && inv >= 0 && 0 <= a
    requires inv * ah == ql + s * q && 0 <= ql
    requires b * inv <= s * e
    ensures q * b <= a
  {
    var m := s * e;
    MulMono(s * q, inv * ah, e);
    MulMono(e * ah, a, inv);
    assert (s * q) * e == q * m && (inv * ah) * e == (e * ah) * inv;
    MulMono(q * m, a * inv, b);
    MulMono(b * inv, m, a);
    assert (q * m) * b == (q * b) * m && (a * inv) * b == (b * inv) * a;
    PositiveProduct(s, e);
    MulCancelLe(q * b, a, m);
  }

  lemma PositiveProduct(s: int, e: int)
    requires s > 0 && e > 0
    ensures s * e > 0
  {
  }

  /** ... and what it leaves over, scaled by s * e. */
  lemma RestIdentity(a: int, ah: int, al: int, e: int, inv: int, q: int, ql: int, s: int, b: int)
    requires a == al + e * ah && inv * ah == ql + s * q
    ensures (s * e) * (a - q * b) == a * (s * e - b * inv) + (b * inv) * al + b * (e * ql)
  {
    assert (s * e) * (q * b) == (b * e) * (s * q);
    assert s * q == inv * ah - ql;
    Distribute3(b * e, inv * ah, ql);
    assert (b * e) * (inv * ah) == (b * inv) * (e * ah);
    assert e * ah == a - al;
    Distribute3(b * inv, a, al);
    assert (b * e) * ql == b * (e * ql);
    RestExpand(s * e, a, q * b, b * inv);
  }

  lemma RestExpand(m: int, a: int, qb: int, bi: int)
    ensures m * (a - qb) == m * a - m * qb && a * (m - bi) == m * a - bi * a
  {
  }

  /** The estimated quotient is less than 5 below the true one. */
  lemma EstimateNotFarBelow(a: int, ah: int, al: int, e: int, inv: int, q: int, ql: int, s: int, b: int)
    requires a == al + e * ah && 0 <= al < e && s > 0 && e <= b
    requires inv * ah == ql + s * q && 0 <= ql < s
    requires b * inv <= s * e && a * (s * e - b * inv) <= 3 * ((s * e) * b)
    ensures a - q * b < 5 * b
  {
    RestIdentity(a, ah, al, e, inv, q, ql, s, b);
    PositiveProduct(s, e);
    AlTerm(b * inv, s * e, al, b);
    QlTerm(ql, s, e, b);
    RestSum(a - q * b, b, s * e, a * (s * e - b * inv), (b * inv) * al, b * (e * ql));
  }

  lemma AlTerm(bi: int, m: int, al: int, b: int)
    requires bi <= m && 0 <= al < b && m > 0
    ensures bi * al <= m * b
  {
    MulMono(bi, m, al); MulMono(al, b, m);
  }

  lemma QlTerm(ql: int, s: int, e: int, b: int)
    requires 0 <= ql < s && e > 0 && b > 0
    ensures b * (e * ql) < (s * e) * b
  {
    MulStrict(ql, s, e);
    MulStrict(e * ql, s * e, b);
  }

  lemma RestSum(rest: int, b: int, m: int, x: int, y: int, z: int)
    requires m * rest == x + y + z && x <= 3 * (m * b) && y <= m * b && z < m * b && m > 0
    ensures rest < 5 * b
  {
    if rest >= 5 * b { MulMono(5 * b, rest, m); }
  }

  /** Exact divisor: b scaled to n limbs by z. */
  lemma ExactDivisor(a: int, b: int, inv: int, z: int, m: int)
    requires z > 0 && b > 0 && 0 <= a <= m && IsRecip(b * z, inv, m * z)
    ensures b * inv <= m && a * (m - b * inv) <= 3 * (m * b)
  {
    assert (b * z) * inv == (b * inv) * z && (b * z) * (inv + 2) == (b * inv + 2 * b) * z;
    MulCancelLt(b * inv, m, z);
    MulCancelLt(m, b * inv + 2 * b, z);
    MulMono(m - b * inv, 2 * b, a);
    MulMono(a, m, 2 * b);
    assert (2 * b) * a == a * (2 * b) && m * (2 * b) == 2 * (m * b);
    assert (m - b * inv) * a == a * (m - b * inv);
    MulMono(0, m, b);
  }

  /** Truncated divisor: bt is the high part of b, rounded up by one unit z. */
  lemma TruncatedDivisor(a: int, b: int, bt: int, inv: int, z: int, m: int, n2: int, bp: int)
    requires z > 0 && 0 < b < bt * z <= b + z && inv >= 0 && m == n2 * z
    requires bt * inv <= n2 < bt * (inv + 2)
    requires 0 <= a && a * B <= m && 0 < bp <= 2 * b && z <= bp && z * inv <= 2 * bp
    ensures b * inv <= m && a * (m - b * inv) <= 3 * (m * b)
  {
    MulMono(b, bt * z, inv);
    MulMono(bt * inv, n2, z);
    assert (bt * z) * inv == (bt * inv) * z;
    var y := z * (inv + 2);
    MulMono(n2, bt * (inv + 2), z);
    MulMono(bt * z, b + z, inv + 2);
    assert (bt * (inv + 2)) * z == (bt * z) * (inv + 2);
    assert (b + z) * (inv + 2) == b * inv + 2 * b + y;
    assert y == z * inv + 2 * z;
    TruncatedSum(a, m - b * inv, b, y, m);
  }

  lemma TruncatedSum(a: int, d: int, b: int, y: int, m: int)
    requires 0 <= a && a * B <= m && 0 < b && d <= 2 * b + y && y <= 8 * b
    ensures a * d <= 3 * (m * b)
  {
    MulMono(d, 10 * b, a);
    assert d * a == a * d && (10 * b) * a == 10 * (a * b);
    MulMono(a * B, m, b);
    MulMono(10, B, a * b);
    MulMono(0, a, b);
    assert (a * B) * b == B * (a * b);
    assert m * b >= 0 by { MulMono(0, a, B); MulMono(0, m, b); }
  }
}
