/** Division by a fixed number through a multiplication, and the decimal shifts built on it. */
module FastDiv {
  import opened Limbs
  import opened LimbMul

  datatype FastDivData = FastDivData(m1: limb, shift1: nat, shift2: nat)

  /** B + m1 is just above B * 2^l / d, and 2^l is at least d. */
  ghost predicate Divides(s: FastDivData, d: int, l: nat) {
    && 0 < d <= Pow2(l)
    && s.shift1 == (if l > 1 then 1 else l) && s.shift2 == (if l == 0 then 0 else l - 1)
    && (B + s.m1 - 1) * d <= B * Pow2(l) < (B + s.m1) * d
    && (l == 0 ==> s.m1 == 1)
  }

  /** 64 - clz64(x): the number of bits of x. */
  function BitLength(x: nat): (l: nat)
    ensures x < Pow2(l) && (l > 0 ==> Pow2(l - 1) <= x)
  {
    if x == 0 then 0 else BitLength(x / 2) + 1
  }

  function FastUdivInit(d: limb): (s: FastDivData)
    requires 1 <= d && 2 * d <= B
    ensures Divides(s, d, BitLength(d - 1))
  {
    var l := BitLength(d - 1);
    InitFits(d, l);
    var q := (Pow2(l) - d) * B / d;
    FastDivData(q + 1, if l > 1 then 1 else l, if l == 0 then 0 else l - 1)
  }

  lemma InitFits(d: limb, l: nat)
    requires 1 <= d && 2 * d <= B && l == BitLength(d - 1)
    ensures d <= Pow2(l)
    ensures var q := (Pow2(l) - d) * B / d;
            0 <= q <= B - 2 && (B + q) * d <= B * Pow2(l) < (B + q + 1) * d && (l == 0 ==> q == 0)
  {
    var p, e := Pow2(l), Pow2(l) - d;
    BitExcess(d, l);
    MulMono(0, e, B);
    DivMod(e * B, d);
    QuotientBelow(e, d, e * B / d);
    Assemble(p, d, e, e * B / d, (e * B) % d);
  }

  lemma BitExcess(d: int, l: nat)
    requires 1 <= d && l == BitLength(d - 1)
    ensures 0 <= Pow2(l) - d < d && (l == 0 ==> Pow2(l) - d == 0)
  {
  }

  lemma Assemble(p: int, d: int, e: int, q: int, r: int)
    requires p == d + e && e * B == q * d + r && 0 <= r < d
    ensures (B + q) * d <= B * p < (B + q + 1) * d
  {
    assert B * p == B * d + e * B;
    assert (B + q) * d == B * d + q * d && (B + q + 1) * d == B * d + q * d + d;
  }

  /** The quotient leaves room for one more. */
  lemma QuotientBelow(e: int, d: int, q: int)
    requires 0 <= e < d && 2 * d <= B && q * d <= e * B
    ensures q <= B - 2
  {
    MulMono(e, d - 1, B);
    assert (B - 1) * d == B * d - d && (d - 1) * B == B * d - B;
    if q > B - 2 { MulMono(B - 1, q, d); }
  }

  function FastUdiv(a: limb, s: FastDivData): int {
    var t1 := s.m1 * a / B;
    var t0 := (a - t1) % B / Pow2(s.shift1);
    ((t1 + t0) % B) / Pow2(s.shift2)
  }

  /** The multiplication and the two shifts give the exact quotient of every limb. */
  lemma FastUdivExact(a: limb, s: FastDivData, d: int, l: nat)
    requires Divides(s, d, l)
    ensures FastUdiv(a, s) == a / d && 0 <= a / d <= a
  {
    hide Pow2;
    var t1 := s.m1 * a / B;
    QuotientSmall(a, d);
    if l == 0 {
      HighPart(s.m1, a);
      ModUnique(a - t1, B, 0, a - t1);
      Pow2Small();
      OneDivides(a, t1, d);
    } else {
      TwoShifts(a, s, l);
      Scaled(a, s.m1, t1, d, Pow2(l));
    }
  }

  /** The two shifts together divide the 65-bit sum of a and the high product. */
  lemma TwoShifts(a: limb, s: FastDivData, l: nat)
    requires l >= 1 && s.shift1 == 1 && s.shift2 == l - 1
    ensures FastUdiv(a, s) == (a + s.m1 * a / B) / Pow2(l)
  {
    hide Pow2;
    var t1 := s.m1 * a / B;
    HighPart(s.m1, a);
    ModUnique(a - t1, B, 0, a - t1);
    Pow2Small();
    HalfSum(a, t1, s.shift1);
    ModUnique(t1 + (a - t1) / 2, B, 0, t1 + (a - t1) / 2);
    Pow2Step(l);
    Halves(a + t1, Pow2(l - 1));
  }

  lemma Pow2Small()
    ensures Pow2(0) == 1 && Pow2(1) == 2
  {
  }

  lemma Pow2Step(l: nat)
    requires l > 0
    ensures Pow2(l) == 2 * Pow2(l - 1)
  {
  }

  lemma HighPart(m1: limb, a: limb)
    ensures 0 <= m1 * a / B <= a
  {
    MulMono(0, m1, a);
    MulMono(m1, B, a);
    DivMod(m1 * a, B);
    var t := m1 * a / B;
    if t > a { MulMono(a + 1, t, B); }
  }

  lemma OneDivides(a: limb, t1: int, d: int)
    requires d == 1 && t1 == 1 * a / B
    ensures t1 == 0 && ((t1 + (a - t1) / 1) % B) / 1 == a / d
  {
    ModUnique(a, B, 0, a);
  }

  lemma HalfSum(a: limb, t1: int, shift1: nat)
    requires 0 <= t1 <= a
    ensures 0 <= t1 + (a - t1) / 2 == (a + t1) / 2 < B
  {
  }

  lemma Halves(x: int, p: int)
    requires x >= 0 && p >= 1
    ensures (x / 2) / p == x / (2 * p)
  {
    DivMod(x, 2);
    DivMod(x / 2, p);
    var q, r := (x / 2) / p, (x / 2) % p;
    assert x == q * (2 * p) + (2 * r + x % 2);
    ModUnique(x, 2 * p, q, 2 * r + x % 2);
  }

  lemma QuotientSmall(a: int, d: int)
    requires a >= 0 && d >= 1
    ensures 0 <= a / d <= a
  {
    DivMod(a, d);
    if a / d > a { MulMono(1, d, a / d); }
  }

  /** a + floor(m1 * a / B) is a * M / B rounded down, and M / (B * p) is just above 1 / d. */
  lemma Scaled(a: limb, m1: limb, t1: int, d: int, p: int)
    requires t1 == m1 * a / B && 0 < d <= p && (B + m1 - 1) * d <= B * p < (B + m1) * d
    ensures (a + t1) / p == a / d
  {
    var g, m := (m1 * a) % B, B + m1;
    DivMod(m1 * a, B);
    DivMod(a, d);
    var q, r, e := a / d, a % d, m * d - B * p;
    ScaledIdentity(a, m1, t1, g, d, p, q, r, e);
    assert (B + m1 - 1) * d == m * d - d;
    ScaledBound(a + t1 - q * p, a, p, d, g, r, e);
    ModUnique(a + t1, p, q, a + t1 - q * p);
  }

  lemma ScaledIdentity(a: int, m1: int, t1: int, g: int, d: int, p: int, q: int, r: int, e: int)
    requires m1 * a == t1 * B + g && a == q * d + r && (B + m1) * d == B * p + e
    ensures (B * d) * (a + t1 - q * p) == r * (B * p) + a * e - d * g
  {
    assert B * (a + t1) == a * (B + m1) - g;
    assert d * (a * (B + m1)) == a * (B * p + e);
    assert a * (B * p) == (q * d + r) * (B * p) == d * (q * (B * p)) + r * (B * p);
    assert (B * d) * (q * p) == d * (q * (B * p));
    assert (B * d) * (a + t1) == d * (B * (a + t1));
    assert d * (a * (B + m1) - g) == d * (a * (B + m1)) - d * g;
    assert (B * d) * (a + t1 - q * p) == (B * d) * (a + t1) - (B * d) * (q * p);
    assert a * (B * p + e) == a * (B * p) + a * e;
  }

  lemma ScaledBound(x: int, a: int, p: int, d: int, g: int, r: int, e: int)
    requires (B * d) * x == r * (B * p) + a * e - d * g && 0 < e <= d <= p && 0 <= a < B && 0 <= g < B && 0 <= r < d
    ensures 0 <= x < p
  {
    RemainderPart(r, d, B * p);
    ErrorPart(a, e, d);
    ErrorPart(g, d, d);
    assert d * g == g * d;
    MulMono(d, p, B);
    assert B * d > 0 && d * (B * p) == (B * d) * p by { Assoc(B, d, p); MulMono(1, d, B); }
    LinearBound(B * d, x, p, r * (B * p), B * p, d * (B * p), a * e, d * g);
  }

  lemma RemainderPart(r: int, d: int, y: int)
    requires 0 <= r < d && y >= 0
    ensures 0 <= r * y <= d * y - y
  {
    MulMono(r, d - 1, y);
    MulMono(0, r, y);
  }

  lemma ErrorPart(a: int, e: int, d: int)
    requires 0 <= a < B && 0 < e <= d
    ensures 0 <= a * e < B * d
  {
    MulMono(0, a, e);
    MulMono(a, B - 1, e);
    MulMono(e, d, B);
    assert (B - 1) * e == B * e - e;
  }

  lemma LinearBound(bd: int, x: int, p: int, ry: int, y: int, dy: int, ae: int, dg: int)
    requires bd > 0 && bd * x == ry + ae - dg && 0 <= ry <= dy - y && 0 <= ae < bd && 0 <= dg < bd && dy == bd * p
             && bd <= y
    ensures 0 <= x < p
  {
    if x < 0 { MulMono(x, -1, bd); }
    if x >= p { MulMono(p, x, bd); }
  }
}
