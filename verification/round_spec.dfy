/** Rounding a non-negative integer to a multiple of u, in each of the six deterministic modes. */
module RoundSpec {
  import opened Limbs
  import opened LimbMul

  datatype RndMode = RNDN | RNDZ | RNDD | RNDU | RNDNA | RNDA

  /** Whether the magnitude q * u + r is rounded away from zero; the sign matters to the directed modes. */
  predicate AddOne(mode: RndMode, sign: bool, q: int, r: int, u: int) {
    match mode
    case RNDZ => false
    case RNDN => 2 * r > u || (2 * r == u && q % 2 == 1)
    case RNDNA => 2 * r >= u && r > 0
    case RNDA => r > 0
    case RNDD => sign && r > 0
    case RNDU => !sign && r > 0
  }

  function Rounded(m: int, u: int, mode: RndMode, sign: bool): int
    requires u >= 1
  {
    if AddOne(mode, sign, m / u, m % u, u) then (m / u + 1) * u else (m / u) * u
  }

  /** The result is a multiple of u next to m, and m itself exactly when m is one. */
  lemma RoundedNear(m: int, u: int, mode: RndMode, sign: bool)
    requires u >= 1 && m >= 0
    ensures var t := Rounded(m, u, mode, sign); t % u == 0 && -u < t - m < u && (t == m <==> m % u == 0)
  {
    DivMod(m, u);
    var q := m / u;
    assert (q + 1) * u == q * u + u;
    ModUnique(q * u, u, q, 0);
    ModUnique((q + 1) * u, u, q + 1, 0);
  }

  /** A multiple of u is at most m exactly when its quotient is, and beyond m otherwise. */
  lemma Multiples(m: int, u: int, k: int)
    requires u >= 1
    ensures k <= m / u ==> k * u <= (m / u) * u
    ensures k > m / u ==> k * u >= (m / u + 1) * u
    ensures m == (m / u) * u + m % u && 0 <= m % u < u && (m / u + 1) * u == (m / u) * u + u
  {
    DivMod(m, u);
    if k <= m / u { MulMono(k, m / u, u); } else { MulMono(m / u + 1, k, u); }
  }

  /** Toward zero, down for positive and up for negative numbers: the largest multiple not above the magnitude. */
  lemma TowardZero(m: int, u: int, mode: RndMode, sign: bool, k: int)
    requires u >= 1 && m >= 0 && (mode == RNDZ || (mode == RNDD && !sign) || (mode == RNDU && sign))
    ensures Rounded(m, u, mode, sign) <= m && (k * u <= m ==> k * u <= Rounded(m, u, mode, sign))
  {
    Multiples(m, u, k);
  }

  /** Away from zero, down for negative and up for positive numbers: the smallest multiple not below the magnitude. */
  lemma AwayFromZero(m: int, u: int, mode: RndMode, sign: bool, k: int)
    requires u >= 1 && m >= 0 && (mode == RNDA || (mode == RNDD && sign) || (mode == RNDU && !sign))
    ensures Rounded(m, u, mode, sign) >= m && (k * u >= m ==> k * u >= Rounded(m, u, mode, sign))
  {
    Multiples(m, u, k);
  }

  function Abs(x: int): int {
    if x < 0 then -x else x
  }

  /** To nearest: no multiple is closer, and of two equally close ones it is the even or the larger one. */
  lemma Nearest(m: int, u: int, mode: RndMode, sign: bool, k: int)
    requires u >= 1 && m >= 0 && (mode == RNDN || mode == RNDNA)
    ensures var t := Rounded(m, u, mode, sign);
            && Abs(t - m) <= Abs(k * u - m)
            && (Abs(t - m) == Abs(k * u - m) && t != k * u ==>
                  if mode == RNDNA then t > k * u else (t / u) % 2 == 0)
  {
    Multiples(m, u, k);
    var q := m / u;
    ModUnique(q * u, u, q, 0);
    ModUnique((q + 1) * u, u, q + 1, 0);
    MultiplesApart(q, k, u);
  }

  lemma MultiplesApart(q: int, k: int, u: int)
    requires u >= 1
    ensures k < q ==> k * u <= q * u - u
    ensures k > q + 1 ==> k * u >= (q + 1) * u + u
    ensures (q + 1) * u == q * u + u
  {
    if k < q { MulMono(k + 1, q, u); assert (k + 1) * u == k * u + u; }
    if k > q + 1 { MulMono(q + 2, k, u); assert (q + 2) * u == (q + 1) * u + u; }
  }

  /** Rounding is monotone. */
  lemma Monotone(m: int, n: int, u: int, mode: RndMode, sign: bool)
    requires u >= 1 && 0 <= m <= n
    ensures Rounded(m, u, mode, sign) <= Rounded(n, u, mode, sign)
  {
    var q, r, s, v := m / u, m % u, n / u, n % u;
    DivMod(m, u);
    DivMod(n, u);
    if q < s {
      MulMono(q + 1, s, u);
    } else {
      MulMono(s, q, u);
      if q > s { MulMono(s + 1, q, u); }
    }
    AddOneMonotone(mode, sign, q, r, v, u);
    assert (q + 1) * u == q * u + u && (s + 1) * u == s * u + u;
  }

  lemma AddOneMonotone(mode: RndMode, sign: bool, q: int, r: int, s: int, u: int)
    ensures r <= s && AddOne(mode, sign, q, r, u) ==> AddOne(mode, sign, q, s, u)
  {
  }
}
