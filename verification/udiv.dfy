/** Division of a double word by a normalised limb with a precomputed inverse. */
module Udiv {
  import opened Limbs
  import opened LimbOps
  import opened LimbMul

  /** v is the inverse of d: floor((B^2 - 1) / d) - B. */
  ghost predicate IsInverse(v: limb, d: limb) {
    (B + v) * d < B * B <= (B + v + 1) * d
  }

  /** mask & d, for a mask of equal bits. */
  function And(mask: limb, d: limb): limb
    requires mask == 0 || mask == B - 1
  {
    if mask == 0 then 0 else d
  }

  /** -d - 1 in the high limb, all ones in the low limb, divided by d. */
  function Udiv1normInit(d: limb): (v: limb)
    requires 2 * d >= B
    ensures IsInverse(v, d)
  {
    var a1 := (-(d as int) - 1) % B;
    InitBounds(d, a1);
    (a1 * B + (B - 1)) / d
  }

  lemma InitBounds(d: limb, a1: limb)
    requires 2 * d >= B && a1 == (-(d as int) - 1) % B
    ensures 0 <= (a1 * B + (B - 1)) / d < B
    ensures var v := (a1 * B + (B - 1)) / d; (B + v) * d < B * B <= (B + v + 1) * d
  {
    assert a1 == B - 1 - d by { ModUnique(-(d as int) - 1, B, -1, B - 1 - d); }
    var n := a1 * B + (B - 1);
    var v := n / d;
    DivMod(n, d);
    assert n == B * B - 1 - B * d;
    assert (B + v) * d == B * d + v * d && (B + v + 1) * d == B * d + v * d + d;
    MulMono(0, a1, B);
    if v >= B { MulMono(B, v, d); Twice(d); }
  }

  lemma Twice(d: int)
    requires 2 * d >= B
    ensures B * d + B * d >= B * B
  {
    assert B * (2 * d) >= B * B by { MulMono(B, 2 * d, B); }
  }

  /** How far the estimated quotient a1 + h is from the dividend, scaled by B. */
  lemma EstimateIdentity(a1: int, a0: int, d: int, v: int, n1: int, nadj: int, h: int, m: int)
    requires n1 == 0 || n1 == 1
    requires nadj == (if n1 == 0 then a0 else a0 + d - B)
    requires v * (a1 + n1) + nadj == h * B + m
    ensures B * (a1 * B + a0 - (a1 + h) * d)
         == (a1 + n1) * (B * B - (B + v) * d) + (B - d) * nadj + d * m
  {
    assert d * (v * (a1 + n1) + nadj) == d * (h * B + m);
    if n1 == 0 { Expand0(a1, a0, d, v, h, m); } else { Expand1(a1, a0, d, v, h, m); }
  }

  lemma Expand0(a1: int, a0: int, d: int, v: int, h: int, m: int)
    requires d * (v * a1 + a0) == d * (h * B + m)
    ensures B * (a1 * B + a0 - (a1 + h) * d) == a1 * (B * B - (B + v) * d) + (B - d) * a0 + d * m
  {
  }

  lemma Expand1(a1: int, a0: int, d: int, v: int, h: int, m: int)
    requires d * (v * (a1 + 1) + (a0 + d - B)) == d * (h * B + m)
    ensures B * (a1 * B + a0 - (a1 + h) * d)
         == (a1 + 1) * (B * B - (B + v) * d) + (B - d) * (a0 + d - B) + d * m
  {
  }

  /** The estimate is the quotient or one less. */
  lemma EstimateBounds(a1: limb, a0: limb, d: limb, v: limb, n1: int, nadj: int)
    requires 2 * d >= B && a1 < d && IsInverse(v, d)
    requires n1 == (if 2 * a0 >= B then 1 else 0)
    requires nadj == (if n1 == 0 then a0 else a0 + d - B)
    ensures 0 <= nadj < B && 0 <= v * (a1 + n1) + nadj < B * B
    ensures var q := a1 + (v * (a1 + n1) + nadj) / B;
            0 <= a1 * B + a0 - q * d < 2 * d && 0 <= q < B
  {
    var x := v * (a1 + n1) + nadj;
    MulAddFits(v, a1 + n1, nadj, 0);
    DoubleWord(x);
    var h, m := x / B, x % B;
    EstimateIdentity(a1, a0, d, v, n1, nadj, h, m);
    var k := B * B - (B + v) * d;
    assert 1 <= k <= d by { assert (B + v + 1) * d == (B + v) * d + d; }
    var rem := a1 * B + a0 - (a1 + h) * d;
    var t1, t2, t3 := (a1 + n1) * k, (B - d) * nadj, d * m;
    assert B * rem == t1 + t2 + t3;
    MulMono(0, a1 + n1, k); MulMono(0, nadj, B - d); MulMono(0, m, d);
    EstimateUpper(a1, a0, d, k, n1, nadj, m);
    ScaledBounds(rem, d, t1 + t2 + t3);
    QuotientFits(a1, a0, d, a1 + h);
  }

  lemma ScaledBounds(rem: int, d: int, t: int)
    requires B * rem == t && 0 <= t < 2 * (B * d)
    ensures 0 <= rem < 2 * d
  {
    if rem < 0 { MulMono(rem, -1, B); }
    if rem >= 2 * d { MulMono(2 * d, rem, B); }
  }

  lemma QuotientFits(a1: limb, a0: limb, d: limb, q: int)
    requires a1 < d && a1 * B + a0 - q * d >= 0
    ensures q < B
  {
    if q >= B { MulMono(B, q, d); MulMono(a1 + 1, d, B); }
  }

  lemma EstimateUpper(a1: limb, a0: limb, d: limb, k: int, n1: int, nadj: int, m: int)
    requires 2 * d >= B && a1 < d && 0 <= k <= d && 0 <= m < B
    requires n1 == (if 2 * a0 >= B then 1 else 0)
    requires nadj == (if n1 == 0 then a0 else a0 + d - B)
    ensures (a1 + n1) * k + (B - d) * nadj + d * m < 2 * (B * d)
  {
    MulMono(a1 + n1, d - 1 + n1, k);
    MulMono(k, d, d - 1 + n1);
    MulMono(m, B - 1, d);
    if n1 == 0 {
      MulMono(2 * a0, B - 1, B - d);
      UpperLow(d);
    } else {
      MulMono(nadj, d - 1, B - d);
      UpperHigh(d);
    }
    assert d * m <= d * (B - 1);
  }

  lemma UpperLow(d: limb)
    requires 2 * d >= B
    ensures 2 * (d * (d - 1)) + (B - d) * (B - 1) + 2 * (d * (B - 1)) < 4 * (B * d)
  {
    assert (B - d) * (2 * d - B) >= 0 by { MulMono(0, 2 * d - B, B - d); }
  }

  lemma UpperHigh(d: limb)
    ensures d * d + (B - d) * (d - 1) + d * (B - 1) < 2 * (B * d)
  {
  }

  /** The estimate is the quotient or one less (lines 1229-1232). */
  method UdivEstimate(a1: limb, a0: limb, d: limb, dInv: limb) returns (q: limb)
    requires 2 * d >= B && a1 < d && IsInverse(dInv, d)
    ensures 0 <= a1 * B + a0 - q * d < 2 * d
  {
    var n1m: limb := if 2 * a0 >= B then B - 1 else 0;
    var nAdj: limb := (a0 + And(n1m, d)) % B;
    ghost var n1 := if 2 * a0 >= B then 1 else 0;
    EstimateBounds(a1, a0, d, dInv, n1, if n1 == 0 then a0 else a0 + d - B);
    WrapHigh(a0, d, a1, n1m, nAdj, n1);
    var a: int := dInv * ((a1 - n1m) % B) + nAdj;
    q := (a / B + a1) % B;
  }

  /** Quotient and remainder of the double word a1 * B + a0 by d. */
  method Udiv1norm(a1: limb, a0: limb, d: limb, dInv: limb) returns (q: limb, r: limb)
    requires 2 * d >= B && a1 < d && IsInverse(dInv, d)
    ensures a1 * B + a0 == q * d + r && r < d
  {
    q := UdivEstimate(a1, a0, d, dInv);
    ghost var qe: int := q;
    var rest := a1 * B + a0 - q * d - d;
    if rest >= 0 { QuotientFits(a1, a0, d, qe + 1); }
    DoubleFits(d, rest);
    var a := rest % (B * B);
    var ah := a / B;
    q := (q + 1 + ah) % B;
    r := (a % B + And(ah, d)) % B;
    FinalStep(rest, d, qe, q, r);
  }

  lemma WrapHigh(a0: limb, d: limb, a1: limb, n1m: limb, nAdj: limb, n1: int)
    requires 2 * d >= B && a1 < d
    requires n1m == (if 2 * a0 >= B then B - 1 else 0) && n1 == (if 2 * a0 >= B then 1 else 0)
    requires nAdj == (a0 + And(n1m, d)) % B
    ensures nAdj == (if n1 == 0 then a0 else a0 + d - B)
    ensures (a1 - n1m) % B == a1 + n1
  {
    if n1 == 1 {
      ModUnique(a0 + d, B, 1, a0 + d - B);
      ModUnique(a1 - n1m, B, -1, a1 + 1);
    }
  }

  /** The 128-bit difference is the remainder minus d, so its high limb is 0 or all ones. */
  lemma DoubleFits(d: int, rest: int)
    requires -d <= rest < d < B
    ensures var a := rest % (B * B);
            a / B == (if rest < 0 then B - 1 else 0) && a % B == (if rest < 0 then rest + B else rest)
  {
    if rest < 0 {
      ModUnique(rest, B * B, -1, rest + B * B);
      ModUnique(rest + B * B, B, B - 1, rest + B);
    } else {
      ModUnique(rest, B * B, 0, rest);
      ModUnique(rest, B, 0, rest);
    }
  }

  lemma FinalStep(rest: int, d: int, qe: int, q: limb, r: limb)
    requires -d <= rest < d < B && 0 <= qe < B
    requires rest >= 0 ==> qe + 1 < B
    requires q == (qe + 1 + (if rest < 0 then B - 1 else 0)) % B
    requires r == ((if rest < 0 then rest + B else rest) + (if rest < 0 then d else 0)) % B
    ensures r < d
    ensures rest + d + qe * d == q * d + r
  {
    if rest < 0 {
      ModUnique(qe + B, B, 1, qe);
      ModUnique(rest + B + d, B, 1, rest + d);
    } else {
      ModUnique(qe + 1, B, 0, qe + 1);
    }
  }

  /** Divides n limbs, preceded by the remainder r0, by one limb; both loops of the source. */
  method MpDiv1norm(tabr: array<limb>, ro: nat, taba: array<limb>, ao: nat, n: nat, b: limb, r0: limb) returns (r: limb)
    requires ro + n <= tabr.Length && ao + n <= taba.Length
    requires tabr != taba || ro >= ao || ro + n <= ao
    requires 2 * b >= B && r0 < b
    modifies tabr
    ensures r < b
    ensures old(V(taba, ao, n)) + r0 * BP(n) == V(tabr, ro, n) * b + r
    ensures forall j :: 0 <= j < tabr.Length && !(ro <= j < ro + n) ==> tabr[j] == old(tabr[j])
  {
    hide Val, BP;
    ghost var s := taba[ao..ao + n];
    ghost var qs: seq<limb> := [];
    ValEmpty(s);
    assert s[n..] == [];
    r := r0;
    var bInv: limb := 0;
    if n >= 3 { bInv := Udiv1normInit(b); }
    var i := n;
    while i > 0
      invariant 0 <= i <= n && |qs| == n - i && r < b
      invariant forall j :: ao <= j < ao + i ==> taba[j] == s[j - ao]
      invariant forall j :: 0 <= j < tabr.Length && !(ro + i <= j < ro + n) ==> tabr[j] == old(tabr[j])
      invariant forall j :: ro + i <= j < ro + n ==> tabr[j] == qs[j - ro - i]
      invariant Val(s[i..]) + r0 * BP(n - i) == Val(qs) * b + r
    {
      i := i - 1;
      var a0 := taba[ao + i];
      var q, r' := DivWord(n, r, a0, b, bInv);
      DivStep(s, i, qs, a0, r0, r, q, r', b, BP(n - i - 1));
      BPStep(n - i - 1);
      tabr[ro + i] := q;
      qs, r := [q] + qs, r';
    }
    assert s[0..] == s && tabr[ro..ro + n] == qs;
  }

  /** One quotient limb: by the inverse from three limbs on, by plain division below. */
  method DivWord(n: nat, r: limb, a0: limb, b: limb, bInv: limb) returns (q: limb, r': limb)
    requires 2 * b >= B && r < b
    requires n >= 3 ==> IsInverse(bInv, b)
    ensures r * B + a0 == q * b + r' && r' < b
  {
    if n >= 3 {
      q, r' := Udiv1norm(r, a0, b, bInv);
    } else {
      var a1 := r * B + a0;
      PlainFits(r, a0, b);
      q, r' := a1 / b, a1 % b;
    }
  }

  lemma PlainFits(r: limb, a0: limb, b: limb)
    requires r < b
    ensures var a1 := r * B + a0; a1 == (a1 / b) * b + a1 % b && 0 <= a1 / b < B && 0 <= a1 % b < b
  {
    DivMod(r * B + a0, b);
    QuotientFits(r, a0, b, (r * B + a0) / b);
  }

  lemma DivStep(s: seq<limb>, i: nat, qs: seq<limb>, a0: limb, r0: int, r: int, q: limb, r': int, b: int, w: int)
    requires i < |s| && a0 == s[i]
    requires Val(s[i + 1..]) + r0 * w == Val(qs) * b + r
    requires r * B + a0 == q * b + r'
    ensures Val(s[i..]) + r0 * (B * w) == Val([q] + qs) * b + r'
  {
    hide Val;
    ValHead([q] + qs); ValHead(s[i..]);
    assert ([q] + qs)[1..] == qs && s[i..][1..] == s[i + 1..];
    DivScale(Val(s[i + 1..]), r0, w, Val(qs), b, r, q, a0, r');
  }

  lemma DivScale(v: int, r0: int, w: int, qv: int, b: int, r: int, q: int, a0: int, r': int)
    requires v + r0 * w == qv * b + r && r * B + a0 == q * b + r'
    ensures a0 + B * v + r0 * (B * w) == (q + B * qv) * b + r'
  {
    assert B * (v + r0 * w) == B * (qv * b + r);
    assert B * (r0 * w) == r0 * (B * w);
    assert (B * qv) * b == B * (qv * b);
  }
}
