/** Newton reciprocal, division by it, and the division that chooses between the two forms. */
module Recip {
  import opened Limbs
  import opened LimbOps
  import opened LimbMul
  import opened Divnorm
  import opened RecipMath

  // ---- pieces of the reciprocal -----------------------------------------

  lemma TopZero(a: array<limb>, lo: nat, n: nat)
    requires lo + n < a.Length
    ensures a[lo + n] == 0 <==> V(a, lo, n + 1) < BP(n)
    ensures V(a, lo, n + 1) < BP(n) ==> V(a, lo, n) == V(a, lo, n + 1)
  {
    hide Val, BP, V;
    VSnoc(a, lo, n); VBound(a, lo, n);
    if a[lo + n] >= 1 { MulMono(1, a[lo + n], BP(n)); }
  }

  lemma TopOne(a: array<limb>, lo: nat, n: nat)
    requires lo + n < a.Length && BP(n) <= V(a, lo, n + 1) < 2 * BP(n)
    ensures a[lo + n] == 1 && V(a, lo, n) == V(a, lo, n + 1) - BP(n)
  {
    hide Val, BP, V;
    VSnoc(a, lo, n); VBound(a, lo, n);
    if a[lo + n] >= 2 { MulMono(2, a[lo + n], BP(n)); }
    if a[lo + n] == 0 { }
  }

  /** Subtracts one from the estimate and the number from the product. */
  method DecrementOnce(tabx: array<limb>, xo: nat, h: nat, tabt: array<limb>, taba: array<limb>, ao: nat, n: nat)
    requires xo + h < tabx.Length && n + h < tabt.Length && ao + n <= taba.Length
    requires tabx != tabt && tabx != taba && tabt != taba
    requires V(tabt, 0, n + h + 1) >= V(taba, ao, n) && V(tabx, xo, h + 1) >= 1
    modifies tabx, tabt
    ensures V(tabx, xo, h + 1) == old(V(tabx, xo, h + 1)) - 1
    ensures V(tabt, 0, n + h + 1) == old(V(tabt, 0, n + h + 1)) - V(taba, ao, n)
    ensures forall j :: 0 <= j < tabx.Length && !(xo <= j <= xo + h) ==> tabx[j] == old(tabx[j])
  {
    hide Val, BP;
    var k := MpSubUi(tabx, xo, 1, h + 1);
    VBound(tabx, xo, h + 1);
    BorrowFree(V(tabx, xo, h + 1), k, BP(h + 1));
    VSplit(tabt, 0, n, h + 1);
    ghost var high := tabt[n..n + h + 1];
    var c := MpSub(tabt, 0, tabt, 0, taba, ao, n, 0);
    assert tabt[n..n + h + 1] == high;
    ghost var low := tabt[0..n];
    var k2 := MpSubUi(tabt, n, c, h + 1);
    assert tabt[0..n] == low;
    VSplit(tabt, 0, n, h + 1); BPAdd(n, h + 1);
    VBound(tabt, 0, n + h + 1);
    Ripple(V(tabt, 0, n), V(tabt, n, h + 1), c, k2, BP(n), BP(h + 1));
    BorrowFree(V(tabt, 0, n + h + 1), k2, BP(n + h + 1));
  }

  lemma Ripple(low: int, high: int, c: int, k: int, p: int, q: int)
    ensures (low - c * p) + p * (high - k * q + c) == low + p * high - k * (p * q)
  {
  }

  lemma BorrowFree(v: int, k: int, p: int)
    requires 0 <= k <= 1 && 0 <= v < p && v - k * p >= 0
    ensures k == 0 && v - k * p == v
  {
  }

  /** Lowers the estimate until its product with the number stays below B^(n + h). */
  method CorrectEstimate(tabx: array<limb>, xo: nat, h: nat, tabt: array<limb>, taba: array<limb>, ao: nat, n: nat)
    requires xo + h < tabx.Length && n + h < tabt.Length && ao + n <= taba.Length
    requires tabx != tabt && tabx != taba && tabt != taba
    requires V(tabt, 0, n + h + 1) == V(taba, ao, n) * V(tabx, xo, h + 1) && V(taba, ao, n) > 0
    requires BP(n + h) < V(taba, ao, n) * (V(tabx, xo, h + 1) + 2) && BP(h) <= V(tabx, xo, h + 1)
    modifies tabx, tabt
    ensures V(tabt, 0, n + h + 1) == V(taba, ao, n) * V(tabx, xo, h + 1) < BP(n + h)
    ensures BP(n + h) < V(taba, ao, n) * (V(tabx, xo, h + 1) + 2) && BP(h) <= V(tabx, xo, h + 1)
    ensures V(tabx, xo, h + 1) <= old(V(tabx, xo, h + 1))
    ensures forall j :: 0 <= j < tabx.Length && !(xo <= j <= xo + h) ==> tabx[j] == old(tabx[j])
  {
    hide Val, BP;
    ghost var a := V(taba, ao, n);
    VBound(taba, ao, n); BPAdd(n, h);
    TopZero(tabt, 0, n + h);
    while tabt[n + h] != 0
      invariant V(taba, ao, n) == a
      invariant V(tabt, 0, n + h + 1) == a * V(tabx, xo, h + 1)
      invariant BP(n + h) < a * (V(tabx, xo, h + 1) + 2) && BP(h) <= V(tabx, xo, h + 1)
      invariant V(tabx, xo, h + 1) <= old(V(tabx, xo, h + 1))
      invariant tabt[n + h] == 0 <==> V(tabt, 0, n + h + 1) < BP(n + h)
      invariant forall j :: 0 <= j < tabx.Length && !(xo <= j <= xo + h) ==> tabx[j] == old(tabx[j])
      decreases V(tabx, xo, h + 1)
    {
      ghost var xh := V(tabx, xo, h + 1);
      RecipDecrement(a, xh, BP(n + h), BP(n), BP(h));
      MulMono(1, xh, a);
      DecrementOnce(tabx, xo, h, tabt, taba, ao, n);
      TopZero(tabt, 0, n + h);
    }
  }

  /** T = B^m - T, for a T of m + 1 limbs below B^m. */
  method Complement(tabt: array<limb>, m: nat)
    requires m < tabt.Length && 1 <= V(tabt, 0, m + 1) < BP(m)
    modifies tabt
    ensures V(tabt, 0, m + 1) == BP(m) - old(V(tabt, 0, m + 1))
  {
    hide Val, BP;
    ghost var t := V(tabt, 0, m + 1);
    var k := MpNeg(tabt, 0, tabt, 0, m + 1, 0);
    VBound(tabt, 0, m + 1); BPStep(m);
    VSnoc(tabt, 0, m); VBound(tabt, 0, m);
    NegatedTop(V(tabt, 0, m), tabt[m], k, t, BP(m));
    ghost var low := tabt[0..m];
    tabt[m] := (tabt[m] + 1) % B;
    assert tabt[0..m] == low;
    VSnoc(tabt, 0, m);
  }

  lemma NegatedTop(low: int, top: limb, k: int, t: int, p: int)
    requires 0 <= low < p && 1 <= t < p && 0 <= k <= 1 && low + top * p - k * (B * p) == -t
    ensures top == B - 1 && low == p - t
  {
    if k == 0 { MulMono(0, top, p); }
    assert low + top * p == (p - t) + (B - 1) * p;
    DigitsUnique(low, top, p - t, B - 1, p);
  }

  // ---- reading the product back -----------------------------------------

  /** The result is xh shifted by l limbs plus the high part of U; no carry leaves its h middle limbs. */
  method Assemble(tabr: array<limb>, ro: nat, l: nat, h: nat, tabu: array<limb>, ghost x: int)
    requires ro + l + h < tabr.Length && 3 * h + 2 <= tabu.Length && tabr != tabu && l < h
    requires BP(h) <= V(tabr, ro + l, h + 1) < 2 * BP(h)
    requires x == V(tabr, ro + l, h + 1) * BP(l) + V(tabu, 2 * h - l, l + h + 2) < 2 * BP(l + h)
    modifies tabr
    ensures V(tabr, ro, l + h + 1) == x
    ensures forall j :: 0 <= j < tabr.Length && !(ro <= j <= ro + l + h) ==> tabr[j] == old(tabr[j])
  {
    hide Val, BP;
    ghost var xs := tabr[ro + l..ro + l + h + 1];
    CopyLimbs(tabr, ro, tabu, 2 * h - l, l);
    assert tabr[ro + l..ro + l + h + 1] == xs;
    ghost var lows := tabr[ro..ro + l];
    TopOne(tabr, ro + l, h);
    ghost var xlow, u0 := V(tabr, ro + l, h), V(tabr, ro, l);
    UpperLimbs(tabu, 2 * h - l, l, h, V(tabr, ro + l, h), x);
    var c := MpAdd(tabr, ro + l, tabr, ro + l, tabu, 2 * h, h, 0);
    assert tabr[ro..ro + l] == lows;
    VBound(tabr, ro + l, h);
    NoCarry(V(tabr, ro + l, h), c, BP(h));
    VSnoc(tabr, ro + l, h);
    VSplit(tabr, ro, l, h + 1);
    AssembleScale(BP(l), BP(h), xlow, V(tabu, 2 * h, h), u0);
  }

  lemma NoCarry(v: int, c: int, p: int)
    requires 0 <= v && 0 <= c <= 1 && v + c * p < p
    ensures c == 0 && v + c * p == v
  {
  }

  lemma AssembleScale(l: int, hp: int, xlow: int, u1: int, u0: int)
    ensures u0 + l * (xlow + u1 + 1 * hp) == (xlow + hp) * l + (u0 + l * u1)
  {
  }

  /** The limbs of U above the h added ones are zero, and the sum of the middle limbs fits. */
  lemma UpperLimbs(tabu: array<limb>, k: nat, l: nat, h: nat, xlow: int, x: int)
    requires k + l + h + 2 <= tabu.Length && 0 <= xlow
    requires x == (xlow + BP(h)) * BP(l) + V(tabu, k, l + h + 2) < 2 * BP(l + h)
    ensures V(tabu, k, l + h + 2) == V(tabu, k, l) + BP(l) * V(tabu, k + l, h)
    ensures 0 <= V(tabu, k + l, h) && xlow + V(tabu, k + l, h) < BP(h)
  {
    hide Val, BP, V;
    VSplit(tabu, k, l, h + 2); BPAdd(l, h); VBound(tabu, k, l); VBound(tabu, k + l, h + 2);
    var u0, u1 := V(tabu, k, l), V(tabu, k + l, h + 2);
    UpperScale(BP(l), BP(h), xlow, u0, u1, x);
    TopZero(tabu, k + l, h + 1); TopZero(tabu, k + l, h);
    BPStep(h);
    MulMono(1, B, BP(h));
    VBound(tabu, k + l, h);
  }

  lemma UpperScale(l: int, hp: int, xlow: int, u0: int, u1: int, x: int)
    requires l > 0 && 0 <= u0 && x == (xlow + hp) * l + (u0 + l * u1) < 2 * (l * hp)
    ensures xlow + u1 < hp
  {
    if xlow + u1 >= hp { MulMono(hp, xlow + u1, l); }
  }

  method CopyLimbs(dst: array<limb>, d: nat, src: array<limb>, s: nat, n: nat)
    requires d + n <= dst.Length && s + n <= src.Length && dst != src
    modifies dst
    ensures V(dst, d, n) == V(src, s, n)
    ensures forall j :: 0 <= j < dst.Length && !(d <= j < d + n) ==> dst[j] == old(dst[j])
  {
    hide Val;
    var i := 0;
    while i < n
      invariant 0 <= i <= n
      invariant forall j :: d <= j < d + i ==> dst[j] == src[j - d + s]
      invariant forall j :: 0 <= j < dst.Length && !(d <= j < d + n) ==> dst[j] == old(dst[j])
    {
      dst[d + i] := src[s + i];
      i := i + 1;
    }
    assert dst[d..d + n] == src[s..s + n];
  }

  // ---- the recursive operations -----------------------------------------

  /** a * r < B^(2n) < a * (r + 2), and r is n + 1 limbs with leading limb 1. */
  method MpRecip(tabr: array<limb>, ro: nat, taba: array<limb>, ao: nat, n: nat)
    requires n >= 1 && ro + n < tabr.Length && ao + n <= taba.Length && tabr != taba
    requires 2 * taba[ao + n - 1] >= B
    modifies tabr
    ensures IsRecip(V(taba, ao, n), V(tabr, ro, n + 1), BP(2 * n))
    ensures tabr[ro + n] == 1 && BP(n) <= V(tabr, ro, n + 1) < 2 * BP(n)
    ensures forall j :: 0 <= j < tabr.Length && !(ro <= j <= ro + n) ==> tabr[j] == old(tabr[j])
    decreases n, 3
  {
    hide Val, BP;
    if n <= 2 {
      MpRecipBase(tabr, ro, taba, ao, n);
    } else {
      var l := (n - 1) / 2;
      var h := n - l;
      MpRecip(tabr, ro + l, taba, ao + l, h);
      NewtonIteration(tabr, ro, taba, ao, n, l, h);
    }
    RecipLeading(tabr, ro, taba, ao, n);
  }

  lemma RecipLeading(tabr: array<limb>, ro: nat, taba: array<limb>, ao: nat, n: nat)
    requires n >= 1 && ro + n < tabr.Length && ao + n <= taba.Length
    requires 2 * taba[ao + n - 1] >= B
    requires IsRecip(V(taba, ao, n), V(tabr, ro, n + 1), BP(2 * n))
    ensures tabr[ro + n] == 1 && BP(n) <= V(tabr, ro, n + 1) < 2 * BP(n)
  {
    hide Val, BP, V;
    DivisorBig(taba, ao, n); VBound(taba, ao, n); BPAdd(n, n);
    RecipRange(V(taba, ao, n), V(tabr, ro, n + 1), BP(n));
    TopOne(tabr, ro, n);
  }

  /** One or two limbs: ceil(B^(2n) / a) - 1 by division. */
  method MpRecipBase(tabr: array<limb>, ro: nat, taba: array<limb>, ao: nat, n: nat)
    requires 1 <= n <= 2 && ro + n < tabr.Length && ao + n <= taba.Length && tabr != taba
    requires 2 * taba[ao + n - 1] >= B
    modifies tabr
    ensures IsRecip(V(taba, ao, n), V(tabr, ro, n + 1), BP(2 * n))
    ensures forall j :: 0 <= j < tabr.Length && !(ro <= j <= ro + n) ==> tabr[j] == old(tabr[j])
    decreases n, 2
  {
    hide Val, BP;
    var tabu := PowerOfB(2 * n);
    var tabt := new limb[n + 2];
    ghost var a := V(taba, ao, n);
    MpDivnorm(tabt, 0, tabu, 0, 2 * n + 1, taba, ao, n);
    ghost var q, rem := V(tabt, 0, n + 2), V(tabu, 0, n);
    DivisorBig(taba, ao, n); BPAdd(n, n); BPStep(n); VBound(taba, ao, n);
    BaseQuotient(q, a, rem, BP(n));
    TopZero(tabt, 0, n + 1);
    CopyLimbs(tabr, ro, tabt, 0, n + 1);
    var nz := MpScanNz(tabu, 0, n);
    if !nz {
      BaseExact(q, a, BP(n));
      var k := MpSubUi(tabr, ro, 1, n + 1);
      VBound(tabr, ro, n + 1);
      BorrowFree(V(tabr, ro, n + 1), k, BP(n + 1));
    }
    RecipBase(a, q, rem, V(tabr, ro, n + 1), BP(2 * n));
  }

  lemma BaseQuotient(q: int, a: int, rem: int, p: int)
    requires p * p == q * a + rem && 0 <= rem && 2 * a >= p > 0
    ensures q < B * p
  {
    MulMono(p, 2 * a, p);
    assert (B * p) * a == B * (p * a) && (2 * a) * p == 2 * (p * a);
    PositiveProduct(p, a);
    MulMono(3, B, p * a);
    if q >= B * p { MulMono(B * p, q, a); }
  }

  lemma BaseExact(q: int, a: int, p: int)
    requires p * p == q * a && a > 0 && p > 0
    ensures q >= 1
  {
    PositiveProduct(p, p);
    if q <= 0 { MulMono(q, 0, a); }
  }

  /** An array holding B^m. */
  method PowerOfB(m: nat) returns (tab: array<limb>)
    ensures fresh(tab) && tab.Length == m + 1 && V(tab, 0, m + 1) == BP(m)
  {
    hide Val, BP;
    tab := new limb[m + 1];
    var i := 0;
    while i < m
      invariant 0 <= i <= m && forall j :: 0 <= j < i ==> tab[j] == 0
    {
      tab[i] := 0;
      i := i + 1;
    }
    tab[m] := 1;
    VSnoc(tab, 0, m);
    ValZero(tab[0..m]);
  }

  /** From the reciprocal of the h leading limbs, left at tabr + l, to that of all n. */
  method NewtonIteration(tabr: array<limb>, ro: nat, taba: array<limb>, ao: nat, n: nat, l: nat, h: nat)
    requires n >= 3 && l == (n - 1) / 2 && h == n - l
    requires ro + n < tabr.Length && ao + n <= taba.Length && tabr != taba
    requires 2 * taba[ao + n - 1] >= B
    requires IsRecip(V(taba, ao + l, h), V(tabr, ro + l, h + 1), BP(2 * h))
    requires BP(h) <= V(tabr, ro + l, h + 1) < 2 * BP(h)
    modifies tabr
    ensures IsRecip(V(taba, ao, n), V(tabr, ro, n + 1), BP(2 * n))
    ensures forall j :: 0 <= j < tabr.Length && !(ro <= j <= ro + n) ==> tabr[j] == old(tabr[j])
  {
    hide Val, BP;
    var tabt := new limb[n + h + 1];
    var tabu := new limb[n + 2 * h - l + 2];
    ghost var a := V(taba, ao, n);
    MpMul(tabt, 0, taba, ao, n, tabr, ro + l, h + 1);
    NewtonSetup(taba, ao, n, l, h, V(tabr, ro + l, h + 1));
    CorrectEstimate(tabr, ro + l, h, tabt, taba, ao, n);
    ghost var xh := V(tabr, ro + l, h + 1);
    MulMono(1, xh, a);
    Complement(tabt, n + h);
    MpMul(tabu, 0, tabt, l, n + h + 1 - l, tabr, ro + l, h + 1);
    ghost var x := xh * BP(l) + V(tabu, 2 * h - l, l + h + 2);
    NewtonResult(taba, ao, n, l, h, tabt, tabu, xh);
    Assemble(tabr, ro, l, h, tabu, x);
  }

  lemma NewtonSetup(taba: array<limb>, ao: nat, n: nat, l: nat, h: nat, xh: int)
    requires n >= 3 && l == (n - 1) / 2 && h == n - l && ao + n <= taba.Length
    requires 2 * taba[ao + n - 1] >= B
    requires IsRecip(V(taba, ao + l, h), xh, BP(2 * h)) && xh >= BP(h)
    ensures V(taba, ao, n) > 0 && BP(n + h) < V(taba, ao, n) * (xh + 2)
  {
    hide Val, BP, V;
    VSplit(taba, ao, l, h); VBound(taba, ao, l);
    DivisorBig(taba, ao, n);
    BPAdd(l, 2 * h);
    RecipHigh(V(taba, ao, n), V(taba, ao, l), V(taba, ao + l, h), BP(l), xh, BP(2 * h));
  }

  lemma NewtonResult(taba: array<limb>, ao: nat, n: nat, l: nat, h: nat, tabt: array<limb>, tabu: array<limb>, xh: int)
    requires n >= 3 && l == (n - 1) / 2 && h == n - l && ao + n <= taba.Length
    requires 2 * taba[ao + n - 1] >= B
    requires n + h + 1 <= tabt.Length && n + 2 * h - l + 2 <= tabu.Length
    requires V(tabt, 0, n + h + 1) == BP(n + h) - V(taba, ao, n) * xh
    requires 1 <= V(tabt, 0, n + h + 1) && BP(n + h) < V(taba, ao, n) * (xh + 2)
    requires V(tabu, 0, n + 2 * h - l + 2) == V(tabt, l, n + h + 1 - l) * xh
    ensures IsRecip(V(taba, ao, n), xh * BP(l) + V(tabu, 2 * h - l, l + h + 2), BP(2 * n))
    ensures xh * BP(l) + V(tabu, 2 * h - l, l + h + 2) < 2 * BP(n)
  {
    hide Val, BP, V;
    var k := 2 * h - l;
    var a, t := V(taba, ao, n), V(tabt, 0, n + h + 1);
    VSplit(tabt, 0, l, n + h + 1 - l); VBound(tabt, 0, l); VBound(tabt, l, n + h + 1 - l);
    VSplit(tabu, 0, k, l + h + 2); VBound(tabu, 0, k);
    BPAdd(l, k); BPAdd(l, 2 * h); BPAdd(n + h, l);
    DivisorBig(taba, ao, n); VBound(taba, ao, n); BPAdd(l, h); BPAdd(n, n);
    NewtonSizes(l, h, n);
    assert a * (xh + 2) == a * xh + 2 * a;
    assert V(tabu, 0, k) + BP(k) * V(tabu, k, l + h + 2) == V(tabu, k, l + h + 2) * BP(k) + V(tabu, 0, k);
    NewtonStep(a, xh, BP(l), BP(h), BP(k), t, V(tabt, l, n + h + 1 - l), V(tabt, 0, l), V(tabu, k, l + h + 2),
               V(tabu, 0, k));
    RecipRange(a, xh * BP(l) + V(tabu, k, l + h + 2), BP(n));
  }

  lemma NewtonSizes(l: nat, h: nat, n: nat)
    requires n >= 3 && l == (n - 1) / 2 && h == n - l
    ensures B * (BP(l) * BP(l)) <= BP(n) && B * BP(h) <= BP(2 * h - l)
  {
    hide BP;
    BPAdd(l, l); BPMono(2 * l, n); BPMono(h, 2 * h - l);
  }

  /** Division of limb arrays: by the schoolbook, or by a reciprocal when both operands are long. */
  method MpDivnorm(tabq: array<limb>, qo: nat, taba: array<limb>, ao: nat, na: nat, tabb: array<limb>, bo: nat, nb: nat)
    requires 1 <= nb <= na && qo + na - nb < tabq.Length && ao + na <= taba.Length && bo + nb <= tabb.Length
    requires tabq != taba && tabq != tabb && taba != tabb
    requires 2 * tabb[bo + nb - 1] >= B
    modifies tabq, taba
    ensures Divided(old(V(taba, ao, na)), V(tabq, qo, na - nb + 1), V(tabb, bo, nb), V(taba, ao, nb))
    ensures tabq[qo + na - nb] <= 1
    ensures forall j :: 0 <= j < tabq.Length && !(qo <= j <= qo + na - nb) ==> tabq[j] == old(tabq[j])
    ensures forall j :: 0 <= j < taba.Length && !(ao <= j < ao + na) ==> taba[j] == old(taba[j])
    decreases if nb >= 50 && na - nb >= 50 then na else 0, 1
  {
    hide Val, BP, V;
    if nb >= 50 && na - nb >= 50 {
      MpDivnormLarge(tabq, qo, taba, ao, na, tabb, bo, nb);
    } else {
      MpDivnormSchool(tabq, qo, taba, ao, na, tabb, bo, nb);
    }
  }

  method MpDivnormLarge(tabq: array<limb>, qo: nat, taba: array<limb>, ao: nat, na: nat, tabb: array<limb>, bo: nat,
                        nb: nat)
    requires 1 <= nb < na && qo + na - nb < tabq.Length && ao + na <= taba.Length && bo + nb <= tabb.Length
    requires tabq != taba && tabq != tabb && taba != tabb
    requires 2 * tabb[bo + nb - 1] >= B
    modifies tabq, taba
    ensures Divided(old(V(taba, ao, na)), V(tabq, qo, na - nb + 1), V(tabb, bo, nb), V(taba, ao, nb))
    ensures tabq[qo + na - nb] <= 1
    ensures forall j :: 0 <= j < tabq.Length && !(qo <= j <= qo + na - nb) ==> tabq[j] == old(tabq[j])
    ensures forall j :: 0 <= j < taba.Length && !(ao <= j < ao + na) ==> taba[j] == old(taba[j])
    decreases na, 0
  {
    hide Val, BP;
    ghost var a := V(taba, ao, na);
    VBound(taba, ao, na); DivisorBig(tabb, bo, nb);
    var nq := na - nb;
    var n := if nq < nb then nq + 1 else nq;
    var inv := DivisorReciprocal(tabb, bo, nb, n, nq, a);
    var tabt := new limb[2 * (n + 1)];
    MpMul(tabt, 0, inv, 0, n + 1, taba, ao + na - (n + 1), n + 1);
    CopyLimbs(tabq, qo, tabt, 2 * (n + 1) - (nq + 1), nq + 1);
    LargeEstimate(taba, ao, na, tabb, bo, nb, n, inv, tabt, a);
    SubtractProduct(tabq, qo, taba, ao, na, tabb, bo, nb, a);
    CorrectQuotient(tabq, qo, taba, ao, tabb, bo, nb, nq, a);
    VBound(taba, ao, nb);
    QuotientTop(tabq, qo, nq, a, V(tabb, bo, nb), nb, V(taba, ao, nb));
  }

  /** What the reciprocal must satisfy for the estimated quotient to be close and not above. */
  ghost predicate InverseFits(a: int, b: int, inv: int, m: int) {
    0 <= inv && b * inv <= m && a * (m - b * inv) <= 3 * (m * b)
  }

  /** The reciprocal of the divisor, or of its high part rounded up, to n limbs. */
  method DivisorReciprocal(tabb: array<limb>, bo: nat, nb: nat, n: nat, nq: nat, ghost a: int)
    returns (inv: array<limb>)
    requires nb >= 1 && nq >= 1 && bo + nb <= tabb.Length && n == (if nq < nb then nq + 1 else nq)
    requires 2 * tabb[bo + nb - 1] >= B
    requires 0 <= a < BP(nq + nb)
    ensures fresh(inv) && inv.Length == n + 1
    ensures InverseFits(a, V(tabb, bo, nb), V(inv, 0, n + 1), BP(n + nb))
    decreases n, 4
  {
    hide Val, BP;
    var tabt := new limb[2 * (n + 1)];
    inv := new limb[n + 1];
    if n >= nb {
      PadDivisor(tabt, tabb, bo, nb, n);
      assert tabt[n - 1] == tabb[bo + nb - 1];
      MpRecip(inv, 0, tabt, 0, n);
      BPMono(nq + nb, n + nb); BPAdd(n + nb, n - nb);
      VBound(inv, 0, n + 1); DivisorBig(tabb, bo, nb);
      ExactDivisor(a, V(tabb, bo, nb), V(inv, 0, n + 1), BP(n - nb), BP(n + nb));
    } else {
      CopyLimbs(tabt, 0, tabb, bo + nb - n, n);
      ghost var hb := V(tabt, 0, n);
      assert V(tabb, bo + nb - n, n) == hb;
      var c := MpAddUi(tabt, 0, 1, n);
      RoundedUp(tabt, n, tabb, bo, nb, hb, c);
      if c != 0 {
        inv := PowerOfB(n);
      } else {
        MpRecip(inv, 0, tabt, 0, n);
      }
      TruncatedFits(tabb, bo, nb, n, nq, a, hb, V(inv, 0, n + 1));
    }
  }

  /** The high part of the divisor plus one keeps its leading bit, unless it becomes B^n. */
  lemma RoundedUp(tabt: array<limb>, n: nat, tabb: array<limb>, bo: nat, nb: nat, hb: int, c: limb)
    requires 1 <= n < nb && n <= tabt.Length && bo + nb <= tabb.Length && 2 * tabb[bo + nb - 1] >= B
    requires hb == V(tabb, bo + nb - n, n) && c <= 1 && V(tabt, 0, n) + c * BP(n) == hb + 1
    ensures c == 0 ==> 2 * tabt[n - 1] >= B && V(tabt, 0, n) == hb + 1
    ensures c == 1 ==> hb + 1 == BP(n)
  {
    hide Val, BP, V;
    VBound(tabt, 0, n); VBound(tabb, bo + nb - n, n);
    if c == 0 {
      VSnoc(tabt, 0, n - 1); VSnoc(tabb, bo + nb - n, n - 1);
      VBound(tabt, 0, n - 1); VBound(tabb, bo + nb - n, n - 1);
      if tabt[n - 1] < tabb[bo + nb - 1] { MulMono(tabt[n - 1] + 1, tabb[bo + nb - 1], BP(n - 1)); }
    }
  }

  lemma TruncatedFits(tabb: array<limb>, bo: nat, nb: nat, n: nat, nq: nat, a: int, hb: int, inv: int)
    requires 1 <= n < nb && n == nq + 1 && bo + nb <= tabb.Length && 2 * tabb[bo + nb - 1] >= B
    requires 0 <= a < BP(nq + nb) && hb == V(tabb, bo + nb - n, n)
    requires (hb + 1 == BP(n) && inv == BP(n)) || (IsRecip(hb + 1, inv, BP(2 * n)) && 0 <= inv < 2 * BP(n))
    ensures InverseFits(a, V(tabb, bo, nb), inv, BP(n + nb))
  {
    hide Val, BP, V;
    var z, b := BP(nb - n), V(tabb, bo, nb);
    VSplit(tabb, bo, nb - n, n); VBound(tabb, bo, nb - n); DivisorBig(tabb, bo, nb);
    BPAdd(n, n); BPAdd(2 * n, nb - n); BPStep(nq + nb); BPAdd(nb - n, n);
    BPMono(nb - n, nb);
    TruncatedScale(a, BP(nq + nb), inv, BP(n), z, hb);
    TruncatedDivisor(a, b, hb + 1, inv, z, BP(n + nb), BP(2 * n), BP(nb));
  }

  lemma TruncatedScale(a: int, p: int, inv: int, q: int, z: int, hb: int)
    requires 0 <= a < p && 0 <= inv <= 2 * q && z > 0
    ensures a * B <= B * p && z * inv <= 2 * (z * q)
    ensures (hb + 1) * z == z * hb + z && q * (q + 2) == q * q + 2 * q
  {
    MulMono(a, p, B);
    MulMono(inv, 2 * q, z);
  }

  /** n - nb zero limbs below the divisor. */
  method PadDivisor(tabt: array<limb>, tabb: array<limb>, bo: nat, nb: nat, n: nat)
    requires 1 <= nb <= n <= tabt.Length && bo + nb <= tabb.Length && tabt != tabb
    modifies tabt
    ensures V(tabt, 0, n) == V(tabb, bo, nb) * BP(n - nb)
    ensures tabt[n - 1] == tabb[bo + nb - 1]
  {
    hide Val, BP;
    var i := 0;
    while i < n - nb
      invariant 0 <= i <= n - nb && forall j :: 0 <= j < i ==> tabt[j] == 0
    {
      tabt[i] := 0;
      i := i + 1;
    }
    ghost var zs := tabt[0..n - nb];
    ValZero(zs);
    CopyLimbs(tabt, n - nb, tabb, bo, nb);
    assert tabt[0..n - nb] == zs;
    VSplit(tabt, 0, n - nb, nb);
    SameTop(tabt, n - nb, tabb, bo, nb);
  }

  lemma SameTop(x: array<limb>, xo: nat, y: array<limb>, yo: nat, n: nat)
    requires n >= 1 && xo + n <= x.Length && yo + n <= y.Length && V(x, xo, n) == V(y, yo, n)
    ensures x[xo + n - 1] == y[yo + n - 1]
  {
    hide Val;
    ValInjective(x[xo..xo + n], y[yo..yo + n]);
    assert x[xo..xo + n][n - 1] == y[yo..yo + n][n - 1];
  }

  /** The quotient read off the product is not above the true one and less than 5 below it. */
  lemma LargeEstimate(taba: array<limb>, ao: nat, na: nat, tabb: array<limb>, bo: nat, nb: nat, n: nat,
                      inv: array<limb>,
                      tabt: array<limb>, a: int)
    requires 1 <= nb < na && ao + na <= taba.Length && bo + nb <= tabb.Length
    requires n == (if na - nb < nb then na - nb + 1 else na - nb)
    requires inv.Length == n + 1 && tabt.Length == 2 * (n + 1) && a == V(taba, ao, na)
    requires 2 * tabb[bo + nb - 1] >= B
    requires InverseFits(a, V(tabb, bo, nb), V(inv, 0, n + 1), BP(n + nb))
    requires V(tabt, 0, 2 * (n + 1)) == V(inv, 0, n + 1) * V(taba, ao + na - (n + 1), n + 1)
    ensures var q := V(tabt, 2 * (n + 1) - (na - nb + 1), na - nb + 1); var b := V(tabb, bo, nb);
            q * b <= a && a - q * b < 5 * b
  {
    hide Val, BP, V;
    var nq := na - nb;
    var s, e := 2 * n + 1 - nq, na - (n + 1);
    VSplit(taba, ao, e, n + 1); VSplit(tabt, 0, s, nq + 1);
    VBound(taba, ao, e); VBound(tabt, 0, s); VBound(taba, ao, na);
    BPAdd(s, e);
    DivisorBig(tabb, bo, nb); BPMono(e, nb - 1); BPStep(nb - 1);
    MulMono(2, B, BP(nb - 1));
    var b := V(tabb, bo, nb);
    EstimateNotAbove(a, V(taba, ao + e, n + 1), V(taba, ao, e), BP(e), V(inv, 0, n + 1), V(tabt, s, nq + 1),
                     V(tabt, 0, s), BP(s), b);
    EstimateNotFarBelow(a, V(taba, ao + e, n + 1), V(taba, ao, e), BP(e), V(inv, 0, n + 1), V(tabt, s, nq + 1),
                        V(tabt, 0, s), BP(s), b);
  }

  /** A - B * Q on nb + 1 limbs: the difference fits, so nothing is lost. */
  method SubtractProduct(tabq: array<limb>, qo: nat, taba: array<limb>, ao: nat, na: nat, tabb: array<limb>, bo: nat,
                         nb: nat, ghost a: int)
    requires 1 <= nb < na && qo + na - nb < tabq.Length && ao + na <= taba.Length && bo + nb <= tabb.Length
    requires tabq != taba && tabq != tabb && taba != tabb && a == V(taba, ao, na)
    requires V(tabq, qo, na - nb + 1) * V(tabb, bo, nb) <= a
    requires a - V(tabq, qo, na - nb + 1) * V(tabb, bo, nb) < 5 * V(tabb, bo, nb)
    modifies taba
    ensures V(taba, ao, nb + 1) == a - V(tabq, qo, na - nb + 1) * V(tabb, bo, nb)
    ensures forall j :: 0 <= j < taba.Length && !(ao <= j < ao + na) ==> taba[j] == old(taba[j])
  {
    hide Val, BP;
    var tabt := new limb[na + 1];
    MpMul(tabt, 0, tabq, qo, na - nb + 1, tabb, bo, nb);
    VSplit(taba, ao, nb + 1, na - nb - 1); VSplit(tabt, 0, nb + 1, na - nb);
    ghost var a1, t1 := V(taba, ao + nb + 1, na - nb - 1), V(tabt, nb + 1, na - nb);
    VBound(tabb, bo, nb); BPStep(nb); MulMono(5, B, BP(nb));
    var k := MpSub(taba, ao, taba, ao, tabt, 0, nb + 1, 0);
    VBound(taba, ao, nb + 1);
    Remainder(V(taba, ao, nb + 1), k, BP(nb + 1), a1, t1, a - V(tabq, qo, na - nb + 1) * V(tabb, bo, nb));
  }

  lemma Remainder(x: int, k: int, p: int, a1: int, t1: int, d: int)
    requires 0 <= x < p && 0 <= d < p && d == x - k * p + p * a1 - p * t1
    ensures x == d
  {
    assert d == x + (a1 - t1 - k) * p;
    DigitsUnique(d, 0, x, a1 - t1 - k, p);
  }

  /** Raises the quotient until the remainder is below the divisor. */
  method CorrectQuotient(tabq: array<limb>, qo: nat, taba: array<limb>, ao: nat, tabb: array<limb>, bo: nat, nb: nat,
                         nq: nat, ghost a: int)
    requires nb >= 1 && nq >= 1 && qo + nq < tabq.Length && ao + nb < taba.Length && bo + nb <= tabb.Length
    requires tabq != taba && tabq != tabb && taba != tabb
    requires a == V(tabq, qo, nq + 1) * V(tabb, bo, nb) + V(taba, ao, nb + 1) && a < BP(nq + nb)
    requires 2 * V(tabb, bo, nb) >= BP(nb)
    modifies tabq, taba
    ensures Divided(a, V(tabq, qo, nq + 1), V(tabb, bo, nb), V(taba, ao, nb))
    ensures forall j :: 0 <= j < tabq.Length && !(qo <= j <= qo + nq) ==> tabq[j] == old(tabq[j])
    ensures forall j :: 0 <= j < taba.Length && !(ao <= j <= ao + nb) ==> taba[j] == old(taba[j])
  {
    hide Val, BP;
    ghost var b := V(tabb, bo, nb);
    VBound(tabb, bo, nb);
    while true
      invariant V(tabb, bo, nb) == b
      invariant a == V(tabq, qo, nq + 1) * b + V(taba, ao, nb + 1)
      invariant forall j :: 0 <= j < tabq.Length && !(qo <= j <= qo + nq) ==> tabq[j] == old(tabq[j])
      invariant forall j :: 0 <= j < taba.Length && !(ao <= j <= ao + nb) ==> taba[j] == old(taba[j])
      decreases V(taba, ao, nb + 1)
    {
      VBound(taba, ao, nb + 1); VBound(taba, ao, nb);
      TopZero(taba, ao, nb);
      var small := false;
      if taba[ao + nb] == 0 {
        var c := MpCmp(taba, ao, tabb, bo, nb);
        small := c < 0;
      }
      if small { break; }
      ghost var x, q := V(taba, ao, nb + 1), V(tabq, qo, nq + 1);
      SubtractDivisor(taba, ao, tabb, bo, nb);
      var k := MpAddUi(tabq, qo, 1, nq + 1);
      VBound(tabq, qo, nq + 1);
      QuotientRoom(q + 1, b, a, x - b, nq, nb);
      NoCarry(V(tabq, qo, nq + 1), k, BP(nq + 1));
      assert (q + 1) * b == q * b + b;
    }
  }

  lemma QuotientRoom(q: int, b: int, a: int, r: int, nq: nat, nb: nat)
    requires a == (q - 1) * b + r + b && 0 <= r && a < BP(nq + nb) && 2 * b >= BP(nb)
    ensures q < BP(nq + 1)
  {
    hide BP;
    BPAdd(nq, nb); BPStep(nq);
    assert (q - 1) * b == q * b - b;
    MulMono(BP(nb), 2 * b, BP(nq));
    assert (B * BP(nq)) * b == B * (BP(nq) * b) && (2 * b) * BP(nq) == 2 * (BP(nq) * b);
    PositiveProduct(BP(nq), b);
    MulMono(2, B, BP(nq) * b);
    if q >= BP(nq + 1) { MulMono(B * BP(nq), q, b); }
  }

  method SubtractDivisor(taba: array<limb>, ao: nat, tabb: array<limb>, bo: nat, nb: nat)
    requires ao + nb < taba.Length && bo + nb <= tabb.Length && taba != tabb
    requires V(taba, ao, nb + 1) >= V(tabb, bo, nb)
    modifies taba
    ensures V(taba, ao, nb + 1) == old(V(taba, ao, nb + 1)) - V(tabb, bo, nb)
    ensures forall j :: 0 <= j < taba.Length && !(ao <= j <= ao + nb) ==> taba[j] == old(taba[j])
  {
    hide Val, BP;
    VSnoc(taba, ao, nb);
    var top := taba[ao + nb];
    var k := MpSub(taba, ao, taba, ao, tabb, bo, nb, 0);
    VBound(taba, ao, nb);
    EnoughTop(V(taba, ao, nb), top, k, BP(nb));
    ghost var low := taba[ao..ao + nb];
    taba[ao + nb] := (top - k) % B;
    assert taba[ao..ao + nb] == low;
    VSnoc(taba, ao, nb);
  }

  lemma EnoughTop(low: int, top: limb, k: limb, p: int)
    requires 0 <= low < p && k <= 1 && low - k * p + top * p >= 0
    ensures top >= k && (top - k) % B == top - k && (top - k) * p == top * p - k * p
  {
    if top < k { MulMono(top + 1, k, p); }
    ModSmall(top - k, B);
  }
}
