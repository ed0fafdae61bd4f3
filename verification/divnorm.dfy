/** Schoolbook division of limb arrays. */
module Divnorm {
  import opened Limbs
  import opened LimbOps
  import opened LimbMul
  import opened Udiv

  // ---- estimating one quotient digit ------------------------------------

  /** q is the largest limb with q * b1 at most the two leading limbs of the window. */
  ghost predicate DigitEstimate(q: limb, u1: limb, u0: limb, b1: limb) {
    q * b1 <= u1 * B + u0 && (q == B - 1 || u1 * B + u0 < (q + 1) * b1)
  }

  method EstimateDigit(u1: limb, u0: limb, b1: limb, b1Inv: limb) returns (q: limb)
    requires 2 * b1 >= B
    requires b1Inv != 0 ==> IsInverse(b1Inv, b1)
    ensures DigitEstimate(q, u1, u0, b1)
  {
    if u1 >= b1 {
      q := B - 1;
      TopDigitFull(u1, u0, b1);
    } else if b1Inv != 0 {
      var r;
      q, r := Udiv1norm(u1, u0, b1, b1Inv);
      assert (q + 1) * b1 == q * b1 + b1;
    } else {
      PlainFits(u1, u0, b1);
      q := (u1 * B + u0) / b1;
      assert (q + 1) * b1 == q * b1 + b1;
    }
  }

  lemma TopDigitFull(u1: limb, u0: limb, b1: limb)
    requires u1 >= b1
    ensures (B - 1) * b1 <= u1 * B + u0
  {
    MulMono(b1, u1, B);
  }

  /** The estimated digit exceeds the quotient of window and divisor by at most 2, and is never below it. */
  lemma EstimateIsClose(w: int, bv: int, q: limb, u1: limb, u0: limb, b1: limb, p: int)
    requires p > 0 && 2 * b1 >= B && DigitEstimate(q, u1, u0, b1)
    requires b1 * p <= bv < (b1 + 1) * p
    requires (u1 * B + u0) * p <= w < (u1 * B + u0 + 1) * p
    requires 0 <= w < B * bv
    ensures w < (q + 1) * bv
    ensures (q - 2) * bv <= w
  {
    EstimateAbove(w, bv, q, u1 * B + u0, b1, p);
    EstimateBelow(w, bv, q, u1 * B + u0, b1, p);
  }

  lemma EstimateAbove(w: int, bv: int, q: limb, u: int, b1: limb, p: int)
    requires p > 0 && b1 * p <= bv && w < (u + 1) * p && w < B * bv
    requires q == B - 1 || u < (q + 1) * b1
    ensures w < (q + 1) * bv
  {
    if q < B - 1 {
      MulMono(u + 1, (q + 1) * b1, p);
      MulMono(b1 * p, bv, q + 1);
      assert ((q + 1) * b1) * p == (b1 * p) * (q + 1);
    }
  }

  lemma EstimateBelow(w: int, bv: int, q: limb, u: int, b1: limb, p: int)
    requires p > 0 && 2 * b1 >= B && b1 * p <= bv < (b1 + 1) * p && u * p <= w && q * b1 <= u
    ensures (q - 2) * bv <= w
  {
    MulMono(q * b1, u, p);
    MulMono(bv, b1 * p + p, q);
    assert q * bv <= q * (b1 * p + p) == (q * b1) * p + q * p;
    MulMono(q, 2 * b1, p);
    assert (2 * b1) * p == 2 * (b1 * p);
  }

  // ---- one digit --------------------------------------------------------

  /** Adds the divisor back until the window is no longer negative; at most twice. */
  method AddBack(taba: array<limb>, o: nat, tabb: array<limb>, bo: nat, nb: nat, q0: limb, ghost w: int)
    returns (q: limb, ghost steps: nat)
    requires o + nb < taba.Length && bo + nb <= tabb.Length && taba != tabb && nb >= 1
    requires V(taba, o, nb + 1) == w - q0 * V(tabb, bo, nb) + BP(nb + 1)
    requires (q0 - 2) * V(tabb, bo, nb) <= w < q0 * V(tabb, bo, nb) && 0 <= w
    modifies taba
    ensures V(taba, o, nb + 1) == w - q * V(tabb, bo, nb) && V(taba, o, nb + 1) < V(tabb, bo, nb)
    ensures steps == q0 - q <= 2
    ensures forall j :: 0 <= j < taba.Length && !(o <= j <= o + nb) ==> taba[j] == old(taba[j])
  {
    hide Val, BP, V;
    ghost var bv := V(tabb, bo, nb);
    q, steps := q0, 0;
    while true
      invariant V(tabb, bo, nb) == bv
      invariant V(taba, o, nb + 1) == w - q * bv + BP(nb + 1)
      invariant w < q * bv && steps == q0 - q
      invariant forall j :: 0 <= j < taba.Length && !(o <= j <= o + nb) ==> taba[j] == old(taba[j])
      decreases q
    {
      StepsLeft(w, bv, q0, q, steps);
      q := q - 1;
      steps := steps + 1;
      var done := AddOnce(taba, o, tabb, bo, nb);
      assert (q + 1) * bv == q * bv + bv;
      if done { break; }
      VBound(taba, o, nb + 1);
    }
  }

  lemma StepsLeft(w: int, bv: int, q0: int, q: limb, steps: int)
    requires (q0 - 2) * bv <= w < q * bv && steps == q0 - q && 0 <= w && 0 <= bv
    ensures q >= 1 && steps <= 1
  {
    if q == 0 { }
    if q0 - 2 >= q { MulMono(q, q0 - 2, bv); }
  }

  /** Adds the divisor once and reports whether the window of nb + 1 limbs wrapped round to a small value. */
  method AddOnce(taba: array<limb>, o: nat, tabb: array<limb>, bo: nat, nb: nat) returns (done: bool)
    requires o + nb < taba.Length && bo + nb <= tabb.Length && taba != tabb
    modifies taba
    ensures V(taba, o, nb + 1) == old(V(taba, o, nb + 1)) + V(tabb, bo, nb) - (if done then BP(nb + 1) else 0)
    ensures done ==> V(taba, o, nb + 1) < V(tabb, bo, nb)
    ensures forall j :: 0 <= j < taba.Length && !(o <= j <= o + nb) ==> taba[j] == old(taba[j])
  {
    hide Val, BP;
    VSnoc(taba, o, nb); BPStep(nb);
    var top := taba[o + nb];
    VBound(taba, o, nb + 1);
    var c := MpAdd(taba, o, taba, o, tabb, bo, nb, 0);
    assert V(tabb, bo, nb) == old(V(tabb, bo, nb));
    ghost var low := taba[o..o + nb];
    done := false;
    if c != 0 {
      taba[o + nb] := (top + 1) % B;
      assert taba[o..o + nb] == low;
      if taba[o + nb] == 0 { done := true; }
      TopCarry(top, BP(nb));
    }
    VSnoc(taba, o, nb);
  }

  lemma TopCarry(top: limb, p: int)
    ensures ((top + 1) % B) * p == top * p + p - (if (top + 1) % B == 0 then B * p else 0)
  {
    if top == B - 1 { } else { ModSmall(top + 1, B); }
  }

  /** Divides one window of nb + 1 limbs, whose leading nb limbs are below the divisor. */
  method DivDigit(taba: array<limb>, o: nat, tabb: array<limb>, bo: nat, nb: nat, b1Inv: limb)
    returns (q: limb, ghost steps: nat)
    requires o + nb < taba.Length && bo + nb <= tabb.Length && taba != tabb && nb >= 2
    requires 2 * tabb[bo + nb - 1] >= B
    requires b1Inv != 0 ==> IsInverse(b1Inv, tabb[bo + nb - 1])
    requires V(taba, o + 1, nb) < V(tabb, bo, nb)
    modifies taba
    ensures old(V(taba, o, nb + 1)) == q * V(tabb, bo, nb) + V(taba, o, nb)
    ensures V(taba, o, nb) < V(tabb, bo, nb) && taba[o + nb] == 0
    ensures steps <= 2
    ensures forall j :: 0 <= j < taba.Length && !(o <= j <= o + nb) ==> taba[j] == old(taba[j])
  {
    hide Val, BP, V;
    ghost var w, bv := V(taba, o, nb + 1), V(tabb, bo, nb);
    VBound(taba, o, nb + 1);
    q := EstimateDigit(taba[o + nb], taba[o + nb - 1], tabb[bo + nb - 1], b1Inv);
    WindowEstimate(taba, o, tabb, bo, nb, q);
    var negative := SubtractMultiple(taba, o, tabb, bo, nb, q);
    assert V(tabb, bo, nb) == bv;
    VBound(taba, o, nb + 1);
    steps := 0;
    if negative {
      q, steps := AddBack(taba, o, tabb, bo, nb, q, w);
    } else {
      assert (q + 1) * bv == q * bv + bv;
    }
    SmallWindow(taba, o, nb, bv);
    VBound(tabb, bo, nb);
    assert V(tabb, bo, nb) == bv;
    SmallTop(taba, o, nb);
  }

  lemma SmallWindow(taba: array<limb>, o: nat, nb: nat, bv: int)
    requires o + nb < taba.Length
    ensures V(taba, o, nb + 1) == V(taba, o, nb) + taba[o + nb] * BP(nb)
  {
    VSnoc(taba, o, nb);
  }

  lemma SmallTop(taba: array<limb>, o: nat, nb: nat)
    requires o + nb < taba.Length && V(taba, o, nb + 1) < BP(nb)
    ensures taba[o + nb] == 0 && V(taba, o, nb) == V(taba, o, nb + 1)
  {
    hide Val, BP, V;
    VSnoc(taba, o, nb); VBound(taba, o, nb);
    if taba[o + nb] >= 1 { MulMono(1, taba[o + nb], BP(nb)); }
  }

  /** Subtracts q times the divisor from the window, modulo B^(nb + 1). */
  method SubtractMultiple(taba: array<limb>, o: nat, tabb: array<limb>, bo: nat, nb: nat, q: limb)
    returns (negative: bool)
    requires o + nb < taba.Length && bo + nb <= tabb.Length && taba != tabb
    modifies taba
    ensures V(taba, o, nb + 1) == old(V(taba, o, nb + 1)) - q * V(tabb, bo, nb) + (if negative then BP(nb + 1) else 0)
    ensures negative <==> old(V(taba, o, nb + 1)) < q * V(tabb, bo, nb)
    ensures forall j :: 0 <= j < taba.Length && !(o <= j <= o + nb) ==> taba[j] == old(taba[j])
  {
    hide Val, BP;
    VSnoc(taba, o, nb); BPStep(nb);
    var r := MpSubMul1(taba, o, tabb, bo, nb, q);
    ghost var low := taba[o..o + nb];
    VBound(taba, o, nb);
    var v := taba[o + nb];
    var a := (v - r) % B;
    negative := a > v;
    taba[o + nb] := a;
    assert taba[o..o + nb] == low;
    VSnoc(taba, o, nb);
    TopBorrow(v, r, BP(nb));
    VBound(taba, o, nb + 1);
  }

  lemma TopBorrow(v: limb, r: limb, p: int)
    requires p >= 1
    ensures var a := (v - r) % B; a * p == v * p - r * p + (if a > v then B * p else 0)
  {
    if v >= r {
      ModSmall(v - r, B);
      MulDiff(v, r, p);
    } else {
      ModUnique(v - r, B, -1, v - r + B);
      MulDiff(v + B, r, p);
      Distrib(1, v * p, B, p);
    }
  }

  lemma MulDiff(x: int, y: int, p: int)
    ensures (x - y) * p == x * p - y * p
  {
  }

  /** The estimate from the leading limbs, read as a statement about the whole window. */
  lemma WindowEstimate(taba: array<limb>, o: nat, tabb: array<limb>, bo: nat, nb: nat, q: limb)
    requires o + nb < taba.Length && bo + nb <= tabb.Length && nb >= 2
    requires 2 * tabb[bo + nb - 1] >= B
    requires V(taba, o + 1, nb) < V(tabb, bo, nb)
    requires DigitEstimate(q, taba[o + nb], taba[o + nb - 1], tabb[bo + nb - 1])
    ensures V(taba, o, nb + 1) < (q + 1) * V(tabb, bo, nb)
    ensures (q - 2) * V(tabb, bo, nb) <= V(taba, o, nb + 1)
  {
    hide Val, BP, V;
    var p := BP(nb - 1);
    var u1, u0, b1 := taba[o + nb], taba[o + nb - 1], tabb[bo + nb - 1];
    var w, bv := V(taba, o, nb + 1), V(tabb, bo, nb);
    VSnoc(tabb, bo, nb - 1); VBound(tabb, bo, nb - 1);
    VSnoc(taba, o, nb); VSnoc(taba, o, nb - 1); VBound(taba, o, nb - 1);
    BPStep(nb - 1);
    VHead(taba, o, nb);
    VBound(taba, o + 1, nb); VBound(taba, o, nb + 1);
    MulMono(V(taba, o + 1, nb), bv - 1, B);
    TwoLimbs(u1, u0, p);
    assert (b1 + 1) * p == b1 * p + p;
    EstimateIsClose(w, bv, q, u1, u0, b1, p);
  }

  lemma TwoLimbs(u1: limb, u0: limb, p: int)
    ensures (u1 * B + u0) * p == u1 * (B * p) + u0 * p
    ensures (u1 * B + u0 + 1) * p == u1 * (B * p) + u0 * p + p
  {
  }

  // ---- the whole division -----------------------------------------------

  /** A quotient of na - nb + 1 limbs by a normalised divisor starts with 0 or 1. */
  lemma TopQuotientBit(a: int, qLow: int, top: limb, qp: int, bv: int, bp: int, r: int)
    requires a == (qLow + top * qp) * bv + r && 0 <= r && 0 <= qLow && qp > 0
    requires 2 * bv >= bp && bp > 0 && a < qp * bp
    ensures top <= 1
  {
    if top >= 2 {
      MulMono(2, top, qp);
      MulMono(2 * qp, qLow + top * qp, bv);
      MulMono(bp, 2 * bv, qp);
      Assoc(2, bv, qp);
    }
  }

  lemma DivisorBig(tabb: array<limb>, bo: nat, nb: nat)
    requires nb >= 1 && bo + nb <= tabb.Length && 2 * tabb[bo + nb - 1] >= B
    ensures 2 * V(tabb, bo, nb) >= BP(nb)
  {
    hide Val, BP, V;
    VSnoc(tabb, bo, nb - 1); VBound(tabb, bo, nb - 1); BPStep(nb - 1);
    var top: int := tabb[bo + nb - 1];
    MulMono(B, 2 * top, BP(nb - 1));
    assert (2 * top) * BP(nb - 1) == 2 * (top * BP(nb - 1));
  }

  /** What every form of the division promises. */
  ghost predicate Divided(a: int, q: int, b: int, r: int) {
    a == q * b + r && 0 <= r < b
  }

  /** There is only one such quotient and remainder. */
  lemma DividedIsUnique(a: int, q: int, b: int, r: int)
    requires b > 0
    ensures Divided(a, q, b, r) <==> q == a / b && r == a % b
  {
    DivMod(a, b);
    if Divided(a, q, b, r) { ModUnique(a, b, q, r); }
  }

  lemma QuotientTop(tabq: array<limb>, qo: nat, n: nat, a: int, bv: int, nb: nat, r: int)
    requires qo + n < tabq.Length
    requires Divided(a, V(tabq, qo, n + 1), bv, r) && a < BP(n + nb) && 2 * bv >= BP(nb)
    ensures tabq[qo + n] <= 1
  {
    hide Val, BP, V;
    VSnoc(tabq, qo, n); VBound(tabq, qo, n); BPAdd(n, nb);
    TopQuotientBit(a, V(tabq, qo, n), tabq[qo + n], BP(n), bv, BP(nb), r);
  }

  /** Base case division: quotient of na - nb + 1 limbs to tabq, remainder of nb limbs left in taba. */
  method MpDivnormSchool(tabq: array<limb>, qo: nat, taba: array<limb>, ao: nat, na: nat, tabb: array<limb>, bo: nat,
                         nb: nat)
    requires 1 <= nb <= na && qo + na - nb < tabq.Length && ao + na <= taba.Length && bo + nb <= tabb.Length
    requires tabq != taba && tabq != tabb && taba != tabb
    requires 2 * tabb[bo + nb - 1] >= B
    modifies tabq, taba
    ensures Divided(old(V(taba, ao, na)), V(tabq, qo, na - nb + 1), V(tabb, bo, nb), V(taba, ao, nb))
    ensures tabq[qo + na - nb] <= 1
    ensures forall j :: 0 <= j < tabq.Length && !(qo <= j <= qo + na - nb) ==> tabq[j] == old(tabq[j])
    ensures forall j :: 0 <= j < taba.Length && !(ao <= j < ao + na) ==> taba[j] == old(taba[j])
  {
    hide Val, BP, V;
    ghost var a, bv := V(taba, ao, na), V(tabb, bo, nb);
    VBound(taba, ao, na);
    DivisorBig(tabb, bo, nb);
    if nb == 1 {
      DivideByLimb(tabq, qo, taba, ao, na, tabb, bo);
    } else {
      var n := na - nb;
      var b1Inv: limb := 0;
      if n >= 3 { b1Inv := Udiv1normInit(tabb[bo + nb - 1]); }
      FirstDigit(tabq, qo, taba, ao, tabb, bo, nb, n, a);
      var i := n;
      while i > 0
        invariant 0 <= i <= n
        invariant V(tabb, bo, nb) == bv && 2 * tabb[bo + nb - 1] >= B
        invariant b1Inv != 0 ==> IsInverse(b1Inv, tabb[bo + nb - 1])
        invariant a == (V(tabq, qo + i, n - i + 1) * bv) * BP(i) + V(taba, ao, i + nb)
        invariant V(taba, ao + i, nb) < bv
        invariant forall j :: 0 <= j < tabq.Length && !(qo <= j <= qo + na - nb) ==> tabq[j] == old(tabq[j])
        invariant forall j :: 0 <= j < taba.Length && !(ao <= j < ao + na) ==> taba[j] == old(taba[j])
      {
        i := i - 1;
        NextDigit(tabq, qo, taba, ao, tabb, bo, nb, n, i, b1Inv, a);
      }
      LastDigit(V(tabq, qo, n + 1), bv);
      VBound(taba, ao, nb);
    }
    QuotientTop(tabq, qo, na - nb, a, bv, nb, V(taba, ao, nb));
  }

  lemma LastDigit(q: int, bv: int)
    ensures (q * bv) * BP(0) == q * bv
  {
  }

  method DivideByLimb(tabq: array<limb>, qo: nat, taba: array<limb>, ao: nat, na: nat, tabb: array<limb>, bo: nat)
    requires 1 <= na && qo + na <= tabq.Length && ao + na <= taba.Length && bo < tabb.Length
    requires tabq != taba && tabq != tabb && taba != tabb && 2 * tabb[bo] >= B
    modifies tabq, taba
    ensures Divided(old(V(taba, ao, na)), V(tabq, qo, na), V(tabb, bo, 1), V(taba, ao, 1))
    ensures forall j :: 0 <= j < tabq.Length && !(qo <= j < qo + na) ==> tabq[j] == old(tabq[j])
    ensures forall j :: 0 <= j < taba.Length && j != ao ==> taba[j] == old(taba[j])
  {
    hide Val, BP;
    var r := MpDiv1norm(tabq, qo, taba, ao, na, tabb[bo], 0);
    taba[ao] := r;
    Val1(taba[ao..ao + 1]); Val1(tabb[bo..bo + 1]);
  }

  /** The leading digit is 0 or 1. */
  method FirstDigit(tabq: array<limb>, qo: nat, taba: array<limb>, ao: nat, tabb: array<limb>, bo: nat, nb: nat, n: nat,
                    ghost a: int)
    requires nb >= 1 && qo + n < tabq.Length && ao + n + nb <= taba.Length && bo + nb <= tabb.Length
    requires tabq != taba && tabq != tabb && taba != tabb
    requires 2 * V(tabb, bo, nb) >= BP(nb) && a == V(taba, ao, n + nb)
    modifies tabq, taba
    ensures a == (V(tabq, qo + n, 1) * V(tabb, bo, nb)) * BP(n) + V(taba, ao, n + nb)
    ensures V(taba, ao + n, nb) < V(tabb, bo, nb)
    ensures forall j :: 0 <= j < tabq.Length && j != qo + n ==> tabq[j] == old(tabq[j])
    ensures forall j :: 0 <= j < taba.Length && !(ao + n <= j < ao + n + nb) ==> taba[j] == old(taba[j])
  {
    hide Val, BP;
    VSplit(taba, ao, n, nb); VBound(taba, ao + n, nb);
    var c := MpCmp(taba, ao + n, tabb, bo, nb);
    var q: limb := if c < 0 then 0 else 1;
    tabq[qo + n] := q;
    Val1(tabq[qo + n..qo + n + 1]);
    assert V(tabq, qo + n, 1) == q;
    if q != 0 {
      ghost var low := taba[ao..ao + n];
      var k := MpSub(taba, ao + n, taba, ao + n, tabb, bo, nb, 0);
      NoBorrow(V(taba, ao + n, nb), k, BP(nb));
      VBound(taba, ao + n, nb);
      assert taba[ao..ao + n] == low;
      VSplit(taba, ao, n, nb);
      FirstScale(V(tabb, bo, nb), BP(n), V(taba, ao + n, nb));
    }
  }

  lemma NoBorrow(v: int, k: int, p: int)
    requires 0 <= k <= 1 && p > 0
    ensures k == 0 ==> v - k * p == v
    ensures k == 1 ==> v - k * p == v - p
  {
  }

  lemma FirstScale(bv: int, p: int, r: int)
    ensures (1 * bv) * p + p * r == p * (bv + r)
  {
  }

  /** Produces digit i of the quotient. */
  method NextDigit(tabq: array<limb>, qo: nat, taba: array<limb>, ao: nat, tabb: array<limb>, bo: nat, nb: nat, n: nat,
                   i: nat,
                   b1Inv: limb, ghost a: int)
    requires nb >= 2 && i < n && qo + n < tabq.Length && ao + n + nb <= taba.Length && bo + nb <= tabb.Length
    requires tabq != taba && tabq != tabb && taba != tabb
    requires 2 * tabb[bo + nb - 1] >= B
    requires b1Inv != 0 ==> IsInverse(b1Inv, tabb[bo + nb - 1])
    requires a == (V(tabq, qo + i + 1, n - i) * V(tabb, bo, nb)) * BP(i + 1) + V(taba, ao, i + 1 + nb)
    requires V(taba, ao + i + 1, nb) < V(tabb, bo, nb)
    modifies tabq, taba
    ensures a == (V(tabq, qo + i, n - i + 1) * V(tabb, bo, nb)) * BP(i) + V(taba, ao, i + nb)
    ensures V(taba, ao + i, nb) < V(tabb, bo, nb)
    ensures forall j :: 0 <= j < tabq.Length && j != qo + i ==> tabq[j] == old(tabq[j])
    ensures forall j :: 0 <= j < taba.Length && !(ao <= j < ao + n + nb) ==> taba[j] == old(taba[j])
  {
    hide Val, BP;
    VSplit(taba, ao, i, nb + 1); BPStep(i);
    ghost var low, qs := taba[ao..ao + i], tabq[qo + i + 1..qo + n + 1];
    var q, steps := DivDigit(taba, ao + i, tabb, bo, nb, b1Inv);
    assert taba[ao..ao + i] == low;
    VSplit(taba, ao, i, nb);
    tabq[qo + i] := q;
    assert tabq[qo + i + 1..qo + n + 1] == qs;
    VHead(tabq, qo + i, n - i);
    NextScale(V(tabq, qo + i + 1, n - i), V(tabb, bo, nb), BP(i), q, V(taba, ao + i, nb));
  }

  lemma NextScale(qh: int, bv: int, p: int, q: int, r: int)
    ensures (qh * bv) * (B * p) + p * (q * bv + r) == ((q + B * qh) * bv) * p + p * r
  {
    assert (qh * bv) * (B * p) == ((B * qh) * bv) * p;
    assert p * (q * bv + r) == (q * bv) * p + p * r;
    assert ((q + B * qh) * bv) == q * bv + (B * qh) * bv;
  }
}
