/** Machine words and the integer value of a little-endian run of limbs. */
module Limbs {
  /** One limb holds LIMB_BITS = 64 bits. */
  const B: int := 0x1_0000_0000_0000_0000

  type limb = x: int | 0 <= x < B

  /** B to the power n: the weight of limb number n. */
  function BP(n: nat): (p: int)
    ensures p >= 1
  {
    if n == 0 then 1 else B * BP(n - 1)
  }

  /** The integer held by the limbs s, least significant limb first. */
  function Val(s: seq<limb>): int {
    if |s| == 0 then 0 else Val(s[..|s| - 1]) + s[|s| - 1] * BP(|s| - 1)
  }

  /** The integer held by n limbs of an array from index lo on. */
  ghost function V(a: array<limb>, lo: nat, n: nat): int
    requires lo + n <= a.Length
    reads a
  {
    Val(a[lo..lo + n])
  }

  // ---- arithmetic without functions -------------------------------------

  lemma MulMono(a: int, b: int, p: int)
    requires a <= b && p >= 0
    ensures a * p <= b * p
  {
  }

  lemma MulStrict(a: int, b: int, p: int)
    requires a < b && p > 0
    ensures a * p < b * p
  {
  }

  lemma MulCancelLt(a: int, b: int, p: int)
    requires a * p < b * p && p > 0
    ensures a < b
  {
    if a >= b { MulMono(b, a, p); }
  }

  lemma MulCancelLe(a: int, b: int, p: int)
    requires a * p <= b * p && p > 0
    ensures a <= b
  {
    if a > b { MulStrict(b, a, p); }
  }

  lemma MulCancelEq(a: int, b: int, p: int)
    requires a * p == b * p && p > 0
    ensures a == b
  {
    MulCancelLe(a, b, p); MulCancelLe(b, a, p);
  }

  lemma TopDigit(v: int, x: int, p: int, base: int)
    requires 0 <= v < p && 0 <= x < base
    ensures 0 <= v + x * p < base * p
  {
    MulMono(x + 1, base, p);
    MulMono(0, x, p);
  }

  // ---- weights and values -----------------------------------------------

  lemma BPStep(n: nat)
    ensures BP(n + 1) == B * BP(n) && BP(0) == 1 && BP(1) == B
  {
  }

  lemma {:induction false} BPAdd(m: nat, n: nat)
    ensures BP(m + n) == BP(m) * BP(n)
  {
    if n > 0 {
      BPAdd(m, n - 1);
      BPStep(m + n - 1); BPStep(n - 1);
      Assoc(B, BP(m), BP(n - 1));
    }
  }

  lemma Assoc(b: int, p: int, q: int)
    ensures b * (p * q) == p * (b * q)
  {
  }

  lemma {:induction false} BPMono(m: nat, n: nat)
    requires m <= n
    ensures BP(m) <= BP(n)
    ensures m < n ==> B * BP(m) <= BP(n)
  {
    if m < n {
      BPStep(m);
      BPAdd(m + 1, n - m - 1);
      MulMono(1, BP(n - m - 1), BP(m + 1));
      MulMono(1, B, BP(m));
    }
  }

  lemma ValEmpty(s: seq<limb>)
    ensures Val([]) == 0 && BP(0) == 1 && Val(s[..0]) == 0
  {
  }

  lemma Val1(s: seq<limb>)
    requires |s| == 1
    ensures Val(s) == s[0]
  {
    assert Val(s[..0]) == 0 && BP(0) == 1;
  }

  lemma ValTop(s: seq<limb>)
    requires |s| > 0
    ensures Val(s) == Val(s[..|s| - 1]) + s[|s| - 1] * BP(|s| - 1)
  {
  }

  lemma ValSnoc(s: seq<limb>, x: limb)
    ensures Val(s + [x]) == Val(s) + x * BP(|s|)
  {
    assert (s + [x])[..|s|] == s;
  }

  lemma ValTake(s: seq<limb>, i: nat)
    requires i < |s|
    ensures Val(s[..i + 1]) == Val(s[..i]) + s[i] * BP(i)
  {
    assert s[..i + 1][..i] == s[..i];
  }

  lemma {:induction false} ValBound(s: seq<limb>)
    ensures 0 <= Val(s) < BP(|s|)
  {
    if |s| > 0 {
      ValBound(s[..|s| - 1]);
      TopDigit(Val(s[..|s| - 1]), s[|s| - 1], BP(|s| - 1), B);
    }
  }

  lemma {:induction false} ValAppend(s: seq<limb>, t: seq<limb>)
    ensures Val(s + t) == Val(s) + BP(|s|) * Val(t)
  {
    if |t| == 0 {
      assert s + t == s;
    } else {
      var n := |t| - 1;
      ValAppend(s, t[..n]);
      assert (s + t)[..|s| + n] == s + t[..n];
      ValTop(s + t); ValTop(t);
      BPAdd(|s|, n);
      Distrib(BP(|s|), Val(t[..n]), t[n], BP(n));
    }
  }

  lemma Distrib(p: int, v: int, x: int, q: int)
    ensures p * (v + x * q) == p * v + x * (p * q)
  {
  }

  lemma ValSplit(s: seq<limb>, k: nat)
    requires k <= |s|
    ensures Val(s) == Val(s[..k]) + BP(k) * Val(s[k..])
  {
    assert s == s[..k] + s[k..];
    ValAppend(s[..k], s[k..]);
  }

  lemma ValHead(s: seq<limb>)
    requires |s| > 0
    ensures Val(s) == s[0] + B * Val(s[1..])
  {
    ValSplit(s, 1);
    Val1(s[..1]);
    BPStep(0);
  }

  /** A run of limbs is determined by its value and length. */
  lemma {:induction false} ValInjective(s: seq<limb>, t: seq<limb>)
    requires |s| == |t| && Val(s) == Val(t)
    ensures s == t
  {
    if |s| > 0 {
      var n := |s| - 1;
      ValTop(s); ValTop(t);
      ValBound(s[..n]); ValBound(t[..n]);
      DigitsUnique(Val(s[..n]), s[n], Val(t[..n]), t[n], BP(n));
      ValInjective(s[..n], t[..n]);
      assert s == s[..n] + [s[n]] && t == t[..n] + [t[n]];
    }
  }

  lemma DigitsUnique(v: int, x: int, w: int, y: int, p: int)
    requires 0 <= v < p && 0 <= w < p && v + x * p == w + y * p
    ensures v == w && x == y
  {
    if x < y { MulMono(x + 1, y, p); }
    if y < x { MulMono(y + 1, x, p); }
  }

  /** Zero limbs have value zero, and only they have. */
  lemma {:induction false} ValZero(s: seq<limb>)
    ensures Val(s) == 0 <==> forall i :: 0 <= i < |s| ==> s[i] == 0
  {
    if |s| > 0 {
      var n := |s| - 1;
      ValTop(s);
      ValZero(s[..n]);
      ValBound(s[..n]);
      MulMono(0, s[n], BP(n));
      if s[n] > 0 { MulMono(1, s[n], BP(n)); }
      if Val(s) == 0 {
        forall i | 0 <= i < |s| ensures s[i] == 0 {
          if i < n { assert s[..n][i] == 0; }
        }
      }
    }
  }

  // ---- the same facts on a window of an array ---------------------------

  lemma VBound(a: array<limb>, lo: nat, n: nat)
    requires lo + n <= a.Length
    ensures 0 <= V(a, lo, n) < BP(n)
  {
    ValBound(a[lo..lo + n]);
  }

  lemma VSnoc(a: array<limb>, lo: nat, n: nat)
    requires lo + n < a.Length
    ensures V(a, lo, n + 1) == V(a, lo, n) + a[lo + n] * BP(n)
  {
    hide Val, BP;
    assert a[lo..lo + n + 1] == a[lo..lo + n] + [a[lo + n]];
    ValSnoc(a[lo..lo + n], a[lo + n]);
  }

  lemma VSplit(a: array<limb>, lo: nat, k: nat, n: nat)
    requires lo + k + n <= a.Length
    ensures V(a, lo, k + n) == V(a, lo, k) + BP(k) * V(a, lo + k, n)
  {
    hide Val, BP;
    assert a[lo..lo + k + n] == a[lo..lo + k] + a[lo + k..lo + k + n];
    ValAppend(a[lo..lo + k], a[lo + k..lo + k + n]);
  }

  lemma VHead(a: array<limb>, lo: nat, n: nat)
    requires lo + n < a.Length
    ensures V(a, lo, n + 1) == a[lo] + B * V(a, lo + 1, n)
  {
    hide Val, BP;
    ValHead(a[lo..lo + n + 1]);
    assert a[lo..lo + n + 1][1..] == a[lo + 1..lo + n + 1];
  }
}
