/** The recursive square root of limb arrays (Karatsuba square root). */
module SqrtRec {
  import opened Limbs
  import opened LimbOps
  import opened LimbMul
  import opened Divnorm
  import opened Recip
  import opened SqrtMath
  import opened Sqrt

  /** Value of n limbs with one more limb above them. */
  ghost function VHigh(a: array<limb>, lo: nat, n: nat, high: int): int
    requires lo + n <= a.Length
    reads a
  {
    V(a, lo, n) + high * BP(n)
  }

  method MpSqrtrem2(tabs: array<limb>, so: nat, taba: array<limb>, ao: nat) returns (rh: limb)
    requires so < tabs.Length && ao + 1 < taba.Length && tabs != taba
    requires 4 * taba[ao + 1] >= B
    modifies tabs, taba
    ensures IsSqrt(old(V(taba, ao, 2)), V(tabs, so, 1), VHigh(taba, ao, 1, rh))
    ensures rh <= 1 && 2 * tabs[so] >= B
    ensures forall j :: 0 <= j < tabs.Length && j != so ==> tabs[j] == old(tabs[j])
    ensures forall j :: 0 <= j < taba.Length && j != ao ==> taba[j] == old(taba[j])
  {
    hide Val, BP, IsSqrt;
    VSnoc(taba, ao, 1); BPStep(0);
    Val1(taba[ao..ao + 1]);
    var s, r0;
    s, r0, rh := SqrtTwoLimbs(taba[ao + 1], taba[ao]);
    tabs[so] := s;
    taba[ao] := r0;
    Val1(tabs[so..so + 1]);
    Val1(taba[ao..ao + 1]);
  }

  // ---- quotient by twice the root ---------------------------------------

  lemma HalveQuotient(low: int, qhn: int, v: int, ql: int, b: int)
    requires 0 <= qhn && 2 * v + ql == low + (qhn % 2) * b
    ensures 2 * ((qhn / 2) * b + v) + ql == low + qhn * b
  {
    assert qhn == 2 * (qhn / 2) + qhn % 2;
    assert (2 * (qhn / 2) + qhn % 2) * b == 2 * ((qhn / 2) * b) + (qhn % 2) * b;
  }

  lemma TwiceRoot(q: int, ql: int, s1: int, u': int, r1: int, r1': int, qh: int, t: int, low: int, b: int, a1: int)
    requires r1 == r1' + qh * s1
    requires a1 + b * r1' == (low + t * b) * s1 + u'
    requires 2 * q + ql == low + (qh + t) * b
    ensures r1 * b + a1 == q * (2 * s1) + (u' + ql * s1)
  {
    assert (r1' + qh * s1) * b == b * r1' + (qh * b) * s1;
    assert (low + t * b) * s1 + (qh * b) * s1 == (low + (qh + t) * b) * s1;
    assert (2 * q + ql) * s1 == q * (2 * s1) + ql * s1;
  }

  /** Divides the remainder of the leading root, followed by l limbs, by twice the root (lines 1999-2014). */
  method DivideByTwiceRoot(tabs: array<limb>, so: nat, taba: array<limb>, ao: nat, tmp: array<limb>, n: nat, l: nat,
                           h: nat, qh0: limb)
    returns (qh: limb, rh: limb)
    requires n >= 2 && l == n / 2 && h == n - l
    requires so + n <= tabs.Length && ao + l + n <= taba.Length && l < tmp.Length
    requires tabs != taba && tabs != tmp && taba != tmp
    requires 2 * tabs[so + n - 1] >= B && qh0 <= 1
    requires VHigh(taba, ao + 2 * l, h, qh0) <= 2 * V(tabs, so + l, h)
    modifies tabs, taba, tmp
    ensures qh <= 1 && rh <= 1
    ensures old(VHigh(taba, ao + 2 * l, h, qh0)) * BP(l) + old(V(taba, ao + l, l))
         == (V(tabs, so, l) + qh * BP(l)) * (2 * V(tabs, so + l, h)) + VHigh(taba, ao + l, h, rh)
    ensures 0 <= VHigh(taba, ao + l, h, rh) < 2 * V(tabs, so + l, h)
    ensures forall j :: 0 <= j < tabs.Length && !(so <= j < so + l) ==> tabs[j] == old(tabs[j])
    ensures forall j :: 0 <= j < taba.Length && !(ao + l <= j < ao + l + n) ==> taba[j] == old(taba[j])
  {
    hide Val, BP, V;
    ghost var s1, r1, a1 := V(tabs, so + l, h), VHigh(taba, ao + 2 * l, h, qh0), V(taba, ao + l, l);
    ReduceRemainder(tabs, so + l, taba, ao + l, l, h, qh0);
    ghost var r1' := V(taba, ao + 2 * l, h);
    VSplit(taba, ao + l, l, h);
    MpDivnorm(tmp, 0, taba, ao + l, n, tabs, so + l, h);
    assert V(tabs, so + l, h) == s1;
    VSnoc(tmp, 0, l);
    ghost var low, t, u' := V(tmp, 0, l), tmp[l], V(taba, ao + l, h);
    var qhn := qh0 + tmp[l];
    var ql := HalfOf(tabs, so, tmp, l, h, qhn);
    qh := qhn / 2;
    HalveQuotient(low, qhn, V(tabs, so, l), ql, BP(l));
    rh := AddRootIf(ql, taba, ao + l, tabs, so + l, h);
    TwiceRoot(V(tabs, so, l) + qh * BP(l), ql, s1, u', r1, r1', qh0, t, low, BP(l), a1);
    VBound(taba, ao + l, h); VBound(tabs, so + l, h);
    NonNegative(V(taba, ao + l, h), rh, BP(h));
  }

  lemma NonNegative(v: int, rh: int, p: int)
    requires 0 <= v && 0 <= rh && p > 0
    ensures v + rh * p >= 0
  {
    MulMono(0, rh, p);
  }

  /** When the remainder has its extra bit, one root is taken off it (lines 1999-2001). */
  method ReduceRemainder(tabs: array<limb>, s: nat, taba: array<limb>, o: nat, l: nat, h: nat, qh0: limb)
    requires s + h <= tabs.Length && o + l + h <= taba.Length && tabs != taba && qh0 <= 1 && h >= 1
    requires 2 * tabs[s + h - 1] >= B
    requires VHigh(taba, o + l, h, qh0) <= 2 * V(tabs, s, h)
    modifies taba
    ensures V(taba, o + l, h) == old(VHigh(taba, o + l, h, qh0)) - qh0 * V(tabs, s, h)
    ensures V(taba, o, l) == old(V(taba, o, l))
    ensures forall j :: 0 <= j < taba.Length && !(o + l <= j < o + l + h) ==> taba[j] == old(taba[j])
  {
    hide Val, BP;
    if qh0 != 0 {
      VBound(tabs, s, h); VBound(taba, o + l, h);
      ghost var r := V(taba, o + l, h);
      ghost var low := taba[o..o + l];
      var k := MpSub(taba, o + l, taba, o + l, tabs, s, h, 0);
      assert taba[o..o + l] == low;
      VBound(taba, o + l, h);
      OneBorrow(V(taba, o + l, h), k, BP(h), r, V(tabs, s, h));
    }
  }

  lemma OneBorrow(v: int, k: int, p: int, r: int, s: int)
    requires 0 <= k <= 1 && v - k * p == r - s && 0 <= v < p && 0 <= r && s < p && r + 1 * p <= 2 * s
    ensures v == r + 1 * p - 1 * s
  {
  }

  /** Copies the quotient down and halves it (lines 2006-2010). */
  method HalfOf(tabs: array<limb>, so: nat, tmp: array<limb>, l: nat, h: nat, qhn: limb) returns (ql: limb)
    requires so + l + h <= tabs.Length && l < tmp.Length && tabs != tmp
    modifies tabs
    ensures 2 * V(tabs, so, l) + ql == V(tmp, 0, l) + (qhn % 2) * BP(l) && 0 <= ql <= 1
    ensures V(tabs, so + l, h) == old(V(tabs, so + l, h))
    ensures forall j :: 0 <= j < tabs.Length && !(so <= j < so + l) ==> tabs[j] == old(tabs[j])
  {
    hide Val, BP;
    ghost var roots := tabs[so + l..so + l + h];
    CopyLimbs(tabs, so, tmp, 0, l);
    ql := MpShr(tabs, so, tabs, so, l, 1, qhn % 2);
    assert tabs[so + l..so + l + h] == roots;
    assert Pow2(1) == 2;
  }

  /** u = remainder plus the root when the quotient was odd (lines 2011-2014). */
  method AddRootIf(ql: limb, taba: array<limb>, o: nat, tabs: array<limb>, s: nat, h: nat) returns (rh: limb)
    requires ql <= 1 && o + h <= taba.Length && s + h <= tabs.Length && taba != tabs
    modifies taba
    ensures VHigh(taba, o, h, rh) == old(V(taba, o, h)) + ql * V(tabs, s, h) && rh <= 1
    ensures forall j :: 0 <= j < taba.Length && !(o <= j < o + h) ==> taba[j] == old(taba[j])
  {
    hide Val, BP;
    if ql != 0 {
      rh := MpAdd(taba, o, taba, o, tabs, s, h, 0);
    } else {
      rh := 0;
    }
  }

  // ---- subtracting the square -------------------------------------------

  /** Adds the carry of the quotient to the root; a root of B^n wraps to 0 (line 2020). */
  method RaiseRoot(tabs: array<limb>, so: nat, n: nat, l: nat, qh: limb)
    requires l < n && so + n <= tabs.Length && qh <= 1
    requires V(tabs, so + l, n - l) * BP(l) + (V(tabs, so, l) + qh * BP(l)) <= BP(n)
    modifies tabs
    ensures var s' := old(V(tabs, so + l, n - l)) * BP(l) + old(V(tabs, so, l) + qh * BP(l));
            V(tabs, so, n) == (if s' == BP(n) then 0 else s')
    ensures V(tabs, so, l) == old(V(tabs, so, l))
    ensures forall j :: 0 <= j < tabs.Length && !(so <= j < so + n) ==> tabs[j] == old(tabs[j])
  {
    hide Val, BP;
    ghost var low, s1 := tabs[so..so + l], V(tabs, so + l, n - l);
    ghost var s' := s1 * BP(l) + (V(tabs, so, l) + qh * BP(l));
    var k := MpAddUi(tabs, so + l, qh, n - l);
    assert tabs[so..so + l] == low;
    VSplit(tabs, so, l, n - l); BPAdd(l, n - l);
    VBound(tabs, so, n);
    RaiseScale(V(tabs, so, l), V(tabs, so + l, n - l), k, s1, qh, BP(l), BP(n - l));
    WrapAt(V(tabs, so, n), k, BP(n), s');
  }

  lemma RaiseScale(low: int, v: int, k: int, s1: int, qh: int, b: int, q: int)
    requires v + k * q == s1 + qh
    ensures low + b * v + k * (b * q) == s1 * b + (low + qh * b)
  {
    assert b * (v + k * q) == b * (s1 + qh);
    assert b * (k * q) == k * (b * q);
  }

  lemma WrapAt(v: int, k: int, p: int, s: int)
    requires 0 <= v < p && 0 <= k <= 1 && v + k * p == s <= p
    ensures v == (if s == p then 0 else s)
  {
  }

  /**
   * Subtracts the square of the quotient from the remainder; the high limb wraps when that is negative (lines
   * 2027-2034).
   */
  method SubtractSquare(tabs: array<limb>, so: nat, taba: array<limb>, ao: nat, n: nat, l: nat, qh: limb, rh0: limb)
    returns (rh: limb, ghost k: int)
    requires n >= 2 && l == n / 2 && so + n <= tabs.Length && ao + 2 * n <= taba.Length && tabs != taba
    requires qh <= 1 && rh0 <= 1 && (qh == 1 ==> V(tabs, so, l) == 0)
    modifies taba
    ensures var q := V(tabs, so, l) + qh * BP(l);
            VHigh(taba, ao, n, rh0 - k) == old(VHigh(taba, ao, n, rh0)) - q * q
    ensures 0 <= k <= 1 && rh == (rh0 - k) % B
    ensures forall j :: 0 <= j < taba.Length && !(ao <= j < ao + 2 * n) ==> taba[j] == old(taba[j])
  {
    hide Val, BP;
    ghost var q, x := V(tabs, so, l) + qh * BP(l), V(taba, ao, n);
    var c := SquareLow(tabs, so, taba, ao, n, l, qh);
    assert V(tabs, so, l) + qh * BP(l) == q;
    ghost var low := taba[ao..ao + 2 * l];
    VSplit(taba, ao, 2 * l, n - 2 * l);
    var borrow := MpSubUi(taba, ao + 2 * l, c, n - 2 * l);
    assert taba[ao..ao + 2 * l] == low;
    VSplit(taba, ao, 2 * l, n - 2 * l); BPAdd(2 * l, n - 2 * l);
    BorrowOut(V(taba, ao, 2 * l), V(taba, ao + 2 * l, n - 2 * l), c, borrow, BP(2 * l), BP(n - 2 * l));
    rh := (rh0 - borrow) % B;
    MulDiff(rh0, borrow, BP(n));
    k := borrow;
  }

  lemma BorrowOut(low: int, v: int, c: int, k: int, p: int, q: int)
    ensures low + p * v - k * (p * q) == (low - c * p) + p * (v - k * q + c)
  {
  }

  /** The square, taken off the low 2 * l limbs; the borrow is left for the limbs above. */
  method SquareLow(tabs: array<limb>, so: nat, taba: array<limb>, ao: nat, n: nat, l: nat, qh: limb) returns (c: limb)
    requires n >= 2 && l == n / 2 && so + n <= tabs.Length && ao + 2 * n <= taba.Length && tabs != taba
    requires qh <= 1 && (qh == 1 ==> V(tabs, so, l) == 0)
    modifies taba
    ensures var q := V(tabs, so, l) + qh * BP(l);
            V(taba, ao, n) - c * BP(2 * l) == old(V(taba, ao, n)) - q * q && c <= 1
    ensures forall j :: 0 <= j < taba.Length && !(ao <= j < ao + 2 * n) ==> taba[j] == old(taba[j])
  {
    hide Val, BP;
    if qh != 0 {
      c := qh;
      BPAdd(l, l);
    } else {
      VSplit(taba, ao, 2 * l, n - 2 * l);
      ghost var high, head := taba[ao + 2 * l..ao + n], taba[ao..ao + 2 * l];
      MpMul(taba, ao + n, tabs, so, l, tabs, so, l);
      assert taba[ao..ao + 2 * l] == head;
      c := MpSub(taba, ao, taba, ao, taba, ao + n, 2 * l, 0);
      assert taba[ao + 2 * l..ao + n] == high;
      VSplit(taba, ao, 2 * l, n - 2 * l);
    }
  }

  // ---- correcting a root that is one too large --------------------------

  /** A negative remainder: root down by one, remainder up by twice the new root plus one (lines 2035-2039). */
  method LowerRoot(tabs: array<limb>, so: nat, taba: array<limb>, ao: nat, n: nat, rh0: limb, ghost s': int,
                   ghost r': int) returns (rh: limb)
    requires n >= 1 && so + n <= tabs.Length && ao + 2 * n <= taba.Length && tabs != taba
    requires 1 <= s' <= BP(n) && V(tabs, so, n) == (if s' == BP(n) then 0 else s')
    requires rh0 == B - 1 && VHigh(taba, ao, n, -1) == r'
    requires 0 <= r' + 2 * (s' - 1) + 1 <= 2 * (s' - 1)
    modifies tabs, taba
    ensures V(tabs, so, n) == s' - 1
    ensures VHigh(taba, ao, n, rh) == r' + 2 * (s' - 1) + 1 && rh <= 1
    ensures forall j :: 0 <= j < tabs.Length && !(so <= j < so + n) ==> tabs[j] == old(tabs[j])
    ensures forall j :: 0 <= j < taba.Length && !(ao <= j < ao + 2 * n) ==> taba[j] == old(taba[j])
  {
    hide Val, BP;
    var k0 := MpSubUi(tabs, so, 1, n);
    VBound(tabs, so, n);
    UnwrapAt(V(tabs, so, n), k0, BP(n), s');
    var k1 := MpAddMul1(taba, ao, tabs, so, n, 2);
    var k2 := MpAddUi(taba, ao, 1, n);
    VBound(taba, ao, n);
    HighParts(V(taba, ao, n), k1, k2, BP(n), r', s');
    rh := ((rh0 + k1) % B + k2) % B;
  }

  lemma UnwrapAt(v: int, k: int, p: int, s: int)
    requires 0 <= v < p && 0 <= k <= 1 && 1 <= s <= p
    requires v - k * p == (if s == p then 0 else s) - 1
    ensures v == s - 1
  {
  }

  lemma HighParts(v: int, k1: limb, k2: limb, p: int, r': int, s': int)
    requires 0 <= v < p && k2 <= 1 && 1 <= s' <= p
    requires v + k2 * p + k1 * p + (-1) * p == r' + 2 * (s' - 1) + 1
    requires 0 <= r' + 2 * (s' - 1) + 1 <= 2 * (s' - 1)
    ensures 1 <= k1 + k2 <= 2
    ensures ((B - 1 + k1) % B + k2) % B == k1 + k2 - 1
    ensures v + (k1 + k2 - 1) * p == r' + 2 * (s' - 1) + 1
  {
    var k := k1 + k2;
    assert v + (k - 1) * p == v + k2 * p + k1 * p + (-1) * p;
    if k <= 0 { MulMono(k - 1, -1, p); }
    if k >= 3 { MulMono(2, k - 1, p); }
    if k1 == 0 { ModSmall(B - 1, B); ModUnique(B - 1 + k2, B, 1, 0); }
    else { ModUnique(B - 1 + k1, B, 1, k1 - 1); ModSmall(k1 - 1 + k2, B); }
  }

  // ---- the recursion ----------------------------------------------------

  lemma RootTop(tabs: array<limb>, so: nat, n: nat)
    requires n >= 1 && so + n <= tabs.Length && 2 * V(tabs, so, n) >= BP(n)
    ensures 2 * tabs[so + n - 1] >= B
  {
    hide Val, BP, V;
    VSnoc(tabs, so, n - 1); VBound(tabs, so, n - 1); BPStep(n - 1);
    var top: int := tabs[so + n - 1];
    TopParity(V(tabs, so, n - 1), top, BP(n - 1));
  }

  lemma TopParity(low: int, top: int, p: int)
    requires 0 <= low < p && 2 * (low + top * p) >= B * p
    ensures 2 * top >= B
  {
    assert (2 * top) * p == 2 * (top * p);
    if 2 * top <= B - 2 { MulMono(2 * top, B - 2, p); }
  }

  /** The step on values: what the recursion leaves, extended by 2 * l limbs. */
  lemma RecOutcome(v: int, x: int, s1: int, r1: int, b: int, hp: int, a1: int, a0: int, q: int, u: int)
    requires v == x * (b * b) + a1 * b + a0
    requires IsSqrt(x, s1, r1) && hp <= 2 * s1 && 1 <= b <= hp && x < hp * hp
    requires 0 <= a1 < b && 0 <= a0 < b
    requires r1 * b + a1 == q * (2 * s1) + u && 0 <= u < 2 * s1
    ensures 0 <= q <= b && StepOutcome(v, s1 * b + q, u * b + a0 - q * q, hp * b)
  {
    var s, r := s1 * b + q, u * b + a0 - q * q;
    SqrtStep(x, s1, r1, b, a1, a0, q, u, s, r);
    MulMono(b, hp, b);
    var t, rt := if r >= 0 then s else s - 1, if r >= 0 then r else r + 2 * (s - 1) + 1;
    RecRange(v, x, s1, b, hp, a1, a0, t, rt);
    SqrtRange(v, t, rt);
  }

  lemma RecRange(v: int, x: int, s1: int, b: int, hp: int, a1: int, a0: int, t: int, rt: int)
    requires v == x * (b * b) + a1 * b + a0 && IsSqrt(v, t, rt)
    requires 0 <= s1 && s1 * s1 <= x < hp * hp && 0 <= a1 < b && 0 <= a0 < b && 1 <= b && 1 <= hp <= 2 * s1
    ensures t < hp * b && hp * b <= 2 * t
  {
    hide IsSqrt;
    TailBound(v, x, b, hp, s1, a1, a0);
    MulMono(0, s1, b); MulMono(0, hp, b);
    SqrtBetween(v, t, rt, s1 * b, hp * b);
    HalfScaled(hp, s1, b, t);
  }

  lemma TailBound(v: int, x: int, b: int, hp: int, s1: int, a1: int, a0: int)
    requires v == x * (b * b) + a1 * b + a0 && s1 * s1 <= x < hp * hp && 0 <= a1 < b && 0 <= a0 < b
    ensures (s1 * b) * (s1 * b) <= v < (hp * b) * (hp * b)
  {
    var bb := b * b;
    MulMono(a1 + 1, b, b); MulMono(0, a1, b);
    TailScale(x, bb, hp * hp, s1 * s1, a1 * b + a0);
    SquareOfProduct(s1, b); SquareOfProduct(hp, b);
  }

  lemma TailScale(x: int, bb: int, hh: int, ss: int, tail: int)
    requires ss <= x < hh && 0 <= tail < bb
    ensures ss * bb <= x * bb + tail < hh * bb
  {
    MulMono(x + 1, hh, bb); MulMono(ss, x, bb);
  }

  /** Root of 2 * n limbs with one of the two leading bits set; the remainder has n limbs and the returned high limb. */
  method MpSqrtremRec(tabs: array<limb>, so: nat, taba: array<limb>, ao: nat, n: nat, tmp: array<limb>)
    returns (rh: limb)
    requires n >= 1 && so + n <= tabs.Length && ao + 2 * n <= taba.Length && n / 2 + 1 <= tmp.Length
    requires tabs != taba && tabs != tmp && taba != tmp
    requires 4 * taba[ao + 2 * n - 1] >= B
    modifies tabs, taba, tmp
    ensures IsSqrt(old(V(taba, ao, 2 * n)), V(tabs, so, n), VHigh(taba, ao, n, rh))
    ensures rh <= 1 && 2 * V(tabs, so, n) >= BP(n)
    ensures forall j :: 0 <= j < tabs.Length && !(so <= j < so + n) ==> tabs[j] == old(tabs[j])
    ensures forall j :: 0 <= j < taba.Length && !(ao <= j < ao + 2 * n) ==> taba[j] == old(taba[j])
    decreases n
  {
    hide Val, BP, V, VHigh, IsSqrt;
    if n == 1 {
      rh := MpSqrtrem2(tabs, so, taba, ao);
      DivisorBig(tabs, so, 1);
    } else {
      var l := n / 2;
      var h := n - l;
      ghost var v := V(taba, ao, 2 * n);
      SplitNumber(taba, ao, n, l, h);
      ghost var x, a1, a0 := V(taba, ao + 2 * l, 2 * h), V(taba, ao + l, l), V(taba, ao, l);
      ghost var a10 := taba[ao..ao + 2 * l];
      var qh := MpSqrtremRec(tabs, so + l, taba, ao + 2 * l, h, tmp);
      SameLow(taba, ao, l, a10, a1, a0);
      rh := ExtendRoot(tabs, so, taba, ao, tmp, n, l, h, qh, v, x, a1, a0);
    }
  }

  lemma SameLow(taba: array<limb>, ao: nat, l: nat, s: seq<limb>, a1: int, a0: int)
    requires ao + 2 * l <= taba.Length && |s| == 2 * l && taba[ao..ao + 2 * l] == s
    requires a0 == Val(s[..l]) && a1 == Val(s[l..])
    ensures V(taba, ao, l) == a0 && V(taba, ao + l, l) == a1
  {
    hide Val;
    assert taba[ao..ao + l] == s[..l] && taba[ao + l..ao + 2 * l] == s[l..];
  }

  lemma SplitNumber(taba: array<limb>, ao: nat, n: nat, l: nat, h: nat)
    requires n >= 2 && l == n / 2 && h == n - l && ao + 2 * n <= taba.Length
    ensures V(taba, ao, 2 * n)
            == V(taba, ao + 2 * l, 2 * h) * (BP(l) * BP(l)) + V(taba, ao + l, l) * BP(l) + V(taba, ao, l)
    ensures V(taba, ao, l) == Val(taba[ao..ao + 2 * l][..l]) && V(taba, ao + l, l) == Val(taba[ao..ao + 2 * l][l..])
    ensures V(taba, ao + 2 * l, 2 * h) < BP(h) * BP(h)
    ensures 0 <= V(taba, ao + l, l) < BP(l) && 0 <= V(taba, ao, l) < BP(l)
  {
    hide Val, BP, V;
    VSplit(taba, ao, 2 * l, 2 * h); VSplit(taba, ao, l, l); BPAdd(l, l); BPAdd(h, h);
    VBound(taba, ao + 2 * l, 2 * h); VBound(taba, ao + l, l); VBound(taba, ao, l);
    ThreeParts(V(taba, ao, l), V(taba, ao + l, l), V(taba, ao + 2 * l, 2 * h), BP(l));
    TwoSlices(taba, ao, l);
  }

  lemma ThreeParts(a0: int, a1: int, x: int, b: int)
    ensures a0 + b * a1 + (b * b) * x == x * (b * b) + a1 * b + a0
  {
  }

  lemma TwoSlices(taba: array<limb>, ao: nat, l: nat)
    requires ao + 2 * l <= taba.Length
    ensures V(taba, ao, l) == Val(taba[ao..ao + 2 * l][..l]) && V(taba, ao + l, l) == Val(taba[ao..ao + 2 * l][l..])
  {
    hide Val;
    assert taba[ao..ao + l] == taba[ao..ao + 2 * l][..l] && taba[ao + l..ao + 2 * l] == taba[ao..ao + 2 * l][l..];
  }

  /** From the root of the 2 * h leading limbs to that of all 2 * n. */
  method ExtendRoot(tabs: array<limb>, so: nat, taba: array<limb>, ao: nat, tmp: array<limb>, n: nat, l: nat, h: nat,
                    qh0: limb,
                    ghost v: int, ghost x: int, ghost a1: int, ghost a0: int) returns (rh: limb)
    requires n >= 2 && l == n / 2 && h == n - l
    requires so + n <= tabs.Length && ao + 2 * n <= taba.Length && n / 2 + 1 <= tmp.Length
    requires tabs != taba && tabs != tmp && taba != tmp
    requires v == x * (BP(l) * BP(l)) + a1 * BP(l) + a0 && x < BP(h) * BP(h)
    requires 0 <= a1 < BP(l) && 0 <= a0 < BP(l)
    requires V(taba, ao + l, l) == a1 && V(taba, ao, l) == a0
    requires IsSqrt(x, V(tabs, so + l, h), VHigh(taba, ao + 2 * l, h, qh0))
    requires qh0 <= 1 && 2 * V(tabs, so + l, h) >= BP(h)
    modifies tabs, taba, tmp
    ensures IsSqrt(v, V(tabs, so, n), VHigh(taba, ao, n, rh))
    ensures rh <= 1 && 2 * V(tabs, so, n) >= BP(n)
    ensures forall j :: 0 <= j < tabs.Length && !(so <= j < so + n) ==> tabs[j] == old(tabs[j])
    ensures forall j :: 0 <= j < taba.Length && !(ao <= j < ao + 2 * n) ==> taba[j] == old(taba[j])
  {
    hide Val, BP, V, VHigh, IsSqrt, StepOutcome;
    ghost var s1, r1 := V(tabs, so + l, h), VHigh(taba, ao + 2 * l, h, qh0);
    SqrtRange(x, s1, r1);
    RootTop(tabs, so + l, h);
    var qh, rh0 := DivideAndKeep(tabs, so, taba, ao, tmp, n, l, h, qh0);
    ghost var q, u := V(tabs, so, l) + qh * BP(l), VHigh(taba, ao + l, h, rh0);
    BPMono(l, h); BPAdd(h, l);
    RecOutcome(v, x, s1, r1, BP(l), BP(h), a1, a0, q, u);
    VBound(tabs, so, l);
    FullQuotientLow(V(tabs, so, l), qh, BP(l));
    rh := FinishRoot(tabs, so, taba, ao, n, l, h, qh, rh0, v, a0, s1 * BP(l) + q, u * BP(l) + a0 - q * q);
  }

  lemma FullQuotientLow(low: int, qh: int, b: int)
    requires 0 <= low && low + qh * b <= b
    ensures qh == 1 ==> low == 0
  {
  }

  /** The division, with what it leaves alone. */
  method DivideAndKeep(tabs: array<limb>, so: nat, taba: array<limb>, ao: nat, tmp: array<limb>, n: nat, l: nat, h: nat,
                       qh0: limb)
    returns (qh: limb, rh: limb)
    requires n >= 2 && l == n / 2 && h == n - l
    requires so + n <= tabs.Length && ao + 2 * n <= taba.Length && l < tmp.Length
    requires tabs != taba && tabs != tmp && taba != tmp
    requires 2 * tabs[so + n - 1] >= B && qh0 <= 1
    requires VHigh(taba, ao + 2 * l, h, qh0) <= 2 * V(tabs, so + l, h)
    modifies tabs, taba, tmp
    ensures qh <= 1 && rh <= 1
    ensures V(tabs, so + l, h) == old(V(tabs, so + l, h)) && V(taba, ao, l) == old(V(taba, ao, l))
    ensures old(VHigh(taba, ao + 2 * l, h, qh0)) * BP(l) + old(V(taba, ao + l, l))
         == (V(tabs, so, l) + qh * BP(l)) * (2 * V(tabs, so + l, h)) + VHigh(taba, ao + l, h, rh)
    ensures 0 <= VHigh(taba, ao + l, h, rh) < 2 * V(tabs, so + l, h)
    ensures forall j :: 0 <= j < tabs.Length && !(so <= j < so + n) ==> tabs[j] == old(tabs[j])
    ensures forall j :: 0 <= j < taba.Length && !(ao <= j < ao + 2 * n) ==> taba[j] == old(taba[j])
  {
    hide Val, BP, VHigh;
    ghost var roots, low := tabs[so + l..so + l + h], taba[ao..ao + l];
    qh, rh := DivideByTwiceRoot(tabs, so, taba, ao, tmp, n, l, h, qh0);
    assert tabs[so + l..so + l + h] == roots && taba[ao..ao + l] == low;
  }

  /** Lines 2020-2040: assemble the root, subtract the square, correct once if that is negative. */
  method FinishRoot(tabs: array<limb>, so: nat, taba: array<limb>, ao: nat, n: nat, l: nat, h: nat, qh: limb, rh0: limb,
                    ghost v: int, ghost a0: int, ghost s': int, ghost r': int) returns (rh: limb)
    requires n >= 2 && l == n / 2 && h == n - l && so + n <= tabs.Length && ao + 2 * n <= taba.Length && tabs != taba
    requires qh <= 1 && rh0 <= 1 && (qh == 1 ==> V(tabs, so, l) == 0)
    requires V(taba, ao, l) == a0
    requires var q, u := V(tabs, so, l) + qh * BP(l), VHigh(taba, ao + l, h, rh0);
             s' == V(tabs, so + l, h) * BP(l) + q && r' == u * BP(l) + a0 - q * q
    requires StepOutcome(v, s', r', BP(n))
    modifies tabs, taba
    ensures rh <= 1 && 2 * V(tabs, so, n) >= BP(n)
    ensures IsSqrt(v, V(tabs, so, n), VHigh(taba, ao, n, rh))
    ensures forall j :: 0 <= j < tabs.Length && !(so <= j < so + n) ==> tabs[j] == old(tabs[j])
    ensures forall j :: 0 <= j < taba.Length && !(ao <= j < ao + 2 * n) ==> taba[j] == old(taba[j])
  {
    hide Val, BP, V, VHigh, IsSqrt;
    JoinRemainder(taba, ao, l, h, rh0);
    RaiseRoot(tabs, so, n, l, qh);
    ghost var k;
    rh, k := SubtractSquare(tabs, so, taba, ao, n, l, qh, rh0);
    rh := CorrectRoot(tabs, so, taba, ao, n, rh, rh0 - k, v, s', r');
  }

  /** The last test: is the remainder, read as signed, negative (line 2035)? */
  method CorrectRoot(tabs: array<limb>, so: nat, taba: array<limb>, ao: nat, n: nat, rh0: limb, ghost hi: int,
                     ghost v: int, ghost s': int, ghost r': int) returns (rh: limb)
    requires n >= 1 && so + n <= tabs.Length && ao + 2 * n <= taba.Length && tabs != taba
    requires StepOutcome(v, s', r', BP(n))
    requires V(tabs, so, n) == (if s' == BP(n) then 0 else s')
    requires -1 <= hi <= 1 && rh0 == hi % B && VHigh(taba, ao, n, hi) == r'
    modifies tabs, taba
    ensures rh <= 1 && 2 * V(tabs, so, n) >= BP(n)
    ensures IsSqrt(v, V(tabs, so, n), VHigh(taba, ao, n, rh))
    ensures forall j :: 0 <= j < tabs.Length && !(so <= j < so + n) ==> tabs[j] == old(tabs[j])
    ensures forall j :: 0 <= j < taba.Length && !(ao <= j < ao + 2 * n) ==> taba[j] == old(taba[j])
  {
    hide Val, BP, V, IsSqrt;
    VBound(taba, ao, n);
    SignedHigh(V(taba, ao, n), hi, BP(n), r');
    rh := rh0;
    if 2 * rh >= B {
      rh := LowerRoot(tabs, so, taba, ao, n, rh, s', r');
    }
  }

  lemma JoinRemainder(taba: array<limb>, ao: nat, l: nat, h: nat, rh0: limb)
    requires ao + l + h <= taba.Length
    ensures VHigh(taba, ao, l + h, rh0) == VHigh(taba, ao + l, h, rh0) * BP(l) + V(taba, ao, l)
  {
    hide Val, BP, V;
    VSplit(taba, ao, l, h); BPAdd(l, h);
    JoinScale(V(taba, ao, l), V(taba, ao + l, h), rh0, BP(l), BP(h));
  }

  lemma JoinScale(a0: int, v: int, r: int, b: int, q: int)
    ensures a0 + b * v + r * (b * q) == (v + r * q) * b + a0
  {
  }

  lemma SignedHigh(v: int, k: int, p: int, r: int)
    requires 0 <= v < p && -1 <= k <= 1 && v + k * p == r
    ensures r >= 0 ==> 0 <= k && 2 * (k % B) < B && k % B == k
    ensures r < 0 ==> k == -1 && k % B == B - 1
  {
    if k == -1 { ModUnique(k, B, -1, B - 1); } else { ModSmall(k, B); }
  }

  /** Root and remainder of 2 * n limbs; the remainder is left in the n + 1 low limbs of taba. */
  method MpSqrtrem(tabs: array<limb>, taba: array<limb>, n: nat)
    requires n >= 1 && tabs.Length >= n && taba.Length >= 2 * n && tabs != taba
    requires 4 * taba[2 * n - 1] >= B
    modifies tabs, taba
    ensures IsSqrt(old(V(taba, 0, 2 * n)), V(tabs, 0, n), V(taba, 0, n + 1))
    ensures taba[n] <= 1
  {
    hide Val, BP, V, VHigh, IsSqrt;
    var tmp := new limb[n / 2 + 1];
    var rh := MpSqrtremRec(tabs, 0, taba, 0, n, tmp);
    StoreHigh(taba, n, rh);
  }

  method StoreHigh(taba: array<limb>, n: nat, rh: limb)
    requires n < taba.Length
    modifies taba
    ensures V(taba, 0, n + 1) == old(VHigh(taba, 0, n, rh)) && taba[n] == rh
  {
    hide Val, BP;
    ghost var low := taba[0..n];
    taba[n] := rh;
    assert taba[0..n] == low;
    VSnoc(taba, 0, n);
  }
}
