/** Decimal shifts of numbers held in base 10^19. */
module DecShift {
  import opened Limbs
  import opened LimbMul
  import opened FastDiv

  const LIMB_DIGITS: nat := 19

  /** 10^19. */
  const D: int := 10_000_000_000_000_000_000

  const MP_POW_DEC: seq<limb> := [
    1,
    10,
    100,
    1_000,
    10_000,
    100_000,
    1_000_000,
    10_000_000,
    100_000_000,
    1_000_000_000,
    10_000_000_000,
    100_000_000_000,
    1_000_000_000_000,
    10_000_000_000_000,
    100_000_000_000_000,
    1_000_000_000_000_000,
    10_000_000_000_000_000,
    100_000_000_000_000_000,
    1_000_000_000_000_000_000,
    10_000_000_000_000_000_000]

  const MP_POW_DIV: seq<FastDivData> := [
    FastDivData(0x0000000000000001, 0, 0),
    FastDivData(0x999999999999999a, 1, 3),
    FastDivData(0x47ae147ae147ae15, 1, 6),
    FastDivData(0x0624dd2f1a9fbe77, 1, 9),
    FastDivData(0xa36e2eb1c432ca58, 1, 13),
    FastDivData(0x4f8b588e368f0847, 1, 16),
    FastDivData(0x0c6f7a0b5ed8d36c, 1, 19),
    FastDivData(0xad7f29abcaf48579, 1, 23),
    FastDivData(0x5798ee2308c39dfa, 1, 26),
    FastDivData(0x12e0be826d694b2f, 1, 29),
    FastDivData(0xb7cdfd9d7bdbab7e, 1, 33),
    FastDivData(0x5fd7fe17964955fe, 1, 36),
    FastDivData(0x19799812dea11198, 1, 39),
    FastDivData(0xc25c268497681c27, 1, 43),
    FastDivData(0x6849b86a12b9b01f, 1, 46),
    FastDivData(0x203af9ee756159b3, 1, 49),
    FastDivData(0xcd2b297d889bc2b7, 1, 53),
    FastDivData(0x70ef54646d496893, 1, 56),
    FastDivData(0x2725dd1d243aba0f, 1, 59),
    FastDivData(0xd83c94fb6d2ac34d, 1, 63)]

  /** Base-2 logarithms of the table's powers, rounded up. */
  const LOG2: seq<nat> := [0, 4, 7, 10, 14, 17, 20, 24, 27, 30, 34, 37, 40, 44, 47, 50, 54, 57, 60, 64]

  /** The table holds the powers of ten from 1 up to the base. */
  lemma PowersOfTen(i: nat)
    requires i < 19
    ensures MP_POW_DEC[0] == 1 && MP_POW_DEC[i + 1] == 10 * MP_POW_DEC[i] && MP_POW_DEC[19] == D && |MP_POW_DEC| == 20
  {
  }

  lemma Raise(l: nat, k: nat, p: int)
    requires Pow2(l) == p && k <= 4
    ensures Pow2(l + k) == (if k == 0 then p else if k == 1 then 2 * p else if k == 2 then 4 * p
                            else if k == 3 then 8 * p else 16 * p)
  {
    Pow2Add(l, k);
    assert Pow2(0) == 1 && Pow2(1) == 2 && Pow2(2) == 4 && Pow2(3) == 8 && Pow2(4) == 16;
  }

  /** One entry of the table, given the power of two it is scaled by. */
  lemma Entry(i: nat, l: nat, p: int)
    requires i < 20 && Pow2(l) == p && 0 < MP_POW_DEC[i] <= p
    requires MP_POW_DIV[i].shift1 == (if l > 1 then 1 else l) && MP_POW_DIV[i].shift2 == (if l == 0 then 0 else l - 1)
    requires (B + MP_POW_DIV[i].m1 - 1) * MP_POW_DEC[i] <= B * p < (B + MP_POW_DIV[i].m1) * MP_POW_DEC[i]
    requires l == 0 ==> MP_POW_DIV[i].m1 == 1
    ensures Divides(MP_POW_DIV[i], MP_POW_DEC[i], l)
  {
  }

  lemma Entries0()
    ensures forall i :: 0 <= i < 5 ==> Divides(MP_POW_DIV[i], MP_POW_DEC[i], LOG2[i])
    ensures Pow2(14) == 0x4000
  {
    hide Pow2, Divides;
    PowZero();
    Entry(0, 0, 1);
    Raise(0, 4, 0x1);
    Entry(1, 4, 0x10);
    Raise(4, 3, 0x10);
    Entry(2, 7, 0x80);
    Raise(7, 3, 0x80);
    Entry(3, 10, 0x400);
    Raise(10, 4, 0x400);
    Entry(4, 14, 0x4000);
  }

  lemma Entries5()
    ensures forall i :: 5 <= i < 10 ==> Divides(MP_POW_DIV[i], MP_POW_DEC[i], LOG2[i])
    ensures Pow2(30) == 0x40000000
  {
    hide Pow2, Divides;
    Entries0();
    Raise(14, 3, 0x4000);
    Entry(5, 17, 0x20000);
    Raise(17, 3, 0x20000);
    Entry(6, 20, 0x100000);
    Raise(20, 4, 0x100000);
    Entry(7, 24, 0x1000000);
    Raise(24, 3, 0x1000000);
    Entry(8, 27, 0x8000000);
    Raise(27, 3, 0x8000000);
    Entry(9, 30, 0x40000000);
  }

  lemma Entries10()
    ensures forall i :: 10 <= i < 15 ==> Divides(MP_POW_DIV[i], MP_POW_DEC[i], LOG2[i])
    ensures Pow2(47) == 0x800000000000
  {
    hide Pow2, Divides;
    Entries5();
    Raise(30, 4, 0x40000000);
    Entry(10, 34, 0x400000000);
    Raise(34, 3, 0x400000000);
    Entry(11, 37, 0x2000000000);
    Raise(37, 3, 0x2000000000);
    Entry(12, 40, 0x10000000000);
    Raise(40, 4, 0x10000000000);
    Entry(13, 44, 0x100000000000);
    Raise(44, 3, 0x100000000000);
    Entry(14, 47, 0x800000000000);
  }

  lemma Entries15()
    ensures forall i :: 15 <= i < 19 ==> Divides(MP_POW_DIV[i], MP_POW_DEC[i], LOG2[i])
    ensures Pow2(60) == 0x1000000000000000
  {
    hide Pow2, Divides;
    Entries10();
    Raise(47, 3, 0x800000000000);
    Entry(15, 50, 0x4000000000000);
    Raise(50, 4, 0x4000000000000);
    Entry(16, 54, 0x40000000000000);
    Raise(54, 3, 0x40000000000000);
    Entry(17, 57, 0x200000000000000);
    Raise(57, 3, 0x200000000000000);
    Entry(18, 60, 0x1000000000000000);
  }

  /** The last entry is not what the initialisation would compute for 10^19, which is beyond its range. */
  lemma LastEntryDiffers()
    ensures MP_POW_DIV[19].m1 == (Pow2(64) - D) * B / D + 3
  {
    Pow2Limb();
  }

  /** It divides exactly all the same: its error is too large for the general bound, but no limb reaches 2 * 10^19. */
  lemma LastEntryExact(a: limb)
    ensures FastUdiv(a, MP_POW_DIV[19]) == a / D
  {
    hide Pow2, FastUdiv;
    var s := MP_POW_DIV[19];
    var m1: int, t1, g := s.m1, s.m1 * a / B, (s.m1 * a) % B;
    TwoShifts(a, s, 64);
    Pow2Limb();
    DivMod(m1 * a, B);
    DivMod(a, D);
    var q, r := a / D, a % D;
    ScaledIdentity(a, m1, t1, g, D, B, q, r, (B + m1) * D - B * B);
    LastBound(a + t1 - q * B, a, g, q, r);
    ModUnique(a + t1, B, q, a + t1 - q * B);
  }

  lemma LastBound(x: int, a: limb, g: int, q: int, r: int)
    requires (B * D) * x == r * (B * B) + a * ((B + MP_POW_DIV[19].m1) * D - B * B) - D * g
    requires a == q * D + r && 0 <= r < D && 0 <= g < B
    ensures 0 <= x < B
  {
    assert q == 0 || q == 1;
  }

  lemma PowZero()
    ensures Pow2(0) == 1
  {
  }

  /** Every entry of the table divides exactly by its power of ten. */
  lemma TableExact(a: limb, i: nat)
    requires i <= LIMB_DIGITS
    ensures 0 < MP_POW_DEC[i] && FastUdiv(a, MP_POW_DIV[i]) == a / MP_POW_DEC[i] && 0 <= a / MP_POW_DEC[i] <= a
  {
    hide Pow2, Divides, FastUdiv;
    Entries0(); Entries5(); Entries10(); Entries15();
    EntryPositive(i);
    if i == LIMB_DIGITS {
      LastEntryExact(a);
      QuotientSmall(a, D);
    } else {
      FastUdivExact(a, MP_POW_DIV[i], MP_POW_DEC[i], LOG2[i]);
    }
  }

  lemma EntryPositive(i: nat)
    requires i <= LIMB_DIGITS
    ensures 0 < MP_POW_DEC[i] <= D
  {
  }

  /** The two parts of a decimal digit split at `shift` of its places. */
  lemma Complement(shift: nat)
    requires 1 <= shift < LIMB_DIGITS
    ensures MP_POW_DEC[shift] * MP_POW_DEC[LIMB_DIGITS - shift] == D && D < B
  {
    match shift {
      case 1 => case 2 => case 3 => case 4 => case 5 => case 6 => case 7 => case 8 => case 9 =>
      case 10 => case 11 => case 12 => case 13 => case 14 => case 15 => case 16 => case 17 => case 18 =>
    }
  }

  /** Quotient and remainder of a by 10^shift. */
  method FastShrRemDec(a: limb, shift: nat) returns (q: limb, r: limb)
    requires shift <= LIMB_DIGITS
    ensures a == q * MP_POW_DEC[shift] + r && r < MP_POW_DEC[shift]
  {
    hide FastUdiv, Pow2;
    TableExact(a, shift);
    var d: int := MP_POW_DEC[shift];
    DivMod(a, d);
    q := FastUdiv(a, MP_POW_DIV[shift]);
    ModUnique(a - q * d, B, 0, a - q * d);
    r := (a - q * MP_POW_DEC[shift]) % B;
  }

  // Values in base 10^19

  function DP(n: nat): int {
    if n == 0 then 1 else D * DP(n - 1)
  }

  function DVal(s: seq<limb>): int {
    if s == [] then 0 else s[0] + D * DVal(s[1..])
  }

  ghost predicate Digits(s: seq<limb>) {
    forall i :: 0 <= i < |s| ==> s[i] < D
  }

  lemma {:induction false} DValSnoc(s: seq<limb>, x: limb)
    ensures DVal(s + [x]) == DVal(s) + x * DP(|s|)
  {
    if s == [] {
      assert [] + [x] == [x] && [x][1..] == [];
    } else {
      DValSnoc(s[1..], x);
      assert (s + [x])[1..] == s[1..] + [x];
      SnocTerm(DVal(s[1..]), x, DP(|s| - 1));
    }
  }

  lemma SnocTerm(v: int, x: int, p: int)
    ensures D * (v + x * p) == D * v + x * (D * p)
  {
    assert D * (x * p) == x * (D * p);
  }

  lemma DValHead(s: seq<limb>, i: nat)
    requires i < |s|
    ensures DVal(s[i..]) == s[i] + D * DVal(s[i + 1..])
  {
    assert s[i..][1..] == s[i + 1..];
  }

  lemma DPStep(n: nat)
    ensures DP(n + 1) == D * DP(n) && DP(0) == 1
  {
  }

  /** One digit of the division by p, where p * c is the base. */
  lemma ShrDigit(a: int, l: int, q: int, r: int, p: int, c: int)
    requires p * c == D && 0 <= a < D && a == q * p + r && 0 <= r < p && 0 <= l < p && c >= 1 && q >= 0
    ensures 0 <= q + l * c < D && (q + l * c) * p + r == a + l * D
  {
    MulMono(l, p - 1, c);
    MulMono(0, l, c);
    assert (p - 1) * c == p * c - c;
    if q >= c { MulMono(c, q, p); }
    assert (q + l * c) * p == q * p + l * (p * c);
  }

  lemma ShrStep(v: int, l: int, t: int, hw: int, x: int, a: int, r: int, p: int)
    requires v * p + l == t + hw && x * p + r == a + l * D
    ensures (x + D * v) * p + r == (a + D * t) + D * hw
  {
    assert (x + D * v) * p == x * p + D * (v * p);
    assert D * (v * p) == D * (t + hw - l);
  }

  /** Divides an n-digit number, preceded by `high`, by 10^shift; the remainder is returned. */
  method MpShrDec(tabR: array<limb>, tab: array<limb>, n: nat, shift: nat, high: limb) returns (rem: limb)
    requires n <= tabR.Length && n <= tab.Length && 1 <= shift < LIMB_DIGITS && high < MP_POW_DEC[shift]
             && Digits(tab[..n])
    modifies tabR
    ensures DVal(tabR[..n]) * MP_POW_DEC[shift] + rem == old(DVal(tab[..n])) + high * DP(n)
    ensures rem < MP_POW_DEC[shift] && Digits(tabR[..n])
    ensures forall j :: n <= j < tabR.Length ==> tabR[j] == old(tabR[j])
  {
    hide DVal, DP;
    Complement(shift);
    EntryPositive(shift);
    EntryPositive(LIMB_DIGITS - shift);
    ghost var s, p := tab[..n], MP_POW_DEC[shift] as int;
    ghost var rs: seq<limb> := [];
    var l: limb, i := high, n;
    ShrStart(s, high, p);
    while i > 0
      invariant 0 <= i <= n && l < p
      invariant |rs| == n - i && forall j :: i <= j < n ==> tabR[j] == rs[j - i]
      invariant forall j :: 0 <= j < i ==> tab[j] == s[j]
      invariant forall j :: n <= j < tabR.Length ==> tabR[j] == old(tabR[j])
      invariant DVal(rs) * p + l == DVal(s[i..]) + high * DP(n - i) && Digits(rs)
    {
      i := i - 1;
      var a := tab[i];
      var q, r := FastShrRemDec(a, shift);
      ShrDigit(a, l, q, r, p, MP_POW_DEC[LIMB_DIGITS - shift]);
      var x := q + l * MP_POW_DEC[LIMB_DIGITS - shift];
      tabR[i] := x;
      ShrNext(s, i, rs, x, high, l, r, p);
      rs := [x] + rs;
      l := r;
    }
    assert tabR[..n] == rs && s[0..] == s;
    rem := l;
  }

  lemma ShrStart(s: seq<limb>, high: int, p: int)
    ensures DVal([]) * p + high == DVal(s[|s|..]) + high * DP(0)
  {
  }

  lemma ShrNext(s: seq<limb>, i: nat, rs: seq<limb>, x: limb, high: int, l: int, r: int, p: int)
    requires i < |s| && |rs| == |s| - i - 1 && x * p + r == s[i] + l * D
    requires DVal(rs) * p + l == DVal(s[i + 1..]) + high * DP(|s| - i - 1)
    ensures DVal([x] + rs) * p + r == DVal(s[i..]) + high * DP(|s| - i)
  {
    hide DVal, DP;
    DValHead(s, i);
    DValHead([x] + rs, 0);
    assert ([x] + rs)[0..] == [x] + rs && ([x] + rs)[1..] == rs;
    DPStep(|s| - i - 1);
    assert high * (D * DP(|s| - i - 1)) == D * (high * DP(|s| - i - 1));
    ShrStep(DVal(rs), l, DVal(s[i + 1..]), high * DP(|s| - i - 1), x, s[i], r, p);
  }

  /** Multiplies an n-digit number by 10^shift and adds `low`; the digits moved out are returned. */
  method MpShlDec(tabR: array<limb>, tab: array<limb>, n: nat, shift: nat, low: limb) returns (carry: limb)
    requires n <= tabR.Length && n <= tab.Length && 1 <= shift < LIMB_DIGITS && low < MP_POW_DEC[shift]
             && Digits(tab[..n])
    modifies tabR
    ensures DVal(tabR[..n]) + carry * DP(n) == old(DVal(tab[..n])) * MP_POW_DEC[shift] + low
    ensures carry < MP_POW_DEC[shift] && Digits(tabR[..n])
    ensures forall j :: n <= j < tabR.Length ==> tabR[j] == old(tabR[j])
  {
    hide DVal, DP;
    Complement(shift);
    EntryPositive(shift);
    EntryPositive(LIMB_DIGITS - shift);
    ghost var s, p := tab[..n], MP_POW_DEC[shift] as int;
    ghost var rs: seq<limb> := [];
    var l: limb, i := low, 0;
    ShlStart(s, low, p);
    while i < n
      invariant 0 <= i <= n && l < p
      invariant |rs| == i && forall j :: 0 <= j < i ==> tabR[j] == rs[j]
      invariant forall j :: i <= j < n ==> tab[j] == s[j]
      invariant forall j :: n <= j < tabR.Length ==> tabR[j] == old(tabR[j])
      invariant DVal(rs) + l * DP(i) == DVal(s[..i]) * p + low && Digits(rs)
    {
      var a := tab[i];
      var q, r := FastShrRemDec(a, LIMB_DIGITS - shift);
      ShlDigit(a, l, q, r, p, MP_POW_DEC[LIMB_DIGITS - shift]);
      var x := r * MP_POW_DEC[shift] + l;
      tabR[i] := x;
      ShlNext(s, i, rs, x, low, l, q, p);
      rs := rs + [x];
      l := q;
      i := i + 1;
    }
    assert tabR[..n] == rs && s[..n] == s;
    carry := l;
  }

  /** One digit of the multiplication by p, where p * c is the base. */
  lemma ShlDigit(a: int, l: int, q: int, r: int, p: int, c: int)
    requires p * c == D && 0 <= a < D && a == q * c + r && 0 <= r < c && 0 <= l < p && q >= 0
    ensures 0 <= r * p + l < D && q < p && (r * p + l) + q * D == a * p + l
  {
    MulMono(r, c - 1, p);
    MulMono(0, r, p);
    assert (c - 1) * p == p * c - p;
    if q >= p { MulMono(p, q, c); }
    assert (q * c + r) * p == q * (p * c) + r * p;
  }

  lemma ShlStart(s: seq<limb>, low: int, p: int)
    ensures DVal([]) + low * DP(0) == DVal(s[..0]) * p + low
  {
  }

  lemma ShlNext(s: seq<limb>, i: nat, rs: seq<limb>, x: limb, low: int, l: int, q: int, p: int)
    requires i < |s| && |rs| == i && x + q * D == s[i] * p + l
    requires DVal(rs) + l * DP(i) == DVal(s[..i]) * p + low
    ensures DVal(rs + [x]) + q * DP(i + 1) == DVal(s[..i + 1]) * p + low
  {
    hide DVal, DP;
    DValSnoc(rs, x);
    DValSnoc(s[..i], s[i]);
    assert s[..i + 1] == s[..i] + [s[i]];
    DPStep(i);
    ShlTerm(DVal(rs), DVal(s[..i]), x, q, s[i], l, p, DP(i), low);
  }

  lemma ShlTerm(v: int, t: int, x: int, q: int, a: int, l: int, p: int, w: int, low: int)
    requires x + q * D == a * p + l && v + l * w == t * p + low
    ensures (v + x * w) + q * (D * w) == (t + a * w) * p + low
  {
    assert (x + q * D) * w == (a * p + l) * w;
    assert (x + q * D) * w == x * w + q * (D * w);
    assert (a * p + l) * w == (a * w) * p + l * w;
    assert (t + a * w) * p == t * p + (a * w) * p;
  }
}
