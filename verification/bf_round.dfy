/** Rounding a big float in place to a given number of bits. */
module BfRound {
  import opened Limbs
  import opened LimbOps
  import opened LimbMul
  import opened NttWords
  import opened Bits
  import opened RoundSpec

  /** The weight of the last bit kept when a number of l limbs is rounded to prec bits. */
  function Unit(l: nat, prec: nat): (u: int)
    ensures u >= 1
  {
    if prec < 64 * l then W(64 * l - prec) else 1
  }

  /** Numbers of l limbs that are multiples of the unit have at most prec significant bits. */
  lemma UnitLeavesPrec(l: nat, prec: nat)
    ensures if prec <= 64 * l then Unit(l, prec) * Pow2(prec) == BP(l) else Unit(l, prec) == 1
  {
    hide W;
    if prec < 64 * l {
      WeightIsPower(64 * l - prec);
      Pow2Add(64 * l - prec, prec);
    }
    WeightIsPower(64 * l);
    WLimb(l);
  }

  /** Quotient and remainder by 2h from those by h. */
  lemma HalfUnit(m: int, h: int)
    requires h >= 1 && m >= 0
    ensures m % (2 * h) == ((m / h) % 2) * h + m % h && m / (2 * h) == (m / h) / 2 && 0 <= m % h < h
  {
    DivMod(m, h);
    var q, b := m / h, (m / h) % 2;
    assert q == 2 * (q / 2) + b;
    assert q * h == (q / 2) * (2 * h) + b * h;
    ModUnique(m, 2 * h, q / 2, b * h + m % h);
  }

  /** The rounding bit, the sticky bits and the last bit decide as the exact remainder does. */
  lemma BitsDecide(m: int, h: int, mode: RndMode, sign: bool, bit1: int, bit0: bool, last: int)
    requires h >= 1 && m >= 0 && bit1 == (m / h) % 2 && (bit0 <==> m % h != 0) && last == (m / (2 * h)) % 2
    ensures var u := 2 * h; var inexact := bit1 == 1 || bit0;
            && (inexact <==> m % u != 0)
            && (AddOne(mode, sign, m / u, m % u, u) <==>
                  match mode
                  case RNDZ => false
                  case RNDN => bit1 == 1 && (bit0 || last == 1)
                  case RNDNA => bit1 == 1
                  case RNDA => inexact
                  case RNDD => sign && inexact
                  case RNDU => !sign && inexact)
  {
    HalfUnit(m, h);
    assert bit1 == 0 || bit1 == 1;
  }

  method BfGetRndAdd(tab: array<limb>, l: nat, sign: bool, prec: nat, rndMode: RndMode)
    returns (addOne: bool, inexact: bool)
    requires 1 <= l <= tab.Length && prec >= 1
    ensures var m, u := V(tab, 0, l), Unit(l, prec);
            (addOne <==> AddOne(rndMode, sign, m / u, m % u, u)) && (inexact <==> m % u != 0)
  {
    hide Val, W, AddOne;
    var bits := l * 64;
    ValBound(tab[0..l]);
    ghost var m := V(tab, 0, l);
    var bit0 := ScanBitNz(tab, l, bits - 1 - (prec + 1));
    var bit1 := GetBit(tab, l, bits - 1 - prec);
    inexact := bit1 != 0 || bit0;
    var last := GetBit(tab, l, bits - 1 - (prec - 1));
    match rndMode {
      case RNDZ => addOne := false;
      case RNDN => addOne := bit1 != 0 && (bit0 || last != 0);
      case RNDD | RNDU => addOne := sign == (rndMode == RNDD) && inexact;
      case RNDA => addOne := inexact;
      case RNDNA => addOne := bit1 != 0;
    }
    if prec < bits {
      WStep(bits - prec - 1);
      LowestBits(m, bits - prec - 1);
      BitsDecide(m, W(bits - prec - 1), rndMode, sign, bit1, bit0, last);
    } else {
      NoUnit(m, rndMode, sign);
    }
  }

  /** Below the lowest bit there is nothing. */
  lemma LowestBits(m: int, pos: nat)
    ensures pos == 0 ==> m % W(pos) == 0
  {
    WLimb(0);
    assert BP(0) == 1;
  }

  lemma NoUnit(m: int, mode: RndMode, sign: bool)
    ensures m % 1 == 0 && !AddOne(mode, sign, m / 1, m % 1, 1)
  {
  }

  // The number from the limb of the last kept bit upwards

  /** Adding one unit to n limbs of value h and cutting them off at p, where p divides the weight of the n limbs. */
  lemma HighRounded(h: int, p: int, add: bool, bn: int, k: int)
    requires p >= 1 && 0 <= h < bn && bn == k * p && k >= 1
    ensures var g := h + (if add then p else 0);
            && g - g % p == (h / p + if add then 1 else 0) * p
            && (g >= bn ==> add && (h / p + 1) * p == bn && g == bn + h % p)
  {
    DivMod(h, p);
    var q := h / p;
    assert (q + 1) * p == q * p + p;
    if add {
      ModUnique(h + p, p, q + 1, h % p);
      if h + p >= bn {
        assert (q + 2) * p == q * p + 2 * p;
        if q + 1 < k { MulMono(q + 2, k, p); }
        if q + 1 > k { MulMono(k, q, p); }
      }
    }
  }

  /** After the carry out of the top, halving leaves half the weight and less than p below it. */
  lemma CarryHalved(x: int, rem: int, bn: int, low: int, p: int, k: int)
    requires 2 * x + rem == bn + low && 0 <= rem < 2 && 0 <= low < p && p >= 1 && bn == 2 * k * p && k >= 0
    ensures 2 * (x - x % p) == bn
  {
    assert 2 * k * p == 2 * (k * p);
    ModUnique(x, p, k, x - k * p);
  }

  /** The bits below bit j of the lowest limb are those of the whole number. */
  lemma LowestLimb(s: seq<limb>, j: nat)
    requires |s| >= 1 && j < 64
    ensures Val(s) % Pow2(j) == s[0] % Pow2(j) && Val(s) == s[0] + B * Val(s[1..])
  {
    hide Val, Pow2;
    ValHead(s);
    ValBound(s[1..]);
    LowBits(s[0], Val(s[1..]), j);
  }

  /** Clears the bits below bit `shift` of limb i. */
  method ClearLow(tab: array<limb>, i: nat, l: nat, shift: nat)
    requires i < l <= tab.Length && shift < 64
    modifies tab
    ensures V(tab, i, l - i) == old(V(tab, i, l - i)) - old(V(tab, i, l - i)) % Pow2(shift)
    ensures forall j :: 0 <= j < tab.Length && j != i ==> tab[j] == old(tab[j])
  {
    hide Val, Pow2, BitAnd;
    ghost var s := tab[i..i + (l - i)];
    LowestLimb(s, shift);
    Pow2Limb();
    NextPower(0);
    if shift != 0 {
      AndHigh(shift, 64 - shift, tab[i]);
      var v := BitAnd(LimbMask(shift, 63), tab[i]);
      tab[i] := v;
    }
    ghost var t := tab[i..i + (l - i)];
    assert t[1..] == s[1..];
    DivMod(s[0], Pow2(shift));
    LowestLimb(t, 0);
  }

  /** The whole weight is a multiple of the unit, and of twice the unit below the top. */
  lemma UnitDivides(n: nat, j: nat) returns (k: int)
    requires n >= 1 && j < 64
    ensures k >= 1 && BP(n) == 2 * k * Pow2(j)
  {
    hide Pow2, BP;
    BPStep(n - 1);
    Pow2Limb();
    Pow2Add(j, 63 - j);
    Pow2Add(63, 1);
    NextPower(0);
    k := Pow2(63 - j) * BP(n - 1);
    WeightPositive(Pow2(63 - j), BP(n - 1));
    UnitProduct(Pow2(j), Pow2(63 - j), BP(n - 1));
  }

  lemma UnitProduct(p: int, q: int, w: int)
    requires p * q * 2 == B
    ensures B * w == 2 * (q * w) * p
  {
    assert (p * q * 2) * w == 2 * ((q * w) * p);
  }

  /** Rounds the limbs from i on to a multiple of 2^j; when the sum does not fit, it is halved. */
  method RoundHigh(tab: array<limb>, i: nat, l: nat, j: nat, addOne: bool) returns (carry: bool)
    requires i < l <= tab.Length && j < 64
    modifies tab
    ensures var h, p := old(V(tab, i, l - i)), Pow2(j); var target := (h / p + if addOne then 1 else 0) * p;
            && V(tab, i, l - i) * (if carry then 2 else 1) == target && (carry <==> target == BP(l - i))
    ensures forall x :: 0 <= x < tab.Length && !(i <= x < l) ==> tab[x] == old(tab[x])
  {
    hide Val, BP, Pow2;
    var n := l - i;
    ghost var h, p, bn := V(tab, i, n), Pow2(j), BP(n);
    ValBound(tab[i..i + n]);
    ghost var k := UnitDivides(n, j);
    HighRounded(h, p, addOne, bn, 2 * k);
    carry := false;
    ghost var g := h + if addOne then p else 0;
    if addOne {
      SmallPower(j);
      var c := MpAddUi(tab, i, Pow2(j), n);
      CarryIs(tab[i..i + n], c, g);
      if c != 0 {
        var rem := MpShr(tab, i, tab, i, n, 1, 1);
        HalfOf(V(tab, i, n), rem, g - bn, bn);
        CarryHalved(V(tab, i, n), rem, bn, h % p, p, k);
        carry := true;
      }
    }
    ClearLow(tab, i, l, j);
  }

  lemma SmallPower(j: nat)
    requires j < 64
    ensures 1 <= Pow2(j) < B
  {
    hide Pow2;
    Pow2Limb();
    Pow2Add(j, 64 - j);
    Pow2Add(63 - j, 1);
    NextPower(0);
    MulMono(2, Pow2(64 - j), Pow2(j));
    NextPower(63 - j);
    MulMono(1, Pow2(63 - j), 1);
  }

  /** The carry out of n limbs. */
  lemma CarryIs(s: seq<limb>, c: limb, g: int)
    requires c <= 1 && Val(s) + c * BP(|s|) == g
    ensures (c != 0 <==> g >= BP(|s|)) && (c != 0 ==> Val(s) == g - BP(|s|)) && (c == 0 ==> Val(s) == g)
  {
    hide Val, BP;
    ValBound(s);
    if c == 0 { assert 0 * BP(|s|) == 0; } else { assert 1 * BP(|s|) == BP(|s|); }
  }

  lemma HalfOf(x: int, rem: limb, v: int, bn: int)
    requires x * Pow2(1) + rem == v + (1 % Pow2(1)) * bn && 0 <= rem < Pow2(1)
    ensures 2 * x + rem == v + bn && 0 <= rem < 2
  {
    NextPower(0);
    assert Pow2(1) == 2;
  }

  // The whole number

  /** The low limbs do not matter to the rounded value. */
  lemma WholeRounded(s: seq<limb>, pos: nat, mode: RndMode, sign: bool)
    requires pos / 64 < |s|
    ensures var i, p := pos / 64, Pow2(pos % 64); var h, m, u := Val(s[i..]), Val(s), W(pos);
            && m / u == h / p
            && Rounded(m, u, mode, sign) == BP(i) * ((h / p + if AddOne(mode, sign, m / u, m % u, u) then 1 else 0) * p)
            && BP(|s|) == BP(i) * BP(|s| - i)
  {
    hide Val, BP, Pow2, AddOne;
    var i, p := pos / 64, Pow2(pos % 64);
    AtBit(s, pos);
    BPAdd(i, |s| - i);
    var q := Val(s) / W(pos);
    Assoc3(q, BP(i), p);
    Assoc3(q + 1, BP(i), p);
  }

  lemma Assoc3(q: int, a: int, p: int)
    ensures q * (a * p) == a * (q * p)
  {
  }

  /** Zero limbs at the bottom only shift the value. */
  lemma ZeroBottom(s: seq<limb>, k: nat)
    requires k <= |s| && forall x :: 0 <= x < k ==> s[x] == 0
    ensures Val(s) == BP(k) * Val(s[k..])
  {
    hide Val, BP;
    ValSplit(s, k);
    ValZero(s[..k]);
  }

  /** Finds the lowest limb that is not zero. */
  method SkipZeros(tab: array<limb>, i0: nat, l: nat) returns (i: nat)
    requires i0 < l <= tab.Length && V(tab, i0, l - i0) > 0
    ensures i0 <= i < l && tab[i] != 0 && V(tab, i0, l - i0) == BP(i - i0) * V(tab, i, l - i)
  {
    hide Val, BP;
    ghost var s := tab[i0..i0 + (l - i0)];
    NotAllZero(s);
    i := i0;
    while tab[i] == 0
      invariant i0 <= i < l
      invariant forall x :: i0 <= x < i ==> tab[x] == 0
      invariant exists x :: i <= x < l && tab[x] != 0
      decreases l - i
    {
      i := i + 1;
    }
    ZeroBottom(s, i - i0);
    assert s[i - i0..] == tab[i..i + (l - i)];
  }

  lemma NotAllZero(s: seq<limb>)
    requires Val(s) > 0
    ensures exists x :: 0 <= x < |s| && s[x] != 0
  {
    hide Val;
    if forall x :: 0 <= x < |s| ==> s[x] == 0 { ValZero(s); }
  }

  /** memmove of the limbs from i on to the bottom. */
  method MoveDown(tab: array<limb>, i: nat, l: nat)
    requires i <= l <= tab.Length
    modifies tab
    ensures tab[0..l - i] == old(tab[i..l])
  {
    ghost var s := tab[..];
    var k := 0;
    while k < l - i
      invariant 0 <= k <= l - i
      invariant forall x :: 0 <= x < k ==> tab[x] == s[x + i]
      invariant forall x :: k <= x < tab.Length ==> tab[x] == s[x]
    {
      tab[k] := tab[k + i];
      k := k + 1;
    }
  }

  /** A number at least half its weight has its top bit set. */
  lemma TopBit(s: seq<limb>)
    requires |s| >= 1
    ensures 2 * Val(s) >= BP(|s|) <==> 2 * s[|s| - 1] >= B
  {
    hide Val, BP;
    var n := |s| - 1;
    ValTop(s);
    ValBound(s[..n]);
    BPStep(n);
    TopCompare(Val(s[..n]), s[n], BP(n));
  }

  lemma TopCompare(lo: int, x: int, p: int)
    requires 0 <= lo < p
    ensures 2 * (lo + x * p) >= B * p <==> 2 * x >= B
  {
    if 2 * x >= B {
      MulMono(B, 2 * x, p);
    } else {
      MulMono(2 * x + 2, B, p);
      assert (2 * x + 2) * p == 2 * (x * p) + 2 * p;
    }
    assert (2 * x) * p == 2 * (x * p);
  }

  /** A normalised number stays so: its rounded value is at least half the weight. */
  lemma StaysNormal(m: int, u: int, mode: RndMode, sign: bool, bl: int, k: int)
    requires u >= 1 && bl == 2 * k * u && 2 * m >= bl && m >= 0
    ensures 2 * Rounded(m, u, mode, sign) >= bl
  {
    DivMod(m, u);
    var q := m / u;
    assert 2 * k * u == 2 * (k * u) && (q + 1) * u == q * u + u;
    if q < k { MulMono(q + 1, k, u); }
    MulMono(k, q, u);
  }

  class BfT {
    var sign: bool
    var expn: int
    var len: nat
    var tab: array<limb>

    constructor (sign: bool, expn: int, tab: array<limb>)
      ensures this.sign == sign && this.expn == expn && this.tab == tab && len == tab.Length
    {
      this.sign, this.expn, this.tab, len := sign, expn, tab, tab.Length;
    }

    /** Finite, not zero, and with its top bit set. */
    ghost predicate Normal()
      reads this, tab
    {
      1 <= len <= tab.Length && 2 * tab[len - 1] >= B
    }

    ghost function Mantissa(): int
      requires len <= tab.Length
      reads this, tab
    {
      V(tab, 0, len)
    }
  }

  /** The rounded mantissa, in units of the last bit of the number given. */
  ghost function Target(r: BfT, prec: nat, rndMode: RndMode): int
    requires r.len <= r.tab.Length
    reads r, r.tab
  {
    Rounded(r.Mantissa(), Unit(r.len, prec), rndMode, r.sign)
  }

  /** Rounds the limbs from some limb i on, where the last bit kept lies; those below i are dropped later. */
  method RoundLimbs(tab: array<limb>, l: nat, sign: bool, prec: nat, rndMode: RndMode)
    returns (i: nat, carry: bool, inexact: bool)
    requires 1 <= l <= tab.Length && 2 * tab[l - 1] >= B && prec >= 1
    modifies tab
    ensures i < l && V(tab, i, l - i) > 0
    ensures var m := old(V(tab, 0, l)); var t := Rounded(m, Unit(l, prec), rndMode, sign);
            && BP(i) * (V(tab, i, l - i) * (if carry then 2 else 1)) == t && (carry <==> t == BP(l))
               && (inexact <==> t != m)
  {
    hide Val, BP, W, AddOne, Rounded;
    ghost var s, m, u := tab[0..l], V(tab, 0, l), Unit(l, prec);
    ghost var t := Rounded(m, u, rndMode, sign);
    ValBound(s);
    RoundedNear(m, u, rndMode, sign);
    RoundedNormal(s, prec, rndMode, sign);
    var addOne;
    addOne, inexact := BfGetRndAdd(tab, l, sign, prec, rndMode);
    var bitPos := l * 64 - prec;
    i := 0;
    carry := false;
    if bitPos >= 0 {
      i := bitPos / 64;
      WholeOrUnit(s, prec, rndMode, sign);
      assert tab[i..i + (l - i)] == s[i..];
      carry := RoundHigh(tab, i, l, bitPos % 64, addOne);
      BPWhole(V(tab, i, l - i) * (if carry then 2 else 1), BP(i), BP(l - i), t, BP(l));
    } else {
      UnitOne(m, rndMode, sign);
      WholeAtZero(s);
    }
    HalfPositive(V(tab, i, l - i), BP(i), carry, t, BP(l));
  }

  /** Drops the zero limbs at the bottom of those from i0 on. */
  method Compact(tab: array<limb>, i0: nat, l: nat) returns (i: nat)
    requires i0 < l <= tab.Length && V(tab, i0, l - i0) > 0
    modifies tab
    ensures i0 <= i < l && tab[0] != 0 && BP(i - i0) * V(tab, 0, l - i) == old(V(tab, i0, l - i0))
  {
    hide Val, BP;
    i := SkipZeros(tab, i0, l);
    ghost var rest := tab[i..l];
    assert tab[i..i + (l - i)] == rest;
    MoveDown(tab, i, l);
    assert tab[0..0 + (l - i)] == rest;
    assert tab[0] == rest[0];
  }

  /**
   * Rounds r to prec bits.  What is left is scaled by the limbs dropped at the bottom and, after a carry out of the
   * top, by the exponent's increase.
   */
  method BfRound(r: BfT, prec: nat, rndMode: RndMode) returns (inexact: bool)
    requires r.Normal() && prec >= 1
    modifies r, r.tab
    ensures r.Normal() && r.tab == old(r.tab) && r.sign == old(r.sign) && r.len <= old(r.len) && r.tab[0] != 0
    ensures var t := old(Target(r, prec, rndMode)); var carry := t == BP(old(r.len));
            && r.expn == old(r.expn) + (if carry then 1 else 0)
            && r.Mantissa() * BP(old(r.len) - r.len) * (if carry then 2 else 1) == t
    ensures inexact <==> old(Target(r, prec, rndMode)) != old(r.Mantissa())
  {
    hide Val, BP, Unit, Rounded;
    var l, tab := r.len, r.tab;
    ghost var t := Target(r, prec, rndMode);
    RoundedNormal(tab[0..l], prec, rndMode, r.sign);
    var i0, carry;
    i0, carry, inexact := RoundLimbs(tab, l, r.sign, prec, rndMode);
    if carry {
      r.expn := r.expn + 1;
    }
    ghost var high := V(tab, i0, l - i0);
    var i := Compact(tab, i0, l);
    r.len := l - i;
    BPAdd(i0, i - i0);
    Dropped(r.Mantissa(), BP(i - i0), BP(i0), BP(i), carry, high, t);
    BPAdd(i, l - i);
    StillNormal(tab[0..0 + r.len], BP(i), carry, t, BP(l));
    TopBit(tab[0..0 + r.len]);
  }

  /** The unit divides half the weight. */
  lemma RoundedNormal(s: seq<limb>, prec: nat, mode: RndMode, sign: bool)
    requires |s| >= 1 && prec >= 1 && 2 * s[|s| - 1] >= B
    ensures 2 * Rounded(Val(s), Unit(|s|, prec), mode, sign) >= BP(|s|) && BP(|s|) >= 1
    ensures Rounded(Val(s), Unit(|s|, prec), mode, sign) <= BP(|s|)
  {
    hide Val, BP, W, Rounded;
    TopBit(s);
    ValBound(s);
    var l, u := |s|, Unit(|s|, prec);
    var k := UnitOfWeight(l, prec);
    StaysNormal(Val(s), u, mode, sign, BP(l), k);
    NotAbove(Val(s), u, mode, sign, BP(l), 2 * k);
  }

  lemma NotAbove(m: int, u: int, mode: RndMode, sign: bool, bl: int, k: int)
    requires u >= 1 && bl == k * u && 0 <= m < bl
    ensures Rounded(m, u, mode, sign) <= bl
  {
    DivMod(m, u);
    if m / u + 1 > k { MulMono(k, m / u, u); }
    MulMono(m / u + 1, k, u);
    assert (m / u + 1) * u == (m / u) * u + u;
  }

  lemma UnitOfWeight(l: nat, prec: nat) returns (k: int)
    requires l >= 1 && prec >= 1
    ensures BP(l) == 2 * k * Unit(l, prec) && k >= 1
  {
    hide BP, Pow2;
    if prec < 64 * l {
      var pos := 64 * l - prec;
      var i, j := pos / 64, pos % 64;
      k := UnitDivides(l - i, j);
      BPAdd(i, l - i);
      UnitSwap(BP(i), k, Pow2(j));
    } else {
      k := UnitDivides(l, 0);
      NextPower(0);
    }
  }

  lemma UnitSwap(a: int, k: int, p: int)
    ensures a * (2 * k * p) == 2 * k * (a * p)
  {
    assert a * (2 * k * p) == (2 * k) * (a * p);
  }

  /** As WholeRounded, also when exactly all bits are kept. */
  lemma WholeOrUnit(s: seq<limb>, prec: nat, mode: RndMode, sign: bool)
    requires |s| >= 1 && 1 <= prec <= 64 * |s|
    ensures var pos := 64 * |s| - prec; var i, p := pos / 64, Pow2(pos % 64);
            var h, m, u := Val(s[i..]), Val(s), Unit(|s|, prec);
            && i < |s| && p >= 1
            && Rounded(m, u, mode, sign) == BP(i) * ((h / p + if AddOne(mode, sign, m / u, m % u, u) then 1 else 0) * p)
            && BP(|s|) == BP(i) * BP(|s| - i)
  {
    hide Val, BP, Pow2, AddOne, Rounded;
    var pos := 64 * |s| - prec;
    WholeRounded(s, pos, mode, sign);
    WLimb(0);
    BPStep(0);
  }

  lemma BPWhole(x: int, a: int, b: int, t: int, bl: int)
    requires t == a * x && bl == a * b && a >= 1
    ensures x == b <==> t == bl
  {
    if t == bl { assert x * a == b * a; MulCancelEq(x, b, a); }
  }

  lemma UnitOne(m: int, mode: RndMode, sign: bool)
    requires m >= 0
    ensures Rounded(m, 1, mode, sign) == m
  {
    NoUnit(m, mode, sign);
  }

  lemma WholeAtZero(s: seq<limb>)
    ensures Val(s[0..]) == Val(s) && BP(0) == 1
  {
    assert s[0..] == s;
  }

  lemma HalfPositive(x: int, a: int, carry: bool, t: int, bl: int)
    requires a * (x * (if carry then 2 else 1)) == t && 2 * t >= bl >= 1 && a >= 1
    ensures x > 0
  {
    if x <= 0 { MulMono(x * (if carry then 2 else 1), 0, a); }
  }

  lemma Dropped(v: int, b: int, a: int, ab: int, carry: bool, high: int, t: int)
    requires high == b * v && a * (high * (if carry then 2 else 1)) == t && ab == a * b
    ensures v * ab * (if carry then 2 else 1) == t
  {
    var c := if carry then 2 else 1;
    assert a * (high * c) == (a * high) * c;
    assert a * (b * v) == v * (a * b);
  }

  /** What is left is at least half of what its limbs can hold. */
  lemma StillNormal(s: seq<limb>, a: int, carry: bool, t: int, bl: int)
    requires bl == a * BP(|s|) && a >= 1 && Val(s) * a * (if carry then 2 else 1) == t && 2 * t >= bl
             && (carry ==> t == bl)
    ensures 2 * Val(s) >= BP(|s|)
  {
    hide Val, BP;
    var v, b := Val(s), BP(|s|);
    if carry {
      assert (2 * v) * a == b * a;
      MulCancelLe(b, 2 * v, a);
    } else {
      assert (2 * v) * a == 2 * (v * a);
      MulCancelLe(b, 2 * v, a);
    }
  }
}
