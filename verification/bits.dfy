/** Single bits and bit ranges of a multi-limb number. */
module Bits {
  import opened Limbs
  import opened LimbMul
  import opened NttWords

  /** The weight of bit number pos. */
  function W(pos: nat): (w: int)
    ensures w >= 1
  {
    WeightPositive(BP(pos / 64), Pow2(pos % 64));
    BP(pos / 64) * Pow2(pos % 64)
  }

  lemma WeightPositive(a: int, b: int)
    requires a >= 1 && b >= 1
    ensures a * b >= 1
  {
    MulMono(1, a, b);
  }

  lemma WStep(pos: nat)
    ensures W(pos + 1) == 2 * W(pos)
  {
    var i, j := pos / 64, pos % 64;
    hide BP, Pow2;
    if j < 63 {
      assert (pos + 1) / 64 == i && (pos + 1) % 64 == j + 1;
      NextPower(j);
      assert BP(i) * (2 * Pow2(j)) == 2 * (BP(i) * Pow2(j));
    } else {
      assert (pos + 1) / 64 == i + 1 && (pos + 1) % 64 == 0;
      BPStep(i);
      NextPower(63);
      Pow2Limb();
      assert B * BP(i) == 2 * (BP(i) * Pow2(63));
    }
  }

  lemma NextPower(j: nat)
    ensures Pow2(j + 1) == 2 * Pow2(j) && Pow2(0) == 1
  {
  }

  lemma WLimb(i: nat)
    ensures W(64 * i) == BP(i)
  {
    assert (64 * i) / 64 == i && (64 * i) % 64 == 0;
    NextPower(0);
  }

  /** The weight of a bit is the power of two of its position. */
  lemma {:induction false} WeightIsPower(pos: nat)
    ensures W(pos) == Pow2(pos)
  {
    hide W;
    if pos == 0 {
      WLimb(0);
    } else {
      WeightIsPower(pos - 1);
      WStep(pos - 1);
    }
  }

  /** A number cut at limb i: the limbs below, and the limb itself with those above. */
  lemma Cut(s: seq<limb>, i: nat)
    requires i < |s|
    ensures Val(s) == Val(s[..i]) + BP(i) * Val(s[i..]) && 0 <= Val(s[..i]) < BP(i)
    ensures Val(s[i..]) == s[i] + B * Val(s[i + 1..]) && Val(s[i + 1..]) >= 0
  {
    hide Val, BP;
    ValSplit(s, i);
    CutHead(s, i);
    ValBound(s[..i]);
    ValBound(s[i + 1..]);
  }

  lemma CutHead(s: seq<limb>, i: nat)
    requires i < |s|
    ensures Val(s[i..]) == s[i] + B * Val(s[i + 1..])
  {
    hide Val;
    ValHead(s[i..]);
    assert s[i..][0] == s[i] && s[i..][1..] == s[i + 1..];
  }

  /** Dividing by a weight p * q in two steps. */
  lemma DivTwice(lo: int, p: int, h: int, q: int)
    requires p >= 1 && q >= 1 && 0 <= lo < p && h >= 0
    ensures (lo + p * h) / (p * q) == h / q && (lo + p * h) % (p * q) == lo + p * (h % q)
    ensures p * q >= 1 && 0 <= lo + p * (h % q) < p * q
  {
    DivMod(h, q);
    var a, b := h / q, h % q;
    WeightPositive(p, q);
    assert p * h == a * (p * q) + p * b by { Factor(p, h, a, b, q); }
    MulMono(0, b, p);
    MulMono(b, q - 1, p);
    assert (q - 1) * p == p * q - p && b * p == p * b;
    ModUnique(lo + p * h, p * q, a, lo + p * b);
  }

  lemma Factor(p: int, h: int, a: int, b: int, q: int)
    requires h == a * q + b
    ensures p * h == a * (p * q) + p * b
  {
    assert p * (a * q + b) == p * (a * q) + p * b;
    assert p * (a * q) == a * (p * q);
  }

  /** Quotient and remainder at bit pos, in terms of the limb that holds it. */
  lemma AtBit(s: seq<limb>, pos: nat)
    requires pos / 64 < |s|
    ensures var i, p := pos / 64, Pow2(pos % 64); var h := Val(s[i..]);
            && Val(s) / W(pos) == h / p && Val(s) % W(pos) == Val(s[..i]) + BP(i) * (h % p) && 0 <= Val(s[..i]) < BP(i)
            && h == s[i] + B * Val(s[i + 1..]) && Val(s[i + 1..]) >= 0
  {
    hide Val, BP, Pow2;
    var i := pos / 64;
    Cut(s, i);
    DivTwice(Val(s[..i]), BP(i), Val(s[i..]), Pow2(pos % 64));
  }

  /** Adding a multiple of B does not change the low 64 bits. */
  lemma LowBits(x: limb, t: int, j: nat)
    requires j < 64 && t >= 0
    ensures (x + B * t) % Pow2(j) == x % Pow2(j) && ((x + B * t) / Pow2(j)) % 2 == (x / Pow2(j)) % 2
    ensures (x + B * t) % Pow2(j + 1) == x % Pow2(j + 1)
  {
    hide Pow2;
    Pow2Limb();
    Pow2Add(j, 63 - j); Pow2Add(63, 1); NextPower(0); NextPower(j); NextPower(63 - j);
    Pow2Add(j + 1, 63 - j);
    var p, q := Pow2(j), Pow2(63 - j);
    Same(x, t, p, 2 * q);
    Same(x, t, 2 * p, q);
    assert ((x / p) + (2 * q) * t) % 2 == (x / p) % 2 by { EvenPart(x / p, q * t); assert (2 * q) * t == 2 * (q * t); }
  }

  lemma EvenPart(a: int, b: int)
    ensures (a + 2 * b) % 2 == a % 2
  {
  }

  lemma Same(x: int, t: int, p: int, q: int)
    requires p >= 1 && q >= 1 && p * q == B
    ensures (x + B * t) % p == x % p && (x + B * t) / p == x / p + q * t
  {
    DivMod(x, p);
    assert B * t == (q * t) * p;
    assert (x / p + q * t) * p == (x / p) * p + (q * t) * p;
    ModUnique(x + B * t, p, x / p + q * t, x % p);
  }

  /** get_bit; a position outside the number reads as zero. */
  method GetBit(tab: array<limb>, len: nat, pos: int) returns (b: limb)
    requires len <= tab.Length
    ensures b == if pos < 0 then 0 else (V(tab, 0, len) / W(pos)) % 2
  {
    hide Val, BP, Pow2, W;
    var i := pos / 64;
    ghost var s := tab[0..len];
    if i < 0 || i >= len {
      if pos >= 0 { BeyondTop(s, pos); }
      return 0;
    }
    AtBit(s, pos);
    LowBits(s[i], Val(s[i + 1..]), pos % 64);
    b := (tab[i] / Pow2(pos % 64)) % 2;
  }

  lemma BeyondTop(s: seq<limb>, pos: nat)
    requires pos / 64 >= |s|
    ensures (Val(s) / W(pos)) % 2 == 0 && Val(s) % W(pos) == Val(s)
  {
    hide Val, BP, Pow2;
    ValBound(s);
    BPMono(|s|, pos / 64);
    NextPower(0);
    MulMono(1, Pow2(pos % 64), BP(pos / 64));
    ModUnique(Val(s), W(pos), 0, Val(s));
  }

  /** limb_mask: bits start to last. */
  function LimbMask(start: nat, last: nat): limb
    requires start <= last < 64
  {
    MaskFits(start, last - start + 1);
    (Pow2(last - start + 1) - 1) * Pow2(start)
  }

  lemma MaskFits(start: nat, n: nat)
    requires start + n <= 64
    ensures 0 <= (Pow2(n) - 1) * Pow2(start) < B
  {
    hide Pow2;
    Pow2Limb();
    Pow2Add(n, start);
    Pow2Add(start + n, 64 - start - n);
    MaskBound(Pow2(n), Pow2(start), Pow2(n + start), Pow2(64 - start - n));
  }

  lemma MaskBound(a: int, b: int, ab: int, c: int)
    requires a >= 1 && b >= 1 && c >= 1 && ab == a * b && ab * c == B
    ensures 0 <= (a - 1) * b < B
  {
    MulMono(0, a - 1, b);
    assert (a - 1) * b == ab - b;
    MulMono(1, c, ab);
  }

  /** Masking the low bits is taking a remainder. */
  lemma {:induction false} AndLow(n: nat, x: nat)
    ensures BitAnd(Pow2(n) - 1, x) == x % Pow2(n)
  {
    hide Pow2, BitAnd;
    NextPower(0);
    AndZero(Pow2(n) - 1, x);
    if n > 0 && x > 0 {
      var p := Pow2(n - 1);
      NextPower(n - 1);
      AndLow(n - 1, x / 2);
      LowHalves(x, p);
      OddMask(p, x);
    } else if x == 0 {
      ModSmall(0, Pow2(n));
    }
  }

  lemma AndZero(x: nat, y: nat)
    ensures x == 0 || y == 0 ==> BitAnd(x, y) == 0
  {
  }

  lemma OddMask(p: int, x: nat)
    requires p >= 1 && x > 0
    ensures BitAnd(2 * p - 1, x) == x % 2 + 2 * BitAnd(p - 1, x / 2)
  {
    assert (2 * p - 1) / 2 == p - 1 && (2 * p - 1) % 2 == 1;
  }

  lemma LowHalves(x: nat, p: int)
    requires p >= 1
    ensures x % (2 * p) == x % 2 + 2 * ((x / 2) % p)
  {
    DivMod(x / 2, p);
    var q, r := (x / 2) / p, (x / 2) % p;
    assert x == q * (2 * p) + (x % 2 + 2 * r);
    ModUnique(x, 2 * p, q, x % 2 + 2 * r);
  }

  /** Masking the bits from start up, of a word with n such bits. */
  lemma {:induction false} AndHigh(start: nat, n: nat, x: nat)
    requires x < Pow2(start + n)
    ensures (Pow2(n) - 1) * Pow2(start) >= 0 && BitAnd((Pow2(n) - 1) * Pow2(start), x) == x - x % Pow2(start)
  {
    MaskPositive(n, start);
    if start == 0 {
      AndLow(n, x);
      ModSmall(x, Pow2(n));
      assert (Pow2(n) - 1) * 1 == Pow2(n) - 1;
    } else if x == 0 {
    } else {
      AndHigh(start - 1, n, x / 2);
      LowHalves(x, Pow2(start - 1));
      DoubledMask(Pow2(n) - 1, Pow2(start - 1));
      MaskPositive(n, start - 1);
    }
  }

  lemma ModSmall(x: int, p: int)
    requires 0 <= x < p
    ensures x % p == x
  {
  }

  lemma MaskPositive(n: nat, start: nat)
    ensures (Pow2(n) - 1) * Pow2(start) >= 0
  {
    MulMono(0, Pow2(n) - 1, Pow2(start));
  }

  lemma DoubledMask(a: int, p: int)
    ensures a * (2 * p) == 2 * (a * p)
  {
  }

  /** scan_bit_nz: whether one of the bits up to pos is set. */
  method ScanBitNz(tab: array<limb>, len: nat, pos: int) returns (nz: bool)
    requires len <= tab.Length && pos < 64 * len
    ensures nz <==> pos >= 0 && V(tab, 0, len) % W(pos + 1) != 0
  {
    hide Val, BP, Pow2, W, BitAnd;
    var i := pos / 64;
    if i < 0 {
      return false;
    }
    ghost var s := tab[0..len];
    var j := pos % 64;
    LowPart(s, pos);
    AndLow(j + 1, tab[i]);
    assert LimbMask(0, j) == Pow2(j + 1) - 1 by { NextPower(0); }
    var v := BitAnd(LimbMask(0, j), tab[i]);
    if v != 0 {
      return true;
    }
    var k := i - 1;
    while k >= 0
      invariant -1 <= k < i
      invariant forall x :: k < x < i ==> tab[x] == 0
    {
      if tab[k] != 0 {
        NonZero(s[..i], k);
        return true;
      }
      k := k - 1;
    }
    assert forall x :: 0 <= x < i ==> s[..i][x] == 0;
    ValZero(s[..i]);
    nz := false;
  }

  lemma NonZero(s: seq<limb>, k: nat)
    requires k < |s| && s[k] != 0
    ensures Val(s) > 0
  {
    hide Val, BP;
    Cut(s, k);
    MulMono(1, Val(s[k..]), BP(k));
    assert BP(k) * Val(s[k..]) == Val(s[k..]) * BP(k);
  }

  /** The bits up to pos are those of the lower limbs and the low bits of the limb holding pos. */
  lemma LowPart(s: seq<limb>, pos: nat)
    requires pos / 64 < |s|
    ensures var i := pos / 64; Val(s) % W(pos + 1) == 0 <==> Val(s[..i]) == 0 && s[i] % Pow2(pos % 64 + 1) == 0
  {
    hide Val, BP, Pow2;
    var i, j := pos / 64, pos % 64;
    var t := Val(s[i + 1..]);
    Cut(s, i);
    LowBits(s[i], t, j);
    WStep(pos);
    NextPower(j);
    NextPower(0);
    assert W(pos + 1) == BP(i) * Pow2(j + 1) by { assert BP(i) * (2 * Pow2(j)) == 2 * (BP(i) * Pow2(j)); }
    DivTwice(Val(s[..i]), BP(i), Val(s[i..]), Pow2(j + 1));
    DivMod(s[i], Pow2(j + 1));
    ZeroSum(Val(s[..i]), BP(i), s[i] % Pow2(j + 1));
  }

  lemma ZeroSum(lo: int, p: int, r: int)
    requires 0 <= lo && p >= 1 && r >= 0
    ensures lo + p * r == 0 <==> lo == 0 && r == 0
  {
    if r > 0 { MulMono(1, r, p); }
  }
}
