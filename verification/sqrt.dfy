/** Square root with remainder: table, two word steps, and the recursive division step. */
module Sqrt {
  import opened Limbs
  import opened LimbOps
  import opened LimbMul
  import opened SqrtMath
  import opened SqrtTable

  // ---- one limb ---------------------------------------------------------

  /** 16 -> 8 bits: the table entry, corrected at most once (lines 1892-1897). */
  method SqrtByTable(a: limb) returns (s1: limb, r1: limb)
    requires 4 * a >= B
    ensures IsSqrt(a / 0x1_0000_0000_0000, s1, r1) && 128 <= s1 < 256
  {
    hide IsSqrt, Covers, Entry;
    var a16 := a / 0x1_0000_0000_0000;
    var h := a / 0x100_0000_0000_0000;
    TopBits(a);
    EntryCovers(h);
    EntryRange(h);
    var s := Entry(h - 64);
    TableStep(s, h, a16);
    var r := (a16 - s * s) % B;
    if r > 2 * s {
      s1, r1 := s + 1, (r - (2 * s + 1)) % B;
    } else {
      s1, r1 := s, r;
    }
  }

  lemma EntryRange(h: nat)
    requires 64 <= h < 256 && Covers(Entry(h - 64), h)
    ensures 128 <= Entry(h - 64) < 256
  {
  }

  lemma TopBits(a: limb)
    requires 4 * a >= B
    ensures var h, a16 := a / 0x100_0000_0000_0000, a / 0x1_0000_0000_0000;
            64 <= h < 256 && h * 256 <= a16 <= h * 256 + 255
  {
  }

  lemma TableStep(s: int, h: int, a16: int)
    requires Covers(s, h) && 64 <= h < 256 && h * 256 <= a16 <= h * 256 + 255
    ensures 0 <= a16 - s * s < B && (a16 - s * s) % B == a16 - s * s
    ensures a16 - s * s <= 2 * s ==> IsSqrt(a16, s, a16 - s * s)
    ensures a16 - s * s > 2 * s ==> IsSqrt(a16, s + 1, a16 - s * s - (2 * s + 1)) && s + 1 < 256
    ensures a16 - s * s > 2 * s ==> (a16 - s * s - (2 * s + 1)) % B == a16 - s * s - (2 * s + 1)
  {
    var r := a16 - s * s;
    assert s * s >= 0;
    ModSmall(r, B);
    SqrtRange(a16, s, r);
    assert (s + 1) * (s + 1) == s * s + 2 * s + 1;
    assert (s + 2) * (s + 2) == s * s + 4 * s + 4;
    SqrtRange(a16, s + 1, r - (2 * s + 1));
    if r > 2 * s {
      ModSmall(r - (2 * s + 1), B);
      SqrtBetween(a16, s + 1, r - (2 * s + 1), s + 1, 256);
    }
  }

  /** Doubles the number of bits: y is the next two digits of base b; all words wrap (lines 1899-1924). */
  method SqrtDouble(ghost x: int, s1: limb, r1: limb, b: limb, y: limb) returns (s: limb, r: limb)
    requires IsSqrt(x, s1, r1) && 2 <= b <= 2 * s1 && s1 < b <= 65536 && y < b * b
    requires x < b * b
    ensures IsSqrt(x * (b * b) + y, s, r) && s < b * b && b * b <= 2 * s
  {
    hide IsSqrt, StepOutcome;
    SqrtRange(x, s1, r1);
    SquareMono(b, 65536);
    ghost var v := x * (b * b) + y;
    var num := JoinDigit(s1, r1, b, y);
    var q, u := Divide(num, 2 * s1);
    DoubleOutcome(v, x, s1, r1, b, y, q, u);
    s, r := AdjustWord(s1 * b + q, u * b + y % b - q * q, v, b * b);
  }

  method JoinDigit(s1: limb, r1: limb, b: limb, y: limb) returns (num: limb)
    requires r1 <= 2 * s1 && 0 < s1 < b <= 65536 && y < b * b
    ensures num == r1 * b + y / b
  {
    WordBounds(s1, r1, b, y);
    num := r1 * b + y / b;
  }

  method Divide(num: int, d: int) returns (q: int, u: int)
    requires d > 0
    ensures num == q * d + u && 0 <= u < d
  {
    DivMod(num, d);
    q, u := num / d, num % d;
  }

  /** The wrapped remainder, read as signed; a negative one takes the root down by one. */
  method AdjustWord(s': int, r': int, ghost v: int, ghost bb: int) returns (s: limb, r: limb)
    requires bb <= 0x1_0000_0000 && StepOutcome(v, s', r', bb)
    ensures IsSqrt(v, s, r) && s < bb <= 2 * s
  {
    hide IsSqrt;
    s := s';
    r := r' % B;
    Signed(r');
    if 2 * r >= B {
      s := s - 1;
      ModUnique(r' + B + 2 * (s' - 1) + 1, B, 1, r' + 2 * (s' - 1) + 1);
      r := (r + 2 * s + 1) % B;
    }
  }

  lemma WordBounds(s1: int, r1: int, b: int, y: int)
    requires 0 <= r1 <= 2 * s1 && 0 < s1 < b <= 65536 && 0 <= y < b * b
    ensures 0 <= r1 * b + y / b < B && b * b <= 0x1_0000_0000
  {
    DigitPair(y, b);
    MulMono(r1, 131072, b); MulMono(0, r1, b);
    SquareMono(b, 65536);
    assert 131072 * b + b < B;
  }

  /** A word read as signed. */
  lemma Signed(r: int)
    requires -0x1_0000_0000 <= r < 0x1_0000_0000_0000
    ensures r >= 0 ==> r % B == r && 2 * (r % B) < B
    ensures r < 0 ==> r % B == r + B && 2 * (r % B) >= B
  {
    if r < 0 { ModUnique(r, B, -1, r + B); } else { ModSmall(r, B); }
  }

  /** Root and remainder of one limb with one of its two leading bits set. */
  method MpSqrtrem1(a: limb) returns (s: limb, r: limb)
    requires 4 * a >= B
    ensures IsSqrt(a, s, r) && s < 0x1_0000_0000 <= 2 * s
  {
    hide IsSqrt;
    var s1, r1 := SqrtByTable(a);
    ghost var x8 := a / 0x1_0000_0000_0000;
    var y := (a / 0x1_0000_0000) % 0x1_0000;
    s1, r1 := SqrtDouble(x8, s1, r1, 0x100, y);
    ghost var x16 := a / 0x1_0000_0000;
    assert x8 * (0x100 * 0x100) + y == x16;
    s, r := SqrtDouble(x16, s1, r1, 0x1_0000, a % 0x1_0000_0000);
    assert x16 * (0x1_0000 * 0x1_0000) + a % 0x1_0000_0000 == a;
  }

  // ---- two limbs --------------------------------------------------------

  const H: int := 0x1_0000_0000

  /** Root of the two limbs a1, a0: one limb, and a remainder of one limb and one bit (lines 1950-1969). */
  method SqrtTwoLimbs(a1: limb, a0: limb) returns (s: limb, r0: limb, rh: limb)
    requires 4 * a1 >= B
    ensures IsSqrt(a1 * B + a0, s, r0 + rh * B) && 2 * s >= B && rh <= 1
  {
    hide IsSqrt, StepOutcome;
    var s1, r1 := MpSqrtrem1(a1);
    SqrtRange(a1, s1, r1);
    HalfLimb();
    ghost var v := a1 * B + a0;
    DigitPair(a0, H);
    var num := r1 * H + a0 / H;
    var q, u := Divide(num, 2 * s1);
    DoubleOutcome(v, a1, s1, r1, H, a0, q, u);
    SquareShortcut(q);
    // q = 2^32 takes the shortcut 2^64 for q * q
    var sq := if q / H != 0 then B else (q * q) % B;
    var r;
    s, r := AdjustDouble(s1 * H + q, u * H + a0 % H - sq, v);
    SqrtRange(v, s, r);
    HighBit(r);
    r0, rh := r % B, r / B;
  }

  lemma HalfLimb()
    ensures H * H == B
  {
  }

  /** The same in double words: a root of 2^64 wraps to 0 and, taken down by one, wraps back. */
  method AdjustDouble(s': int, r': int, ghost v: int) returns (s: limb, r: int)
    requires StepOutcome(v, s', r', B)
    ensures IsSqrt(v, s, r) && B <= 2 * s
  {
    hide IsSqrt;
    s := s' % B;
    r := r' % (B * B);
    SignedDouble(r');
    if 2 * (r / B) >= B {
      WrapRoot(s');
      s := (s - 1) % B;
      WrapBack(r' + 2 * (s' - 1) + 1);
      r := (r + 2 * s + 1) % (B * B);
    } else {
      ModSmall(s', B);
    }
  }

  lemma WrapBack(r: int)
    requires 0 <= r < 2 * B
    ensures (r + B * B) % (B * B) == r
  {
    ModUnique(r + B * B, B * B, 1, r);
  }

  lemma HighBit(r: int)
    requires 0 <= r <= 2 * (B - 1)
    ensures 0 <= r / B <= 1 && r == r % B + (r / B) * B
  {
  }

  lemma SquareShortcut(q: int)
    requires 0 <= q <= H
    ensures (if q / H != 0 then B else (q * q) % B) == q * q
  {
    if q < H {
      SquareMono(q, H - 1);
      ModSmall(q * q, B);
    }
  }

  /** A root of 2^64 wraps to 0 and one less wraps back. */
  lemma WrapRoot(s: int)
    requires 1 <= s <= B
    ensures (s % B - 1) % B == s - 1
  {
    if s == B {
      ModUnique(s, B, 1, 0); ModUnique(-1, B, -1, B - 1);
    } else {
      ModSmall(s, B); ModSmall(s - 1, B);
    }
  }

  lemma SignedDouble(r: int)
    requires -B <= r <= 2 * B
    ensures r >= 0 ==> r % (B * B) == r && 2 * (r / B) < B
    ensures r < 0 ==> r % (B * B) == r + B * B && 2 * ((r + B * B) / B) >= B
  {
    if r < 0 {
      ModUnique(r, B * B, -1, r + B * B);
      ModUnique(r + B * B, B, B - 1, r + B);
    } else {
      ModSmall(r, B * B);
    }
  }
}
