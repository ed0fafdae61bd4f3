/** The limb loops of libbf.c. Machine arithmetic wraps; every contract speaks of exact integers. */
module LimbOps {
  import opened Limbs

  // ---- one step of each loop, on words ----------------------------------

  /** Addition of two limbs and a carry bit, each sum wrapping (lines 1032-1036). */
  method AddCarry(v: limb, w: limb, k: limb) returns (a: limb, k': limb)
    requires k <= 1
    ensures v + w + k == a + k' * B && k' <= 1
  {
    a := (v + w) % B;
    var k1 := if a < v then 1 else 0;
    a := (a + k) % B;
    k' := if a < k || k1 == 1 then 1 else 0;
  }

  /** Subtraction of a limb and a borrow bit, each difference wrapping (lines 1066-1070). */
  method SubBorrow(v: limb, w: limb, k: limb) returns (r: limb, k': limb)
    requires k <= 1
    ensures v - w - k == r - k' * B && k' <= 1
  {
    var a := (v - w) % B;
    var k1 := if a > v then 1 else 0;
    r := (a - k) % B;
    k' := if r > a || k1 == 1 then 1 else 0;
  }

  /** Low and high word of a double word. */
  lemma DoubleWord(t: int)
    requires 0 <= t < B * B
    ensures 0 <= t / B < B && t == t % B + (t / B) * B
  {
  }

  lemma ProductBound(x: limb, y: limb)
    ensures 0 <= x * y <= (B - 1) * (B - 1)
  {
    MulMono(x, B - 1, y); MulMono(y, B - 1, B - 1); MulMono(0, x, y);
  }

  /** x * y + l + u fits a double word. */
  lemma MulAddFits(x: limb, y: limb, l: limb, u: limb)
    ensures 0 <= x * y + l + u < B * B
  {
    ProductBound(x, y);
  }

  /** The borrow limb -(t >> LIMB_BITS) of u - x * y - l (lines 1206-1208). */
  lemma SubMulWord(u: limb, x: limb, y: limb, l: limb)
    ensures var t := (u - x * y - l) % (B * B);
            0 <= t < B * B && u - x * y - l == t % B - (-(t / B) % B) * B
  {
    ProductBound(x, y);
    var d := u - x * y - l;
    if d < 0 {
      WrapNegative(d);
    } else {
      DoubleWord(d);
      ModSmall(d, B * B);
    }
  }

  lemma ModSmall(d: int, m: int)
    requires 0 <= d < m
    ensures d % m == d
  {
  }

  lemma WrapNegative(d: int)
    requires -(B - 1) * B <= d < 0
    ensures var t := d % (B * B); 0 <= t < B * B && d == t % B - (-(t / B) % B) * B
  {
    var e := d + B * B;
    ModAdd(d, B * B);
    ModSmall(e, B * B);
    DoubleWord(e);
    assert e / B >= 1;
  }

  lemma ModAdd(d: int, m: int)
    requires m > 0 && -m <= d < 0
    ensures d % m == (d + m) % m
  {
    if d == -m { } else { assert (d + m) / m == 0; }
  }

  /** The double word x * y + l + u, split into its low limb and its high limb. */
  method MulAdd(x: limb, y: limb, l: limb, u: limb) returns (a: limb, h: limb)
    ensures x * y + l + u == a + h * B
  {
    MulAddFits(x, y, l, u);
    var t := x * y + l + u;
    DoubleWord(t);
    a, h := t % B, t / B;
  }

  /** The wrapping double word u - x * y - l, as a limb and the limb to borrow. */
  method MulSub(u: limb, x: limb, y: limb, l: limb) returns (a: limb, h: limb)
    ensures u - x * y - l == a - h * B
  {
    SubMulWord(u, x, y, l);
    var t := (u - x * y - l) % (B * B);
    a, h := t % B, -(t / B) % B;
  }

  // ---- the value invariant of each loop ---------------------------------

  lemma CarryStep(s1: seq<limb>, s2: seq<limb>, i: nat, r: seq<limb>, a: limb, k: int, k': int, c: int)
    requires i < |s1| && i < |s2| && |r| == i
    requires Val(r) + k * BP(i) == Val(s1[..i]) + Val(s2[..i]) + c
    requires s1[i] + s2[i] + k == a + k' * B
    ensures Val(r + [a]) + k' * BP(i + 1) == Val(s1[..i + 1]) + Val(s2[..i + 1]) + c
  {
    hide Val, BP;
    ValTake(s1, i); ValTake(s2, i); ValSnoc(r, a); BPStep(i);
    CarryScale(s1[i], s2[i], k, a, k', BP(i));
  }

  lemma CarryScale(x: int, y: int, k: int, a: int, k': int, p: int)
    requires x + y + k == a + k' * B
    ensures x * p + y * p + k * p == a * p + k' * (B * p)
  {
    assert (x + y + k) * p == (a + k' * B) * p;
  }

  lemma BorrowStep(s1: seq<limb>, s2: seq<limb>, i: nat, r: seq<limb>, a: limb, k: int, k': int, c: int)
    requires i < |s1| && i < |s2| && |r| == i
    requires Val(r) - k * BP(i) == Val(s1[..i]) - Val(s2[..i]) - c
    requires s1[i] - s2[i] - k == a - k' * B
    ensures Val(r + [a]) - k' * BP(i + 1) == Val(s1[..i + 1]) - Val(s2[..i + 1]) - c
  {
    hide Val, BP;
    ValTake(s1, i); ValTake(s2, i); ValSnoc(r, a); BPStep(i);
    var y: int := s2[i];
    CarryScale(s1[i], -y, -k, a, -k', BP(i));
    Signs(y, k, k', BP(i));
  }

  lemma Signs(y: int, k: int, k': int, p: int)
    ensures (-y) * p == -(y * p) && (-k) * p == -(k * p) && (-k') * (B * p) == -(k' * (B * p))
  {
  }

  lemma MulStep(s: seq<limb>, i: nat, r: seq<limb>, a: limb, l: int, l': int, b: int, l0: int)
    requires i < |s| && |r| == i
    requires Val(r) + l * BP(i) == Val(s[..i]) * b + l0
    requires s[i] * b + l == a + l' * B
    ensures Val(r + [a]) + l' * BP(i + 1) == Val(s[..i + 1]) * b + l0
  {
    hide Val, BP;
    ValTake(s, i); ValSnoc(r, a); BPStep(i);
    MulScale(Val(s[..i]), s[i], b, l, a, l', BP(i));
  }

  lemma MulScale(v: int, x: int, b: int, l: int, a: int, l': int, p: int)
    requires x * b + l == a + l' * B
    ensures (v + x * p) * b + l * p == v * b + a * p + l' * (B * p)
    ensures (v + x * p) * b == v * b + (x * b) * p
  {
    assert (x * b + l) * p == (a + l' * B) * p;
    assert (x * p) * b == (x * b) * p;
  }

  lemma MulAddStep(s: seq<limb>, u: seq<limb>, i: nat, r: seq<limb>, a: limb, l: int, l': int, b: int)
    requires i < |s| && i < |u| && |r| == i
    requires Val(r) + l * BP(i) == Val(u[..i]) + Val(s[..i]) * b
    requires s[i] * b + l + u[i] == a + l' * B
    ensures Val(r + [a]) + l' * BP(i + 1) == Val(u[..i + 1]) + Val(s[..i + 1]) * b
  {
    hide Val, BP;
    ValTake(s, i); ValTake(u, i); ValSnoc(r, a); BPStep(i);
    MulScale(Val(s[..i]), s[i], b, l + u[i], a, l', BP(i));
    Distrib(1, l * BP(i), u[i], BP(i));
    assert (l + u[i]) * BP(i) == l * BP(i) + u[i] * BP(i);
  }

  lemma MulSubStep(s: seq<limb>, u: seq<limb>, i: nat, r: seq<limb>, a: limb, l: int, l': int, b: int)
    requires i < |s| && i < |u| && |r| == i
    requires Val(r) - l * BP(i) == Val(u[..i]) - Val(s[..i]) * b
    requires u[i] - s[i] * b - l == a - l' * B
    ensures Val(r + [a]) - l' * BP(i + 1) == Val(u[..i + 1]) - Val(s[..i + 1]) * b
  {
    hide Val, BP;
    ValTake(s, i); ValTake(u, i); ValSnoc(r, a); BPStep(i);
    var y: int, w: int := u[i], a;
    MulScale(Val(s[..i]), s[i], b, l - y, -w, l', BP(i));
    assert (l - y) * BP(i) == l * BP(i) - y * BP(i);
    assert (-w) * BP(i) == -(w * BP(i));
  }

  /** Once the carry is spent, the rest of the digits stay as they are. */
  lemma PrefixReplaced(s: seq<limb>, r: seq<limb>, i: nat)
    requires i == |r| <= |s|
    ensures Val(r + s[i..]) - Val(s) == Val(r) - Val(s[..i])
  {
    ValAppend(r, s[i..]);
    ValSplit(s, i);
  }

  // ---- the loops --------------------------------------------------------

  method MpAdd(res: array<limb>, ro: nat, op1: array<limb>, o1: nat, op2: array<limb>, o2: nat, n: nat, carry: limb)
    returns (k: limb)
    requires ro + n <= res.Length && o1 + n <= op1.Length && o2 + n <= op2.Length
    requires res != op1 || ro <= o1 || o1 + n <= ro
    requires res != op2 || ro <= o2 || o2 + n <= ro
    requires carry <= 1
    modifies res
    ensures k <= 1
    ensures V(res, ro, n) + k * BP(n) == old(V(op1, o1, n)) + old(V(op2, o2, n)) + carry
    ensures forall j :: 0 <= j < res.Length && !(ro <= j < ro + n) ==> res[j] == old(res[j])
  {
    hide Val, BP;
    ghost var s1, s2 := op1[o1..o1 + n], op2[o2..o2 + n];
    ghost var rs: seq<limb> := [];
    ValEmpty(s1); ValEmpty(s2);
    k := carry;
    var i := 0;
    while i < n
      invariant 0 <= i <= n && k <= 1 && |rs| == i
      invariant forall j :: o1 + i <= j < o1 + n ==> op1[j] == s1[j - o1]
      invariant forall j :: o2 + i <= j < o2 + n ==> op2[j] == s2[j - o2]
      invariant forall j :: 0 <= j < res.Length && !(ro <= j < ro + i) ==> res[j] == old(res[j])
      invariant forall j :: ro <= j < ro + i ==> res[j] == rs[j - ro]
      invariant Val(rs) + k * BP(i) == Val(s1[..i]) + Val(s2[..i]) + carry
    {
      var a, k' := AddCarry(op1[o1 + i], op2[o2 + i], k);
      CarryStep(s1, s2, i, rs, a, k, k', carry);
      res[ro + i] := a;
      k, rs, i := k', rs + [a], i + 1;
    }
    assert s1[..n] == s1 && s2[..n] == s2 && res[ro..ro + n] == rs;
  }

  method MpSub(res: array<limb>, ro: nat, op1: array<limb>, o1: nat, op2: array<limb>, o2: nat, n: nat, carry: limb)
    returns (k: limb)
    requires ro + n <= res.Length && o1 + n <= op1.Length && o2 + n <= op2.Length
    requires res != op1 || ro <= o1 || o1 + n <= ro
    requires res != op2 || ro <= o2 || o2 + n <= ro
    requires carry <= 1
    modifies res
    ensures k <= 1
    ensures V(res, ro, n) - k * BP(n) == old(V(op1, o1, n)) - old(V(op2, o2, n)) - carry
    ensures forall j :: 0 <= j < res.Length && !(ro <= j < ro + n) ==> res[j] == old(res[j])
  {
    hide Val, BP;
    ghost var s1, s2 := op1[o1..o1 + n], op2[o2..o2 + n];
    ghost var rs: seq<limb> := [];
    ValEmpty(s1); ValEmpty(s2);
    k := carry;
    var i := 0;
    while i < n
      invariant 0 <= i <= n && k <= 1 && |rs| == i
      invariant forall j :: o1 + i <= j < o1 + n ==> op1[j] == s1[j - o1]
      invariant forall j :: o2 + i <= j < o2 + n ==> op2[j] == s2[j - o2]
      invariant forall j :: 0 <= j < res.Length && !(ro <= j < ro + i) ==> res[j] == old(res[j])
      invariant forall j :: ro <= j < ro + i ==> res[j] == rs[j - ro]
      invariant Val(rs) - k * BP(i) == Val(s1[..i]) - Val(s2[..i]) - carry
    {
      var a, k' := SubBorrow(op1[o1 + i], op2[o2 + i], k);
      BorrowStep(s1, s2, i, rs, a, k, k', carry);
      res[ro + i] := a;
      k, rs, i := k', rs + [a], i + 1;
    }
    assert s1[..n] == s1 && s2[..n] == s2 && res[ro..ro + n] == rs;
  }

  /** 0 - op2 - carry, in place or not. */
  method MpNeg(res: array<limb>, ro: nat, op2: array<limb>, o2: nat, n: nat, carry: limb) returns (k: limb)
    requires ro + n <= res.Length && o2 + n <= op2.Length
    requires res != op2 || ro <= o2 || o2 + n <= ro
    requires carry <= 1
    modifies res
    ensures k <= 1
    ensures V(res, ro, n) - k * BP(n) == -old(V(op2, o2, n)) - carry
    ensures forall j :: 0 <= j < res.Length && !(ro <= j < ro + n) ==> res[j] == old(res[j])
  {
    hide Val, BP;
    ghost var s1, s2 := seq(n, _ => 0 as limb), op2[o2..o2 + n];
    ghost var rs: seq<limb> := [];
    ValEmpty(s1); ValEmpty(s2); ValZero(s1);
    k := carry;
    var i := 0;
    while i < n
      invariant 0 <= i <= n && k <= 1 && |rs| == i
      invariant forall j :: o2 + i <= j < o2 + n ==> op2[j] == s2[j - o2]
      invariant forall j :: 0 <= j < res.Length && !(ro <= j < ro + i) ==> res[j] == old(res[j])
      invariant forall j :: ro <= j < ro + i ==> res[j] == rs[j - ro]
      invariant Val(rs) - k * BP(i) == Val(s1[..i]) - Val(s2[..i]) - carry
    {
      var a, k' := SubBorrow(0, op2[o2 + i], k);
      BorrowStep(s1, s2, i, rs, a, k, k', carry);
      res[ro + i] := a;
      k, rs, i := k', rs + [a], i + 1;
    }
    assert s1[..n] == s1 && s2[..n] == s2 && res[ro..ro + n] == rs;
  }

  /** Adds one limb; stops as soon as the carry is spent. */
  method MpAddUi(tab: array<limb>, o: nat, b: limb, n: nat) returns (k: limb)
    requires o + n <= tab.Length
    modifies tab
    ensures n > 0 ==> k <= 1
    ensures V(tab, o, n) + k * BP(n) == old(V(tab, o, n)) + b
    ensures forall j :: 0 <= j < tab.Length && !(o <= j < o + n) ==> tab[j] == old(tab[j])
  {
    hide Val, BP;
    ghost var s, z := tab[o..o + n], seq(n, _ => 0 as limb);
    ghost var rs: seq<limb> := [];
    ValEmpty(s); ValEmpty(z); ValZero(z);
    k := b;
    var i := 0;
    while i < n
      invariant 0 <= i <= n && |rs| == i && (i > 0 ==> k <= 1)
      invariant forall j :: 0 <= j < tab.Length && !(o <= j < o + i) ==> tab[j] == old(tab[j])
      invariant forall j :: o <= j < o + i ==> tab[j] == rs[j - o]
      invariant Val(rs) + k * BP(i) == Val(s[..i]) + b
    {
      if k == 0 { break; }
      var a := (tab[o + i] + k) % B;
      var k' := if a < k then 1 else 0;
      ValZero(z[..i]); ValZero(z[..i + 1]);
      CarryStep(s, z, i, rs, a, k, k', b);
      tab[o + i] := a;
      k, rs, i := k', rs + [a], i + 1;
    }
    PrefixReplaced(s, rs, i);
    assert tab[o..o + n] == rs + s[i..];
    if i == n { assert s[..n] == s; }
  }

  /** Subtracts one limb; stops as soon as the borrow is spent. */
  method MpSubUi(tab: array<limb>, o: nat, b: limb, n: nat) returns (k: limb)
    requires o + n <= tab.Length
    modifies tab
    ensures n > 0 ==> k <= 1
    ensures V(tab, o, n) - k * BP(n) == old(V(tab, o, n)) - b
    ensures forall j :: 0 <= j < tab.Length && !(o <= j < o + n) ==> tab[j] == old(tab[j])
  {
    hide Val, BP;
    ghost var s, z := tab[o..o + n], seq(n, _ => 0 as limb);
    ghost var rs: seq<limb> := [];
    ValEmpty(s); ValEmpty(z); ValZero(z);
    k := b;
    var i := 0;
    while i < n
      invariant 0 <= i <= n && |rs| == i && (i > 0 ==> k <= 1)
      invariant forall j :: 0 <= j < tab.Length && !(o <= j < o + i) ==> tab[j] == old(tab[j])
      invariant forall j :: o <= j < o + i ==> tab[j] == rs[j - o]
      invariant Val(rs) - k * BP(i) == Val(s[..i]) - b
    {
      var v := tab[o + i];
      var a := (v - k) % B;
      var k' := if a > v then 1 else 0;
      ValZero(z[..i]); ValZero(z[..i + 1]);
      BorrowStep(s, z, i, rs, a, k, k', b);
      tab[o + i] := a;
      k, rs, i := k', rs + [a], i + 1;
      if k == 0 { break; }
    }
    PrefixReplaced(s, rs, i);
    assert tab[o..o + n] == rs + s[i..];
    if i == n { assert s[..n] == s; }
  }

  method MpMul1(tabr: array<limb>, ro: nat, taba: array<limb>, ao: nat, n: nat, b: limb, l0: limb) returns (l: limb)
    requires ro + n <= tabr.Length && ao + n <= taba.Length
    requires tabr != taba || ro <= ao || ao + n <= ro
    modifies tabr
    ensures V(tabr, ro, n) + l * BP(n) == old(V(taba, ao, n)) * b + l0
    ensures forall j :: 0 <= j < tabr.Length && !(ro <= j < ro + n) ==> tabr[j] == old(tabr[j])
  {
    hide Val, BP;
    ghost var s := taba[ao..ao + n];
    ghost var rs: seq<limb> := [];
    ValEmpty(s);
    l := l0;
    var i := 0;
    while i < n
      invariant 0 <= i <= n && |rs| == i
      invariant forall j :: ao + i <= j < ao + n ==> taba[j] == s[j - ao]
      invariant forall j :: 0 <= j < tabr.Length && !(ro <= j < ro + i) ==> tabr[j] == old(tabr[j])
      invariant forall j :: ro <= j < ro + i ==> tabr[j] == rs[j - ro]
      invariant Val(rs) + l * BP(i) == Val(s[..i]) * b + l0
    {
      var t, h := MulAdd(taba[ao + i], b, l, 0);
      MulStep(s, i, rs, t, l, h, b, l0);
      tabr[ro + i] := t;
      l, rs, i := h, rs + [t], i + 1;
    }
    assert s[..n] == s && tabr[ro..ro + n] == rs;
  }

  method MpAddMul1(tabr: array<limb>, ro: nat, taba: array<limb>, ao: nat, n: nat, b: limb) returns (l: limb)
    requires ro + n <= tabr.Length && ao + n <= taba.Length && tabr != taba
    modifies tabr
    ensures V(tabr, ro, n) + l * BP(n) == old(V(tabr, ro, n)) + V(taba, ao, n) * b
    ensures forall j :: 0 <= j < tabr.Length && !(ro <= j < ro + n) ==> tabr[j] == old(tabr[j])
  {
    hide Val, BP;
    ghost var s, u := taba[ao..ao + n], tabr[ro..ro + n];
    ghost var rs: seq<limb> := [];
    ValEmpty(s); ValEmpty(u);
    l := 0;
    var i := 0;
    while i < n
      invariant 0 <= i <= n && |rs| == i
      invariant forall j :: 0 <= j < tabr.Length && !(ro <= j < ro + i) ==> tabr[j] == old(tabr[j])
      invariant forall j :: ro <= j < ro + i ==> tabr[j] == rs[j - ro]
      invariant Val(rs) + l * BP(i) == Val(u[..i]) + Val(s[..i]) * b
    {
      var t, h := MulAdd(taba[ao + i], b, l, tabr[ro + i]);
      MulAddStep(s, u, i, rs, t, l, h, b);
      tabr[ro + i] := t;
      l, rs, i := h, rs + [t], i + 1;
    }
    assert s[..n] == s && u[..n] == u && tabr[ro..ro + n] == rs;
  }

  method MpSubMul1(tabr: array<limb>, ro: nat, taba: array<limb>, ao: nat, n: nat, b: limb) returns (l: limb)
    requires ro + n <= tabr.Length && ao + n <= taba.Length && tabr != taba
    modifies tabr
    ensures V(tabr, ro, n) - l * BP(n) == old(V(tabr, ro, n)) - V(taba, ao, n) * b
    ensures forall j :: 0 <= j < tabr.Length && !(ro <= j < ro + n) ==> tabr[j] == old(tabr[j])
  {
    hide Val, BP;
    ghost var s, u := taba[ao..ao + n], tabr[ro..ro + n];
    ghost var rs: seq<limb> := [];
    ValEmpty(s); ValEmpty(u);
    l := 0;
    var i := 0;
    while i < n
      invariant 0 <= i <= n && |rs| == i
      invariant forall j :: 0 <= j < tabr.Length && !(ro <= j < ro + i) ==> tabr[j] == old(tabr[j])
      invariant forall j :: ro <= j < ro + i ==> tabr[j] == rs[j - ro]
      invariant Val(rs) - l * BP(i) == Val(u[..i]) - Val(s[..i]) * b
    {
      var t, h := MulSub(tabr[ro + i], taba[ao + i], b, l);
      MulSubStep(s, u, i, rs, t, l, h, b);
      tabr[ro + i] := t;
      l, rs, i := h, rs + [t], i + 1;
    }
    assert s[..n] == s && u[..n] == u && tabr[ro..ro + n] == rs;
  }
}
