/** Products, shifts and scans of limb arrays. */
module LimbMul {
  import opened Limbs
  import opened LimbOps

  /** Two to the power k. */
  function Pow2(k: nat): (p: int)
    ensures p >= 1
  {
    if k == 0 then 1 else 2 * Pow2(k - 1)
  }

  lemma {:induction false} Pow2Add(j: nat, k: nat)
    ensures Pow2(j + k) == Pow2(j) * Pow2(k)
  {
    if k > 0 {
      Pow2Add(j, k - 1);
      Assoc(2, Pow2(j), Pow2(k - 1));
    }
  }

  lemma Pow2Limb()
    ensures Pow2(64) == B
  {
    hide Pow2;
    Pow2Nibble();
    Pow2Add(4, 4); Pow2Add(8, 8); Pow2Add(16, 16); Pow2Add(32, 32);
  }

  lemma Pow2Nibble()
    ensures Pow2(4) == 16
  {
  }

  lemma Row(p: seq<limb>, p': seq<limb>, i: nat, n1: nat, r: limb, x: limb, a: int, y: int)
    requires |p| == i + n1 && |p'| == i + n1
    requires p'[..i] == p[..i]
    requires Val(p'[i..]) + r * BP(n1) == Val(p[i..]) + a * x
    requires Val(p) == a * y
    ensures Val(p' + [r]) == a * (y + x * BP(i))
  {
    hide Val, BP;
    BPAdd(i, n1);
    ValSplit(p, i);
    RowSum(p', i, r);
    RowScale(BP(i), BP(n1), BP(i + n1), r, Val(p'[i..]), Val(p[i..]), a, x, y, Val(p[..i]));
  }

  lemma RowSum(p: seq<limb>, i: nat, r: limb)
    requires i <= |p|
    ensures Val(p + [r]) == Val(p[..i]) + BP(i) * Val(p[i..]) + r * BP(|p|)
  {
    hide Val, BP;
    ValSplit(p, i); ValSnoc(p, r);
  }

  lemma RowScale(p: int, q: int, pq: int, r: int, v': int, v: int, a: int, x: int, y: int, low: int)
    requires pq == p * q && v' + r * q == v + a * x && low + p * v == a * y
    ensures low + p * v' + r * pq == a * (y + x * p)
  {
    assert p * (v' + r * q) == p * (v + a * x);
    assert p * (r * q) == r * (p * q);
    assert p * (a * x) == a * (x * p);
  }

  /** One row of the product: adds op1 * x at limb i of a result whose rows so far make a * y. */
  method MulRow(result: array<limb>, ro: nat, i: nat, op1: array<limb>, o1: nat, n1: nat, x: limb, ghost y: int)
    requires ro + i + n1 < result.Length && o1 + n1 <= op1.Length && result != op1
    requires V(result, ro, i + n1) == V(op1, o1, n1) * y
    modifies result
    ensures V(result, ro, i + n1 + 1) == V(op1, o1, n1) * (y + x * BP(i))
    ensures forall j :: 0 <= j < result.Length && !(ro <= j <= ro + n1 + i) ==> result[j] == old(result[j])
  {
    hide Val, BP;
    ghost var p := result[ro..ro + i + n1];
    assert result[ro + i..ro + i + n1] == p[i..];
    var r := MpAddMul1(result, ro + i, op1, o1, n1, x);
    ghost var p' := result[ro..ro + i + n1];
    assert forall j :: 0 <= j < i ==> result[ro + j] == p[j];
    assert p'[..i] == p[..i];
    assert result[ro + i..ro + i + n1] == p'[i..];
    Row(p, p', i, n1, r, x, V(op1, o1, n1), y);
    result[ro + i + n1] := r;
    assert result[ro..ro + i + n1 + 1] == p' + [r];
  }

  /** Schoolbook product; the result array is neither operand. */
  method MpMul(result: array<limb>, ro: nat, op1: array<limb>, o1: nat, n1: nat, op2: array<limb>, o2: nat, n2: nat)
    requires n2 >= 1 && ro + n1 + n2 <= result.Length && o1 + n1 <= op1.Length && o2 + n2 <= op2.Length
    requires result != op1 && result != op2
    modifies result
    ensures V(result, ro, n1 + n2) == V(op1, o1, n1) * V(op2, o2, n2)
    ensures forall j :: 0 <= j < result.Length && !(ro <= j < ro + n1 + n2) ==> result[j] == old(result[j])
  {
    hide Val, BP;
    ghost var a, s := V(op1, o1, n1), op2[o2..o2 + n2];
    var r := MpMul1(result, ro, op1, o1, n1, op2[o2], 0);
    ghost var p := result[ro..ro + n1];
    result[ro + n1] := r;
    ValEmpty(s); ValTake(s, 0); ValSnoc(p, r);
    assert result[ro..ro + n1 + 1] == p + [r];
    Commutes(a, op2[o2]);
    var i := 1;
    while i < n2
      invariant 1 <= i <= n2
      invariant V(result, ro, i + n1) == a * Val(s[..i])
      invariant forall j :: 0 <= j < result.Length && !(ro <= j < ro + n1 + i) ==> result[j] == old(result[j])
    {
      MulRow(result, ro, i, op1, o1, n1, op2[o2 + i], Val(s[..i]));
      ValTake(s, i);
      i := i + 1;
    }
    assert s[..n2] == s;
  }

  lemma Commutes(a: int, x: int)
    ensures a * x + 0 == a * (0 + x * 1)
  {
  }

  /** r = (a + high * B^n) >> shift, truncated to n limbs; the remainder is returned. */
  method MpShr(tabr: array<limb>, ro: nat, tab: array<limb>, o: nat, n: nat, shift: nat, high: limb) returns (rem: limb)
    requires ro + n <= tabr.Length && o + n <= tab.Length && 1 <= shift < 64
    requires tabr != tab || ro >= o || ro + n <= o
    modifies tabr
    ensures V(tabr, ro, n) * Pow2(shift) + rem == old(V(tab, o, n)) + (high % Pow2(shift)) * BP(n)
    ensures 0 <= rem < Pow2(shift)
    ensures forall j :: 0 <= j < tabr.Length && !(ro <= j < ro + n) ==> tabr[j] == old(tabr[j])
  {
    hide Val, BP, Pow2;
    ghost var s := tab[o..o + n];
    ghost var rs: seq<limb> := [];
    Pow2Limb(); Pow2Add(shift, 64 - shift);
    ValEmpty(s);
    assert s[n..] == [];
    var l := high;
    var i := n;
    while i > 0
      invariant 0 <= i <= n && |rs| == n - i
      invariant i == n ==> l == high
      invariant i < n ==> l == s[i]
      invariant forall j :: o <= j < o + i ==> tab[j] == s[j - o]
      invariant forall j :: 0 <= j < tabr.Length && !(ro + i <= j < ro + n) ==> tabr[j] == old(tabr[j])
      invariant forall j :: ro + i <= j < ro + n ==> tabr[j] == rs[j - ro - i]
      invariant Val(rs) * Pow2(shift) + l % Pow2(shift) == Val(s[i..]) + (high % Pow2(shift)) * BP(n - i)
    {
      i := i - 1;
      var a := tab[o + i];
      var d := ShiftWord(a, l, shift);
      ShrStep(s, i, rs, a, l, d, Pow2(shift), high % Pow2(shift), BP(n - i - 1));
      BPStep(n - i - 1);
      tabr[ro + i] := d;
      rs := [d] + rs;
      l := a;
    }
    rem := l % Pow2(shift);
    ModLess(l, Pow2(shift));
    assert s[0..] == s && tabr[ro..ro + n] == rs;
  }

  lemma ModLess(l: limb, p: int)
    requires p > 0
    ensures 0 <= l % p < B && l % p < p
  {
    assert l % p <= l;
  }

  /** (a >> shift) | (l << (LIMB_BITS - shift)): the two parts share no bit, so their union is their sum. */
  method ShiftWord(a: limb, l: limb, shift: nat) returns (d: limb)
    requires 1 <= shift < 64
    ensures d * Pow2(shift) + a % Pow2(shift) == a + (l % Pow2(shift)) * B
  {
    Pow2Limb(); Pow2Add(shift, 64 - shift);
    ShiftParts(a, l, Pow2(shift), Pow2(64 - shift));
    d := a / Pow2(shift) + (l * Pow2(64 - shift)) % B;
  }

  lemma ShiftParts(a: limb, l: limb, p: int, q: int)
    requires p >= 1 && q >= 1 && p * q == B
    ensures 0 <= a / p + (l * q) % B < B
    ensures (a / p + (l * q) % B) * p + a % p == a + (l % p) * B
  {
    ShiftHigh(l, p, q);
    var m := l % p;
    DivMod(a, p);
    assert a / p < q by { if a / p >= q { MulMono(q, a / p, p); } }
    MulMono(m + 1, p, q);
    MulMono(0, m, q);
    assert (a / p + m * q) * p == (a / p) * p + m * (p * q) by { Distrib(p, a / p, m, q); }
  }

  lemma DivMod(a: int, p: int)
    requires p >= 1
    ensures a == (a / p) * p + a % p && 0 <= a % p < p
    ensures a >= 0 ==> a / p >= 0
  {
  }

  lemma ShiftHigh(l: limb, p: int, q: int)
    requires p >= 1 && q >= 1 && p * q == B
    ensures (l * q) % B == (l % p) * q
  {
    var m, t := l % p, l / p;
    DivMod(l, p);
    assert l * q == (t * p + m) * q == t * (p * q) + m * q by { Distrib(q, m, t, p); }
    MulMono(m + 1, p, q);
    MulMono(0, m, q);
    ModUnique(l * q, B, t, m * q);
  }

  lemma ModUnique(x: int, b: int, t: int, m: int)
    requires b > 0 && x == t * b + m && 0 <= m < b
    ensures x % b == m && x / b == t
  {
    DivMod(x, b);
    DigitsUnique(x % b, x / b, m, t, b);
  }

  lemma ShrStep(s: seq<limb>, i: nat, rs: seq<limb>, a: limb, l: limb, d: limb, p: int, hm: int, w: int)
    requires i < |s| && a == s[i] && p > 0
    requires Val(rs) * p + l % p == Val(s[i + 1..]) + hm * w
    requires d * p + a % p == a + (l % p) * B
    ensures Val([d] + rs) * p + a % p == Val(s[i..]) + hm * (B * w)
  {
    ValHead([d] + rs); ValHead(s[i..]);
    assert ([d] + rs)[1..] == rs && s[i..][1..] == s[i + 1..];
    ShrScale(Val(rs), Val(s[i + 1..]), d, p, l % p, hm, w);
  }

  lemma ShrScale(r: int, v: int, d: int, p: int, m: int, hm: int, w: int)
    requires r * p + m == v + hm * w
    ensures (d + B * r) * p + m * B == d * p + B * v + hm * (B * w)
  {
    assert B * (r * p + m) == B * (v + hm * w);
    assert (B * r) * p == B * (r * p);
    assert B * (hm * w) == hm * (B * w);
  }

  /** Whether some limb is nonzero. */
  method MpScanNz(tab: array<limb>, o: nat, n: nat) returns (nz: bool)
    requires o + n <= tab.Length
    ensures nz <==> V(tab, o, n) != 0
  {
    hide Val;
    ghost var s := tab[o..o + n];
    ValZero(s);
    var i := 0;
    while i < n
      invariant 0 <= i <= n
      invariant forall j :: 0 <= j < i ==> s[j] == 0
    {
      if tab[o + i] != 0 { assert s[i] != 0; return true; }
      i := i + 1;
    }
    return false;
  }

  /** Sign of the difference of two numbers of n limbs. */
  method MpCmp(taba: array<limb>, ao: nat, tabb: array<limb>, bo: nat, n: nat) returns (c: int)
    requires ao + n <= taba.Length && bo + n <= tabb.Length
    ensures c == -1 || c == 0 || c == 1
    ensures c < 0 <==> V(taba, ao, n) < V(tabb, bo, n)
    ensures c == 0 <==> V(taba, ao, n) == V(tabb, bo, n)
  {
    hide Val, BP;
    ghost var s, t := taba[ao..ao + n], tabb[bo..bo + n];
    var i := n;
    while i > 0
      invariant 0 <= i <= n && s[i..] == t[i..]
    {
      i := i - 1;
      if taba[ao + i] != tabb[bo + i] {
        if taba[ao + i] < tabb[bo + i] { FirstDifference(s, t, i); return -1; }
        FirstDifference(t, s, i);
        return 1;
      }
    }
    assert s == t;
    return 0;
  }

  lemma FirstDifference(s: seq<limb>, t: seq<limb>, i: nat)
    requires i < |s| == |t| && s[i] < t[i] && s[i + 1..] == t[i + 1..]
    ensures Val(s) < Val(t)
  {
    hide Val, BP;
    ValSplit(s, i + 1); ValSplit(t, i + 1);
    ValTake(s, i); ValTake(t, i);
    ValBound(s[..i]); ValBound(t[..i]);
    MulMono(s[i] + 1, t[i], BP(i));
  }
}
