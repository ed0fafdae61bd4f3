/** The number-theoretic transform over one modulus: tables, butterfly passes, pointwise product, convolution. */
module Ntt {
  import opened Limbs
  import opened LimbMul
  import opened NttWords
  import opened NttMath
  import opened NttStage

  const NTT_PROOT_2EXP: nat := 51
  const NTT_TRIG_K_MAX: nat := 19

  /** c is stored with its MulModFast2 inverse. */
  ghost predicate Scaled(m: int, c: limb, cInv: limb) {
    c < m && IsScaled(cInv, c, m)
  }

  /** Twiddle factors g^0, g^1, ... for rows of length 2 * nb, each followed by its inverse. */
  ghost predicate Twiddles(m: int, trig: seq<limb>, g: int, nb: nat) {
    |trig| == 2 * nb && forall i: nat :: i < nb ==> Twiddle(m, trig, g, i)
  }

  ghost predicate Twiddle(m: int, trig: seq<limb>, g: int, i: nat) {
    2 * i + 1 < |trig| && Scaled(m, trig[2 * i], trig[2 * i + 1]) && Cong(m, trig[2 * i], Pow(g, i))
  }

  /** Every value is below 2m. */
  ghost predicate Small(m: int, x: seq<limb>) {
    forall q :: 0 <= q < |x| ==> x[q] < 2 * m
  }

  // The butterflies of one block

  /** The f butterflies of one block have been written, the rest of y is as in y0. */
  ghost predicate Block(m: int, x: seq<limb>, y0: seq<limb>, y: seq<limb>, k: nat, p: nat, f: nat, stride: nat, c: int,
                        done: nat) {
    && |y| == |y0|
    && (forall j: nat :: j < done ==> Pair(m, x, y, k, p, f, stride, c, j))
    && (forall q :: 0 <= q < |y| && !(p <= q < p + done) && !(p + f <= q < p + f + done) ==> y[q] == y0[q])
  }

  ghost predicate Pair(m: int, x: seq<limb>, y: seq<limb>, k: nat, p: nat, f: nat, stride: nat, c: int, j: nat) {
    && At(y, p + j) < 2 * m && At(y, p + j + f) < 2 * m
    && Cong(m, At(y, p + j), At(x, k + j) + At(x, k + j + stride))
    && Cong(m, At(y, p + j + f), (At(x, k + j) - At(x, k + j + stride)) * c)
  }

  method NttBlock(tabIn: array<limb>, tabOut: array<limb>, k: nat, p: nat, f: nat, stride: nat, m: limb, c: limb,
                  cInv: limb)
    requires tabIn != tabOut && IsModulus(m) && Scaled(m, c, cInv) && Small(m, tabIn[..])
    requires k + f + stride <= tabIn.Length && p + 2 * f <= tabOut.Length
    modifies tabOut
    ensures Block(m, tabIn[..], old(tabOut[..]), tabOut[..], k, p, f, stride, c, f)
  {
    hide Small, Block, Cong, IsScaled, Pair;
    var m2: limb := 2 * m;
    ghost var x, y0 := tabIn[..], tabOut[..];
    BlockStart(m, x, y0, k, p, f, stride, c);
    var j := 0;
    while j < f
      invariant 0 <= j <= f
      invariant Block(m, x, y0, tabOut[..], k, p, f, stride, c, j)
    {
      ghost var y := tabOut[..];
      var a0, a1 := tabIn[k + j], tabIn[k + j + stride];
      SmallAt(m, x, k + j); SmallAt(m, x, k + j + stride);
      var b0 := AddMod(a0, a1, m2);
      var d := (a0 - a1 + m2) % B;
      ModUnique(a0 - a1 + m2, B, 0, a0 - a1 + m2);
      var b1 := MulModFast3(d, c, m, cInv);
      AddCong(m, a0, a1, b0);
      MulCong(m, a0, a1, d, c, d * cInv / B, b1);
      tabOut[p + j] := b0;
      tabOut[p + j + f] := b1;
      BlockStep(m, x, y0, y, k, p, f, stride, c, j, b0, b1);
      j := j + 1;
    }
  }

  lemma BlockStart(m: int, x: seq<limb>, y: seq<limb>, k: nat, p: nat, f: nat, stride: nat, c: int)
    ensures Block(m, x, y, y, k, p, f, stride, c, 0)
  {
  }

  lemma SmallAt(m: int, x: seq<limb>, q: nat)
    requires Small(m, x) && q < |x|
    ensures x[q] < 2 * m
  {
  }

  lemma AddCong(m: int, a: int, b: int, r: int)
    requires r == a + b || r == a + b - 2 * m
    ensures Cong(m, r, a + b)
  {
    CongBy(m, r, a + b, if r == a + b then 0 else -2);
  }

  lemma MulCong(m: int, a: int, b: int, d: int, c: int, q: int, r: int)
    requires d == a - b + 2 * m && r == d * c - q * m
    ensures Cong(m, r, (a - b) * c)
  {
    assert d * c == (a - b) * c + (2 * m) * c;
    assert (2 * c - q) * m == (2 * m) * c - q * m;
    CongBy(m, r, (a - b) * c, 2 * c - q);
  }

  lemma BlockStep(m: int, x: seq<limb>, y0: seq<limb>, y: seq<limb>, k: nat, p: nat, f: nat, stride: nat, c: int,
                  j: nat, b0: limb, b1: limb)
    requires Block(m, x, y0, y, k, p, f, stride, c, j) && j < f && p + 2 * f <= |y| && k + j + stride < |x|
    requires b0 < 2 * m && b1 < 2 * m
    requires Cong(m, b0, At(x, k + j) + At(x, k + j + stride))
             && Cong(m, b1, (At(x, k + j) - At(x, k + j + stride)) * c)
    ensures Block(m, x, y0, y[p + j := b0][p + j + f := b1], k, p, f, stride, c, j + 1)
  {
    hide Cong;
    var z := y[p + j := b0][p + j + f := b1];
    forall i: nat | i < j + 1 ensures Pair(m, x, z, k, p, f, stride, c, i) {
      if i < j { assert Pair(m, x, y, k, p, f, stride, c, i); }
    }
  }

  // One pass

  /** The first blocks of a pass are written. */
  ghost predicate Blocks(m: int, x: seq<limb>, y: seq<limb>, f: nat, nb: nat, g: int, done: nat) {
    forall i: nat, j: nat :: i < done && j < f ==> Written(m, x, y, f, nb, g, i, j)
  }

  ghost predicate Written(m: int, x: seq<limb>, y: seq<limb>, f: nat, nb: nat, g: int, i: nat, j: nat) {
    && Butterfly(m, x, y, f, nb, g, i, j)
    && At(y, Idx(i, 2 * f, j)) < 2 * m && At(y, Idx(i, 2 * f, f + j)) < 2 * m
  }

  lemma IdxLess(i: nat, done: nat, f: nat, j: nat)
    requires i < done && j < f
    ensures 0 <= Idx(i, f, j) < done * f
  {
    MulMono(i + 1, done, f);
    assert (i + 1) * f == i * f + f;
    MulMono(0, i, f);
  }

  lemma IdxShift(i: int, nb: int, f: int, j: int)
    ensures Idx(i + nb, f, j) == Idx(i, f, j) + nb * f && Idx(i, 2 * f, f + j) == Idx(i, 2 * f, j) + f
  {
  }

  /** One more block: what was written stays, and the new pairs are those of block number done. */
  lemma BlocksStep(m: int, x: seq<limb>, y: seq<limb>, y': seq<limb>, f: nat, nb: nat, g: int, done: nat, k: nat,
                   p: nat, c: int)
    requires Blocks(m, x, y, f, nb, g, done) && k == done * f && p == done * (2 * f)
    requires Block(m, x, y, y', k, p, f, nb * f, c, f) && Cong(m, c, Pow(g, done)) && p + 2 * f <= |y|
    ensures Blocks(m, x, y', f, nb, g, done + 1)
  {
    hide Cong, Idx, At, Pow, Block, Butterfly;
    forall i: nat, j: nat | i < done + 1 && j < f ensures Written(m, x, y', f, nb, g, i, j) {
      if i < done {
        WrittenStays(m, x, y, y', f, nb, g, i, j, done, k, p, c);
      } else {
        NewPair(m, x, y, y', f, nb, g, j, done, k, p, c);
      }
    }
  }

  lemma WrittenStays(m: int, x: seq<limb>, y: seq<limb>, y': seq<limb>, f: nat, nb: nat, g: int, i: nat, j: nat,
                     done: nat, k: nat, p: nat, c: int)
    requires Blocks(m, x, y, f, nb, g, done) && i < done && j < f && p == done * (2 * f)
    requires Block(m, x, y, y', k, p, f, nb * f, c, f) && p + 2 * f <= |y|
    ensures Written(m, x, y', f, nb, g, i, j)
  {
    hide Cong, Idx, Pair;
    assert Written(m, x, y, f, nb, g, i, j);
    IdxLess(i, done, 2 * f, j);
    IdxLess(i, done, 2 * f, f + j);
  }

  lemma NewPair(m: int, x: seq<limb>, y: seq<limb>, y': seq<limb>, f: nat, nb: nat, g: int, j: nat, done: nat, k: nat,
                p: nat, c: int)
    requires j < f && k == done * f && p == done * (2 * f)
    requires Block(m, x, y, y', k, p, f, nb * f, c, f) && Cong(m, c, Pow(g, done))
    ensures Written(m, x, y', f, nb, g, done, j)
  {
    hide Cong, At, Pow;
    assert Pair(m, x, y', k, p, f, nb * f, c, j);
    IdxShift(done, nb, f, j);
    var d := At(x, k + j) - At(x, k + j + nb * f);
    CongMulL(m, d, c, Pow(g, done));
    CongTrans(m, At(y', p + j + f), d * c, d * Pow(g, done));
  }

  lemma BlocksDone(m: int, x: seq<limb>, y: seq<limb>, f: nat, nb: nat, g: int)
    requires Blocks(m, x, y, f, nb, g, nb) && |y| == nb * (2 * f) && f > 0
    ensures Stage(m, x, y, f, nb, g) && Small(m, y)
  {
    hide Cong, Butterfly, At, Idx;
    forall i: nat, j: nat | i < nb && j < f ensures Butterfly(m, x, y, f, nb, g, i, j) {
      assert Written(m, x, y, f, nb, g, i, j);
    }
    forall q | 0 <= q < |y| ensures y[q] < 2 * m {
      var i, r := q / (2 * f), q % (2 * f);
      Locate(q, nb, 2 * f);
      SmallHere(m, x, y, f, nb, g, i, r, q);
    }
  }

  lemma Locate(q: nat, nb: nat, f: nat)
    requires f > 0 && q < nb * f
    ensures 0 <= q / f < nb && 0 <= q % f < f && q == Idx(q / f, f, q % f)
  {
    DivMod(q, f);
    var i := q / f;
    if i >= nb { MulMono(nb, i, f); }
  }

  lemma SmallHere(m: int, x: seq<limb>, y: seq<limb>, f: nat, nb: nat, g: int, i: nat, r: nat, q: nat)
    requires Blocks(m, x, y, f, nb, g, nb) && i < nb && r < 2 * f && q == Idx(i, 2 * f, r) && q < |y|
    ensures y[q] < 2 * m
  {
    hide Cong, Butterfly, Idx;
    assert Written(m, x, y, f, nb, g, i, if r < f then r else r - f);
  }

  /** One pass over all blocks. */
  method NttPass(tabIn: array<limb>, tabOut: array<limb>, f: nat, nb: nat, trig: seq<limb>, m: limb, ghost g: int)
    requires tabIn != tabOut && IsModulus(m) && f > 0 && Twiddles(m, trig, g, nb) && Small(m, tabIn[..])
    requires tabIn.Length == nb * f + nb * f == tabOut.Length
    modifies tabOut
    ensures Stage(m, tabIn[..], tabOut[..], f, nb, g) && Small(m, tabOut[..])
  {
    hide Small, Blocks, Block, Cong, Stage, Scaled;
    ghost var x := tabIn[..];
    var k, p, i, stride := 0, 0, 0, tabIn.Length / 2;
    BlocksNone(m, x, tabOut[..], f, nb, g);
    while i < nb
      invariant 0 <= i <= nb && k == i * f && p == 2 * k
      invariant Blocks(m, x, tabOut[..], f, nb, g, i)
    {
      ghost var y := tabOut[..];
      assert Twiddle(m, trig, g, i);
      InBlock(i, nb, f);
      NttBlock(tabIn, tabOut, k, p, f, stride, m, trig[2 * i], trig[2 * i + 1]);
      BlocksStep(m, x, y, tabOut[..], f, nb, g, i, k, p, trig[2 * i]);
      k := k + f;
      p := p + 2 * f;
      i := i + 1;
    }
    BlocksDone(m, x, tabOut[..], f, nb, g);
  }

  lemma BlocksNone(m: int, x: seq<limb>, y: seq<limb>, f: nat, nb: nat, g: int)
    ensures Blocks(m, x, y, f, nb, g, 0)
  {
  }

  lemma InBlock(i: nat, nb: nat, f: nat)
    requires i < nb
    ensures i * f + f <= nb * f && (i + 1) * f == i * f + f && i * (2 * f) == 2 * (i * f)
  {
    MulMono(i + 1, nb, f);
  }

  /** The last pass, without twiddle factors; it may work in place. */
  method NttLastPass(tabIn: array<limb>, tabOut: array<limb>, stride: nat, m: limb)
    requires IsModulus(m) && Small(m, tabIn[..]) && tabIn.Length == 2 * stride == tabOut.Length
    modifies tabOut
    ensures LastPass(m, old(tabIn[..]), tabOut[..], stride) && Small(m, tabOut[..])
  {
    hide Cong, Small;
    var m2: limb := 2 * m;
    ghost var x := tabIn[..];
    var k := 0;
    while k < stride
      invariant 0 <= k <= stride
      invariant forall j :: k <= j < stride ==> tabIn[j] == x[j]
      invariant forall j :: k + stride <= j < tabIn.Length ==> tabIn[j] == x[j]
      invariant forall j :: 0 <= j < k ==> LastPair(m, x, tabOut[..], stride, j)
    {
      ghost var y := tabOut[..];
      var a0, a1 := tabIn[k], tabIn[k + stride];
      SmallAt(m, x, k); SmallAt(m, x, k + stride);
      var b0 := AddMod(a0, a1, m2);
      var b1 := SubMod(a0, a1, m2);
      AddCong(m, a0, a1, b0);
      SubCong(m, a0, a1, b1);
      tabOut[k] := b0;
      tabOut[k + stride] := b1;
      LastStep(m, x, y, stride, k, b0, b1);
      assert tabOut[..] == y[k := b0][k + stride := b1];
      k := k + 1;
    }
    LastSmall(m, x, tabOut[..], stride);
  }

  ghost predicate LastPair(m: int, x: seq<limb>, y: seq<limb>, stride: nat, k: nat) {
    && At(y, k) < 2 * m && At(y, k + stride) < 2 * m
    && Cong(m, At(y, k), At(x, k) + At(x, k + stride)) && Cong(m, At(y, k + stride), At(x, k) - At(x, k + stride))
  }

  ghost predicate LastPass(m: int, x: seq<limb>, y: seq<limb>, stride: nat) {
    forall k: nat :: k < stride ==> LastPair(m, x, y, stride, k)
  }

  lemma SubCong(m: int, a: int, b: int, r: int)
    requires r == a - b || r == a - b + 2 * m
    ensures Cong(m, r, a - b)
  {
    CongBy(m, r, a - b, if r == a - b then 0 else 2);
  }

  lemma LastStep(m: int, x: seq<limb>, y: seq<limb>, stride: nat, k: nat, b0: limb, b1: limb)
    requires |x| == |y| == 2 * stride && k < stride && b0 < 2 * m && b1 < 2 * m
    requires Cong(m, b0, At(x, k) + At(x, k + stride)) && Cong(m, b1, At(x, k) - At(x, k + stride))
    requires forall j: nat :: j < k ==> LastPair(m, x, y, stride, j)
    ensures var z := y[k := b0][k + stride := b1]; forall j: nat :: j < k + 1 ==> LastPair(m, x, z, stride, j)
  {
    hide Cong;
    var z := y[k := b0][k + stride := b1];
    forall j: nat | j < k ensures LastPair(m, x, z, stride, j) {
      assert LastPair(m, x, y, stride, j);
    }
  }

  lemma LastSmall(m: int, x: seq<limb>, y: seq<limb>, stride: nat)
    requires |y| == 2 * stride && LastPass(m, x, y, stride)
    ensures Small(m, y)
  {
    hide Cong;
    forall q | 0 <= q < |y| ensures y[q] < 2 * m {
      assert LastPair(m, x, y, stride, if q < stride then q else q - stride);
    }
  }

  // The tables of one modulus

  /** The roots: pow[k] has order 2^k and is the square of pow[k + 1]. */
  ghost predicate Roots(m: int, pow: seq<limb>, powInv: seq<limb>) {
    && |pow| == |powInv| == NTT_PROOT_2EXP + 1 && Cong(m, pow[1], -1)
    && forall k :: 1 <= k <= NTT_PROOT_2EXP ==> RootEntry(m, pow, powInv, k)
  }

  ghost predicate RootEntry(m: int, pow: seq<limb>, powInv: seq<limb>, k: nat)
    requires 1 <= k < |pow| == |powInv|
  {
    Scaled(m, pow[k], powInv[k]) && (k > 1 ==> Cong(m, pow[k - 1], Square(pow[k])))
  }

  function Square(z: int): int {
    z * z
  }

  /** 1/2^k mod m for every k. */
  ghost predicate LenInverses(m: int, norm: seq<limb>, normInv: seq<limb>) {
    && |norm| == |normInv| == NTT_PROOT_2EXP + 1
    && forall k :: 0 <= k <= NTT_PROOT_2EXP ==> LenEntry(m, norm[k], normInv[k], k)
  }

  ghost predicate LenEntry(m: int, c: limb, cInv: limb, k: nat) {
    Scaled(m, c, cInv) && Cong(m, c * TwoTo(k), 1)
  }

  lemma {:induction false} RootsAre(m: int, pow: seq<limb>, powInv: seq<limb>, k: nat)
    requires Roots(m, pow, powInv) && 1 <= k <= NTT_PROOT_2EXP
    ensures Root(m, pow[k], k)
  {
    hide Cong, Square;
    if k == 1 {
      PowNext(pow[1], 0);
      assert Pow(pow[1], 0) == 1;
    } else {
      RootsAre(m, pow, powInv, k - 1);
      assert RootEntry(m, pow, powInv, k);
      RootUp(m, pow[k], pow[k - 1], k);
    }
  }

  /** A root whose square has order 2^(k-1) has order 2^k. */
  lemma RootUp(m: int, w: int, s: int, k: nat)
    requires k >= 2 && Root(m, s, k - 1) && Cong(m, s, Square(w))
    ensures Root(m, w, k)
  {
    hide Cong, Pow;
    var h := TwoTo(k - 2);
    PowCong(m, s, w * w, h);
    SquarePow(w, h);
    CongSym(m, Pow(s, h), Pow(w * w, h));
    CongTrans(m, Pow(w, 2 * h), Pow(s, h), -1);
  }
}
