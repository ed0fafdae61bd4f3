/** The tables kept for one modulus, and the transform and convolution that use them. */
module NttFft {
  import opened Limbs
  import opened NttWords
  import opened NttMath
  import opened NttStage
  import opened Ntt

  // Building the tables

  lemma SquareFits(a: limb, b: limb, m: limb)
    requires IsModulus(m) && a < m && b < 2 * m
    ensures a * b < B * MIN && 0 <= a * b
  {
    MulMono(0, a, b);
    MulMono(a, m, b);
    MulMono(b, 2 * m, m);
    MulStrict(m, 2 * MIN, m);
    MulStrict(m, 2 * MIN, 2 * MIN);
  }

  lemma RootCong(m: int, a: int, b: int, k: nat)
    requires Root(m, b, k) && Cong(m, a, b)
    ensures Root(m, a, k)
  {
    hide Cong;
    PowCong(m, a, b, TwoTo(k - 1));
    CongTrans(m, Pow(a, TwoTo(k - 1)), Pow(b, TwoTo(k - 1)), -1);
  }

  /** The part of the table from index lo on. */
  ghost predicate RootsFrom(m: int, pow: seq<limb>, powInv: seq<limb>, lo: nat) {
    && |pow| == |powInv| == NTT_PROOT_2EXP + 1
    && forall k :: lo <= k <= NTT_PROOT_2EXP && 1 <= k ==>
         (Scaled(m, pow[k], powInv[k]) && (k > lo && k > 1 ==> Cong(m, pow[k - 1], Square(pow[k]))))
  }

  lemma RootsMore(m: int, pow: seq<limb>, powInv: seq<limb>, lo: nat, c: limb, cInv: limb)
    requires RootsFrom(m, pow, powInv, lo) && 1 < lo <= NTT_PROOT_2EXP + 1 && Scaled(m, c, cInv)
    requires lo <= NTT_PROOT_2EXP ==> Cong(m, c, Square(pow[lo]))
    ensures RootsFrom(m, pow[lo - 1 := c], powInv[lo - 1 := cInv], lo - 1)
  {
  }

  lemma RootsAll(m: int, pow: seq<limb>, powInv: seq<limb>)
    requires RootsFrom(m, pow, powInv, 1) && Root(m, pow[1], 1)
    ensures Roots(m, pow, powInv)
  {
    hide Cong, Square, Scaled;
    PowNext(pow[1], 0);
    assert Pow(pow[1], 0) == 1;
    forall k | 1 <= k <= NTT_PROOT_2EXP ensures RootEntry(m, pow, powInv, k) {
    }
  }

  method FillRoots(m: limb, modsDiv: limb, proot: limb) returns (pow: seq<limb>, powInv: seq<limb>)
    requires IsModulus(m) && IsFastInverse(modsDiv, m) && proot < m && Root(m, proot, NTT_PROOT_2EXP)
    ensures Roots(m, pow, powInv) && pow[NTT_PROOT_2EXP] == proot
  {
    hide Cong, Root, IsFastInverse, Square, IsScaled, RootsFrom;
    pow, powInv := seq(NTT_PROOT_2EXP + 1, _ => 0), seq(NTT_PROOT_2EXP + 1, _ => 0);
    RootsNone(m, pow, powInv);
    var c: limb, i := proot, 0;
    while i < NTT_PROOT_2EXP
      invariant 0 <= i <= NTT_PROOT_2EXP && |pow| == |powInv| == NTT_PROOT_2EXP + 1
      invariant RootsFrom(m, pow, powInv, NTT_PROOT_2EXP + 1 - i) && c < m
      invariant i > 0 ==> pow[NTT_PROOT_2EXP] == proot && Cong(m, c, Square(pow[NTT_PROOT_2EXP + 1 - i]))
      invariant i == 0 ==> c == proot
      invariant i < NTT_PROOT_2EXP ==> Root(m, c, NTT_PROOT_2EXP - i)
      invariant i == NTT_PROOT_2EXP ==> Root(m, pow[1], 1)
    {
      var k := NTT_PROOT_2EXP - i;
      var cInv := InitMulModFast2(c, m);
      RootsMore(m, pow, powInv, k + 1, c, cInv);
      pow, powInv := pow[k := c], powInv[k := cInv];
      NextRoot(m, c, k);
      SquareFits(c, c, m);
      c := MulModFast(c, c, m, modsDiv);
      i := i + 1;
    }
    RootsAll(m, pow, powInv);
  }

  lemma RootsNone(m: int, pow: seq<limb>, powInv: seq<limb>)
    requires |pow| == |powInv| == NTT_PROOT_2EXP + 1
    ensures RootsFrom(m, pow, powInv, NTT_PROOT_2EXP + 1)
  {
  }

  lemma NextRoot(m: int, c: int, k: nat)
    requires m > 0 && Root(m, c, k)
    ensures Cong(m, (c * c) % m, Square(c)) && (k >= 2 ==> Root(m, (c * c) % m, k - 1))
  {
    hide Cong, Root;
    CongMod(m, c * c);
    if k >= 2 {
      RootSquare(m, c, k);
      RootCong(m, (c * c) % m, c * c, k - 1);
    }
  }

  method FillLenInverses(m: limb, modsDiv: limb) returns (norm: seq<limb>, normInv: seq<limb>)
    requires IsModulus(m) && IsFastInverse(modsDiv, m) && m % 2 == 1
    ensures LenInverses(m, norm, normInv)
  {
    hide Cong, IsFastInverse, IsScaled, LenEntry, TwoTo;
    norm, normInv := [], [];
    var cInv2 := (m + 1) / 2;
    var c: limb, i := 1, 0;
    FirstInverse(m);
    while i <= NTT_PROOT_2EXP
      invariant 0 <= i <= NTT_PROOT_2EXP + 1 && |norm| == |normInv| == i && c < m
      invariant Cong(m, Mul(c, TwoTo(i)), 1)
      invariant forall k :: 0 <= k < i ==> LenEntry(m, norm[k], normInv[k], k)
    {
      var cInv := InitMulModFast2(c, m);
      LenEntryIs(m, c, cInv, i);
      norm, normInv := norm + [c], normInv + [cInv];
      SquareFits(c, cInv2, m);
      NextInverse(m, c, i);
      c := MulModFast(c, cInv2, m, modsDiv);
      i := i + 1;
    }
  }

  lemma NextInverse(m: int, c: int, i: nat)
    requires m > 0 && m % 2 == 1 && Cong(m, Mul(c, TwoTo(i)), 1)
    ensures Cong(m, Mul((c * ((m + 1) / 2)) % m, TwoTo(i + 1)), 1)
  {
    hide Cong;
    var h, n := (m + 1) / 2, TwoTo(i);
    CongMod(m, c * h);
    CongRefl(m, 2 * n);
    CongMul(m, (c * h) % m, c * h, 2 * n, 2 * n);
    assert (c * h) * (2 * n) == (c * n) * (2 * h);
    CongBy(m, 2 * h, 1, 1);
    CongMul(m, c * n, 1, 2 * h, 1);
    CongTrans(m, (c * h) % m * (2 * n), (c * n) * (2 * h), 1);
  }

  lemma FirstInverse(m: int)
    ensures Cong(m, Mul(1, TwoTo(0)), 1)
  {
    CongRefl(m, 1);
  }

  lemma LenEntryIs(m: int, c: limb, cInv: limb, k: nat)
    requires c < m && IsScaled(cInv, c, m) && Cong(m, Mul(c, TwoTo(k)), 1)
    ensures LenEntry(m, c, cInv, k)
  {
  }

  /** The inverse of a root is a root. */
  lemma InverseRoot(m: int, w: int, v: int, k: nat)
    requires Root(m, w, k) && Cong(m, w * v, 1)
    ensures Root(m, v, k)
  {
    hide Cong;
    var h := TwoTo(k - 1);
    PowProd(w, v, h);
    PowCong(m, w * v, 1, h);
    PowOne(h);
    CongRefl(m, Pow(v, h));
    CongMul(m, Pow(w, h), -1, Pow(v, h), Pow(v, h));
    CongSym(m, Pow(w, h) * Pow(v, h), -1 * Pow(v, h));
    CongTrans(m, -1 * Pow(v, h), Pow(w, h) * Pow(v, h), 1);
    CongMulL(m, -1, -1 * Pow(v, h), 1);
  }

  /** If the largest roots are inverse to each other, so are all of them. */
  lemma {:induction false} PairsInverse(m: int, pow: seq<limb>, powInv: seq<limb>, pow1: seq<limb>, powInv1: seq<limb>,
                                        k: nat)
    requires Roots(m, pow, powInv) && Roots(m, pow1, powInv1) && 1 <= k <= NTT_PROOT_2EXP
    requires Cong(m, Mul(pow[NTT_PROOT_2EXP], pow1[NTT_PROOT_2EXP]), 1)
    ensures Cong(m, Mul(pow[k], pow1[k]), 1)
    decreases NTT_PROOT_2EXP - k
  {
    hide Cong, Square, Mul, Scaled;
    if k < NTT_PROOT_2EXP {
      PairsInverse(m, pow, powInv, pow1, powInv1, k + 1);
      assert RootEntry(m, pow, powInv, k + 1) && RootEntry(m, pow1, powInv1, k + 1);
      SquaresInverse(m, pow[k + 1], pow1[k + 1], pow[k], pow1[k]);
    }
  }

  function Mul(a: int, b: int): int {
    a * b
  }

  lemma SquaresInverse(m: int, a: int, b: int, c: int, d: int)
    requires Cong(m, Mul(a, b), 1) && Cong(m, c, Square(a)) && Cong(m, d, Square(b))
    ensures Cong(m, Mul(c, d), 1)
  {
    hide Cong;
    CongMul(m, c, a * a, d, b * b);
    CongMul(m, a * b, 1, a * b, 1);
    Regroup4(a, b, a, b);
    CongTrans(m, c * d, (a * a) * (b * b), 1);
  }

  class BFNTTState {
    const m: limb
    var nttModsDiv: limb
    var nttProotPow: seq<seq<limb>>
    var nttProotPowInv: seq<seq<limb>>
    var nttLenInv: seq<limb>
    var nttLenInvScaled: seq<limb>
    var nttTrig: map<(nat, nat), seq<limb>>

    /** Tables 0 and 1 hold inverse roots, and every cached table holds twiddle factors. */
    ghost predicate Valid()
      reads this
    {
      && IsModulus(m) && IsFastInverse(nttModsDiv, m) && |nttProotPow| == |nttProotPowInv| == 2
      && Roots(m, nttProotPow[0], nttProotPowInv[0]) && Roots(m, nttProotPow[1], nttProotPowInv[1])
      && Cong(m, Mul(nttProotPow[0][NTT_PROOT_2EXP], nttProotPow[1][NTT_PROOT_2EXP]), 1)
      && LenInverses(m, nttLenInv, nttLenInvScaled)
      && forall e :: e in nttTrig ==> Cached(m, nttTrig[e], nttProotPow, e)
    }

    constructor (m: limb, proot: limb, prootInverse: limb)
      requires IsModulus(m) && m % 2 == 1 && proot < m && prootInverse < m
      requires Root(m, proot, NTT_PROOT_2EXP) && Cong(m, Mul(proot, prootInverse), 1)
      ensures Valid() && this.m == m && nttProotPow[0][NTT_PROOT_2EXP] == proot
              && nttProotPow[1][NTT_PROOT_2EXP] == prootInverse
    {
      hide Cong, Root, Roots, LenInverses, IsFastInverse;
      var modsDiv := InitMulModFast(m);
      var norm, normInv := FillLenInverses(m, modsDiv);
      var pow, powInv := FillRoots(m, modsDiv, proot);
      InverseRoot(m, proot, prootInverse, NTT_PROOT_2EXP);
      var pow1, powInv1 := FillRoots(m, modsDiv, prootInverse);
      this.m := m;
      nttModsDiv, nttLenInv, nttLenInvScaled := modsDiv, norm, normInv;
      nttProotPow, nttProotPowInv, nttTrig := [pow, pow1], [powInv, powInv1], map[];
    }

    lemma Tables(inverse: nat)
      requires Valid() && inverse < 2
      ensures IsModulus(m) && |nttProotPow| == |nttProotPowInv| == 2
      ensures |nttProotPow[inverse]| == |nttProotPowInv[inverse]| == NTT_PROOT_2EXP + 1
      ensures Roots(m, nttProotPow[inverse], nttProotPowInv[inverse])
    {
    }

    /** The twiddle factors for rows of length 2^k, built the first time they are asked for. */
    method GetTrig(k: nat, inverse: nat) returns (ok: bool, tab: seq<limb>)
      requires Valid() && 1 <= k <= NTT_PROOT_2EXP && inverse < 2
      modifies this`nttTrig
      ensures Valid() && (ok <==> k <= NTT_TRIG_K_MAX)
      ensures ok ==> Twiddles(m, tab, nttProotPow[inverse][k], TwoTo(k - 1))
    {
      hide Cong, Roots, LenInverses, IsFastInverse, Twiddles, TwoTo;
      Tables(inverse);
      if k > NTT_TRIG_K_MAX {
        return false, [];
      }
      if (inverse, k) in nttTrig {
        assert Cached(m, nttTrig[(inverse, k)], nttProotPow, (inverse, k));
        return true, nttTrig[(inverse, k)];
      }
      RootIsScaled(m, nttProotPow[inverse], nttProotPowInv[inverse], k);
      tab := FillTrig(m, nttProotPow[inverse][k], nttProotPowInv[inverse][k], TwoTo(k - 1));
      nttTrig := nttTrig[(inverse, k) := tab];
      ok := true;
    }

    /**
     * The transform of inBuf, in natural order, using the root of order 2^fftLenLog2.  inBuf and tmpBuf are overwritten
     * by turns; outBuf may be inBuf.
     */
    method NttFft(outBuf: array<limb>, inBuf: array<limb>, tmpBuf: array<limb>, fftLenLog2: nat, inverse: nat)
      returns (ok: bool)
      requires Valid() && 1 <= fftLenLog2 <= NTT_PROOT_2EXP && inverse < 2
      requires inBuf != tmpBuf && inBuf.Length == outBuf.Length == tmpBuf.Length == TwoTo(fftLenLog2)
      requires Small(m, inBuf[..])
      modifies this`nttTrig, outBuf, inBuf, tmpBuf
      ensures Valid() && (fftLenLog2 <= NTT_TRIG_K_MAX ==> ok)
      ensures ok ==> Transform(m, old(inBuf[..]), outBuf[..], nttProotPow[inverse][fftLenLog2]) && Small(m, outBuf[..])
    {
      hide *;
      Tables(inverse);
      FirstBlocks(fftLenLog2);
      ghost var s: seq<int>, pow := inBuf[..], nttProotPow[inverse];
      ghost var w: int := pow[fftLenLog2];
      var nbBlocks, fftPerBlock, l := TwoTo(fftLenLog2), 1, fftLenLog2;
      var stride := nbBlocks / 2;
      var tabIn, tabOut := inBuf, tmpBuf;
      SpectralStart(m, inBuf[..], s, w);
      while nbBlocks != 2
        invariant 1 <= l <= fftLenLog2 && nbBlocks == TwoTo(l) && fftPerBlock == TwoTo(fftLenLog2 - l)
        invariant (tabIn == inBuf && tabOut == tmpBuf) || (tabIn == tmpBuf && tabOut == inBuf)
        invariant Valid() && Small(m, tabIn[..])
        invariant Spectral(m, tabIn[..], fftPerBlock, nbBlocks, pow[l], s, w)
        decreases l
      {
        HalfBlocks(l, fftLenLog2);
        Tables(inverse);
        nbBlocks := nbBlocks / 2;
        var trig;
        ok, trig := GetTrig(l, inverse);
        if !ok {
          return;
        }
        ghost var x := tabIn[..];
        NttPass(tabIn, tabOut, fftPerBlock, nbBlocks, trig, m, pow[l]);
        RootStep(m, pow, nttProotPowInv[inverse], l);
        StageKeeps(m, x, tabOut[..], fftPerBlock, nbBlocks, pow[l], pow[l - 1], s, w);
        fftPerBlock := 2 * fftPerBlock;
        l := l - 1;
        tabIn, tabOut := tabOut, tabIn;
      }
      LastBlocks(l, fftLenLog2);
      ghost var x := tabIn[..];
      tabOut := outBuf;
      NttLastPass(tabIn, tabOut, stride, m);
      LastPairs(m, x, outBuf[..], stride);
      LastRoot(m, pow, nttProotPowInv[inverse]);
      SpectralEnd(m, x, outBuf[..], stride, pow[1], s, w);
      ok := true;
    }

    /** Multiplies two transforms point by point, scaled by 1/2^kTot. */
    method NttVecMul(tab1: array<limb>, tab2: array<limb>, kTot: nat)
      requires Valid() && kTot <= NTT_PROOT_2EXP && tab1.Length == tab2.Length && Small(m, tab1[..])
               && Small(m, tab2[..])
      modifies tab1
      ensures Products(m, old(tab1[..]), old(tab2[..]), tab1[..], nttLenInv[kTot], tab1.Length) && Small(m, tab1[..])
    {
      hide *;
      Norms(kTot);
      ghost var x1, x2 := tab1[..], tab2[..];
      var norm, normInv := nttLenInv[kTot], nttLenInvScaled[kTot];
      NoProducts(m, x1, x2, norm);
      var i := 0;
      while i < tab1.Length
        invariant 0 <= i <= tab1.Length
        invariant forall j :: i <= j < tab1.Length ==> tab1[j] == x1[j]
        invariant forall j :: i <= j < tab1.Length ==> tab2[j] == x2[j]
        invariant Products(m, x1, x2, tab1[..], norm, i) && Small(m, tab1[..])
      {
        ghost var y := tab1[..];
        var a := tab1[i];
        SmallAt(m, x1, i); SmallAt(m, x2, i);
        if a >= m {
          a := a - m;
        }
        Norms(kTot);
        SquareFits(a, tab2[i], m);
        var p := MulModFast(a, tab2[i], m, nttModsDiv);
        var r := MulModFast3(p, norm, m, normInv);
        ProductIs(m, x1[i], a, x2[i], p, norm, p * normInv / B, r);
        ProductsMore(m, x1, x2, y, norm, i, r);
        tab1[i] := r;
        i := i + 1;
      }
    }

    lemma Norms(k: nat)
      requires Valid() && k <= NTT_PROOT_2EXP
      ensures IsModulus(m) && 0 < m && 4 * m < B && IsFastInverse(nttModsDiv, m)
              && |nttLenInv| == |nttLenInvScaled| == NTT_PROOT_2EXP + 1
      ensures nttLenInv[k] < m && IsScaled(nttLenInvScaled[k], nttLenInv[k], m)
              && Cong(m, Mul(nttLenInv[k], TwoTo(k)), 1)
    {
      hide Roots, Cached, Cong, IsFastInverse, IsScaled;
      assert LenEntry(m, nttLenInv[k], nttLenInvScaled[k], k);
    }

    lemma InversePair(k: nat)
      requires Valid() && 1 <= k <= NTT_PROOT_2EXP
      ensures |nttProotPow| == 2 && |nttProotPow[0]| == |nttProotPow[1]| == NTT_PROOT_2EXP + 1
      ensures Root(m, nttProotPow[0][k], k) && Cong(m, Mul(nttProotPow[0][k], nttProotPow[1][k]), 1)
    {
      hide Roots, Cong, Root, LenInverses, Cached;
      Tables(0);
      Tables(1);
      RootsAre(m, nttProotPow[0], nttProotPowInv[0], k);
      PairsInverse(m, nttProotPow[0], nttProotPowInv[0], nttProotPow[1], nttProotPowInv[1], k);
    }

    /** Convolution of two sequences of 2^k values, k small enough for one level of transforms: buf1 gets the result. */
    method NttConv(buf1: array<limb>, buf2: array<limb>, k: nat) returns (ok: bool)
      requires Valid() && 1 <= k <= NTT_TRIG_K_MAX && buf1 != buf2 && buf1.Length == buf2.Length == TwoTo(k)
      requires Small(m, buf1[..]) && Small(m, buf2[..])
      modifies this`nttTrig, buf1, buf2
      ensures ok && Valid() && Small(m, buf1[..])
      ensures Convolved(m, old(buf1[..]), old(buf2[..]), buf1[..])
    {
      hide *;
      TrigMax();
      ghost var a: seq<int>, b: seq<int> := buf1[..], buf2[..];
      Tables(0);
      Tables(1);
      Norms(k);
      ghost var w: int, v: int, norm: int := nttProotPow[0][k], nttProotPow[1][k], nttLenInv[k];
      var buf3 := new limb[TwoTo(k)];
      ok := NttFft(buf1, buf1, buf3, k, 0);
      ghost var fa := buf1[..];
      buf3 := new limb[TwoTo(k)];
      ok := NttFft(buf2, buf2, buf3, k, 0);
      ghost var fb := buf2[..];
      NttVecMul(buf1, buf2, k);
      ghost var p := buf1[..];
      buf3 := new limb[TwoTo(k)];
      ok := NttFft(buf1, buf1, buf3, k, 1);
      InversePair(k);
      ConvolvedIs(m, w, v, k, a, b, fa, fb, p, norm, buf1[..]);
    }
  }

  /** The first n elements of y are the scaled products of those of x1 and x2. */
  ghost predicate Products(m: int, x1: seq<int>, x2: seq<int>, y: seq<int>, norm: int, n: nat) {
    n <= |x1| == |x2| == |y| && forall j :: 0 <= j < n ==> Product(m, x1[j], x2[j], y[j], norm)
  }

  ghost predicate Product(m: int, a: int, b: int, r: int, norm: int) {
    Cong(m, r, norm * (a * b))
  }

  lemma TrigMax()
    ensures NTT_TRIG_K_MAX < NTT_PROOT_2EXP
  {
  }

  lemma NoProducts(m: int, x1: seq<int>, x2: seq<int>, norm: int)
    requires |x1| == |x2|
    ensures Products(m, x1, x2, x1, norm, 0)
  {
  }

  lemma ProductIs(m: int, a0: int, a: int, b: int, p: int, norm: int, q: int, r: int)
    requires m > 0 && (a == a0 || a == a0 - m) && p == (a * b) % m && r == p * norm - q * m
    ensures Product(m, a0, b, r, norm)
  {
    hide Cong;
    CongBy(m, a, a0, if a == a0 then 0 else -1);
    CongRefl(m, b);
    CongMul(m, a, a0, b, b);
    CongMod(m, a * b);
    CongTrans(m, p, a * b, a0 * b);
    CongMulL(m, norm, p, a0 * b);
    assert -q * m == -(q * m);
    CongBy(m, r, norm * p, -q);
    CongTrans(m, r, norm * p, norm * (a0 * b));
  }

  lemma ProductsMore(m: int, x1: seq<limb>, x2: seq<limb>, y: seq<limb>, norm: int, i: nat, r: limb)
    requires Products(m, x1, x2, y, norm, i) && i < |x1| && Small(m, y) && r < 2 * m
             && Product(m, x1[i], x2[i], r, norm)
    ensures Products(m, x1, x2, y[i := r], norm, i + 1) && Small(m, y[i := r])
  {
    hide Product;
  }

  /** out is the cyclic convolution of a and b modulo m. */
  ghost predicate Convolved(m: int, a: seq<int>, b: seq<int>, out: seq<int>) {
    |a| == |b| == |out| > 0 && forall r :: 0 <= r < |out| ==> Cong(m, out[r], Cyclic(a, b)[r])
  }

  lemma ConvolvedIs(m: int, w: int, v: int, k: nat, a: seq<int>, b: seq<int>, fa: seq<int>, fb: seq<int>, p: seq<int>,
                    norm: int, out: seq<int>)
    requires Root(m, w, k) && Cong(m, Mul(w, v), 1) && Cong(m, Mul(norm, TwoTo(k)), 1)
    requires |a| == |b| == |fa| == |fb| == |p| == |out| == TwoTo(k)
    requires Transform(m, a, fa, w) && Transform(m, b, fb, w) && Transform(m, p, out, v)
    requires Products(m, fa, fb, p, norm, TwoTo(k))
    ensures Convolved(m, a, b, out)
  {
    hide Cong, Cyclic, Transform, Root;
    forall j | 0 <= j < |p| ensures Cong(m, p[j], norm * (fa[j] * fb[j])) {
      assert Product(m, fa[j], fb[j], p[j], norm);
    }
    ConvolutionTheorem(m, w, v, k, a, b, fa, fb, p, norm, out);
  }

  lemma {:induction false} TwoToAdd(j: nat, k: nat)
    ensures TwoTo(j + k) == TwoTo(j) * TwoTo(k)
  {
    if j > 0 {
      TwoToAdd(j - 1, k);
      Regroup(2, TwoTo(j - 1), TwoTo(k));
    }
  }

  lemma {:induction false} TwoToTwo(l: nat)
    requires l >= 1
    ensures TwoTo(l) == 2 <==> l == 1
  {
    if l > 1 { TwoToTwo(l - 1); }
  }

  lemma HalfBlocks(l: nat, k: nat)
    requires 1 <= l <= k && TwoTo(l) != 2
    ensures l >= 2 && TwoTo(l) / 2 == TwoTo(l - 1) && TwoTo(l) == 2 * TwoTo(l - 1)
    ensures TwoTo(k - (l - 1)) == 2 * TwoTo(k - l) && TwoTo(k - l) > 0
    ensures TwoTo(l - 1) * TwoTo(k - l) + TwoTo(l - 1) * TwoTo(k - l) == TwoTo(k)
  {
    TwoToTwo(l);
    TwoToAdd(l - 1, k - (l - 1));
    SplitStep(TwoTo(l - 1), TwoTo(k - l), 1, TwoTo(k - l));
  }

  lemma FirstBlocks(k: nat)
    ensures TwoTo(k - k) == 1
  {
  }

  lemma LastBlocks(l: nat, k: nat)
    requires 1 <= l <= k && TwoTo(l) == 2
    ensures l == 1 && TwoTo(k) == 2 * TwoTo(k - 1) && TwoTo(k) / 2 == TwoTo(k - 1)
  {
    TwoToTwo(l);
  }

  lemma RootStep(m: int, pow: seq<limb>, powInv: seq<limb>, l: nat)
    requires Roots(m, pow, powInv) && 2 <= l <= NTT_PROOT_2EXP
    ensures var g: int := pow[l]; Cong(m, Pow(g, TwoTo(l - 1)), -1) && Cong(m, pow[l - 1], g * g)
  {
    hide Cong;
    assert RootEntry(m, pow, powInv, l);
    RootsAre(m, pow, powInv, l);
  }

  lemma LastRoot(m: int, pow: seq<limb>, powInv: seq<limb>)
    requires Roots(m, pow, powInv)
    ensures |pow| > 1 && Cong(m, pow[1], -1)
  {
  }

  lemma LastPairs(m: int, x: seq<limb>, y: seq<limb>, stride: nat)
    requires LastPass(m, x, y, stride) && |y| == 2 * stride
    ensures forall k :: 0 <= k < stride ==>
      (Cong(m, y[k], At(x, k) + At(x, k + stride)) && Cong(m, y[k + stride], At(x, k) - At(x, k + stride)))
  {
    hide Cong;
    forall k | 0 <= k < stride
      ensures Cong(m, y[k], At(x, k) + At(x, k + stride)) && Cong(m, y[k + stride], At(x, k) - At(x, k + stride))
    {
      assert LastPair(m, x, y, stride, k);
    }
  }

  lemma RootIsScaled(m: int, pow: seq<limb>, powInv: seq<limb>, k: nat)
    requires Roots(m, pow, powInv) && 1 <= k <= NTT_PROOT_2EXP
    ensures Scaled(m, pow[k], powInv[k])
  {
    assert RootEntry(m, pow, powInv, k);
  }

  /** 1, c, c^2, ... with their inverses. */
  method FillTrig(m: limb, cMul: limb, cMulInv: limb, n2: nat) returns (tab: seq<limb>)
    requires IsModulus(m) && Scaled(m, cMul, cMulInv)
    ensures Twiddles(m, tab, cMul, n2)
  {
    hide Cong, IsScaled, Pow;
    tab := [];
    var c: limb, i := 1, 0;
    PowZero(m, cMul);
    while i < n2
      invariant 0 <= i <= n2 && c < m && Cong(m, c, Pow(cMul, i)) && Twiddles(m, tab, cMul, i)
    {
      var cInv := InitMulModFast2(c, m);
      TwiddleMore(m, tab, cMul, i, c, cInv);
      tab := tab + [c, cInv];
      NextPower(m, c, cMul, i);
      c := MulModFast2(c, cMul, m, cMulInv);
      i := i + 1;
    }
  }

  lemma PowZero(m: int, g: int)
    ensures Cong(m, 1, Pow(g, 0))
  {
    CongRefl(m, 1);
  }

  lemma NextPower(m: int, c: int, g: int, i: nat)
    requires m > 0 && Cong(m, c, Pow(g, i))
    ensures Cong(m, (c * g) % m, Pow(g, i + 1))
  {
    hide Cong;
    CongMod(m, c * g);
    CongRefl(m, g);
    CongMul(m, c, Pow(g, i), g, g);
    CongTrans(m, (c * g) % m, c * g, Pow(g, i + 1));
  }

  lemma TwiddleMore(m: int, tab: seq<limb>, g: int, n: nat, c: limb, cInv: limb)
    requires Twiddles(m, tab, g, n) && Scaled(m, c, cInv) && Cong(m, c, Pow(g, n))
    ensures Twiddles(m, tab + [c, cInv], g, n + 1)
  {
    hide Cong, Scaled, Pow;
    forall i: nat | i < n + 1 ensures Twiddle(m, tab + [c, cInv], g, i) {
      if i < n { assert Twiddle(m, tab, g, i); }
    }
  }

  ghost predicate Cached(m: int, t: seq<limb>, pow: seq<seq<limb>>, e: (nat, nat)) {
    && e.0 < |pow| && 1 <= e.1 < |pow[e.0]| && Twiddles(m, t, pow[e.0][e.1], TwoTo(e.1 - 1))
  }
}
