/** Polynomial evaluation at roots of unity modulo m: the transform, its inverse, and the convolution theorem. */
module NttMath {

  function Pow(z: int, k: nat): int {
    if k == 0 then 1 else Pow(z, k - 1) * z
  }

  ghost predicate Cong(m: int, a: int, b: int) {
    exists k: int :: Shift(m, a, b, k)
  }

  ghost predicate Shift(m: int, a: int, b: int, k: int) {
    a == b + k * m
  }

  /** x[0] + x[1] * z + x[2] * z^2 + ... */
  function Eval(x: seq<int>, z: int): int {
    if |x| == 0 then 0 else Eval(x[..|x| - 1], z) + x[|x| - 1] * Pow(z, |x| - 1)
  }

  // Congruence

  lemma CongBy(m: int, a: int, b: int, k: int)
    requires a == b + k * m
    ensures Cong(m, a, b)
  {
    assert Shift(m, a, b, k);
  }

  lemma CongRefl(m: int, a: int)
    ensures Cong(m, a, a)
  {
    CongBy(m, a, a, 0);
  }

  lemma CongSym(m: int, a: int, b: int)
    requires Cong(m, a, b)
    ensures Cong(m, b, a)
  {
    var k :| Shift(m, a, b, k);
    CongBy(m, b, a, -k);
  }

  lemma CongTrans(m: int, a: int, b: int, c: int)
    requires Cong(m, a, b) && Cong(m, b, c)
    ensures Cong(m, a, c)
  {
    var j :| Shift(m, a, b, j);
    var k :| Shift(m, b, c, k);
    assert (j + k) * m == j * m + k * m;
    CongBy(m, a, c, j + k);
  }

  lemma CongAdd(m: int, a: int, b: int, c: int, d: int)
    requires Cong(m, a, b) && Cong(m, c, d)
    ensures Cong(m, a + c, b + d)
  {
    var j :| Shift(m, a, b, j);
    var k :| Shift(m, c, d, k);
    assert (j + k) * m == j * m + k * m;
    CongBy(m, a + c, b + d, j + k);
  }

  lemma CongMul(m: int, a: int, b: int, c: int, d: int)
    requires Cong(m, a, b) && Cong(m, c, d)
    ensures Cong(m, a * c, b * d)
  {
    var j :| Shift(m, a, b, j);
    var k :| Shift(m, c, d, k);
    MulShift(m, b, d, j, k);
    CongBy(m, a * c, b * d, b * k + j * d + j * k * m);
  }

  lemma MulShift(m: int, b: int, d: int, j: int, k: int)
    ensures (b + j * m) * (d + k * m) == b * d + (b * k + j * d + j * k * m) * m
  {
    assert (b + j * m) * (d + k * m) == b * d + b * (k * m) + (j * m) * d + (j * m) * (k * m);
    assert b * (k * m) == (b * k) * m && (j * m) * d == (j * d) * m && (j * m) * (k * m) == (j * k * m) * m;
    assert (b * k + j * d + j * k * m) * m == (b * k) * m + (j * d) * m + (j * k * m) * m;
  }

  lemma CongMulL(m: int, c: int, a: int, b: int)
    requires Cong(m, a, b)
    ensures Cong(m, c * a, c * b)
  {
    CongRefl(m, c);
    CongMul(m, c, c, a, b);
  }

  lemma CongMod(m: int, a: int)
    requires m > 0
    ensures Cong(m, a % m, a)
  {
    CongBy(m, a % m, a, -(a / m));
  }

  // Powers

  lemma SmallMultiple(m: int, k: int, d: int)
    requires d == k * m && -m < d < m
    ensures d == 0
  {
    assert k >= 1 ==> (k - 1) * m >= 0;
    assert k <= -1 ==> (-k - 1) * m >= 0;
  }

  lemma {:induction false} PowAdd(z: int, a: nat, b: nat)
    ensures Pow(z, a + b) == Pow(z, a) * Pow(z, b)
  {
    if b > 0 {
      PowAdd(z, a, b - 1);
      Regroup(Pow(z, a), Pow(z, b - 1), z);
    }
  }

  lemma Regroup(x: int, y: int, z: int)
    ensures (x * y) * z == x * (y * z)
  {
  }

  lemma {:induction false} PowMul(z: int, a: nat, b: nat)
    ensures a * b >= 0 && Pow(z, a * b) == Pow(Pow(z, a), b)
  {
    Times(a, b);
    if b > 0 {
      PowMul(z, a, b - 1);
      Times(a, b - 1);
      PowAdd(z, a * (b - 1), a);
    }
  }

  lemma Times(a: nat, b: nat)
    ensures a * b >= 0 && (b > 0 ==> a * b == a * (b - 1) + a)
  {
  }

  lemma {:induction false} PowProd(y: int, z: int, k: nat)
    ensures Pow(y * z, k) == Pow(y, k) * Pow(z, k)
  {
    if k > 0 {
      PowProd(y, z, k - 1);
      Regroup4(Pow(y, k - 1), Pow(z, k - 1), y, z);
    }
  }

  lemma Regroup4(a: int, b: int, c: int, d: int)
    ensures (a * b) * (c * d) == (a * c) * (b * d)
  {
  }

  lemma {:induction false} PowOne(k: nat)
    ensures Pow(1, k) == 1
  {
    if k > 0 { PowOne(k - 1); }
  }

  lemma {:induction false} PowCong(m: int, a: int, b: int, k: nat)
    requires Cong(m, a, b)
    ensures Cong(m, Pow(a, k), Pow(b, k))
  {
    hide Cong;
    if k == 0 {
      CongRefl(m, 1);
    } else {
      PowCong(m, a, b, k - 1);
      CongMul(m, Pow(a, k - 1), Pow(b, k - 1), a, b);
    }
  }

  /** -1 to an even and to an odd power. */
  lemma {:induction false} SignPow(m: int, y: int, t: nat)
    requires Cong(m, y, -1)
    ensures Cong(m, Pow(y, 2 * t), 1) && Cong(m, Pow(y, 2 * t + 1), -1)
  {
    hide Cong;
    if t == 0 {
      CongRefl(m, 1);
      assert Pow(y, 1) == Pow(y, 0) * y == y;
    } else {
      SignPow(m, y, t - 1);
      CongMul(m, Pow(y, 2 * t - 1), -1, y, -1);
      CongMul(m, Pow(y, 2 * t), 1, y, -1);
    }
  }

  // Evaluation

  lemma {:induction false} EvalCong(m: int, x: seq<int>, y: seq<int>, z: int)
    requires |x| == |y| && forall i :: 0 <= i < |x| ==> Cong(m, x[i], y[i])
    ensures Cong(m, Eval(x, z), Eval(y, z))
  {
    hide Cong;
    if |x| == 0 {
      CongRefl(m, 0);
    } else {
      var k := |x| - 1;
      EvalCong(m, x[..k], y[..k], z);
      CongRefl(m, Pow(z, k));
      CongMul(m, x[k], y[k], Pow(z, k), Pow(z, k));
      CongAdd(m, Eval(x[..k], z), Eval(y[..k], z), x[k] * Pow(z, k), y[k] * Pow(z, k));
    }
  }

  lemma {:induction false} EvalAt(m: int, x: seq<int>, y: int, z: int)
    requires Cong(m, y, z)
    ensures Cong(m, Eval(x, y), Eval(x, z))
  {
    hide Cong;
    if |x| == 0 {
      CongRefl(m, 0);
    } else {
      var k := |x| - 1;
      EvalAt(m, x[..k], y, z);
      PowCong(m, y, z, k);
      CongMulL(m, x[k], Pow(y, k), Pow(z, k));
      CongAdd(m, Eval(x[..k], y), Eval(x[..k], z), x[k] * Pow(y, k), x[k] * Pow(z, k));
    }
  }

  lemma {:induction false} EvalSplit(x: seq<int>, h: nat, z: int)
    requires h <= |x|
    ensures Eval(x, z) == Eval(x[..h], z) + Pow(z, h) * Eval(x[h..], z)
    decreases |x|
  {
    if |x| == h {
      assert x[..h] == x && x[h..] == [];
    } else {
      var k := |x| - 1;
      EvalSplit(x[..k], h, z);
      assert x[..k][..h] == x[..h] && x[..k][h..] == x[h..k];
      assert x[h..][..k - h] == x[h..k];
      PowAdd(z, h, k - h);
      SplitStep(Pow(z, h), Eval(x[h..k], z), x[k], Pow(z, k - h));
    }
  }

  lemma SplitStep(p: int, v: int, x: int, q: int)
    ensures p * (v + x * q) == p * v + x * (p * q)
  {
  }

  /** One butterfly row: r[i] is (lo[i] + g * hi[i]) * c^i. */
  ghost predicate Folds(m: int, lo: seq<int>, hi: seq<int>, r: seq<int>, g: int, c: int) {
    |lo| == |hi| == |r| && forall i :: 0 <= i < |r| ==> Cong(m, r[i], (lo[i] + g * hi[i]) * Pow(c, i))
  }

  lemma {:induction false} FoldEval(m: int, lo: seq<int>, hi: seq<int>, r: seq<int>, g: int, c: int, z: int)
    requires Folds(m, lo, hi, r, g, c)
    ensures Cong(m, Eval(r, z), Eval(lo, z * c) + g * Eval(hi, z * c))
  {
    hide Cong;
    if |r| == 0 {
      CongRefl(m, 0);
    } else {
      var k := |r| - 1;
      FoldEval(m, lo[..k], hi[..k], r[..k], g, c, z);
      PowProd(z, c, k);
      var p, q := Pow(z, k), Pow(c, k);
      CongMulL(m, p, r[k], (lo[k] + g * hi[k]) * q);
      FoldTerm(lo[k], hi[k], g, p, q, r[k]);
      CongAdd(m, Eval(r[..k], z), Eval(lo[..k], z * c) + g * Eval(hi[..k], z * c), r[k] * p,
              lo[k] * (p * q) + g * (hi[k] * (p * q)));
      FoldSum(Eval(lo[..k], z * c), Eval(hi[..k], z * c), lo[k] * (p * q), hi[k] * (p * q), g);
    }
  }

  lemma FoldTerm(x: int, y: int, g: int, p: int, q: int, r: int)
    ensures p * ((x + g * y) * q) == x * (p * q) + g * (y * (p * q)) && p * r == r * p
  {
    assert (x + g * y) * q == x * q + g * (y * q);
    assert p * (x * q) == x * (p * q);
    assert p * (g * (y * q)) == g * (y * (p * q));
  }

  lemma FoldSum(a: int, b: int, c: int, d: int, g: int)
    ensures (a + g * b) + (c + g * d) == (a + c) + g * (b + d)
  {
  }

  /** Folding a row of length 2h keeps its value at a point whose h-th power is g. */
  lemma FoldKeeps(m: int, x: seq<int>, r: seq<int>, g: int, c: int, z: int)
    requires |x| == 2 * |r| && Folds(m, x[..|r|], x[|r|..], r, g, c)
    requires Cong(m, Pow(z * c, |r|), g)
    ensures Cong(m, Eval(r, z), Eval(x, z * c))
  {
    hide Cong, Folds, Eval;
    var h, y := |r|, z * c;
    var lo, hi := Eval(x[..h], y), Eval(x[h..], y);
    FoldEval(m, x[..h], x[h..], r, g, c, z);
    EvalSplit(x, h, y);
    CongRefl(m, hi);
    CongMul(m, Pow(y, h), g, hi, hi);
    CongRefl(m, lo);
    CongAdd(m, lo, lo, Pow(y, h) * hi, g * hi);
    CongSym(m, Eval(x, y), lo + g * hi);
    CongTrans(m, Eval(r, z), lo + g * hi, Eval(x, y));
  }

  // The inverse transform

  /** u^0 + u^1 + ... + u^(n-1) */
  function Geo(u: int, n: nat): int {
    if n == 0 then 0 else Geo(u, n - 1) + Pow(u, n - 1)
  }

  lemma {:induction false} GeoSplit(u: int, h: nat, k: nat)
    ensures Geo(u, h + k) == Geo(u, h) + Pow(u, h) * Geo(u, k)
  {
    if k > 0 {
      GeoSplit(u, h, k - 1);
      PowAdd(u, h, k - 1);
      assert Pow(u, h) * (Geo(u, k - 1) + Pow(u, k - 1)) == Pow(u, h) * Geo(u, k - 1) + Pow(u, h) * Pow(u, k - 1);
    }
  }

  lemma {:induction false} GeoCong(m: int, u: int, v: int, n: nat)
    requires Cong(m, u, v)
    ensures Cong(m, Geo(u, n), Geo(v, n))
  {
    hide Cong;
    if n == 0 {
      CongRefl(m, 0);
    } else {
      GeoCong(m, u, v, n - 1);
      PowCong(m, u, v, n - 1);
      CongAdd(m, Geo(u, n - 1), Geo(v, n - 1), Pow(u, n - 1), Pow(v, n - 1));
    }
  }

  lemma {:induction false} GeoOne(n: nat)
    ensures Geo(1, n) == n
  {
    if n > 0 { GeoOne(n - 1); PowOne(n - 1); }
  }

  function TwoTo(k: nat): (n: nat)
    ensures n >= 1 && (k > 0 ==> n >= 2)
  {
    if k == 0 then 1 else 2 * TwoTo(k - 1)
  }

  /** w has order 2^k: its 2^(k-1)-th power is -1. */
  ghost predicate Root(m: int, w: int, k: nat) {
    k >= 1 && Cong(m, Pow(w, TwoTo(k - 1)), -1)
  }

  lemma RootSquare(m: int, w: int, k: nat)
    requires Root(m, w, k) && k >= 2
    ensures Root(m, w * w, k - 1)
  {
    PowMul(w, 2, TwoTo(k - 2));
    assert Pow(w, 2) == Pow(w, 1) * w && Pow(w, 1) == Pow(w, 0) * w;
  }

  lemma RootOrder(m: int, w: int, k: nat)
    requires Root(m, w, k)
    ensures Cong(m, Pow(w, TwoTo(k)), 1)
  {
    SignPow(m, Pow(w, TwoTo(k - 1)), 1);
    PowMul(w, TwoTo(k - 1), 2);
  }

  /** The powers of any w^d other than 1 itself sum to 0. */
  lemma {:induction false} GeoRoot(m: int, w: int, k: nat, d: nat)
    requires Root(m, w, k) && 0 < d < TwoTo(k)
    ensures Cong(m, Geo(Pow(w, d), TwoTo(k)), 0)
    decreases k
  {
    hide Cong, Geo, Pow, Root;
    var h, u := TwoTo(k - 1), Pow(w, d);
    GeoDouble(u, h);
    if d % 2 == 1 {
      OddPower(m, w, k, d);
      CongRefl(m, Geo(u, h));
      CongMul(m, 1 + Pow(u, h), 0, Geo(u, h), Geo(u, h));
    } else {
      SquarePow(w, d / 2);
      RootSquare(m, w, k);
      GeoRoot(m, w * w, k - 1, d / 2);
      CongMulL(m, 1 + Pow(u, h), Geo(u, h), 0);
    }
  }

  lemma GeoDouble(u: int, h: nat)
    ensures Geo(u, 2 * h) == (1 + Pow(u, h)) * Geo(u, h)
  {
    hide Geo, Pow;
    GeoSplit(u, h, h);
    OnePlus(Pow(u, h), Geo(u, h));
  }

  lemma OnePlus(p: int, s: int)
    ensures (1 + p) * s == s + p * s
  {
  }

  lemma SquarePow(w: int, e: nat)
    ensures Pow(w, 2 * e) == Pow(w * w, e)
  {
    PowMul(w, 2, e);
    assert Pow(w, 2) == Pow(w, 1) * w && Pow(w, 1) == Pow(w, 0) * w;
  }

  lemma OddPower(m: int, w: int, k: nat, d: nat)
    requires Root(m, w, k) && d % 2 == 1
    ensures Cong(m, 1 + Pow(Pow(w, d), TwoTo(k - 1)), 0)
  {
    hide Cong, Pow;
    var h := TwoTo(k - 1);
    PowMul(w, d, h); PowMul(w, h, d);
    Commute(d, h);
    SignPow(m, Pow(w, h), d / 2);
    CongRefl(m, 1);
    CongAdd(m, 1, 1, Pow(Pow(w, d), h), -1);
  }

  lemma Commute(a: int, b: int)
    ensures a * b == b * a
  {
  }

  /** The values of c at w^0, w^1, ..., w^(n-1). */
  function Spectrum(c: seq<int>, w: int, n: nat): (s: seq<int>)
    ensures |s| == n
  {
    seq(n, (j: nat) => Eval(c, Pow(w, j)))
  }

  lemma {:induction false} SpectrumStep(c: seq<int>, x: int, w: int, n: nat, z: int)
    ensures Eval(Spectrum(c + [x], w, n), z) == Eval(Spectrum(c, w, n), z) + x * Geo(Pow(w, |c|) * z, n)
  {
    hide Pow;
    if n > 0 {
      var k, u := n - 1, Pow(w, |c|) * z;
      SpectrumStep(c, x, w, k, z);
      assert Spectrum(c + [x], w, n)[..k] == Spectrum(c + [x], w, k);
      assert Spectrum(c, w, n)[..k] == Spectrum(c, w, k);
      assert (c + [x])[..|c|] == c;
      PowMul(w, |c|, k); PowMul(w, k, |c|);
      Commute(k, |c|);
      PowProd(Pow(w, |c|), z, k);
      StepTerm(Eval(c, Pow(w, k)), x, Pow(Pow(w, k), |c|), Pow(z, k), Geo(u, k));
    }
  }

  lemma StepTerm(v: int, x: int, p: int, q: int, s: int)
    ensures (v + x * p) * q + x * s == v * q + x * (s + p * q)
  {
  }

  /** w^i * v^r for v the inverse of w, by cases. */
  lemma InversePowers(m: int, w: int, v: int, k: nat, i: nat, r: nat)
    requires Root(m, w, k) && Cong(m, w * v, 1) && i < TwoTo(k) && r < TwoTo(k)
    ensures Cong(m, Pow(w, i) * Pow(v, r), Pow(w, if i >= r then i - r else TwoTo(k) + i - r))
  {
    hide Cong, Root;
    var n := TwoTo(k);
    var e := if i >= r then i - r else n + i - r;
    PowProd(w, v, r);
    PowCong(m, w * v, 1, r);
    PowOne(r);
    CongMulL(m, Pow(w, e), Pow(w, r) * Pow(v, r), 1);
    PowAdd(w, e, r);
    Regroup(Pow(w, e), Pow(w, r), Pow(v, r));
    if i < r {
      RootOrder(m, w, k);
      PowAdd(w, n, i);
      CongRefl(m, Pow(w, i) * Pow(v, r));
      CongMul(m, Pow(w, n), 1, Pow(w, i) * Pow(v, r), Pow(w, i) * Pow(v, r));
      Regroup(Pow(w, n), Pow(w, i), Pow(v, r));
      CongSym(m, Pow(w, n) * (Pow(w, i) * Pow(v, r)), Pow(w, i) * Pow(v, r));
      CongTrans(m, Pow(w, i) * Pow(v, r), Pow(w, n) * (Pow(w, i) * Pow(v, r)), Pow(w, e));
    }
  }

  /** The geometric sums of the inverse transform: n on the diagonal, 0 elsewhere. */
  lemma InverseGeo(m: int, w: int, v: int, k: nat, i: nat, r: nat)
    requires Root(m, w, k) && Cong(m, w * v, 1) && i < TwoTo(k) && r < TwoTo(k)
    ensures Cong(m, Geo(Pow(w, i) * Pow(v, r), TwoTo(k)), if i == r then TwoTo(k) else 0)
  {
    hide Cong, Root;
    var n := TwoTo(k);
    var e := if i >= r then i - r else n + i - r;
    InversePowers(m, w, v, k, i, r);
    GeoCong(m, Pow(w, i) * Pow(v, r), Pow(w, e), n);
    if i == r {
      GeoOne(n);
    } else {
      GeoRoot(m, w, k, e);
      CongTrans(m, Geo(Pow(w, i) * Pow(v, r), n), Geo(Pow(w, e), n), 0);
    }
  }

  /** Evaluating the spectrum of the first i coefficients at v^r leaves n times the r-th of them. */
  lemma {:induction false} InversePrefix(m: int, w: int, v: int, k: nat, c: seq<int>, r: nat)
    requires Root(m, w, k) && Cong(m, w * v, 1) && |c| <= TwoTo(k) && r < TwoTo(k)
    ensures Cong(m, Eval(Spectrum(c, w, TwoTo(k)), Pow(v, r)), if r < |c| then TwoTo(k) * c[r] else 0)
  {
    hide Cong, Root;
    var n, z := TwoTo(k), Pow(v, r);
    if |c| == 0 {
      SpectrumNone(w, n, z);
      CongRefl(m, 0);
    } else {
      var i := |c| - 1;
      var d, x := c[..i], c[i];
      assert c == d + [x];
      InversePrefix(m, w, v, k, d, r);
      SpectrumStep(d, x, w, n, z);
      InverseGeo(m, w, v, k, i, r);
      CongMulL(m, x, Geo(Pow(w, i) * z, n), if i == r then n else 0);
      CongAdd(m, Eval(Spectrum(d, w, n), z), if r < i then n * d[r] else 0,
              x * Geo(Pow(w, i) * z, n), x * if i == r then n else 0);
      Commute(x, n);
    }
  }

  lemma {:induction false} SpectrumNone(w: int, n: nat, z: int)
    ensures Eval(Spectrum([], w, n), z) == 0
  {
    if n > 0 {
      SpectrumNone(w, n - 1, z);
      assert Spectrum([], w, n)[..n - 1] == Spectrum([], w, n - 1);
    }
  }

  /** The inverse transform: evaluating the spectrum of c at v^r gives n * c[r]. */
  lemma InverseTransform(m: int, w: int, v: int, k: nat, c: seq<int>, r: nat)
    requires Root(m, w, k) && Cong(m, w * v, 1) && |c| == TwoTo(k) && r < TwoTo(k)
    ensures Cong(m, Eval(Spectrum(c, w, TwoTo(k)), Pow(v, r)), TwoTo(k) * c[r])
  {
    InversePrefix(m, w, v, k, c, r);
  }

  // The convolution theorem

  /** The sum of a[j] * b[(r - j) mod n] over j < i. */
  function ConvSum(a: seq<int>, b: seq<int>, r: nat, i: nat): int
    requires i <= |a| && |b| > 0
  {
    if i == 0 then 0 else ConvSum(a, b, r, i - 1) + a[i - 1] * b[(r - (i - 1)) % |b|]
  }

  function Partial(a: seq<int>, b: seq<int>, i: nat): (c: seq<int>)
    requires i <= |a| && |b| > 0
    ensures |c| == |b|
  {
    seq(|b|, r requires 0 <= r < |b| => ConvSum(a, b, r, i))
  }

  /** The cyclic convolution of a and b. */
  function Cyclic(a: seq<int>, b: seq<int>): (c: seq<int>)
    requires |a| == |b| > 0
    ensures |c| == |b|
  {
    Partial(a, b, |a|)
  }

  lemma {:induction false} EvalLinear(x: seq<int>, y: seq<int>, s: int, t: seq<int>, z: int)
    requires |x| == |y| == |t| && forall i :: 0 <= i < |x| ==> x[i] == y[i] + s * t[i]
    ensures Eval(x, z) == Eval(y, z) + s * Eval(t, z)
  {
    if |x| > 0 {
      var k := |x| - 1;
      EvalLinear(x[..k], y[..k], s, t[..k], z);
      LinearTerm(Eval(t[..k], z), t[k], Pow(z, k), s, y[k]);
    }
  }

  lemma LinearTerm(v: int, t: int, p: int, s: int, y: int)
    ensures s * (v + t * p) + y * p == s * v + (y + s * t) * p
  {
    assert (y + s * t) * p == y * p + s * (t * p);
  }

  /** Rotating b by i multiplies its value at an n-th root of 1 by z^i. */
  lemma RotateEval(m: int, b: seq<int>, i: nat, z: int)
    requires i < |b| && Cong(m, Pow(z, |b|), 1)
    ensures Cong(m, Eval(b[|b| - i..] + b[..|b| - i], z), Pow(z, i) * Eval(b, z))
  {
    hide Cong, Eval, Pow;
    var n := |b|;
    var lo, hi := b[..n - i], b[n - i..];
    EvalSplit(hi + lo, i, z);
    assert (hi + lo)[..i] == hi && (hi + lo)[i..] == lo;
    EvalSplit(b, n - i, z);
    PowAdd(z, i, n - i);
    var p, x, y := Pow(z, i), Eval(lo, z), Eval(hi, z);
    RotateTerm(p, x, Pow(z, n - i), y);
    CongRefl(m, y);
    CongMul(m, Pow(z, n), 1, y, y);
    CongSym(m, Pow(z, n) * y, y);
    CongRefl(m, p * x);
    CongAdd(m, y, Pow(z, n) * y, p * x, p * x);
  }

  lemma RotateTerm(p: int, x: int, q: int, y: int)
    ensures p * (x + q * y) == (p * q) * y + p * x
  {
    assert p * (q * y) == (p * q) * y;
  }

  lemma Rotated(b: seq<int>, i: nat, r: nat)
    requires i < |b| && r < |b|
    ensures (b[|b| - i..] + b[..|b| - i])[r] == b[(r - i) % |b|]
  {
    EuclidMod(r - i, |b|, if r < i then r - i + |b| else r - i);
  }

  lemma EuclidMod(x: int, n: int, v: int)
    requires 0 <= v < n && (x == v || x == v - n)
    ensures x % n == v
  {
    var k := x / n;
    assert x == k * n + x % n;
    assert (k + 1) * n == k * n + n;
    SmallMultiple(n, if x == v then k else k + 1, v - x % n);
  }

  lemma {:induction false} PartialEval(m: int, a: seq<int>, b: seq<int>, i: nat, z: int)
    requires i <= |a| == |b| && |b| > 0 && Cong(m, Pow(z, |b|), 1)
    ensures Cong(m, Eval(Partial(a, b, i), z), Eval(a[..i], z) * Eval(b, z))
  {
    hide Cong, Pow;
    var n := |b|;
    if i == 0 {
      EvalLinear(Partial(a, b, 0), Partial(a, b, 0), 1, Partial(a, b, 0), z);
      CongRefl(m, 0);
    } else {
      var k := i - 1;
      var rot := b[n - k..] + b[..n - k];
      PartialEval(m, a, b, k, z);
      PartialStep(a, b, k, z);
      RotateEval(m, b, k, z);
      CongMulL(m, a[k], Eval(rot, z), Pow(z, k) * Eval(b, z));
      CongAdd(m, Eval(Partial(a, b, k), z), Eval(a[..k], z) * Eval(b, z), a[k] * Eval(rot, z),
              a[k] * (Pow(z, k) * Eval(b, z)));
      assert a[..i][..k] == a[..k];
      PartialTerm(Eval(a[..k], z), a[k], Pow(z, k), Eval(b, z));
    }
  }

  lemma PartialStep(a: seq<int>, b: seq<int>, k: nat, z: int)
    requires k < |a| == |b|
    ensures Eval(Partial(a, b, k + 1), z) == Eval(Partial(a, b, k), z) + a[k] * Eval(b[|b| - k..] + b[..|b| - k], z)
  {
    hide Eval;
    var rot := b[|b| - k..] + b[..|b| - k];
    forall r | 0 <= r < |b| ensures Partial(a, b, k + 1)[r] == Partial(a, b, k)[r] + a[k] * rot[r] {
      Rotated(b, k, r);
    }
    EvalLinear(Partial(a, b, k + 1), Partial(a, b, k), a[k], rot, z);
  }

  lemma PartialTerm(v: int, x: int, p: int, e: int)
    ensures v * e + x * (p * e) == (v + x * p) * e
  {
    assert (x * p) * e == x * (p * e);
  }

  /** At an n-th root of 1, the cyclic convolution has the product of the two values. */
  lemma CyclicEval(m: int, a: seq<int>, b: seq<int>, z: int)
    requires |a| == |b| > 0 && Cong(m, Pow(z, |b|), 1)
    ensures Cong(m, Eval(Cyclic(a, b), z), Eval(a, z) * Eval(b, z))
  {
    PartialEval(m, a, b, |a|, z);
    assert a[..|a|] == a;
  }

  /** Element q of x is the value of s at w^q. */
  ghost predicate Transform(m: int, s: seq<int>, x: seq<int>, w: int) {
    forall q :: 0 <= q < |x| ==> Cong(m, x[q], Eval(s, Pow(w, q)))
  }

  /** Transforming back the scaled pointwise product of two transforms gives the cyclic convolution. */
  lemma ConvolutionTheorem(m: int, w: int, v: int, k: nat, a: seq<int>, b: seq<int>, fa: seq<int>, fb: seq<int>,
                           p: seq<int>,
                           norm: int, out: seq<int>)
    requires Root(m, w, k) && Cong(m, w * v, 1) && Cong(m, norm * TwoTo(k), 1)
    requires |a| == |b| == |fa| == |fb| == |p| == |out| == TwoTo(k)
    requires Transform(m, a, fa, w) && Transform(m, b, fb, w) && Transform(m, p, out, v)
    requires forall j :: 0 <= j < |p| ==> Cong(m, p[j], norm * (fa[j] * fb[j]))
    ensures forall r :: 0 <= r < |out| ==> Cong(m, out[r], Cyclic(a, b)[r])
  {
    hide Cong, Root, Cyclic;
    var n, c := TwoTo(k), Cyclic(a, b);
    var s := Spectrum(c, w, n);
    var ns := seq(n, j requires 0 <= j < n => norm * s[j]);
    forall j | 0 <= j < n ensures Cong(m, p[j], ns[j]) {
      ProductPoint(m, w, k, a, b, norm, fa[j], fb[j], j);
      CongTrans(m, p[j], norm * (fa[j] * fb[j]), ns[j]);
    }
    forall r | 0 <= r < n ensures Cong(m, out[r], c[r]) {
      var z := Pow(v, r);
      EvalCong(m, p, ns, z);
      EvalScaled(ns, norm, s, z);
      InverseTransform(m, w, v, k, c, r);
      CongMulL(m, norm, Eval(s, z), n * c[r]);
      Unscale(m, norm, n, c[r]);
      CongTrans(m, Eval(ns, z), norm * (n * c[r]), c[r]);
      CongTrans(m, out[r], Eval(p, z), Eval(ns, z));
      CongTrans(m, out[r], Eval(ns, z), c[r]);
    }
  }

  lemma ProductPoint(m: int, w: int, k: nat, a: seq<int>, b: seq<int>, norm: int, x: int, y: int, j: nat)
    requires Root(m, w, k) && |a| == |b| == TwoTo(k) && j < TwoTo(k)
    requires Cong(m, x, Eval(a, Pow(w, j))) && Cong(m, y, Eval(b, Pow(w, j)))
    ensures Cong(m, norm * (x * y), norm * Spectrum(Cyclic(a, b), w, TwoTo(k))[j])
  {
    hide Cong, Root, Cyclic, Eval, Pow;
    var n, z := TwoTo(k), Pow(w, j);
    RootOrder(m, w, k);
    PowMul(w, j, n); PowMul(w, n, j);
    Commute(j, n);
    PowCong(m, Pow(w, n), 1, j);
    PowOne(j);
    CyclicEval(m, a, b, z);
    CongMul(m, x, Eval(a, z), y, Eval(b, z));
    CongSym(m, Eval(Cyclic(a, b), z), Eval(a, z) * Eval(b, z));
    CongTrans(m, x * y, Eval(a, z) * Eval(b, z), Eval(Cyclic(a, b), z));
    CongMulL(m, norm, x * y, Eval(Cyclic(a, b), z));
  }

  lemma EvalScaled(x: seq<int>, s: int, t: seq<int>, z: int)
    requires |x| == |t| && forall i :: 0 <= i < |x| ==> x[i] == s * t[i]
    ensures Eval(x, z) == s * Eval(t, z)
  {
    var zero := seq(|x|, _ => 0);
    EvalLinear(x, zero, s, t, z);
    EvalZero(zero, z);
  }

  lemma {:induction false} EvalZero(x: seq<int>, z: int)
    requires forall i :: 0 <= i < |x| ==> x[i] == 0
    ensures Eval(x, z) == 0
  {
    if |x| > 0 { EvalZero(x[..|x| - 1], z); }
  }

  lemma Unscale(m: int, norm: int, n: int, x: int)
    requires Cong(m, norm * n, 1)
    ensures Cong(m, norm * (n * x), x)
  {
    CongRefl(m, x);
    CongMul(m, norm * n, 1, x, x);
    Regroup(norm, n, x);
  }
}
