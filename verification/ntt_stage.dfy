/** One pass of the transform seen as a rearrangement of interleaved rows. */
module NttStage {
  import opened Limbs
  import opened NttMath

  function At(x: seq<limb>, i: int): int {
    if 0 <= i < |x| then x[i] else 0
  }

  /** Where element i of row j sits when f rows are interleaved. */
  function Idx(i: int, f: int, j: int): int {
    i * f + j
  }

  function Row(x: seq<limb>, f: nat, len: nat, j: nat): (r: seq<int>)
    ensures |r| == len
  {
    seq(len, (i: nat) => At(x, Idx(i, f, j)))
  }

  /** The two results of one butterfly. */
  ghost predicate Butterfly(m: int, x: seq<limb>, y: seq<limb>, f: nat, nb: nat, g: int, i: nat, j: nat) {
    && Cong(m, At(y, Idx(i, 2 * f, j)), At(x, Idx(i, f, j)) + At(x, Idx(i + nb, f, j)))
    && Cong(m, At(y, Idx(i, 2 * f, f + j)), (At(x, Idx(i, f, j)) - At(x, Idx(i + nb, f, j))) * Pow(g, i))
  }

  ghost predicate Stage(m: int, x: seq<limb>, y: seq<limb>, f: nat, nb: nat, g: int) {
    forall i: nat, j: nat :: i < nb && j < f ==> Butterfly(m, x, y, f, nb, g, i, j)
  }

  /** Row j of x, of length len, has at g^t the value of s at w^(t * f + j). */
  ghost predicate SpecAt(m: int, x: seq<limb>, f: nat, len: nat, g: int, s: seq<int>, w: int, j: nat, t: nat) {
    Cong(m, Eval(Row(x, f, len, j), Pow(g, t)), Eval(s, PowI(w, Idx(t, f, j))))
  }

  function PowI(w: int, e: int): int {
    if e < 0 then 1 else Pow(w, e)
  }

  ghost predicate Spectral(m: int, x: seq<limb>, f: nat, len: nat, g: int, s: seq<int>, w: int) {
    forall j: nat, t: nat :: j < f && t < len ==> SpecAt(m, x, f, len, g, s, w, j, t)
  }

  lemma EvenFolds(m: int, x: seq<limb>, y: seq<limb>, f: nat, nb: nat, g: int, j: nat)
    requires Stage(m, x, y, f, nb, g) && j < f
    ensures var r := Row(x, f, 2 * nb, j); Folds(m, r[..nb], r[nb..], Row(y, 2 * f, nb, j), 1, 1)
  {
    hide Cong, At, Idx;
    forall i: nat | i < nb
      ensures Cong(m, At(y, Idx(i, 2 * f, j)), (At(x, Idx(i, f, j)) + 1 * At(x, Idx(i + nb, f, j))) * Pow(1, i))
    {
      assert Butterfly(m, x, y, f, nb, g, i, j);
      PowOne(i);
    }
  }

  lemma OddFolds(m: int, x: seq<limb>, y: seq<limb>, f: nat, nb: nat, g: int, j: nat)
    requires Stage(m, x, y, f, nb, g) && j < f
    ensures var r := Row(x, f, 2 * nb, j); Folds(m, r[..nb], r[nb..], Row(y, 2 * f, nb, f + j), -1, g)
  {
    hide Cong, At, Idx;
    forall i: nat | i < nb
      ensures Cong(m, At(y, Idx(i, 2 * f, f + j)), (At(x, Idx(i, f, j)) + -1 * At(x, Idx(i + nb, f, j))) * Pow(g, i))
    {
      assert Butterfly(m, x, y, f, nb, g, i, j);
    }
  }

  lemma IdxEven(t: int, f: int, j: int)
    ensures Idx(2 * t, f, j) == Idx(t, 2 * f, j)
  {
  }

  lemma IdxOdd(t: int, f: int, j: int)
    ensures Idx(2 * t + 1, f, j) == Idx(t, 2 * f, f + j)
  {
  }

  lemma IdxZero(f: int, j: int)
    ensures Idx(0, f, j) == j && Idx(1, f, j) == f + j
  {
  }

  /** The point g^e raised to the row's half length. */
  lemma PointPower(m: int, g: int, nb: nat, t: nat)
    requires Cong(m, Pow(g, nb), -1)
    ensures Cong(m, Pow(Pow(g, 2 * t), nb), 1) && Cong(m, Pow(Pow(g, 2 * t + 1), nb), -1)
  {
    hide Cong, Pow;
    SignPow(m, Pow(g, nb), t);
    PowMul(g, 2 * t, nb); PowMul(g, nb, 2 * t);
    Commute(2 * t, nb);
    PowMul(g, 2 * t + 1, nb); PowMul(g, nb, 2 * t + 1);
    Commute(2 * t + 1, nb);
  }

  /** A row after the pass, at the t-th power of the new root, has the old row's value at an even power. */
  lemma EvenKeeps(m: int, x: seq<limb>, y: seq<limb>, f: nat, nb: nat, g: int, g': int, j: nat, t: nat)
    requires Stage(m, x, y, f, nb, g) && j < f && Cong(m, Pow(g, nb), -1) && Cong(m, g', g * g)
    ensures Cong(m, Eval(Row(y, 2 * f, nb, j), Pow(g', t)), Eval(Row(x, f, 2 * nb, j), Pow(g, 2 * t)))
  {
    hide Cong, Stage, Row, Folds, Eval, Pow;
    var z, r, q := Pow(g, 2 * t), Row(x, f, 2 * nb, j), Row(y, 2 * f, nb, j);
    EvenFolds(m, x, y, f, nb, g, j);
    PointPower(m, g, nb, t);
    assert z * 1 == z;
    FoldKeeps(m, r, q, 1, 1, z);
    NewPoint(m, g, g', t);
    EvalAt(m, q, Pow(g', t), z);
    CongTrans(m, Eval(q, Pow(g', t)), Eval(q, z), Eval(r, z));
  }

  lemma OddKeeps(m: int, x: seq<limb>, y: seq<limb>, f: nat, nb: nat, g: int, g': int, j: nat, t: nat)
    requires Stage(m, x, y, f, nb, g) && j < f && Cong(m, Pow(g, nb), -1) && Cong(m, g', g * g)
    ensures Cong(m, Eval(Row(y, 2 * f, nb, f + j), Pow(g', t)), Eval(Row(x, f, 2 * nb, j), Pow(g, 2 * t + 1)))
  {
    hide Cong, Stage, Row, Folds, Eval, Pow;
    var z, r, q := Pow(g, 2 * t), Row(x, f, 2 * nb, j), Row(y, 2 * f, nb, f + j);
    OddFolds(m, x, y, f, nb, g, j);
    PointPower(m, g, nb, t);
    PowNext(g, 2 * t);
    FoldKeeps(m, r, q, -1, g, z);
    NewPoint(m, g, g', t);
    EvalAt(m, q, Pow(g', t), z);
    CongTrans(m, Eval(q, Pow(g', t)), Eval(q, z), Eval(r, z * g));
  }

  lemma PowNext(g: int, e: nat)
    ensures Pow(g, e + 1) == Pow(g, e) * g
  {
  }

  lemma NewPoint(m: int, g: int, g': int, t: nat)
    requires Cong(m, g', g * g)
    ensures Cong(m, Pow(g', t), Pow(g, 2 * t))
  {
    PowCong(m, g', g * g, t);
    SquarePow(g, t);
  }

  /** One pass keeps the invariant: twice as many rows, of half the length, for the square of the root. */
  lemma StageKeeps(m: int, x: seq<limb>, y: seq<limb>, f: nat, nb: nat, g: int, g': int, s: seq<int>, w: int)
    requires Stage(m, x, y, f, nb, g) && Spectral(m, x, f, 2 * nb, g, s, w)
    requires Cong(m, Pow(g, nb), -1) && Cong(m, g', g * g)
    ensures Spectral(m, y, 2 * f, nb, g', s, w)
  {
    hide Cong, Stage, Row, Eval, Pow, PowI, Idx;
    forall j: nat, t: nat | j < 2 * f && t < nb ensures SpecAt(m, y, 2 * f, nb, g', s, w, j, t) {
      if j < f {
        EvenKeeps(m, x, y, f, nb, g, g', j, t);
        assert SpecAt(m, x, f, 2 * nb, g, s, w, j, 2 * t);
        IdxEven(t, f, j);
        CongTrans(m, Eval(Row(y, 2 * f, nb, j), Pow(g', t)), Eval(Row(x, f, 2 * nb, j), Pow(g, 2 * t)),
                  Eval(s, PowI(w, Idx(t, 2 * f, j))));
      } else {
        OddKeeps(m, x, y, f, nb, g, g', j - f, t);
        assert SpecAt(m, x, f, 2 * nb, g, s, w, j - f, 2 * t + 1);
        IdxOdd(t, f, j - f);
        CongTrans(m, Eval(Row(y, 2 * f, nb, j), Pow(g', t)), Eval(Row(x, f, 2 * nb, j - f), Pow(g, 2 * t + 1)),
                  Eval(s, PowI(w, Idx(t, 2 * f, j))));
      }
    }
  }

  /** Before the first pass there is one row, the input itself. */
  lemma SpectralStart(m: int, x: seq<limb>, s: seq<int>, w: int)
    requires |s| == |x| && forall i :: 0 <= i < |x| ==> s[i] == x[i]
    ensures Spectral(m, x, 1, |x|, w, s, w)
  {
    hide Cong, Eval, Pow;
    var n := |x|;
    forall i: nat | i < n ensures Idx(i, 1, 0) == i { }
    assert Row(x, 1, n, 0) == s;
    forall j: nat, t: nat | j < 1 && t < n ensures SpecAt(m, x, 1, n, w, s, w, j, t) {
      CongRefl(m, Eval(s, Pow(w, t)));
    }
  }

  /** The last pass evaluates rows of length two at 1 and -1. */
  lemma SpectralEnd(m: int, x: seq<limb>, y: seq<limb>, f: nat, g: int, s: seq<int>, w: int)
    requires Spectral(m, x, f, 2, g, s, w) && Cong(m, g, -1) && |x| == |y| == 2 * f
    requires forall k :: 0 <= k < f ==>
               Cong(m, y[k], At(x, k) + At(x, k + f)) && Cong(m, y[k + f], At(x, k) - At(x, k + f))
    ensures Transform(m, s, y, w)
  {
    hide Cong, Eval, Pow, Row, Idx;
    forall q | 0 <= q < |y| ensures Cong(m, y[q], Eval(s, Pow(w, q))) {
      var j := if q < f then q else q - f;
      IdxZero(f, j);
      TwoRow(m, x, f, j, g);
      if q < f {
        assert SpecAt(m, x, f, 2, g, s, w, j, 0);
        CongTrans(m, y[q], At(x, j) + At(x, j + f), Eval(s, Pow(w, q)));
      } else {
        assert SpecAt(m, x, f, 2, g, s, w, j, 1);
        CongTrans(m, y[q], At(x, j) - At(x, j + f), Eval(Row(x, f, 2, j), Pow(g, 1)));
        CongTrans(m, y[q], Eval(Row(x, f, 2, j), Pow(g, 1)), Eval(s, Pow(w, q)));
      }
    }
  }

  lemma TwoRow(m: int, x: seq<limb>, f: nat, j: nat, g: int)
    requires j < f && |x| == 2 * f && Cong(m, g, -1)
    ensures Eval(Row(x, f, 2, j), Pow(g, 0)) == At(x, j) + At(x, j + f)
    ensures Cong(m, At(x, j) - At(x, j + f), Eval(Row(x, f, 2, j), Pow(g, 1)))
  {
    hide Cong, Idx;
    IdxZero(f, j);
    var r := Row(x, f, 2, j);
    assert r == [At(x, j), At(x, j + f)];
    EvalTwo(At(x, j), At(x, j + f), 1);
    EvalTwo(At(x, j), At(x, j + f), g);
    assert Pow(g, 1) == Pow(g, 0) * g == g;
    CongMulL(m, At(x, j + f), g, -1);
    CongRefl(m, At(x, j));
    CongAdd(m, At(x, j), At(x, j), At(x, j + f) * g, At(x, j + f) * -1);
    CongSym(m, At(x, j) + At(x, j + f) * g, At(x, j) + At(x, j + f) * -1);
  }

  lemma EvalTwo(a: int, b: int, z: int)
    ensures Eval([a, b], z) == a + b * z
  {
    assert [a, b][..1] == [a] && [a][..0] == [];
    assert Pow(z, 0) == 1 && Pow(z, 1) == Pow(z, 0) * z;
    assert Eval([a], z) == Eval([a][..0], z) + a * Pow(z, 0);
    assert Eval([a, b], z) == Eval([a, b][..1], z) + b * Pow(z, 1);
  }
}
