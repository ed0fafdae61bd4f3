/** Running the code of a pattern yields exactly the ends of the pattern, in priority order. */
module ReCorrect {
  import opened ReSyntax
  import opened ReMachine
  import opened ReSteps

  // ---- ends stay inside the subject and advance -------------------------

  ghost predicate Within(l: seq<nat>, lo: nat, hi: nat) {
    forall k :: 0 <= k < |l| ==> lo <= l[k] <= hi
  }

  lemma {:induction false} FlatWithin(f: nat -> seq<nat>, l: seq<nat>, lo: nat, hi: nat)
    requires forall k :: 0 <= k < |l| ==> Within(f(l[k]), lo, hi)
    ensures Within(Flat(f, l), lo, hi)
  {
    if l != [] {
      assert forall k :: 0 <= k < |l[1..]| ==> l[1..][k] == l[k + 1];
      FlatWithin(f, l[1..], lo, hi);
    }
  }

  lemma {:induction false} EndsWithin(re: Re, s: seq<byte>, i: nat)
    requires i <= |s|
    ensures Within(Ends(re, s, i), i + MinLen(re), |s|)
    decreases re, 0, 0
  {
    match re
    case Empty =>
    case Chr(_) =>
    case Dot(_) =>
    case Cat(a, b) =>
      EndsWithin(a, s, i);
      var l := Ends(a, s, i);
      forall k | 0 <= k < |l| ensures Within(Ends(b, s, l[k]), i + MinLen(re), |s|) {
        EndsWithin(b, s, l[k]);
      }
      FlatWithin(j => Ends(b, s, j), l, i + MinLen(re), |s|);
    case Alt(a, b) =>
      EndsWithin(a, s, i); EndsWithin(b, s, i);
    case Group(a) => EndsWithin(a, s, i);
    case Quant(a, q) =>
      if q.max != 0 {
        RepeatWithin(a, s, i, q.min);
        var l := Repeat(a, s, i, q.min);
        var n := if q.max == INF then INF else if q.max < q.min then 0 else q.max - q.min;
        forall k | 0 <= k < |l| ensures Within(UpTo(a, s, l[k], n, q.greedy), i + MinLen(re), |s|) {
          UpToWithin(a, s, l[k], n, q.greedy);
        }
        FlatWithin(j => UpTo(a, s, j, n, q.greedy), l, i + MinLen(re), |s|);
      }
  }

  lemma {:induction false} RepeatWithin(a: Re, s: seq<byte>, i: nat, n: nat)
    requires i <= |s|
    ensures Within(Repeat(a, s, i, n), i + n * MinLen(a), |s|)
    decreases a, 1, n
  {
    if n > 0 {
      EndsWithin(a, s, i);
      var l, lo := Ends(a, s, i), i + n * MinLen(a);
      forall k | 0 <= k < |l| ensures Within(Repeat(a, s, l[k], n - 1), lo, |s|) {
        RepeatWithin(a, s, l[k], n - 1);
        assert l[k] + (n - 1) * MinLen(a) >= lo;
      }
      FlatWithin(j => Repeat(a, s, j, n - 1), l, lo, |s|);
    }
  }

  lemma {:induction false} UpToWithin(a: Re, s: seq<byte>, i: nat, n: nat, greedy: bool)
    requires i <= |s|
    ensures Within(UpTo(a, s, i, n, greedy), i, |s|)
    decreases a, 1, |s| - i
  {
    if n > 0 {
      var f := j => if i < j <= |s| then UpTo(a, s, j, if n == INF then INF else n - 1, greedy) else [];
      var l := Ends(a, s, i);
      forall k | 0 <= k < |l| ensures Within(f(l[k]), i, |s|) {
        if i < l[k] <= |s| { UpToWithin(a, s, l[k], if n == INF then INF else n - 1, greedy); }
      }
      FlatWithin(f, l, i, |s|);
    }
  }

  // ---- a body, given as an address range --------------------------------

  /** Between start and end lies code that gives the ends of a, from every position. */
  ghost predicate BodyAt(m: Machine, a: Re, start: nat, end: nat) {
    forall i: nat, fr :: i <= |m.subject| ==> Gives(m, start, i, fr, Ends(a, m.subject, i), end, fr)
  }

  function With(fr: Frame, x: int): Frame {
    fr.(stack := fr.stack + [x])
  }

  /** The continuation list of UpTo after one repetition. */
  function More(a: Re, s: seq<byte>, i: nat, n: nat, greedy: bool): nat -> seq<nat>
    requires n > 0
  {
    j => if i < j <= |s| then UpTo(a, s, j, if n == INF then INF else n - 1, greedy) else []
  }

  lemma UpToUnfold(a: Re, s: seq<byte>, i: nat, n: nat, greedy: bool)
    requires n > 0
    ensures var more := Flat(More(a, s, i, n, greedy), Ends(a, s, i));
            UpTo(a, s, i, n, greedy) == (if greedy then more + [i] else [i] + more)
  {
    FlatSame(More(a, s, i, n, greedy),
             j => if i < j <= |s| then UpTo(a, s, j, if n == INF then INF else n - 1, greedy) else [], Ends(a, s, i));
  }

  // ---- unbounded repetition ---------------------------------------------

  ghost predicate Small(m: Machine) {
    |m.code| < 0x8000_0000
  }

  lemma StarParts(m: Machine, p: nat, c: seq<byte>, greedy: bool, az: bool)
    requires At(m.code, p, StarCode(c, greedy, az))
    ensures var x := if az then 1 else 0;
            && At(m.code, p, Jump(Split(greedy), |c| + 5 + x))
            && (az ==> p + 5 < |m.code| && m.code[p + 5] == PUSH_CHAR_POS)
            && At(m.code, p + 5 + x, c)
            && At(m.code, p + 5 + x + |c|, Jump(if az then BNE_CHAR_POS else GOTO, -(|c| + 10 + x)))
            && |StarCode(c, greedy, az)| == |c| + 10 + x
  {
    var x := if az then 1 else 0;
    var j1, j2 := Jump(Split(greedy), |c| + 5 + x), Jump(if az then BNE_CHAR_POS else GOTO, -(|c| + 10 + x));
    var mid := if az then [PUSH_CHAR_POS] else [];
    AtSplit(m.code, p, j1 + mid + c, j2);
    AtSplit(m.code, p, j1 + mid, c);
    AtSplit(m.code, p, j1, mid);
    if az { assert m.code[p + 5..p + 6][0] == PUSH_CHAR_POS; }
  }

  lemma BackMoves(m: Machine, back: nat, p: nat, az: bool, i: nat, j: nat, fr: Frame)
    requires Small(m) && p <= back && i != j
    requires At(m.code, back, Jump(if az then BNE_CHAR_POS else GOTO, -(back - p + 5)))
    ensures Moves(m, back, j, if az then With(fr, i) else fr, p, j, fr)
  {
    hide Moves;
    if az { BneMoves(m, back, -(back - p + 5), i, j, fr); } else { GotoMoves(m, back, -(back - p + 5), j, fr); }
  }

  lemma {:induction false} StarGives(m: Machine, p: nat, a: Re, c: seq<byte>, greedy: bool, az: bool, i: nat, fr: Frame)
    requires Small(m) && MinLen(a) >= 1 && i <= |m.subject|
    requires At(m.code, p, StarCode(c, greedy, az))
    requires var x := if az then 1 else 0; BodyAt(m, a, p + 5 + x, p + 5 + x + |c|)
    ensures Gives(m, p, i, fr, UpTo(a, m.subject, i, INF, greedy), p + |StarCode(c, greedy, az)|, fr)
    decreases |m.subject| - i
  {
    hide Gives, Moves;
    var x := if az then 1 else 0;
    StarParts(m, p, c, greedy, az);
    var frBody := if az then With(fr, i) else fr;
    var bodyAt, back, end := p + 5 + x, p + 5 + x + |c|, p + |c| + 10 + x;
    var l, f := Ends(a, m.subject, i), More(a, m.subject, i, INF, greedy);
    EndsWithin(a, m.subject, i);
    forall k | 0 <= k < |l| ensures Gives(m, back, l[k], frBody, f(l[k]), end, fr) {
      StarGives(m, p, a, c, greedy, az, l[k], fr);
      BackMoves(m, back, p, az, i, l[k], fr);
      GivesMove(m, back, l[k], frBody, p, l[k], fr, f(l[k]), end, fr);
    }
    GivesBind(m, bodyAt, i, frBody, l, back, frBody, f, end, fr);
    if az {
      PushPosMoves(m, p + 5, i, fr);
      GivesMove(m, p + 5, i, fr, bodyAt, i, frBody, Flat(f, l), end, fr);
    }
    GivesOne(m, end, i, fr);
    SplitGives(m, p, greedy, |c| + 5 + x, i, fr, Flat(f, l), [i], end, fr);
    UpToUnfold(a, m.subject, i, INF, greedy);
  }

  /** The one-or-more form: a split behind the body that jumps back to it. */
  lemma {:induction false} BackGives(m: Machine, start: nat, q: nat, a: Re, greedy: bool, i: nat, fr: Frame)
    requires Small(m) && MinLen(a) >= 1 && i <= |m.subject| && start <= q
    requires At(m.code, q, Jump(Split(!greedy), -(q - start + 5))) && BodyAt(m, a, start, q)
    ensures Gives(m, q, i, fr, UpTo(a, m.subject, i, INF, greedy), q + 5, fr)
    decreases |m.subject| - i
  {
    hide Gives;
    var l, f := Ends(a, m.subject, i), More(a, m.subject, i, INF, greedy);
    EndsWithin(a, m.subject, i);
    forall k | 0 <= k < |l| ensures Gives(m, q, l[k], fr, f(l[k]), q + 5, fr) {
      BackGives(m, start, q, a, greedy, l[k], fr);
    }
    GivesBind(m, start, i, fr, l, q, fr, f, q + 5, fr);
    GivesOne(m, q + 5, i, fr);
    SplitGives(m, q, !greedy, -(q - start + 5), i, fr, [i], Flat(f, l), q + 5, fr);
    UpToUnfold(a, m.subject, i, INF, greedy);
  }

  // ---- counted repetition -----------------------------------------------

  lemma CountedParts(m: Machine, p: nat, c: seq<byte>, greedy: bool, n: int)
    requires At(m.code, p, CountedCode(c, greedy, n))
    ensures At(m.code, p, Jump(PUSH_I32, n)) && At(m.code, p + 5, Jump(Split(greedy), |c| + 5))
    ensures At(m.code, p + 10, c) && At(m.code, p + 10 + |c|, Jump(LOOP, -(|c| + 10)))
    ensures p + 15 + |c| < |m.code| && m.code[p + 15 + |c|] == DROP && |CountedCode(c, greedy, n)| == |c| + 16
  {
    var j1, j2, j3 := Jump(PUSH_I32, n), Jump(Split(greedy), |c| + 5), Jump(LOOP, -(|c| + 10));
    AtSplit(m.code, p, j1 + j2 + c + j3, [DROP]);
    AtSplit(m.code, p, j1 + j2 + c, j3);
    AtSplit(m.code, p, j1 + j2, c);
    AtSplit(m.code, p, j1, j2);
    assert m.code[p + 15 + |c|..p + 16 + |c|][0] == DROP;
  }

  lemma {:induction false} CountedGives(m: Machine, p: nat, a: Re, c: seq<byte>, greedy: bool, n: nat, k: nat, i: nat,
                                        fr: Frame)
    requires Small(m) && MinLen(a) >= 1 && i <= |m.subject| && 1 <= k < INF
    requires At(m.code, p, CountedCode(c, greedy, n)) && BodyAt(m, a, p + 10, p + 10 + |c|)
    ensures Gives(m, p + 5, i, With(fr, k), UpTo(a, m.subject, i, k, greedy), p + |c| + 16, fr)
    decreases k, 1
  {
    hide Gives, Moves;
    CountedParts(m, p, c, greedy, n);
    var loopAt, drop, end := p + 10 + |c|, p + 15 + |c|, p + 16 + |c|;
    var l, f := Ends(a, m.subject, i), More(a, m.subject, i, k, greedy);
    EndsWithin(a, m.subject, i);
    forall t | 0 <= t < |l| ensures Gives(m, loopAt, l[t], With(fr, k), f(l[t]), end, fr) {
      CountedNext(m, p, a, c, greedy, n, k, i, l[t], fr);
    }
    GivesBind(m, p + 10, i, With(fr, k), l, loopAt, With(fr, k), f, end, fr);
    DropGives(m, drop, i, fr, k);
    SplitGives(m, p + 5, greedy, |c| + 5, i, With(fr, k), Flat(f, l), [i], end, fr);
    UpToUnfold(a, m.subject, i, k, greedy);
  }

  /** After a counted repetition from i to j: round again, or on when the count is used up. */
  lemma {:induction false} CountedNext(m: Machine, p: nat, a: Re, c: seq<byte>, greedy: bool, n: nat, k: nat, i: nat,
                                       j: nat, fr: Frame)
    requires Small(m) && MinLen(a) >= 1 && i < j <= |m.subject| && 1 <= k < INF
    requires At(m.code, p, CountedCode(c, greedy, n)) && BodyAt(m, a, p + 10, p + 10 + |c|)
    ensures Gives(m, p + 10 + |c|, j, With(fr, k), More(a, m.subject, i, k, greedy)(j), p + 16 + |c|, fr)
    decreases k, 0
  {
    hide Gives, Moves;
    CountedParts(m, p, c, greedy, n);
    var loopAt, drop, end := p + 10 + |c|, p + 15 + |c|, p + 16 + |c|;
    LoopMoves(m, loopAt, -(|c| + 10), j, fr, k);
    var l := UpTo(a, m.subject, j, k - 1, greedy);
    if k > 1 {
      CountedGives(m, p, a, c, greedy, n, k - 1, j, fr);
      GivesMove(m, loopAt, j, With(fr, k), p + 5, j, With(fr, k - 1), l, end, fr);
    } else {
      DropGives(m, drop, j, fr, 0);
      GivesMove(m, loopAt, j, With(fr, k), drop, j, With(fr, 0), l, end, fr);
    }
  }

  lemma DropGives(m: Machine, drop: nat, i: nat, fr: Frame, x: int)
    requires drop < |m.code| && m.code[drop] == DROP
    ensures Gives(m, drop, i, With(fr, x), [i], drop + 1, fr)
  {
    DropMoves(m, drop, i, fr, x);
    GivesOne(m, drop + 1, i, fr);
    GivesMove(m, drop, i, With(fr, x), drop + 1, i, fr, [i], drop + 1, fr);
  }

  lemma RepeatParts(m: Machine, p: nat, c: seq<byte>, n: int)
    requires At(m.code, p, RepeatCode(c, n))
    ensures At(m.code, p, Jump(PUSH_I32, n)) && At(m.code, p + 5, c) && At(m.code, p + 5 + |c|, Jump(LOOP, -(|c| + 5)))
    ensures p + 10 + |c| < |m.code| && m.code[p + 10 + |c|] == DROP && |RepeatCode(c, n)| == |c| + 11
  {
    var j1, j3 := Jump(PUSH_I32, n), Jump(LOOP, -(|c| + 5));
    AtSplit(m.code, p, j1 + c + j3, [DROP]);
    AtSplit(m.code, p, j1 + c, j3);
    AtSplit(m.code, p, j1, c);
    assert m.code[p + 10 + |c|..p + 11 + |c|][0] == DROP;
  }

  lemma {:induction false} RepeatGives(m: Machine, p: nat, a: Re, c: seq<byte>, n: nat, k: nat, i: nat, fr: Frame)
    requires Small(m) && i <= |m.subject| && 1 <= k
    requires At(m.code, p, RepeatCode(c, n)) && BodyAt(m, a, p + 5, p + 5 + |c|)
    ensures Gives(m, p + 5, i, With(fr, k), Repeat(a, m.subject, i, k), p + |c| + 11, fr)
    decreases k
  {
    hide Gives, Moves;
    RepeatParts(m, p, c, n);
    var loopAt, drop, end := p + 5 + |c|, p + 10 + |c|, p + 11 + |c|;
    var l, f := Ends(a, m.subject, i), j => Repeat(a, m.subject, j, k - 1);
    EndsWithin(a, m.subject, i);
    forall t | 0 <= t < |l| ensures Gives(m, loopAt, l[t], With(fr, k), f(l[t]), end, fr) {
      LoopMoves(m, loopAt, -(|c| + 5), l[t], fr, k);
      if k > 1 {
        RepeatGives(m, p, a, c, n, k - 1, l[t], fr);
        GivesMove(m, loopAt, l[t], With(fr, k), p + 5, l[t], With(fr, k - 1), f(l[t]), end, fr);
      } else {
        DropGives(m, drop, l[t], fr, 0);
        GivesMove(m, loopAt, l[t], With(fr, k), drop, l[t], With(fr, 0), f(l[t]), end, fr);
      }
    }
    GivesBind(m, p + 5, i, With(fr, k), l, loopAt, With(fr, k), f, end, fr);
  }
}
