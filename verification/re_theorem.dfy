/** The compiled pattern on the machine: first match, in priority order, from the first position that has one. */
module ReTheorem {
  import opened ReSyntax
  import opened ReMachine
  import opened ReSteps
  import opened ReCorrect
  import opened ReGreedy

  // ---- quantified atoms -------------------------------------------------

  /** A split over the body, taken at most once. */
  lemma OptionalGives(m: Machine, p: nat, a: Re, c: seq<byte>, greedy: bool, i: nat, fr: Frame)
    requires Small(m) && MinLen(a) >= 1 && i <= |m.subject|
    requires At(m.code, p, Jump(Split(greedy), |c|) + c) && BodyAt(m, a, p + 5, p + 5 + |c|)
    ensures Gives(m, p, i, fr, UpTo(a, m.subject, i, 1, greedy), p + 5 + |c|, fr)
  {
    hide Gives;
    AtSplit(m.code, p, Jump(Split(greedy), |c|), c);
    var l := Ends(a, m.subject, i);
    EndsWithin(a, m.subject, i);
    forall k | 0 <= k < |l| ensures More(a, m.subject, i, 1, greedy)(l[k]) == [l[k]] {
      assert UpTo(a, m.subject, l[k], 0, greedy) == [l[k]];
    }
    FlatUnit(More(a, m.subject, i, 1, greedy), l);
    GivesOne(m, p + 5 + |c|, i, fr);
    SplitGives(m, p, greedy, |c|, i, fr, l, [i], p + 5 + |c|, fr);
    UpToUnfold(a, m.subject, i, 1, greedy);
  }

  /** The required repetitions. */
  function PrefixCode(c: seq<byte>, min: nat): seq<byte> {
    if min == 1 then c else RepeatCode(c, min)
  }

  lemma PrefixGives(m: Machine, p: nat, a: Re, c: seq<byte>, min: nat, i: nat, fr: Frame)
    requires Small(m) && i <= |m.subject| && 1 <= min <= INF
    requires At(m.code, p, PrefixCode(c, min))
    requires var start := if min == 1 then p else p + 5; BodyAt(m, a, start, start + |c|)
    ensures Gives(m, p, i, fr, Repeat(a, m.subject, i, min), p + |PrefixCode(c, min)|, fr)
  {
    hide Gives, Ends;
    if min == 1 {
      FlatUnit(j => Repeat(a, m.subject, j, 0), Ends(a, m.subject, i));
    } else {
      RepeatParts(m, p, c, min);
      RepeatGives(m, p, a, c, min, min, i, fr);
      PushMoves(m, p, min, i, fr);
      GivesMove(m, p, i, fr, p + 5, i, With(fr, min), Repeat(a, m.subject, i, min), p + |c| + 11, fr);
    }
  }

  /** The optional repetitions after the required ones; n is INF or how many. */
  function TailCode(c: seq<byte>, greedy: bool, az: bool, n: nat): seq<byte> {
    if n == INF then StarCode(c, greedy, az) else if n > 0 then CountedCode(c, greedy, n) else []
  }

  function TailStart(n: nat, az: bool): nat {
    if n == INF then (if az then 6 else 5) else 10
  }

  lemma TailGives(m: Machine, p: nat, a: Re, c: seq<byte>, greedy: bool, az: bool, n: nat, i: nat, fr: Frame)
    requires Small(m) && MinLen(a) >= 1 && i <= |m.subject| && n <= INF
    requires At(m.code, p, TailCode(c, greedy, az, n))
    requires n > 0 ==> BodyAt(m, a, p + TailStart(n, az), p + TailStart(n, az) + |c|)
    ensures Gives(m, p, i, fr, UpTo(a, m.subject, i, n, greedy), p + |TailCode(c, greedy, az, n)|, fr)
  {
    hide Gives, UpTo, StarCode, At;
    if n == INF {
      StarGives(m, p, a, c, greedy, az, i, fr);
    } else if n > 0 {
      CountedParts(m, p, c, greedy, n);
      CountedGives(m, p, a, c, greedy, n, n, i, fr);
      PushMoves(m, p, n, i, fr);
      GivesMove(m, p, i, fr, p + 5, i, With(fr, n), UpTo(a, m.subject, i, n, greedy), p + |c| + 16, fr);
    } else {
      UpToZero(a, m.subject, i, greedy);
      GivesOne(m, p, i, fr);
    }
  }

  lemma UpToZero(a: Re, s: seq<byte>, i: nat, greedy: bool)
    ensures UpTo(a, s, i, 0, greedy) == [i]
  {
  }

  /** Required repetitions followed by optional ones. */
  lemma BothGives(m: Machine, p: nat, mid: nat, end: nat, a: Re, q: Quantifier, n: nat, i: nat, fr: Frame)
    requires q.max > 0 && n == (if q.max == INF then INF else if q.max < q.min then 0 else q.max - q.min)
    requires i <= |m.subject|
    requires Gives(m, p, i, fr, Repeat(a, m.subject, i, q.min), mid, fr)
    requires forall j: nat :: j <= |m.subject| ==> Gives(m, mid, j, fr, UpTo(a, m.subject, j, n, q.greedy), end, fr)
    ensures Gives(m, p, i, fr, Ends(Quant(a, q), m.subject, i), end, fr)
  {
    hide Gives;
    var l, f := Repeat(a, m.subject, i, q.min), Rest(a, m.subject, n, q.greedy);
    RepeatWithin(a, m.subject, i, q.min);
    assert forall k :: 0 <= k < |l| ==> l[k] <= |m.subject|;
    GivesBind(m, p, i, fr, l, mid, fr, f, end, fr);
    EndsQuant(a, q, n, m.subject, i);
  }

  lemma NoneRequired(a: Re, q: Quantifier, n: nat, s: seq<byte>, i: nat)
    requires q.min == 0 && q.max > 0 && n == (if q.max == INF then INF else q.max)
    ensures Ends(Quant(a, q), s, i) == UpTo(a, s, i, n, q.greedy)
  {
    EndsQuant(a, q, n, s, i);
    FlatSingle(Rest(a, s, n, q.greedy), i);
  }

  lemma SimpleIsSmall(buf: seq<byte>)
    ensures SimpleScan(buf) <= |buf|
    decreases |buf|
  {
  }

  /** The optimised form applies: its atom has fixed width and its nested code runs like it. */
  lemma GreedyFits(m: Machine, p: nat, a: Re, q: Quantifier)
    requires Small(m) && Advancing(a) && SimpleScan(Code(a)) > 0
    requires At(m.code, p, GreedyCode(Code(a), q.min, q.max, SimpleScan(Code(a)))) && q.min <= q.max <= INF
    ensures var k := SimpleScan(Code(a)); k <= INF && FixedWidth(a, m.subject, k) && RunsLike(m, p + 17, a, k)
  {
    hide SimpleScan, FixedWidth, GreedyCode, Code, Ends, SimpleRun, At;
    var c, k := Code(a), SimpleScan(Code(a));
    SimpleIsSmall(c);
    AtLength(m.code, p, GreedyCode(c, q.min, q.max, k));
    GreedyLength(c, q.min, q.max, k);
    GreedyParts(m, p, c, q.min, q.max, k);
    assert c + [] == c;
    ScanCode(a, []);
    ScanNothing();
    SimpleIsFixedWidth(a, m.subject);
    forall i: nat | i <= |m.subject|
      ensures SimpleRun(m, p + 17, i) == if Ends(a, m.subject, i) == [] then -1 else i + k
    {
      SimpleRunCode(m, p + 17, a, i);
      AtMatch(m, p + 17 + |c|, i + k);
    }
  }

  lemma AtLength(code: seq<byte>, p: nat, frag: seq<byte>)
    requires At(code, p, frag)
    ensures |frag| <= |code|
  {
  }

  lemma AtMatch(m: Machine, pc: nat, i: nat)
    requires pc < |m.code| && m.code[pc] == MATCH
    ensures SimpleRun(m, pc, i) == i
  {
  }

  lemma GreedyLength(c: seq<byte>, min: nat, max: nat, k: nat)
    ensures |GreedyCode(c, min, max, k)| == |c| + 18
  {
  }

  lemma ScanNothing()
    ensures SimpleScan([]) == 0
  {
  }

  /** The code of a quantified atom, form by form. */
  lemma QuantGives(m: Machine, p: nat, a: Re, q: Quantifier, i: nat, fr: Frame)
    requires Small(m) && At(m.code, p, Code(Quant(a, q))) && Advancing(Quant(a, q)) && i <= |m.subject|
    requires forall start: nat :: At(m.code, start, Code(a)) ==> BodyAt(m, a, start, start + |Code(a)|)
    ensures Gives(m, p, i, fr, Ends(Quant(a, q), m.subject, i), p + |Code(Quant(a, q))|, fr)
  {
    hide Gives, BodyAt, SimpleScan, Ends, Code, At;
    if q.greedy && q.max > 0 && SimpleScan(Code(a)) > 0 {
      QuantBounds(a, q);
      CodeGreedy(a, q);
      GreedyFits(m, p, a, q);
      GreedyGives(m, p, a, Code(a), q, SimpleScan(Code(a)), i, fr);
    } else if q.min == 0 {
      QuantFromZero(m, p, a, q, i, fr);
    } else {
      QuantFromOne(m, p, a, q, i, fr);
    }
  }

  lemma QuantBounds(a: Re, q: Quantifier)
    requires Advancing(Quant(a, q))
    ensures q.min <= q.max <= INF && Advancing(a)
  {
  }

  lemma CodeGreedy(a: Re, q: Quantifier)
    requires q.greedy && q.max > 0 && SimpleScan(Code(a)) > 0
    ensures Code(Quant(a, q)) == GreedyCode(Code(a), q.min, q.max, SimpleScan(Code(a)))
    ensures |Code(Quant(a, q))| == |Code(a)| + 18
  {
    hide SimpleScan, GreedyCode;
    CodeQuant(a, q);
    GreedyLength(Code(a), q.min, q.max, SimpleScan(Code(a)));
  }

  lemma QuantFromZero(m: Machine, p: nat, a: Re, q: Quantifier, i: nat, fr: Frame)
    requires Small(m) && At(m.code, p, Code(Quant(a, q))) && Advancing(Quant(a, q)) && i <= |m.subject|
    requires forall start: nat :: At(m.code, start, Code(a)) ==> BodyAt(m, a, start, start + |Code(a)|)
    requires q.min == 0 && !(q.greedy && q.max > 0 && SimpleScan(Code(a)) > 0)
    ensures Gives(m, p, i, fr, Ends(Quant(a, q), m.subject, i), p + |Code(Quant(a, q))|, fr)
  {
    hide Gives, BodyAt, SimpleScan, Code, Repeat, UpTo;
    var c := Code(a);
    var az := ZeroAdvanceCheck(c, q);
    CodeQuant(a, q);
    if q.max == 0 {
      GivesOne(m, p, i, fr);
    } else {
      NoneRequired(a, q, q.max, m.subject, i);
      if q.max == 1 {
        AtSplit(m.code, p, Jump(Split(q.greedy), |c|), c);
        OptionalGives(m, p, a, c, q.greedy, i, fr);
      } else {
        TailParts(m, p, c, q.greedy, az, q.max);
        TailGives(m, p, a, c, q.greedy, az, q.max, i, fr);
      }
    }
  }

  lemma TailParts(m: Machine, p: nat, c: seq<byte>, greedy: bool, az: bool, n: nat)
    requires At(m.code, p, TailCode(c, greedy, az, n)) && n > 0
    ensures At(m.code, p + TailStart(n, az), c)
  {
    if n == INF { StarParts(m, p, c, greedy, az); } else { CountedParts(m, p, c, greedy, n); }
  }

  lemma QuantFromOne(m: Machine, p: nat, a: Re, q: Quantifier, i: nat, fr: Frame)
    requires Small(m) && At(m.code, p, Code(Quant(a, q))) && Advancing(Quant(a, q)) && i <= |m.subject|
    requires forall start: nat :: At(m.code, start, Code(a)) ==> BodyAt(m, a, start, start + |Code(a)|)
    requires q.min >= 1 && !(q.greedy && SimpleScan(Code(a)) > 0)
    ensures Gives(m, p, i, fr, Ends(Quant(a, q), m.subject, i), p + |Code(Quant(a, q))|, fr)
  {
    hide Gives, BodyAt, SimpleScan, Code, Repeat, UpTo, Ends;
    var c := Code(a);
    var az := ZeroAdvanceCheck(c, q);
    CodeQuant(a, q);
    if q.min == 1 && q.max == INF && !az {
      BackFromOne(m, p, a, q, i, fr);
    } else {
      TwoParts(m, p, a, q, az, i, fr);
    }
  }

  lemma TwoParts(m: Machine, p: nat, a: Re, q: Quantifier, az: bool, i: nat, fr: Frame)
    requires Small(m) && MinLen(a) >= 1 && 1 <= q.min <= q.max <= INF && i <= |m.subject|
    requires forall start: nat :: At(m.code, start, Code(a)) ==> BodyAt(m, a, start, start + |Code(a)|)
    requires At(m.code, p, PrefixCode(Code(a), q.min)
                           + TailCode(Code(a), q.greedy, az, if q.max == INF then INF else q.max - q.min))
    ensures Gives(m, p, i, fr, Ends(Quant(a, q), m.subject, i),
                  p + |PrefixCode(Code(a), q.min)|
                  + |TailCode(Code(a), q.greedy, az, if q.max == INF then INF else q.max - q.min)|, fr)
  {
    hide Gives, BodyAt, Code, Repeat, UpTo, Ends, TailCode, PrefixCode;
    var c := Code(a);
    var n := if q.max == INF then INF else q.max - q.min;
    var mid := p + |PrefixCode(c, q.min)|;
    AtSplit(m.code, p, PrefixCode(c, q.min), TailCode(c, q.greedy, az, n));
    PrefixStart(m, p, c, q.min);
    PrefixGives(m, p, a, c, q.min, i, fr);
    TailFrom(m, mid, a, q.greedy, az, n, fr);
    BothGives(m, p, mid, mid + |TailCode(c, q.greedy, az, n)|, a, q, n, i, fr);
  }

  lemma PrefixStart(m: Machine, p: nat, c: seq<byte>, min: nat)
    requires At(m.code, p, PrefixCode(c, min)) && min >= 1
    ensures At(m.code, if min == 1 then p else p + 5, c)
  {
    if min > 1 { RepeatParts(m, p, c, min); }
  }

  lemma TailFrom(m: Machine, mid: nat, a: Re, greedy: bool, az: bool, n: nat, fr: Frame)
    requires Small(m) && MinLen(a) >= 1 && n <= INF && At(m.code, mid, TailCode(Code(a), greedy, az, n))
    requires forall start: nat :: At(m.code, start, Code(a)) ==> BodyAt(m, a, start, start + |Code(a)|)
    ensures forall j: nat :: j <= |m.subject| ==>
              Gives(m, mid, j, fr, UpTo(a, m.subject, j, n, greedy), mid + |TailCode(Code(a), greedy, az, n)|, fr)
  {
    hide Gives, BodyAt, Code, UpTo, TailCode;
    var end := mid + |TailCode(Code(a), greedy, az, n)|;
    if n > 0 { TailParts(m, mid, Code(a), greedy, az, n); }
    forall j: nat | j <= |m.subject| ensures Gives(m, mid, j, fr, UpTo(a, m.subject, j, n, greedy), end, fr) {
      TailGives(m, mid, a, Code(a), greedy, az, n, j, fr);
    }
  }

  lemma BackFromOne(m: Machine, p: nat, a: Re, q: Quantifier, i: nat, fr: Frame)
    requires Small(m) && Advancing(Quant(a, q)) && i <= |m.subject| && q.min == 1 && q.max == INF
    requires At(m.code, p, Code(a) + Jump(Split(!q.greedy), -(|Code(a)| + 5)))
    requires forall start: nat :: At(m.code, start, Code(a)) ==> BodyAt(m, a, start, start + |Code(a)|)
    ensures Gives(m, p, i, fr, Ends(Quant(a, q), m.subject, i), p + |Code(a)| + 5, fr)
  {
    hide Gives, SimpleScan, Code, UpTo;
    var c := Code(a);
    var mid := p + |c|;
    AtSplit(m.code, p, c, Jump(Split(!q.greedy), -(|c| + 5)));
    PrefixGives(m, p, a, c, 1, i, fr);
    forall j: nat | j <= |m.subject|
      ensures Gives(m, mid, j, fr, UpTo(a, m.subject, j, INF, q.greedy), mid + 5, fr)
    {
      BackGives(m, p, mid, a, q.greedy, j, fr);
    }
    BothGives(m, p, mid, mid + 5, a, q, INF, i, fr);
  }

  // ---- every pattern ----------------------------------------------------

  lemma ChrGives(m: Machine, p: nat, c: byte, i: nat, fr: Frame)
    requires At(m.code, p, Code(Chr(c)))
    ensures Gives(m, p, i, fr, Ends(Chr(c), m.subject, i), p + 3, fr)
  {
    hide Gives;
    OpAt(m.code, p, CHAR, U16(c));
    U16Read(m.code, p + 1, c);
    CharGives(m, p, i, fr, 3);
  }

  lemma DotGives(m: Machine, p: nat, any: bool, i: nat, fr: Frame)
    requires At(m.code, p, Code(Dot(any)))
    ensures Gives(m, p, i, fr, Ends(Dot(any), m.subject, i), p + 1, fr)
  {
    hide Gives;
    assert Code(Dot(any)) == [if any then ANY else DOT] + [];
    OpAt(m.code, p, if any then ANY else DOT, []);
    CharGives(m, p, i, fr, 1);
  }

  lemma CodeAlt(a: Re, b: Re)
    ensures Code(Alt(a, b)) == Jump(SPLIT_NEXT_FIRST, |Code(a)| + 5) + Code(a) + Jump(GOTO, |Code(b)|) + Code(b)
  {
  }

  lemma AltParts(m: Machine, p: nat, a: Re, b: Re)
    requires At(m.code, p, Code(Alt(a, b)))
    ensures At(m.code, p, Jump(SPLIT_NEXT_FIRST, |Code(a)| + 5)) && At(m.code, p + 5, Code(a))
    ensures At(m.code, p + 5 + |Code(a)|, Jump(GOTO, |Code(b)|)) && At(m.code, p + 10 + |Code(a)|, Code(b))
    ensures |Code(Alt(a, b))| == 10 + |Code(a)| + |Code(b)|
  {
    hide Code, Jump;
    CodeAlt(a, b);
    var j1, j2 := Jump(SPLIT_NEXT_FIRST, |Code(a)| + 5), Jump(GOTO, |Code(b)|);
    AtSplit(m.code, p, j1 + Code(a) + j2, Code(b));
    AtSplit(m.code, p, j1 + Code(a), j2);
    AtSplit(m.code, p, j1, Code(a));
  }

  /** The first alternative jumps over the second. */
  lemma AltGives(m: Machine, p: nat, a: Re, b: Re, i: nat, fr: Frame)
    requires Small(m) && At(m.code, p, Code(Alt(a, b))) && i <= |m.subject|
    requires Gives(m, p + 5, i, fr, Ends(a, m.subject, i), p + 5 + |Code(a)|, fr)
    requires Gives(m, p + 10 + |Code(a)|, i, fr, Ends(b, m.subject, i), p + 10 + |Code(a)| + |Code(b)|, fr)
    ensures Gives(m, p, i, fr, Ends(Alt(a, b), m.subject, i), p + |Code(Alt(a, b))|, fr)
  {
    hide Gives, Code;
    AltParts(m, p, a, b);
    var la, over, end := Ends(a, m.subject, i), p + 5 + |Code(a)|, p + 10 + |Code(a)| + |Code(b)|;
    var f := (j: nat) => [j];
    forall k | 0 <= k < |la| ensures Gives(m, over, la[k], fr, f(la[k]), end, fr) {
      GotoMoves(m, over, |Code(b)|, la[k], fr);
      GivesOne(m, end, la[k], fr);
      GivesMove(m, over, la[k], fr, end, la[k], fr, [la[k]], end, fr);
    }
    GivesBind(m, p + 5, i, fr, la, over, fr, f, end, fr);
    FlatUnit(f, la);
    SplitGives(m, p, true, |Code(a)| + 5, i, fr, la, Ends(b, m.subject, i), end, fr);
  }

  /** Running the code of a pattern gives its ends, in priority order. */
  lemma {:induction false} CodeGives(m: Machine, p: nat, re: Re, i: nat, fr: Frame)
    requires Small(m) && At(m.code, p, Code(re)) && Advancing(re) && i <= |m.subject|
    ensures Gives(m, p, i, fr, Ends(re, m.subject, i), p + |Code(re)|, fr)
    decreases re, 1
  {
    hide Gives, At, Code, Ends;
    match re
    case Cat(a, b) => CatGives(m, p, a, b, i, fr);
    case Alt(a, b) => EitherGives(m, p, a, b, i, fr);
    case Group(a) => GroupSame(a, m.subject, i); CodeGives(m, p, a, i, fr);
    case Quant(a, q) => QuantifiedGives(m, p, a, q, i, fr);
    case _ => LeafGives(m, p, re, i, fr);
  }

  lemma GroupSame(a: Re, s: seq<byte>, i: nat)
    requires i <= |s|
    ensures Code(Group(a)) == Code(a) && Ends(Group(a), s, i) == Ends(a, s, i)
    ensures Advancing(Group(a)) == Advancing(a)
  {
  }

  lemma LeafGives(m: Machine, p: nat, re: Re, i: nat, fr: Frame)
    requires Small(m) && At(m.code, p, Code(re)) && (re.Empty? || re.Chr? || re.Dot?) && i <= |m.subject|
    ensures Gives(m, p, i, fr, Ends(re, m.subject, i), p + |Code(re)|, fr)
  {
    hide Gives, At;
    match re
    case Empty => GivesOne(m, p, i, fr);
    case Chr(c) => ChrGives(m, p, c, i, fr);
    case Dot(any) => DotGives(m, p, any, i, fr);
  }

  lemma {:induction false} EitherGives(m: Machine, p: nat, a: Re, b: Re, i: nat, fr: Frame)
    requires Small(m) && At(m.code, p, Code(Alt(a, b))) && Advancing(Alt(a, b)) && i <= |m.subject|
    ensures Gives(m, p, i, fr, Ends(Alt(a, b), m.subject, i), p + |Code(Alt(a, b))|, fr)
    decreases Alt(a, b), 0
  {
    hide Gives, Code, Ends;
    AltParts(m, p, a, b);
    CodeGives(m, p + 5, a, i, fr);
    CodeGives(m, p + 10 + |Code(a)|, b, i, fr);
    AltGives(m, p, a, b, i, fr);
  }

  lemma {:induction false} QuantifiedGives(m: Machine, p: nat, a: Re, q: Quantifier, i: nat, fr: Frame)
    requires Small(m) && At(m.code, p, Code(Quant(a, q))) && Advancing(Quant(a, q)) && i <= |m.subject|
    ensures Gives(m, p, i, fr, Ends(Quant(a, q), m.subject, i), p + |Code(Quant(a, q))|, fr)
    decreases Quant(a, q), 0
  {
    hide Gives, Code, Ends, BodyAt;
    forall start: nat | At(m.code, start, Code(a)) ensures BodyAt(m, a, start, start + |Code(a)|) {
      BodyGives(m, a, start);
    }
    QuantGives(m, p, a, q, i, fr);
  }

  lemma {:induction false} BodyGives(m: Machine, a: Re, start: nat)
    requires Small(m) && At(m.code, start, Code(a)) && Advancing(a)
    ensures BodyAt(m, a, start, start + |Code(a)|)
    decreases a, 2
  {
    hide Gives;
    var end := start + |Code(a)|;
    forall i: nat, fr | i <= |m.subject| ensures Gives(m, start, i, fr, Ends(a, m.subject, i), end, fr) {
      CodeGives(m, start, a, i, fr);
    }
  }

  lemma {:induction false} CatGives(m: Machine, p: nat, a: Re, b: Re, i: nat, fr: Frame)
    requires Small(m) && At(m.code, p, Code(Cat(a, b))) && Advancing(Cat(a, b)) && i <= |m.subject|
    ensures Gives(m, p, i, fr, Ends(Cat(a, b), m.subject, i), p + |Code(Cat(a, b))|, fr)
    decreases Cat(a, b), 0
  {
    hide Gives, Code, Ends;
    CodeCat(a, b); EndsCat(a, b, m.subject, i);
    AtSplit(m.code, p, Code(a), Code(b));
    var l, mid, end := Ends(a, m.subject, i), p + |Code(a)|, p + |Code(a)| + |Code(b)|;
    var f := (j: nat) => Ends(b, m.subject, j);
    CodeGives(m, p, a, i, fr);
    EndsWithin(a, m.subject, i);
    forall k | 0 <= k < |l| ensures Gives(m, mid, l[k], fr, f(l[k]), end, fr) {
      CodeGives(m, mid, b, l[k], fr);
    }
    GivesBind(m, p, i, fr, l, mid, fr, f, end, fr);
  }

  // ---- the whole program ------------------------------------------------

  /** What lre_compile puts around the code: the search loop unless sticky, and capture 0. */
  function Program(re: Re, sticky: bool): seq<byte> {
    (if sticky then [] else Jump(SPLIT_GOTO_FIRST, 6) + [ANY] + Jump(GOTO, -11))
    + [SAVE_START, 0] + Code(re) + [SAVE_END, 0] + [MATCH]
  }

  /** The first position from i on where the pattern matches, -1 when there is none; a sticky pattern only tries i. */
  function FirstMatch(re: Re, s: seq<byte>, i: nat, sticky: bool): (k: int)
    requires i <= |s|
    ensures k == -1 || (i <= k <= |s| && Ends(re, s, k) != [] && (sticky ==> k == i))
    ensures k != -1 ==> forall j: nat :: i <= j < k ==> Ends(re, s, j) == []
    ensures k == -1 ==> forall j: nat :: i <= j <= (if sticky then i else |s|) ==> Ends(re, s, j) == []
    decreases |s| - i
  {
    if Ends(re, s, i) != [] then i
    else if sticky || i == |s| then -1
    else FirstMatch(re, s, i + 1, sticky)
  }

  /** The outcome the pattern demands: capture 0 is the first match, by position and then by priority. */
  function Outcome(re: Re, s: seq<byte>, i: nat, sticky: bool): Config
    requires i <= |s|
  {
    var k := FirstMatch(re, s, i, sticky);
    if k == -1 then Done(false, []) else Done(true, [k, Ends(re, s, k)[0]])
  }

  /** No capture set, and capture 0 opened at i. */
  function Unset(): Frame {
    Frame([], [-1, -1])
  }

  function Opened(i: int): Frame {
    Frame([], [i, -1])
  }

  lemma ProgramParts(m: Machine, re: Re, sticky: bool)
    requires m.code == Program(re, sticky)
    ensures var base := if sticky then 0 else 11;
            && (!sticky ==>
                  At(m.code, 0, Jump(SPLIT_GOTO_FIRST, 6)) && m.code[5] == ANY && At(m.code, 6, Jump(GOTO, -11)))
            && m.code[base] == SAVE_START && m.code[base + 1] == 0 && At(m.code, base + 2, Code(re))
            && |m.code| == base + 5 + |Code(re)|
            && m.code[base + 2 + |Code(re)|] == SAVE_END && m.code[base + 3 + |Code(re)|] == 0
            && m.code[base + 4 + |Code(re)|] == MATCH
  {
    hide Code;
    var c := Code(re);
    if sticky {
      assert [] + [SAVE_START, 0] == [SAVE_START, 0];
      AttemptParts(m.code, [], c);
    } else {
      AttemptParts(m.code, Jump(SPLIT_GOTO_FIRST, 6) + [ANY] + Jump(GOTO, -11), c);
      SearchParts(m.code, [SAVE_START, 0] + c + [SAVE_END, 0] + [MATCH]);
    }
  }

  lemma AttemptParts(code: seq<byte>, search: seq<byte>, c: seq<byte>)
    requires code == search + [SAVE_START, 0] + c + [SAVE_END, 0] + [MATCH]
    ensures var base := |search|;
            && |code| == base + 5 + |c| && code[base] == SAVE_START && code[base + 1] == 0 && At(code, base + 2, c)
            && code[base + 2 + |c|] == SAVE_END && code[base + 3 + |c|] == 0 && code[base + 4 + |c|] == MATCH
            && code == search + ([SAVE_START, 0] + c + [SAVE_END, 0] + [MATCH])
  {
  }

  lemma SearchParts(code: seq<byte>, rest: seq<byte>)
    requires code == Jump(SPLIT_GOTO_FIRST, 6) + [ANY] + Jump(GOTO, -11) + rest
    ensures At(code, 0, Jump(SPLIT_GOTO_FIRST, 6)) && code[5] == ANY && At(code, 6, Jump(GOTO, -11))
  {
    hide U32;
  }

  /** From the save opcode at position i: a match with capture 0 set, or failure into the states given. */
  lemma AttemptReaches(m: Machine, re: Re, sticky: bool, i: nat, states: seq<Entry>)
    requires Small(m) && m.code == Program(re, sticky) && Advancing(re) && i <= |m.subject|
    ensures var l := Ends(re, m.subject, i);
            Reach(m, Run(if sticky then 0 else 11, i, Unset(), states),
                  if l == [] then Fail(states) else Done(true, [i, l[0]]))
  {
    hide Gives, Code, Reach, Ends;
    ProgramParts(m, re, sticky);
    var base := if sticky then 0 else 11;
    var start, l := Run(base, i, Unset(), states), Ends(re, m.subject, i);
    var fr, end := Opened(i), base + 2 + |Code(re)|;
    CodeGives(m, base + 2, re, i, fr);
    assert Step(m, start) == Run(base + 2, i, fr, states) by { SaveStart(m, base, i, states); }
    ReachOne(m, start, Run(base + 2, i, fr, states));
    GivesFirst(m, base + 2, i, fr, l, end, states);
    if l == [] {
      ReachTrans(m, start, Run(base + 2, i, fr, states), Fail(states));
    } else {
      var more :| Reach(m, Run(base + 2, i, fr, states), Run(end, l[0], fr, more));
      ReachTrans(m, start, Run(base + 2, i, fr, states), Run(end, l[0], fr, more));
      SaveEnd(m, end, i, l[0], more);
      ReachTrans(m, start, Run(end, l[0], fr, more), Done(true, [i, l[0]]));
    }
  }

  lemma SaveStart(m: Machine, base: nat, i: nat, states: seq<Entry>)
    requires base + 1 < |m.code| && m.code[base] == SAVE_START && m.code[base + 1] == 0
    ensures Step(m, Run(base, i, Unset(), states)) == Run(base + 2, i, Opened(i), states)
  {
    assert Unset().captures[0 := i] == Opened(i).captures;
  }

  lemma SaveEnd(m: Machine, end: nat, i: nat, e: nat, states: seq<Entry>)
    requires end + 2 < |m.code| && m.code[end] == SAVE_END && m.code[end + 1] == 0 && m.code[end + 2] == MATCH
    ensures Reach(m, Run(end, e, Opened(i), states), Done(true, [i, e]))
  {
    hide Reach;
    assert Opened(i).captures[1 := e] == [i, e];
    ReachOne(m, Run(end, e, Opened(i), states), Run(end + 2, e, Frame([], [i, e]), states));
    ReachOne(m, Run(end + 2, e, Frame([], [i, e]), states), Done(true, [i, e]));
    ReachTrans(m, Run(end, e, Opened(i), states), Run(end + 2, e, Frame([], [i, e]), states), Done(true, [i, e]));
  }

  /** Of a list of ends, only the first matters to what follows. */
  lemma GivesFirst(m: Machine, pc: nat, i: nat, fr: Frame, l: seq<nat>, end: nat, states: seq<Entry>)
    requires Gives(m, pc, i, fr, l, end, fr)
    ensures l == [] ==> Reach(m, Run(pc, i, fr, states), Fail(states))
    ensures l != [] ==> exists more :: Reach(m, Run(pc, i, fr, states), Run(end, l[0], fr, more))
  {
    hide Reach;
    assert Yields(m, Run(pc, i, fr, states), l, end, fr, states);
  }

  /** The search loop moves one character on. */
  lemma SearchStep(m: Machine, re: Re, i: nat, states: seq<Entry>)
    requires Small(m) && m.code == Program(re, false) && i <= |m.subject|
    ensures Step(m, Run(0, i, Unset(), states))
         == Run(11, i, Unset(), states + [SplitEntry(5, i, Unset())])
    ensures Reach(m, Fail(states + [SplitEntry(5, i, Unset())]),
                  if i < |m.subject| then Run(0, i + 1, Unset(), states) else Fail(states))
  {
    hide Reach, Step, Code, At, Jump, Program;
    ProgramParts(m, re, false);
    SearchSplit(m, i, states);
    var fr, st := Unset(), Fail(states + [SplitEntry(5, i, Unset())]);
    ReachOne(m, st, Run(5, i, fr, states));
    if i < |m.subject| {
      SearchBack(m, i, states);
      ReachTrans(m, st, Run(5, i, fr, states), Run(0, i + 1, fr, states));
    } else {
      SearchEnd(m, i, states);
      ReachOne(m, Run(5, i, fr, states), Fail(states));
      ReachTrans(m, st, Run(5, i, fr, states), Fail(states));
    }
  }

  lemma SearchSplit(m: Machine, i: nat, states: seq<Entry>)
    requires i <= |m.subject| && At(m.code, 0, Jump(SPLIT_GOTO_FIRST, 6))
    ensures Step(m, Run(0, i, Unset(), states)) == Run(11, i, Unset(), states + [SplitEntry(5, i, Unset())])
    ensures Step(m, Fail(states + [SplitEntry(5, i, Unset())])) == Run(5, i, Unset(), states)
  {
    hide U32, At;
    JumpRead(m.code, 0, SPLIT_GOTO_FIRST, 6);
    assert (states + [SplitEntry(5, i, Unset())])[..|states|] == states;
  }

  lemma SearchEnd(m: Machine, i: nat, states: seq<Entry>)
    requires i == |m.subject| && |m.code| > 5 && m.code[5] == ANY
    ensures Step(m, Run(5, i, Unset(), states)) == Fail(states)
  {
  }

  lemma SearchBack(m: Machine, i: nat, states: seq<Entry>)
    requires i < |m.subject| && |m.code| > 5 && m.code[5] == ANY && At(m.code, 6, Jump(GOTO, -11))
    ensures Reach(m, Run(5, i, Unset(), states), Run(0, i + 1, Unset(), states))
  {
    hide Reach, At, U32;
    var fr := Unset();
    ReachOne(m, Run(5, i, fr, states), Run(6, i + 1, fr, states));
    GotoMoves(m, 6, -11, i + 1, fr);
    ReachOne(m, Run(6, i + 1, fr, states), Run(0, i + 1, fr, states));
    ReachTrans(m, Run(5, i, fr, states), Run(6, i + 1, fr, states), Run(0, i + 1, fr, states));
  }

  /** The compiled program halts with the outcome the pattern demands. */
  lemma {:induction false} ProgramCorrect(m: Machine, re: Re, sticky: bool, i: nat)
    requires Small(m) && m.code == Program(re, sticky) && Advancing(re) && i <= |m.subject|
    ensures Reach(m, Run(0, i, Unset(), []), Outcome(re, m.subject, i, sticky))
    decreases |m.subject| - i
  {
    hide Reach, Ends, Program;
    var fr := Unset();
    var l := Ends(re, m.subject, i);
    var start := Run(0, i, fr, []);
    ReachOne(m, Fail([]), Done(false, []));
    if sticky {
      AttemptReaches(m, re, sticky, i, []);
      if l == [] { ReachTrans(m, start, Fail([]), Done(false, [])); }
    } else {
      var st := [] + [SplitEntry(5, i, fr)];
      SearchStep(m, re, i, []);
      ReachOne(m, start, Run(11, i, fr, st));
      AttemptReaches(m, re, sticky, i, st);
      if l == [] {
        ReachTrans(m, start, Run(11, i, fr, st), Fail(st));
        if i < |m.subject| {
          ProgramCorrect(m, re, sticky, i + 1);
          ReachTrans(m, start, Fail(st), Run(0, i + 1, fr, []));
          ReachTrans(m, start, Run(0, i + 1, fr, []), Outcome(re, m.subject, i + 1, sticky));
        } else {
          ReachTrans(m, start, Fail(st), Fail([]));
          ReachTrans(m, start, Fail([]), Done(false, []));
        }
      } else {
        ReachTrans(m, start, Run(11, i, fr, st), Done(true, [i, l[0]]));
      }
    }
  }
}
