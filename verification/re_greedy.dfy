/** The optimised greedy quantifier refines the plain repetition of its atom. */
module ReGreedy {
  import opened ReSyntax
  import opened ReMachine
  import opened ReSteps
  import opened ReCorrect

  // ---- which code is straight-line --------------------------------------

  /** Number of characters of a pattern whose code is straight-line, -1 otherwise. */
  function SimpleCount(re: Re): (n: int)
    ensures n >= -1
  {
    match re
    case Empty => 0
    case Chr(_) => 1
    case Dot(_) => 1
    case Cat(a, b) => if SimpleCount(a) == -1 || SimpleCount(b) == -1 then -1 else SimpleCount(a) + SimpleCount(b)
    case Alt(_, _) => -1
    case Group(a) => SimpleCount(a)
    case Quant(a, q) =>
      if q.max == 0 then 0
      else if q.min == 1 && q.max == 1 && !(q.greedy && SimpleScan(Code(a)) > 0) then SimpleCount(a)
      else -1
  }

  /** Scanning a piece of code and then the rest. */
  function Joined(x: int, y: int): int {
    if x == -1 || y == -1 then -1 else x + y
  }

  lemma ScanBad(op: byte, rest: seq<byte>)
    requires op in {SPLIT_GOTO_FIRST, SPLIT_NEXT_FIRST, PUSH_I32, GOTO, SIMPLE_GREEDY_QUANT}
    ensures SimpleScan([op] + rest) == -1
  {
  }

  lemma ScanChar(c: int, rest: seq<byte>)
    ensures SimpleScan([CHAR] + U16(c) + rest) == Joined(1, SimpleScan(rest))
  {
    assert ([CHAR] + U16(c) + rest)[3..] == rest;
  }

  lemma ScanDot(any: bool, rest: seq<byte>)
    ensures SimpleScan([if any then ANY else DOT] + rest) == Joined(1, SimpleScan(rest))
  {
    assert ([if any then ANY else DOT] + rest)[1..] == rest;
  }

  lemma CodeCat(a: Re, b: Re)
    ensures Code(Cat(a, b)) == Code(a) + Code(b)
  {
  }

  lemma CodeQuant(a: Re, q: Quantifier)
    ensures Code(Quant(a, q)) == QuantCode(Code(a), q, ZeroAdvanceCheck(Code(a), q))
  {
  }

  lemma ScanAlt(a: Re, b: Re, rest: seq<byte>)
    ensures SimpleScan(Code(Alt(a, b)) + rest) == -1
  {
    hide SimpleScan;
    var tail := U32(|Code(a)| + 5) + Code(a) + Jump(GOTO, |Code(b)|) + Code(b) + rest;
    assert Code(Alt(a, b)) + rest == [SPLIT_NEXT_FIRST] + tail;
    ScanBad(SPLIT_NEXT_FIRST, tail);
  }

  lemma {:induction false} ScanCat(a: Re, b: Re, rest: seq<byte>)
    requires Advancing(a) && Advancing(b)
    ensures SimpleScan(Code(Cat(a, b)) + rest) == Joined(SimpleCount(Cat(a, b)), SimpleScan(rest))
    decreases Cat(a, b), 0
  {
    hide SimpleScan, Code, Advancing;
    CodeCat(a, b);
    AppendAssoc(Code(a), Code(b), rest);
    ScanCode(a, Code(b) + rest);
    ScanCode(b, rest);
  }

  lemma {:induction false} ScanCode(re: Re, rest: seq<byte>)
    requires Advancing(re)
    ensures SimpleScan(Code(re) + rest) == Joined(SimpleCount(re), SimpleScan(rest))
    decreases re, 1
  {
    hide SimpleScan;
    match re
    case Empty => assert Code(re) + rest == rest;
    case Chr(c) => ScanChar(c, rest);
    case Dot(any) => ScanDot(any, rest);
    case Cat(a, b) => ScanCat(a, b, rest);
    case Alt(a, b) => ScanAlt(a, b, rest);
    case Group(a) => ScanCode(a, rest);
    case Quant(a, q) => ScanQuant(a, q, rest);
  }

  lemma {:induction false} ScanQuant(a: Re, q: Quantifier, rest: seq<byte>)
    requires Advancing(Quant(a, q))
    ensures SimpleScan(Code(Quant(a, q)) + rest) == Joined(SimpleCount(Quant(a, q)), SimpleScan(rest))
    decreases Quant(a, q), 0
  {
    hide SimpleScan, Code;
    var c := Code(a);
    var az := ZeroAdvanceCheck(c, q);
    CodeQuant(a, q);
    if q.max == 0 {
      assert QuantCode(c, q, az) + rest == rest;
    } else if q.min == 1 && !(q.greedy && SimpleScan(c) > 0) {
      // the atom first, then nothing, a split or a push
      var tail := QuantCode(c, q, az)[|c|..];
      AtomFirst(c, q, az);
      assert QuantCode(c, q, az) + rest == c + (tail + rest);
      ScanCode(a, tail + rest);
      ScanTail(tail, rest, q);
    } else {
      OtherFirst(c, q, az);
      ScanFirst(QuantCode(c, q, az), rest);
    }
  }

  lemma ScanFirst(code: seq<byte>, rest: seq<byte>)
    requires |code| > 0 && code[0] in {SPLIT_GOTO_FIRST, SPLIT_NEXT_FIRST, PUSH_I32, SIMPLE_GREEDY_QUANT}
    ensures SimpleScan(code + rest) == -1
  {
    hide SimpleScan;
    assert code + rest == [code[0]] + (code[1..] + rest);
    ScanBad(code[0], code[1..] + rest);
  }

  lemma ScanTail(tail: seq<byte>, rest: seq<byte>, q: Quantifier)
    requires q.max == 1 <==> tail == []
    requires q.max != 1 ==> tail[0] in {SPLIT_GOTO_FIRST, SPLIT_NEXT_FIRST, PUSH_I32}
    ensures SimpleScan(tail + rest) == if q.max == 1 then SimpleScan(rest) else -1
  {
    hide SimpleScan;
    if q.max == 1 { assert tail + rest == rest; } else { ScanFirst(tail, rest); }
  }

  /** A once-at-least atom that is not optimised comes first; what follows it is nothing or branching code. */
  lemma AtomFirst(c: seq<byte>, q: Quantifier, az: bool)
    requires q.min == 1 <= q.max && !(q.greedy && SimpleScan(c) > 0)
    ensures var code := QuantCode(c, q, az);
            && |c| <= |code| && code == c + code[|c|..]
            && (q.max == 1 <==> code[|c|..] == [])
            && (q.max > 1 ==> |code| > |c| && code[|c|] in {SPLIT_GOTO_FIRST, SPLIT_NEXT_FIRST, PUSH_I32})
  {
    hide SimpleScan;
    var code := QuantCode(c, q, az);
    if q.max == INF && !az {
      assert code[|c|] == Jump(Split(!q.greedy), -(|c| + 5))[0];
    } else if q.max == INF {
      assert code[|c|] == StarCode(c, q.greedy, az)[0] == Split(q.greedy);
    } else if q.max > 1 {
      assert code[|c|] == CountedCode(c, q.greedy, q.max - 1)[0] == PUSH_I32;
    }
  }

  lemma OtherFirst(c: seq<byte>, q: Quantifier, az: bool)
    requires q.min <= q.max && q.max > 0 && (q.min != 1 || (q.greedy && SimpleScan(c) > 0))
    ensures var code := QuantCode(c, q, az);
            |code| > 0 && code[0] in {SPLIT_GOTO_FIRST, SPLIT_NEXT_FIRST, PUSH_I32, SIMPLE_GREEDY_QUANT}
  {
    hide SimpleScan;
    var code := QuantCode(c, q, az);
    if q.greedy && SimpleScan(c) > 0 {
      assert code[0] == SIMPLE_GREEDY_QUANT;
    } else if q.min == 0 {
      if q.max == INF { assert code[0] == Split(q.greedy); }
      else if q.max == 1 { assert code[0] == Split(q.greedy); }
      else { assert code[0] == PUSH_I32; }
    } else {
      assert code[0] == RepeatCode(c, q.min)[0] == PUSH_I32;
    }
  }

  // ---- straight-line code: at most one end ------------------------------

  lemma FlatSingle(f: nat -> seq<nat>, x: nat)
    ensures Flat(f, [x]) == f(x) && Flat(f, []) == []
  {
    assert [x][1..] == [];
    assert Flat(f, [x]) == f(x) + Flat(f, []);
  }

  lemma {:induction false} SimpleEnds(re: Re, s: seq<byte>, i: nat)
    requires Advancing(re) && SimpleCount(re) >= 0
    ensures Ends(re, s, i) == [] || Ends(re, s, i) == [i + SimpleCount(re)]
  {
    match re
    case Empty =>
    case Chr(_) =>
    case Dot(_) =>
    case Cat(a, b) =>
      SimpleEnds(a, s, i);
      FlatSingle(j => Ends(b, s, j), i + SimpleCount(a));
      SimpleEnds(b, s, i + SimpleCount(a));
    case Group(a) => SimpleEnds(a, s, i);
    case Quant(a, q) =>
      if q.max != 0 {
        SimpleEnds(a, s, i);
        OnceEnds(a, s, i, q);
      }
  }

  /** Exactly one repetition is the atom itself. */
  lemma OnceEnds(a: Re, s: seq<byte>, i: nat, q: Quantifier)
    requires q.min == 1 && q.max == 1
    ensures Ends(Quant(a, q), s, i) == Ends(a, s, i) && Repeat(a, s, i, 1) == Ends(a, s, i)
  {
    FlatUnit(j => Repeat(a, s, j, 0), Ends(a, s, i));
    FlatUnit(j => UpTo(a, s, j, 0, q.greedy), Ends(a, s, i));
  }

  /** The nested run through straight-line code. */
  lemma {:induction false} SimpleRunCode(m: Machine, pc: nat, re: Re, i: nat)
    requires At(m.code, pc, Code(re)) && Advancing(re) && SimpleCount(re) >= 0
    ensures SimpleRun(m, pc, i)
         == if Ends(re, m.subject, i) == [] then -1 else SimpleRun(m, pc + |Code(re)|, i + SimpleCount(re))
    decreases re, 1
  {
    match re
    case Empty =>
    case Chr(c) => SimpleRunChr(m, pc, c, i);
    case Dot(any) => SimpleRunDot(m, pc, any, i);
    case Cat(a, b) => SimpleRunCat(m, pc, a, b, i);
    case Group(a) => SimpleRunCode(m, pc, a, i);
    case Quant(a, q) => SimpleRunQuant(m, pc, a, q, i);
  }

  lemma SimpleRunChr(m: Machine, pc: nat, c: byte, i: nat)
    requires At(m.code, pc, Code(Chr(c)))
    ensures SimpleRun(m, pc, i) == if Ends(Chr(c), m.subject, i) == [] then -1 else SimpleRun(m, pc + 3, i + 1)
  {
    OpAt(m.code, pc, CHAR, U16(c));
    U16Read(m.code, pc + 1, c);
  }

  lemma SimpleRunDot(m: Machine, pc: nat, any: bool, i: nat)
    requires At(m.code, pc, Code(Dot(any)))
    ensures SimpleRun(m, pc, i) == if Ends(Dot(any), m.subject, i) == [] then -1 else SimpleRun(m, pc + 1, i + 1)
  {
    assert Code(Dot(any)) == [if any then ANY else DOT] + [];
    OpAt(m.code, pc, if any then ANY else DOT, []);
  }

  lemma EndsCat(a: Re, b: Re, s: seq<byte>, i: nat)
    ensures Ends(Cat(a, b), s, i) == Flat(j => Ends(b, s, j), Ends(a, s, i))
  {
  }

  lemma {:induction false} SimpleRunCat(m: Machine, pc: nat, a: Re, b: Re, i: nat)
    requires At(m.code, pc, Code(Cat(a, b))) && Advancing(Cat(a, b)) && SimpleCount(Cat(a, b)) >= 0
    ensures SimpleRun(m, pc, i)
         == if Ends(Cat(a, b), m.subject, i) == [] then -1
             else SimpleRun(m, pc + |Code(Cat(a, b))|, i + SimpleCount(Cat(a, b)))
    decreases Cat(a, b), 0
  {
    hide SimpleRun, Ends, Code;
    CodeCat(a, b); EndsCat(a, b, m.subject, i);
    AtSplit(m.code, pc, Code(a), Code(b));
    SimpleRunCode(m, pc, a, i);
    SimpleEnds(a, m.subject, i);
    FlatSingle(j => Ends(b, m.subject, j), i + SimpleCount(a));
    SimpleRunCode(m, pc + |Code(a)|, b, i + SimpleCount(a));
  }

  lemma {:induction false} SimpleRunQuant(m: Machine, pc: nat, a: Re, q: Quantifier, i: nat)
    requires At(m.code, pc, Code(Quant(a, q))) && Advancing(Quant(a, q)) && SimpleCount(Quant(a, q)) >= 0
    ensures SimpleRun(m, pc, i)
         == if Ends(Quant(a, q), m.subject, i) == [] then -1
            else SimpleRun(m, pc + |Code(Quant(a, q))|, i + SimpleCount(Quant(a, q)))
    decreases Quant(a, q), 0
  {
    hide SimpleRun, Code, SimpleScan;
    CodeQuant(a, q);
    if q.max != 0 {
      AtomFirst(Code(a), q, ZeroAdvanceCheck(Code(a), q));
      assert Code(Quant(a, q)) == Code(a) + [];
      SimpleRunCode(m, pc, a, i);
      OnceEnds(a, m.subject, i, q);
    }
  }

  // ---- counting repetitions ---------------------------------------------

  function Less(n: nat): nat {
    if n == INF || n == 0 then n else n - 1
  }

  /** How many repetitions of k characters match from i, at most n. */
  function Matches(a: Re, s: seq<byte>, i: nat, k: nat, n: nat): nat
    decreases if i <= |s| then |s| - i else 0
  {
    if n == 0 || Ends(a, s, i) == [] || k == 0 || i + k > |s| then 0 else 1 + Matches(a, s, i + k, k, Less(n))
  }

  /** Every repetition is one end, k characters on. */
  ghost predicate FixedWidth(a: Re, s: seq<byte>, k: nat) {
    k >= 1 && forall i: nat :: i <= |s| ==> Ends(a, s, i) == [] || (Ends(a, s, i) == [i + k] && i + k <= |s|)
  }

  lemma SimpleIsFixedWidth(a: Re, s: seq<byte>)
    requires Advancing(a) && SimpleCount(a) >= 1
    ensures FixedWidth(a, s, SimpleCount(a))
  {
    forall i: nat | i <= |s|
      ensures Ends(a, s, i) == [] || (Ends(a, s, i) == [i + SimpleCount(a)] && i + SimpleCount(a) <= |s|)
    {
      SimpleEnds(a, s, i);
      EndsWithin(a, s, i);
      if Ends(a, s, i) != [] { assert Ends(a, s, i)[0] == i + SimpleCount(a); }
    }
  }

  lemma FixedAt(a: Re, s: seq<byte>, k: nat, i: nat)
    requires FixedWidth(a, s, k) && i <= |s|
    ensures k >= 1 && (Ends(a, s, i) == [] || (Ends(a, s, i) == [i + k] && i + k <= |s|))
  {
  }

  /** Positions i + t * k down to i. */
  function Down(i: nat, k: nat, t: nat): seq<nat>
    decreases t
  {
    if t == 0 then [i] else Down(i + k, k, t - 1) + [i]
  }

  lemma {:induction false} UpToIsDown(a: Re, s: seq<byte>, i: nat, k: nat, n: nat)
    requires FixedWidth(a, s, k) && i <= |s|
    ensures UpTo(a, s, i, n, true) == Down(i, k, Matches(a, s, i, k, n))
    decreases |s| - i
  {
    hide FixedWidth, Ends;
    FixedAt(a, s, k, i);
    if n > 0 {
      UpToUnfold(a, s, i, n, true);
      FlatSingle(More(a, s, i, n, true), i + k);
      if Ends(a, s, i) != [] {
        UpToIsDown(a, s, i + k, k, Less(n));
      }
    }
  }

  lemma {:induction false} RepeatIsOne(a: Re, s: seq<byte>, i: nat, k: nat, r: nat, n: nat)
    requires FixedWidth(a, s, k) && i <= |s| && r <= n <= INF
    ensures Repeat(a, s, i, r) == if Matches(a, s, i, k, n) >= r then [i + r * k] else []
    ensures Matches(a, s, i, k, n) >= r ==>
              i + r * k <= |s| && Matches(a, s, i + r * k, k, if n == INF then INF else n - r)
                  == Matches(a, s, i, k, n) - r
    decreases r
  {
    hide FixedWidth, Ends;
    FixedAt(a, s, k, i);
    if r == 0 {
      assert i + r * k == i;
    } else {
      FlatSingle(j => Repeat(a, s, j, r - 1), i + k);
      if Ends(a, s, i) != [] {
        RepeatIsOne(a, s, i + k, k, r - 1, Less(n));
        OneMore(i, k, r);
      }
    }
  }

  lemma OneMore(i: int, k: int, r: int)
    ensures i + k + (r - 1) * k == i + r * k
  {
  }

  /** The positions a greedy entry goes back through. */
  function BackList(cptr: nat, k: nat, count: nat): seq<nat>
    requires cptr >= count * k
    decreases count
  {
    if count == 0 then []
    else
      assert cptr - k >= (count - 1) * k;
      [cptr - k] + BackList(cptr - k, k, count - 1)
  }

  lemma BackListStep(cptr: nat, k: nat, count: nat)
    requires count >= 1 && cptr >= count * k
    ensures cptr >= k && cptr - k >= (count - 1) * k
            && BackList(cptr, k, count) == [cptr - k] + BackList(cptr - k, k, count - 1)
    ensures (cptr - k >= 0 * k ==> BackList(cptr - k, k, 0) == [])
  {
  }

  lemma {:induction false} DownIsBack(i: nat, k: nat, t: nat)
    ensures i + t * k >= t * k && Down(i, k, t) == [i + t * k] + BackList(i + t * k, k, t)
    decreases t
  {
    if t > 0 {
      DownIsBack(i + k, k, t - 1);
      assert i + k + (t - 1) * k == i + t * k;
      BackSnoc(i, k, t);
    }
  }

  lemma {:induction false} BackSnoc(i: nat, k: nat, t: nat)
    requires t > 0
    ensures i + t * k >= t * k && i + t * k >= (t - 1) * k
    ensures BackList(i + t * k, k, t) == BackList(i + t * k, k, t - 1) + [i]
    decreases t
  {
    if t > 1 {
      assert i + t * k - k == i + (t - 1) * k;
      BackSnoc(i, k, t - 1);
    }
  }

  // ---- the opcode -------------------------------------------------------

  /** The nested code matches one repetition. */
  ghost predicate RunsLike(m: Machine, pc: nat, a: Re, k: nat) {
    forall i: nat :: i <= |m.subject| ==> SimpleRun(m, pc, i) == if Ends(a, m.subject, i) == [] then -1 else i + k
  }

  lemma RunsAt(m: Machine, pc: nat, a: Re, k: nat, i: nat)
    requires RunsLike(m, pc, a, k) && i <= |m.subject|
    ensures SimpleRun(m, pc, i) == if Ends(a, m.subject, i) == [] then -1 else i + k
  {
  }

  lemma {:induction false} GreedyRunCounts(m: Machine, pc: nat, a: Re, k: nat, i: nat, q: nat, max: nat)
    requires FixedWidth(a, m.subject, k) && RunsLike(m, pc, a, k) && i <= |m.subject|
    requires max <= INF && (max == INF || q < max)
    ensures var t := Matches(a, m.subject, i, k, if max == INF then INF else max - q);
            GreedyRun(m, pc, i, q, max) == (q + t, i + t * k)
    decreases |m.subject| - i
  {
    hide FixedWidth, RunsLike, Ends, SimpleRun;
    FixedAt(a, m.subject, k, i);
    RunsAt(m, pc, a, k, i);
    if Ends(a, m.subject, i) != [] {
      if max == INF || q + 1 < max {
        GreedyRunCounts(m, pc, a, k, i + k, q + 1, max);
        OneMore(i, k, 1 + Matches(a, m.subject, i + k, k, if max == INF then INF else max - q - 1));
      } else {
        assert Matches(a, m.subject, i + k, k, 0) == 0;
      }
    }
  }

  lemma GreedyParts(m: Machine, p: nat, c: seq<byte>, min: nat, max: nat, count: nat)
    requires At(m.code, p, GreedyCode(c, min, max, count)) && Small(m) && min <= INF && max <= INF && count <= INF
    ensures p + 18 + |c| <= |m.code| && m.code[p] == SIMPLE_GREEDY_QUANT && |GreedyCode(c, min, max, count)| == 18 + |c|
    ensures Signed(GetU32(m.code, p + 1)) == |c| + 1 && GetU32(m.code, p + 5) == min && GetU32(m.code, p + 9) == max
    ensures GetU32(m.code, p + 13) == count && At(m.code, p + 17, c) && m.code[p + 17 + |c|] == MATCH
  {
    var w1, w2, w3, w4 := U32(|c| + 1), U32(min), U32(max), U32(count);
    AtSplit(m.code, p, [SIMPLE_GREEDY_QUANT] + w1 + w2 + w3 + w4 + c, [MATCH]);
    AtSplit(m.code, p, [SIMPLE_GREEDY_QUANT] + w1 + w2 + w3 + w4, c);
    GreedyWords(m.code, p, w1, w2, w3, w4);
    assert m.code[p + 17 + |c|..p + 18 + |c|][0] == MATCH;
    U32Read(m.code, p + 1, |c| + 1);
    U32Read(m.code, p + 5, min);
    U32Read(m.code, p + 9, max);
    U32Read(m.code, p + 13, count);
  }

  lemma GreedyWords(code: seq<byte>, p: nat, w1: seq<byte>, w2: seq<byte>, w3: seq<byte>, w4: seq<byte>)
    requires |w1| == 4 && |w2| == 4 && |w3| == 4 && |w4| == 4
    requires At(code, p, [SIMPLE_GREEDY_QUANT] + w1 + w2 + w3 + w4)
    ensures p < |code| && code[p] == SIMPLE_GREEDY_QUANT
    ensures At(code, p + 1, w1) && At(code, p + 5, w2) && At(code, p + 9, w3) && At(code, p + 13, w4)
  {
    AtSplit(code, p, [SIMPLE_GREEDY_QUANT] + w1 + w2 + w3, w4);
    AtSplit(code, p, [SIMPLE_GREEDY_QUANT] + w1 + w2, w3);
    AtSplit(code, p, [SIMPLE_GREEDY_QUANT] + w1, w2);
    OpAt(code, p, SIMPLE_GREEDY_QUANT, w1);
  }

  lemma GreedyPop(m: Machine, pc: nat, cptr: nat, fr: Frame, count: nat, k: nat, next: nat, states: seq<Entry>)
    requires pc + 16 <= |m.code| && GetU32(m.code, pc + 12) == k && next == pc + 16 + Signed(GetU32(m.code, pc))
    requires count >= 1 && cptr >= k
    ensures Step(m, Fail(states + [GreedyEntry(pc, cptr, fr, count)]))
         == Run(next, cptr - k, fr, if count == 1 then states else states + [GreedyEntry(pc, cptr - k, fr, count - 1)])
  {
    hide GetU32;
    assert (states + [GreedyEntry(pc, cptr, fr, count)])[..|states|] == states;
  }

  /** Failing into a greedy entry gives back one repetition at a time. */
  lemma {:induction false} GreedyBack(m: Machine, pc: nat, cptr: nat, fr: Frame, count: nat, k: nat, next: nat,
                                      states: seq<Entry>)
    requires pc + 16 <= |m.code| && GetU32(m.code, pc + 12) == k && next == pc + 16 + Signed(GetU32(m.code, pc))
    requires count >= 1 && cptr >= count * k && k >= 1
    ensures Yields(m, Fail(states + [GreedyEntry(pc, cptr, fr, count)]), BackList(cptr, k, count), next, fr, states)
    decreases count
  {
    hide Reach, Step, Yields, BackList, GetU32;
    var st := states + [GreedyEntry(pc, cptr, fr, count)];
    OneMore(0, k, count);
    BackListStep(cptr, k, count);
    GreedyPop(m, pc, cptr, fr, count, k, next, states);
    var rest := BackList(cptr - k, k, count - 1);
    var more := if count == 1 then states else states + [GreedyEntry(pc, cptr - k, fr, count - 1)];
    YieldsOne(m, cptr - k, next, fr, more);
    if count == 1 {
      YieldsNone(m, next, fr, states);
    } else {
      GreedyBack(m, pc, cptr - k, fr, count - 1, k, next, states);
    }
    YieldsAppend(m, Run(next, cptr - k, fr, more), [cptr - k], rest, next, fr, more, states);
    YieldsStep(m, Fail(st), Run(next, cptr - k, fr, more), [cptr - k] + rest, next, fr, states);
  }

  lemma GreedyOp(m: Machine, p: nat, i: nat, fr: Frame, states: seq<Entry>)
    requires p + 17 <= |m.code| && m.code[p] == SIMPLE_GREEDY_QUANT
    ensures Step(m, Run(p, i, fr, states)) == StepGreedy(m, p + 1, i, fr, states)
  {
    hide StepGreedy, GetU32, StepJump, CharStep;
  }

  /** What the opcode pushes and where it goes on, in terms of the number of matches. */
  lemma GreedyStep(m: Machine, p: nat, a: Re, c: seq<byte>, min: nat, max: nat, k: nat, i: nat, fr: Frame,
                   states: seq<Entry>)
    requires Small(m) && At(m.code, p, GreedyCode(c, min, max, k)) && min <= max <= INF && 1 <= max && k <= INF
    requires FixedWidth(a, m.subject, k) && RunsLike(m, p + 17, a, k) && i <= |m.subject|
    ensures var t := Matches(a, m.subject, i, k, max);
            Step(m, Run(p, i, fr, states))
            == (if t < min then Fail(states)
                else Run(p + 18 + |c|, i + t * k, fr,
                         if t > min then states + [GreedyEntry(p + 1, i + t * k, fr, t - min)] else states))
  {
    hide GreedyRun, Matches, GetU32, GreedyCode, FixedWidth, RunsLike, At, Step;
    GreedyParts(m, p, c, min, max, k);
    GreedyRunCounts(m, p + 17, a, k, i, 0, max);
    GreedyOp(m, p, i, fr, states);
  }

  /** What follows the required repetitions. */
  function Rest(a: Re, s: seq<byte>, n: nat, greedy: bool): nat -> seq<nat> {
    j => UpTo(a, s, j, n, greedy)
  }

  lemma EndsQuant(a: Re, q: Quantifier, n: nat, s: seq<byte>, i: nat)
    requires q.max > 0 && n == if q.max == INF then INF else if q.max < q.min then 0 else q.max - q.min
    ensures Ends(Quant(a, q), s, i) == Flat(Rest(a, s, n, q.greedy), Repeat(a, s, i, q.min))
  {
    FlatSame(Rest(a, s, n, q.greedy),
             (j: nat) => UpTo(a, s, j, if q.max == INF then INF else if q.max < q.min then 0 else q.max - q.min,
                              q.greedy),
             Repeat(a, s, i, q.min));
  }

  lemma GreedyEnds(a: Re, s: seq<byte>, i: nat, k: nat, q: Quantifier)
    requires FixedWidth(a, s, k) && i <= |s| && q.greedy && q.min <= q.max <= INF && 1 <= q.max
    ensures var t := Matches(a, s, i, k, q.max);
            Ends(Quant(a, q), s, i) == if t < q.min then [] else Down(i + q.min * k, k, t - q.min)
  {
    hide FixedWidth, Matches, Ends, Repeat, UpTo, Down;
    var n := if q.max == INF then INF else q.max - q.min;
    RepeatIsOne(a, s, i, k, q.min, q.max);
    EndsQuant(a, q, n, s, i);
    FlatSingle(Rest(a, s, n, q.greedy), i + q.min * k);
    if Matches(a, s, i, k, q.max) >= q.min { UpToIsDown(a, s, i + q.min * k, k, n); }
  }

  /** The opcode tries the continuation after q, q - 1, ..., min repetitions, then fails. */
  lemma GreedyGives(m: Machine, p: nat, a: Re, c: seq<byte>, q: Quantifier, k: nat, i: nat, fr: Frame)
    requires Small(m) && At(m.code, p, GreedyCode(c, q.min, q.max, k)) && q.greedy && q.min <= q.max <= INF
             && 1 <= q.max && k <= INF
    requires FixedWidth(a, m.subject, k) && RunsLike(m, p + 17, a, k) && i <= |m.subject|
    ensures Gives(m, p, i, fr, Ends(Quant(a, q), m.subject, i), p + 18 + |c|, fr)
  {
    hide Yields, Step, FixedWidth, RunsLike, Ends;
    var l, e := Ends(Quant(a, q), m.subject, i), p + 18 + |c|;
    forall states ensures Yields(m, Run(p, i, fr, states), l, e, fr, states) {
      GreedyOnce(m, p, a, c, q, k, i, fr, states);
    }
  }

  lemma GreedyOnce(m: Machine, p: nat, a: Re, c: seq<byte>, q: Quantifier, k: nat, i: nat, fr: Frame,
                   states: seq<Entry>)
    requires Small(m) && At(m.code, p, GreedyCode(c, q.min, q.max, k)) && q.greedy && q.min <= q.max <= INF
             && 1 <= q.max && k <= INF
    requires FixedWidth(a, m.subject, k) && RunsLike(m, p + 17, a, k) && i <= |m.subject|
    ensures Yields(m, Run(p, i, fr, states), Ends(Quant(a, q), m.subject, i), p + 18 + |c|, fr, states)
  {
    hide Yields, Step, FixedWidth, RunsLike, Ends, Matches, GreedyCode, At, Down, GetU32;
    var t, l, e := Matches(a, m.subject, i, k, q.max), Ends(Quant(a, q), m.subject, i), p + 18 + |c|;
    GreedyEnds(a, m.subject, i, k, q);
    GreedyParts(m, p, c, q.min, q.max, k);
    GreedyStep(m, p, a, c, q.min, q.max, k, i, fr, states);
    if t < q.min {
      YieldsNone(m, e, fr, states);
      YieldsStep(m, Run(p, i, fr, states), Fail(states), l, e, fr, states);
    } else {
      assert k >= 1 by { FixedAt(a, m.subject, k, i); }
      GreedyYields(m, p, i, q.min, t, k, e, fr, states);
      var more := if t > q.min then states + [GreedyEntry(p + 1, i + t * k, fr, t - q.min)] else states;
      YieldsStep(m, Run(p, i, fr, states), Run(e, i + t * k, fr, more), l, e, fr, states);
    }
  }

  lemma GreedyYields(m: Machine, p: nat, i: nat, min: nat, t: nat, k: nat, e: nat, fr: Frame, states: seq<Entry>)
    requires p + 17 <= |m.code| && GetU32(m.code, p + 13) == k && e == p + 17 + Signed(GetU32(m.code, p + 1)) && k >= 1
             && t >= min
    ensures var more := if t > min then states + [GreedyEntry(p + 1, i + t * k, fr, t - min)] else states;
            Yields(m, Run(e, i + t * k, fr, more), Down(i + min * k, k, t - min), e, fr, states)
  {
    hide Reach, Yields, Down, GetU32, Signed;
    var top := i + t * k;
    var r := t - min;
    assert top == i + min * k + r * k;
    DownIsBack(i + min * k, k, r);
    GreedyDown(m, p + 1, top, k, r, e, fr, states);
  }

  /** The list of a greedy entry: where it stands, then each position it goes back to. */
  lemma GreedyDown(m: Machine, pc: nat, top: nat, k: nat, r: nat, e: nat, fr: Frame, states: seq<Entry>)
    requires pc + 16 <= |m.code| && GetU32(m.code, pc + 12) == k && e == pc + 16 + Signed(GetU32(m.code, pc)) && k >= 1
    requires top >= r * k
    ensures var more := if r > 0 then states + [GreedyEntry(pc, top, fr, r)] else states;
            Yields(m, Run(e, top, fr, more), [top] + BackList(top, k, r), e, fr, states)
  {
    hide Reach, Yields, GetU32, Signed;
    var more := if r > 0 then states + [GreedyEntry(pc, top, fr, r)] else states;
    YieldsOne(m, top, e, fr, more);
    if r > 0 {
      GreedyBack(m, pc, top, fr, r, k, e, states);
    } else {
      YieldsNone(m, e, fr, states);
    }
    YieldsAppend(m, Run(e, top, fr, more), [top], BackList(top, k, r), e, fr, more, states);
  }
}
