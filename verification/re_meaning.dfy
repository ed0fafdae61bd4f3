/** The meaning of patterns told without lists: which words a pattern has, and which of its matches comes first. */
module ReMeaning {
  import opened ReSyntax
  import opened ReCorrect
  import opened ReGreedy
  import opened ReMachine

  // The words of a pattern

  ghost predicate Word(re: Re, w: seq<byte>)
    decreases re, 0, 0
  {
    match re
    case Empty => w == []
    case Chr(c) => w == [c]
    case Dot(any) => |w| == 1 && (any || (w[0] != 10 && w[0] != 13))
    case Cat(a, b) => exists k :: 0 <= k <= |w| && Word(a, w[..k]) && Word(b, w[k..])
    case Alt(a, b) => Word(a, w) || Word(b, w)
    case Group(a) => Word(a, w)
    case Quant(a, q) => exists n: nat :: q.min <= n && (q.max == INF || n <= q.max) && Times(a, w, n)
  }

  /** w is n words of a, one after another. */
  ghost predicate Times(a: Re, w: seq<byte>, n: nat)
    decreases a, 1, n
  {
    if n == 0 then w == [] else exists k :: 0 <= k <= |w| && Word(a, w[..k]) && Times(a, w[k..], n - 1)
  }

  /** The part of s from i up to e. */
  function Part(s: seq<byte>, i: nat, e: nat): seq<byte> {
    if i <= e <= |s| then s[i..e] else []
  }

  lemma PartCut(s: seq<byte>, i: nat, j: nat, e: nat)
    requires i <= j <= e <= |s|
    ensures Part(s, i, e)[..j - i] == Part(s, i, j) && Part(s, i, e)[j - i..] == Part(s, j, e)
  {
  }

  lemma {:induction false} FlatHas(f: nat -> seq<nat>, l: seq<nat>, e: nat)
    ensures e in Flat(f, l) <==> exists x :: 0 <= x < |l| && e in f(l[x])
  {
    if l != [] {
      FlatHas(f, l[1..], e);
      if x :| 0 <= x < |l[1..]| && e in f(l[1..][x]) { assert l[x + 1] == l[1..][x]; }
      if x :| 0 <= x < |l| && e in f(l[x]) && x > 0 { assert l[1..][x - 1] == l[x]; }
    }
  }

  /** A match of a pattern from i to e is a word of it. */
  lemma {:induction false} EndsAreWords(re: Re, s: seq<byte>, i: nat, e: nat)
    requires Advancing(re) && i <= |s|
    ensures e in Ends(re, s, i) <==> i <= e <= |s| && Word(re, Part(s, i, e))
    decreases re, 2, 0
  {
    match re
    case Empty =>
    case Chr(c) => LeafWords(re, s, i, e);
    case Dot(any) => LeafWords(re, s, i, e);
    case Cat(a, b) => CatWords(a, b, s, i, e);
    case Alt(a, b) =>
      EndsAreWords(a, s, i, e);
      EndsAreWords(b, s, i, e);
    case Group(a) => EndsAreWords(a, s, i, e);
    case Quant(a, q) => QuantWords(a, q, s, i, e);
  }

  lemma LeafWords(re: Re, s: seq<byte>, i: nat, e: nat)
    requires i <= |s| && (re.Chr? || re.Dot?)
    ensures e in Ends(re, s, i) <==> i <= e <= |s| && Word(re, Part(s, i, e))
  {
    if i < e <= |s| { assert Part(s, i, e)[0] == s[i]; }
  }

  lemma EndIn(re: Re, s: seq<byte>, i: nat, e: nat)
    requires i <= |s| && e in Ends(re, s, i)
    ensures i + MinLen(re) <= e <= |s|
  {
    EndsWithin(re, s, i);
  }

  lemma {:induction false} CatWords(a: Re, b: Re, s: seq<byte>, i: nat, e: nat)
    requires Advancing(a) && Advancing(b) && i <= |s|
    ensures e in Ends(Cat(a, b), s, i) <==> i <= e <= |s| && Word(Cat(a, b), Part(s, i, e))
    decreases Cat(a, b), 1, 0
  {
    hide Ends, Word, Advancing;
    CatUnfold(a, b, s, i, e);
    var l := Ends(a, s, i);
    if e in Ends(Cat(a, b), s, i) {
      var x :| 0 <= x < |l| && e in Ends(b, s, l[x]);
      EndIn(a, s, i, l[x]);
      EndIn(b, s, l[x], e);
      EndsAreWords(a, s, i, l[x]);
      EndsAreWords(b, s, l[x], e);
      PartCut(s, i, l[x], e);
      assert Word(a, Part(s, i, e)[..l[x] - i]) && Word(b, Part(s, i, e)[l[x] - i..]);
    }
    if k :| i <= e <= |s| && 0 <= k <= e - i && Word(a, Part(s, i, e)[..k]) && Word(b, Part(s, i, e)[k..]) {
      PartCut(s, i, i + k, e);
      EndsAreWords(a, s, i, i + k);
      EndsAreWords(b, s, i + k, e);
    }
  }

  lemma CatUnfold(a: Re, b: Re, s: seq<byte>, i: nat, e: nat)
    ensures var l := Ends(a, s, i); e in Ends(Cat(a, b), s, i) <==> exists x :: 0 <= x < |l| && e in Ends(b, s, l[x])
    ensures i <= e <= |s| ==>
              (Word(Cat(a, b), Part(s, i, e)) <==>
                 exists k :: 0 <= k <= e - i && Word(a, Part(s, i, e)[..k]) && Word(b, Part(s, i, e)[k..]))
  {
    hide Ends;
    EndsThen(a, b, s, i);
    FlatHas(Then(b, s), Ends(a, s, i), e);
  }

  /** The continuation of a sequence behind its first part. */
  function Then(b: Re, s: seq<byte>): nat -> seq<nat> {
    j => Ends(b, s, j)
  }

  lemma EndsThen(a: Re, b: Re, s: seq<byte>, i: nat)
    ensures Ends(Cat(a, b), s, i) == Flat(Then(b, s), Ends(a, s, i))
  {
    FlatSame(Then(b, s), (j: nat) => Ends(b, s, j), Ends(a, s, i));
  }

  /** Repetitions, joined. */
  lemma {:induction false} TimesAdd(a: Re, u: seq<byte>, v: seq<byte>, m: nat, n: nat)
    requires Times(a, u, m) && Times(a, v, n)
    ensures Times(a, u + v, m + n)
    decreases m
  {
    hide Word;
    if m == 0 {
      assert u + v == v;
    } else {
      var k :| 0 <= k <= |u| && Word(a, u[..k]) && Times(a, u[k..], m - 1);
      TimesAdd(a, u[k..], v, m - 1, n);
      assert (u + v)[..k] == u[..k] && (u + v)[k..] == u[k..] + v;
    }
  }

  /** ... and taken apart. */
  lemma {:induction false} TimesSplit(a: Re, w: seq<byte>, m: nat, n: nat) returns (k: nat)
    requires Times(a, w, m + n)
    ensures k <= |w| && Times(a, w[..k], m) && Times(a, w[k..], n)
    decreases m
  {
    hide Word;
    if m == 0 {
      k := 0;
      assert w[0..] == w;
    } else {
      var j :| 0 <= j <= |w| && Word(a, w[..j]) && Times(a, w[j..], m + n - 1);
      var r := TimesSplit(a, w[j..], m - 1, n);
      k := j + r;
      assert w[..k][..j] == w[..j] && w[..k][j..] == w[j..][..r] && w[k..] == w[j..][r..];
    }
  }

  /** Exactly n repetitions. */
  lemma {:induction false} RepeatIsTimes(a: Re, s: seq<byte>, i: nat, n: nat, e: nat)
    requires Advancing(a) && i <= |s| && e in Repeat(a, s, i, n)
    ensures i <= e <= |s| && Times(a, Part(s, i, e), n)
    decreases a, 3, n
  {
    hide Ends, Word, Advancing, Times, Repeat;
    NoTimes(a, s, i, e);
    RepeatHas(a, s, i, n, e);
    if n > 0 {
      var l := Ends(a, s, i);
      var x :| 0 <= x < |l| && e in Repeat(a, s, l[x], n - 1);
      EndIn(a, s, i, l[x]);
      EndsAreWords(a, s, i, l[x]);
      RepeatIsTimes(a, s, l[x], n - 1, e);
      PartCut(s, i, l[x], e);
      TimesMore(a, Part(s, i, e), l[x] - i, n - 1);
    }
  }

  lemma {:induction false} TimesIsRepeat(a: Re, s: seq<byte>, i: nat, n: nat, e: nat)
    requires Advancing(a) && i <= e <= |s| && Times(a, Part(s, i, e), n)
    ensures e in Repeat(a, s, i, n)
    decreases a, 3, n
  {
    hide Ends, Word, Advancing, Times, Repeat;
    NoTimes(a, s, i, e);
    if n > 0 {
      var k := FirstWord(a, s, i, e, n);
      TimesIsRepeat(a, s, i + k, n - 1, e);
    }
    RepeatHas(a, s, i, n, e);
  }

  lemma RepeatHas(a: Re, s: seq<byte>, i: nat, n: nat, e: nat)
    ensures var l := Ends(a, s, i);
            e in Repeat(a, s, i, n)
            <==> if n == 0 then e == i else exists x :: 0 <= x < |l| && e in Repeat(a, s, l[x], n - 1)
  {
    hide Ends;
    if n > 0 { FlatHas(j => Repeat(a, s, j, n - 1), Ends(a, s, i), e); }
  }

  /** The first of several words from i to e is a match of a, and the others stand behind it. */
  lemma {:induction false} FirstWord(a: Re, s: seq<byte>, i: nat, e: nat, n: nat) returns (k: nat)
    requires Advancing(a) && i <= e <= |s| && n > 0 && Times(a, Part(s, i, e), n)
    ensures i + k <= e && i + k in Ends(a, s, i) && Times(a, Part(s, i + k, e), n - 1)
    decreases a, 3, 0
  {
    hide Ends, Word, Advancing, Times;
    k := TimesFirst(a, Part(s, i, e), n);
    PartCut(s, i, i + k, e);
    EndsAreWords(a, s, i, i + k);
  }

  /** Up to n repetitions, or any number of them. */
  ghost predicate SomeTimes(a: Re, w: seq<byte>, n: nat) {
    exists t: nat :: (n == INF || t <= n) && Times(a, w, t)
  }

  lemma {:induction false} UpToIsWord(a: Re, s: seq<byte>, i: nat, n: nat, greedy: bool, e: nat)
    requires Advancing(a) && MinLen(a) >= 1 && i <= |s| && n <= INF && e in UpTo(a, s, i, n, greedy)
    ensures i <= e <= |s| && SomeTimes(a, Part(s, i, e), n)
    decreases a, 3, |s| - i
  {
    hide Ends, Word, Advancing, Times, UpTo;
    NoTimes(a, s, i, e);
    UpToHas(a, s, i, n, greedy, e);
    if e == i {
      assert Times(a, Part(s, i, e), 0);
    } else {
      var l, less := Ends(a, s, i), Less(n);
      var x :| 0 <= x < |l| && e in UpTo(a, s, l[x], less, greedy);
      EndIn(a, s, i, l[x]);
      UpToIsWord(a, s, l[x], less, greedy, e);
      var t: nat :| (less == INF || t <= less) && Times(a, Part(s, l[x], e), t);
      EndsAreWords(a, s, i, l[x]);
      PartCut(s, i, l[x], e);
      TimesMore(a, Part(s, i, e), l[x] - i, t);
      assert n == INF || t + 1 <= n;
    }
  }

  lemma {:induction false} WordIsUpTo(a: Re, s: seq<byte>, i: nat, n: nat, greedy: bool, e: nat, t: nat)
    requires Advancing(a) && MinLen(a) >= 1 && i <= e <= |s| && (n == INF || t <= n) && Times(a, Part(s, i, e), t)
    ensures e in UpTo(a, s, i, n, greedy)
    decreases a, 3, t
  {
    hide Ends, Word, Advancing, Times, UpTo;
    NoTimes(a, s, i, e);
    if t > 0 {
      var k := FirstWord(a, s, i, e, t);
      WordIsUpTo(a, s, i + k, Less(n), greedy, e, t - 1);
    }
    UpToHas(a, s, i, n, greedy, e);
  }

  lemma NoTimes(a: Re, s: seq<byte>, i: nat, e: nat)
    requires i <= |s|
    ensures i <= e <= |s| ==> (Times(a, Part(s, i, e), 0) <==> e == i)
  {
    if i <= e <= |s| { assert |Part(s, i, e)| == e - i; }
  }

  lemma TimesMore(a: Re, w: seq<byte>, k: nat, t: nat)
    requires k <= |w| && Word(a, w[..k]) && Times(a, w[k..], t)
    ensures Times(a, w, t + 1)
  {
  }

  lemma TimesFirst(a: Re, w: seq<byte>, t: nat) returns (k: nat)
    requires t > 0 && Times(a, w, t)
    ensures k <= |w| && Word(a, w[..k]) && Times(a, w[k..], t - 1)
  {
    k :| 0 <= k <= |w| && Word(a, w[..k]) && Times(a, w[k..], t - 1);
  }

  lemma UpToHas(a: Re, s: seq<byte>, i: nat, n: nat, greedy: bool, e: nat)
    requires MinLen(a) >= 1 && i <= |s|
    ensures var l := Ends(a, s, i);
            e in UpTo(a, s, i, n, greedy)
            <==> e == i || (n > 0 && exists x :: 0 <= x < |l| && e in UpTo(a, s, l[x], Less(n), greedy))
  {
    hide Ends;
    if n > 0 {
      var l := Ends(a, s, i);
      UpToUnfold(a, s, i, n, greedy);
      FlatHas(More(a, s, i, n, greedy), l, e);
      forall x | 0 <= x < |l| ensures More(a, s, i, n, greedy)(l[x]) == UpTo(a, s, l[x], Less(n), greedy) {
        EndIn(a, s, i, l[x]);
      }
    }
  }

  lemma {:induction false} QuantIsWord(a: Re, q: Quantifier, s: seq<byte>, i: nat, e: nat)
    requires Advancing(Quant(a, q)) && i <= |s| && q.max > 0 && e in Ends(Quant(a, q), s, i)
    ensures i <= e <= |s| && Word(Quant(a, q), Part(s, i, e))
    decreases Quant(a, q), 0, 0
  {
    hide Repeat, UpTo, Times, Ends, Word, Advancing, SomeTimes, Part;
    AdvancingQuant(a, q);
    var n := if q.max == INF then INF else q.max - q.min;
    var l := Repeat(a, s, i, q.min);
    QuantHas(a, q, n, s, i, e);
    var x :| 0 <= x < |l| && e in UpTo(a, s, l[x], n, q.greedy);
    RepeatIsTimes(a, s, i, q.min, l[x]);
    UpToIsWord(a, s, l[x], n, q.greedy, e);
    var t := Some(a, Part(s, l[x], e), n);
    TimesAdd(a, Part(s, i, l[x]), Part(s, l[x], e), q.min, t);
    PartJoin(s, i, l[x], e);
    QuantWord(a, q, Part(s, i, e), q.min + t);
  }

  lemma AdvancingQuant(a: Re, q: Quantifier)
    requires Advancing(Quant(a, q))
    ensures Advancing(a) && MinLen(a) >= 1 && q.min <= q.max <= INF
  {
  }

  lemma Some(a: Re, w: seq<byte>, n: nat) returns (t: nat)
    requires SomeTimes(a, w, n)
    ensures (n == INF || t <= n) && Times(a, w, t)
  {
    t :| (n == INF || t <= n) && Times(a, w, t);
  }

  lemma WordTimes(a: Re, q: Quantifier, w: seq<byte>) returns (t: nat)
    requires Word(Quant(a, q), w)
    ensures q.min <= t && (q.max == INF || t <= q.max) && Times(a, w, t)
  {
    t :| q.min <= t && (q.max == INF || t <= q.max) && Times(a, w, t);
  }

  lemma PartJoin(s: seq<byte>, i: nat, j: nat, e: nat)
    requires i <= j <= e <= |s|
    ensures Part(s, i, j) + Part(s, j, e) == Part(s, i, e)
  {
  }

  lemma PartLength(s: seq<byte>, i: nat, e: nat)
    requires i <= e <= |s|
    ensures |Part(s, i, e)| == e - i
  {
  }

  lemma QuantWord(a: Re, q: Quantifier, w: seq<byte>, n: nat)
    requires q.min <= n && (q.max == INF || n <= q.max) && Times(a, w, n)
    ensures Word(Quant(a, q), w)
  {
  }

  lemma {:induction false} WordIsQuant(a: Re, q: Quantifier, s: seq<byte>, i: nat, e: nat)
    requires Advancing(Quant(a, q)) && i <= e <= |s| && q.max > 0 && Word(Quant(a, q), Part(s, i, e))
    ensures e in Ends(Quant(a, q), s, i)
    decreases Quant(a, q), 0, 0
  {
    hide Repeat, UpTo, Times, Ends, Word, Advancing, SomeTimes, Part;
    AdvancingQuant(a, q);
    var n := if q.max == INF then INF else q.max - q.min;
    var t := WordTimes(a, q, Part(s, i, e));
    var l := Repeat(a, s, i, q.min);
    QuantHas(a, q, n, s, i, e);
    PartLength(s, i, e);
    var k := TimesSplit(a, Part(s, i, e), q.min, t - q.min);
    PartCut(s, i, i + k, e);
    TimesIsRepeat(a, s, i, q.min, i + k);
    WordIsUpTo(a, s, i + k, n, q.greedy, e, t - q.min);
    var x :| 0 <= x < |l| && l[x] == i + k;
  }

  lemma QuantHas(a: Re, q: Quantifier, n: nat, s: seq<byte>, i: nat, e: nat)
    requires q.max > 0 && q.min <= q.max && n == if q.max == INF then INF else q.max - q.min
    ensures var l := Repeat(a, s, i, q.min);
            e in Ends(Quant(a, q), s, i) <==> exists x :: 0 <= x < |l| && e in UpTo(a, s, l[x], n, q.greedy)
  {
    hide Repeat, UpTo, Ends;
    EndsQuant(a, q, n, s, i);
    FlatHas(Rest(a, s, n, q.greedy), Repeat(a, s, i, q.min), e);
  }

  lemma {:induction false} QuantWords(a: Re, q: Quantifier, s: seq<byte>, i: nat, e: nat)
    requires Advancing(Quant(a, q)) && i <= |s|
    ensures e in Ends(Quant(a, q), s, i) <==> i <= e <= |s| && Word(Quant(a, q), Part(s, i, e))
    decreases Quant(a, q), 1, 0
  {
    if q.max > 0 {
      hide Ends, Word;
      if e in Ends(Quant(a, q), s, i) { QuantIsWord(a, q, s, i, e); }
      if i <= e <= |s| && Word(Quant(a, q), Part(s, i, e)) { WordIsQuant(a, q, s, i, e); }
    } else {
      NoTimes(a, s, i, e);
    }
  }

  // Which match comes first

  /** A dot matches one byte other than the line terminators 10 and 13. */
  lemma DotEnds(s: seq<byte>, i: nat)
    ensures Ends(Dot(false), s, i) == if i < |s| && s[i] != 10 && s[i] != 13 then [i + 1] else []
    ensures Ends(Dot(true), s, i) == if i < |s| then [i + 1] else []
  {
  }

  /** The matches of the first alternative come before those of the second. */
  lemma AltFirst(a: Re, b: Re, s: seq<byte>, i: nat)
    ensures var l := Ends(Alt(a, b), s, i);
            && (Ends(a, s, i) != [] ==> l != [] && l[0] == Ends(a, s, i)[0])
            && (Ends(a, s, i) == [] ==> l == Ends(b, s, i))
  {
  }

  /**
   * The first match of a sequence: of the first part's matches, in order, the first behind which the second matches.
   */
  lemma CatFirst(a: Re, b: Re, s: seq<byte>, i: nat)
    requires Ends(Cat(a, b), s, i) != []
    ensures var l := Ends(a, s, i);
            exists x :: 0 <= x < |l| && Ends(b, s, l[x]) != [] && Ends(Cat(a, b), s, i)[0] == Ends(b, s, l[x])[0]
              && forall y :: 0 <= y < x ==> Ends(b, s, l[y]) == []
  {
    EndsThen(a, b, s, i);
    FlatFirst(Then(b, s), Ends(a, s, i));
  }

  lemma {:induction false} FlatFirst(f: nat -> seq<nat>, l: seq<nat>)
    requires Flat(f, l) != []
    ensures exists x :: 0 <= x < |l| && f(l[x]) != [] && Flat(f, l)[0] == f(l[x])[0] && forall y :: 0 <= y < x ==>
              f(l[y]) == []
  {
    if f(l[0]) != [] {
      assert 0 < |l| && f(l[0]) != [] && Flat(f, l)[0] == f(l[0])[0];
    } else {
      FlatFirst(f, l[1..]);
      var x :| 0 <= x < |l[1..]| && f(l[1..][x]) != [] && Flat(f, l[1..])[0] == f(l[1..][x])[0]
               && forall y :: 0 <= y < x ==> f(l[1..][y]) == [];
      forall y | 0 <= y < x + 1 ensures f(l[y]) == [] { if y > 0 { assert l[1..][y - 1] == l[y]; } }
      assert l[x + 1] == l[1..][x];
    }
  }

  /** Strictly falling if greedy, strictly rising if lazy. */
  ghost predicate Ordered(l: seq<nat>, greedy: bool) {
    forall x, y :: 0 <= x < y < |l| ==> if greedy then l[x] > l[y] else l[x] < l[y]
  }

  lemma {:induction false} UpToOrder(a: Re, s: seq<byte>, i: nat, k: nat, n: nat, greedy: bool)
    requires FixedWidth(a, s, k) && i <= |s|
    ensures Ordered(UpTo(a, s, i, n, greedy), greedy) && Within(UpTo(a, s, i, n, greedy), i, |s|)
    decreases |s| - i
  {
    hide FixedWidth, Ends;
    UpToWithin(a, s, i, n, greedy);
    if n > 0 {
      FixedAt(a, s, k, i);
      UpToUnfold(a, s, i, n, greedy);
      var f := More(a, s, i, n, greedy);
      if Ends(a, s, i) != [] {
        FlatSingle(f, i + k);
        UpToOrder(a, s, i + k, k, Less(n), greedy);
        assert f(i + k) == UpTo(a, s, i + k, Less(n), greedy);
      }
    }
  }

  /**
   * Over an atom of fixed width, a greedy quantifier tries the longest match first and goes down, a lazy one goes up.
   */
  lemma QuantOrder(a: Re, q: Quantifier, s: seq<byte>, i: nat, k: nat)
    requires FixedWidth(a, s, k) && i <= |s| && q.min <= q.max <= INF
    ensures Ordered(Ends(Quant(a, q), s, i), q.greedy)
  {
    hide FixedWidth, UpTo, Repeat, Matches;
    if q.max > 0 {
      hide Ends;
      var n := if q.max == INF then INF else q.max - q.min;
      EndsQuant(a, q, n, s, i);
      RepeatIsOne(a, s, i, k, q.min, q.max);
      var j := i + q.min * k;
      FlatSingle(Rest(a, s, n, q.greedy), j);
      if Repeat(a, s, i, q.min) != [] { UpToOrder(a, s, j, k, n, q.greedy); }
    }
  }

  lemma {:induction false} TimesChr(c: byte, w: seq<byte>, n: nat)
    ensures Times(Chr(c), w, n) <==> |w| == n && forall x :: 0 <= x < |w| ==> w[x] == c
  {
    if n > 0 {
      if |w| > 0 {
        TimesChr(c, w[1..], n - 1);
        assert forall x :: 0 < x < |w| ==> w[x] == w[1..][x - 1];
      }
      if k :| 0 <= k <= |w| && Word(Chr(c), w[..k]) && Times(Chr(c), w[k..], n - 1) {
        assert k == 1 && w[..1][0] == w[0];
      }
      if |w| > 0 && w[0] == c { assert w[..1] == [c]; }
    }
  }

  /** A quantified character: as many of it as the bounds allow, the most first if greedy, the fewest if lazy. */
  lemma CharacterRun(c: byte, q: Quantifier, s: seq<byte>, i: nat)
    requires q.min <= q.max <= INF && i <= |s|
    ensures var l := Ends(Quant(Chr(c), q), s, i);
            && Ordered(l, q.greedy)
            && forall e: nat :: e in l <==>
                 && i + q.min <= e <= |s| && (q.max == INF || e <= i + q.max)
                 && forall x :: i <= x < e ==> s[x] == c
  {
    var re := Quant(Chr(c), q);
    SimpleIsFixedWidth(Chr(c), s);
    QuantOrder(Chr(c), q, s, i, 1);
    forall e: nat ensures e in Ends(re, s, i) <==>
        && i + q.min <= e <= |s| && (q.max == INF || e <= i + q.max) && forall x :: i <= x < e ==> s[x] == c
    {
      EndsAreWords(re, s, i, e);
      if i <= e <= |s| { RunWord(c, q, s, i, e); }
    }
  }

  lemma RunWord(c: byte, q: Quantifier, s: seq<byte>, i: nat, e: nat)
    requires i <= e <= |s|
    ensures Word(Quant(Chr(c), q), Part(s, i, e)) <==>
              i + q.min <= e && (q.max == INF || e <= i + q.max) && forall x :: i <= x < e ==> s[x] == c
  {
    hide Times;
    var w := Part(s, i, e);
    assert |w| == e - i && forall x :: i <= x < e ==> w[x - i] == s[x];
    if Word(Quant(Chr(c), q), w) {
      var n := WordTimes(Chr(c), q, w);
      TimesChr(c, w, n);
    }
    if i + q.min <= e && (q.max == INF || e <= i + q.max) && forall x :: i <= x < e ==> s[x] == c {
      assert forall x :: 0 <= x < |w| ==> w[x] == s[x + i];
      TimesChr(c, w, |w|);
      QuantWord(Chr(c), q, w, |w|);
    }
  }
}
