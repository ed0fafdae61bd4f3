/** Compiling a pattern and searching with it: what a match is, told in words of the pattern. */
module ReSearch {
  import opened ReSyntax
  import opened ReText
  import opened ReReading
  import opened ReUnique
  import opened ReGreedy
  import opened ReMeaning
  import ReMachine
  import opened ReTheorem
  import opened ReCompile
  import opened ReExec

  /** The pattern the text means is one whose search ends, and its program is not too long. */
  ghost predicate Searchable(pattern: seq<byte>, dotall: bool, sticky: bool) {
    forall re :: Means(pattern, re, dotall) ==> Advancing(re) && |Program(re, sticky)| < 0x8000_0000
  }

  /** A word of re starts at k, and the search may look there. */
  ghost predicate StartsAt(re: Re, s: seq<byte>, cindex: nat, sticky: bool, k: nat) {
    cindex <= k <= |s| && (sticky ==> k == cindex) && exists e :: k <= e <= |s| && Word(re, Part(s, k, e))
  }

  lemma StartIff(re: Re, s: seq<byte>, cindex: nat, sticky: bool, j: nat)
    requires Advancing(re)
    ensures StartsAt(re, s, cindex, sticky, j)
            <==> cindex <= j <= |s| && (sticky ==> j == cindex) && Ends(re, s, j) != []
  {
    hide Word, Ends;
    if j <= |s| { Matching(re, s, j); }
  }

  /** The search finds the first position at which a word starts. */
  lemma FirstMatchIs(re: Re, s: seq<byte>, cindex: nat, sticky: bool)
    requires Advancing(re) && cindex <= |s|
    ensures var k := FirstMatch(re, s, cindex, sticky);
            && (k == -1 ==> forall j: nat :: !StartsAt(re, s, cindex, sticky, j))
            && (k != -1 ==> StartsAt(re, s, cindex, sticky, k))
            && (k != -1 ==> forall j: nat :: j < k ==> !StartsAt(re, s, cindex, sticky, j))
  {
    hide Ends, StartsAt;
    var k := FirstMatch(re, s, cindex, sticky);
    forall j: nat
      ensures StartsAt(re, s, cindex, sticky, j)
              <==> cindex <= j <= |s| && (sticky ==> j == cindex) && Ends(re, s, j) != []
    {
      StartIff(re, s, cindex, sticky, j);
    }
  }

  lemma Matching(re: Re, s: seq<byte>, j: nat)
    requires Advancing(re) && j <= |s|
    ensures Ends(re, s, j) != [] <==> exists e :: j <= e <= |s| && Word(re, Part(s, j, e))
  {
    hide Word, Ends;
    if Ends(re, s, j) != [] { EndsAreWords(re, s, j, Ends(re, s, j)[0]); }
    if e :| j <= e <= |s| && Word(re, Part(s, j, e)) { EndsAreWords(re, s, j, e); }
  }

  /** Compiles a text and searches with the program from cindex on. */
  method Search(pattern: seq<byte>, dotall: bool, sticky: bool, subject: seq<byte>, cindex: nat)
    returns (st: Status, matched: bool, start: int, end: int, ghost re: Re)
    requires cindex <= |subject| && Searchable(pattern, dotall, sticky)
    ensures st.Parsed? <==> exists w :: Means(pattern, w, dotall)
    ensures st.Parsed? ==> Means(pattern, re, dotall)
    ensures st.Parsed? ==> (matched <==> exists k: nat :: StartsAt(re, subject, cindex, sticky, k))
    ensures st.Parsed? && matched ==>
              && cindex <= start <= end <= |subject| && (sticky ==> start == cindex)
              && Word(re, Part(subject, start, end))
              && Ends(re, subject, start) != [] && end == Ends(re, subject, start)[0]
              && forall j: nat :: j < start ==> !StartsAt(re, subject, cindex, sticky, j)
  {
    hide Program, Ends, Word, Means, FirstMatch;
    var code;
    st, code, re := LreCompile(pattern, dotall, sticky);
    matched, start, end := false, -1, -1;
    if st.Parsed? {
      FirstMatchIs(re, subject, cindex, sticky);
      matched, start, end := LreExec(code, subject, cindex, re, sticky);
      if matched { Preferred(re, subject, start); }
    }
  }

  lemma Preferred(re: Re, s: seq<byte>, k: nat)
    requires Advancing(re) && k <= |s|
    ensures Ends(re, s, k) != [] ==> k <= Ends(re, s, k)[0] <= |s| && Word(re, Part(s, k, Ends(re, s, k)[0]))
  {
    hide Word, Ends;
    if Ends(re, s, k) != [] { EndsAreWords(re, s, k, Ends(re, s, k)[0]); }
  }

  // Two patterns

  lemma {:induction false} ProgramLength(re: Re, sticky: bool)
    ensures |Program(re, sticky)| <= |Code(re)| + 16
  {
    hide Code, Program;
    ProgramParts(ReMachine.Machine(Program(re, sticky), []), re, sticky);
  }

  /** A pattern that a text means is searchable if it is. */
  lemma OnlyThis(pattern: seq<byte>, re: Re, dotall: bool, sticky: bool)
    requires Means(pattern, re, dotall) && Advancing(re) && |Code(re)| < 0x7fff_0000
    ensures Searchable(pattern, dotall, sticky) && forall w :: Means(pattern, w, dotall) ==> w == re
  {
    hide Means, Program, Code;
    ProgramLength(re, sticky);
    forall w | Means(pattern, w, dotall) ensures w == re { OneMeaning(pattern, w, re, dotall); }
  }

  lemma AfterEmpty(a: Re, s: seq<byte>, i: nat)
    ensures Ends(Cat(Empty, a), s, i) == Ends(a, s, i)
  {
    EndsThen(Empty, a, s, i);
    assert Ends(Empty, s, i) == [i];
    FlatSingle(Then(a, s), i);
  }

  /** A dot, on one byte: without the dotAll flag it matches every byte but 10 and 13, with it every byte. */
  method SearchDot(b: byte, dotall: bool, sticky: bool) returns (matched: bool)
    ensures matched <==> dotall || (b != 10 && b != 13)
  {
    hide Means, Word, Ends, StartsAt, Searchable;
    ghost var re0 := Cat(Empty, Dot(dotall));
    OtherTexts(97, 97, dotall);
    DotCode(dotall);
    OnlyThis([46], re0, dotall, sticky);
    var st, start, end;
    ghost var re;
    st, matched, start, end, re := Search([46], dotall, sticky, [b], 0);
    DotStarts(b, dotall, sticky);
  }

  lemma DotCode(dotall: bool)
    ensures |Code(Cat(Empty, Dot(dotall)))| == 1 && Advancing(Cat(Empty, Dot(dotall)))
  {
  }

  lemma DotStarts(b: byte, dotall: bool, sticky: bool)
    ensures var re := Cat(Empty, Dot(dotall));
            (exists k: nat :: StartsAt(re, [b], 0, sticky, k)) <==> dotall || (b != 10 && b != 13)
  {
    hide StartsAt, Ends;
    var re := Cat(Empty, Dot(dotall));
    DotCode(dotall);
    forall k: nat ensures StartsAt(re, [b], 0, sticky, k) <==> k == 0 && (dotall || (b != 10 && b != 13)) {
      StartIff(re, [b], 0, sticky, k);
      AfterEmpty(Dot(dotall), [b], k);
      DotEnds([b], k);
    }
    var zero: nat := 0;
    assert StartsAt(re, [b], 0, sticky, zero) <==> dotall || (b != 10 && b != 13);
  }

  /** A counted character, on a text of m of them: the count is read as a decimal number. */
  method SearchCount(c: byte, n: nat, m: nat) returns (matched: bool, end: int)
    requires !Special(c) && c != 123 && n < INF
    ensures matched <==> m >= n
    ensures matched ==> end == n
  {
    hide Means, Word, Ends, StartsAt, Searchable, Decimal;
    var pattern := [c] + ([123] + Decimal(n) + [125]);
    ghost var u := [123] + Decimal(n) + [125];
    ghost var re0 := Repeated(c, n, n, true, u);
    Exactly(c, n, true, false);
    CountCode(c, n, u);
    OnlyThis(pattern, re0, false, true);
    var subject := seq(m, _ => c);
    var st, start;
    ghost var re;
    st, matched, start, end, re := Search(pattern, false, true, subject, 0);
    CountStarts(c, n, u, subject);
  }

  lemma CountCode(c: byte, n: nat, u: seq<byte>)
    requires n < INF
    ensures var re := Repeated(c, n, n, true, u); |Code(re)| <= 21 && Advancing(re)
  {
    hide Code, SimpleScan;
    var q := Quantifier(n, n, true, u);
    CharCode(c);
    CodeQuant(Chr(c), q);
    EmptyCode(Quant(Chr(c), q));
    assert MinLen(Chr(c)) == 1 && Advancing(Chr(c));
    assert Advancing(Quant(Chr(c), q));
  }

  lemma CharCode(c: byte)
    ensures |Code(Chr(c))| == 3 && SimpleScan(Code(Chr(c))) == 1
  {
    ScanChar(c, []);
    assert [CHAR] + U16(c) + [] == Code(Chr(c));
  }

  lemma EmptyCode(re: Re)
    ensures Code(Cat(Empty, re)) == Code(re)
  {
    assert [] + Code(re) == Code(re);
  }

  lemma CountStarts(c: byte, n: nat, u: seq<byte>, s: seq<byte>)
    requires n < INF && forall x :: 0 <= x < |s| ==> s[x] == c
    ensures var re := Repeated(c, n, n, true, u);
            && ((exists k: nat :: StartsAt(re, s, 0, true, k)) <==> |s| >= n)
            && (Ends(re, s, 0) != [] ==> Ends(re, s, 0)[0] == n)
  {
    hide StartsAt, Ends, Code, Ordered;
    var q := Quantifier(n, n, true, u);
    var re := Repeated(c, n, n, true, u);
    CountCode(c, n, u);
    AfterEmpty(Quant(Chr(c), q), s, 0);
    CharacterRun(c, q, s, 0);
    var l := Ends(re, s, 0);
    if |s| >= n { assert n in l; }
    if l != [] { assert l[0] in l; }
    forall k: nat ensures StartsAt(re, s, 0, true, k) <==> k == 0 && |s| >= n { StartIff(re, s, 0, true, k); }
    var zero: nat := 0;
    assert StartsAt(re, s, 0, true, zero) <==> |s| >= n;
  }
}
