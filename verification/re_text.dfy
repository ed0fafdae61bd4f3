/** The text of patterns: how each is written, and which of the ways to read a text is meant. */
module ReText {
  import opened ReSyntax

  // ---- the text a pattern is written with -------------------------------

  function Show(re: Re): seq<byte> {
    match re
    case Empty => []
    case Chr(c) => [c]
    case Dot(_) => [46]
    case Cat(a, b) => Show(a) + Show(b)
    case Alt(a, b) => Show(a) + [124] + Show(b)
    case Group(a) => [40, 63, 58] + Show(a) + [41]
    case Quant(a, q) => Show(a) + ShowQuant(q)
  }

  function ShowQuant(q: Quantifier): seq<byte> {
    q.text + (if q.greedy then [] else [63])
  }

  predicate IsDigit(c: int) {
    48 <= c <= 57
  }

  predicate Digits(s: seq<byte>) {
    |s| > 0 && forall i :: 0 <= i < |s| ==> IsDigit(s[i])
  }

  /** The value of digits, clamped to INF (parse_digits). */
  function Number(s: seq<byte>): (n: nat)
    ensures n <= INF
  {
    if |s| == 0 then 0
    else
      var v := Number(s[..|s| - 1]) * 10 + (if IsDigit(s[|s| - 1]) then s[|s| - 1] - 48 else 0);
      if v >= INF then INF else v
  }

  /** text is a way to write the bounds min and max. */
  ghost predicate Bounds(text: seq<byte>, min: nat, max: nat) {
    || (text == [42] && min == 0 && max == INF)
    || (text == [43] && min == 1 && max == INF)
    || (text == [63] && min == 0 && max == 1)
    || (exists d :: Digits(d) && text == [123] + d + [125] && min == max == Number(d))
    || (exists d :: Digits(d) && text == [123] + d + [44, 125] && min == Number(d) && max == INF)
    || (exists d, e ::
          && Digits(d) && Digits(e) && text == [123] + d + [44] + e + [125]
          && min == Number(d) && max == Number(e))
  }

  /** Characters that are not plain pattern characters here. */
  predicate Special(c: int) {
    c in {36, 40, 41, 42, 43, 46, 63, 91, 92, 94, 124} || c >= 128
  }

  ghost predicate IsAtom(re: Re, any: bool)
    decreases re, 0
  {
    match re
    case Chr(c) => !Special(c)
    case Dot(x) => x == any
    case Group(a) => IsDisjunction(a, any)
    case _ => false
  }

  ghost predicate IsTerm(re: Re, any: bool)
    decreases re, 1
  {
    IsAtom(re, any) || (re.Quant? && IsAtom(re.atom, any) && Bounds(re.q.text, re.q.min, re.q.max)
                        && re.q.min <= re.q.max <= INF)
  }

  ghost predicate IsAlternative(re: Re, any: bool)
    decreases re, 2
  {
    re.Empty? || (re.Cat? && IsAlternative(re.first, any) && IsTerm(re.second, any))
  }

  ghost predicate IsDisjunction(re: Re, any: bool)
    decreases re, 3
  {
    IsAlternative(re, any) || (re.Alt? && IsDisjunction(re.left, any) && IsAlternative(re.right, any))
  }

  // ---- reading a text in only one way -----------------------------------

  /** s has the text u at p. */
  ghost predicate TextAt(u: seq<byte>, s: seq<byte>, p: nat) {
    p + |u| <= |s| && s[p..p + |u|] == u
  }

  /** A repetition count in braces starts at p. */
  ghost predicate BraceForm(s: seq<byte>, p: nat) {
    exists u, min, max :: BracesAt(u, min, max, s, p)
  }

  ghost predicate BracesAt(u: seq<byte>, min: nat, max: nat, s: seq<byte>, p: nat) {
    TextAt(u, s, p) && Bounds(u, min, max) && u[0] == 123
  }

  /** Bounds in the wrong order start at p, whether or not a closing brace follows. */
  ghost predicate BadCount(s: seq<byte>, p: nat) {
    exists d, e :: BadBounds(d, e, s, p)
  }

  ghost predicate BadBounds(d: seq<byte>, e: seq<byte>, s: seq<byte>, p: nat) {
    var end := p + 2 + |d| + |e|;
    && Digits(d) && Digits(e) && TextAt([123] + d + [44] + e, s, p) && (end >= |s| || !IsDigit(s[end]))
    && Number(e) < Number(d)
  }

  /**
   * A brace that starts a repetition count is not meant as a character, and no atom is followed by bounds in the wrong
   * order: the compiler refuses these before it looks for the closing brace.
   */
  ghost predicate Plain(re: Re, s: seq<byte>, p: nat) {
    match re
    case Empty => true
    case Chr(c) => (c == 123 ==> !BraceForm(s, p)) && !BadCount(s, p + 1)
    case Dot(_) => !BadCount(s, p + 1)
    case Cat(a, b) => Plain(a, s, p) && Plain(b, s, p + |Show(a)|)
    case Alt(a, b) => Plain(a, s, p) && Plain(b, s, p + |Show(a)| + 1)
    case Group(a) => Plain(a, s, p + 3) && !BadCount(s, p + |Show(re)|)
    case Quant(a, _) => Plain(a, s, p)
  }

  ghost predicate AtomAt(re: Re, s: seq<byte>, p: nat, any: bool) {
    IsAtom(re, any) && TextAt(Show(re), s, p) && Plain(re, s, p)
  }

  ghost predicate TermAt(re: Re, s: seq<byte>, p: nat, any: bool) {
    IsTerm(re, any) && TextAt(Show(re), s, p) && Plain(re, s, p)
  }

  ghost predicate AlternativeAt(re: Re, s: seq<byte>, p: nat, any: bool) {
    IsAlternative(re, any) && TextAt(Show(re), s, p) && Plain(re, s, p)
  }

  ghost predicate DisjunctionAt(re: Re, s: seq<byte>, p: nat, any: bool) {
    IsDisjunction(re, any) && TextAt(Show(re), s, p) && Plain(re, s, p)
  }

  /** The pattern that the whole text is meant as. */
  ghost predicate Means(s: seq<byte>, re: Re, any: bool) {
    DisjunctionAt(re, s, 0, any) && |Show(re)| == |s|
  }

  /** No quantifier starts at e. */
  ghost predicate NoQuantifier(s: seq<byte>, e: nat) {
    e >= |s| || (s[e] !in {42, 43, 63} && !BraceForm(s, e))
  }

  /** A sequence of terms ends at e. */
  predicate Stop(s: seq<byte>, e: nat) {
    e >= |s| || s[e] == 124 || s[e] == 41
  }

  /** A disjunction ends at e. */
  predicate Close(s: seq<byte>, e: nat) {
    e >= |s| || s[e] == 41
  }

  lemma TextCat(u: seq<byte>, v: seq<byte>, s: seq<byte>, p: nat)
    requires TextAt(u + v, s, p)
    ensures TextAt(u, s, p) && TextAt(v, s, p + |u|)
  {
    var w := s[p..p + |u + v|];
    assert w[..|u|] == u && w[|u|..] == v;
    assert s[p..p + |u|] == w[..|u|] && s[p + |u|..p + |u| + |v|] == w[|u|..];
  }

  lemma TextFirst(u: seq<byte>, s: seq<byte>, p: nat)
    requires TextAt(u, s, p) && u != []
    ensures p < |s| && s[p] == u[0]
  {
    assert s[p..p + |u|][0] == s[p];
  }

  /** An atom is told by its first character. */
  lemma AtomFirst(re: Re, s: seq<byte>, p: nat, any: bool)
    requires AtomAt(re, s, p, any)
    ensures p < |s| && !Stop(s, p) && s[p] !in {42, 43, 63} && (s[p] == 123 ==> !BraceForm(s, p))
    ensures s[p] == 46 <==> re == Dot(any)
    ensures s[p] == 40 <==> re.Group?
    ensures s[p] != 46 && s[p] != 40 ==> re == Chr(s[p]) && !Special(s[p])
  {
    hide BraceForm;
    TextFirst(Show(re), s, p);
  }

  lemma TermParts(re: Re, s: seq<byte>, p: nat, any: bool)
    requires TermAt(re, s, p, any)
    ensures AtomAt(if re.Quant? then re.atom else re, s, p, any)
    ensures re.Quant? ==>
              TextAt(ShowQuant(re.q), s, p + |Show(re.atom)|) && Bounds(re.q.text, re.q.min, re.q.max)
              && re.q.min <= re.q.max <= INF
    ensures !re.Quant? ==> IsAtom(re, any)
  {
    hide BraceForm, TextAt;
    if re.Quant? && !IsAtom(re, any) { TextCat(Show(re.atom), ShowQuant(re.q), s, p); }
  }

  lemma TermFirst(re: Re, s: seq<byte>, p: nat, any: bool)
    requires TermAt(re, s, p, any)
    ensures p < |s| && !Stop(s, p) && NoQuantifier(s, p)
  {
    hide Plain, IsTerm, BraceForm, TextAt;
    TermParts(re, s, p, any);
    var a := if re.Quant? then re.atom else re;
    AtomFirst(a, s, p, any);
    if BraceForm(s, p) { OnlyBraces(s, p); }
  }

  lemma OnlyBraces(s: seq<byte>, p: nat)
    requires BraceForm(s, p)
    ensures p < |s| && s[p] == 123
  {
    var u, min, max :| BracesAt(u, min, max, s, p);
    TextFirst(u, s, p);
  }

  lemma StopNoQuantifier(s: seq<byte>, e: nat)
    requires Stop(s, e)
    ensures NoQuantifier(s, e)
  {
    if BraceForm(s, e) { OnlyBraces(s, e); }
  }

  lemma AtomEnd(re: Re, s: seq<byte>, p: nat, any: bool)
    requires AtomAt(re, s, p, any)
    ensures !BadCount(s, p + |Show(re)|) && p + |Show(re)| <= |s|
  {
    hide BadCount, BraceForm;
  }

  // Repetition counts

  /** From p1 on, what the digits that start there end with. */
  ghost predicate DigitsTo(s: seq<byte>, p: nat, e: nat) {
    p <= e <= |s| && (forall i :: p <= i < e ==> IsDigit(s[i])) && (e >= |s| || !IsDigit(s[e]))
  }

  lemma DigitsEnd(d: seq<byte>, s: seq<byte>, p: nat, e: nat)
    requires TextAt(d, s, p) && Digits(d) && DigitsTo(s, p, e) && (p + |d| >= |s| || !IsDigit(s[p + |d|]))
    ensures e == p + |d| && s[p..e] == d
  {
    forall i | p <= i < p + |d| ensures s[i] == d[i - p] {
      assert s[p..p + |d|][i - p] == s[i];
    }
    assert forall i :: p <= i < p + |d| ==> IsDigit(s[i]);
  }

  /** A count in braces at p is what the scan finds: digits to p1, and perhaps a comma and digits to p2. */
  lemma BracesScan(u: seq<byte>, min: nat, max: nat, s: seq<byte>, p: nat, p1: nat, p2: nat)
    requires BracesAt(u, min, max, s, p) && DigitsTo(s, p + 1, p1)
             && (p1 < |s| && s[p1] == 44 ==> DigitsTo(s, p1 + 1, p2))
    ensures p + 1 < p1 < |s| && min == Number(s[p + 1..p1])
    ensures s[p1] == 125 || (s[p1] == 44 && p2 < |s| && s[p2] == 125)
    ensures s[p1] == 125 ==> |u| == p1 + 1 - p && max == min
    ensures s[p1] == 44 ==> |u| == p2 + 1 - p && max == if p2 == p1 + 1 then INF else Number(s[p1 + 1..p2])
  {
    hide Number, TextAt;
    TextFirst(u, s, p);
    if d :| Digits(d) && u == [123] + d + [125] && min == max == Number(d) {
      BracesOne(d, s, p, p1);
    } else if d :| Digits(d) && u == [123] + d + [44, 125] && min == Number(d) && max == INF {
      BracesOpen(d, s, p, p1, p2);
    } else {
      var d, e :| Digits(d) && Digits(e) && u == [123] + d + [44] + e + [125] && min == Number(d) && max == Number(e);
      BracesTwo(d, e, s, p, p1, p2);
    }
  }

  lemma BracesOne(d: seq<byte>, s: seq<byte>, p: nat, p1: nat)
    requires Digits(d) && TextAt([123] + d + [125], s, p) && DigitsTo(s, p + 1, p1)
    ensures p1 == p + 1 + |d| < |s| && s[p1] == 125 && s[p + 1..p1] == d
  {
    hide TextAt;
    TextCat([123] + d, [125], s, p);
    TextCat([123], d, s, p);
    TextFirst([125], s, p + 1 + |d|);
    DigitsEnd(d, s, p + 1, p1);
  }

  lemma BracesOpen(d: seq<byte>, s: seq<byte>, p: nat, p1: nat, p2: nat)
    requires Digits(d) && TextAt([123] + d + [44, 125], s, p) && DigitsTo(s, p + 1, p1)
    requires p1 < |s| && s[p1] == 44 ==> DigitsTo(s, p1 + 1, p2)
    ensures p1 == p + 1 + |d| && p1 + 1 < |s| && s[p1] == 44 && s[p + 1..p1] == d && p2 == p1 + 1 && s[p2] == 125
  {
    hide TextAt;
    TextCat([123] + d, [44, 125], s, p);
    TextCat([123], d, s, p);
    assert [44, 125] == [44] + [125];
    TextCat([44], [125], s, p + 1 + |d|);
    TextFirst([44], s, p + 1 + |d|);
    TextFirst([125], s, p + 2 + |d|);
    DigitsEnd(d, s, p + 1, p1);
  }

  lemma BracesTwo(d: seq<byte>, e: seq<byte>, s: seq<byte>, p: nat, p1: nat, p2: nat)
    requires Digits(d) && Digits(e) && TextAt([123] + d + [44] + e + [125], s, p) && DigitsTo(s, p + 1, p1)
    requires p1 < |s| && s[p1] == 44 ==> DigitsTo(s, p1 + 1, p2)
    ensures p1 == p + 1 + |d| && p1 < p2 < |s| && s[p1] == 44 && s[p + 1..p1] == d
    ensures p2 == p1 + 1 + |e| && s[p1 + 1..p2] == e && s[p2] == 125
  {
    hide TextAt;
    TextCat([123] + d + [44] + e, [125], s, p);
    TextCat([123] + d + [44], e, s, p);
    TextCat([123] + d, [44], s, p);
    TextCat([123], d, s, p);
    TextFirst([44], s, p + 1 + |d|);
    TextFirst([125], s, p + 2 + |d| + |e|);
    DigitsEnd(d, s, p + 1, p1);
    DigitsEnd(e, s, p1 + 1, p2);
  }

  /** The quantifier meant at p: a lazy mark is never left over. */
  ghost predicate QuantAt(q: Quantifier, s: seq<byte>, p: nat) {
    && TextAt(ShowQuant(q), s, p) && Bounds(q.text, q.min, q.max) && q.min <= q.max <= INF
    && (q.greedy ==> p + |q.text| >= |s| || s[p + |q.text|] != 63)
  }

  /** The first character of a quantifier tells its kind. */
  lemma QuantKind(q: Quantifier, s: seq<byte>, p: nat)
    requires QuantAt(q, s, p)
    ensures p < |s| && s[p] in {42, 43, 63, 123} && TextAt(q.text, s, p)
    ensures s[p] == 42 ==> q.text == [42] && q.min == 0 && q.max == INF
    ensures s[p] == 43 ==> q.text == [43] && q.min == 1 && q.max == INF
    ensures s[p] == 63 ==> q.text == [63] && q.min == 0 && q.max == 1
    ensures s[p] == 123 ==> BracesAt(q.text, q.min, q.max, s, p)
    ensures p + |q.text| <= |s| && (q.greedy <==> !(p + |q.text| < |s| && s[p + |q.text|] == 63))
  {
    hide TextAt;
    TextCat(q.text, if q.greedy then [] else [63], s, p);
    TextFirst(q.text, s, p);
    TextLength(q.text, s, p);
    if !q.greedy { TextFirst([63], s, p + |q.text|); }
  }

  lemma TextLength(u: seq<byte>, s: seq<byte>, p: nat)
    requires TextAt(u, s, p)
    ensures p + |u| <= |s| && s[p..p + |u|] == u
  {
  }

  /** A term whose quantifier is followed by none has the quantifier meant. */
  lemma TermQuant(re: Re, s: seq<byte>, p: nat, any: bool)
    requires TermAt(re, s, p, any) && re.Quant? && NoQuantifier(s, p + |Show(re)|)
    ensures QuantAt(re.q, s, p + |Show(re.atom)|)
  {
    hide TextAt, Plain, IsTerm, BraceForm;
    TermParts(re, s, p, any);
    QuantEnd(re.q, s, p + |Show(re.atom)|);
  }

  lemma QuantEnd(q: Quantifier, s: seq<byte>, p: nat)
    requires TextAt(ShowQuant(q), s, p) && Bounds(q.text, q.min, q.max) && q.min <= q.max <= INF
             && NoQuantifier(s, p + |ShowQuant(q)|)
    ensures QuantAt(q, s, p)
  {
  }

  /** Where the digits at p end. */
  function RunEnd(s: seq<byte>, p: nat): (e: nat)
    requires p <= |s|
    ensures DigitsTo(s, p, e)
    decreases |s| - p
  {
    if p < |s| && IsDigit(s[p]) then RunEnd(s, p + 1) else p
  }

  /** A text has at most one repetition count at p. */
  lemma BracesUnique(u: seq<byte>, min: nat, max: nat, u': seq<byte>, min': nat, max': nat, s: seq<byte>, p: nat)
    requires BracesAt(u, min, max, s, p) && BracesAt(u', min', max', s, p)
    ensures u == u' && min == min' && max == max'
  {
    hide Bounds, Number, DigitsTo;
    assert BraceForm(s, p);
    OnlyBraces(s, p);
    var p1 := RunEnd(s, p + 1);
    RunWithin(s, p + 1, p1);
    var p2 := if p1 < |s| then RunEnd(s, p1 + 1) else p1;
    BracesScan(u, min, max, s, p, p1, p2);
    BracesScan(u', min', max', s, p, p1, p2);
  }

  lemma RunWithin(s: seq<byte>, p: nat, e: nat)
    requires DigitsTo(s, p, e)
    ensures p <= e <= |s|
  {
  }

  /** Without digits behind the brace there is neither a count nor bounds in the wrong order. */
  lemma NeedsDigit(s: seq<byte>, p: nat)
    requires p + 1 >= |s| || !IsDigit(s[p + 1])
    ensures !BraceForm(s, p) && !BadCount(s, p)
  {
    hide Number, Bounds;
    if u, min, max :| BracesAt(u, min, max, s, p) { FirstDigit(u, min, max, s, p); }
    if d, e :| BadBounds(d, e, s, p) { BadFirstDigit(d, e, s, p); }
  }

  lemma BadFirstDigit(d: seq<byte>, e: seq<byte>, s: seq<byte>, p: nat)
    requires BadBounds(d, e, s, p)
    ensures p + 1 < |s| && IsDigit(s[p + 1])
  {
    hide TextAt, Number;
    assert [123] + d + [44] + e == [123] + d + ([44] + e);
    TextCat([123] + d, [44] + e, s, p);
    DigitBehind(d, s, p);
  }

  lemma DigitBehind(d: seq<byte>, s: seq<byte>, p: nat)
    requires Digits(d) && TextAt([123] + d, s, p)
    ensures p + 1 < |s| && IsDigit(s[p + 1])
  {
    hide TextAt;
    TextCat([123], d, s, p);
    TextFirst(d, s, p + 1);
  }

  lemma FirstDigit(u: seq<byte>, min: nat, max: nat, s: seq<byte>, p: nat)
    requires BracesAt(u, min, max, s, p)
    ensures p + 1 < |s| && IsDigit(s[p + 1])
  {
    hide Bounds, Number;
    assert BraceForm(s, p);
    OnlyBraces(s, p);
    var p1 := RunEnd(s, p + 1);
    var p2 := if p1 < |s| then RunEnd(s, p1 + 1) else p1;
    BracesScan(u, min, max, s, p, p1, p2);
  }

  /** A scan that meets no closing brace finds no count. */
  lemma NotClosed(s: seq<byte>, p: nat, p1: nat, p2: nat)
    requires DigitsTo(s, p + 1, p1) && (p1 < |s| && s[p1] == 44 ==> DigitsTo(s, p1 + 1, p2))
    requires if p1 < |s| && s[p1] == 44 then p2 >= |s| || s[p2] != 125 else p1 >= |s| || s[p1] != 125
    ensures !BraceForm(s, p)
  {
    hide Number, Bounds, TextAt;
    if u, min, max :| BracesAt(u, min, max, s, p) { BracesScan(u, min, max, s, p, p1, p2); }
  }

  /** Bounds are in the wrong order exactly if the scan finds them so. */
  lemma BadScan(s: seq<byte>, p: nat, p1: nat, p2: nat)
    requires p < |s| && s[p] == 123 && DigitsTo(s, p + 1, p1) && p1 > p + 1
    requires p1 < |s| && s[p1] == 44 ==> DigitsTo(s, p1 + 1, p2)
    ensures BadCount(s, p) <==> (p1 < |s| && s[p1] == 44 && p2 > p1 + 1 && Number(s[p1 + 1..p2]) < Number(s[p + 1..p1]))
  {
    hide Number;
    if d, e :| BadBounds(d, e, s, p) { BadParts(d, e, s, p, p1, p2); }
    if p1 < |s| && s[p1] == 44 && p2 > p1 + 1
        && Number(s[p1 + 1..p2]) < Number(s[p + 1..p1]) { BadWhole(s, p, p1, p2); }
  }

  lemma BadParts(d: seq<byte>, e: seq<byte>, s: seq<byte>, p: nat, p1: nat, p2: nat)
    requires BadBounds(d, e, s, p) && DigitsTo(s, p + 1, p1) && (p1 < |s| && s[p1] == 44 ==> DigitsTo(s, p1 + 1, p2))
    ensures p1 < |s| && s[p1] == 44 && p2 > p1 + 1 && p1 > p + 1 && s[p1 + 1..p2] == e && s[p + 1..p1] == d
  {
    hide TextAt, Number;
    TextCat([123] + d + [44], e, s, p);
    TextCat([123] + d, [44], s, p);
    TextCat([123], d, s, p);
    TextFirst([44], s, p + 1 + |d|);
    DigitsEnd(d, s, p + 1, p1);
    DigitsEnd(e, s, p1 + 1, p2);
  }

  lemma BadWhole(s: seq<byte>, p: nat, p1: nat, p2: nat)
    requires p < |s| && s[p] == 123 && DigitsTo(s, p + 1, p1) && p1 > p + 1
    requires p1 < |s| && s[p1] == 44 && DigitsTo(s, p1 + 1, p2) && p2 > p1 + 1
             && Number(s[p1 + 1..p2]) < Number(s[p + 1..p1])
    ensures BadCount(s, p)
  {
    hide Number;
    var d, e := s[p + 1..p1], s[p1 + 1..p2];
    assert s[p..p2] == [123] + d + [44] + e;
    assert BadBounds(d, e, s, p);
  }

  /** A text has at most one quantifier at p. */
  lemma QuantUnique(q: Quantifier, q': Quantifier, s: seq<byte>, p: nat)
    requires QuantAt(q, s, p) && QuantAt(q', s, p)
    ensures q == q'
  {
    hide QuantAt, BracesAt, TextAt;
    QuantKind(q, s, p);
    QuantKind(q', s, p);
    if s[p] == 123 { BracesUnique(q.text, q.min, q.max, q'.text, q'.min, q'.max, s, p); }
  }

  lemma QuantIsQuantifier(q: Quantifier, s: seq<byte>, p: nat)
    requires QuantAt(q, s, p)
    ensures !NoQuantifier(s, p)
  {
    hide QuantAt, BracesAt;
    QuantKind(q, s, p);
  }

  lemma OnlyBad(s: seq<byte>, p: nat)
    requires BadCount(s, p)
    ensures p < |s| && s[p] == 123
  {
    hide Number;
    var d, e :| BadBounds(d, e, s, p);
    TextFirst([123] + d + [44] + e, s, p);
  }

  // ---- sequences and alternatives, read from the left -------------------

  /** w continues re with more terms. */
  predicate BeginsCat(re: Re, w: Re) {
    re == w || (w.Cat? && BeginsCat(re, w.first))
  }

  /** The term that w has behind re. */
  function NextTerm(re: Re, w: Re): Re
    requires BeginsCat(re, w) && re != w
  {
    if w.first == re then w.second else NextTerm(re, w.first)
  }

  predicate BeginsAlt(re: Re, w: Re) {
    re == w || (w.Alt? && BeginsAlt(re, w.left))
  }

  function NextAlternative(re: Re, w: Re): Re
    requires BeginsAlt(re, w) && re != w
  {
    if w.left == re then w.right else NextAlternative(re, w.left)
  }

  function FirstAlternative(w: Re): Re {
    if w.Alt? then FirstAlternative(w.left) else w
  }

  lemma {:induction false} EmptyBegins(w: Re, any: bool)
    requires IsAlternative(w, any)
    ensures BeginsCat(Empty, w)
  {
    if w.Cat? { EmptyBegins(w.first, any); }
  }

  /** The term behind re stands where re ends, and no quantifier follows it. */
  lemma {:induction false} NextTermAt(re: Re, w: Re, s: seq<byte>, p: nat, any: bool)
    requires AlternativeAt(w, s, p, any) && BeginsCat(re, w) && re != w && NoQuantifier(s, p + |Show(w)|)
    ensures var t := NextTerm(re, w);
      && BeginsCat(Cat(re, t), w) && TermAt(t, s, p + |Show(re)|, any)
      && NoQuantifier(s, p + |Show(re)| + |Show(t)|)
  {
    hide TextAt, IsTerm, NoQuantifier;
    TextCat(Show(w.first), Show(w.second), s, p);
    if w.first != re {
      TermFirst(w.second, s, p + |Show(w.first)|, any);
      NextTermAt(re, w.first, s, p, any);
    }
  }

  lemma AltParts(w: Re, s: seq<byte>, p: nat, any: bool)
    requires DisjunctionAt(w, s, p, any) && w.Alt?
    ensures DisjunctionAt(w.left, s, p, any) && AlternativeAt(w.right, s, p + |Show(w.left)| + 1, any)
    ensures p + |Show(w.left)| < |s| && s[p + |Show(w.left)|] == 124
    ensures p + |Show(w)| == p + |Show(w.left)| + 1 + |Show(w.right)|
  {
    hide TextAt;
    assert !IsAlternative(w, any) && IsDisjunction(w, any);
    assert IsDisjunction(w.left, any) && IsAlternative(w.right, any);
    assert Show(w) == Show(w.left) + [124] + Show(w.right);
    TextCat(Show(w.left) + [124], Show(w.right), s, p);
    TextCat(Show(w.left), [124], s, p);
    TextFirst([124], s, p + |Show(w.left)|);
  }

  lemma OneAlternative(w: Re, s: seq<byte>, p: nat, any: bool)
    requires DisjunctionAt(w, s, p, any)
    ensures !w.Alt? ==> AlternativeAt(w, s, p, any)
  {
  }

  /** The first alternative stands at the start and ends where an alternative may. */
  lemma {:induction false} FirstAlternativeAt(w: Re, s: seq<byte>, p: nat, any: bool)
    requires DisjunctionAt(w, s, p, any) && Stop(s, p + |Show(w)|)
    ensures var a := FirstAlternative(w); BeginsAlt(a, w) && AlternativeAt(a, s, p, any) && Stop(s, p + |Show(a)|)
  {
    hide DisjunctionAt, AlternativeAt;
    if w.Alt? {
      AltParts(w, s, p, any);
      FirstAlternativeAt(w.left, s, p, any);
    } else {
      OneAlternative(w, s, p, any);
    }
  }

  /** The alternative behind re stands behind a bar. */
  lemma {:induction false} NextAlternativeAt(re: Re, w: Re, s: seq<byte>, p: nat, any: bool)
    requires DisjunctionAt(w, s, p, any) && BeginsAlt(re, w) && re != w && Stop(s, p + |Show(w)|)
    ensures var a, q := NextAlternative(re, w), p + |Show(re)| + 1;
      && BeginsAlt(Alt(re, a), w) && q <= |s| && s[q - 1] == 124
      && AlternativeAt(a, s, q, any) && Stop(s, q + |Show(a)|)
  {
    hide DisjunctionAt, AlternativeAt;
    AltParts(w, s, p, any);
    if w.left != re { NextAlternativeAt(re, w.left, s, p, any); }
  }

  // ---- what a reader finds is the only thing the text can mean ----------

  /** As Plain, without what is said about the text behind an atom. */
  ghost predicate PlainAtom(re: Re, s: seq<byte>, p: nat) {
    match re
    case Chr(c) => c == 123 ==> !BraceForm(s, p)
    case Group(a) => Plain(a, s, p + 3)
    case _ => true
  }

  /** If an atom stands at p, then the reader succeeds and finds it. */
  ghost predicate OnlyAtom(found: bool, re: Re, s: seq<byte>, p: nat, any: bool) {
    forall w :: AtomAt(w, s, p, any) ==> found && re == w
  }

  ghost predicate OnlyTerm(found: bool, re: Re, s: seq<byte>, p: nat, any: bool) {
    forall w :: TermAt(w, s, p, any) && NoQuantifier(s, p + |Show(w)|) ==> found && re == w
  }

  ghost predicate OnlyAlternative(found: bool, re: Re, s: seq<byte>, p: nat, any: bool) {
    forall w :: AlternativeAt(w, s, p, any) && Stop(s, p + |Show(w)|) ==> found && re == w
  }

  ghost predicate OnlyDisjunction(found: bool, re: Re, s: seq<byte>, p: nat, any: bool) {
    forall w :: DisjunctionAt(w, s, p, any) && Close(s, p + |Show(w)|) ==> found && re == w
  }

  /** re is the beginning of every alternative that can be meant at p. */
  ghost predicate BeginsAlternative(re: Re, s: seq<byte>, p: nat, any: bool) {
    forall w :: AlternativeAt(w, s, p, any) && Stop(s, p + |Show(w)|) ==> BeginsCat(re, w)
  }

  ghost predicate BeginsDisjunction(re: Re, s: seq<byte>, p: nat, any: bool) {
    forall w :: DisjunctionAt(w, s, p, any) && Close(s, p + |Show(w)|) ==> BeginsAlt(re, w)
  }

  /** Whether and which atom other than a group starts with the character at p. */
  lemma AtomOfFirst(re: Re, s: seq<byte>, p: nat, any: bool)
    requires p < |s|
    ensures s[p] == 46 ==> OnlyAtom(true, Dot(any), s, p, any)
    ensures s[p] in {42, 43, 63} ==> OnlyAtom(false, re, s, p, any)
    ensures s[p] != 46 && s[p] != 40 && Special(s[p]) ==> OnlyAtom(false, re, s, p, any)
    ensures s[p] == 123 && BraceForm(s, p) ==> OnlyAtom(false, re, s, p, any)
    ensures s[p] != 46 && s[p] != 40 ==> OnlyAtom(true, Chr(s[p]), s, p, any)
  {
    hide AtomAt, BraceForm;
    forall w | AtomAt(w, s, p, any)
      ensures s[p] !in {42, 43, 63} && (s[p] == 123 ==> !BraceForm(s, p))
      ensures s[p] == 46 <==> w == Dot(any)
      ensures s[p] != 46 && s[p] != 40 ==> w == Chr(s[p]) && !Special(s[p])
    {
      AtomFirst(w, s, p, any);
    }
  }

  lemma GroupAt(a: Re, s: seq<byte>, p: nat, any: bool)
    requires AtomAt(Group(a), s, p, any)
    ensures p + 3 + |Show(a)| < |s| && s[p + 1] == 63 && s[p + 2] == 58 && s[p + 3 + |Show(a)|] == 41
    ensures DisjunctionAt(a, s, p + 3, any)
  {
    hide TextAt, BadCount;
    TextCat([40, 63, 58] + Show(a), [41], s, p);
    TextCat([40, 63, 58], Show(a), s, p);
    assert [40, 63, 58] == [40] + [63] + [58];
    TextCat([40] + [63], [58], s, p);
    TextCat([40], [63], s, p);
    TextFirst([63], s, p + 1);
    TextFirst([58], s, p + 2);
    TextFirst([41], s, p + 3 + |Show(a)|);
  }

  /** No group starts at p without its three characters. */
  lemma NoGroup(re: Re, s: seq<byte>, p: nat, any: bool)
    requires p < |s| && s[p] == 40 && (p + 2 >= |s| || s[p + 1] != 63 || s[p + 2] != 58)
    ensures OnlyAtom(false, re, s, p, any)
  {
    hide AtomAt;
    forall w | AtomAt(w, s, p, any) ensures false {
      AtomFirst(w, s, p, any);
      GroupAt(w.body, s, p, any);
    }
  }

  /** A group starts at p exactly if a disjunction does behind its three characters and is closed. */
  lemma OnlyGroup(found: bool, closed: bool, a: Re, s: seq<byte>, p: nat, any: bool)
    requires p < |s| && s[p] == 40 && OnlyDisjunction(found, a, s, p + 3, any)
    requires found && p + 3 + |Show(a)| < |s| && s[p + 3 + |Show(a)|] == 41 ==> closed
    ensures OnlyAtom(found && closed, Group(a), s, p, any)
  {
    hide AtomAt, DisjunctionAt;
    forall w | AtomAt(w, s, p, any) ensures found && closed && w == Group(a) {
      AtomFirst(w, s, p, any);
      GroupAt(w.body, s, p, any);
    }
  }

  lemma AtomIsPlain(re: Re, s: seq<byte>, p: nat, any: bool)
    requires IsAtom(re, any) && PlainAtom(re, s, p) && !BadCount(s, p + |Show(re)|)
    ensures Plain(re, s, p)
  {
    hide BraceForm, BadCount;
  }

  lemma NoTerm(a: Re, re: Re, s: seq<byte>, p: nat, any: bool)
    requires OnlyAtom(false, a, s, p, any)
    ensures OnlyTerm(false, re, s, p, any)
  {
    hide AtomAt, TermAt, NoQuantifier;
    forall w | TermAt(w, s, p, any) ensures false { TermParts(w, s, p, any); }
  }

  /** A term whose atom and quantifier are the only ones is the only one. */
  lemma OnlyTermOf(a: Re, bad: bool, found: bool, q: Quantifier, s: seq<byte>, p: nat, any: bool)
    requires OnlyAtom(true, a, s, p, any) && (bad ==> BadCount(s, p + |Show(a)|))
    requires !bad && found ==> QuantAt(q, s, p + |Show(a)|)
    requires !bad && !found ==> NoQuantifier(s, p + |Show(a)|)
    ensures OnlyTerm(!bad, if found then Quant(a, q) else a, s, p, any)
  {
    hide AtomAt, TermAt, NoQuantifier, BadCount, QuantAt;
    forall w | TermAt(w, s, p, any) && NoQuantifier(s, p + |Show(w)|)
      ensures !bad && w == if found then Quant(a, q) else a {
      TermParts(w, s, p, any);
      AtomEnd(a, s, p, any);
      if w.Quant? {
        TermQuant(w, s, p, any);
        QuantIsQuantifier(w.q, s, p + |Show(a)|);
        QuantUnique(w.q, q, s, p + |Show(a)|);
      } else if found {
        QuantIsQuantifier(q, s, p + |Show(a)|);
      }
    }
  }

  lemma EmptyBeginsAll(s: seq<byte>, p: nat, any: bool)
    ensures BeginsAlternative(Empty, s, p, any)
  {
    hide TextAt, Plain, IsAlternative, Stop;
    forall w | AlternativeAt(w, s, p, any) ensures BeginsCat(Empty, w) { EmptyBegins(w, any); }
  }

  /** Where terms may end there is no further one. */
  lemma LastTerm(re: Re, s: seq<byte>, p: nat, any: bool)
    requires BeginsAlternative(re, s, p, any) && Stop(s, p + |Show(re)|)
    ensures OnlyAlternative(true, re, s, p, any)
  {
    hide AlternativeAt, Stop, BeginsCat, Show;
    forall w | AlternativeAt(w, s, p, any) && Stop(s, p + |Show(w)|)
      ensures w == re { NoFurtherTerm(w, re, s, p, any); }
  }

  lemma NoFurtherTerm(w: Re, re: Re, s: seq<byte>, p: nat, any: bool)
    requires AlternativeAt(w, s, p, any) && BeginsCat(re, w) && Stop(s, p + |Show(w)|) && Stop(s, p + |Show(re)|)
    ensures w == re
  {
    hide AlternativeAt, TermAt, NoQuantifier, Stop, BeginsCat, Show, NextTerm;
    if w != re {
      StopNoQuantifier(s, p + |Show(w)|);
      NextTermAt(re, w, s, p, any);
      TermFirst(NextTerm(re, w), s, p + |Show(re)|, any);
    }
  }

  /** Where terms may not end the next one is the only one there. */
  lemma OneMoreTerm(found: bool, re: Re, t: Re, x: Re, s: seq<byte>, p: nat, any: bool)
    requires BeginsAlternative(re, s, p, any) && !Stop(s, p + |Show(re)|) && OnlyTerm(found, t, s, p + |Show(re)|, any)
    ensures found ==> BeginsAlternative(Cat(re, t), s, p, any)
    ensures !found ==> OnlyAlternative(false, x, s, p, any)
  {
    hide AlternativeAt, TermAt, NoQuantifier, Stop, BeginsCat;
    forall w | AlternativeAt(w, s, p, any) && Stop(s, p + |Show(w)|) ensures found && BeginsCat(Cat(re, t), w) {
      StopNoQuantifier(s, p + |Show(w)|);
      NextTermAt(re, w, s, p, any);
    }
  }

  lemma FirstBeginsAll(found: bool, re: Re, x: Re, s: seq<byte>, p: nat, any: bool)
    requires OnlyAlternative(found, re, s, p, any)
    ensures found ==> BeginsDisjunction(re, s, p, any)
    ensures !found ==> OnlyDisjunction(false, x, s, p, any)
  {
    hide AlternativeAt, DisjunctionAt, BeginsAlt;
    forall w | DisjunctionAt(w, s, p, any) && Close(s, p + |Show(w)|) ensures found && BeginsAlt(re, w) {
      FirstAlternativeAt(w, s, p, any);
    }
  }

  lemma LastAlternative(re: Re, s: seq<byte>, p: nat, any: bool)
    requires BeginsDisjunction(re, s, p, any) && Close(s, p + |Show(re)|)
    ensures OnlyDisjunction(true, re, s, p, any)
  {
    hide AlternativeAt, DisjunctionAt, BeginsAlt, Show, NextAlternative;
    forall w | DisjunctionAt(w, s, p, any) && Close(s, p + |Show(w)|)
      ensures w == re { NoFurtherAlternative(w, re, s, p, any); }
  }

  lemma NoFurtherAlternative(w: Re, re: Re, s: seq<byte>, p: nat, any: bool)
    requires DisjunctionAt(w, s, p, any) && BeginsAlt(re, w) && Close(s, p + |Show(w)|) && Close(s, p + |Show(re)|)
    ensures w == re
  {
    hide AlternativeAt, DisjunctionAt, BeginsAlt, Show, NextAlternative;
    if w != re { NextAlternativeAt(re, w, s, p, any); }
  }

  lemma OneMoreAlternative(found: bool, re: Re, a: Re, x: Re, s: seq<byte>, p: nat, any: bool)
    requires BeginsDisjunction(re, s, p, any) && p + |Show(re)| < |s| && s[p + |Show(re)|] == 124
    requires OnlyAlternative(found, a, s, p + |Show(re)| + 1, any)
    ensures found ==> BeginsDisjunction(Alt(re, a), s, p, any)
    ensures !found ==> OnlyDisjunction(false, x, s, p, any)
  {
    hide AlternativeAt, DisjunctionAt, BeginsAlt, Show, NextAlternative;
    forall w | DisjunctionAt(w, s, p, any) && Close(s, p + |Show(w)|) ensures found && BeginsAlt(Alt(re, a), w) {
      NextAlternativeAt(re, w, s, p, any);
    }
  }

  lemma {:induction false} PlainWithoutBraces(re: Re, s: seq<byte>, p: nat)
    requires 123 !in s
    ensures Plain(re, s, p)
  {
    hide BraceForm, BadCount;
    NoBrace(s, p);
    NoBrace(s, p + 1);
    match re
    case Cat(a, b) =>
      PlainWithoutBraces(a, s, p);
      PlainWithoutBraces(b, s, p + |Show(a)|);
    case Alt(a, b) =>
      PlainWithoutBraces(a, s, p);
      PlainWithoutBraces(b, s, p + |Show(a)| + 1);
    case Group(a) =>
      PlainWithoutBraces(a, s, p + 3);
      NoBrace(s, p + |Show(re)|);
    case Quant(a, _) => PlainWithoutBraces(a, s, p);
    case _ =>
  }

  lemma NoBrace(s: seq<byte>, p: nat)
    requires !(p < |s| && s[p] == 123)
    ensures !BraceForm(s, p) && !BadCount(s, p)
  {
    if BraceForm(s, p) { OnlyBraces(s, p); }
    if BadCount(s, p) { OnlyBad(s, p); }
  }

  /** A text without braces means every pattern it is the text of. */
  lemma MeansOwnText(re: Re, any: bool)
    requires IsDisjunction(re, any) && 123 !in Show(re)
    ensures Means(Show(re), re, any)
  {
    hide Plain, IsDisjunction;
    PlainWithoutBraces(re, Show(re), 0);
    assert Show(re)[0..0 + |Show(re)|] == Show(re);
  }

  /**
   * Behind a character that starts a text there are no bounds in the wrong order, closed or not, if the text means
   * anything.
   */
  lemma NoBadCountBehindFirst(s: seq<byte>, re: Re, any: bool)
    requires Means(s, re, any) && s != [] && !Special(s[0])
    ensures !BadCount(s, 1)
  {
    hide Plain, IsTerm, BadCount, NoQuantifier;
    FirstAlternativeAt(re, s, 0, any);
    var a := FirstAlternative(re);
    EmptyBegins(a, any);
    StopNoQuantifier(s, |Show(a)|);
    NextTermAt(Empty, a, s, 0, any);
    var t := NextTerm(Empty, a);
    TermParts(t, s, 0, any);
    var atom := if t.Quant? then t.atom else t;
    AtomFirst(atom, s, 0, any);
    AtomEnd(atom, s, 0, any);
  }

  /** The text `a{2,1` means nothing, although its brace is not closed. */
  lemma OpenBadCountRefused(any: bool)
    ensures forall re :: !Means([97, 123, 50, 44, 49], re, any)
  {
    var s: seq<byte> := [97, 123, 50, 44, 49];
    assert BadCount(s, 1) by { BadBounds21(s); }
    forall re ensures !Means(s, re, any) {
      if Means(s, re, any) { NoBadCountBehindFirst(s, re, any); }
    }
  }

  lemma BadBounds21(s: seq<byte>)
    requires s == [97, 123, 50, 44, 49]
    ensures BadCount(s, 1)
  {
    var d: seq<byte>, e: seq<byte> := [50], [49];
    assert [123] + d + [44] + e == [123, 50, 44, 49] == s[1..5];
    assert Number(d[..0]) == 0 && Number(e[..0]) == 0;
    assert BadBounds(d, e, s, 1);
  }

  function Chars(s: seq<byte>): Re {
    if s == [] then Empty else Cat(Chars(s[..|s| - 1]), Chr(s[|s| - 1]))
  }

  lemma {:induction false} CharsShow(s: seq<byte>, any: bool)
    requires forall i :: 0 <= i < |s| ==> !Special(s[i])
    ensures Show(Chars(s)) == s && IsAlternative(Chars(s), any)
  {
    hide Bounds;
    if s != [] {
      var t, c := s[..|s| - 1], s[|s| - 1];
      CharsShow(t, any);
      assert Chars(s) == Cat(Chars(t), Chr(c)) && s == t + [c];
      assert IsTerm(Chr(c), any) && Show(Chr(c)) == [c];
    }
  }

  lemma {:induction false} CharsPlain(t: seq<byte>, s: seq<byte>)
    requires |t| <= |s| && t == s[..|t|] && forall i :: 0 <= i < |s| ==> !Special(s[i])
    requires forall i :: 0 <= i <= |s| ==> !BraceForm(s, i) && !BadCount(s, i)
    ensures Plain(Chars(t), s, 0)
  {
    hide BraceForm, BadCount;
    if t != [] {
      CharsPlain(t[..|t| - 1], s);
      CharsShow(t[..|t| - 1], true);
    }
  }

  /** The text `a{2,3` means its five characters. */
  lemma OpenCountIsCharacters(any: bool)
    ensures var s := [97, 123, 50, 44, 51]; Means(s, Chars(s), any)
  {
    hide BraceForm, BadCount, Number;
    var s: seq<byte> := [97, 123, 50, 44, 51];
    OpenCount23(s);
    forall i | 0 <= i <= |s| ensures !BraceForm(s, i) && !BadCount(s, i) {
      if i != 1 { NoBrace(s, i); }
    }
    CharsShow(s, any);
    CharsPlain(s, s);
    assert s[0..0 + |s|] == s;
  }

  lemma OpenCount23(s: seq<byte>)
    requires s == [97, 123, 50, 44, 51]
    ensures !BraceForm(s, 1) && !BadCount(s, 1)
  {
    hide BraceForm, BadCount, Number;
    NotClosed(s, 1, 3, 5);
    BadScan(s, 1, 3, 5);
    assert s[2..3] == [50] && s[4..5] == [51];
    OneDigit(50);
    OneDigit(51);
  }

  lemma OneDigit(c: byte)
    requires IsDigit(c)
    ensures Number([c]) == c - 48
  {
    assert Number([c][..0]) == 0;
  }
}
