/** What common texts mean as patterns, with counts read as decimal numbers. */
module ReReading {
  import opened ReSyntax
  import opened ReText

  // Decimal numbers

  /** The digits of n, the most significant first. */
  function Decimal(n: nat): seq<byte> {
    if n < 10 then [48 + n] else Decimal(n / 10) + [48 + n % 10]
  }

  function Clamped(n: nat): nat {
    if n < 0x7fff_ffff then n else 0x7fff_ffff
  }

  lemma {:induction false} DecimalDigits(n: nat)
    ensures Digits(Decimal(n))
  {
    if n >= 10 { DecimalDigits(n / 10); }
  }

  lemma NumberSnoc(s: seq<byte>, c: byte)
    requires IsDigit(c)
    ensures Number(s + [c]) == Clamped(Number(s) * 10 + (c - 48)) && Number([]) == 0
  {
    assert (s + [c])[..|s|] == s;
  }

  /** Reading the digits of a number gives the number, or INF if it is not below. */
  lemma {:induction false} NumberOfDecimal(n: nat)
    ensures Number(Decimal(n)) == Clamped(n)
  {
    if n < 10 {
      NumberSnoc([], 48 + n);
      assert [] + [48 + n] == Decimal(n);
    } else {
      NumberOfDecimal(n / 10);
      NumberSnoc(Decimal(n / 10), 48 + n % 10);
    }
  }

  /** Zeros in front do not matter. */
  lemma {:induction false} LeadingZero(s: seq<byte>)
    requires Digits(s)
    ensures Number([48] + s) == Number(s)
    decreases |s|
  {
    var t, c := s[..|s| - 1], s[|s| - 1];
    NumberSnoc(t, c);
    NumberSnoc([48] + t, c);
    assert s == t + [c] && [48] + s == ([48] + t) + [c];
    if t == [] {
      NumberSnoc([], 48);
      assert [48] + t == [] + [48];
    } else {
      LeadingZero(t);
    }
  }

  // Quantified characters

  /** The text with a question mark behind it, which makes a quantifier lazy. */
  function Marked(u: seq<byte>, greedy: bool): seq<byte> {
    if greedy then u else u + [63]
  }

  function Repeated(c: byte, min: nat, max: nat, greedy: bool, u: seq<byte>): Re {
    Cat(Empty, Quant(Chr(c), Quantifier(min, max, greedy, u)))
  }

  /** Bounds in the right order are not also bounds in the wrong one. */
  lemma RightIsNotBad(u: seq<byte>, min: nat, max: nat, s: seq<byte>, p: nat)
    requires BracesAt(u, min, max, s, p) && min <= max
    ensures !BadCount(s, p)
  {
    hide Number, Bounds, TextAt;
    assert BraceForm(s, p);
    OnlyBraces(s, p);
    var p1 := RunEnd(s, p + 1);
    var p2 := if p1 < |s| then RunEnd(s, p1 + 1) else p1;
    BracesScan(u, min, max, s, p, p1, p2);
    BadScan(s, p, p1, p2);
  }

  lemma QuantifiedCharacter(c: byte, u: seq<byte>, min: nat, max: nat, greedy: bool, any: bool)
    requires !Special(c) && c != 123 && Bounds(u, min, max) && min <= max <= INF
    ensures Means([c] + Marked(u, greedy), Repeated(c, min, max, greedy, u), any)
  {
    hide BadCount, BraceForm, Number, Show, IsDisjunction, Bounds, Plain;
    var s, re := [c] + Marked(u, greedy), Repeated(c, min, max, greedy, u);
    RepeatedIsPattern(c, u, min, max, greedy, any);
    QuantifierNotBad(c, u, min, max, greedy);
    RepeatedIsPlain(c, u, min, max, greedy, s);
    assert s[0..0 + |s|] == s;
  }

  lemma RepeatedIsPattern(c: byte, u: seq<byte>, min: nat, max: nat, greedy: bool, any: bool)
    requires !Special(c) && Bounds(u, min, max) && min <= max <= INF
    ensures var re := Repeated(c, min, max, greedy, u); IsDisjunction(re, any) && Show(re) == [c] + Marked(u, greedy)
  {
    hide Bounds;
    var q := Quantifier(min, max, greedy, u);
    assert IsAtom(Chr(c), any) && Show(Chr(c)) == [c];
    assert IsTerm(Quant(Chr(c), q), any);
    Extended(Empty, Quant(Chr(c), q), any);
    assert Show(Quant(Chr(c), q)) == [c] + Marked(u, greedy);
  }

  lemma RepeatedIsPlain(c: byte, u: seq<byte>, min: nat, max: nat, greedy: bool, s: seq<byte>)
    requires c != 123 && !BadCount(s, 1)
    ensures Plain(Repeated(c, min, max, greedy, u), s, 0)
  {
    hide BadCount, BraceForm;
    assert Plain(Chr(c), s, 0);
    assert |Show(Empty)| == 0;
  }

  lemma QuantifierNotBad(c: byte, u: seq<byte>, min: nat, max: nat, greedy: bool)
    requires Bounds(u, min, max) && min <= max
    ensures !BadCount([c] + Marked(u, greedy), 1)
  {
    hide BadCount, BraceForm, Number;
    var s := [c] + Marked(u, greedy);
    assert s[1..1 + |u|] == u;
    if u[0] == 123 {
      assert BracesAt(u, min, max, s, 1);
      RightIsNotBad(u, min, max, s, 1);
    } else {
      NoBrace(s, 1);
    }
  }

  /** A sequence with one term more. */
  lemma Extended(a: Re, b: Re, any: bool)
    requires IsAlternative(a, any) && IsTerm(b, any)
    ensures IsAlternative(Cat(a, b), any) && IsDisjunction(Cat(a, b), any) && Show(Cat(a, b)) == Show(a) + Show(b)
  {
  }

  /** The three short quantifiers. */
  lemma ShortQuantifiers(c: byte, greedy: bool, any: bool)
    requires !Special(c) && c != 123
    ensures Means([c] + Marked([42], greedy), Repeated(c, 0, 0x7fff_ffff, greedy, [42]), any)
    ensures Means([c] + Marked([43], greedy), Repeated(c, 1, 0x7fff_ffff, greedy, [43]), any)
    ensures Means([c] + Marked([63], greedy), Repeated(c, 0, 1, greedy, [63]), any)
  {
    QuantifiedCharacter(c, [42], 0, INF, greedy, any);
    QuantifiedCharacter(c, [43], 1, INF, greedy, any);
    QuantifiedCharacter(c, [63], 0, 1, greedy, any);
  }

  /** A count in braces. */
  lemma Exactly(c: byte, n: nat, greedy: bool, any: bool)
    requires !Special(c) && c != 123
    ensures var u := [123] + Decimal(n) + [125];
            Means([c] + Marked(u, greedy), Repeated(c, Clamped(n), Clamped(n), greedy, u), any)
  {
    hide Means;
    DecimalDigits(n);
    NumberOfDecimal(n);
    var u, d := [123] + Decimal(n) + [125], Decimal(n);
    assert Bounds(u, Clamped(n), Clamped(n)) by { assert Digits(d) && u == [123] + d + [125]; }
    QuantifiedCharacter(c, u, Clamped(n), Clamped(n), greedy, any);
  }

  /** A count without upper bound. */
  lemma AtLeast(c: byte, n: nat, greedy: bool, any: bool)
    requires !Special(c) && c != 123
    ensures var u := [123] + Decimal(n) + [44, 125];
            Means([c] + Marked(u, greedy), Repeated(c, Clamped(n), 0x7fff_ffff, greedy, u), any)
  {
    hide Means;
    DecimalDigits(n);
    NumberOfDecimal(n);
    var u, d := [123] + Decimal(n) + [44, 125], Decimal(n);
    assert Bounds(u, Clamped(n), INF) by { assert Digits(d) && u == [123] + d + [44, 125]; }
    QuantifiedCharacter(c, u, Clamped(n), INF, greedy, any);
  }

  /** Both bounds: the text means something exactly if they are in order. */
  lemma Between(c: byte, m: nat, n: nat, greedy: bool, any: bool)
    requires !Special(c) && c != 123
    ensures var u := [123] + Decimal(m) + [44] + Decimal(n) + [125]; var s := [c] + Marked(u, greedy);
            if Clamped(m) <= Clamped(n) then Means(s, Repeated(c, Clamped(m), Clamped(n), greedy, u), any)
            else forall re :: !Means(s, re, any)
  {
    hide Means;
    DecimalDigits(m);
    DecimalDigits(n);
    NumberOfDecimal(m);
    NumberOfDecimal(n);
    var d, e := Decimal(m), Decimal(n);
    var u := [123] + d + [44] + e + [125];
    var s := [c] + Marked(u, greedy);
    if Clamped(m) <= Clamped(n) {
      assert Bounds(u, Clamped(m), Clamped(n)) by {
        assert Digits(d) && Digits(e) && u == [123] + d + [44] + e + [125];
      }
      QuantifiedCharacter(c, u, Clamped(m), Clamped(n), greedy, any);
    } else {
      WrongOrder(c, d, e, greedy);
      forall re ensures !Means(s, re, any) {
        if Means(s, re, any) { NoBadCountBehindFirst(s, re, any); }
      }
    }
  }

  lemma WrongOrder(c: byte, d: seq<byte>, e: seq<byte>, greedy: bool)
    requires Digits(d) && Digits(e) && Number(e) < Number(d)
    ensures BadCount([c] + Marked([123] + d + [44] + e + [125], greedy), 1)
  {
    hide Number;
    var head := [123] + d + [44] + e;
    var s := [c] + Marked(head + [125], greedy);
    assert s[1..1 + |head|] == head;
    assert s[1 + |head|] == 125;
    assert BadBounds(d, e, s, 1);
  }

  // Other texts

  /** A dot, two alternatives, a group. */
  lemma OtherTexts(c: byte, d: byte, any: bool)
    requires !Special(c) && !Special(d) && c != 123 && d != 123
    ensures Means([46], Cat(Empty, Dot(any)), any)
    ensures Means([c, d], Cat(Cat(Empty, Chr(c)), Chr(d)), any)
    ensures Means([c, 124, d], Alt(Cat(Empty, Chr(c)), Cat(Empty, Chr(d))), any)
    ensures Means([40, 63, 58, c, 41], Cat(Empty, Group(Cat(Empty, Chr(c)))), any)
  {
    hide Means, IsAlternative, IsDisjunction;
    var x, y := Cat(Empty, Chr(c)), Cat(Empty, Chr(d));
    Letter(c, any);
    Letter(d, any);
    OneTerm(Dot(any), any);
    OwnText(Cat(Empty, Dot(any)), [46], any);
    Extended(x, Chr(d), any);
    OwnText(Cat(x, Chr(d)), [c, d], any);
    Either(x, y, any);
    OwnText(Alt(x, y), [c, 124, d], any);
    assert IsAtom(Group(x), any) && Show(Group(x)) == [40, 63, 58, c, 41];
    OneTerm(Group(x), any);
    OwnText(Cat(Empty, Group(x)), [40, 63, 58, c, 41], any);
  }

  lemma Letter(c: byte, any: bool)
    requires !Special(c)
    ensures IsTerm(Chr(c), any) && Show(Cat(Empty, Chr(c))) == [c]
    ensures IsAlternative(Cat(Empty, Chr(c)), any) && IsDisjunction(Cat(Empty, Chr(c)), any)
  {
    assert IsAtom(Chr(c), any) && Show(Chr(c)) == [c];
    Extended(Empty, Chr(c), any);
  }

  lemma OneTerm(re: Re, any: bool)
    requires IsAtom(re, any)
    ensures IsDisjunction(Cat(Empty, re), any) && Show(Cat(Empty, re)) == Show(re)
  {
    assert IsTerm(re, any);
    Extended(Empty, re, any);
    assert [] + Show(re) == Show(re);
  }

  lemma Either(a: Re, b: Re, any: bool)
    requires IsDisjunction(a, any) && IsAlternative(b, any)
    ensures IsDisjunction(Alt(a, b), any) && Show(Alt(a, b)) == Show(a) + [124] + Show(b)
  {
  }

  /** The text of one byte: a character, but for the dot, the bar, and the bytes that are not covered. */
  lemma OneByte(c: byte, any: bool)
    ensures c == 46 ==> Means([c], Cat(Empty, Dot(any)), any)
    ensures c == 124 ==> Means([c], Alt(Empty, Empty), any)
    ensures c in {36, 40, 41, 42, 43, 63, 91, 92, 94} || c >= 128 ==> forall re :: !Means([c], re, any)
    ensures c < 128 && c !in {36, 40, 41, 42, 43, 46, 63, 91, 92, 94, 124} ==> Means([c], Cat(Empty, Chr(c)), any)
  {
    hide Means;
    if c == 46 {
      OneTerm(Dot(any), any);
      OwnText(Cat(Empty, Dot(any)), [46], any);
    } else if c == 124 {
      Either(Empty, Empty, any);
      OwnText(Alt(Empty, Empty), [124], any);
    } else if c == 123 {
      Brace(any);
    } else if Special(c) {
      forall re ensures !Means([c], re, any) {
        if Means([c], re, any) { FirstCharacter([c], re, any); }
      }
    } else {
      Letter(c, any);
      OwnText(Cat(Empty, Chr(c)), [c], any);
    }
  }

  lemma Brace(any: bool)
    ensures Means([123], Cat(Empty, Chr(123)), any)
  {
    hide BraceForm, BadCount;
    Letter(123, any);
    NeedsDigit([123], 0);
    NoBrace([123], 1);
    assert Plain(Chr(123), [123], 0);
    assert [123][0..1] == [123];
  }

  /** How a text that means something begins. */
  lemma FirstCharacter(s: seq<byte>, re: Re, any: bool)
    requires Means(s, re, any) && s != []
    ensures s[0] == 46 || s[0] == 124 || (s[0] == 40 && |s| > 3) || !Special(s[0])
  {
    hide Plain, IsTerm, NoQuantifier, BadCount, BraceForm;
    FirstAlternativeAt(re, s, 0, any);
    var a := FirstAlternative(re);
    EmptyBegins(a, any);
    if a == Empty {
      assert |Show(re)| == |s| && |Show(Empty)| == 0;
      NextAlternativeAt(a, re, s, 0, any);
    } else {
      StopNoQuantifier(s, |Show(a)|);
      NextTermAt(Empty, a, s, 0, any);
      var t := NextTerm(Empty, a);
      TermParts(t, s, 0, any);
      var atom := if t.Quant? then t.atom else t;
      AtomFirst(atom, s, 0, any);
      if s[0] == 40 { GroupAt(atom.body, s, 0, any); }
    }
  }

  lemma OwnText(re: Re, s: seq<byte>, any: bool)
    requires Show(re) == s && IsDisjunction(re, any) && 123 !in s
    ensures Means(s, re, any)
  {
    MeansOwnText(re, any);
  }
}
