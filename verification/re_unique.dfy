/** A text means at most one pattern. */
module ReUnique {
  import opened ReSyntax
  import opened ReText

  lemma {:induction false} AtomUnique(w: Re, v: Re, s: seq<byte>, p: nat, any: bool)
    requires AtomAt(w, s, p, any) && AtomAt(v, s, p, any)
    ensures w == v
    decreases |Show(w)|, 0, 0
  {
    hide AtomAt, DisjunctionAt;
    AtomFirst(w, s, p, any);
    AtomFirst(v, s, p, any);
    if w.Group? {
      GroupAt(w.body, s, p, any);
      GroupAt(v.body, s, p, any);
      DisjunctionUnique(w.body, v.body, s, p + 3, any);
    }
  }

  lemma {:induction false} TermUnique(w: Re, v: Re, s: seq<byte>, p: nat, any: bool)
    requires TermAt(w, s, p, any) && NoQuantifier(s, p + |Show(w)|)
    requires TermAt(v, s, p, any) && NoQuantifier(s, p + |Show(v)|)
    ensures w == v
    decreases |Show(w)|, 1, 0
  {
    hide AtomAt, TermAt, NoQuantifier, QuantAt, BadCount;
    TermParts(w, s, p, any);
    TermParts(v, s, p, any);
    var a, b := if w.Quant? then w.atom else w, if v.Quant? then v.atom else v;
    AtomUnique(a, b, s, p, any);
    QuantOf(w, s, p, any);
    QuantOf(v, s, p, any);
    if w.Quant? && v.Quant? { QuantUnique(w.q, v.q, s, p + |Show(a)|); }
  }

  /** Whether a quantifier follows the atom of a term. */
  lemma QuantOf(w: Re, s: seq<byte>, p: nat, any: bool)
    requires TermAt(w, s, p, any) && NoQuantifier(s, p + |Show(w)|)
    ensures w.Quant? ==> QuantAt(w.q, s, p + |Show(w.atom)|) && !NoQuantifier(s, p + |Show(w.atom)|)
  {
    hide TermAt, NoQuantifier, QuantAt;
    if w.Quant? {
      TermQuant(w, s, p, any);
      QuantIsQuantifier(w.q, s, p + |Show(w.atom)|);
    }
  }

  lemma {:induction false} AlternativeUnique(w: Re, v: Re, s: seq<byte>, p: nat, any: bool)
    requires AlternativeAt(w, s, p, any) && Stop(s, p + |Show(w)|)
    requires AlternativeAt(v, s, p, any) && Stop(s, p + |Show(v)|)
    ensures w == v
    decreases |Show(w)|, 3, 0
  {
    hide TextAt, Plain, Stop;
    EmptyBegins(w, any);
    EmptyBegins(v, any);
    AlternativeFrom(Empty, w, v, s, p, any);
  }

  /** Two alternatives with the same beginning. */
  lemma {:induction false} AlternativeFrom(re: Re, w: Re, v: Re, s: seq<byte>, p: nat, any: bool)
    requires AlternativeAt(w, s, p, any) && Stop(s, p + |Show(w)|) && BeginsCat(re, w)
    requires AlternativeAt(v, s, p, any) && Stop(s, p + |Show(v)|) && BeginsCat(re, v)
    ensures w == v
    decreases |Show(w)|, 2, Size(w) - Size(re)
  {
    hide AlternativeAt, TermAt, NoQuantifier, Stop, NextTerm, BeginsCat, Size, Show;
    if re == w {
      NoFurtherTerm(v, re, s, p, any);
    } else if re == v {
      NoFurtherTerm(w, re, s, p, any);
    } else {
      StopNoQuantifier(s, p + |Show(w)|);
      StopNoQuantifier(s, p + |Show(v)|);
      NextTermAt(re, w, s, p, any);
      NextTermAt(re, v, s, p, any);
      var t := NextTerm(re, w);
      BeginsSize(Cat(re, t), w);
      CatSize(re, t);
      TermUnique(t, NextTerm(re, v), s, p + |Show(re)|, any);
      AlternativeFrom(Cat(re, t), w, v, s, p, any);
    }
  }

  /** The number of terms or alternatives on the left spine. */
  function Size(re: Re): nat {
    match re
    case Cat(a, _) => Size(a) + 1
    case Alt(a, _) => Size(a) + 1
    case _ => 0
  }

  lemma CatSize(a: Re, b: Re)
    ensures Size(Cat(a, b)) == Size(a) + 1 && Size(Alt(a, b)) == Size(a) + 1
    ensures |Show(a)| + |Show(b)| == |Show(Cat(a, b))| && |Show(a)| + |Show(b)| < |Show(Alt(a, b))|
  {
  }

  lemma {:induction false} BeginsSize(re: Re, w: Re)
    requires BeginsCat(re, w) || BeginsAlt(re, w)
    ensures Size(re) <= Size(w) && |Show(re)| <= |Show(w)|
  {
    if re != w { BeginsSize(re, if w.Cat? then w.first else w.left); }
  }

  lemma {:induction false} DisjunctionUnique(w: Re, v: Re, s: seq<byte>, p: nat, any: bool)
    requires DisjunctionAt(w, s, p, any) && Close(s, p + |Show(w)|)
    requires DisjunctionAt(v, s, p, any) && Close(s, p + |Show(v)|)
    ensures w == v
    decreases |Show(w)|, 5, 0
  {
    hide DisjunctionAt, AlternativeAt;
    FirstAlternativeAt(w, s, p, any);
    FirstAlternativeAt(v, s, p, any);
    var a := FirstAlternative(w);
    BeginsSize(a, w);
    AlternativeUnique(a, FirstAlternative(v), s, p, any);
    DisjunctionFrom(a, w, v, s, p, any);
  }

  /** Two disjunctions with the same beginning. */
  lemma {:induction false} DisjunctionFrom(re: Re, w: Re, v: Re, s: seq<byte>, p: nat, any: bool)
    requires DisjunctionAt(w, s, p, any) && Close(s, p + |Show(w)|) && BeginsAlt(re, w)
    requires DisjunctionAt(v, s, p, any) && Close(s, p + |Show(v)|) && BeginsAlt(re, v)
    ensures w == v
    decreases |Show(w)|, 4, Size(w) - Size(re)
  {
    hide DisjunctionAt, AlternativeAt, NextAlternative, BeginsAlt, Size, Show;
    if re == w {
      NoFurtherAlternative(v, re, s, p, any);
    } else if re == v {
      NoFurtherAlternative(w, re, s, p, any);
    } else {
      NextAlternativeAt(re, w, s, p, any);
      NextAlternativeAt(re, v, s, p, any);
      var a := NextAlternative(re, w);
      BeginsSize(Alt(re, a), w);
      CatSize(re, a);
      AlternativeUnique(a, NextAlternative(re, v), s, p + |Show(re)| + 1, any);
      DisjunctionFrom(Alt(re, a), w, v, s, p, any);
    }
  }

  lemma OneMeaning(s: seq<byte>, w: Re, v: Re, any: bool)
    requires Means(s, w, any) && Means(s, v, any)
    ensures w == v
  {
    hide DisjunctionAt;
    DisjunctionUnique(w, v, s, 0, any);
  }
}
