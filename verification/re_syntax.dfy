/** Patterns, their priority-ordered meaning, and the bytecode the compiler gives them. */
module ReSyntax {
  type byte = x: int | 0 <= x < 256

  // ---- bytes ------------------------------------------------------------

  /** A 32-bit word, least significant byte first; v is taken modulo 2^32. */
  function U32(v: int): (r: seq<byte>)
    ensures |r| == 4
  {
    [v % 256, (v / 256) % 256, (v / 65536) % 256, (v / 16777216) % 256]
  }

  function U16(v: int): (r: seq<byte>)
    ensures |r| == 2
  {
    [v % 256, (v / 256) % 256]
  }

  function GetU32(code: seq<byte>, pos: nat): int
    requires pos + 4 <= |code|
  {
    var b0: int, b1: int, b2: int, b3: int := code[pos], code[pos + 1], code[pos + 2], code[pos + 3];
    b0 + 256 * b1 + 65536 * b2 + 16777216 * b3
  }

  function GetU16(code: seq<byte>, pos: nat): int
    requires pos + 2 <= |code|
  {
    var b0: int, b1: int := code[pos], code[pos + 1];
    b0 + 256 * b1
  }

  /** A word read as a signed jump distance. */
  function Signed(v: int): int {
    if v >= 0x8000_0000 then v - 0x1_0000_0000 else v
  }

  lemma AppendAssoc(pre: seq<byte>, x: seq<byte>, y: seq<byte>)
    ensures (pre + x) + y == pre + (x + y)
  {
  }

  /** The fragment frag lies in code at pos. */
  ghost predicate At(code: seq<byte>, pos: nat, frag: seq<byte>) {
    pos + |frag| <= |code| && code[pos..pos + |frag|] == frag
  }

  lemma AtSplit(code: seq<byte>, pos: nat, a: seq<byte>, b: seq<byte>)
    requires At(code, pos, a + b)
    ensures At(code, pos, a) && At(code, pos + |a|, b)
  {
    var whole := code[pos..pos + |a + b|];
    assert whole[..|a|] == a && whole[|a|..] == b;
    assert code[pos..pos + |a|] == whole[..|a|];
    assert code[pos + |a|..pos + |a| + |b|] == whole[|a|..];
  }

  lemma U32Read(code: seq<byte>, pos: nat, v: int)
    requires At(code, pos, U32(v))
    ensures pos + 4 <= |code| && GetU32(code, pos) == v % 0x1_0000_0000
    ensures -0x8000_0000 <= v < 0x8000_0000 ==> Signed(GetU32(code, pos)) == v
  {
    var w := code[pos..pos + 4];
    assert code[pos] == w[0] && code[pos + 1] == w[1] && code[pos + 2] == w[2] && code[pos + 3] == w[3];
    U32Value(v);
  }

  lemma U32Value(v: int)
    ensures v % 256 + 256 * ((v / 256) % 256) + 65536 * ((v / 65536) % 256) + 16777216 * ((v / 16777216) % 256)
         == v % 0x1_0000_0000
  {
    var q1, q2, q3 := v / 256, v / 65536, v / 16777216;
    var q4 := q3 / 256;
    assert q2 == q1 / 256 && q3 == q2 / 256;
    assert v == 256 * q1 + v % 256 && q1 == 256 * q2 + q1 % 256 && q2 == 256 * q3 + q2 % 256
        && q3 == 256 * q4 + q3 % 256;
    assert q4 == v / 0x1_0000_0000;
  }

  lemma U16Read(code: seq<byte>, pos: nat, v: int)
    requires At(code, pos, U16(v)) && 0 <= v < 65536
    ensures pos + 2 <= |code| && GetU16(code, pos) == v
  {
    var w := code[pos..pos + 2];
    assert code[pos] == w[0] && code[pos + 1] == w[1];
  }

  // ---- opcodes (libregexp-opcode.h) -------------------------------------

  const CHAR: byte := 1
  const CHAR32: byte := 2
  const DOT: byte := 3
  const ANY: byte := 4
  const LINE_START: byte := 5
  const LINE_END: byte := 6
  const GOTO: byte := 7
  const SPLIT_GOTO_FIRST: byte := 8
  const SPLIT_NEXT_FIRST: byte := 9
  const MATCH: byte := 10
  const SAVE_START: byte := 11
  const SAVE_END: byte := 12
  const SAVE_RESET: byte := 13
  const LOOP: byte := 14
  const PUSH_I32: byte := 15
  const DROP: byte := 16
  const WORD_BOUNDARY: byte := 17
  const NOT_WORD_BOUNDARY: byte := 18
  const BACK_REFERENCE: byte := 19
  const BACKWARD_BACK_REFERENCE: byte := 20
  const RANGE: byte := 21
  const RANGE32: byte := 22
  const PUSH_CHAR_POS: byte := 25
  const BNE_CHAR_POS: byte := 26
  const PREV: byte := 27
  const SIMPLE_GREEDY_QUANT: byte := 28

  // ---- patterns ---------------------------------------------------------

  /** The count that stands for infinity. */
  const INF: nat := 0x7fff_ffff

  /** A quantifier: bounds, greediness, and the text it was written with (the final ? excluded). */
  datatype Quantifier = Quantifier(min: nat, max: nat, greedy: bool, text: seq<byte>)

  datatype Re =
    | Empty
    | Chr(c: byte)
    | Dot(any: bool)
    | Cat(first: Re, second: Re)
    | Alt(left: Re, right: Re)
    | Group(body: Re)
    | Quant(atom: Re, q: Quantifier)

  // ---- meaning: the ends of all matches from a position, in priority order

  function Flat(f: nat -> seq<nat>, l: seq<nat>): seq<nat> {
    if l == [] then [] else f(l[0]) + Flat(f, l[1..])
  }

  predicate IsLineTerminator(c: int) {
    c == 10 || c == 13 || c == 0x2028 || c == 0x2029
  }

  function Ends(re: Re, s: seq<byte>, i: nat): seq<nat>
    decreases re, 0, 0
  {
    match re
    case Empty => [i]
    case Chr(c) => if i < |s| && s[i] == c then [i + 1] else []
    case Dot(any) => if i < |s| && (any || !IsLineTerminator(s[i])) then [i + 1] else []
    case Cat(a, b) => Flat(j => Ends(b, s, j), Ends(a, s, i))
    case Alt(a, b) => Ends(a, s, i) + Ends(b, s, i)
    case Group(a) => Ends(a, s, i)
    case Quant(a, q) =>
      if q.max == 0 then [i]
      else Flat(j => UpTo(a, s, j, if q.max == INF then INF else if q.max < q.min then 0 else q.max - q.min, q.greedy),
                Repeat(a, s, i, q.min))
  }

  /** Exactly n repetitions. */
  function Repeat(a: Re, s: seq<byte>, i: nat, n: nat): seq<nat>
    decreases a, 1, n
  {
    if n == 0 then [i] else Flat(j => Repeat(a, s, j, n - 1), Ends(a, s, i))
  }

  /**
   * Up to n more repetitions, INF for any number; greedy prefers more, lazy fewer. Only advancing repetitions count.
   */
  function UpTo(a: Re, s: seq<byte>, i: nat, n: nat, greedy: bool): seq<nat>
    decreases a, 1, if i <= |s| then |s| - i else 0
  {
    if n == 0 then [i]
    else
      var more := Flat(j => if i < j <= |s| then UpTo(a, s, j, if n == INF then INF else n - 1, greedy)
                       else [], Ends(a, s, i));
      if greedy then more + [i] else [i] + more
  }

  // ---- code -------------------------------------------------------------

  function OpSize(op: byte): nat {
    if op == CHAR || op == SAVE_RESET || op == RANGE || op == RANGE32 then 3
    else if op == CHAR32 || op == GOTO || op == SPLIT_GOTO_FIRST || op == SPLIT_NEXT_FIRST || op == LOOP
            || op == PUSH_I32 || op == BNE_CHAR_POS || op == 23 || op == 24 then 5
    else if op == SAVE_START || op == SAVE_END || op == BACK_REFERENCE || op == BACKWARD_BACK_REFERENCE then 2
    else if op == SIMPLE_GREEDY_QUANT then 17
    else 1
  }

  /** Number of characters matched by straight-line character code, or -1 (re_is_simple_quantifier). */
  function SimpleScan(buf: seq<byte>): (n: int)
    ensures n >= -1
    decreases |buf|
  {
    if |buf| == 0 then 0
    else
      var op := buf[0];
      var len := OpSize(op)
        + (if op == RANGE && 3 <= |buf| then GetU16(buf, 1) * 4
           else if op == RANGE32 && 3 <= |buf| then GetU16(buf, 1) * 8 else 0);
      if op in {RANGE, RANGE32, CHAR, CHAR32, DOT, ANY} then
        var rest := if len <= |buf| then SimpleScan(buf[len..]) else 0;
        if rest == -1 then -1 else 1 + rest
      else if op in {LINE_START, LINE_END, WORD_BOUNDARY, NOT_WORD_BOUNDARY} then
        SimpleScan(buf[1..])
      else -1
  }

  function Split(greedy: bool): byte {
    if greedy then SPLIT_NEXT_FIRST else SPLIT_GOTO_FIRST
  }

  function Jump(op: byte, distance: int): (r: seq<byte>)
    ensures |r| == 5
  {
    [op] + U32(distance)
  }

  /** Loop code: body, and the way round it, with the check that a repetition advanced. */
  function StarCode(c: seq<byte>, greedy: bool, az: bool): (r: seq<byte>) {
    var extra := if az then 1 else 0;
    Jump(Split(greedy), |c| + 5 + extra) + (if az then [PUSH_CHAR_POS] else []) + c
    + Jump(if az then BNE_CHAR_POS else GOTO, -(|c| + 10 + extra))
  }

  /** Up to n repetitions, counted on the stack. */
  function CountedCode(c: seq<byte>, greedy: bool, n: int): (r: seq<byte>) {
    Jump(PUSH_I32, n) + Jump(Split(greedy), |c| + 5) + c + Jump(LOOP, -(|c| + 10)) + [DROP]
  }

  /** Exactly n repetitions, n at least 2. */
  function RepeatCode(c: seq<byte>, n: int): (r: seq<byte>) {
    Jump(PUSH_I32, n) + c + Jump(LOOP, -(|c| + 5)) + [DROP]
  }

  function GreedyCode(c: seq<byte>, min: nat, max: nat, count: nat): (r: seq<byte>) {
    [SIMPLE_GREEDY_QUANT] + U32(|c| + 1) + U32(min) + U32(max) + U32(count) + c + [MATCH]
  }

  /** The code of a quantified atom with code c; az is the zero-advance check (lines 1563-1690). */
  function QuantCode(c: seq<byte>, q: Quantifier, az: bool): seq<byte> {
    if q.greedy && q.max > 0 && SimpleScan(c) > 0 then GreedyCode(c, q.min, q.max, SimpleScan(c))
    else if q.min == 0 then
      if q.max == 0 then []
      else if q.max == 1 then Jump(Split(q.greedy), |c|) + c
      else if q.max == INF then StarCode(c, q.greedy, az)
      else CountedCode(c, q.greedy, q.max)
    else if q.min == 1 && q.max == INF && !az then
      c + Jump(Split(!q.greedy), -(|c| + 5))
    else
      (if q.min == 1 then c else RepeatCode(c, q.min))
      + (if q.max == INF then StarCode(c, q.greedy, az)
         else if q.max > q.min then CountedCode(c, q.greedy, q.max - q.min)
         else [])
  }

  /**
   * Result of re_check_advance on code without captures, back references or lookahead: 1, 0 or -2 for not known yet.
   */
  function AdvanceScan(buf: seq<byte>): int
    decreases |buf|
  {
    if |buf| == 0 then -2
    else
      var op := buf[0];
      if op in {RANGE, RANGE32, CHAR, CHAR32, DOT, ANY} then 1
      else if op in {LINE_START, LINE_END, PUSH_CHAR_POS, DROP, WORD_BOUNDARY, NOT_WORD_BOUNDARY, PREV} then
        AdvanceScan(buf[1..])
      else if op == PUSH_I32 then (if 5 <= |buf| then AdvanceScan(buf[5..]) else -2)
      else 0
  }

  predicate ZeroAdvanceCheck(c: seq<byte>, q: Quantifier) {
    q.greedy && AdvanceScan(c) != 1
  }

  function Code(re: Re): seq<byte> {
    match re
    case Empty => []
    case Chr(c) => [CHAR] + U16(c)
    case Dot(any) => [if any then ANY else DOT]
    case Cat(a, b) => Code(a) + Code(b)
    case Alt(a, b) => Jump(SPLIT_NEXT_FIRST, |Code(a)| + 5) + Code(a) + Jump(GOTO, |Code(b)|) + Code(b)
    case Group(a) => Code(a)
    case Quant(a, q) => QuantCode(Code(a), q, ZeroAdvanceCheck(Code(a), q))
  }

  // ---- the patterns covered ---------------------------------------------

  /** A lower bound on the number of characters a match takes. */
  function MinLen(re: Re): nat {
    match re
    case Empty => 0
    case Chr(_) => 1
    case Dot(_) => 1
    case Cat(a, b) => MinLen(a) + MinLen(b)
    case Alt(a, b) => if MinLen(a) <= MinLen(b) then MinLen(a) else MinLen(b)
    case Group(a) => MinLen(a)
    case Quant(a, q) => if q.max == 0 then 0 else q.min * MinLen(a)
  }

  /** Every quantified atom always consumes. */
  predicate Advancing(re: Re) {
    match re
    case Empty => true
    case Chr(_) => true
    case Dot(_) => true
    case Cat(a, b) => Advancing(a) && Advancing(b)
    case Alt(a, b) => Advancing(a) && Advancing(b)
    case Group(a) => Advancing(a)
    case Quant(a, q) => Advancing(a) && MinLen(a) >= 1 && q.min <= q.max <= INF
  }
}
