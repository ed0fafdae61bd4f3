/** The single-pass compiler: it emits code while it reads the pattern and inserts bytes into what it has emitted. */
module ReCompile {
  import opened ReSyntax
  import opened ReText
  import opened ReTheorem

  /** How reading ended: NotModelled for syntax this model does not cover. */
  datatype Status = Parsed | SyntaxError | NotModelled

  lemma InsertedGap(b: seq<byte>, pre: seq<byte>, gap: seq<byte>, c: seq<byte>)
    requires b == pre + gap + c
    ensures b[..|pre|] == pre + [] && b[|pre| + |gap|..] == c && |b| == |pre| + |gap| + |c|
  {
  }

  lemma SplitAt(b: seq<byte>, k: nat, x: seq<byte>, y: seq<byte>)
    requires k <= |b| && b[..k] == x && b[k..] == y
    ensures b == x + y
  {
  }

  class ReParseState {
    const pattern: seq<byte>
    const dotall: bool
    var bufPtr: nat
    var byteCode: seq<byte>

    constructor (pattern: seq<byte>, dotall: bool)
      ensures this.pattern == pattern && this.dotall == dotall && bufPtr == 0 && byteCode == []
    {
      this.pattern, this.dotall := pattern, dotall;
      bufPtr, byteCode := 0, [];
    }

    /** The pattern is zero terminated. */
    function Peek(p: nat): byte {
      if p < |pattern| then pattern[p] else 0
    }

    // ---- the byte buffer ------------------------------------------------

    method ReEmitOp(op: byte)
      modifies this`byteCode
      ensures byteCode == old(byteCode) + [op]
    {
      byteCode := byteCode + [op];
    }

    method ReEmitOpU16(op: byte, val: int)
      modifies this`byteCode
      ensures byteCode == old(byteCode) + ([op] + U16(val))
    {
      ReEmitOp(op);
      byteCode := byteCode + U16(val);
    }

    /** Returns the offset of the operand. */
    method ReEmitOpU32(op: byte, val: int) returns (pos: nat)
      modifies this`byteCode
      ensures byteCode == old(byteCode) + Jump(op, val) && pos == |old(byteCode)| + 1
    {
      ReEmitOp(op);
      pos := |byteCode|;
      byteCode := byteCode + U32(val);
    }

    /** A jump to the absolute offset val. */
    method ReEmitGoto(op: byte, val: int)
      modifies this`byteCode
      ensures byteCode == old(byteCode) + Jump(op, val - (|old(byteCode)| + 5))
    {
      ReEmitOp(op);
      var pos := |byteCode|;
      byteCode := byteCode + U32(val - (pos + 4));
    }

    /** Shifts the code from pos on by len bytes; the gap keeps what lay there. */
    method DbufInsert(pos: nat, len: nat) returns (ghost gap: seq<byte>)
      requires pos <= |byteCode|
      modifies this`byteCode
      ensures |gap| == len && byteCode == old(byteCode)[..pos] + gap + old(byteCode)[pos..]
    {
      var b := byteCode;
      var hole := seq(len, i requires 0 <= i < len => if pos + i < |b| then b[pos + i] else 0);
      gap := hole;
      byteCode := b[..pos] + hole + b[pos..];
    }

    method PutByte(pos: nat, v: byte)
      requires pos < |byteCode|
      modifies this`byteCode
      ensures |byteCode| == |old(byteCode)| && byteCode[..pos + 1] == old(byteCode)[..pos] + [v]
      ensures byteCode[pos + 1..] == old(byteCode)[pos + 1..]
    {
      byteCode := byteCode[pos := v];
    }

    method PutU32(pos: nat, v: int)
      requires pos + 4 <= |byteCode|
      modifies this`byteCode
      ensures |byteCode| == |old(byteCode)| && byteCode[..pos + 4] == old(byteCode)[..pos] + U32(v)
      ensures byteCode[pos + 4..] == old(byteCode)[pos + 4..]
    {
      hide U32;
      byteCode := byteCode[..pos] + U32(v) + byteCode[pos + 4..];
    }

    /** Writes an opcode with a 32-bit operand over the code at pos; pre + acc is what lies before it. */
    method PutJump(pos: nat, op: byte, distance: int, ghost pre: seq<byte>, ghost acc: seq<byte>)
      requires pos + 5 <= |byteCode| && byteCode[..pos] == pre + acc
      modifies this`byteCode
      ensures |byteCode| == |old(byteCode)| && byteCode[..pos + 5] == pre + (acc + Jump(op, distance))
      ensures byteCode[pos + 5..] == old(byteCode)[pos + 5..]
    {
      hide U32;
      ghost var rest := byteCode[pos + 5..];
      PutByte(pos, op);
      assert byteCode[pos + 5..] == byteCode[pos + 1..][4..] == rest;
      PutU32(pos + 1, distance);
      AppendAssoc(pre + acc, [op], U32(distance));
      AppendAssoc(pre, acc, Jump(op, distance));
    }

    /** Inserts a jump before the code from pos on. */
    method InsertJump(pos: nat, op: byte, distance: int)
      requires pos <= |byteCode|
      modifies this`byteCode
      ensures byteCode == old(byteCode)[..pos] + (Jump(op, distance) + old(byteCode)[pos..])
    {
      hide U32;
      ghost var pre, c := byteCode[..pos], byteCode[pos..];
      ghost var gap := DbufInsert(pos, 5);
      InsertedGap(byteCode, pre, gap, c);
      PutJump(pos, op, distance, pre, []);
      assert [] + Jump(op, distance) == Jump(op, distance);
      SplitAt(byteCode, pos + 5, pre + Jump(op, distance), c);
      AppendAssoc(pre, Jump(op, distance), c);
    }

    // ---- quantifiers ----------------------------------------------------

    /** The optimised form (lines 1566-1589). */
    method EmitGreedy(start: nat, min: nat, max: nat, count: nat, ghost c: seq<byte>)
      requires start <= |byteCode| && c == byteCode[start..]
      modifies this`byteCode
      ensures byteCode == old(byteCode)[..start] + GreedyCode(c, min, max, count)
    {
      hide U32;
      ghost var pre := byteCode[..start];
      SplitAt(byteCode, start, pre, c);
      ReEmitOp(MATCH);
      AppendAssoc(pre, c, [MATCH]);
      assert byteCode[..start] == pre && byteCode[start..] == c + [MATCH];
      ghost var gap := DbufInsert(start, 17);
      InsertedGap(byteCode, pre, gap, c + [MATCH]);
      PutJump(start, SIMPLE_GREEDY_QUANT, |byteCode| - start - 17, pre, []);
      ghost var acc := [] + Jump(SIMPLE_GREEDY_QUANT, |c| + 1);
      assert acc == [SIMPLE_GREEDY_QUANT] + U32(|c| + 1);
      PutOperand(start + 5, min, pre, acc, 8);
      PutOperand(start + 9, max, pre, acc + U32(min), 4);
      PutOperand(start + 13, count, pre, acc + U32(min) + U32(max), 0);
      acc := acc + U32(min) + U32(max) + U32(count);
      SplitAt(byteCode, start + 17, pre + acc, c + [MATCH]);
      AppendAssoc(pre, acc, c + [MATCH]);
      AppendAssoc(acc, c, [MATCH]);
    }

    /** Writes one more operand; after bytes of the opcode remain to be written. */
    method PutOperand(pos: nat, v: int, ghost pre: seq<byte>, ghost acc: seq<byte>, ghost after: nat)
      requires pos + 4 + after <= |byteCode| && byteCode[..pos] == pre + acc
      modifies this`byteCode
      ensures |byteCode| == |old(byteCode)| && byteCode[..pos + 4] == pre + (acc + U32(v))
      ensures byteCode[pos + 4 + after..] == old(byteCode)[pos + 4 + after..]
    {
      hide U32;
      ghost var rest := byteCode[pos + 4 + after..];
      PutU32(pos, v);
      assert byteCode[pos + 4 + after..] == byteCode[pos + 4..][after..] == rest;
      AppendAssoc(pre, acc, U32(v));
    }

    /** An unbounded loop around the atom just emitted (lines 1621-1637). */
    method EmitStar(start: nat, greedy: bool, az: bool, ghost c: seq<byte>)
      requires start <= |byteCode| && c == byteCode[start..]
      modifies this`byteCode
      ensures byteCode == old(byteCode)[..start] + StarCode(c, greedy, az)
    {
      hide U32, Jump;
      ghost var pre := byteCode[..start];
      var len := |byteCode| - start;
      var extra := if az then 1 else 0;
      ghost var gap := DbufInsert(start, 5 + extra);
      InsertedGap(byteCode, pre, gap, c);
      PutJump(start, Split(greedy), len + 5 + extra, pre, []);
      ghost var acc := Jump(Split(greedy), |c| + 5 + extra);
      assert [] + acc == acc;
      ghost var mid := if az then [PUSH_CHAR_POS] else [];
      if az {
        ghost var rest := byteCode[start + 6..];
        assert rest == byteCode[start + 5..][1..];
        PutByte(start + 1 + 4, PUSH_CHAR_POS);
      } else {
        assert pre + acc == pre + acc + [];
      }
      AppendAssoc(pre, acc, mid);
      SplitAt(byteCode, start + 5 + extra, pre + (acc + mid), c);
      AppendAssoc(pre, acc + mid, c);
      ghost var back := -(|c| + 10 + extra);
      ReEmitGoto(if az then BNE_CHAR_POS else GOTO, start);
      AppendAssoc(pre, acc + mid + c, Jump(if az then BNE_CHAR_POS else GOTO, back));
    }

    /** A counted loop around the atom just emitted (lines 1639-1648). */
    method EmitCounted(start: nat, greedy: bool, max: nat, ghost c: seq<byte>)
      requires start <= |byteCode| && c == byteCode[start..]
      modifies this`byteCode
      ensures byteCode == old(byteCode)[..start] + CountedCode(c, greedy, max)
    {
      hide U32, Jump;
      ghost var pre := byteCode[..start];
      var len := |byteCode| - start;
      ghost var gap := DbufInsert(start, 10);
      InsertedGap(byteCode, pre, gap, c);
      PutJump(start, PUSH_I32, max, pre, []);
      ghost var acc := Jump(PUSH_I32, max);
      assert [] + acc == acc;
      assert byteCode[start + 10..] == byteCode[start + 5..][5..] == c;
      PutJump(start + 5, Split(greedy), len + 5, pre, acc);
      acc := acc + Jump(Split(greedy), |c| + 5);
      SplitAt(byteCode, start + 10, pre + acc, c);
      AppendAssoc(pre, acc, c);
      EmitLoopEnd(start + 5, pre, acc + c);
    }

    /** The backward jump of a counted loop, and the drop of its counter. */
    method EmitLoopEnd(target: nat, ghost pre: seq<byte>, ghost acc: seq<byte>)
      requires byteCode == pre + acc
      modifies this`byteCode
      ensures byteCode == pre + (acc + Jump(LOOP, target - (|old(byteCode)| + 5)) + [DROP])
    {
      hide U32, Jump;
      ghost var back := target - (|byteCode| + 5);
      ReEmitGoto(LOOP, target);
      AppendAssoc(pre, acc, Jump(LOOP, back));
      ReEmitOp(DROP);
      AppendAssoc(pre, acc + Jump(LOOP, back), [DROP]);
    }

    /** The required repetitions, counted on the stack (lines 1658-1665); returns where the atom now starts. */
    method EmitRepeat(start: nat, min: nat, ghost c: seq<byte>) returns (atomStart: nat)
      requires start <= |byteCode| && c == byteCode[start..]
      modifies this`byteCode
      ensures byteCode == old(byteCode)[..start] + RepeatCode(c, min) && atomStart == start + 5
      ensures atomStart + |c| <= |byteCode| && byteCode[atomStart..atomStart + |c|] == c
    {
      hide U32, Jump;
      ghost var pre := byteCode[..start];
      InsertJump(start, PUSH_I32, min);
      atomStart := start + 5;
      assert byteCode[atomStart..] == c;
      ghost var b := byteCode;
      EmitLoopEnd(atomStart, pre, Jump(PUSH_I32, min) + c);
      assert byteCode[atomStart..atomStart + |c|] == c;
    }

    /** Appends a copy of len bytes of the buffer (dbuf_put_self). */
    method DbufPutSelf(offset: nat, len: nat)
      requires offset + len <= |byteCode|
      modifies this`byteCode
      ensures byteCode == old(byteCode) + old(byteCode)[offset..offset + len]
    {
      byteCode := byteCode + byteCode[offset..offset + len];
    }

    /** The optional repetitions behind the required ones, around a copy of the atom (lines 1667-1688). */
    method EmitTail(atomStart: nat, len: nat, q: Quantifier, az: bool, ghost c: seq<byte>)
      requires atomStart + len <= |byteCode| && c == byteCode[atomStart..atomStart + len] && q.min <= q.max
      modifies this`byteCode
      ensures byteCode == old(byteCode) + (if q.max == INF then StarCode(c, q.greedy, az)
                                           else if q.max > q.min then CountedCode(c, q.greedy, q.max - q.min) else [])
    {
      if q.max == INF {
        CopyStar(atomStart, len, q.greedy, az, c);
      } else if q.max > q.min {
        CopyCounted(atomStart, len, q.greedy, q.max - q.min, c);
      } else {
        assert byteCode + [] == byteCode;
      }
    }

    method CopyStar(atomStart: nat, len: nat, greedy: bool, az: bool, ghost c: seq<byte>)
      requires atomStart + len <= |byteCode| && c == byteCode[atomStart..atomStart + len]
      modifies this`byteCode
      ensures byteCode == old(byteCode) + StarCode(c, greedy, az)
    {
      hide U32, Jump;
      ghost var b := byteCode;
      var extra := if az then 1 else 0;
      var pos := |byteCode|;
      var _ := ReEmitOpU32(Split(greedy), len + 5 + extra);
      ghost var acc, mid := Jump(Split(greedy), |c| + 5 + extra), if az then [PUSH_CHAR_POS] else [];
      if az { ReEmitOp(PUSH_CHAR_POS); } else { assert byteCode == b + acc + []; }
      AppendAssoc(b, acc, mid);
      assert byteCode[atomStart..atomStart + len] == c;
      DbufPutSelf(atomStart, len);
      AppendAssoc(b, acc + mid, c);
      ReEmitGoto(if az then BNE_CHAR_POS else GOTO, pos);
      AppendAssoc(b, acc + mid + c, Jump(if az then BNE_CHAR_POS else GOTO, -(|c| + 10 + extra)));
    }

    method CopyCounted(atomStart: nat, len: nat, greedy: bool, n: nat, ghost c: seq<byte>)
      requires atomStart + len <= |byteCode| && c == byteCode[atomStart..atomStart + len]
      modifies this`byteCode
      ensures byteCode == old(byteCode) + CountedCode(c, greedy, n)
    {
      hide U32, Jump;
      ghost var b := byteCode;
      var _ := ReEmitOpU32(PUSH_I32, n);
      var pos := |byteCode|;
      var _ := ReEmitOpU32(Split(greedy), len + 5);
      ghost var acc := Jump(PUSH_I32, n) + Jump(Split(greedy), |c| + 5);
      AppendAssoc(b, Jump(PUSH_I32, n), Jump(Split(greedy), |c| + 5));
      assert byteCode[atomStart..atomStart + len] == c;
      DbufPutSelf(atomStart, len);
      AppendAssoc(b, acc, c);
      EmitLoopEnd(pos, b, acc + c);
    }

    /** Turns the atom emitted from start on into the quantified atom. */
    method ReEmitQuantifier(start: nat, q: Quantifier, ghost c: seq<byte>)
      requires start <= |byteCode| && c == byteCode[start..] && q.min <= q.max <= INF
      modifies this`byteCode
      ensures byteCode == old(byteCode)[..start] + QuantCode(c, q, ZeroAdvanceCheck(c, q))
    {
      hide SimpleScan, AdvanceScan, StarCode, CountedCode, RepeatCode, GreedyCode, Jump;
      ghost var pre := byteCode[..start];
      var atom := byteCode[start..];
      var len := |atom|;
      var az := false;
      var simple := 0;
      if q.greedy {
        if q.max > 0 { simple := SimpleScan(atom); }
        az := ZeroAdvanceCheck(atom, q);
      }
      if simple > 0 {
        EmitGreedy(start, q.min, q.max, simple, c);
      } else if q.min == 0 {
        if q.max == 0 {
          byteCode := byteCode[..start];
          assert pre == pre + [];
        } else if q.max == 1 {
          InsertJump(start, Split(q.greedy), len);
        } else if q.max == INF {
          EmitStar(start, q.greedy, az, c);
        } else {
          EmitCounted(start, q.greedy, q.max, c);
        }
      } else if q.min == 1 && q.max == INF && !az {
        SplitAt(byteCode, start, pre, c);
        ReEmitGoto(Split(!q.greedy), start);
        AppendAssoc(pre, c, Jump(Split(!q.greedy), -(|c| + 5)));
      } else {
        EmitRequired(start, q, az, c);
      }
    }

    /** Required repetitions, then the optional ones (lines 1655-1688). */
    method EmitRequired(start: nat, q: Quantifier, az: bool, ghost c: seq<byte>)
      requires start <= |byteCode| && c == byteCode[start..] && 1 <= q.min <= q.max <= INF
      modifies this`byteCode
      ensures byteCode == old(byteCode)[..start]
        + ((if q.min == 1 then c else RepeatCode(c, q.min))
           + (if q.max == INF then StarCode(c, q.greedy, az)
              else if q.max > q.min then CountedCode(c, q.greedy, q.max - q.min) else []))
    {
      hide StarCode, CountedCode, RepeatCode, Jump;
      ghost var pre := byteCode[..start];
      var len := |byteCode| - start;
      var atomStart := start;
      ghost var required := if q.min == 1 then c else RepeatCode(c, q.min);
      if q.min == 1 {
        SplitAt(byteCode, start, pre, c);
        assert byteCode[atomStart..atomStart + len] == c;
      } else {
        atomStart := EmitRepeat(start, q.min, c);
      }
      EmitTail(atomStart, len, q, az, c);
      AppendAssoc(pre, required, if q.max == INF then StarCode(c, q.greedy, az)
                                 else if q.max > q.min then CountedCode(c, q.greedy, q.max - q.min) else []);
    }

    // ---- reading the pattern --------------------------------------------

    /** Reads digits from p on; past INF the value stays at INF. */
    method ParseDigits(p0: nat) returns (v: nat, p: nat)
      requires p0 <= |pattern|
      ensures p0 <= p <= |pattern| && !IsDigit(Peek(p)) && v == Number(pattern[p0..p])
      ensures forall i :: p0 <= i < p ==> IsDigit(pattern[i])
    {
      v, p := 0, p0;
      while IsDigit(Peek(p))
        invariant p0 <= p <= |pattern| && v == Number(pattern[p0..p])
        invariant forall i :: p0 <= i < p ==> IsDigit(pattern[i])
        decreases |pattern| - p
      {
        assert pattern[p0..p + 1][..p - p0] == pattern[p0..p];
        v := v * 10 + (Peek(p) - 48);
        if v >= INF { v := INF; }
        p := p + 1;
      }
    }

    /** The bounds in braces at p, if it is a complete quantifier (lines 1521-1553). */
    method ParseBraces(p0: nat) returns (st: Status, found: bool, min: nat, max: nat, p: nat)
      requires p0 < |pattern| && pattern[p0] == 123
      ensures st.Parsed? && found ==> p0 < p <= |pattern| && Bounds(pattern[p0..p], min, max) && min <= max <= INF
      ensures st.Parsed? && !found ==> p == p0 && !BraceForm(pattern, p0)
      ensures !st.Parsed? <==> BadCount(pattern, p0)
    {
      hide BraceForm, BadCount, Bounds, Number;
      st, found, min, max, p := Parsed, false, 0, 0, p0;
      if !IsDigit(Peek(p0 + 1)) {
        NeedsDigit(pattern, p0);
        return;
      }
      min, p := ParseDigits(p0 + 1);
      max := min;
      ghost var d, e := pattern[p0 + 1..p], [];
      ghost var comma, second := false, false;
      ghost var p1 := p;
      if Peek(p) == 44 {
        comma := true;
        p := p + 1;
        if IsDigit(Peek(p)) {
          second := true;
          max, p := ParseDigits(p);
          e := pattern[p1 + 1..p];
          BadScan(pattern, p0, p1, p);
          if max < min { st := SyntaxError; return; }
        } else {
          max := INF;
        }
      }
      if !second { BadScan(pattern, p0, p1, p); }
      if Peek(p) != 125 {
        NotClosed(pattern, p0, p1, p);
        p := p0;
        return;
      }
      p := p + 1;
      found := true;
      BraceText(pattern, p0, p1, p, d, e, comma, second);
    }

    /** The quantifier at p, if there is one. */
    method ParseQuantifier(p0: nat) returns (st: Status, found: bool, q: Quantifier, p: nat)
      requires p0 <= |pattern|
      ensures st.Parsed? && found ==> p0 < p <= |pattern| && pattern[p0..p] == ShowQuant(q) && QuantAt(q, pattern, p0)
      ensures st.Parsed? && found ==> Bounds(q.text, q.min, q.max) && q.min <= q.max <= INF
      ensures st.Parsed? && !found ==> NoQuantifier(pattern, p0)
      ensures !st.Parsed? <==> BadCount(pattern, p0)
    {
      hide BraceForm, BadCount;
      ghost var other := p0 < |pattern| && pattern[p0] == 123;
      if !other { NoBrace(pattern, p0); }
      st, found, p := Parsed, true, p0 + 1;
      q := Quantifier(0, 0, true, []);
      var min, max := 0, INF;
      var c := Peek(p0);
      if c == 42 {
      } else if c == 43 {
        min := 1;
      } else if c == 63 {
        max := 1;
      } else if c == 123 {
        st, found, min, max, p := ParseBraces(p0);
      } else {
        found := false;
      }
      if !found || !st.Parsed? { return; }
      var text := pattern[p0..p];
      var greedy := true;
      if Peek(p) == 63 {
        p := p + 1;
        greedy := false;
      }
      assert pattern[p0..p] == text + (if greedy then [] else [63]);
      q := Quantifier(min, max, greedy, text);
    }

    /** A brace at the start of a term is an ordinary character unless it reads like a quantifier (lines 1245-1265). */
    method BraceIsOrdinary(p0: nat) returns (ordinary: bool)
      requires p0 < |pattern| && pattern[p0] == 123
      ensures ordinary <==> !BraceForm(pattern, p0)
    {
      hide BraceForm, Bounds, Number;
      if !IsDigit(Peek(p0 + 1)) {
        NeedsDigit(pattern, p0);
        return true;
      }
      var v, p1 := ParseDigits(p0 + 1);
      ghost var d, e, end := pattern[p0 + 1..p1], [], p1;
      ghost var comma, second := false, false;
      if Peek(p1) == 44 {
        comma := true;
        p1 := p1 + 1;
        if IsDigit(Peek(p1)) {
          second := true;
          v, p1 := ParseDigits(p1);
          e := pattern[end + 1..p1];
        }
      }
      ordinary := Peek(p1) != 125;
      if ordinary {
        NotClosed(pattern, p0, end, p1);
      } else {
        BraceText(pattern, p0, end, p1 + 1, d, e, comma, second);
        BraceFound(pattern, p0, p1 + 1, Number(d), if second then Number(e) else if comma then INF else Number(d));
      }
    }

    /**
     * What reading a piece of the pattern promises: the code emitted is that of a pattern written with the text read.
     */
    ghost predicate Read(re: Re, code0: seq<byte>, p0: nat)
      reads this
    {
      && byteCode == code0 + Code(re)
      && p0 <= bufPtr <= |pattern| && pattern[p0..bufPtr] == Show(re)
    }

    method ReParseAtom() returns (st: Status, ghost re: Re)
      requires bufPtr < |pattern|
      modifies this
      ensures st.Parsed? ==> Read(re, old(byteCode), old(bufPtr)) && IsAtom(re, dotall) && old(bufPtr) < bufPtr
      ensures st.Parsed? ==> PlainAtom(re, pattern, old(bufPtr))
      ensures OnlyAtom(st.Parsed?, re, pattern, old(bufPtr), dotall)
      decreases |pattern| - bufPtr, 1
    {
      hide Code, OnlyAtom, OnlyDisjunction, BraceForm, IsDisjunction, Plain;
      re := Empty;
      st := Parsed;
      ghost var p0, code0 := bufPtr, byteCode;
      var c := Peek(bufPtr);
      AtomOfFirst(re, pattern, p0, dotall);
      if c == 46 {
        bufPtr := bufPtr + 1;
        ReEmitOp(if dotall then ANY else DOT);
        re := Dot(dotall);
        AtomCode(0, dotall);
      } else if c == 40 {
        st, re := ReParseGroup();
      } else if c in {42, 43, 63} {
        st := SyntaxError;
      } else if Special(c) {
        st := NotModelled;
      } else {
        var ordinary := true;
        if c == 123 { ordinary := BraceIsOrdinary(bufPtr); }
        if !ordinary { return SyntaxError, re; }
        bufPtr := bufPtr + 1;
        ReEmitOpU16(CHAR, c);
        re := Chr(c);
        AtomCode(c, dotall);
      }
    }

    /** A non-capturing group (lines 1273-1283). */
    method ReParseGroup() returns (st: Status, ghost re: Re)
      requires bufPtr < |pattern| && pattern[bufPtr] == 40
      modifies this
      ensures st.Parsed? ==> Read(re, old(byteCode), old(bufPtr)) && IsAtom(re, dotall) && old(bufPtr) < bufPtr
      ensures st.Parsed? ==> PlainAtom(re, pattern, old(bufPtr))
      ensures OnlyAtom(st.Parsed?, re, pattern, old(bufPtr), dotall)
      decreases |pattern| - bufPtr, 0
    {
      hide Code, OnlyAtom, OnlyDisjunction, Plain;
      ghost var p0 := bufPtr;
      if Peek(bufPtr + 1) != 63 || Peek(bufPtr + 2) != 58 {
        NoGroup(Empty, pattern, p0, dotall);
        return NotModelled, Empty;
      }
      bufPtr := bufPtr + 3;
      ghost var body;
      st, body := ReParseDisjunction();
      re := Group(body);
      OnlyGroup(st.Parsed?, Peek(bufPtr) == 41, body, pattern, p0, dotall);
      if !st.Parsed? { return; }
      if Peek(bufPtr) != 41 { return SyntaxError, re; }
      bufPtr := bufPtr + 1;
      GroupText(pattern, p0, bufPtr, body);
    }

    method ReParseTerm() returns (st: Status, ghost re: Re)
      requires bufPtr < |pattern|
      modifies this
      ensures st.Parsed? ==> Read(re, old(byteCode), old(bufPtr)) && IsTerm(re, dotall) && old(bufPtr) < bufPtr
      ensures st.Parsed? ==> Plain(re, pattern, old(bufPtr))
      ensures OnlyTerm(st.Parsed?, re, pattern, old(bufPtr), dotall)
      decreases |pattern| - bufPtr, 2
    {
      hide Code, Bounds, OnlyAtom, OnlyTerm, IsAtom, Plain, PlainAtom, BadCount, NoQuantifier, Show, ShowQuant, IsTerm,
          QuantAt, QuantCode, ZeroAdvanceCheck;
      ghost var p0, code0 := bufPtr, byteCode;
      var lastAtomStart := |byteCode|;
      st, re := ReParseAtom();
      if !st.Parsed? {
        NoTerm(re, re, pattern, p0, dotall);
        return;
      }
      ghost var atom, p1 := re, bufPtr;
      assert p1 == p0 + |Show(atom)|;
      var found, q, p;
      st, found, q, p := ParseQuantifier(bufPtr);
      OnlyTermOf(atom, !st.Parsed?, found, q, pattern, p0, dotall);
      if found { re := Quant(atom, q); }
      if !st.Parsed? { return; }
      AtomIsPlain(atom, pattern, p0, dotall);
      PlainTerm(atom, q, pattern, p0, dotall);
      if !found { return; }
      bufPtr := p;
      assert byteCode[lastAtomStart..] == Code(atom) && byteCode[..lastAtomStart] == code0;
      ReEmitQuantifier(lastAtomStart, q, Code(atom));
      QuantText(pattern, p0, p1, p, atom, q);
    }

    method ReParseAlternative() returns (st: Status, ghost re: Re)
      requires bufPtr <= |pattern|
      modifies this
      ensures st.Parsed? ==> Read(re, old(byteCode), old(bufPtr)) && IsAlternative(re, dotall)
      ensures st.Parsed? ==> Plain(re, pattern, old(bufPtr)) && Stop(pattern, bufPtr)
      ensures OnlyAlternative(st.Parsed?, re, pattern, old(bufPtr), dotall)
      decreases |pattern| - bufPtr, 3
    {
      hide Code, OnlyAlternative, OnlyTerm, BeginsAlternative, IsTerm;
      st, re := Parsed, Empty;
      ghost var p0, code0 := bufPtr, byteCode;
      EmptyText(pattern, p0, code0);
      EmptyBeginsAll(pattern, p0, dotall);
      while true
        invariant st.Parsed? && Read(re, code0, p0) && IsAlternative(re, dotall) && p0 == old(bufPtr)
                  && code0 == old(byteCode)
        invariant Plain(re, pattern, p0) && BeginsAlternative(re, pattern, p0, dotall)
        decreases |pattern| - bufPtr
      {
        ReadLength(re, pattern, p0, bufPtr);
        if bufPtr >= |pattern| || Peek(bufPtr) == 124 || Peek(bufPtr) == 41 {
          LastTerm(re, pattern, p0, dotall);
          break;
        }
        ghost var p1, term := bufPtr, Empty;
        st, term := ReParseTerm();
        OneMoreTerm(st.Parsed?, re, term, re, pattern, p0, dotall);
        if !st.Parsed? { return; }
        CatText(pattern, p0, p1, bufPtr, code0, re, term);
        re := Cat(re, term);
      }
    }

    method ReParseDisjunction() returns (st: Status, ghost re: Re)
      requires bufPtr <= |pattern|
      modifies this
      ensures st.Parsed? ==> Read(re, old(byteCode), old(bufPtr)) && IsDisjunction(re, dotall)
      ensures st.Parsed? ==> Plain(re, pattern, old(bufPtr)) && Close(pattern, bufPtr)
      ensures OnlyDisjunction(st.Parsed?, re, pattern, old(bufPtr), dotall)
      decreases |pattern| - bufPtr, 4
    {
      hide Code, Jump, IsAlternative, OnlyAlternative, OnlyDisjunction, BeginsDisjunction;
      ghost var p0, code0 := bufPtr, byteCode;
      var start := |byteCode|;
      st, re := ReParseAlternative();
      FirstBeginsAll(st.Parsed?, re, re, pattern, p0, dotall);
      if !st.Parsed? { return; }
      while Peek(bufPtr) == 124
        invariant st.Parsed? && Read(re, code0, p0) && IsDisjunction(re, dotall) && p0 == old(bufPtr)
                  && code0 == old(byteCode)
        invariant Plain(re, pattern, p0) && Stop(pattern, bufPtr) && BeginsDisjunction(re, pattern, p0, dotall)
        decreases |pattern| - bufPtr
      {
        ReadLength(re, pattern, p0, bufPtr);
        ghost var p1, left := bufPtr, re;
        bufPtr := bufPtr + 1;
        var len := |byteCode| - start;
        assert byteCode[..start] == code0 && byteCode[start..] == Code(left);
        InsertJump(start, SPLIT_NEXT_FIRST, len + 5);
        ghost var head := Jump(SPLIT_NEXT_FIRST, |Code(left)| + 5) + Code(left);
        var pos := ReEmitOpU32(GOTO, 0);
        ghost var before, right := byteCode, Empty;
        st, right := ReParseAlternative();
        OneMoreAlternative(st.Parsed?, left, right, re, pattern, p0, dotall);
        if !st.Parsed? { return; }
        PatchGoto(pos, code0, head, Code(right));
        AltText(pattern, p0, p1, bufPtr, left, right);
        re := Alt(left, right);
        AltCode(left, right);
      }
      ReadLength(re, pattern, p0, bufPtr);
      LastAlternative(re, pattern, p0, dotall);
    }

    /** Fills in the jump over the second alternative, now that its length is known. */
    method PatchGoto(pos: nat, ghost code0: seq<byte>, ghost head: seq<byte>, ghost right: seq<byte>)
      requires pos == |code0| + |head| + 1
      requires byteCode == code0 + head + Jump(GOTO, 0) + right
      modifies this`byteCode
      ensures byteCode == code0 + (head + Jump(GOTO, |right|) + right)
    {
      hide U32;
      var len := |byteCode| - (pos + 4);
      ghost var b := byteCode;
      assert b[..pos] == code0 + head + [GOTO] && b[pos + 4..] == right;
      PutU32(pos, len);
      SplitAt(byteCode, pos + 4, code0 + head + [GOTO] + U32(|right|), right);
      AppendAssoc(code0 + head, [GOTO], U32(|right|));
      AppendAssoc(code0, head, Jump(GOTO, |right|));
      AppendAssoc(code0, head + Jump(GOTO, |right|), right);
    }
  }

  lemma AtomCode(c: byte, any: bool)
    ensures Code(Chr(c)) == [CHAR] + U16(c) && Code(Dot(any)) == [if any then ANY else DOT]
  {
  }

  lemma AltCode(a: Re, b: Re)
    ensures Code(Alt(a, b)) == Jump(SPLIT_NEXT_FIRST, |Code(a)| + 5) + Code(a) + Jump(GOTO, |Code(b)|) + Code(b)
  {
  }

  lemma BraceText(s: seq<byte>, p0: nat, p1: nat, p: nat, d: seq<byte>, e: seq<byte>, comma: bool, second: bool)
    requires p0 + 1 < p1 < p <= |s| && s[p0] == 123 && s[p - 1] == 125 && d == s[p0 + 1..p1] && Digits(d)
    requires !comma ==> p1 + 1 == p && !second
    requires comma ==> s[p1] == 44 && (!second ==> p1 + 2 == p)
    requires second ==> p1 + 2 < p && e == s[p1 + 1..p - 1] && Digits(e)
    ensures Bounds(s[p0..p], Number(d), if second then Number(e) else if comma then INF else Number(d))
  {
    var head := s[p0..p1];
    assert head == [123] + d;
    if second {
      assert s[p1..p] == [44] + e + [125];
      assert s[p0..p] == head + s[p1..p];
      assert head + ([44] + e + [125]) == head + [44] + e + [125];
    } else if comma {
      assert s[p0..p] == head + [44, 125];
    } else {
      assert s[p0..p] == [123] + d + [125];
    }
  }

  lemma PlainTerm(a: Re, q: Quantifier, s: seq<byte>, p: nat, any: bool)
    requires IsAtom(a, any) && Plain(a, s, p)
    ensures IsTerm(a, any)
    ensures Bounds(q.text, q.min, q.max) && q.min <= q.max <= INF ==>
              IsTerm(Quant(a, q), any) && Plain(Quant(a, q), s, p)
  {
    hide Bounds;
  }

  lemma BraceFound(s: seq<byte>, p0: nat, p: nat, min: nat, max: nat)
    requires p0 < p <= |s| && s[p0] == 123 && Bounds(s[p0..p], min, max)
    ensures BraceForm(s, p0)
  {
    assert BracesAt(s[p0..p], min, max, s, p0);
  }

  lemma ReadLength(re: Re, s: seq<byte>, p0: nat, p: nat)
    requires p0 <= p <= |s| && s[p0..p] == Show(re)
    ensures p == p0 + |Show(re)|
  {
  }

  lemma EmptyText(s: seq<byte>, p: nat, code: seq<byte>)
    requires p <= |s|
    ensures s[p..p] == Show(Empty) && code == code + Code(Empty)
  {
  }

  lemma GroupText(s: seq<byte>, p0: nat, p: nat, re: Re)
    requires p0 + 3 < p <= |s| && s[p0] == 40 && s[p0 + 1] == 63 && s[p0 + 2] == 58 && s[p - 1] == 41
    requires s[p0 + 3..p - 1] == Show(re)
    ensures s[p0..p] == Show(Group(re)) && Code(Group(re)) == Code(re)
  {
    assert s[p0..p] == [40, 63, 58] + s[p0 + 3..p - 1] + [41];
  }

  lemma QuantText(s: seq<byte>, p0: nat, p1: nat, p: nat, a: Re, q: Quantifier)
    requires p0 <= p1 <= p <= |s| && s[p0..p1] == Show(a) && s[p1..p] == ShowQuant(q)
    ensures s[p0..p] == Show(Quant(a, q)) && Code(Quant(a, q)) == QuantCode(Code(a), q, ZeroAdvanceCheck(Code(a), q))
  {
    assert s[p0..p] == s[p0..p1] + s[p1..p];
  }

  lemma CatText(s: seq<byte>, p0: nat, p1: nat, p: nat, code0: seq<byte>, a: Re, b: Re)
    requires p0 <= p1 <= p <= |s| && s[p0..p1] == Show(a) && s[p1..p] == Show(b)
    ensures s[p0..p] == Show(Cat(a, b)) && code0 + Code(a) + Code(b) == code0 + Code(Cat(a, b))
  {
    assert s[p0..p] == s[p0..p1] + s[p1..p];
    AppendAssoc(code0, Code(a), Code(b));
  }

  lemma AltText(s: seq<byte>, p0: nat, p1: nat, p: nat, a: Re, b: Re)
    requires p0 <= p1 < p <= |s| && s[p0..p1] == Show(a) && s[p1] == 124 && s[p1 + 1..p] == Show(b)
    ensures s[p0..p] == Show(Alt(a, b))
  {
    assert s[p0..p] == s[p0..p1] + [124] + s[p1 + 1..p];
  }

  /** lre_compile without header and flags: the program of a pattern written exactly with the given text. */
  method LreCompile(pattern: seq<byte>, dotall: bool, sticky: bool) returns (st: Status, code: seq<byte>, ghost re: Re)
    ensures st.Parsed? <==> exists w :: Means(pattern, w, dotall)
    ensures st.Parsed? ==> code == Program(re, sticky) && Means(pattern, re, dotall)
    ensures forall w :: Means(pattern, w, dotall) ==> w == re
  {
    hide Code, Jump, OnlyDisjunction, Means;
    var s := new ReParseState(pattern, dotall);
    if !sticky {
      var _ := s.ReEmitOpU32(SPLIT_GOTO_FIRST, 1 + 5);
      s.ReEmitOp(ANY);
      var _ := s.ReEmitOpU32(GOTO, -(5 + 1 + 5));
    }
    s.ReEmitOp(SAVE_START);
    s.ReEmitOp(0);
    ghost var head := s.byteCode;
    code := [];
    st, re := s.ReParseDisjunction();
    OnlyMeaning(st.Parsed?, re, pattern, dotall);
    if !st.Parsed? { return; }
    s.ReEmitOp(SAVE_END);
    s.ReEmitOp(0);
    s.ReEmitOp(MATCH);
    MeaningRead(re, pattern, s.bufPtr, dotall);
    if s.Peek(s.bufPtr) != 0 { st := SyntaxError; return; }
    code := s.byteCode;
    ProgramText(head, re, sticky);
  }

  lemma OnlyMeaning(found: bool, re: Re, s: seq<byte>, any: bool)
    requires OnlyDisjunction(found, re, s, 0, any)
    ensures forall w :: Means(s, w, any) ==> found && w == re
  {
    hide DisjunctionAt;
  }

  /** What was read is what the pattern means exactly if nothing is left. */
  lemma MeaningRead(re: Re, s: seq<byte>, p: nat, any: bool)
    requires p <= |s| && s[0..p] == Show(re) && IsDisjunction(re, any) && Plain(re, s, 0)
    ensures Means(s, re, any) <==> p == |s|
  {
    hide Show, IsDisjunction, Plain;
  }

  lemma ProgramText(head: seq<byte>, re: Re, sticky: bool)
    requires sticky ==> head == [] + [SAVE_START] + [0]
    requires !sticky ==> head == [] + Jump(SPLIT_GOTO_FIRST, 6) + [ANY] + Jump(GOTO, -11) + [SAVE_START] + [0]
    ensures head + Code(re) + [SAVE_END] + [0] + [MATCH] == Program(re, sticky)
  {
    hide Code, Jump;
    if sticky { assert head == [] + [SAVE_START, 0]; }
    else { assert head == (Jump(SPLIT_GOTO_FIRST, 6) + [ANY] + Jump(GOTO, -11)) + [SAVE_START, 0]; }
    assert head + Code(re) + [SAVE_END] + [0] == head + Code(re) + [SAVE_END, 0];
  }
}
