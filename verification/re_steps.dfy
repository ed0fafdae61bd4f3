/** One machine step for each fragment of emitted code. */
module ReSteps {
  import opened ReSyntax
  import opened ReMachine

  lemma OpAt(code: seq<byte>, pc: nat, op: byte, rest: seq<byte>)
    requires At(code, pc, [op] + rest)
    ensures pc < |code| && code[pc] == op && At(code, pc + 1, rest)
  {
    AtSplit(code, pc, [op], rest);
    assert code[pc..pc + 1][0] == op;
  }

  lemma JumpRead(code: seq<byte>, pc: nat, op: byte, d: int)
    requires At(code, pc, Jump(op, d)) && -0x8000_0000 <= d < 0x8000_0000
    ensures pc + 5 <= |code| && code[pc] == op && Signed(GetU32(code, pc + 1)) == d
    ensures d >= 0 ==> GetU32(code, pc + 1) == d
  {
    OpAt(code, pc, op, U32(d));
    U32Read(code, pc + 1, d);
  }

  lemma GotoMoves(m: Machine, pc: nat, d: int, i: nat, fr: Frame)
    requires At(m.code, pc, Jump(GOTO, d)) && -0x8000_0000 <= d < 0x8000_0000 && pc + 5 + d >= 0
    ensures Moves(m, pc, i, fr, pc + 5 + d, i, fr)
  {
    JumpRead(m.code, pc, GOTO, d);
  }

  lemma PushMoves(m: Machine, pc: nat, n: nat, i: nat, fr: Frame)
    requires At(m.code, pc, Jump(PUSH_I32, n)) && n < 0x8000_0000
    ensures Moves(m, pc, i, fr, pc + 5, i, fr.(stack := fr.stack + [n]))
  {
    JumpRead(m.code, pc, PUSH_I32, n);
  }

  lemma LoopMoves(m: Machine, pc: nat, d: int, i: nat, fr: Frame, k: nat)
    requires At(m.code, pc, Jump(LOOP, d)) && -0x8000_0000 <= d < 0x8000_0000 && pc + 5 + d >= 0 && k >= 1
    ensures Moves(m, pc, i, fr.(stack := fr.stack + [k]),
                  if k != 1 then pc + 5 + d else pc + 5, i, fr.(stack := fr.stack + [k - 1]))
  {
    JumpRead(m.code, pc, LOOP, d);
    assert (fr.stack + [k])[|fr.stack| := k - 1] == fr.stack + [k - 1];
  }

  /** The check after a repetition that advanced from i to j. */
  lemma BneMoves(m: Machine, pc: nat, d: int, i: nat, j: nat, fr: Frame)
    requires At(m.code, pc, Jump(BNE_CHAR_POS, d)) && -0x8000_0000 <= d < 0x8000_0000 && pc + 5 + d >= 0 && i != j
    ensures Moves(m, pc, j, fr.(stack := fr.stack + [i]), pc + 5 + d, j, fr)
  {
    JumpRead(m.code, pc, BNE_CHAR_POS, d);
    assert (fr.stack + [i])[..|fr.stack|] == fr.stack;
  }

  lemma PushPosMoves(m: Machine, pc: nat, i: nat, fr: Frame)
    requires pc < |m.code| && m.code[pc] == PUSH_CHAR_POS
    ensures Moves(m, pc, i, fr, pc + 1, i, fr.(stack := fr.stack + [i]))
  {
  }

  lemma DropMoves(m: Machine, pc: nat, i: nat, fr: Frame, x: int)
    requires pc < |m.code| && m.code[pc] == DROP
    ensures Moves(m, pc, i, fr.(stack := fr.stack + [x]), pc + 1, i, fr)
  {
    assert (fr.stack + [x])[..|fr.stack|] == fr.stack;
  }

  /** A split tries one side and, failing into it, the other. */
  lemma SplitGives(m: Machine, pc: nat, near: bool, d: int, i: nat, fr: Frame, ln: seq<nat>, lf: seq<nat>, pc2: nat,
                   fr2: Frame)
    requires At(m.code, pc, Jump(Split(near), d)) && -0x8000_0000 <= d < 0x8000_0000 && pc + 5 + d >= 0
    requires Gives(m, pc + 5, i, fr, ln, pc2, fr2) && Gives(m, pc + 5 + d, i, fr, lf, pc2, fr2)
    ensures Gives(m, pc, i, fr, if near then ln + lf else lf + ln, pc2, fr2)
  {
    JumpRead(m.code, pc, Split(near), d);
    var first, second := if near then pc + 5 else pc + 5 + d, if near then pc + 5 + d else pc + 5;
    var l1, l2 := if near then ln else lf, if near then lf else ln;
    forall states ensures Yields(m, Run(pc, i, fr, states), l1 + l2, pc2, fr2, states) {
      var more := states + [SplitEntry(second, i, fr)];
      assert Step(m, Run(pc, i, fr, states)) == Run(first, i, fr, more);
      assert more[..|states|] == states;
      assert Step(m, Fail(more)) == Run(second, i, fr, states);
      YieldsStep(m, Fail(more), Run(second, i, fr, states), l2, pc2, fr2, states);
      YieldsAppend(m, Run(first, i, fr, more), l1, l2, pc2, fr2, more, states);
      YieldsStep(m, Run(pc, i, fr, states), Run(first, i, fr, more), l1 + l2, pc2, fr2, states);
    }
  }

  /** A character test yields the next position or nothing. */
  lemma CharGives(m: Machine, pc: nat, i: nat, fr: Frame, size: nat)
    requires pc < |m.code| && m.code[pc] in {CHAR, DOT, ANY} && OpSize(m.code[pc]) == size
    requires m.code[pc] == CHAR ==> pc + 3 <= |m.code|
    ensures CharStep(m, pc, i) == i + 1 || CharStep(m, pc, i) == -1
    ensures Gives(m, pc, i, fr, if CharStep(m, pc, i) == -1 then [] else [i + 1], pc + size, fr)
  {
    forall states
      ensures Yields(m, Run(pc, i, fr, states), if CharStep(m, pc, i) == -1 then [] else [i + 1], pc + size, fr, states)
    {
      if CharStep(m, pc, i) == -1 {
        YieldsNone(m, pc + size, fr, states);
        YieldsStep(m, Run(pc, i, fr, states), Fail(states), [], pc + size, fr, states);
      } else {
        YieldsOne(m, i + 1, pc + size, fr, states);
        YieldsStep(m, Run(pc, i, fr, states), Run(pc + size, i + 1, fr, states), [i + 1], pc + size, fr, states);
      }
    }
  }
}
