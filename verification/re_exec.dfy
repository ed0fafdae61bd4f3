/** lre_exec_backtrack as a loop over mutable registers, proved against the step function. */
module ReExec {
  import opened ReSyntax
  import opened ReMachine
  import opened ReTheorem

  lemma {:induction false} StuckForever(m: Machine, n: nat)
    ensures StepN(m, Stuck, n) == Stuck
    decreases n
  {
    if n > 0 { StuckForever(m, n - 1); }
  }

  lemma {:induction false} DoneForever(m: Machine, c: Config, n: nat)
    requires c.Done?
    ensures StepN(m, c, n) == c
    decreases n
  {
    if n > 0 { DoneForever(m, c, n - 1); }
  }

  /** A run that ends has a next step, and that step is not stuck. */
  lemma NextStep(m: Machine, c: Config, n: nat)
    requires StepN(m, c, n).Done? && !c.Done?
    ensures n > 0 && Step(m, c) != Stuck && StepN(m, c, n) == StepN(m, Step(m, c), n - 1)
  {
    if n > 0 && Step(m, c) == Stuck { StuckForever(m, n - 1); }
  }

  class ExecContext {
    const m: Machine
    /** The captures, written in place; -1 stands for a null pointer. */
    const captures: array<int>
    var pc: int
    var cptr: nat
    var stack: seq<int>
    var stateStack: seq<Entry>

    constructor (code: seq<byte>, subject: seq<byte>, cindex: nat)
      ensures m == Machine(code, subject) && fresh(captures)
      ensures Current() == Run(0, cindex, Unset(), [])
    {
      m := Machine(code, subject);
      captures := new int[2](_ => -1);
      pc, cptr, stack, stateStack := 0, cindex, [], [];
      new;
      assert captures[..] == [-1, -1];
    }

    /** The registers as a configuration. */
    ghost function Current(): Config
      reads this, captures
    {
      Run(pc, cptr, Frame(stack, captures[..]), stateStack)
    }

    /** Saves position, stack and captures for another try at address back (push_state). */
    method PushState(back: nat)
      modifies this`stateStack
      ensures stateStack == old(stateStack) + [SplitEntry(back, cptr, Frame(stack, captures[..]))]
    {
      stateStack := stateStack + [SplitEntry(back, cptr, Frame(stack, captures[..]))];
    }

    method CopyCaptures(saved: seq<int>)
      requires |saved| == captures.Length
      modifies captures
      ensures captures[..] == saved
    {
      var i := 0;
      while i < captures.Length
        invariant 0 <= i <= captures.Length && captures[..i] == saved[..i]
      {
        captures[i] := saved[i];
        i := i + 1;
      }
    }

    /** Every saved frame has captures of the right length. */
    ghost predicate Saved()
      reads this
    {
      forall e :: e in stateStack ==> |e.fr.captures| == captures.Length
    }

    /** No match here: takes up the newest backtrack point (lines 2118-2159). */
    method PopState()
      requires Saved() && |stateStack| > 0 && Pop(m, stateStack) != Stuck
      modifies this, captures
      ensures Saved() && Current() == Pop(m, old(stateStack))
    {
      var rs := stateStack[|stateStack| - 1];
      var below := stateStack[..|stateStack| - 1];
      CopyCaptures(rs.fr.captures);
      stack := rs.fr.stack;
      match rs {
        case SplitEntry(back, at, _) =>
          pc, cptr, stateStack := back, at, below;
        case GreedyEntry(back, at, fr, count) =>
          cptr := at - GetU32(m.code, back + 12);
          pc := back + 16 + Signed(GetU32(m.code, back));
          stateStack := if count == 1 then below else below + [GreedyEntry(back, cptr, fr, count - 1)];
      }
    }

    /** The nested call with no_recurse: straight-line code up to its match opcode; -1 for no match. */
    method ExecSimple(pc0: nat, cptr0: nat) returns (res: int)
      requires SimpleRun(m, pc0, cptr0) != -2
      ensures res == SimpleRun(m, pc0, cptr0)
    {
      var p: nat, c: nat := pc0, cptr0;
      while m.code[p] != MATCH
        invariant SimpleRun(m, p, c) == SimpleRun(m, pc0, cptr0) && p < |m.code|
        decreases |m.code| - p
      {
        var r := CharStep(m, p, c);
        if r == -1 { return -1; }
        p, c := p + OpSize(m.code[p]), r;
      }
      return c;
    }

    /** The greedy quantifier: as many repetitions as possible, one entry to give them back (lines 2450-2489). */
    method ExecGreedy() returns (ok: bool)
      requires Saved() && 0 <= pc && pc + 17 <= |m.code|
      requires StepGreedy(m, pc + 1, cptr, Frame(stack, captures[..]), stateStack) != Stuck
      modifies this
      ensures Saved()
      ensures ok ==> Current() == old(StepGreedy(m, pc + 1, cptr, Frame(stack, captures[..]), stateStack))
      ensures !ok ==> Fail(stateStack) == old(StepGreedy(m, pc + 1, cptr, Frame(stack, captures[..]), stateStack))
    {
      hide GetU32, SimpleRun;
      ghost var cptr0 := cptr;
      var p := pc + 1;
      var nextPos, min, max := Signed(GetU32(m.code, p)), GetU32(m.code, p + 4), GetU32(m.code, p + 8);
      ghost var limit: nat := if max < 0 then 0 else max;
      var q, e := 0, cptr;
      var more := true;
      while more
        invariant more ==> GreedyRun(m, p + 16, e, q, limit) == GreedyRun(m, p + 16, cptr0, 0, limit)
        invariant !more ==> (q, e) == GreedyRun(m, p + 16, cptr0, 0, limit)
        invariant q >= 0 && e >= 0 && cptr == cptr0 && p == pc + 1
        invariant pc == old(pc) && stack == old(stack) && stateStack == old(stateStack)
        invariant GreedyRun(m, p + 16, cptr0, 0, limit).0 >= 0
        decreases more, if e <= |m.subject| then |m.subject| - e else 0
      {
        var res := ExecSimple(p + 16, e);
        if res == -1 {
          more := false;
        } else {
          if res <= e || res > |m.subject| { more := false; }
          q, e := q + 1, res;
          if q >= max && max != INF { more := false; }
        }
      }
      ok := q >= min;
      if ok {
        if q > min {
          stateStack := stateStack + [GreedyEntry(p, e, Frame(stack, captures[..]), q - min)];
        }
        pc, cptr := p + 16 + nextPos, e;
      }
    }

    /** The opcodes with a jump or a constant as operand. */
    method ExecJump(op: byte)
      requires Saved() && 0 <= pc && pc + 5 <= |m.code|
      requires op in {GOTO, SPLIT_GOTO_FIRST, SPLIT_NEXT_FIRST, LOOP, PUSH_I32, BNE_CHAR_POS}
      requires StepJump(op, GetU32(m.code, pc + 1), pc + 5, cptr, Frame(stack, captures[..]), stateStack) != Stuck
      modifies this
      ensures Saved()
      ensures Current() == old(StepJump(op, GetU32(m.code, pc + 1), pc + 5, cptr, Frame(stack, captures[..]),
                                        stateStack))
    {
      hide GetU32;
      var val := GetU32(m.code, pc + 1);
      pc := pc + 5;
      if op == GOTO {
        pc := pc + Signed(val);
      } else if op == SPLIT_NEXT_FIRST {
        PushState(pc + Signed(val));
      } else if op == SPLIT_GOTO_FIRST {
        PushState(pc);
        pc := pc + Signed(val);
      } else if op == PUSH_I32 {
        stack := stack + [val];
      } else if op == LOOP {
        stack := stack[|stack| - 1 := stack[|stack| - 1] - 1];
        if stack[|stack| - 1] != 0 { pc := pc + Signed(val); }
      } else {
        var top := stack[|stack| - 1];
        stack := stack[..|stack| - 1];
        if top != cptr { pc := pc + Signed(val); }
      }
    }

    /** One opcode other than match; false means no match. */
    method ExecOp() returns (ok: bool)
      requires Saved() && 0 <= pc < |m.code| && m.code[pc] != MATCH && Step(m, Current()) != Stuck
      modifies this, captures
      ensures Saved()
      ensures ok ==> Current() == old(Step(m, Current()))
      ensures !ok ==> Fail(stateStack) == old(Step(m, Current()))
    {
      hide GetU32, StepGreedy, StepJump, CharStep;
      ok := true;
      var op := m.code[pc];
      if op in {CHAR, CHAR32, DOT, ANY} {
        var r := CharStep(m, pc, cptr);
        if r == -1 { return false; }
        pc, cptr := pc + OpSize(op), r;
      } else if op in {GOTO, SPLIT_GOTO_FIRST, SPLIT_NEXT_FIRST, LOOP, PUSH_I32, BNE_CHAR_POS} {
        ExecJump(op);
      } else if op == SAVE_START || op == SAVE_END {
        captures[2 * m.code[pc + 1] + op - SAVE_START] := cptr;
        pc := pc + 2;
      } else if op == DROP {
        pc, stack := pc + 1, stack[..|stack| - 1];
      } else if op == PUSH_CHAR_POS {
        pc, stack := pc + 1, stack + [cptr];
      } else {
        ok := ExecGreedy();
      }
    }

    /** Runs to the end; n is the length of the run. True means match, with the captures set. */
    method LreExecBacktrack(ghost n: nat) returns (ret: bool)
      requires Saved() && StepN(m, Current(), n).Done?
      modifies this, captures
      ensures old(StepN(m, Current(), n)).matched == ret
      ensures ret ==> captures[..] == old(StepN(m, Current(), n)).captures
    {
      hide Step, StepN, Pop;
      ghost var final := StepN(m, Current(), n);
      ghost var left := n;
      while true
        invariant Saved() && StepN(m, Current(), left) == final && final.Done?
        decreases left
      {
        NextStep(m, Current(), left);
        InRange(m, Current());
        if m.code[pc] == MATCH {
          MatchIsFinal(m, pc, cptr, Frame(stack, captures[..]), stateStack, left);
          // a match discards every backtrack point
          ghost var caps := captures[..];
          while |stateStack| > 0
            invariant captures[..] == caps
          {
            stateStack := stateStack[..|stateStack| - 1];
          }
          return true;
        }
        var ok := ExecOp();
        left := left - 1;
        if !ok {
          NextStep(m, Fail(stateStack), left);
          if |stateStack| == 0 {
            FailIsFinal(m, left);
            return false;
          }
          FailPops(m, stateStack);
          PopState();
          left := left - 1;
        }
      }
    }
  }

  lemma InRange(m: Machine, c: Config)
    requires c.Run? && Step(m, c) != Stuck
    ensures 0 <= c.pc < |m.code|
  {
  }

  lemma FailPops(m: Machine, states: seq<Entry>)
    requires |states| > 0
    ensures Step(m, Fail(states)) == Pop(m, states)
  {
  }

  lemma MatchIsFinal(m: Machine, pc: nat, cptr: nat, fr: Frame, states: seq<Entry>, n: nat)
    requires pc < |m.code| && m.code[pc] == MATCH && n > 0
    ensures StepN(m, Run(pc, cptr, fr, states), n) == Done(true, fr.captures)
  {
    hide StepN;
    assert Step(m, Run(pc, cptr, fr, states)) == Done(true, fr.captures);
    DoneForever(m, Done(true, fr.captures), n - 1);
    StepNUnfold(m, Run(pc, cptr, fr, states), n);
  }

  lemma FailIsFinal(m: Machine, n: nat)
    requires n > 0
    ensures StepN(m, Fail([]), n) == Done(false, [])
  {
    hide StepN;
    assert Step(m, Fail([])) == Done(false, []);
    DoneForever(m, Done(false, []), n - 1);
    StepNUnfold(m, Fail([]), n);
  }

  lemma StepNUnfold(m: Machine, c: Config, n: nat)
    requires n > 0
    ensures StepN(m, c, n) == StepN(m, Step(m, c), n - 1)
  {
  }

  /** lre_exec on a compiled program: the first match from cindex on, by position and then by priority. */
  method LreExec(code: seq<byte>, subject: seq<byte>, cindex: nat, ghost re: Re, ghost sticky: bool)
    returns (matched: bool, start: int, end: int)
    requires code == Program(re, sticky) && Advancing(re) && |code| < 0x8000_0000 && cindex <= |subject|
    ensures matched <==> FirstMatch(re, subject, cindex, sticky) != -1
    ensures matched ==> start == FirstMatch(re, subject, cindex, sticky) && end == Ends(re, subject, start)[0]
  {
    hide Program, Ends, StepN;
    ghost var m := Machine(code, subject);
    var s := new ExecContext(code, subject, cindex);
    ProgramCorrect(m, re, sticky, cindex);
    ghost var n: nat :| StepN(m, Run(0, cindex, Unset(), []), n) == Outcome(re, subject, cindex, sticky);
    matched := s.LreExecBacktrack(n);
    start, end := -1, -1;
    if matched {
      start, end := s.captures[0], s.captures[1];
    }
  }
}
