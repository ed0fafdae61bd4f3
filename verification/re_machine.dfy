/** The backtracking machine of lre_exec_backtrack as a step function, and what it means to yield a list of ends. */
module ReMachine {
  import opened ReSyntax

  /** What a backtrack point saves besides position and code address: stack and captures. */
  datatype Frame = Frame(stack: seq<int>, captures: seq<int>)

  /** An entry of the state stack. */
  datatype Entry =
    | SplitEntry(pc: nat, cptr: nat, fr: Frame)
    | GreedyEntry(pc: nat, cptr: nat, fr: Frame, count: nat)

  datatype Config =
    | Run(pc: int, cptr: nat, fr: Frame, states: seq<Entry>)
    | Fail(states: seq<Entry>)
    | Done(matched: bool, captures: seq<int>)
    | Stuck

  /** Code without its header, and an 8-bit subject. */
  datatype Machine = Machine(code: seq<byte>, subject: seq<byte>)

  /** One test of a character opcode: the position after it, or -1 for no match, or -2 for another opcode. */
  function CharStep(m: Machine, pc: nat, cptr: nat): int
    requires pc < |m.code|
  {
    var op := m.code[pc];
    if op == CHAR && pc + 3 <= |m.code| then
      if cptr < |m.subject| && m.subject[cptr] == GetU16(m.code, pc + 1) then cptr + 1 else -1
    else if op == CHAR32 && pc + 5 <= |m.code| then
      if cptr < |m.subject| && m.subject[cptr] == GetU32(m.code, pc + 1) then cptr + 1 else -1
    else if op == DOT then
      if cptr < |m.subject| && !IsLineTerminator(m.subject[cptr]) then cptr + 1 else -1
    else if op == ANY then
      if cptr < |m.subject| then cptr + 1 else -1
    else -2
  }

  /** The nested run of straight-line character code up to its match opcode: end position, -1, or -2 when stuck. */
  function SimpleRun(m: Machine, pc: nat, cptr: nat): (r: int)
    ensures r >= -2
    decreases |m.code| - pc
  {
    if pc >= |m.code| then -2
    else if m.code[pc] == MATCH then cptr
    else
      var r := CharStep(m, pc, cptr);
      if r < 0 then r else SimpleRun(m, pc + OpSize(m.code[pc]), r)
  }

  /** Repetitions of the nested run: how many, and where they end (lines 2464-2476). */
  function GreedyRun(m: Machine, pc: nat, cptr: nat, q: nat, max: nat): (r: (int, nat))
    decreases if cptr <= |m.subject| then |m.subject| - cptr else 0
  {
    var e := SimpleRun(m, pc, cptr);
    if e == -2 then (-2, cptr)
    else if e == -1 then (q, cptr)
    else if (q + 1 >= max && max != INF) || e <= cptr || e > |m.subject| then (q + 1, e)
    else GreedyRun(m, pc, e, q + 1, max)
  }

  function Pop(m: Machine, states: seq<Entry>): Config
    requires |states| > 0
  {
    var n := |states| - 1;
    match states[n]
    case SplitEntry(pc, cptr, fr) => Run(pc, cptr, fr, states[..n])
    case GreedyEntry(pc, cptr, fr, count) =>
      if pc + 16 > |m.code| || count == 0 || GetU32(m.code, pc + 12) > cptr then Stuck
      else
        var back := cptr - GetU32(m.code, pc + 12);
        Run(pc + 16 + Signed(GetU32(m.code, pc)), back, fr,
            if count == 1 then states[..n] else states[..n] + [GreedyEntry(pc, back, fr, count - 1)])
  }

  function Step(m: Machine, c: Config): Config {
    match c
    case Done(_, _) => c
    case Stuck => c
    case Fail(states) => if |states| == 0 then Done(false, []) else Pop(m, states)
    case Run(pc, cptr, fr, states) => if 0 <= pc < |m.code| then StepOp(m, pc, cptr, fr, states) else Stuck
  }

  function StepOp(m: Machine, pc: nat, cptr: nat, fr: Frame, states: seq<Entry>): Config
    requires pc < |m.code|
  {
    var op := m.code[pc];
    if op == MATCH then Done(true, fr.captures)
    else if op in {CHAR, CHAR32, DOT, ANY} then
      var r := CharStep(m, pc, cptr);
      if r == -2 then Stuck else if r == -1 then Fail(states) else Run(pc + OpSize(op), r, fr, states)
    else if op in {GOTO, SPLIT_GOTO_FIRST, SPLIT_NEXT_FIRST, LOOP, PUSH_I32, BNE_CHAR_POS} then
      if pc + 5 > |m.code| then Stuck else StepJump(op, GetU32(m.code, pc + 1), pc + 5, cptr, fr, states)
    else if op == SAVE_START || op == SAVE_END then
      if pc + 2 > |m.code| || 2 * m.code[pc + 1] + 1 >= |fr.captures| then Stuck
      else Run(pc + 2, cptr, fr.(captures := fr.captures[2 * m.code[pc + 1] + op - SAVE_START := cptr]), states)
    else if op == DROP then
      if |fr.stack| == 0 then Stuck else Run(pc + 1, cptr, fr.(stack := fr.stack[..|fr.stack| - 1]), states)
    else if op == PUSH_CHAR_POS then
      Run(pc + 1, cptr, fr.(stack := fr.stack + [cptr]), states)
    else if op == SIMPLE_GREEDY_QUANT then
      if pc + 17 > |m.code| then Stuck else StepGreedy(m, pc + 1, cptr, fr, states)
    else Stuck
  }

  /** The opcodes with a 32-bit operand; next is the address after it. */
  function StepJump(op: byte, val: int, next: nat, cptr: nat, fr: Frame, states: seq<Entry>): Config {
    var target := next + Signed(val);
    if op == GOTO then Run(target, cptr, fr, states)
    else if op == SPLIT_NEXT_FIRST then
      if target < 0 then Stuck else Run(next, cptr, fr, states + [SplitEntry(target, cptr, fr)])
    else if op == SPLIT_GOTO_FIRST then Run(target, cptr, fr, states + [SplitEntry(next, cptr, fr)])
    else if op == PUSH_I32 then Run(next, cptr, fr.(stack := fr.stack + [val]), states)
    else if |fr.stack| == 0 then Stuck
    else
      var n := |fr.stack| - 1;
      if op == LOOP then
        Run(if fr.stack[n] - 1 != 0 then target else next, cptr, fr.(stack := fr.stack[n := fr.stack[n] - 1]), states)
      else
        Run(if fr.stack[n] != cptr then target else next, cptr, fr.(stack := fr.stack[..n]), states)
  }

  /** The greedy quantifier of straight-line code; pc is the address of its four operands (lines 2450-2489). */
  function StepGreedy(m: Machine, pc: nat, cptr: nat, fr: Frame, states: seq<Entry>): Config
    requires pc + 16 <= |m.code|
  {
    var next, min, max := pc + 16 + Signed(GetU32(m.code, pc)), GetU32(m.code, pc + 4), GetU32(m.code, pc + 8);
    var r := GreedyRun(m, pc + 16, cptr, 0, if max < 0 then 0 else max);
    if r.0 < 0 then Stuck
    else if r.0 < min then Fail(states)
    else Run(next, r.1, fr, if r.0 > min then states + [GreedyEntry(pc, r.1, fr, r.0 - min)] else states)
  }

  // ---- runs -------------------------------------------------------------

  function StepN(m: Machine, c: Config, n: nat): Config
    decreases n
  {
    if n == 0 then c else StepN(m, Step(m, c), n - 1)
  }

  ghost predicate Reach(m: Machine, c: Config, d: Config) {
    exists n: nat :: StepN(m, c, n) == d
  }

  lemma {:induction false} StepNAdd(m: Machine, c: Config, j: nat, k: nat)
    ensures StepN(m, c, j + k) == StepN(m, StepN(m, c, j), k)
    decreases j
  {
    if j > 0 { StepNAdd(m, Step(m, c), j - 1, k); }
  }

  lemma ReachSelf(m: Machine, c: Config)
    ensures Reach(m, c, c)
  {
    assert StepN(m, c, 0) == c;
  }

  lemma ReachOne(m: Machine, c: Config, d: Config)
    requires Step(m, c) == d
    ensures Reach(m, c, d)
  {
    assert StepN(m, Step(m, c), 0) == d;
    assert StepN(m, c, 1) == d;
  }

  lemma ReachTrans(m: Machine, c: Config, d: Config, e: Config)
    requires Reach(m, c, d) && Reach(m, d, e)
    ensures Reach(m, c, e)
  {
    var j: nat :| StepN(m, c, j) == d;
    var k: nat :| StepN(m, d, k) == e;
    StepNAdd(m, c, j, k);
  }

  /**
   * From c the machine arrives at pc with each position of l in turn, failing back in between, and ends failing into
   * states.
   */
  ghost predicate Yields(m: Machine, c: Config, l: seq<nat>, pc: nat, fr: Frame, states: seq<Entry>)
    decreases |l|
  {
    if l == [] then Reach(m, c, Fail(states))
    else exists more ::
      Reach(m, c, Run(pc, l[0], fr, more)) && Yields(m, Fail(more), l[1..], pc, fr, states)
  }

  lemma YieldsAfter(m: Machine, c: Config, d: Config, l: seq<nat>, pc: nat, fr: Frame, states: seq<Entry>)
    requires Reach(m, c, d) && Yields(m, d, l, pc, fr, states)
    ensures Yields(m, c, l, pc, fr, states)
  {
    if l == [] {
      ReachTrans(m, c, d, Fail(states));
    } else {
      var more :| Reach(m, d, Run(pc, l[0], fr, more)) && Yields(m, Fail(more), l[1..], pc, fr, states);
      ReachTrans(m, c, d, Run(pc, l[0], fr, more));
    }
  }

  lemma YieldsStep(m: Machine, c: Config, d: Config, l: seq<nat>, pc: nat, fr: Frame, states: seq<Entry>)
    requires Step(m, c) == d && Yields(m, d, l, pc, fr, states)
    ensures Yields(m, c, l, pc, fr, states)
  {
    ReachOne(m, c, d);
    YieldsAfter(m, c, d, l, pc, fr, states);
  }

  /** Arriving once. */
  lemma YieldsOne(m: Machine, i: nat, pc: nat, fr: Frame, states: seq<Entry>)
    ensures Yields(m, Run(pc, i, fr, states), [i], pc, fr, states)
  {
    ReachSelf(m, Run(pc, i, fr, states));
    ReachSelf(m, Fail(states));
    assert [i][1..] == [];
    assert Yields(m, Fail(states), [], pc, fr, states);
  }

  lemma YieldsNone(m: Machine, pc: nat, fr: Frame, states: seq<Entry>)
    ensures Yields(m, Fail(states), [], pc, fr, states)
  {
    ReachSelf(m, Fail(states));
  }

  /** First one list, then, failing into what it leaves, another. */
  lemma {:induction false} YieldsAppend(m: Machine, c: Config, l1: seq<nat>, l2: seq<nat>, pc: nat, fr: Frame,
                                        mid: seq<Entry>, states: seq<Entry>)
    requires Yields(m, c, l1, pc, fr, mid) && Yields(m, Fail(mid), l2, pc, fr, states)
    ensures Yields(m, c, l1 + l2, pc, fr, states)
    decreases |l1|
  {
    hide Reach;
    if l1 == [] {
      assert l1 + l2 == l2;
      YieldsAfter(m, c, Fail(mid), l2, pc, fr, states);
    } else {
      var more :| Reach(m, c, Run(pc, l1[0], fr, more)) && Yields(m, Fail(more), l1[1..], pc, fr, mid);
      YieldsAppend(m, Fail(more), l1[1..], l2, pc, fr, mid, states);
      assert (l1 + l2)[1..] == l1[1..] + l2 && (l1 + l2)[0] == l1[0];
      assert Reach(m, c, Run(pc, (l1 + l2)[0], fr, more)) && Yields(m, Fail(more), (l1 + l2)[1..], pc, fr, states);
    }
  }

  /** From pc at position i with frame fr, whatever the state stack, the machine yields l at pc2 with frame fr2. */
  ghost predicate Gives(m: Machine, pc: nat, i: nat, fr: Frame, l: seq<nat>, pc2: nat, fr2: Frame) {
    forall states :: Yields(m, Run(pc, i, fr, states), l, pc2, fr2, states)
  }

  lemma GivesOne(m: Machine, pc: nat, i: nat, fr: Frame)
    ensures Gives(m, pc, i, fr, [i], pc, fr)
  {
    forall states ensures Yields(m, Run(pc, i, fr, states), [i], pc, fr, states) {
      YieldsOne(m, i, pc, fr, states);
    }
  }

  /** The machine steps from one running point to another, whatever the state stack. */
  ghost predicate Moves(m: Machine, pc: nat, i: nat, fr: Frame, pc2: nat, i2: nat, fr2: Frame) {
    forall states :: Step(m, Run(pc, i, fr, states)) == Run(pc2, i2, fr2, states)
  }

  lemma GivesMove(m: Machine, pc: nat, i: nat, fr: Frame, pc1: nat, i1: nat, fr1: Frame, l: seq<nat>, pc2: nat,
                  fr2: Frame)
    requires Moves(m, pc, i, fr, pc1, i1, fr1) && Gives(m, pc1, i1, fr1, l, pc2, fr2)
    ensures Gives(m, pc, i, fr, l, pc2, fr2)
  {
    forall states ensures Yields(m, Run(pc, i, fr, states), l, pc2, fr2, states) {
      YieldsStep(m, Run(pc, i, fr, states), Run(pc1, i1, fr1, states), l, pc2, fr2, states);
    }
  }

  /** From every position of l at mid the machine gives f of that position. */
  ghost predicate Continues(m: Machine, l: seq<nat>, mid: nat, frMid: Frame, f: nat -> seq<nat>, pc: nat, fr: Frame) {
    forall k :: 0 <= k < |l| ==> Gives(m, mid, l[k], frMid, f(l[k]), pc, fr)
  }

  lemma ContinuesParts(m: Machine, l: seq<nat>, mid: nat, frMid: Frame, f: nat -> seq<nat>, pc: nat, fr: Frame,
                       states: seq<Entry>)
    requires l != [] && Continues(m, l, mid, frMid, f, pc, fr)
    ensures Continues(m, l[1..], mid, frMid, f, pc, fr)
    ensures Yields(m, Run(mid, l[0], frMid, states), f(l[0]), pc, fr, states)
  {
    assert forall k :: 0 <= k < |l[1..]| ==> l[1..][k] == l[k + 1];
    assert Gives(m, mid, l[0], frMid, f(l[0]), pc, fr);
  }

  lemma {:induction false} YieldsBind(m: Machine, c: Config, l: seq<nat>, mid: nat, frMid: Frame, states: seq<Entry>,
                                      f: nat -> seq<nat>, pc: nat, fr: Frame)
    requires Yields(m, c, l, mid, frMid, states) && Continues(m, l, mid, frMid, f, pc, fr)
    ensures Yields(m, c, Flat(f, l), pc, fr, states)
    decreases |l|
  {
    hide Continues, Reach;
    if l != [] {
      var more :| Reach(m, c, Run(mid, l[0], frMid, more)) && Yields(m, Fail(more), l[1..], mid, frMid, states);
      ContinuesParts(m, l, mid, frMid, f, pc, fr, more);
      YieldsBind(m, Fail(more), l[1..], mid, frMid, states, f, pc, fr);
      YieldsAppend(m, Run(mid, l[0], frMid, more), f(l[0]), Flat(f, l[1..]), pc, fr, more, states);
      YieldsAfter(m, c, Run(mid, l[0], frMid, more), Flat(f, l), pc, fr, states);
    }
  }

  /** Sequencing: the ends of the second part, for each end of the first in order. */
  lemma GivesBind(m: Machine, pc0: nat, i: nat, fr0: Frame, l: seq<nat>, mid: nat, frMid: Frame, f: nat -> seq<nat>,
                  pc: nat, fr: Frame)
    requires Gives(m, pc0, i, fr0, l, mid, frMid) && Continues(m, l, mid, frMid, f, pc, fr)
    ensures Gives(m, pc0, i, fr0, Flat(f, l), pc, fr)
  {
    forall states ensures Yields(m, Run(pc0, i, fr0, states), Flat(f, l), pc, fr, states) {
      YieldsBind(m, Run(pc0, i, fr0, states), l, mid, frMid, states, f, pc, fr);
    }
  }

  lemma {:induction false} FlatSame(f: nat -> seq<nat>, g: nat -> seq<nat>, l: seq<nat>)
    requires forall k :: 0 <= k < |l| ==> f(l[k]) == g(l[k])
    ensures Flat(f, l) == Flat(g, l)
  {
    if l != [] {
      assert forall k :: 0 <= k < |l[1..]| ==> l[1..][k] == l[k + 1];
      FlatSame(f, g, l[1..]);
    }
  }

  lemma {:induction false} FlatUnit(f: nat -> seq<nat>, l: seq<nat>)
    requires forall k :: 0 <= k < |l| ==> f(l[k]) == [l[k]]
    ensures Flat(f, l) == l
  {
    if l != [] {
      assert forall k :: 0 <= k < |l[1..]| ==> l[1..][k] == l[k + 1];
      FlatUnit(f, l[1..]);
      assert [l[0]] + l[1..] == l;
    }
  }
}
