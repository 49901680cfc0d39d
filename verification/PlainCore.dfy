/** The plain interpreter on a program: it does what the one with checks does, as long as that goes on. */
module PlainCore {
  import opened Cells
  import opened Opcodes
  import opened Machine
  import ControlInstructions
  import MemorySafety
  import opened Sessions
  import opened Sleep

  /** The instruction at `cip`, with what a native answers when one is called. Instructions that can neither sleep nor
      call natives do what they do in the interpreter with checks. */
  function Decode(P: Program, s: State, reply: Reply): Instruction
    requires P.Valid()
  {
    var op := Current(P, s);
    if op.HALT? then Halting(P.Num(s.cip, 1))
    else if op.SYSREQ_PRI? then Calling(0, reply)
    else if op.SYSREQ_C? || op.SYSREQ_D? then Calling(1, reply)
    else if op.SYSREQ_N? || op.SYSREQ_ND? then CallingWithArgs(P.Num(s.cip, 2), reply)
    else
      match Step(P, s, reply)
      case Next(t) => Other(Goes(t))
      case Stop(err) => Other(Aborts(if err == ERR_SLEEP then ERR_INVINSTR else err, s))
      case _ => Other(Aborts(ERR_INVINSTR, s))
  }

  /** The program as an instruction set, if natives answer `answers(s)` in state `s`. */
  ghost function CoreOf(P: Program, answers: State -> Reply): Core
    requires P.Valid()
  {
    s => Decode(P, s, answers(s))
  }

  /** `cip` is the address of an opcode of the program. */
  predicate Fetches(P: Program, s: State) {
    s.cip % 4 == 0 && 0 <= s.cip < 4 * P.layout.codeCells && s.cip / 4 < |P.image|
  }

  // ---------- HALT ----------

  /** A HALT that sleeps saves all registers, with the address behind its operand, and would have gone on there: so
      would the interpreter with checks. */
  lemma HaltAgrees(P: Program, answers: State -> Reply, s: State)
    requires P.Valid() && Fetches(P, s) && Current(P, s).HALT?
    ensures var e, t := Act(CoreOf(P, answers), s), s.(cip := s.cip + 8);
      if P.Num(s.cip, 1) == 12 then
        e == Sleeps(t, t, true) && AwakeStep(P, s, answers(s)) == Next(t)
      else
        e == Halts(P.Num(s.cip, 1), t) && AwakeStep(P, s, answers(s)) == Stop(P.Num(s.cip, 1))
  {
    hide OpcodeOf, Execute, Program.Num;
    ControlInstructions.HaltIs(P, s, answers(s));
  }

  // ---------- Natives ----------

  predicate CallsPlainly(op: Opcode) {
    op.SYSREQ_PRI? || op.SYSREQ_C? || op.SYSREQ_D?
  }

  predicate CallsWithArgs(op: Opcode) {
    op.SYSREQ_N? || op.SYSREQ_ND?
  }

  lemma ThisStack(stk: Cell)
    ensures S(stk + 0) == stk
  {
  }

  /** A native called with SYSREQ.PRI or SYSREQ.C: both interpreters go on behind the call with its result, or stop
      with its error. If it sleeps, the plain one will go on behind the call, the one with checks makes it again. */
  lemma NativeAgrees(P: Program, answers: State -> Reply, s: State)
    requires P.Valid() && Fetches(P, s) && CallsPlainly(Current(P, s))
    ensures var e, o, reply := Act(CoreOf(P, answers), s), Step(P, s, answers(s)), answers(s);
      var behind := s.cip + if Current(P, s).SYSREQ_PRI? then 4 else 8;
      var u := s.(pri := reply.result, mem := reply.mem);
      var t := u.(cip := behind);
      if reply.err == 0 then e == Goes(t) && o == Next(t)
      else if reply.err == 12 then e == Sleeps(t, t, false) && o == Sleeping(u)
      else e == Aborts(reply.err, t) && o == Stop(reply.err)
  {
    hide OpcodeOf, S;
    ThisStack(s.stk);
  }

  /** A native called with SYSREQ.N, if the size of its arguments can be pushed: both interpreters push it, and take it
      and the arguments off afterwards. */
  lemma NativeWithArgsAgrees(P: Program, answers: State -> Reply, s: State)
    requires P.Valid() && Fetches(P, s) && CallsWithArgs(Current(P, s))
    requires s.hea <= s.stk - 4 && Inside(s.mem, s.stk - 4, 4)
    ensures var e, o, reply := Act(CoreOf(P, answers), s), Step(P, s, answers(s)), answers(s);
      var u := s.(pri := reply.result, mem := reply.mem, stk := s.stk - 4);
      var t := u.(cip := s.cip + 12);
      var c := t.(stk := S(s.stk + P.Num(s.cip, 2)));
      if reply.err == 0 then e == Goes(c) && o == Next(c)
      else if reply.err == 12 then e == Sleeps(t, c, false) && o == Sleeping(u)
      else e == Aborts(reply.err, c) && o == Stop(reply.err)
  {
    hide OpcodeOf, S, Program.Num, Write, PushValues;
    var size: int := P.Num(s.cip, 2);
    InRange(s.stk - 4);
    PushedSize(s, P.Num(s.cip, 2));
    MemorySafety.CastSum(s.stk - 4, size + 4);
  }

  lemma PushedSize(s: State, size: Cell)
    requires s.hea <= s.stk - 4 && Inside(s.mem, s.stk - 4, 4)
    ensures PushValues(s, [size], 0) == Next(s.(stk := s.stk - 4, mem := Write(s.mem, s.stk - 4, size)).Skip(0))
  {
    hide Write, S;
    InRange(s.stk - 4);
    assert WriteDown(s.mem, s.stk, [size]) == (true, Write(s.mem, s.stk - 4, size));
  }

  // ---------- Runs ----------

  /** What natives answer on a run of `n` steps. */
  ghost function Answered(P: Program, answers: State -> Reply, s: State, n: nat): (replies: seq<Reply>)
    requires P.Valid()
    ensures |replies| <= n
    decreases n
  {
    if n == 0 then []
    else
      match AwakeStep(P, s, answers(s))
      case Next(t) => [answers(s)] + Answered(P, answers, t, n - 1)
      case _ => [answers(s)]
  }

  /** One step on which the interpreter with checks goes on: the plain one goes to the same state, whether or not the
      instruction sleeps. */
  lemma StepAgrees(P: Program, answers: State -> Reply, s: State, t: State)
    requires P.Valid() && answers(s).err != ERR_SLEEP && AwakeStep(P, s, answers(s)) == Next(t)
    ensures var e := Act(CoreOf(P, answers), s); e == Goes(t) || (e.Sleeps? && e.continued == t)
  {
    hide OpcodeOf, Execute, S, Program.Num;
    var op := Current(P, s);
    if op.HALT? {
      HaltAgrees(P, answers, s);
    } else if CallsPlainly(op) {
      NativeAgrees(P, answers, s);
    } else if CallsWithArgs(op) {
      ArgsWerePushed(P, s, answers(s));
      NativeWithArgsAgrees(P, answers, s);
    }
  }

  lemma PushedIff(s: State, size: Cell)
    requires PushValues(s, [size], 0).Next?
    ensures s.hea <= s.stk - 4 && Inside(s.mem, s.stk - 4, 4)
  {
    hide Write;
  }

  lemma ArgsWerePushed(P: Program, s: State, reply: Reply)
    requires P.Valid() && CallsWithArgs(Current(P, s)) && Step(P, s, reply).Next?
    ensures s.hea <= s.stk - 4 && Inside(s.mem, s.stk - 4, 4)
  {
    hide OpcodeOf, S, Program.Num, PushValues;
    PushedIff(s, P.Num(s.cip, 2));
  }

  /** Over whole runs: wherever the interpreter with checks has got to after `n` steps, not sleeping, the plain one has
      got to as well, whatever happens after that. */
  lemma {:induction false} PlainRunAgrees(P: Program, answers: State -> Reply, s: State, n: nat, t: State, m: nat)
    requires P.Valid() && (forall u: State :: answers(u).err != ERR_SLEEP)
    requires |Answered(P, answers, s, n)| == n && AwakeRun(P, s, Answered(P, answers, s, n)) == Next(t)
    ensures Sleep.Run(CoreOf(P, answers), s, n + m) == Sleep.Run(CoreOf(P, answers), t, m)
    decreases n
  {
    hide AwakeStep, Act, CoreOf;
    if n > 0 {
      var replies := Answered(P, answers, s, n);
      assert replies[0] == answers(s);
      var o := AwakeStep(P, s, answers(s));
      assert o.Next?;
      StepAgrees(P, answers, s, o.s);
      assert replies[1..] == Answered(P, answers, o.s, n - 1);
      PlainRunAgrees(P, answers, o.s, n - 1, t, m);
    }
  }

  /** ... and ends with the HALT that ends the one with checks, with its code and its registers. */
  lemma PlainRunEnds(P: Program, answers: State -> Reply, s: State, n: nat, t: State)
    requires P.Valid() && (forall u: State :: answers(u).err != ERR_SLEEP)
    requires |Answered(P, answers, s, n)| == n && AwakeRun(P, s, Answered(P, answers, s, n)) == Next(t)
    requires Fetches(P, t) && Current(P, t).HALT? && P.Num(t.cip, 1) != 12
    ensures Sleep.Run(CoreOf(P, answers), s, n + 1) == Ended(Halts(P.Num(t.cip, 1), t.(cip := t.cip + 8)))
    ensures AwakeStep(P, t, answers(t)) == Stop(P.Num(t.cip, 1))
  {
    hide AwakeStep, Act, CoreOf, AwakeRun, Answered;
    PlainRunAgrees(P, answers, s, n, t, 1);
    HaltAgrees(P, answers, t);
  }

  // ---------- Entry ----------

  lemma TwoPushed(s: State, x: Cell, y: Cell)
    requires 8 <= s.stk <= |s.mem| && s.hea <= s.stk - 8
    ensures PushValues(s, [x, y], 0) ==
            Next(s.(stk := s.stk - 8, mem := Write(Write(s.mem, s.stk - 4, x), s.stk - 8, y)).Skip(0))
  {
    hide Write;
    InRange(s.stk - 8);
    var mem1 := Write(s.mem, s.stk - 4, x);
    assert [x, y][1..] == [y] && [y][1..] == [];
    assert WriteDown(mem1, s.stk - 4, [y]) == (true, Write(mem1, s.stk - 8, y));
  }

  /** Both interpreters enter a function in the same state, or refuse with the same error. */
  lemma EntryAgrees(a: Sleep.Amx, address: int)
    requires a.HasRoom() && a.hea < 0x8000_0000 - 64
    ensures Enter(a.block, a.mem, a.stk, a.hea, a.paramCount, address) ==
            if a.Admitted(address) == 0 then Next(a.Pushed(address)) else Stop(a.Admitted(address))
  {
    hide Write, PushValues, S;
    if a.stk <= a.block.stp && a.hea >= a.block.hlw {
      var s := State(0, 0, 0, a.stk, a.hea, address, a.mem);
      InRange(a.hea + 64);
      if a.hea <= a.stk - 8 {
        TwoPushed(s, S(CELL_SIZE * a.paramCount), 0);
      } else {
        NoRoom(s, S(CELL_SIZE * a.paramCount), 0);
      }
    }
  }

  lemma NoRoom(s: State, x: Cell, y: Cell)
    requires 8 <= s.stk && s.hea > s.stk - 8
    ensures PushValues(s, [x, y], 0) == Stop(3)
  {
    InRange(s.stk - 8);
  }
}
