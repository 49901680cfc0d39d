/** Sleeping and continuing in the interpreter with checks: what is kept between two calls of `amx_Exec`, and
    safety over runs that sleep any number of times. */
module Sessions {
  import opened Cells
  import opened Opcodes
  import opened Alu
  import opened Verifier
  import opened VerifierTheorems
  import opened Machine
  import opened MemorySafety
  import opened ControlFlow
  import opened SafeRuns
  import Interpreter

  // ---------- The session, as specified ----------

  function Current(P: Program, s: State): Opcode {
    var p := s.cip / CELL_SIZE;
    if 0 <= p < |P.image| then OpcodeOf(P.image[p]) else NONE
  }

  /** The frame that is kept in `amx->frm`: calls of natives save it, a HALT does not. */
  function KeptFrame(P: Program, s: State, kept: Cell): Cell {
    if CallsNative(Current(P, s)) then s.frm else kept
  }

  /** One turn for a host that continues whenever the run sleeps: all registers come back from where they were
      kept, and the tests of an entry are made again. */
  function SessionStep(P: Program, s: State, kept: Cell, reply: Reply): Outcome
    requires P.Valid()
  {
    match Step(P, s, reply)
    case Sleeping(asleep) =>
      var back := asleep.(frm := KeptFrame(P, s, kept));
      var refusal := Refusal(P.block, back);
      if refusal == ERR_NONE then Next(back) else Stop(refusal)
    case o => o
  }

  function Session(P: Program, s: State, kept: Cell, replies: seq<Reply>): Outcome
    requires P.Valid()
    decreases |replies|
  {
    if replies == [] then Next(s)
    else
      match SessionStep(P, s, kept, replies[0])
      case Next(s') => Session(P, s', KeptFrame(P, s, kept), replies[1..])
      case o => o
  }

  // ---------- The session in place ----------

  /** The fields of the abstract machine that outlive a call of `amx_Exec`. */
  class Amx {
    const core: Interpreter.Core
    var pri: Cell
    var alt: Cell
    var frm: Cell
    var stk: Cell
    var hea: Cell
    var cip: int

    constructor (core: Interpreter.Core)
      ensures this.core == core && frm == 0
    {
      this.core := core;
      pri, alt, frm, stk, hea, cip := 0, 0, 0, 0, 0, 0;
    }

    /** What is stored when the run falls asleep: everything but the frame. */
    method KeepAsleep()
      modifies `pri, `alt, `stk, `hea, `cip
      ensures State(pri, alt, core.frm, stk, hea, cip, core.mem[..]) == core.Now()
    {
      pri, alt, stk, hea, cip := core.pri, core.alt, core.stk, core.hea, core.cip;
    }

    /** What is stored before a native is called. */
    method KeepForNative()
      modifies `cip, `hea, `frm, `stk
      ensures frm == core.frm && hea == core.hea && stk == core.stk && cip == core.cip
    {
      cip, hea, frm, stk := core.cip, core.hea, core.frm, core.stk;
    }

    /** The entry with AMX_EXEC_CONT. */
    method Resume() returns (err: int)
      modifies core
      ensures core.Now() == State(pri, alt, frm, stk, hea, cip, core.mem[..])
      ensures err == Refusal(core.P.block, core.Now())
    {
      core.frm, core.pri, core.alt, core.stk, core.hea, core.cip := frm, pri, alt, stk, hea, cip;
      if core.stk > core.P.block.stp {
        return ERR_STACKLOW;
      }
      if core.hea < core.P.block.hlw {
        return ERR_HEAPLOW;
      }
      err := if MarginExceeded(core.hea, core.stk) then ERR_STACKERR else ERR_NONE;
    }

    method Turn(reply: Reply) returns (sig: Interpreter.Signal)
      requires core.P.Valid() && |reply.mem| == core.mem.Length
      modifies this, core, core.mem
      ensures core.Follows(sig, SessionStep(core.P, old(core.Now()), old(frm), reply)) && !sig.Asleep?
      ensures frm == KeptFrame(core.P, old(core.Now()), old(frm))
    {
      hide Step, Refusal, OpcodeOf;
      var calls := CallsNative(Current(core.P, core.Now()));
      if calls {
        KeepForNative();
      }
      sig := core.Turn(reply);
      if sig.Asleep? {
        KeepAsleep();
        var err := Resume();
        sig := if err == ERR_NONE then Interpreter.Going else Interpreter.Stopped(err);
      }
    }

    /** A host that continues whenever the run sleeps. */
    method Host(replies: seq<Reply>) returns (sig: Interpreter.Signal)
      requires core.P.Valid() && SameSize(replies, core.mem.Length)
      modifies this, core, core.mem
      ensures core.Follows(sig, Session(core.P, old(core.Now()), old(frm), replies))
    {
      hide SessionStep, KeptFrame;
      sig := Interpreter.Going;
      var i := 0;
      ghost var goal := Session(core.P, core.Now(), frm, replies);
      while i < |replies| && sig == Interpreter.Going
        invariant 0 <= i <= |replies|
        invariant if sig == Interpreter.Going then goal == Session(core.P, core.Now(), frm, replies[i..])
                  else core.Follows(sig, goal)
      {
        assert replies[i..][0] == replies[i] && replies[i..][1..] == replies[i + 1..];
        sig := Turn(replies[i]);
        i := i + 1;
      }
    }
  }

  // ---------- Safety ----------

  /** A HALT that sleeps is followed by an instruction. */
  ghost predicate Restartable(P: Program)
    requires P.Valid() && P.layout.codeCells <= |P.image|
  {
    forall p: nat :: Marked(P.marks, CELL_SIZE * p) ==>
      OpcodeOf(P.image[p]).HALT? && P.Num(CELL_SIZE * p, 1) == ERR_SLEEP ==> p + 2 < P.layout.codeCells
  }

  /** No step of the session fetches outside the code or accesses memory outside the block. */
  ghost predicate SafeSession(P: Program, s: State, kept: Cell, replies: seq<Reply>)
    requires P.Valid()
    decreases |replies|
  {
    replies != [] ==>
      var step, o := Step(P, s, replies[0]), SessionStep(P, s, kept, replies[0]);
      && !step.OffCode? && KeepsSound(P.block, step)
      && (o.Next? ==> SafeSession(P, o.s, KeptFrame(P, s, kept), replies[1..]))
  }

  /** Every step of the session finds what its handler does not test. */
  ghost predicate OrderlySession(P: Program, s: State, kept: Cell, replies: seq<Reply>)
    requires P.Valid()
    decreases |replies|
  {
    replies != [] ==>
      var o := SessionStep(P, s, kept, replies[0]);
      && Orderly(P, Current(P, s), s, replies[0])
      && (o.Next? ==> OrderlySession(P, o.s, KeptFrame(P, s, kept), replies[1..]))
  }

  lemma StepSleepsAt(P: Program, origin: seq<Cell>, s: State, reply: Reply)
    requires Loaded(P, origin) && Confined(P) && Marked(P.marks, s.cip)
    ensures P.Valid() && 0 <= s.cip / CELL_SIZE < |P.image|
    ensures var o := Step(P, s, reply); o.Sleeping? ==> SleepsAt(P, Current(P, s), s, o.s)
  {
    hide Loaded, OpcodeOf, Execute, GoesTo, SleepsAt, Program.Num;
    var p := s.cip / CELL_SIZE;
    AlignedAtStart(P.marks, s.cip);
    StartIsValid(P, origin, p);
    assert !IsStray(P, OpcodeOf(P.image[p]), s.cip);
    ExecuteFlow(P, OpcodeOf(P.image[p]), s, reply);
  }

  lemma BehindHalt(P: Program, origin: seq<Cell>, s: State)
    requires Loaded(P, origin) && Confined(P) && Restartable(P) && Marked(P.marks, s.cip)
    requires Current(P, s).HALT? && P.Num(s.cip, 1) == ERR_SLEEP
    ensures Marked(P.marks, s.Skip(1).cip)
  {
    hide Loaded, OpcodeOf, SettledOperands;
    var p := s.cip / CELL_SIZE;
    AlignedAtStart(P.marks, s.cip);
    StartSettled(P, origin, p);
    NextIsStart(P, origin, p);
  }

  /** The session continues at an instruction start, with heap and stack as the run has left them. */
  lemma ContinuesOnStart(P: Program, origin: seq<Cell>, s: State, kept: Cell, reply: Reply)
    requires Loaded(P, origin) && Confined(P) && Restartable(P) && Marked(P.marks, s.cip)
    requires KeepsSound(P.block, Step(P, s, reply))
    ensures P.Valid()
    ensures var o := SessionStep(P, s, kept, reply);
      !o.OffCode? && !o.Fault? && (o.Next? ==> Sound(P.block, o.s) && Marked(P.marks, o.s.cip))
  {
    hide Loaded, Step, OpcodeOf, Marked, Refusal, CallsNative, ArgsAt, Confined, Restartable;
    StepStaysOnStarts(P, origin, s, reply);
    StepSleepsAt(P, origin, s, reply);
    if Step(P, s, reply).Sleeping? && Current(P, s).HALT? {
      BehindHalt(P, origin, s);
    }
  }

  /** A session of an accepted program that is confined, restartable and careful is safe, through any number of sleeps
      and whatever frame is kept, exactly if it is orderly. */
  lemma {:induction false} SessionIsSafeIff(P: Program, origin: seq<Cell>, s: State, kept: Cell, replies: seq<Reply>)
    requires Laid(P) && Loaded(P, origin) && Confined(P) && CarefulProgram(P) && Restartable(P)
    requires Marked(P.marks, s.cip) && Sound(P.block, s)
    ensures SafeSession(P, s, kept, replies) <==> OrderlySession(P, s, kept, replies)
    ensures var o := Session(P, s, kept, replies);
      OrderlySession(P, s, kept, replies) ==>
        !o.OffCode? && !o.Fault? && (o.Next? ==> Sound(P.block, o.s) && Marked(P.marks, o.s.cip))
    decreases |replies|
  {
    hide Loaded, Confined, CarefulProgram, Restartable, Step, Marked, Sound, Orderly, Laid, KeptFrame, SessionStep;
    if replies != [] {
      InsideImage(P, s.cip);
      StepStaysOnStarts(P, origin, s, replies[0]);
      StepSafeIff(P, origin, s, replies[0]);
      if KeepsSound(P.block, Step(P, s, replies[0])) {
        ContinuesOnStart(P, origin, s, kept, replies[0]);
        var o := SessionStep(P, s, kept, replies[0]);
        if o.Next? {
          SessionIsSafeIff(P, origin, o.s, KeptFrame(P, s, kept), replies[1..]);
        }
      }
    }
  }

  // ---------- What sleeping changes ----------

  /** One turn for which a HALT that sleeps does nothing. */
  function AwakeStep(P: Program, s: State, reply: Reply): Outcome
    requires P.Valid()
  {
    if Current(P, s).HALT? && Step(P, s, reply).Sleeping? then Next(s.Skip(1)) else Step(P, s, reply)
  }

  function AwakeRun(P: Program, s: State, replies: seq<Reply>): Outcome
    requires P.Valid()
    decreases |replies|
  {
    if replies == [] then Next(s)
    else
      match AwakeStep(P, s, replies[0])
      case Next(s') => AwakeRun(P, s', replies[1..])
      case o => o
  }

  ghost predicate NoNativeSleeps(replies: seq<Reply>) {
    forall k :: 0 <= k < |replies| ==> replies[k].err != ERR_SLEEP
  }

  /** At every sleep, the frame that was kept is the run's own, and the entry is not refused. */
  ghost predicate Transparent(P: Program, s: State, kept: Cell, replies: seq<Reply>)
    requires P.Valid()
    decreases |replies|
  {
    replies != [] ==>
      var o := SessionStep(P, s, kept, replies[0]);
      && (Step(P, s, replies[0]).Sleeping? ==> kept == s.frm && Refusal(P.block, s) == ERR_NONE)
      && (o.Next? ==> Transparent(P, o.s, KeptFrame(P, s, kept), replies[1..]))
  }

  lemma StraysNeverSleep(P: Program, op: Opcode, s: State, reply: Reply)
    requires P.Valid() && (op.STEP_I? || op.CALL_PRI? || op.SCTRL?)
    ensures !Execute(P, op, s, reply).Sleeping?
  {
    hide S, U, Read, Write, Program.Num, WriteDown, BadDataAddr, Marked, MarginExceeded;
  }

  predicate Obsolete(op: Opcode) {
    op.NONE? || op.FILE? || op.DEBUG_INFO? || op.SYMBOL?
  }

  lemma InvalidIsObsolete(op: Opcode)
    ensures HandlerOf(op).Invalid? && !CallsNative(op) ==> Obsolete(op)
  {
  }

  lemma ObsoleteNeverSleep(P: Program, op: Opcode, s: State, reply: Reply)
    requires P.Valid() && Obsolete(op)
    ensures !Execute(P, op, s, reply).Sleeping?
  {
    hide Program.Num, ExecuteAccess, ExecuteStackOp;
  }

  lemma NativesSleepBySelf(P: Program, op: Opcode, s: State, reply: Reply)
    requires P.Valid() && CallsNative(op) && reply.err != ERR_SLEEP
    ensures !Execute(P, op, s, reply).Sleeping?
  {
    hide S, WriteDown, Program.Num;
  }

  /** Unless a native sleeps, only a HALT does. */
  lemma OnlyHaltsSleep(P: Program, op: Opcode, s: State, reply: Reply)
    requires P.Valid() && reply.err != ERR_SLEEP
    ensures Execute(P, op, s, reply).Sleeping? ==> op.HALT? && Execute(P, op, s, reply).s == s.Skip(1)
  {
    hide Execute, HandlerOf, GoesTo, Program.Num;
    InvalidIsObsolete(op);
    if CallsNative(op) {
      NativesSleepBySelf(P, op, s, reply);
    } else if Obsolete(op) {
      ObsoleteNeverSleep(P, op, s, reply);
    } else if op.STEP_I? || op.CALL_PRI? || op.SCTRL? {
      StraysNeverSleep(P, op, s, reply);
    } else {
      ExecuteFlow(P, op, s, reply);
    }
  }

  /** One turn of the session and of the run that stays awake: they differ exactly if HALT sleeps with another frame
      kept, or where the entry is refused. */
  lemma TurnsAgreeIff(P: Program, s: State, kept: Cell, reply: Reply)
    requires P.Valid() && reply.err != ERR_SLEEP
    ensures SessionStep(P, s, kept, reply) == AwakeStep(P, s, reply)
       <==> (Step(P, s, reply).Sleeping? ==> kept == s.frm && Refusal(P.block, s) == ERR_NONE)
  {
    hide Execute, OpcodeOf, MarginExceeded;
    OnlyHaltsSleep(P, Current(P, s), s, reply);
  }

  /** A session of any program in which no native sleeps is at every moment where the run is in which HALT does
      nothing when it should sleep, if and only if at each sleep the frame kept since the last call of a native is
      its own and the entry is not refused: HALT does not store the frame. */
  lemma {:induction false} SessionIsAwakeRunIff(P: Program, s: State, kept: Cell, replies: seq<Reply>)
    requires P.Valid() && NoNativeSleeps(replies)
    ensures Transparent(P, s, kept, replies) <==>
      forall n :: 0 <= n <= |replies| ==> Session(P, s, kept, replies[..n]) == AwakeRun(P, s, replies[..n])
    decreases |replies|
  {
    hide Step, SessionStep, AwakeStep, KeptFrame, Refusal;
    if replies != [] {
      var reply, rest := replies[0], replies[1..];
      var o, a, kept' := SessionStep(P, s, kept, reply), AwakeStep(P, s, reply), KeptFrame(P, s, kept);
      TurnsAgreeIff(P, s, kept, reply);
      forall n | 0 < n <= |replies|
        ensures replies[..n][0] == reply && replies[..n][1..] == rest[..n - 1]
      {
      }
      if o != a {
        assert replies[..1][1..] == [];
        TurnsTell(P, s, kept, replies[..1]);
      } else if o.Next? {
        SessionIsAwakeRunIff(P, o.s, kept', rest);
        PrefixesAgreeIff(P, s, kept, replies, o.s, kept');
      }
    }
  }

  lemma TurnsTell(P: Program, s: State, kept: Cell, one: seq<Reply>)
    requires P.Valid() && |one| == 1
    ensures Session(P, s, kept, one) == SessionStep(P, s, kept, one[0])
    ensures AwakeRun(P, s, one) == AwakeStep(P, s, one[0])
  {
    hide SessionStep, AwakeStep;
    assert one[1..] == [];
  }

  lemma PrefixesAgreeIff(P: Program, s: State, kept: Cell, replies: seq<Reply>, t: State, kept': Cell)
    requires P.Valid() && replies != []
    requires SessionStep(P, s, kept, replies[0]) == AwakeStep(P, s, replies[0]) == Next(t)
    requires kept' == KeptFrame(P, s, kept)
    ensures
      (forall n :: 0 <= n <= |replies| ==> Session(P, s, kept, replies[..n]) == AwakeRun(P, s, replies[..n])) <==>
      (forall m :: 0 <= m <= |replies| - 1 ==>
         Session(P, t, kept', replies[1..][..m]) == AwakeRun(P, t, replies[1..][..m]))
  {
    hide SessionStep, AwakeStep, KeptFrame;
    var rest := replies[1..];
    forall m | 0 <= m <= |rest|
      ensures Session(P, s, kept, replies[..m + 1]) == Session(P, t, kept', rest[..m])
      ensures AwakeRun(P, s, replies[..m + 1]) == AwakeRun(P, t, rest[..m])
    {
      assert replies[..m + 1][1..] == rest[..m];
    }
    if forall n :: 0 <= n <= |replies| ==> Session(P, s, kept, replies[..n]) == AwakeRun(P, s, replies[..n]) {
      forall m | 0 <= m <= |rest|
        ensures Session(P, t, kept', rest[..m]) == AwakeRun(P, t, rest[..m])
      {
        var n := m + 1;
        assert Session(P, s, kept, replies[..n]) == AwakeRun(P, s, replies[..n]);
      }
    }
    if forall m :: 0 <= m <= |rest| ==> Session(P, t, kept', rest[..m]) == AwakeRun(P, t, rest[..m]) {
      forall n | 0 <= n <= |replies|
        ensures Session(P, s, kept, replies[..n]) == AwakeRun(P, s, replies[..n])
      {
        if n > 0 {
          var m := n - 1;
          assert replies[..n] == replies[..m + 1];
          assert Session(P, t, kept', rest[..m]) == AwakeRun(P, t, rest[..m]);
        }
      }
    }
  }

  /** A native that sleeps is called again, on the stack as it has left it; with SYSREQ.N, the size of the arguments
      has then been pushed once more. */
  lemma NativeIsRepeated(P: Program, s: State, kept: Cell, reply: Reply)
    requires P.Valid() && CallsNative(Current(P, s)) && reply.err == ERR_SLEEP
    requires SessionStep(P, s, kept, reply).Next?
    ensures var t := SessionStep(P, s, kept, reply).s;
      && t.cip == s.cip && t.pri == reply.result && t.mem == reply.mem && t.frm == s.frm && t.hea == s.hea
      && t.stk == if Current(P, s).SYSREQ_N? || Current(P, s).SYSREQ_ND? then S(s.stk - CELL_SIZE) else s.stk
  {
    hide OpcodeOf, WriteDown, S, Program.Num, MarginExceeded;
  }

  /** A HALT that sleeps at the end of the code continues behind it. */
  lemma SleepAtTheEndStrays(P: Program, s: State, kept: Cell, reply: Reply, next: Reply)
    requires P.Valid() && Current(P, s).HALT? && SessionStep(P, s, kept, reply).Next?
    requires s.cip == CELL_SIZE * (P.layout.codeCells - 2)
    ensures Session(P, s, kept, [reply, next]).OffCode?
  {
    hide OpcodeOf, Refusal;
    StopsAtHalt(P, Current(P, s), s, reply);
    var t := SessionStep(P, s, kept, reply).s;
    assert Step(P, t, next).OffCode?;
    assert [reply, next][1..] == [next];
  }
}
