/** Safety over whole runs: control flow and memory safety together, from entry on. */
module SafeRuns {
  import opened Cells
  import opened Opcodes
  import opened Verifier
  import opened VerifierTheorems
  import opened Machine
  import opened MemorySafety
  import opened ControlFlow
  import Interpreter

  /** No PUSH instruction takes more than five operands. */
  lemma PushCounts(n: int)
    ensures IsPush(OpcodeOf(n)) ==> OpcodeOf(n).n <= 5
  {
  }

  /** A data operand that passed the verifier lies in the data section, whatever the base it was relocated to. */
  lemma DataOperandInside(P: Program, origin: seq<Cell>, p: nat, k: nat)
    requires Laid(P) && |P.image| == |origin| && p + k < |origin|
    requires DataOffsOk(P.layout, origin[p + k]) && P.image[p + k] == S(origin[p + k] + P.layout.dataBase)
    ensures P.DataArg(CELL_SIZE * p, k) == origin[p + k] && InData(P, P.DataArg(CELL_SIZE * p, k))
  {
    RebaseRoundTrip(origin[p + k], P.layout.dataBase);
  }

  /** Acceptance supplies everything the memory invariant needs to know about operands. */
  lemma VerifiedAtStart(P: Program, origin: seq<Cell>, p: nat)
    requires Laid(P) && Loaded(P, origin) && Marked(P.marks, CELL_SIZE * p)
    ensures p < |P.image| && Verified(P, OpcodeOf(P.image[p]), CELL_SIZE * p)
  {
    hide Loaded, OpcodeOf, HandlerOf, InData, Program.DataArg;
    StartSettled(P, origin, p);
    var op := OpcodeOf(P.image[p]);
    var h := HandlerOf(op);
    if h.DataOffs? {
      forall k: nat | 1 <= k <= h.count
        ensures InData(P, P.DataArg(CELL_SIZE * p, k))
      {
        DataOperandInside(P, origin, p, k);
      }
    }
  }

  /** Each native call and each RETN, SYSREQ.N and SCTRL of the run finds what its handler does not test. */
  ghost predicate OrderlyRun(P: Program, s: State, replies: seq<Reply>)
    requires P.Valid()
    decreases |replies|
  {
    replies == [] ||
    (0 <= s.cip / CELL_SIZE < |P.image| ==>
       && Orderly(P, OpcodeOf(P.image[s.cip / CELL_SIZE]), s, replies[0])
       && var o := Step(P, s, replies[0]);
          o.Next? ==> OrderlyRun(P, o.s, replies[1..]))
  }

  /** What a program can be tested for before it runs. */
  ghost predicate CarefulProgram(P: Program)
    requires P.Valid() && P.layout.codeCells <= |P.image|
  {
    forall p: nat :: Marked(P.marks, CELL_SIZE * p) ==> Careful(P, OpcodeOf(P.image[p]), CELL_SIZE * p)
  }

  /** The step at a start is safe exactly if what nobody tests is in order. */
  lemma StepSafeIff(P: Program, origin: seq<Cell>, s: State, reply: Reply)
    requires Laid(P) && Loaded(P, origin) && P.layout.codeCells <= |P.image| && CarefulProgram(P)
    requires Marked(P.marks, s.cip) && Sound(P.block, s) && 0 <= s.cip / CELL_SIZE < |P.image|
    ensures KeepsSound(P.block, Step(P, s, reply)) <==> Orderly(P, OpcodeOf(P.image[s.cip / CELL_SIZE]), s, reply)
  {
    hide Loaded, OpcodeOf, Execute, Verified, Careful, OperandFits, Orderly, Sound, KeepsSound;
    var p := s.cip / CELL_SIZE;
    AlignedAtStart(P.marks, s.cip);
    VerifiedAtStart(P, origin, p);
    PushCounts(P.image[p]);
    assert Careful(P, OpcodeOf(P.image[p]), CELL_SIZE * p);
    CarefulIff(P, OpcodeOf(P.image[p]), s.cip);
    ExecuteSoundIff(P, OpcodeOf(P.image[p]), s, reply);
  }

  /** No step of the run fetches outside the code or accesses memory outside the block, and after each of them heap
      and stack are in order. */
  ghost predicate SafeRun(P: Program, s: State, replies: seq<Reply>)
    requires P.Valid()
    decreases |replies|
  {
    replies == [] ||
    var o := Step(P, s, replies[0]);
    !o.OffCode? && KeepsSound(P.block, o) && (o.Next? ==> SafeRun(P, o.s, replies[1..]))
  }

  /** The whole-run theorem: a run of an accepted program that is confined and careful, entered at an instruction
      start with heap and stack in order, is safe exactly if it is orderly. */
  lemma {:induction false} RunIsSafeIff(P: Program, origin: seq<Cell>, s: State, replies: seq<Reply>)
    requires Laid(P) && Loaded(P, origin) && Confined(P) && CarefulProgram(P)
    requires Marked(P.marks, s.cip) && Sound(P.block, s)
    ensures SafeRun(P, s, replies) <==> OrderlyRun(P, s, replies)
    decreases |replies|
  {
    hide Loaded, Confined, CarefulProgram, Step, Marked, Sound, Orderly, Laid;
    if replies != [] {
      InsideImage(P, s.cip);
      StepStaysOnStarts(P, origin, s, replies[0]);
      StepSafeIff(P, origin, s, replies[0]);
      var o := Step(P, s, replies[0]);
      if o.Next? && KeepsSound(P.block, o) {
        RunIsSafeIff(P, origin, o.s, replies[1..]);
      }
    }
  }

  /** Where a safe run has got to: at a start, with heap and stack in order. */
  lemma {:induction false} RunIsSafe(P: Program, origin: seq<Cell>, s: State, replies: seq<Reply>)
    requires Laid(P) && Loaded(P, origin) && Confined(P) && CarefulProgram(P)
    requires Marked(P.marks, s.cip) && Sound(P.block, s) && OrderlyRun(P, s, replies)
    ensures var o := Run(P, s, replies);
      && !o.OffCode? && !o.Fault?
      && (o.Next? ==> Sound(P.block, o.s) && Marked(P.marks, o.s.cip))
      && (o.Sleeping? ==> Sound(P.block, o.s))
    decreases |replies|
  {
    hide Loaded, Confined, CarefulProgram, Step, Marked, Sound, Orderly, Laid;
    if replies != [] {
      InsideImage(P, s.cip);
      StepStaysOnStarts(P, origin, s, replies[0]);
      StepSafeIff(P, origin, s, replies[0]);
      var o := Step(P, s, replies[0]);
      if o.Next? {
        RunIsSafe(P, origin, o.s, replies[1..]);
      }
    }
  }

  /** The interpreter itself, on an accepted program: it never reaches code or memory that is not there, and while
      it runs or sleeps, heap and stack are in order. */
  method ExecSafely(core: Interpreter.Core, ghost origin: seq<Cell>, replies: seq<Reply>)
    returns (sig: Interpreter.Signal)
    requires Laid(core.P) && Loaded(core.P, origin) && Confined(core.P) && CarefulProgram(core.P)
    requires Marked(core.P.marks, core.cip) && Sound(core.P.block, core.Now())
    requires OrderlyRun(core.P, core.Now(), replies) && SameSize(replies, core.mem.Length)
    modifies core, core.mem
    ensures !sig.Faulted? && !sig.Strayed?
    ensures sig.Going? ==> Sound(core.P.block, core.Now()) && Marked(core.P.marks, core.cip)
    ensures sig.Asleep? ==> Sound(core.P.block, core.Now())
  {
    hide Loaded, Confined, CarefulProgram, Marked, Sound, OrderlyRun, Laid, Run;
    RunIsSafe(core.P, origin, core.Now(), replies);
    InsideImage(core.P, core.cip);
    sig := core.Exec(replies);
  }

  lemma InsideImage(P: Program, cip: int)
    requires Confined(P) && Marked(P.marks, cip)
    ensures P.Valid() && P.layout.codeCells <= |P.image| && 0 <= cip / CELL_SIZE < |P.image|
  {
  }

  /** Entering a program leaves heap and stack in order, with room for the margin, or reports an error. */
  lemma EntrySound(b: Block, mem: seq<Byte>, stk: Cell, hea: Cell, paramCount: nat, entry: int)
    requires Ordered(b) && |mem| == b.stp + CELL_SIZE && 0 <= stk && hea <= b.stp
    requires paramCount < 0x1000_0000
    ensures var o := Enter(b, mem, stk, hea, paramCount, entry);
      o.Stop? || (o.Next? && Sound(b, o.s) && o.s.cip == entry && o.s.stk - o.s.hea >= STKMARGIN)
  {
    hide S, PushValues;
    if stk <= b.stp && b.hlw <= hea {
      EntryPush(b, State(0, 0, 0, stk, hea, entry, mem), [S(CELL_SIZE * paramCount), 0]);
      InRange(hea + STKMARGIN);
    }
  }

  lemma EntryPush(b: Block, s: State, vs: seq<Cell>)
    requires Ordered(b) && b.hlw <= s.hea <= b.stp && 0 <= s.stk <= b.stp && |s.mem| == b.stp + CELL_SIZE && |vs| == 2
    ensures var o := PushValues(s, vs, 0); o.Stop? || (o.Next? && Sound(b, o.s) && o.s.hea == s.hea)
  {
    hide S, Read, Write;
    InRange(s.stk - CELL_SIZE * |vs|);
    if s.hea <= s.stk - CELL_SIZE * |vs| {
      WriteDownFits(s.mem, s.stk, vs);
    }
  }
}
