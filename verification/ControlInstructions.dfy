/** Control registers, jumps, natives and the start of a run: what each of them does to the registers, and when it is
    refused. */
module ControlInstructions {
  import opened Cells
  import opened Opcodes
  import opened Alu
  import opened Verifier
  import opened Machine
  import opened MemorySafety
  import opened Calls
  import opened InstructionSet
  import CaseTables

  // ---------- Registers ----------

  /** An instruction on the registers touches nothing else. */
  lemma RegisterInstructionsAre(P: Program, f: RegOp, g: RegConstOp, s: State, reply: Reply)
    requires P.Valid()
    ensures Computes(Execute(P, REG(f), s, reply), s, Apply(f, s.pri, s.alt), 4)
    ensures Computes(Execute(P, REG_C(g), s, reply), s, ApplyConst(g, s.pri, s.alt, P.Num(s.cip, 1)), 8)
  {
    hide Apply, ApplyConst, Program.Num;
  }

  predicate Computes(o: Outcome, s: State, regs: Registers, size: nat) {
    if regs.DivideError? then o == Stop(11) else o == Next(s.(pri := regs.pri, alt := regs.alt, cip := s.cip + size))
  }

  /** ADDR tells an address in the frame; BOUNDS stops exactly if PRI is not between 0 and its operand. */
  lemma AddressAndBoundsAre(P: Program, s: State, reply: Reply)
    requires P.Valid()
    ensures var a := S(s.frm + P.Num(s.cip, 1));
      && Execute(P, ADDR(PRI), s, reply) == Next(s.(pri := a, cip := s.cip + 8))
      && Execute(P, ADDR(ALT), s, reply) == Next(s.(alt := a, cip := s.cip + 8))
    ensures P.Num(s.cip, 1) >= 0 ==>
              Execute(P, BOUNDS, s, reply) == if 0 <= s.pri <= P.Num(s.cip, 1) then
                Next(s.(cip := s.cip + 8)) else Stop(4)
  {
    hide Program.Num, S;
  }

  // ---------- Control registers ----------

  lemma ControlLoadsAre(P: Program, s: State, reply: Reply)
    requires P.Valid() && -1 <= P.Num(s.cip, 1) <= 8
    ensures var id: int := P.Num(s.cip, 1);
      Execute(P, LCTRL, s, reply) ==
      Next(s.(cip := s.cip + 8,
              pri := if id == 0 then P.block.cod else if id == 1 then P.block.dat else if id == 2 then s.hea
                     else if id == 3 then P.block.stp else if id == 4 then s.stk else if id == 5 then s.frm
                     else if id == 6 then S(s.cip + 4) else s.pri))
  {
    hide Program.Num, S;
  }

  /** SCTRL for the heap, the stack and the frame: PRI must leave 16 cells between heap and stack and stay between the
      bounds of the block. */
  lemma ControlStoresAre(P: Program, s: State, reply: Reply)
    requires Ready(P, s)
    ensures P.Num(s.cip, 1) == 2 && s.pri < 0x8000_0000 - 64 ==>
              Execute(P, SCTRL, s, reply) ==
              if s.stk < s.pri + 64 then Stop(3) else if s.pri < P.block.hlw then Stop(8)
              else Next(s.(hea := s.pri, cip := s.cip + 8))
    ensures P.Num(s.cip, 1) == 4 ==>
              Execute(P, SCTRL, s, reply) ==
              if s.pri < s.hea + 64 then Stop(3) else if s.pri > P.block.stp then Stop(7)
              else Next(s.(stk := s.pri, cip := s.cip + 8))
    ensures P.Num(s.cip, 1) == 5 ==>
              Execute(P, SCTRL, s, reply) ==
              if s.hea + 64 <= s.pri < P.block.stp then Next(s.(frm := s.pri, cip := s.cip + 8)) else Stop(3)
  {
    hide Program.Num, S;
    if s.pri < 0x8000_0000 - 64 {
      InRange(s.pri + 64);
    }
    InRange(s.hea + 64);
  }

  /** The start of an instruction, as a code address. */
  predicate IsStart(P: Program, a: int) {
    0 <= a && a % 4 == 0 && a / 4 < |P.marks| && P.marks[a / 4]
  }

  /** SCTRL 6 and 8 test the address in PRI and go on one cell behind it; unknown registers are left alone. */
  lemma ControlJumpsAre(P: Program, s: State, reply: Reply)
    requires P.Valid()
    ensures P.Num(s.cip, 1) in {6, 8} ==>
              Execute(P, SCTRL, s, reply) == if IsStart(P, U(s.pri)) then Next(s.(cip := U(s.pri) + 4)) else Stop(5)
    ensures P.Num(s.cip, 1) == -1 ==> Execute(P, SCTRL, s, reply) == Next(s.(cip := s.cip + 8))
  {
    hide Program.Num, U;
  }

  // ---------- Jumps ----------

  /** The instructions that only say where the machine goes on. */
  lemma JumpsAre(P: Program, c: Condition, s: State, reply: Reply)
    requires P.Valid()
    ensures Execute(P, JUMP, s, reply) == Next(s.(cip := P.CodeArg(s.cip, 1)))
    ensures Execute(P, JREL, s, reply) == Next(s.(cip := s.cip + 8 + P.Num(s.cip, 1)))
    ensures Execute(P, JCC(c), s, reply) == Next(s.(cip := if Holds(c, s.pri, s.alt) then
      P.CodeArg(s.cip, 1) else s.cip + 8))
  {
    hide Program.Num, Program.CodeArg, Holds;
  }

  lemma IndirectJumpIs(P: Program, s: State, reply: Reply)
    requires P.Valid()
    ensures Execute(P, JUMP_PRI, s, reply) == if IsStart(P, U(s.pri)) then Next(s.(cip := U(s.pri))) else Stop(5)
  {
    hide U;
  }

  lemma OthersAre(P: Program, s: State, reply: Reply)
    requires P.Valid()
    ensures Execute(P, NOP, s, reply) == Execute(P, BREAK, s, reply) == Next(s.(cip := s.cip + 4))
  {
  }

  lemma DebugInformationIsSkipped(P: Program, s: State, reply: Reply)
    requires P.Valid()
    ensures Execute(P, DEBUG_INFO, s, reply) == Next(s.(cip := s.cip + 12))
    ensures Execute(P, SYMBOL, s, reply) == Next(s.(cip := s.cip + 12 + P.Num(s.cip, 1)))
  {
    hide Program.Num;
  }

  lemma InvalidInstructionsStop(P: Program, s: State, reply: Reply)
    requires P.Valid()
    ensures Execute(P, NONE, s, reply) == Execute(P, FILE, s, reply) == Execute(P, CASETBL, s, reply) == Stop(6)
  {
    hide Program.Num;
  }

  lemma SwitchIs(P: Program, s: State, reply: Reply)
    requires P.Valid() && P.Num(P.CodeArg(s.cip, 1), 1) <= 30
    ensures var o := Execute(P, SWITCH, s, reply);
      o.Next? && o.s == s.(cip := o.s.cip) && 0 <= o.s.cip && FirstCase(P, P.CodeArg(s.cip, 1), s.pri, o.s.cip)
  {
    hide Program.Num, Program.CodeArg, FirstCase, SwitchTarget;
    CaseTables.LinearSwitchIs(P, P.CodeArg(s.cip, 1), s.pri);
  }

  /** HALT stops with its operand as the error, or sleeps behind it. */
  lemma HaltIs(P: Program, s: State, reply: Reply)
    requires P.Valid()
    ensures var e := P.Num(s.cip, 1);
      Execute(P, HALT, s, reply) == if e == 12 then Sleeping(s.(cip := s.cip + 8)) else Stop(e)
  {
    hide Program.Num;
  }

  // ---------- Natives ----------

  /** A native's result is in PRI and its memory is the machine's; a sleeping one is stored to be called again. */
  predicate Answers(o: Outcome, s: State, reply: Reply, stk: int, next: int) {
    var t := s.(pri := reply.result, mem := reply.mem);
    if reply.err == 0 then o.Next? && o.s.stk == stk && o == Next(t.(stk := o.s.stk, cip := next))
    else if reply.err == 12 then o == Sleeping(t)
    else o == Stop(reply.err)
  }

  lemma NativesAre(P: Program, s: State, reply: Reply)
    requires P.Valid()
    ensures Answers(Execute(P, SYSREQ_PRI, s, reply), s, reply, s.stk, s.cip + 4)
    ensures Answers(Execute(P, SYSREQ_C, s, reply), s, reply, s.stk, s.cip + 8)
  {
    hide Program.Num, S;
    CastRoundTrip(s.stk);
    assert s.stk + 0 == s.stk;
  }

  lemma ReplacedCallsAre(P: Program, s: State, reply: Reply)
    requires P.Valid()
    ensures Execute(P, SYSREQ_D, s, reply) == Execute(P, SYSREQ_C, s, reply)
  {
    hide Program.Num, S, AfterNative;
  }

  lemma ReplacedCallsWithArgumentsAre(P: Program, s: State, reply: Reply)
    requires P.Valid()
    ensures Execute(P, SYSREQ_ND, s, reply) == Execute(P, SYSREQ_N, s, reply)
  {
    hide Program.Num, S, NativeWithArgs;
  }

  /** SYSREQ.N pushes the size of the arguments, calls, and takes the size and the arguments away. */
  lemma NativesWithArgumentsAre(P: Program, s: State, reply: Reply)
    requires Ready(P, s) && 0 <= P.Num(s.cip, 2) < 0x4000_0000
    ensures var o, size: int := Execute(P, SYSREQ_N, s, reply), P.Num(s.cip, 2);
      if s.hea > s.stk - 4 then o == Stop(3)
      else if reply.err == 0 then
        o == Next(s.(pri := reply.result, mem := reply.mem, stk := s.stk + size, cip := s.cip + 12))
      else if reply.err == 12 then o == Sleeping(s.(pri := reply.result, mem := reply.mem, stk := s.stk - 4))
      else o == Stop(reply.err)
  {
    hide Program.Num, S, PushValues, Pushed;
    InstructionSet.PushIs(P.block, s, [P.Num(s.cip, 2)], 0);
    InRange(P.Num(s.cip, 2) + 4);
    InRange(s.stk + P.Num(s.cip, 2));
  }

  // ---------- Start of a run ----------

  /** A stored state is refused exactly if heap and stack are out of bounds or less than 16 cells apart. */
  lemma RefusedIff(b: Block, s: State)
    requires s.hea < 0x8000_0000 - 64
    ensures Refusal(b, s) == 0 <==> b.hlw <= s.hea && s.hea + 64 <= s.stk <= b.stp
    ensures s.stk > b.stp ==> Refusal(b, s) == 7
    ensures s.stk <= b.stp && s.hea < b.hlw ==> Refusal(b, s) == 8
    ensures s.stk <= b.stp && s.hea >= b.hlw && s.hea + 64 > s.stk ==> Refusal(b, s) == 3
  {
    hide S;
    InRange(s.hea + 64);
  }

  /** A public function starts with a zero return address on top of the size of its parameters. */
  lemma EntryIs(b: Block, mem: seq<Byte>, stk: Cell, hea: Cell, paramCount: nat, entry: int)
    requires Ordered(b) && |mem| == b.stp + 4 && 0 <= stk && 4 * paramCount < 0x8000_0000
    ensures var o := Enter(b, mem, stk, hea, paramCount, entry);
      if stk > b.stp then o == Stop(7) else if hea < b.hlw then o == Stop(8)
      else if hea + 8 + 64 > stk then o == Stop(3)
      else
        && o.Next? && Pushed(mem, o.s.mem, stk, [4 * paramCount, 0])
        && o.s == State(0, 0, 0, stk - 8, hea, entry, o.s.mem)
  {
    hide S, Pushed, PushValues;
    if stk <= b.stp && hea >= b.hlw {
      InRange(4 * paramCount);
      var s := State(0, 0, 0, stk, hea, entry, mem);
      if hea <= stk {
        InstructionSet.PushIs(b, s, [4 * paramCount, 0], 0);
        InRange(hea + 64);
      } else {
        RefusedPush(s, [4 * paramCount, 0]);
      }
    }
  }

  lemma RefusedPush(s: State, vs: seq<Cell>)
    requires s.hea > s.stk >= 0 && |vs| < 0x1000_0000
    ensures PushValues(s, vs, 0) == Stop(3)
  {
    InRange(s.stk - 4 * |vs|);
  }
}
