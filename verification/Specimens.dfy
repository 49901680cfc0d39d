/** Small programs that the verifier accepts, each of which goes wrong in one way: what the conditions of the run
    theorems exclude. */
module Specimens {
  import opened Cells
  import opened Opcodes
  import opened Verifier
  import opened VerifierTheorems
  import opened Machine
  import opened MemorySafety
  import opened ControlFlow
  import opened Relocation
  import Acceptance

  const BLOCK := Block(0, 200, 0, 0)

  // ---------- One instruction between two HALTs ----------

  function Wrapped(instr: seq<Cell>): (image: seq<Cell>)
    ensures |image| == 4 + |instr|
  {
    [120, 0] + instr + [120, 0]
  }

  function LayoutFor(size: nat, dataBase: nat): Layout {
    Layout(size, 0, 204, 0, 0, dataBase)
  }

  /** The program as the verifier leaves it when it relocates nothing. */
  function Loading(instr: seq<Cell>, dataBase: nat): (P: Program)
    requires 0 < |instr| < 0x1000
    ensures P.Valid() && |P.marks| == 4 + |instr|
  {
    var l := LayoutFor(4 + |instr|, dataBase);
    Program(l, Wrapped(instr), Marks(Sizes(l, Wrapped(instr))), BLOCK)
  }

  lemma HaltIs()
    ensures OpcodeOf(120) == HALT && HandlerOf(HALT) == Numbers(1) && SizeOf(HALT) == Fixed(2)
  {
  }

  /** `instr` is one instruction whose handler passes and changes nothing. */
  ghost predicate Harmless(instr: seq<Cell>, dataBase: nat) {
    && 0 < |instr| < 0x1000 && SizeOf(OpcodeOf(instr[0])) == Fixed(|instr|)
    && var P := Loading(instr, dataBase);
      Handle(P.layout, P.marks, P.image, 2, Sysreqs(false, false)) == Pass(|instr| - 1, P.image, Sysreqs(false, false))
  }

  lemma WrappedMarks(instr: seq<Cell>, dataBase: nat)
    requires 0 < |instr| < 0x1000 && SizeOf(OpcodeOf(instr[0])) == Fixed(|instr|)
    ensures var P := Loading(instr, dataBase); var sizes := Sizes(P.layout, P.image);
      && WalkAccepts(sizes, 0) && WalkEnd(sizes, 0) == |sizes|
      && forall p: nat :: p < |P.marks| ==> (P.marks[p] <==> p in {0, 2, 2 + |instr|})
  {
    hide OpcodeOf, SizeOf, SizesFrom, IsStart, WalkAccepts, WalkEnd;
    HaltIs();
    var P := Loading(instr, dataBase);
    var l, image := P.layout, P.image;
    assert image[0] == image[2 + |instr|] == 120 && image[2] == instr[0];
    SizesFromAt(l, image, 0, 0);
    SizesFromAt(l, image, 0, 2);
    SizesFromAt(l, image, 0, 2 + |instr|);
    WalkOfThree(Sizes(l, image), |instr|);
  }

  lemma WrappedLoaded(instr: seq<Cell>, dataBase: nat)
    requires Harmless(instr, dataBase)
    ensures Loaded(Loading(instr, dataBase), Wrapped(instr))
  {
    hide OpcodeOf, SizeOf, HandlerOf, SizesFrom, IsStart, WalkAccepts, WalkEnd, Handle;
    WrappedMarks(instr, dataBase);
    var P := Loading(instr, dataBase);
    var l, image, none, last := P.layout, P.image, Sysreqs(false, false), 2 + |instr|;
    HaltPasses(l, P.marks, image, 0, none);
    HaltPasses(l, P.marks, image, last, none);
    assert CheckFrom(l, P.marks, image, last, none) == Accepted(image, none);
    assert CheckFrom(l, P.marks, image, 2, none) == Accepted(image, none);
    assert CheckFrom(l, P.marks, image, 0, none) == Accepted(image, none);
    HaltIs();
    assert StartsWithHalt(image);
    WrappedRegular(instr, dataBase);
  }

  lemma WrappedRegular(instr: seq<Cell>, dataBase: nat)
    requires 0 < |instr| < 0x1000 && SizeOf(OpcodeOf(instr[0])) == Fixed(|instr|)
    ensures Regular(Loading(instr, dataBase).layout, Wrapped(instr))
  {
    hide OpcodeOf, SizeOf, SizesFrom, IsStart, WalkAccepts, WalkEnd;
    WrappedMarks(instr, dataBase);
    HaltIs();
    TablesAgreeOnKinds(OpcodeOf(instr[0]));
    var P := Loading(instr, dataBase);
    forall p | 0 <= p && p + 1 < |P.image| && IsStart(Sizes(P.layout, P.image), 0, p)
      ensures !OpcodeOf(P.image[p]).CASETBL?
    {
      assert P.marks[p];
      assert P.image[0] == P.image[2 + |instr|] == 120 && P.image[2] == instr[0];
    }
  }

  lemma HaltPasses(l: Layout, marks: seq<bool>, image: seq<Cell>, at: nat, used: Sysreqs)
    requires Fits(l, image) && |marks| == l.codeCells && at < l.codeCells && image[at] == 120
    ensures Handle(l, marks, image, at, used) == Pass(1, image, used)
  {
    hide OpcodeOf, HandlerOf;
    HaltIs();
  }

  /** The handlers that test nothing. */
  lemma NumbersHarmless(instr: seq<Cell>, dataBase: nat)
    requires 0 < |instr| < 0x1000 && HandlerOf(OpcodeOf(instr[0])) == Numbers(|instr| - 1)
    requires SizeOf(OpcodeOf(instr[0])) == Fixed(|instr|)
    ensures Harmless(instr, dataBase)
  {
    hide OpcodeOf, HandlerOf, SizeOf;
  }

  lemma StackIs()
    ensures OpcodeOf(44) == STACK && HandlerOf(STACK) == StackHeap && SizeOf(STACK) == Fixed(2)
    ensures OperandCount(STACK) == 1
  {
  }

  lemma TooManyLocals(n: Cell)
    requires n <= -204
    ensures !Accepts(LayoutFor(6, 0), Wrapped([44, n]))
  {
    hide OpcodeOf, HandlerOf, SizeOf, OperandCount, IsStart, SizesFrom, WalkAccepts, WalkEnd, CheckFrom;
    StackIs();
    HaltIs();
    var P := Loading([44, n], 0);
    assert P.image[0] == P.image[4] == 120 && P.image[2] == 44 && P.image[3] == n;
    WrappedMarks([44, n], 0);
    WrappedRegular([44, n], 0);
    Acceptance.AcceptedIff(P.layout, P.image);
    assert P.marks[2];
    assert !Acceptance.InstructionOk(P.layout, P.image, 2);
  }

  /** Locals are allocated by a STACK with a negative operand; of those, every one that is smaller than heap and stack
      is accepted, and no other. */
  lemma LocalsAreAcceptedIff(n: Cell)
    ensures n == -4 ==> Loaded(Loading([44, n], 0), Wrapped([44, n]))
    ensures n < 0 ==> (Accepts(LayoutFor(6, 0), Wrapped([44, n])) <==> n > -204)
  {
    hide OpcodeOf, HandlerOf, SizeOf, OperandCount, IsStart, SizesFrom, WalkAccepts, WalkEnd, CheckFrom;
    StackIs();
    HaltIs();
    var P := Loading([44, n], 0);
    assert P.image[0] == P.image[4] == 120 && P.image[2] == 44 && P.image[3] == n;
    WrappedMarks([44, n], 0);
    if -204 < n < 204 {
      WrappedLoaded([44, n], 0);
    } else if n <= -204 {
      TooManyLocals(n);
    }
  }

  // ---------- Control flow that strays ----------

  lemma StepIndirectIs()
    ensures OpcodeOf(111) == STEP_I(1) && HandlerOf(STEP_I(1)) == Numbers(0) && SizeOf(STEP_I(1)) == Fixed(1)
  {
  }

  lemma StepIndirectGoesOn(P: Program, s: State, reply: Reply)
    requires P.Valid() && !BadDataAddr(P.block, s, s.pri) && Inside(s.mem, s.pri, CELL_SIZE)
    ensures Execute(P, STEP_I(1), s, reply).Next?
  {
    hide S, Read, Write, BadDataAddr;
  }

  /** INC.I goes on at the operand of the HALT behind it. */
  lemma IndirectStepGoesAstray(s: State, reply: Reply)
    requires s.cip == 2 * CELL_SIZE && !BadDataAddr(BLOCK, s, s.pri) && Inside(s.mem, s.pri, CELL_SIZE)
    ensures var P := Loading([111], 0);
      && Loaded(P, Wrapped([111])) && Marked(P.marks, s.cip)
      && Step(P, s, reply).Next? && !Marked(P.marks, Step(P, s, reply).s.cip)
  {
    hide OpcodeOf, HandlerOf, SizeOf, Execute, IsStart, SizesFrom, Loaded, Inside, BadDataAddr;
    StepIndirectIs();
    NumbersHarmless([111], 0);
    WrappedLoaded([111], 0);
    WrappedMarks([111], 0);
    var P := Loading([111], 0);
    assert P.image[2] == 111;
    StepIndirectGoesOn(P, s, reply);
    StepsTwoFurther(P, STEP_I(1), s, reply);
  }

  lemma ControlIs()
    ensures OpcodeOf(32) == SCTRL && HandlerOf(SCTRL) == SctrlId && SizeOf(SCTRL) == Fixed(2)
    ensures OperandCount(SCTRL) == 1
  {
  }

  lemma ControlHarmless()
    ensures Harmless([32, 6], 0)
  {
    hide OpcodeOf, HandlerOf, SizeOf, OperandCount, IsStart, SizesFrom;
    ControlIs();
    var P := Loading([32, 6], 0);
    assert P.image[2] == 32 && P.image[3] == 6;
    assert P.image[3 := 6] == P.image;
  }

  /** SCTRL 6 tests the first HALT and goes on at its operand. */
  lemma ControlJumpGoesAstray(s: State, reply: Reply)
    requires s.cip == 2 * CELL_SIZE && s.pri == 0
    ensures var P := Loading([32, 6], 0);
      && Loaded(P, Wrapped([32, 6])) && Marked(P.marks, s.cip)
      && Step(P, s, reply).Next? && !Marked(P.marks, Step(P, s, reply).s.cip)
  {
    hide OpcodeOf, HandlerOf, SizeOf, Execute, IsStart, SizesFrom, Loaded, Harmless;
    ControlIs();
    ControlHarmless();
    WrappedLoaded([32, 6], 0);
    WrappedMarks([32, 6], 0);
    var P := Loading([32, 6], 0);
    assert P.image[2] == 32 && P.image[3] == 6;
    ControlJumpStrays(P, Wrapped([32, 6]), SCTRL, s, reply);
  }

  lemma CallPriIs()
    ensures OpcodeOf(50) == CALL_PRI && HandlerOf(CALL_PRI) == Numbers(0) && SizeOf(CALL_PRI) == Fixed(1)
  {
  }

  lemma CallPriGoesOn(P: Program, s: State, reply: Reply)
    requires P.Valid() && Ordered(P.block) && Sound(P.block, s) && s.hea + CELL_SIZE <= s.stk
    requires 0 <= s.pri < CELL_SIZE * P.layout.codeCells && s.pri % CELL_SIZE == 0
    ensures Execute(P, CALL_PRI, s, reply).Next?
  {
    hide S, PushValues;
    PushValuesSound(P.block, s, [S(s.Skip(0).cip)], 0);
    PushValuesStops(s, [S(s.Skip(0).cip)], 0);
    InRange(s.stk - CELL_SIZE);
  }

  /** CALL.PRI calls the operand of the first HALT. */
  lemma CallPriGoesAstray(s: State, reply: Reply)
    requires s.cip == 2 * CELL_SIZE && s.pri == CELL_SIZE && Sound(BLOCK, s) && s.hea + CELL_SIZE <= s.stk
    ensures var P := Loading([50], 0);
      && Loaded(P, Wrapped([50])) && Marked(P.marks, s.cip)
      && Step(P, s, reply).Next? && !Marked(P.marks, Step(P, s, reply).s.cip)
  {
    hide OpcodeOf, HandlerOf, SizeOf, Execute, IsStart, SizesFrom, Loaded, Sound;
    CallPriIs();
    NumbersHarmless([50], 0);
    WrappedLoaded([50], 0);
    WrappedMarks([50], 0);
    var P := Loading([50], 0);
    assert P.image[2] == 50;
    CallPriGoesOn(P, s, reply);
    CallPriStrays(P, CALL_PRI, s, reply);
  }

  // ---------- Code that ends too early ----------

  /** HALT and one more opcode; `more` is what is loaded behind the code. */
  function Ending(op: Cell, more: seq<Cell>): seq<Cell> {
    [120, 0, op] + more
  }

  function LayoutOfEnding(codeBase: nat): Layout {
    Layout(3, 4, 204, 0, codeBase, 0)
  }

  lemma EndingMarks(op: Cell, more: seq<Cell>, codeBase: nat, cells: nat)
    requires |more| <= 1 && SizeOf(OpcodeOf(op)) == Fixed(cells) && cells > 0
    ensures var sizes := Sizes(LayoutOfEnding(codeBase), Ending(op, more));
      && WalkAccepts(sizes, 0) && WalkEnd(sizes, 0) == 2 + cells
      && forall p: nat :: p < 3 ==> (Marks(sizes)[p] <==> p in {0, 2})
  {
    hide OpcodeOf, SizeOf, SizesFrom, IsStart, WalkAccepts, WalkEnd;
    HaltIs();
    var l, image := LayoutOfEnding(codeBase), Ending(op, more);
    SizesFromAt(l, image, 0, 0);
    SizesFromAt(l, image, 0, 2);
    WalkOfTwo(Sizes(l, image));
  }

  lemma NopIs()
    ensures OpcodeOf(134) == NOP && HandlerOf(NOP) == Numbers(0) && SizeOf(NOP) == Fixed(1)
  {
  }

  lemma EndingRegular()
    ensures Regular(LayoutOfEnding(0), Ending(134, []))
  {
    hide OpcodeOf, SizeOf, HandlerOf, SizesFrom, IsStart, WalkAccepts, WalkEnd;
    HaltIs();
    NopIs();
    EndingMarks(134, [], 0, 1);
    var l, image := LayoutOfEnding(0), Ending(134, []);
    forall p | 0 <= p && p + 1 < l.codeCells && IsStart(Sizes(l, image), 0, p)
      ensures !OpcodeOf(image[p]).CASETBL?
    {
      assert Marks(Sizes(l, image))[p];
    }
  }

  function LastNop(): (P: Program)
    ensures P.Valid()
  {
    var l := LayoutOfEnding(0);
    Program(l, Ending(134, []), Marks(Sizes(l, Ending(134, []))), BLOCK)
  }

  /** Behind a last instruction that falls through, the next fetch is outside the code. */
  lemma RunsOffTheEnd(s: State, reply: Reply, next: Reply)
    requires s.cip == 2 * CELL_SIZE
    ensures Loaded(LastNop(), Ending(134, [])) && Marked(LastNop().marks, s.cip)
    ensures Run(LastNop(), s, [reply, next]).OffCode?
  {
    hide OpcodeOf, HandlerOf, SizeOf, IsStart, SizesFrom, WalkAccepts, WalkEnd, Handle;
    HaltIs();
    NopIs();
    EndingMarks(134, [], 0, 1);
    var P := LastNop();
    var none := Sysreqs(false, false);
    HaltPasses(P.layout, P.marks, P.image, 0, none);
    NopPasses(P.layout, P.marks, P.image, 2, none);
    assert CheckFrom(P.layout, P.marks, P.image, 2, none) == Accepted(P.image, none);
    assert CheckFrom(P.layout, P.marks, P.image, 0, none) == Accepted(P.image, none);
    assert StartsWithHalt(P.image);
    EndingRegular();
    NopGoesOn(P, s, reply);
    var t := s.Skip(0);
    assert Step(P, t, next).OffCode?;
    assert [reply, next][1..] == [next];
  }

  lemma NopPasses(l: Layout, marks: seq<bool>, image: seq<Cell>, at: nat, used: Sysreqs)
    requires Fits(l, image) && |marks| == l.codeCells && at < l.codeCells && image[at] == 134
    ensures Handle(l, marks, image, at, used) == Pass(0, image, used)
  {
    hide OpcodeOf, HandlerOf;
    NopIs();
  }

  lemma NopGoesOn(P: Program, s: State, reply: Reply)
    requires P.Valid() && s.cip == 2 * CELL_SIZE && P.layout.codeCells == |P.image| == 3 && P.image[2] == 134
    ensures Step(P, s, reply) == Next(s.Skip(0))
  {
    hide OpcodeOf;
    NopIs();
  }

  lemma JumpIs()
    ensures OpcodeOf(51) == JUMP && HandlerOf(JUMP) == CodeOffs && SizeOf(JUMP) == Fixed(2) && OperandCount(JUMP) == 1
  {
  }

  /** A first walk that ends behind the code is accepted: the operand of the last instruction is then the first cell
      of the data, where relocation changes it. */
  lemma OperandOutsideCode(codeBase: nat)
    requires 0 < codeBase < 0x1000_0000
    ensures var l, origin := LayoutOfEnding(codeBase), Ending(51, [0]);
      && Accepts(l, origin) && !Regular(l, origin) && Marks(Sizes(l, origin))[2]
      && Verify(l, origin).image == origin[l.codeCells := codeBase] != origin
  {
    hide OpcodeOf, HandlerOf, SizeOf, IsStart, SizesFrom, WalkAccepts, WalkEnd, Handle;
    HaltIs();
    EndingMarks(51, [0], codeBase, 2) by {
      JumpIs();
    }
    var l, origin := LayoutOfEnding(codeBase), Ending(51, [0]);
    var marks, none := Marks(Sizes(l, origin)), Sysreqs(false, false);
    HaltPasses(l, marks, origin, 0, none);
    JumpPasses(l, marks, origin, none);
    var image := origin[3 := codeBase];
    assert image[3] != origin[3];
    assert CheckFrom(l, marks, origin, 2, none) == Accepted(image, none);
    assert CheckFrom(l, marks, origin, 0, none) == Accepted(image, none);
    assert StartsWithHalt(origin);
  }

  lemma JumpPasses(l: Layout, marks: seq<bool>, image: seq<Cell>, used: Sysreqs)
    requires Fits(l, image) && |marks| == l.codeCells == 3 && |image| == 4 && image[2] == 51 && image[3] == 0 && marks[0]
    requires l.codeBase < 0x1000_0000
    ensures Handle(l, marks, image, 2, used) == Pass(1, image[3 := l.codeBase], used)
  {
    hide OpcodeOf, HandlerOf;
    JumpIs();
  }

  // ---------- A CONST that is not relocated ----------

  lemma ConstIs()
    ensures OpcodeOf(156) == CONST && HandlerOf(CONST) == DataOffsNumber && SizeOf(CONST) == Fixed(3)
    ensures OperandCount(CONST) == 2
  {
  }

  lemma ConstHarmless(dataBase: nat)
    ensures Harmless([156, 100, 7], dataBase)
  {
    hide OpcodeOf, HandlerOf, SizeOf, OperandCount, IsStart, SizesFrom;
    ConstIs();
    var P := Loading([156, 100, 7], dataBase);
    assert P.image[2] == 156 && P.image[3] == 100;
  }

  /** One program, accepted at two load addresses, that writes to different places: there is no data section, and the
      address of its CONST is not relocated, but taken for relocated. */
  lemma ConstDoesNotMove(reply: Reply)
    ensures var P, Q := Loading([156, 100, 7], 0), Loading([156, 100, 7], 4);
      var s := State(0, 0, 0, 200, 0, 2 * CELL_SIZE, seq(204, _ => 0));
      && Twins(P, Q, Wrapped([156, 100, 7])) && Confined(P) && Marked(P.marks, s.cip) && Sound(P.block, s)
      && Step(P, s, reply) == Next(s.(mem := Write(s.mem, 100, 7)).Skip(2))
      && Step(Q, s, reply) == Next(s.(mem := Write(s.mem, 96, 7)).Skip(2))
      && Step(P, s, reply) != Step(Q, s, reply)
  {
    hide OpcodeOf, HandlerOf, SizeOf, IsStart, SizesFrom, Loaded, Harmless, Write, Confined;
    ConstIs();
    ConstIsConfined(0);
    ConstHarmless(0);
    ConstHarmless(4);
    WrappedLoaded([156, 100, 7], 0);
    WrappedLoaded([156, 100, 7], 4);
    WrappedMarks([156, 100, 7], 0);
    var P, Q := Loading([156, 100, 7], 0), Loading([156, 100, 7], 4);
    var s := State(0, 0, 0, 200, 0, 2 * CELL_SIZE, seq(204, _ => 0));
    assert P.image[2] == Q.image[2] == 156 && P.image[3] == Q.image[3] == 100 && P.image[4] == Q.image[4] == 7;
    ConstWrites(P, s, reply, 100);
    ConstWrites(Q, s, reply, 96);
    SevenAt(s.mem);
  }

  /** The program meets every other condition. */
  lemma ConstIsConfined(dataBase: nat)
    ensures Confined(Loading([156, 100, 7], dataBase))
  {
    hide OpcodeOf, HandlerOf, SizeOf, IsStart, SizesFrom, OperandCount;
    ConstIs();
    HaltIs();
    WrappedMarks([156, 100, 7], dataBase);
    var P := Loading([156, 100, 7], dataBase);
    assert P.image[0] == P.image[5] == 120 && P.image[2] == 156;
  }

  lemma ConstWrites(P: Program, s: State, reply: Reply, a: int)
    requires P.Valid() && P.Num(s.cip, 2) == 7 && P.DataArg(s.cip, 1) == a && Inside(s.mem, a, CELL_SIZE)
    ensures Execute(P, CONST, s, reply) == Next(s.(mem := Write(s.mem, a, 7)).Skip(2))
  {
    hide Write, Program.Num, Program.DataArg;
  }

  lemma SevenAt(mem: seq<Byte>)
    requires |mem| == 204 && mem[96] == 0
    ensures Write(mem, 100, 7) != Write(mem, 96, 7)
  {
    assert Write(mem, 100, 7)[96] == 0;
    assert Write(mem, 96, 7)[96] == 7;
  }
}
