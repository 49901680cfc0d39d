/** Control-flow soundness: a run of an accepted program fetches opcodes at instruction starts only. */
module ControlFlow {
  import opened Cells
  import opened Opcodes
  import opened Alu
  import opened Verifier
  import opened VerifierTheorems
  import opened Machine

  /** `P` is what the verifier made of the program `origin`. */
  predicate Loaded(P: Program, origin: seq<Cell>) {
    && Fits(P.layout, origin) && Regular(P.layout, origin) && Accepts(P.layout, origin)
    && P.image == Verify(P.layout, origin).image
    && P.marks == Marks(Sizes(P.layout, origin))
  }

  lemma LoadedWalk(P: Program, origin: seq<Cell>)
    requires Loaded(P, origin)
    ensures Fits(P.layout, origin) && WalkAccepts(Sizes(P.layout, origin), 0)
    ensures P.marks == Marks(Sizes(P.layout, origin)) && P.Valid()
  {
    hide Verify, StartsWithHalt, Regular, WalkAccepts, Sizes;
  }

  /** Everything the verifier established about the instruction at cell `p`. */
  lemma StartSettled(P: Program, origin: seq<Cell>, p: nat)
    requires Loaded(P, origin) && Marked(P.marks, CELL_SIZE * p)
    ensures P.Valid() && p < P.layout.codeCells && |P.image| == |origin| && P.layout.codeCells <= |origin|
    ensures Settled(P.layout, P.marks, origin, P.image, p)
    ensures p + ArgsAt(origin, p) < P.layout.codeCells
    ensures Sizes(P.layout, origin)[p] == 1 + ArgsAt(origin, p)
  {
    hide Settled, ArgsAt, Regular, WalkSize, CheckFrom;
    AcceptedIsSettled(P.layout, origin, p);
  }

  /** The cell behind an instruction is a start, or the end of the code. */
  lemma NextIsStart(P: Program, origin: seq<Cell>, p: nat)
    requires Loaded(P, origin) && Marked(P.marks, CELL_SIZE * p)
    ensures p < P.layout.codeCells <= |origin| && |P.marks| == P.layout.codeCells
    ensures p + 1 + ArgsAt(origin, p) < P.layout.codeCells ==> Marked(P.marks, CELL_SIZE * (p + 1 + ArgsAt(origin, p)))
  {
    hide Loaded, Settled, ArgsAt, IsStart, WalkAccepts, Sizes, WalkEnd, WalkSize;
    LoadedWalk(P, origin);
    StartSettled(P, origin, p);
    assert (CELL_SIZE * p) / CELL_SIZE == p;
    NextStart(Sizes(P.layout, origin), 0, p);
  }

  // ---------- What the machine does with the instruction pointer ----------

  /** `op` can be followed by the instruction behind it. */
  predicate FallsThrough(op: Opcode) {
    match op
    case JUMP | JREL | CALL | CALL_PRI | RET | RETN | HALT | JUMP_PRI | SWITCH | CASETBL => false
    case _ => true
  }

  /** The instructions whose handler does not go where the verifier expects: INC.I and DEC.I skip a cell that
      is not theirs, SCTRL 6 and 8 skip one after the jump, CALL.PRI jumps to any cell of the code. */
  predicate IsStray(P: Program, op: Opcode, c: int) {
    op.STEP_I? || op.CALL_PRI? || (op.SCTRL? && P.Num(c, 1) in {6, 8})
  }

  /** Where `op`, executed at `c`, leaves the instruction pointer. */
  ghost predicate GoesTo(P: Program, op: Opcode, s: State, target: int) {
    var c := s.cip;
    var behind := c + CELL_SIZE * (1 + OperandCount(op));
    match op
    case JUMP | CALL => target == P.CodeArg(c, 1)
    case JREL => target == c + 2 * CELL_SIZE + P.Num(c, 1)
    case JCC(cond) => target == if Holds(cond, s.pri, s.alt) then P.CodeArg(c, 1) else behind
    case RET | RETN | JUMP_PRI => Marked(P.marks, target)
    case SWITCH => target == SwitchTarget(P, P.CodeArg(c, 1), s.pri)
    case _ => target == behind
  }

  /** How a run falls asleep: behind a HALT, or on the call of a native, which is then made again. */
  predicate SleepsAt(P: Program, op: Opcode, s: State, asleep: State) {
    if op.HALT? then P.Num(s.cip, 1) == ERR_SLEEP && asleep == s.Skip(1)
    else CallsNative(op) && asleep.cip == s.cip && asleep.frm == s.frm
  }

  /** What `op` does to the instruction pointer. */
  ghost predicate Flows(P: Program, op: Opcode, s: State, o: Outcome) {
    && !o.OffCode?
    && (o.Next? ==> GoesTo(P, op, s, o.s.cip))
    && (o.Sleeping? ==> SleepsAt(P, op, s, o.s))
  }

  ghost predicate SkipsTo(o: Outcome, s: State, skip: nat) {
    !o.OffCode? && !o.Sleeping? && (o.Next? ==> o.s.cip == s.cip + CELL_SIZE * (1 + skip))
  }

  lemma LoadFlow(b: Block, s: State, r: Reg, a: Cell, skip: nat)
    ensures SkipsTo(LoadAt(s, r, a, skip), s, skip) && SkipsTo(LoadData(b, s, r, a, skip), s, skip)
    ensures SkipsTo(LoadStack(b, s, r, a), s, 1) && SkipsTo(LoadRef(b, s, r, a), s, 1)
    ensures SkipsTo(LoadRefStack(b, s, r, a), s, 1)
  {
    hide Read, S, Inside, BadDataAddr, BadStackAddr;
  }

  lemma StoreFlow(b: Block, s: State, r: Reg, a: Cell, v: Cell, skip: nat)
    ensures SkipsTo(StoreAt(s, a, v, skip), s, skip) && SkipsTo(StoreData(b, s, a, v, skip), s, skip)
    ensures SkipsTo(StoreStack(b, s, a, v, skip), s, skip) && SkipsTo(StoreRef(b, s, r, a), s, 1)
    ensures SkipsTo(StoreRefStack(b, s, r, a), s, 1)
  {
    hide Read, Write, S, Inside, BadDataAddr, BadStackAddr;
  }

  lemma StepFlow(b: Block, s: State, a: Cell, delta: int)
    ensures SkipsTo(AddAt(s, a, delta, 1), s, 1) && SkipsTo(AddStack(b, s, a, delta), s, 1)
  {
    hide Read, Write, S, Inside, BadDataAddr, BadStackAddr;
  }

  lemma AccessFlow(P: Program, op: Opcode, s: State)
    requires P.Valid() && IsAccess(op) && !op.STEP_I?
    ensures SkipsTo(ExecuteAccess(P, op, s), s, OperandCount(op))
  {
    hide ExecuteAccess, OperandCount, IsAccess;
    if Loads(op) {
      ReadFlow(P, op, s);
    } else {
      WriteFlow(P, op, s);
    }
  }

  lemma ReadFlow(P: Program, op: Opcode, s: State)
    requires P.Valid() && IsAccess(op) && Loads(op)
    ensures SkipsTo(ExecuteAccess(P, op, s), s, OperandCount(op))
  {
    hide LoadAt, LoadData, LoadStack, LoadRef, LoadRefStack, StoreAt, StoreData, StoreStack, StoreRef, StoreRefStack;
    hide AddAt, AddStack, SkipsTo, S, Program.Num, Program.DataArg;
    hide LoadBytes, StoreBytes, LoadBoth, LoadBothStack, ShiftLeft, State.Get;
    var c := s.cip;
    match op
    case LOAD(r) => LoadFlow(P.block, s, r, P.DataArg(c, 1), 1);
    case LOAD_S(r) => LoadFlow(P.block, s, r, P.Num(c, 1), 1);
    case LREF(r) => LoadFlow(P.block, s, r, P.DataArg(c, 1), 1);
    case LREF_S(r) => LoadFlow(P.block, s, r, P.Num(c, 1), 1);
    case LOAD_I => LoadFlow(P.block, s, PRI, s.pri, 0);
    case LIDX => LoadFlow(P.block, s, PRI, S(s.pri * CELL_SIZE + s.alt), 0);
    case LIDX_B => LoadFlow(P.block, s, PRI, S(ShiftLeft(s.pri, P.Num(c, 1)) + s.alt), 1);
    case LODB_I => BytesFlow(P.block, s, P.Num(c, 1));
    case LOAD_BOTH => BothFlow(P.block, s, P.DataArg(c, 1), P.DataArg(c, 2));
    case LOAD_S_BOTH => BothFlow(P.block, s, P.Num(c, 1), P.Num(c, 2));
  }

  lemma WriteFlow(P: Program, op: Opcode, s: State)
    requires P.Valid() && IsAccess(op) && !Loads(op) && !op.STEP_I?
    ensures SkipsTo(ExecuteAccess(P, op, s), s, OperandCount(op))
  {
    hide LoadAt, LoadData, LoadStack, LoadRef, LoadRefStack, StoreAt, StoreData, StoreStack, StoreRef, StoreRefStack;
    hide AddAt, AddStack, SkipsTo, S, Program.Num, Program.DataArg;
    hide LoadBytes, StoreBytes, LoadBoth, LoadBothStack, ShiftLeft, State.Get;
    var c := s.cip;
    match op
    case STOR(r) => StoreFlow(P.block, s, r, P.DataArg(c, 1), s.Get(r), 1);
    case STOR_S(r) => StoreFlow(P.block, s, r, P.Num(c, 1), s.Get(r), 1);
    case SREF(r) => StoreFlow(P.block, s, r, P.DataArg(c, 1), 0, 1);
    case SREF_S(r) => StoreFlow(P.block, s, r, P.Num(c, 1), 0, 1);
    case STOR_I => StoreFlow(P.block, s, PRI, s.alt, s.pri, 0);
    case ZERO => StoreFlow(P.block, s, PRI, P.DataArg(c, 1), 0, 1);
    case ZERO_S => StoreFlow(P.block, s, PRI, P.Num(c, 1), 0, 1);
    case STEP(delta) => StepFlow(P.block, s, P.DataArg(c, 1), delta);
    case STEP_S(delta) => StepFlow(P.block, s, P.Num(c, 1), delta);
    case STRB_I => BytesFlow(P.block, s, P.Num(c, 1));
    case CONST => StoreFlow(P.block, s, PRI, P.DataArg(c, 1), P.Num(c, 2), 2);
    case CONST_S => StoreFlow(P.block, s, PRI, P.Num(c, 1), P.Num(c, 2), 2);
  }

  lemma BytesFlow(b: Block, s: State, n: Cell)
    ensures SkipsTo(LoadBytes(b, s, n), s, 1) && SkipsTo(StoreBytes(b, s, n), s, 1)
  {
    hide ReadBytes, Patch, BytesOf, S, BadDataAddr, Inside;
  }

  lemma BothFlow(b: Block, s: State, a: Cell, a': Cell)
    ensures SkipsTo(LoadBoth(s, a, a'), s, 2) && SkipsTo(LoadBothStack(b, s, a, a'), s, 2)
  {
    hide Read, S, BadStackAddr, Inside;
  }

  lemma PushFlow(s: State, vs: seq<Cell>, skip: nat)
    ensures SkipsTo(PushValues(s, vs, skip), s, skip) && SkipsTo(PushCopies(s, vs, skip), s, skip)
  {
    hide WriteDown, CopyDown, S;
  }

  lemma PushStackFlow(b: Block, s: State, offs: Cell, more: seq<Cell>)
    ensures SkipsTo(PushStackOne(b, s, offs), s, 1) && SkipsTo(PushStackMany(b, s, more), s, |more|)
  {
    hide PushCopies, S, BadStackAddr, FrameAddrs;
    PushFlow(s, [S(s.frm + offs)], 1);
    PushFlow(s, FrameAddrs(s, more), |more|);
  }

  lemma PopFlow(b: Block, s: State, r: Reg, n: Cell)
    ensures SkipsTo(Pop(b, s, r), s, 0) && SkipsTo(Swap(s, r), s, 0) && SkipsTo(PushRepeated(s, n), s, 1)
    ensures SkipsTo(MoveStack(b, s, n), s, 1) && SkipsTo(MoveHeap(b, s, n), s, 1)
  {
    hide Read, Write, S, Inside, WriteDown, MarginExceeded;
  }

  lemma CallFlow(b: Block, marks: seq<bool>, s: State, target: int)
    ensures SkipsTo(EnterProcedure(s), s, 0)
    ensures var o := Call(s, target, 1); !o.OffCode? && !o.Sleeping? && (o.Next? ==> o.s.cip == target)
    ensures var o := Return(b, marks, s); !o.OffCode? && !o.Sleeping? && (o.Next? ==> Marked(marks, o.s.cip))
    ensures var o := ReturnArgs(b, marks, s); !o.OffCode? && !o.Sleeping? && (o.Next? ==> Marked(marks, o.s.cip))
  {
    hide Read, S, Marked, PushValues;
    PushFlow(s, [s.frm], 0);
    PushFlow(s, [S(s.Skip(1).cip)], 1);
  }

  lemma StackOpFlow(P: Program, op: Opcode, s: State)
    requires P.Valid() && IsStackOp(op) && !op.CALL? && !op.CALL_PRI? && !op.RET? && !op.RETN?
    ensures SkipsTo(ExecuteStackOp(P, op, s), s, OperandCount(op))
  {
    hide PushValues, PushCopies, PushStackOne, PushStackMany, PushRepeated, Pop, Swap, MoveStack, MoveHeap;
    hide EnterProcedure, S, SkipsTo, Program.Num, FrameAddrs;
    var c := s.cip;
    match op
    case PUSH_REG(r) => PushFlow(s, [s.Get(r)], 0);
    case PUSH_R => PopFlow(P.block, s, PRI, P.Num(c, 1));
    case PUSH_C(n) => PushFlow(s, P.Nums(c, n), n);
    case PUSH(n) => PushFlow(s, P.DataArgs(c, n), n);
    case PUSH_S(n) => PushStackFlow(P.block, s, P.Num(c, 1), P.Nums(c, n));
    case PUSH_ADR(n) => PushFlow(s, FrameAddrs(s, P.Nums(c, n)), n);
    case POP(r) => PopFlow(P.block, s, r, 0);
    case SWAP(r) => PopFlow(P.block, s, r, 0);
    case STACK => PopFlow(P.block, s, PRI, P.Num(c, 1));
    case HEAP => PopFlow(P.block, s, PRI, P.Num(c, 1));
    case PROC => CallFlow(P.block, P.marks, s, 0);
  }

  lemma TransferFlow(P: Program, op: Opcode, s: State)
    requires P.Valid() && (op.CALL? || op.RET? || op.RETN?)
    ensures var o := ExecuteStackOp(P, op, s); Flows(P, op, s, o) && !o.Sleeping?
  {
    hide Call, Return, ReturnArgs, Program.CodeArg, Marked;
    CallFlow(P.block, P.marks, s, P.CodeArg(s.cip, 1));
  }

  lemma OtherFlow(P: Program, op: Opcode, s: State, reply: Reply)
    requires P.Valid() && !IsAccess(op) && !IsStackOp(op) && !IsStray(P, op, s.cip) && !HandlerOf(op).Invalid?
    ensures Flows(P, op, s, ExecuteOther(P, op, s, reply))
  {
    hide PushValues, Read, Write, S, Apply, ApplyConst, Holds, SwitchTarget, BadBlock, FillFrom, CompareBytes, Patch;
    hide Program.CodeArg, Program.Num, MarginExceeded, Inside;
    hide MoveBlock, CompareBlock, FillBlock, LoadControl, StoreControl;
    var arg := P.Num(s.cip, 1);
    match op
    case MOVS => BlockFlow(P.block, s, arg);
    case CMPS => BlockFlow(P.block, s, arg);
    case FILL => BlockFlow(P.block, s, arg);
    case LCTRL => ControlRegistersFlow(P.block, P.marks, s, arg);
    case SCTRL => ControlRegistersFlow(P.block, P.marks, s, arg);
    case SYSREQ_N => NativeFlow(s, P.Num(s.cip, 2));
    case _ =>
  }

  lemma NativeFlow(s: State, size: Cell)
    ensures SkipsTo(PushValues(s, [size], 0), s, 0)
    ensures var o := PushValues(s, [size], 0); o.Next? ==> o.s.frm == s.frm
  {
    hide WriteDown, S;
    PushFlow(s, [size], 0);
  }

  lemma BlockFlow(b: Block, s: State, size: Cell)
    ensures SkipsTo(MoveBlock(b, s, size), s, 1) && SkipsTo(CompareBlock(b, s, size), s, 1)
    ensures SkipsTo(FillBlock(b, s, size), s, 1)
  {
    hide BadBlock, FillFrom, CompareBytes, Patch, Inside;
  }

  lemma ControlRegistersFlow(b: Block, marks: seq<bool>, s: State, id: Cell)
    ensures SkipsTo(LoadControl(b, s, id), s, 1)
    ensures id != 6 && id != 8 ==> SkipsTo(StoreControl(b, marks, s, id), s, 1)
  {
    hide MarginExceeded, Marked, S, U;
  }

  lemma ExecuteFlow(P: Program, op: Opcode, s: State, reply: Reply)
    requires P.Valid() && !IsStray(P, op, s.cip) && !HandlerOf(op).Invalid?
    ensures Flows(P, op, s, Execute(P, op, s, reply))
  {
    hide ExecuteAccess, ExecuteStackOp, ExecuteOther, HandlerOf, SwitchTarget, Holds, Program.CodeArg, Marked;
    if IsAccess(op) {
      AccessFlow(P, op, s);
    } else if IsStackOp(op) {
      if op.CALL? || op.RET? || op.RETN? {
        TransferFlow(P, op, s);
      } else {
        StackOpFlow(P, op, s);
      }
    } else {
      OtherFlow(P, op, s, reply);
    }
  }

  // ---------- The places it can go to are starts ----------

  /** An address operand that passed the verifier points at a start, whatever the base it was relocated to. */
  lemma CodeOperandMarked(P: Program, origin: seq<Cell>, p: nat, k: nat)
    requires P.Valid() && |P.image| == |origin| && p + k < |origin|
    requires CodeOffsOk(P.layout, P.marks, origin[p + k]) && P.image[p + k] == S(origin[p + k] + P.layout.codeBase)
    ensures P.CodeArg(CELL_SIZE * p, k) == U(origin[p + k]) && Marked(P.marks, P.CodeArg(CELL_SIZE * p, k))
  {
    RebaseRoundTrip(origin[p + k], P.layout.codeBase);
  }

  /** The verifier's wrapped sum for JREL is the address the machine jumps to. */
  lemma RelativeMarked(l: Layout, marks: seq<bool>, p: nat, arg: Cell)
    requires |marks| == l.codeCells && CELL_SIZE * l.codeCells < 0x8000_0000 && p < l.codeCells
    requires CodeOffsOk(l, marks, S(CELL_SIZE * p + arg + 2 * CELL_SIZE))
    ensures Marked(marks, CELL_SIZE * p + 2 * CELL_SIZE + arg)
  {
  }

  /** A case table: `count` records behind the default, all of whose addresses are starts. */
  ghost predicate TableOk(P: Program, table: int, count: int)
    requires P.Valid()
  {
    && P.Num(table, 1) == count
    && forall k: nat :: k <= count ==> Marked(P.marks, P.CodeArg(table, 2 * k + 2))
  }

  /** The first walk rejects a table whose count would lie behind the code. */
  lemma TableCountInCode(l: Layout, image: seq<Cell>, p: nat)
    requires Fits(l, image) && IsStart(Sizes(l, image), 0, p)
    ensures p < l.codeCells && (OpcodeOf(image[p]).CASETBL? ==> p + 1 < l.codeCells)
  {
    hide OpcodeOf, IsStart, SizesFrom;
    StartsAreAhead(Sizes(l, image), 0, p);
    SizesFromAt(l, image, 0, p);
    TablesAgreeOnKinds(OpcodeOf(image[p]));
  }

  lemma TableCount(P: Program, origin: seq<Cell>, p: nat)
    requires Loaded(P, origin) && Marked(P.marks, CELL_SIZE * p)
    requires p < |origin| && OpcodeOf(origin[p]).CASETBL?
    ensures p + 1 < P.layout.codeCells <= |origin| && 0 <= origin[p + 1] <= 126
  {
    hide Accepts, Verify, Sizes, WalkEnd, IsStart, OpcodeOf;
    TableCountInCode(P.layout, origin, p);
  }

  lemma TableAtStart(P: Program, origin: seq<Cell>, p: nat)
    requires Loaded(P, origin) && Marked(P.marks, CELL_SIZE * p)
    requires p < |origin| && OpcodeOf(origin[p]).CASETBL?
    ensures P.Valid() && p + 1 < |origin| && 0 <= origin[p + 1] <= 126 && TableOk(P, CELL_SIZE * p, origin[p + 1])
  {
    hide Program.CodeArg, CheckFrom, WalkAccepts, SizesFrom, IsStart, OpcodeOf, WalkEnd;
    StartSettled(P, origin, p);
    CaseTablesHaveTheirHandler(OpcodeOf(origin[p]));
    TableCount(P, origin, p);
    var count: int := origin[p + 1];
    assert WideTableArgs(origin[p + 1]) == 2 + 2 * count;
    assert P.image[p + 1] == origin[p + 1];
    forall k: nat | k <= count
      ensures Marked(P.marks, P.CodeArg(CELL_SIZE * p, 2 * k + 2))
    {
      assert Slot(p, k) == p + (2 * k + 2);
      CodeOperandMarked(P, origin, p, 2 * k + 2);
    }
  }

  lemma {:induction false} LinearCaseMarked(P: Program, table: int, i: nat, v: Cell, count: int)
    requires P.Valid() && TableOk(P, table, count) && 0 <= count
    ensures Marked(P.marks, LinearCase(P, table, i, v))
    decreases count - i
  {
    if i > count {
      assert Marked(P.marks, P.CodeArg(table, 2 * 0 + 2));
    } else {
      LinearCaseMarked(P, table, i + 1, v, count);
    }
  }

  /** The conditions on a program, checkable before it runs, under which its control flow is the one the
      verifier assumed: no stray instruction, no table for the binary search, and a last instruction that
      cannot run off the code. */
  ghost predicate Confined(P: Program) {
    P.Valid() && P.layout.codeCells <= |P.image| &&
    forall p: nat :: Marked(P.marks, CELL_SIZE * p) ==>
      var op := OpcodeOf(P.image[p]);
      && !IsStray(P, op, CELL_SIZE * p)
      && (op.CASETBL? ==> P.Num(CELL_SIZE * p, 1) <= 30)
      && (FallsThrough(op) ==> p + 1 + OperandCount(op) < P.layout.codeCells)
  }

  lemma JumpMarked(P: Program, origin: seq<Cell>, p: nat)
    requires Loaded(P, origin) && Marked(P.marks, CELL_SIZE * p) && p < |P.image|
    ensures HandlerOf(OpcodeOf(P.image[p])).CodeOffs? ==> Marked(P.marks, P.CodeArg(CELL_SIZE * p, 1))
    ensures HandlerOf(OpcodeOf(P.image[p])).Relative? ==>
      Marked(P.marks, CELL_SIZE * p + 2 * CELL_SIZE + P.Num(CELL_SIZE * p, 1))
  {
    hide Accepts, Regular, Sizes, OpcodeOf, HandlerOf, Program.CodeArg;
    StartSettled(P, origin, p);
    var h := HandlerOf(OpcodeOf(P.image[p]));
    if h.CodeOffs? {
      CodeOperandMarked(P, origin, p, 1);
    } else if h.Relative? {
      RelativeMarked(P.layout, P.marks, p, origin[p + 1]);
    }
  }

  lemma SwitchMarked(P: Program, origin: seq<Cell>, p: nat, v: Cell)
    requires Loaded(P, origin) && Confined(P) && Marked(P.marks, CELL_SIZE * p)
    requires p < |P.image| && OpcodeOf(P.image[p]).SWITCH?
    ensures Marked(P.marks, SwitchTarget(P, P.CodeArg(CELL_SIZE * p, 1), v))
  {
    hide Accepts, Regular, Sizes, OpcodeOf, Program.CodeArg, LinearCase, BinaryCase;
    StartSettled(P, origin, p);
    CodeOperandMarked(P, origin, p, 1);
    var table := U(origin[p + 1]) / CELL_SIZE;
    assert P.CodeArg(CELL_SIZE * p, 1) == CELL_SIZE * table;
    StartSettled(P, origin, table);
    TableAtStart(P, origin, table);
    LinearCaseMarked(P, CELL_SIZE * table, 1, v, origin[table + 1]);
  }

  lemma FallMarked(P: Program, origin: seq<Cell>, p: nat)
    requires Loaded(P, origin) && Confined(P) && Marked(P.marks, CELL_SIZE * p)
    requires p < |P.image| && FallsThrough(OpcodeOf(P.image[p]))
    ensures Marked(P.marks, CELL_SIZE * p + CELL_SIZE * (1 + OperandCount(OpcodeOf(P.image[p]))))
  {
    hide Accepts, Regular, Sizes, OpcodeOf, OperandCount, SettledOperands, Loaded;
    StartSettled(P, origin, p);
    NextIsStart(P, origin, p);
    assert P.image[p] == origin[p];
  }

  /** The targets of one instruction of a confined program. */
  lemma TargetMarked(P: Program, origin: seq<Cell>, s: State, target: int)
    requires Loaded(P, origin) && Confined(P) && Marked(P.marks, s.cip)
    requires var op := OpcodeOf(P.image[s.cip / CELL_SIZE]);
      GoesTo(P, op, s, target) && !op.HALT? && !op.CASETBL? && !op.CALL_PRI?
    ensures Marked(P.marks, target)
  {
    hide Loaded, OpcodeOf, OperandCount, Holds, SwitchTarget, Program.CodeArg, Program.Num, Marked;
    var p := s.cip / CELL_SIZE;
    AlignedAtStart(P.marks, s.cip);
    var op := OpcodeOf(P.image[p]);
    if FallsThrough(op) {
      FallMarked(P, origin, p);
    }
    if op.SWITCH? {
      SwitchMarked(P, origin, p, s.pri);
    } else if op.JUMP? || op.CALL? || op.JCC? || op.JREL? {
      JumpMarked(P, origin, p);
    }
  }

  lemma AlignedAtStart(marks: seq<bool>, offs: int)
    requires Marked(marks, offs)
    ensures offs == CELL_SIZE * (offs / CELL_SIZE) && 0 <= offs / CELL_SIZE < |marks|
  {
  }

  // ---------- Steps and runs ----------

  /** One step from a start of a confined program leads to a start, and the fetch is in the code. */
  lemma StepStaysOnStarts(P: Program, origin: seq<Cell>, s: State, reply: Reply)
    requires Loaded(P, origin) && Confined(P) && Marked(P.marks, s.cip)
    ensures P.Valid()
    ensures var o := Step(P, s, reply); !o.OffCode? && (o.Next? ==> Marked(P.marks, o.s.cip))
  {
    hide Loaded, OpcodeOf, Execute, GoesTo, Settled, Program.Num, OperandCount;
    var p := s.cip / CELL_SIZE;
    AlignedAtStart(P.marks, s.cip);
    StartSettled(P, origin, p);
    StartIsValid(P, origin, p);
    var op := OpcodeOf(P.image[p]);
    assert !IsStray(P, op, s.cip);
    ExecuteFlow(P, op, s, reply);
    var o := Execute(P, op, s, reply);
    StopsAtHalt(P, op, s, reply);
    if o.Next? {
      TargetMarked(P, origin, s, o.s.cip);
    }
  }

  lemma StartIsValid(P: Program, origin: seq<Cell>, p: nat)
    requires Loaded(P, origin) && Marked(P.marks, CELL_SIZE * p)
    ensures p < |P.image| && !HandlerOf(OpcodeOf(P.image[p])).Invalid?
  {
    hide Loaded, OpcodeOf, HandlerOf, SettledOperands;
    StartSettled(P, origin, p);
  }

  lemma StopsAtHalt(P: Program, op: Opcode, s: State, reply: Reply)
    requires P.Valid()
    ensures op.HALT? || op.CASETBL? ==> !Execute(P, op, s, reply).Next?
  {
    hide ExecuteAccess, ExecuteStackOp;
  }

  /** Whole runs: started at an instruction start, a run of an accepted, confined program never fetches
      outside the code, and wherever it has got to after any number of steps is a start again. */
  lemma {:induction false} RunStaysOnStarts(P: Program, origin: seq<Cell>, s: State, replies: seq<Reply>)
    requires Loaded(P, origin) && Confined(P) && Marked(P.marks, s.cip)
    ensures P.Valid()
    ensures var o := Run(P, s, replies); !o.OffCode? && (o.Next? ==> Marked(P.marks, o.s.cip))
    decreases |replies|
  {
    hide Loaded, Confined, Step, Marked;
    LoadedWalk(P, origin);
    if replies != [] {
      StepStaysOnStarts(P, origin, s, replies[0]);
      var o := Step(P, s, replies[0]);
      if o.Next? {
        RunStaysOnStarts(P, origin, o.s, replies[1..]);
      }
    }
  }

  // ---------- Why each condition is needed ----------

  /** The cell behind a start is a start exactly if the instruction has no operands and is not the last one. */
  lemma NextCellIff(P: Program, origin: seq<Cell>, q: nat)
    requires Loaded(P, origin) && Marked(P.marks, CELL_SIZE * q)
    ensures q < P.layout.codeCells <= |origin|
    ensures Marked(P.marks, CELL_SIZE * (q + 1)) <==> q + 1 < P.layout.codeCells && ArgsAt(origin, q) == 0
  {
    hide ArgsAt, Settled, Regular, WalkAccepts, WalkEnd, Sizes;
    StartSettled(P, origin, q);
    NextIsStart(P, origin, q);
    if ArgsAt(origin, q) > 0 {
      NoStartInside(Sizes(P.layout, origin), 0, q, q + 1);
    }
  }

  /** INC.I and DEC.I go on two cells further. That is a start exactly if the instruction they skip has no operands
      and is not the last one. */
  lemma IndirectStepStrays(P: Program, origin: seq<Cell>, s: State, reply: Reply)
    requires Loaded(P, origin) && Marked(P.marks, s.cip) && P.Valid()
    requires 0 <= s.cip / CELL_SIZE < |P.image| && OpcodeOf(P.image[s.cip / CELL_SIZE]).STEP_I?
    requires Step(P, s, reply).Next?
    ensures var p := s.cip / CELL_SIZE; var t := Step(P, s, reply).s;
      && t.cip == s.cip + 2 * CELL_SIZE
      && P.layout.codeCells <= |origin|
      && (Marked(P.marks, t.cip) <==> p + 2 < P.layout.codeCells && ArgsAt(origin, p + 1) == 0)
  {
    hide Loaded, OpcodeOf, ArgsAt, Settled, Execute, Marked;
    var p := s.cip / CELL_SIZE;
    AlignedAtStart(P.marks, s.cip);
    StartSettled(P, origin, p);
    StepsTwoFurther(P, OpcodeOf(P.image[p]), s, reply);
    SecondNextIff(P, origin, p);
  }

  lemma SecondNextIff(P: Program, origin: seq<Cell>, p: nat)
    requires Loaded(P, origin) && Marked(P.marks, CELL_SIZE * p) && p < |P.image| && OpcodeOf(P.image[p]).STEP_I?
    ensures p < P.layout.codeCells <= |origin|
    ensures Marked(P.marks, CELL_SIZE * (p + 2)) <==> p + 2 < P.layout.codeCells && ArgsAt(origin, p + 1) == 0
  {
    hide Loaded, OpcodeOf, ArgsAt, SettledOperands;
    StartSettled(P, origin, p);
    NoOperands(origin, p);
    NextIsStart(P, origin, p);
    if p + 1 < P.layout.codeCells {
      NextCellIff(P, origin, p + 1);
    }
  }

  lemma NoOperands(origin: seq<Cell>, p: nat)
    requires p < |origin| && OpcodeOf(origin[p]).STEP_I?
    ensures ArgsAt(origin, p) == 0
  {
    hide OpcodeOf;
  }

  lemma StepsTwoFurther(P: Program, op: Opcode, s: State, reply: Reply)
    requires P.Valid() && op.STEP_I? && Execute(P, op, s, reply).Next?
    ensures Execute(P, op, s, reply).s.cip == s.cip + 2 * CELL_SIZE
  {
    hide Read, Write, S;
  }

  /** SCTRL 6 and 8 test one cell and go on at the next. That is a start exactly if the instruction at the tested one
      has no operands and is not the last one. */
  lemma ControlJumpStrays(P: Program, origin: seq<Cell>, op: Opcode, s: State, reply: Reply)
    requires Loaded(P, origin) && P.Valid() && op.SCTRL? && P.Num(s.cip, 1) in {6, 8}
    ensures P.layout.codeCells <= |origin|
    ensures Execute(P, op, s, reply).Next? <==> Marked(P.marks, U(s.pri))
    ensures Execute(P, op, s, reply).Next? ==> var q := U(s.pri) / CELL_SIZE; var t := Execute(P, op, s, reply).s;
      && t.cip == U(s.pri) + CELL_SIZE
      && (Marked(P.marks, t.cip) <==> q + 1 < P.layout.codeCells && ArgsAt(origin, q) == 0)
  {
    hide Program.Num, ArgsAt, Accepts, Regular, Verify, Sizes, Marked;
    if Marked(P.marks, U(s.pri)) {
      AlignedAtStart(P.marks, U(s.pri));
      NextCellIff(P, origin, U(s.pri) / CELL_SIZE);
    }
  }

  /** CALL.PRI reaches a start exactly when the bitmap, which it does not look at, has the target marked. */
  lemma CallPriStrays(P: Program, op: Opcode, s: State, reply: Reply)
    requires P.Valid() && op.CALL_PRI? && Execute(P, op, s, reply).Next?
    ensures Execute(P, op, s, reply).s.cip == U(s.pri)
    ensures Marked(P.marks, Execute(P, op, s, reply).s.cip) <==> P.marks[U(s.pri) / CELL_SIZE]
  {
    hide PushValues, S;
  }
}
