/** Memory safety: whatever a verified program does, heap and stack stay in order and every access stays
    inside the data/heap/stack block. */
module MemorySafety {
  import opened Cells
  import opened Opcodes
  import opened Alu
  import opened Verifier
  import opened Machine

  /** Data, heap and stack below `stp`, then the sentinel cell. */
  predicate Ordered(b: Block) {
    0 <= b.hlw <= b.stp < 0x3fff_ffdf
  }

  /** The header's sizes agree with the block that `amx_Init` lays out. */
  predicate Laid(P: Program) {
    && P.Valid() && Ordered(P.block)
    && P.layout.dataSize == P.block.hlw && P.layout.stackSize == P.block.stp + CELL_SIZE - P.block.hlw
  }

  /** The machine's memory invariant. */
  predicate Sound(b: Block, s: State) {
    b.hlw <= s.hea <= s.stk <= b.stp && |s.mem| == b.stp + CELL_SIZE
  }

  ghost predicate KeepsSound(b: Block, o: Outcome) {
    && !o.Fault?
    && (o.Next? ==> Sound(b, o.s))
    && (o.Sleeping? ==> Sound(b, o.s))
  }

  /** A data address the verifier lets pass. */
  predicate InData(P: Program, a: Cell) {
    0 <= a < P.block.hlw
  }

  /** What the verifier has tested about the operands of `op` at `c`. */
  predicate Verified(P: Program, op: Opcode, c: int) {
    match HandlerOf(op)
    case DataOffs(n) => forall k :: 1 <= k <= n ==> InData(P, P.DataArg(c, k))
    case ByteWidth => P.Num(c, 1) in {1, 2, 4}
    case LctrlId => -1 <= P.Num(c, 1) <= 8
    case SctrlId => P.Num(c, 1) in {-1, 2, 4, 5, 6, 8}
    case StackHeap => Magnitude(P.Num(c, 1)) < P.layout.stackSize
    case _ => true
  }

  /** PUSH.R: the pushed size, as the machine computes it, collides with the heap, or it fits: `n` copies are
      written inside the block, and what a negative count frees was in use. */
  predicate RepeatFits(b: Block, s: State, n: Cell) {
    var stk' := S(s.stk - CELL_SIZE * n);
    s.hea > stk' || if n > 0 then CELL_SIZE * n <= s.stk else stk' <= b.stp
  }

  /** MOVS and CMPS: the size is not negative, or the tests on first and last byte stop it. */
  predicate SizeFits(b: Block, s: State, size: Cell) {
    size >= 0 || BadBlock(b, s, s.pri, size) || BadBlock(b, s, s.alt, size)
  }

  /** What must hold of operands the verifier does not test: the address of CONST, the count of PUSH.R and the
      sizes of MOVS and CMPS. */
  predicate OperandFits(P: Program, op: Opcode, s: State) {
    match op
    case CONST => 0 <= P.DataArg(s.cip, 1) <= P.block.stp
    case PUSH_R => RepeatFits(P.block, s, P.Num(s.cip, 1))
    case MOVS | CMPS => SizeFits(P.block, s, P.Num(s.cip, 1))
    case _ => true
  }

  /** The counts of PUSH.R that are safe wherever heap and stack are. Up to 2^29 the pushed size does not wrap
      around; `m` is how far other counts move the stack pointer up. */
  predicate RepeatsSafely(b: Block, n: Cell) {
    var m := S(-CELL_SIZE * n);
    || b.hlw + m >= 0x8000_0000
    || if n > 0 then n <= 0x2000_0000 || b.stp + m < b.hlw else m <= 0
  }

  /** The same, as what a program can be tested for before it runs. */
  predicate Careful(P: Program, op: Opcode, c: int) {
    match op
    case CONST => 0 <= P.DataArg(c, 1) <= P.block.stp
    case PUSH_R => RepeatsSafely(P.block, P.Num(c, 1))
    case MOVS | CMPS => P.Num(c, 1) >= 0 || P.block.stp + P.Num(c, 1) < 2
    case _ => true
  }

  /** The argument size RETN finds behind frame and return address. */
  function ArgumentSize(s: State): Cell {
    var a := s.stk + 2 * CELL_SIZE;
    if Inside(s.mem, a, CELL_SIZE) then Read(s.mem, a) else 0
  }

  /** What must hold when the instruction runs, because its handler does not test it: the argument size RETN
      and SYSREQ.N pop neither drops the stack below the heap nor overflows, a heap top set by SCTRL does not
      overflow the margin sum, and a native that goes on or sleeps has kept the size of the block. */
  predicate Orderly(P: Program, op: Opcode, s: State, reply: Reply) {
    match op
    case RETN =>
      Return(P.block, P.marks, s).Next? ==> s.hea <= s.stk + 3 * CELL_SIZE + ArgumentSize(s) < 0x8000_0000
    case SYSREQ_N | SYSREQ_ND => NativeFits(P.block, s, P.Num(s.cip, 2), reply)
    case SYSREQ_PRI | SYSREQ_C | SYSREQ_D => GoesOn(reply) ==> |reply.mem| == |s.mem|
    case SCTRL => P.Num(s.cip, 1) == 2 ==> s.pri < 0x8000_0000 - STKMARGIN
    case _ => true
  }

  predicate GoesOn(reply: Reply) {
    reply.err in {ERR_NONE, ERR_SLEEP}
  }

  /** SYSREQ.N: its push collides with the heap, or its native stops the run, or both are in order. */
  predicate NativeFits(b: Block, s: State, size: Cell, reply: Reply) {
    || s.hea > s.stk - CELL_SIZE
    || (GoesOn(reply) ==>
          |reply.mem| == |s.mem| && (reply.err == ERR_NONE ==> s.hea <= s.stk + size <= b.stp))
  }

  // ---------- Accesses ----------

  lemma LoadAtSound(b: Block, s: State, r: Reg, a: int, skip: nat)
    requires Ordered(b) && Sound(b, s) && 0 <= a <= b.stp
    ensures LoadAt(s, r, a, skip).Next? && KeepsSound(b, LoadAt(s, r, a, skip))
    ensures LoadAt(s, r, a, skip).s.mem == s.mem
  {
  }

  lemma StoreAtSoundIff(b: Block, s: State, a: int, v: Cell, skip: nat)
    requires Ordered(b) && Sound(b, s)
    ensures KeepsSound(b, StoreAt(s, a, v, skip)) <==> 0 <= a <= b.stp
  {
  }

  lemma AddAtSound(b: Block, s: State, a: int, delta: int, skip: nat)
    requires Ordered(b) && Sound(b, s) && 0 <= a <= b.stp
    ensures KeepsSound(b, AddAt(s, a, delta, skip))
  {
  }

  lemma StackAddrInside(b: Block, s: State, a: Cell)
    requires Ordered(b) && Sound(b, s) && !BadStackAddr(b, s, a)
    ensures 0 <= a < b.stp
  {
  }

  /** The one unsigned comparison also catches negative addresses. */
  lemma DataAddrInside(b: Block, s: State, a: Cell)
    requires Ordered(b) && Sound(b, s) && !BadDataAddr(b, s, a)
    ensures 0 <= a < b.stp
  {
  }

  lemma LoadsSound(b: Block, s: State, r: Reg, a: Cell, skip: nat)
    requires Ordered(b) && Sound(b, s)
    ensures KeepsSound(b, LoadData(b, s, r, a, skip)) && KeepsSound(b, LoadStack(b, s, r, a))
    ensures KeepsSound(b, LoadRefStack(b, s, r, a))
    ensures 0 <= a <= b.stp ==> KeepsSound(b, LoadRef(b, s, r, a))
  {
    hide S, Read;
  }

  lemma StoresSound(b: Block, s: State, r: Reg, a: Cell, v: Cell, skip: nat)
    requires Ordered(b) && Sound(b, s)
    ensures KeepsSound(b, StoreData(b, s, a, v, skip)) && KeepsSound(b, StoreStack(b, s, a, v, skip))
    ensures KeepsSound(b, StoreRefStack(b, s, r, a))
    ensures 0 <= a <= b.stp ==> KeepsSound(b, StoreRef(b, s, r, a))
  {
    hide S, Read, Write;
  }

  lemma AddsSound(b: Block, s: State, a: Cell, delta: int)
    requires Ordered(b) && Sound(b, s)
    ensures KeepsSound(b, AddStack(b, s, a, delta))
    ensures !BadDataAddr(b, s, a) ==> KeepsSound(b, AddAt(s, a, delta, 1))
  {
    hide S, Read, Write;
  }

  lemma BytesSound(b: Block, s: State, n: Cell)
    requires Ordered(b) && Sound(b, s) && n in {1, 2, 4}
    ensures KeepsSound(b, LoadBytes(b, s, n)) && KeepsSound(b, StoreBytes(b, s, n))
  {
  }

  // ---------- Stack and heap ----------

  lemma {:induction false} WriteDownFits(mem: seq<Byte>, top: int, vs: seq<Cell>)
    requires CELL_SIZE * |vs| <= top <= |mem|
    ensures WriteDown(mem, top, vs).0
    decreases |vs|
  {
    if vs != [] {
      WriteDownFits(Write(mem, top - CELL_SIZE, vs[0]), top - CELL_SIZE, vs[1..]);
    }
  }

  lemma {:induction false} CopyDownFits(mem: seq<Byte>, top: int, from: seq<Cell>)
    requires CELL_SIZE * |from| <= top <= |mem|
    requires forall a :: a in from ==> Inside(mem, a, CELL_SIZE)
    ensures CopyDown(mem, top, from).0
    decreases |from|
  {
    hide Read, Write;
    if from != [] {
      assert from[0] in from && forall a :: a in from[1..] ==> a in from;
      CopyDownFits(Write(mem, top - CELL_SIZE, Read(mem, from[0])), top - CELL_SIZE, from[1..]);
    }
  }

  lemma PushValuesSound(b: Block, s: State, vs: seq<Cell>, skip: nat)
    requires Ordered(b) && Sound(b, s) && |vs| < 0x1000_0000
    ensures KeepsSound(b, PushValues(s, vs, skip))
    ensures PushValues(s, vs, skip).Next? ==> PushValues(s, vs, skip).s.stk == s.stk - CELL_SIZE * |vs|
    ensures PushValues(s, vs, skip).Next? ==> PushValues(s, vs, skip).s.hea == s.hea
  {
    if s.hea <= S(s.stk - CELL_SIZE * |vs|) {
      WriteDownFits(s.mem, s.stk, vs);
    }
  }

  lemma PushCopiesSound(b: Block, s: State, from: seq<Cell>, skip: nat)
    requires Ordered(b) && Sound(b, s) && |from| < 0x1000_0000
    requires forall a :: a in from ==> 0 <= a <= b.stp
    ensures KeepsSound(b, PushCopies(s, from, skip))
  {
    hide S, CopyDown;
    InRange(s.stk - CELL_SIZE * |from|);
    if s.hea <= S(s.stk - CELL_SIZE * |from|) {
      CopyDownFits(s.mem, s.stk, from);
    }
  }

  lemma PushStackSound(b: Block, s: State, offs: Cell, more: seq<Cell>)
    requires Ordered(b) && Sound(b, s) && |more| < 0x1000_0000
    ensures KeepsSound(b, PushStackOne(b, s, offs)) && KeepsSound(b, PushStackMany(b, s, more))
  {
    if !BadStackAddr(b, s, S(s.frm + offs)) {
      PushCopiesSound(b, s, [S(s.frm + offs)], 1);
    }
    var stk' := S(s.stk - CELL_SIZE * |more|);
    var addrs := FrameAddrs(s, more);
    if s.hea <= stk' && forall k :: 0 <= k < |more| ==> !BadStackAddr(b, s.(stk := stk'), addrs[k]) {
      PushCopiesSound(b, s, addrs, |more|);
    }
  }

  /** The conditions a write of `n` cells below `top` needs are exact. */
  lemma {:induction false} WriteDownFitsIff(mem: seq<Byte>, top: int, vs: seq<Cell>)
    requires 0 <= top <= |mem|
    ensures WriteDown(mem, top, vs).0 <==> CELL_SIZE * |vs| <= top
    decreases |vs|
  {
    hide Write;
    if vs != [] && top >= CELL_SIZE {
      WriteDownFitsIff(Write(mem, top - CELL_SIZE, vs[0]), top - CELL_SIZE, vs[1..]);
    }
  }

  /** PUSH.R, for every count. */
  lemma PushRepeatedSoundIff(b: Block, s: State, n: Cell)
    requires Ordered(b) && Sound(b, s)
    ensures KeepsSound(b, PushRepeated(s, n)) <==> RepeatFits(b, s, n)
  {
    hide WriteDown;
    if n > 0 {
      WriteDownFitsIff(s.mem, s.stk, seq(n, _ => s.pri));
    }
  }

  lemma PopSound(b: Block, s: State, r: Reg)
    requires Ordered(b) && Sound(b, s)
    ensures KeepsSound(b, Pop(b, s, r)) && KeepsSound(b, Swap(s, r))
  {
    hide S, Read, Write;
    InRange(s.stk + CELL_SIZE);
  }

  lemma MovesSound(b: Block, s: State, n: Cell)
    requires Ordered(b) && Sound(b, s) && Magnitude(n) < b.stp + CELL_SIZE - b.hlw
    ensures KeepsSound(b, MoveStack(b, s, n)) && KeepsSound(b, MoveHeap(b, s, n))
  {
    hide S;
    InRange(s.stk + n);
    InRange(s.hea + n);
    InRange(s.hea + STKMARGIN);
    InRange(s.hea + n + STKMARGIN);
  }

  lemma ReturnSound(b: Block, marks: seq<bool>, s: State)
    requires Ordered(b) && Sound(b, s)
    ensures KeepsSound(b, Return(b, marks, s))
    ensures Return(b, marks, s).Next? ==> Return(b, marks, s).s.stk == s.stk + 2 * CELL_SIZE <= b.stp
    ensures Return(b, marks, s).Next? ==> Return(b, marks, s).s.mem == s.mem && Return(b, marks, s).s.hea == s.hea
  {
    hide S, Read;
    InRange(s.stk + 2 * CELL_SIZE);
  }

  /** RETN, once it returns, keeps the stack above the heap exactly when the argument size it finds, added to the
      stack pointer behind it, neither overflows nor drops below the heap. */
  lemma ReturnArgsSoundIff(b: Block, marks: seq<bool>, s: State)
    requires Ordered(b) && Sound(b, s)
    ensures KeepsSound(b, ReturnArgs(b, marks, s))
       <==> (Return(b, marks, s).Next? ==> s.hea <= s.stk + 3 * CELL_SIZE + ArgumentSize(s) < 0x8000_0000)
  {
    hide S, Read, Return;
    ReturnSound(b, marks, s);
    var stk' := s.stk + 3 * CELL_SIZE + ArgumentSize(s);
    if stk' < 0x8000_0000 {
      InRange(stk');
    } else {
      Overflows(stk');
    }
  }

  /** SYSREQ.N, for every size: its native goes on with the stack moved by the cell the size adds up to. */
  lemma NativeWithArgsSoundIff(b: Block, s: State, size: Cell, reply: Reply)
    requires Ordered(b) && Sound(b, s)
    ensures KeepsSound(b, NativeWithArgs(s, size, reply)) <==> NativeFits(b, s, size, reply)
  {
    hide S, PushValues;
    PushValuesSound(b, s, [size], 0);
    InRange(s.stk - CELL_SIZE);
    PushValuesStops(s, [size], 0);
    CastSum(s.stk - CELL_SIZE, size + CELL_SIZE);
    if s.stk + size < 0x8000_0000 {
      InRange(s.stk + size);
    } else {
      Overflows(s.stk + size);
    }
  }

  lemma PushValuesStops(s: State, vs: seq<Cell>, skip: nat)
    ensures PushValues(s, vs, skip).Stop? <==> s.hea > S(s.stk - CELL_SIZE * |vs|)
    ensures !PushValues(s, vs, skip).Sleeping? && !PushValues(s, vs, skip).OffCode?
  {
    hide S, WriteDown;
  }

  lemma CastSum(x: int, y: int)
    ensures S(x + S(y)) == S(x + y)
  {
    assert S(y) % CELL_RANGE == y % CELL_RANGE;
    assert (x + S(y)) % CELL_RANGE == (x + y) % CELL_RANGE;
  }

  // ---------- Blocks ----------

  lemma {:induction false} FillFits(mem: seq<Byte>, a: int, end: int, v: Cell)
    requires 0 <= a && end + CELL_SIZE <= |mem|
    ensures FillFrom(mem, a, end, v).0
    decreases end - a
  {
    if a < end {
      FillFits(Write(mem, a, v), a + CELL_SIZE, end, v);
    }
  }

  /** First and last byte inside, by wrapped sums, put a block of non-negative size inside. */
  lemma BlockInside(b: Block, s: State, a: Cell, size: Cell)
    requires Ordered(b) && Sound(b, s) && !BadBlock(b, s, a, size)
    ensures 0 <= a < b.stp && (size >= 0 ==> a + size <= b.stp)
  {
    DataAddrInside(b, s, a);
    DataAddrInside(b, s, S(U(a) + U(size) - 1));
  }

  /** FILL is always tested; MOVS and CMPS are, unless the size is negative. */
  lemma BlocksSoundIff(b: Block, s: State, size: Cell)
    requires Ordered(b) && Sound(b, s)
    ensures KeepsSound(b, FillBlock(b, s, size))
    ensures KeepsSound(b, MoveBlock(b, s, size)) <==> SizeFits(b, s, size)
    ensures KeepsSound(b, CompareBlock(b, s, size)) <==> SizeFits(b, s, size)
  {
    if !BadBlock(b, s, s.alt, size) {
      BlockInside(b, s, s.alt, size);
      FillFits(s.mem, s.alt, s.alt + size, s.pri);
    }
    if !BadBlock(b, s, s.pri, size) {
      BlockInside(b, s, s.pri, size);
    }
  }

  // ---------- Steps and runs ----------

  lemma ControlSound(b: Block, marks: seq<bool>, s: State, id: Cell)
    requires Ordered(b) && Sound(b, s)
    ensures -1 <= id <= 8 ==> KeepsSound(b, LoadControl(b, s, id))
    ensures id in {-1, 4, 5, 6, 8} ==> KeepsSound(b, StoreControl(b, marks, s, id))
  {
    hide S;
    InRange(s.hea + STKMARGIN);
  }

  /** SCTRL 2 keeps the heap below the stack exactly when the margin sum does not overflow. */
  lemma HeapControlSoundIff(b: Block, marks: seq<bool>, s: State)
    requires Ordered(b) && Sound(b, s)
    ensures KeepsSound(b, StoreControl(b, marks, s, 2)) <==> s.pri < 0x8000_0000 - STKMARGIN
  {
    hide S;
    if s.pri < 0x8000_0000 - STKMARGIN {
      InRange(s.pri + STKMARGIN);
    } else {
      Overflows(s.pri + STKMARGIN);
    }
  }

  lemma NativeSoundIff(b: Block, s: State, reply: Reply, skip: nat)
    requires Ordered(b) && Sound(b, s)
    ensures KeepsSound(b, AfterNative(s, reply, 0, skip)) <==> (GoesOn(reply) ==> |reply.mem| == |s.mem|)
  {
    hide S;
    InRange(s.stk);
  }

  lemma ControlFlowSound(b: Block, s: State, target: int, n: nat)
    requires Ordered(b) && Sound(b, s)
    ensures KeepsSound(b, Call(s, target, n)) && KeepsSound(b, EnterProcedure(s))
  {
    hide PushValues, S;
    PushValuesSound(b, s, [S(s.Skip(n).cip)], n);
    PushValuesSound(b, s, [s.frm], 0);
  }

  lemma BothSound(b: Block, s: State, a: Cell, a': Cell)
    requires Ordered(b) && Sound(b, s)
    ensures 0 <= a <= b.stp && 0 <= a' <= b.stp ==> KeepsSound(b, LoadBoth(s, a, a'))
    ensures KeepsSound(b, LoadBothStack(b, s, a, a'))
  {
    hide Read, S;
  }

  lemma StopSound(b: Block)
    ensures forall err :: KeepsSound(b, Stop(err))
  {
  }

  predicate IsPush(op: Opcode) {
    op.PUSH_C? || op.PUSH? || op.PUSH_S? || op.PUSH_ADR?
  }

  lemma LoadSound(P: Program, op: Opcode, s: State)
    requires Laid(P) && Sound(P.block, s) && IsAccess(op) && Loads(op) && Verified(P, op, s.cip)
    ensures KeepsSound(P.block, ExecuteAccess(P, op, s))
  {
    hide Sound, KeepsSound, Program.Num, Program.DataArg, S, Read, Write, ShiftLeft, State.Get;
    hide LoadAt, LoadStack, LoadRef, LoadRefStack, LoadData, LoadBytes, LoadBoth, LoadBothStack;
    hide StoreAt, StoreStack, StoreRef, StoreRefStack, StoreData, StoreBytes, AddAt, AddStack, BadDataAddr;
    StopSound(P.block);
    var c := s.cip;
    match op
    case LOAD(r) => LoadAtSound(P.block, s, r, P.DataArg(c, 1), 1);
    case LOAD_S(r) => LoadsSound(P.block, s, r, P.Num(c, 1), 1);
    case LREF(r) => LoadsSound(P.block, s, r, P.DataArg(c, 1), 1);
    case LREF_S(r) => LoadsSound(P.block, s, r, P.Num(c, 1), 1);
    case LOAD_I => LoadsSound(P.block, s, PRI, s.pri, 0);
    case LODB_I => BytesSound(P.block, s, P.Num(c, 1));
    case LIDX => LoadsSound(P.block, s, PRI, S(s.pri * CELL_SIZE + s.alt), 0);
    case LIDX_B => LoadsSound(P.block, s, PRI, S(ShiftLeft(s.pri, P.Num(c, 1)) + s.alt), 1);
    case LOAD_BOTH => BothSound(P.block, s, P.DataArg(c, 1), P.DataArg(c, 2));
    case LOAD_S_BOTH => BothSound(P.block, s, P.Num(c, 1), P.Num(c, 2));
  }

  lemma StoreSoundIff(P: Program, op: Opcode, s: State)
    requires Laid(P) && Sound(P.block, s) && IsAccess(op) && !Loads(op) && Verified(P, op, s.cip)
    ensures KeepsSound(P.block, ExecuteAccess(P, op, s)) <==> OperandFits(P, op, s)
  {
    hide Sound, KeepsSound, Program.Num, Program.DataArg, S, Read, Write, ShiftLeft, State.Get;
    hide LoadAt, LoadStack, LoadRef, LoadRefStack, LoadData, LoadBytes, LoadBoth, LoadBothStack;
    hide StoreAt, StoreStack, StoreRef, StoreRefStack, StoreData, StoreBytes, AddAt, AddStack, BadDataAddr;
    StopSound(P.block);
    var c := s.cip;
    match op
    case STOR(r) => StoreAtSoundIff(P.block, s, P.DataArg(c, 1), s.Get(r), 1);
    case STOR_S(r) => StoresSound(P.block, s, r, P.Num(c, 1), s.Get(r), 1);
    case SREF(r) => StoresSound(P.block, s, r, P.DataArg(c, 1), 0, 1);
    case SREF_S(r) => StoresSound(P.block, s, r, P.Num(c, 1), 0, 1);
    case STOR_I => StoresSound(P.block, s, PRI, s.alt, s.pri, 0);
    case STRB_I => BytesSound(P.block, s, P.Num(c, 1));
    case ZERO => StoreAtSoundIff(P.block, s, P.DataArg(c, 1), 0, 1);
    case ZERO_S => StoresSound(P.block, s, PRI, P.Num(c, 1), 0, 1);
    case STEP(delta) => AddAtSound(P.block, s, P.DataArg(c, 1), delta, 1);
    case STEP_S(delta) => AddsSound(P.block, s, P.Num(c, 1), delta);
    case STEP_I(delta) => AddsSound(P.block, s, s.pri, delta);
    case CONST => StoreAtSoundIff(P.block, s, P.DataArg(c, 1), P.Num(c, 2), 2);
    case CONST_S => StoresSound(P.block, s, PRI, P.Num(c, 1), P.Num(c, 2), 2);
  }

  lemma StackOpSoundIff(P: Program, op: Opcode, s: State, reply: Reply)
    requires Laid(P) && Sound(P.block, s) && IsStackOp(op) && Verified(P, op, s.cip)
    requires IsPush(op) ==> op.n <= 5
    ensures KeepsSound(P.block, ExecuteStackOp(P, op, s)) <==> OperandFits(P, op, s) && Orderly(P, op, s, reply)
  {
    hide Sound, KeepsSound, Program.Num, Program.DataArg, Program.CodeArg, S, Read, Write, RepeatFits, ArgumentSize;
    hide PushValues, PushCopies, PushStackOne, PushStackMany, PushRepeated, Pop, Swap, MoveStack, MoveHeap;
    hide EnterProcedure, Return, ReturnArgs, Call;
    StopSound(P.block);
    var c := s.cip;
    match op
    case PUSH_REG(r) => PushValuesSound(P.block, s, [s.Get(r)], 0);
    case PUSH_R => PushRepeatedSoundIff(P.block, s, P.Num(c, 1));
    case PUSH_C(n) => PushValuesSound(P.block, s, P.Nums(c, n), n);
    case PUSH(n) =>
      forall a | a in P.DataArgs(c, n)
        ensures 0 <= a <= P.block.stp
      {
        var k :| 0 <= k < n && P.DataArgs(c, n)[k] == a;
        assert InData(P, P.DataArg(c, k + 1));
      }
      PushCopiesSound(P.block, s, P.DataArgs(c, n), n);
    case PUSH_S(n) => PushStackSound(P.block, s, P.Num(c, 1), P.Nums(c, n));
    case PUSH_ADR(n) => PushValuesSound(P.block, s, FrameAddrs(s, P.Nums(c, n)), n);
    case POP(r) => PopSound(P.block, s, r);
    case STACK => MovesSound(P.block, s, P.Num(c, 1));
    case HEAP => MovesSound(P.block, s, P.Num(c, 1));
    case PROC => ControlFlowSound(P.block, s, 0, 0);
    case RET => ReturnSound(P.block, P.marks, s);
    case RETN => ReturnArgsSoundIff(P.block, P.marks, s);
    case CALL => ControlFlowSound(P.block, s, P.CodeArg(c, 1), 1);
    case CALL_PRI => ControlFlowSound(P.block, s, U(s.pri), 0);
    case SWAP(r) => PopSound(P.block, s, r);
  }

  predicate IsControlOp(op: Opcode) {
    op.LCTRL? || op.SCTRL?
  }

  predicate IsBlockOp(op: Opcode) {
    op.MOVS? || op.CMPS? || op.FILL?
  }

  lemma ControlOpSoundIff(P: Program, op: Opcode, s: State, reply: Reply)
    requires Laid(P) && Sound(P.block, s) && IsControlOp(op) && Verified(P, op, s.cip)
    ensures KeepsSound(P.block, ExecuteOther(P, op, s, reply)) <==> OperandFits(P, op, s) && Orderly(P, op, s, reply)
  {
    hide S, Program.Num, LoadControl, StoreControl, Sound, KeepsSound;
    ControlSound(P.block, P.marks, s, P.Num(s.cip, 1));
    HeapControlSoundIff(P.block, P.marks, s);
  }

  lemma BlockOpSoundIff(P: Program, op: Opcode, s: State, reply: Reply)
    requires Laid(P) && Sound(P.block, s) && IsBlockOp(op)
    ensures KeepsSound(P.block, ExecuteOther(P, op, s, reply)) <==> OperandFits(P, op, s) && Orderly(P, op, s, reply)
  {
    hide S, Program.Num, MoveBlock, CompareBlock, FillBlock, SizeFits, Sound, KeepsSound;
    BlocksSoundIff(P.block, s, P.Num(s.cip, 1));
  }

  lemma NativeCallSoundIff(P: Program, op: Opcode, s: State, reply: Reply)
    requires Laid(P) && Sound(P.block, s) && CallsNative(op)
    ensures KeepsSound(P.block, ExecuteOther(P, op, s, reply)) <==> OperandFits(P, op, s) && Orderly(P, op, s, reply)
  {
    hide S, Program.Num, NativeWithArgs, AfterNative, NativeFits, GoesOn, Sound, KeepsSound;
    if op.SYSREQ_N? || op.SYSREQ_ND? {
      NativeWithArgsSoundIff(P.block, s, P.Num(s.cip, 2), reply);
    } else if op.SYSREQ_PRI? {
      NativeSoundIff(P.block, s, reply, 0);
    } else {
      NativeSoundIff(P.block, s, reply, 1);
    }
  }

  lemma RegisterOpSound(P: Program, op: Opcode, s: State, reply: Reply)
    requires Laid(P) && Sound(P.block, s) && !IsAccess(op) && !IsStackOp(op)
    requires !IsControlOp(op) && !IsBlockOp(op) && !CallsNative(op)
    ensures KeepsSound(P.block, ExecuteOther(P, op, s, reply))
    ensures OperandFits(P, op, s) && Orderly(P, op, s, reply)
  {
    hide S, Apply, ApplyConst, Holds, SwitchTarget, Program.Num, Program.CodeArg;
  }

  lemma OtherSoundIff(P: Program, op: Opcode, s: State, reply: Reply)
    requires Laid(P) && Sound(P.block, s) && !IsAccess(op) && !IsStackOp(op) && Verified(P, op, s.cip)
    ensures KeepsSound(P.block, ExecuteOther(P, op, s, reply)) <==> OperandFits(P, op, s) && Orderly(P, op, s, reply)
  {
    hide ExecuteOther, OperandFits, Orderly, IsControlOp, IsBlockOp, CallsNative, IsAccess, IsStackOp, KeepsSound;
    if IsControlOp(op) {
      ControlOpSoundIff(P, op, s, reply);
    } else if IsBlockOp(op) {
      BlockOpSoundIff(P, op, s, reply);
    } else if CallsNative(op) {
      NativeCallSoundIff(P, op, s, reply);
    } else {
      RegisterOpSound(P, op, s, reply);
    }
  }

  /** One executed instruction keeps the invariant and touches no byte outside the block, exactly if what is
      tested neither by the verifier nor by the instruction is in order. */
  lemma ExecuteSoundIff(P: Program, op: Opcode, s: State, reply: Reply)
    requires Laid(P) && Sound(P.block, s) && Verified(P, op, s.cip)
    requires IsPush(op) ==> op.n <= 5
    ensures KeepsSound(P.block, Execute(P, op, s, reply)) <==> OperandFits(P, op, s) && Orderly(P, op, s, reply)
  {
    hide ExecuteAccess, ExecuteStackOp, ExecuteOther, IsStackOp, Sound, KeepsSound, Verified;
    if IsAccess(op) {
      if Loads(op) {
        LoadSound(P, op, s);
      } else {
        StoreSoundIff(P, op, s);
      }
    } else if IsStackOp(op) {
      StackOpSoundIff(P, op, s, reply);
    } else {
      OtherSoundIff(P, op, s, reply);
    }
  }

  // ---------- What a program can be tested for ----------

  function ZeroMemory(b: Block): seq<Byte>
    requires Ordered(b)
  {
    seq(b.stp + CELL_SIZE, _ => 0)
  }

  /** Counts that are safe in every state. */
  lemma RepeatsSafelyIff(b: Block, c: int, n: Cell)
    requires Ordered(b)
    ensures RepeatsSafely(b, n) <==> forall s: State :: s.cip == c && Sound(b, s) ==> RepeatFits(b, s, n)
  {
    forall s: State | Sound(b, s) && RepeatsSafely(b, n)
      ensures RepeatFits(b, s, n)
    {
      RepeatSafe(b, s, n);
    }
    if !RepeatsSafely(b, n) {
      var low, high := State(0, 0, 0, b.hlw, b.hlw, c, ZeroMemory(b)), State(0, 0, 0, b.stp, b.hlw, c, ZeroMemory(b));
      RepeatUnsafe(b, low, high, n);
    }
  }

  lemma Moved(x: Cell, n: Cell)
    ensures S(x - CELL_SIZE * n) == S(x + S(-CELL_SIZE * n))
  {
    CastSum(x, -CELL_SIZE * n);
  }

  lemma RepeatSafe(b: Block, s: State, n: Cell)
    requires Ordered(b) && Sound(b, s) && RepeatsSafely(b, n)
    ensures RepeatFits(b, s, n)
  {
    hide S;
    Moved(s.stk, n);
    var m := S(-CELL_SIZE * n);
    if s.stk + m < 0x8000_0000 {
      InRange(s.stk + m);
    } else {
      Overflows(s.stk + m);
    }
    if 0 < n <= 0x2000_0000 {
      InRange(-CELL_SIZE * n);
    }
  }

  lemma RepeatUnsafe(b: Block, low: State, high: State, n: Cell)
    requires Ordered(b) && Sound(b, low) && Sound(b, high) && !RepeatsSafely(b, n)
    requires low.hea == low.stk == b.hlw == high.hea && high.stk == b.stp
    ensures !RepeatFits(b, low, n) || !RepeatFits(b, high, n)
  {
    hide S;
    Moved(b.hlw, n);
    Moved(b.stp, n);
    var m := S(-CELL_SIZE * n);
    InRange(b.hlw + m);
    if b.stp + m < 0x8000_0000 {
      InRange(b.stp + m);
    } else {
      Overflows(b.stp + m);
    }
  }

  /** Negative sizes pass the tests somewhere, unless the block is too small for them. */
  lemma SizesSafelyIff(b: Block, c: int, size: Cell)
    requires Ordered(b)
    ensures (size >= 0 || b.stp + size < 2) <==> forall s: State :: s.cip == c && Sound(b, s) ==> SizeFits(b, s, size)
  {
    if size < 0 && b.stp + size >= 2 {
      var a := b.stp - 1;
      var s := State(a, a, 0, b.hlw, b.hlw, c, ZeroMemory(b));
      assert Sound(b, s) && !SizeFits(b, s, size);
    } else if size < 0 {
      forall s: State | Sound(b, s)
        ensures SizeFits(b, s, size)
      {
        NegativeStopped(b, s, size);
      }
    }
  }

  lemma NegativeStopped(b: Block, s: State, size: Cell)
    requires Ordered(b) && Sound(b, s) && size < 0 && b.stp + size < 2
    ensures BadBlock(b, s, s.pri, size)
  {
  }

  /** What a program is tested for is what its operands need, no more and no less: they fit in every state. */
  lemma CarefulIff(P: Program, op: Opcode, c: int)
    requires Laid(P)
    ensures Careful(P, op, c) <==> forall s: State :: s.cip == c && Sound(P.block, s) ==> OperandFits(P, op, s)
  {
    hide RepeatFits, RepeatsSafely, SizeFits;
    var b := P.block;
    var low := State(0, 0, 0, b.hlw, b.hlw, c, ZeroMemory(b));
    assert Sound(b, low);
    if op.PUSH_R? {
      RepeatsSafelyIff(b, c, P.Num(c, 1));
    } else if op.MOVS? || op.CMPS? {
      SizesSafelyIff(b, c, P.Num(c, 1));
    }
  }

  /** The bound on the block is exact, for a program without data: from there on, HEAP with an operand that the verifier
      lets pass can move the heap above the stack, as the margin sum overflows. */
  lemma OrderedIff(b: Block)
    requires b.hlw == 0 <= b.stp
    ensures Ordered(b) <==> forall s: State, n: Cell ::
      Sound(b, s) && Magnitude(n) < b.stp + CELL_SIZE ==> KeepsSound(b, MoveHeap(b, s, n))
  {
    hide S;
    if Ordered(b) {
      forall s: State, n: Cell | Sound(b, s) && Magnitude(n) < b.stp + CELL_SIZE
        ensures KeepsSound(b, MoveHeap(b, s, n))
      {
        MovesSound(b, s, n);
      }
    } else {
      var top := 0x3fff_ffdf;
      var s := State(0, 0, 0, top, top, 0, seq(b.stp + CELL_SIZE, _ => 0));
      var n: Cell := 0x7fff_ffc0 - top;
      assert Sound(b, s);
      InRange(top + n);
      Overflows(top + n + STKMARGIN);
      assert !KeepsSound(b, MoveHeap(b, s, n));
    }
  }

  // ---------- Instructions that the verifier accepts and that leave the block ----------

  /** 2^30 cells wrap around to a size of zero: the test passes, and the loop writes below the block. */
  lemma RepeatWrapsAround(b: Block, s: State)
    requires Ordered(b) && Sound(b, s)
    ensures PushRepeated(s, 0x4000_0000).Fault?
  {
    hide WriteDown;
    WriteDownFitsIff(s.mem, s.stk, seq(0x4000_0000, _ => s.pri));
  }

  /** A size of minus one cell passes both tests, and reaches `memcpy` and `memcmp` as a huge one. */
  lemma NegativeSizePasses(s: State)
    requires s.pri == s.alt == 500 && s.hea == 600 && s.stk == 900
    ensures var b := Block(0, 1000, 0, 0); MoveBlock(b, s, -4).Fault? && CompareBlock(b, s, -4).Fault?
  {
  }
}
