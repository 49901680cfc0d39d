/** The bytecode interpreter as a step function over its registers and the data/heap/stack block.
    The fall-through distances are those of the handlers, written independently of the verifier's size table. */
module Machine {
  import opened Cells
  import opened Opcodes
  import opened Alu
  import opened Verifier

  const STKMARGIN := 16 * CELL_SIZE

  const ERR_NONE := 0
  const ERR_STACKERR := 3
  const ERR_BOUNDS := 4
  const ERR_MEMACCESS := 5
  const ERR_INVINSTR := 6
  const ERR_STACKLOW := 7
  const ERR_HEAPLOW := 8
  const ERR_DIVIDE := 11
  const ERR_SLEEP := 12

  /** The bounds of heap and stack, and the section offsets LCTRL reports. */
  datatype Block = Block(hlw: Cell, stp: Cell, cod: Cell, dat: Cell)

  /** What a run does not change: the relocated image with the bases its addresses refer to, the bitmap and
      the bounds of the block. */
  datatype Program = Program(layout: Layout, image: seq<Cell>, marks: seq<bool>, block: Block)
  {
    predicate Valid() {
      |marks| == layout.codeCells
    }

    /** Operand `k` of the instruction at byte offset `cip`, as a number. */
    function Num(cip: int, k: nat): Cell {
      var at := cip / CELL_SIZE + k;
      if 0 <= at < |image| then image[at] else 0
    }

    /** Operand `k` as the code address it points at, relative to the code section. */
    function CodeArg(cip: int, k: nat): nat {
      U(S(Num(cip, k) - layout.codeBase))
    }

    /** Operand `k` as the data address it points at, relative to the data section. */
    function DataArg(cip: int, k: nat): Cell {
      S(Num(cip, k) - layout.dataBase)
    }

    function Nums(cip: int, n: nat): (r: seq<Cell>)
      ensures |r| == n
    {
      seq(n, k requires 0 <= k < n => Num(cip, k + 1))
    }

    function DataArgs(cip: int, n: nat): (r: seq<Cell>)
      ensures |r| == n
    {
      seq(n, k requires 0 <= k < n => DataArg(cip, k + 1))
    }
  }

  /** The run-time test of a code offset against range, alignment and bitmap. */
  predicate Marked(marks: seq<bool>, offs: int) {
    0 <= offs < CELL_SIZE * |marks| && offs % CELL_SIZE == 0 && marks[offs / CELL_SIZE]
  }

  datatype State = State(pri: Cell, alt: Cell, frm: Cell, stk: Cell, hea: Cell, cip: int, mem: seq<Byte>)
  {
    function Get(r: Reg): Cell {
      if r.PRI? then pri else alt
    }

    function Set(r: Reg, v: Cell): State {
      if r.PRI? then this.(pri := v) else this.(alt := v)
    }

    /** Go on behind the opcode and `n` operands. */
    function Skip(n: nat): State {
      this.(cip := cip + CELL_SIZE * (1 + n))
    }
  }

  /** `Fault` is an access outside the data/heap/stack block, or a place the source marks unreachable;
      `OffCode` a fetch outside the code section. */
  datatype Outcome = Next(s: State) | Stop(err: int) | Sleeping(s: State) | Fault | OffCode

  /** What a native function did: its error code, its result, and the memory as it left it. */
  datatype Reply = Reply(err: int, result: Cell, mem: seq<Byte>)

  // ---------- Address tests ----------

  predicate BadStackAddr(b: Block, s: State, a: Cell) {
    a >= b.stp || a < s.stk
  }

  predicate BadDataAddr(b: Block, s: State, a: Cell) {
    (a >= s.hea && a < s.stk) || U(a) >= U(b.stp)
  }

  /** CHKMARGIN fails; the sum is a cell. */
  predicate MarginExceeded(hea: Cell, stk: Cell) {
    S(hea + STKMARGIN) > stk
  }

  // ---------- Loads and stores ----------

  function LoadAt(s: State, r: Reg, a: int, skip: nat): Outcome {
    if !Inside(s.mem, a, CELL_SIZE) then Fault else Next(s.Set(r, Read(s.mem, a)).Skip(skip))
  }

  function StoreAt(s: State, a: int, v: Cell, skip: nat): Outcome {
    if !Inside(s.mem, a, CELL_SIZE) then Fault else Next(s.(mem := Write(s.mem, a, v)).Skip(skip))
  }

  function AddAt(s: State, a: int, delta: int, skip: nat): Outcome {
    if !Inside(s.mem, a, CELL_SIZE) then Fault else StoreAt(s, a, S(Read(s.mem, a) + delta), skip)
  }

  function LoadStack(b: Block, s: State, r: Reg, offs: Cell): Outcome {
    var a := S(s.frm + offs);
    if BadStackAddr(b, s, a) then Stop(ERR_MEMACCESS) else LoadAt(s, r, a, 1)
  }

  function StoreStack(b: Block, s: State, offs: Cell, v: Cell, skip: nat): Outcome {
    var a := S(s.frm + offs);
    if BadStackAddr(b, s, a) then Stop(ERR_MEMACCESS) else StoreAt(s, a, v, skip)
  }

  function AddStack(b: Block, s: State, offs: Cell, delta: int): Outcome {
    var a := S(s.frm + offs);
    if BadStackAddr(b, s, a) then Stop(ERR_MEMACCESS) else AddAt(s, a, delta, 1)
  }

  function LoadData(b: Block, s: State, r: Reg, a: Cell, skip: nat): Outcome {
    if BadDataAddr(b, s, a) then Stop(ERR_MEMACCESS) else LoadAt(s, r, a, skip)
  }

  function StoreData(b: Block, s: State, a: Cell, v: Cell, skip: nat): Outcome {
    if BadDataAddr(b, s, a) then Stop(ERR_MEMACCESS) else StoreAt(s, a, v, skip)
  }

  function LoadBoth(s: State, a: int, b: int): Outcome {
    if !Inside(s.mem, a, CELL_SIZE) || !Inside(s.mem, b, CELL_SIZE) then Fault
    else Next(s.(pri := Read(s.mem, a), alt := Read(s.mem, b)).Skip(2))
  }

  function LoadBothStack(b: Block, s: State, offs: Cell, offs': Cell): Outcome {
    var a, a' := S(s.frm + offs), S(s.frm + offs');
    if BadStackAddr(b, s, a) || BadStackAddr(b, s, a') then Stop(ERR_MEMACCESS) else LoadBoth(s, a, a')
  }

  /** LREF: load through the address kept at `at`. */
  function LoadRef(b: Block, s: State, r: Reg, at: int): Outcome {
    if !Inside(s.mem, at, CELL_SIZE) then Fault else LoadData(b, s, r, Read(s.mem, at), 1)
  }

  function StoreRef(b: Block, s: State, r: Reg, at: int): Outcome {
    if !Inside(s.mem, at, CELL_SIZE) then Fault else StoreData(b, s, Read(s.mem, at), s.Get(r), 1)
  }

  function LoadRefStack(b: Block, s: State, r: Reg, offs: Cell): Outcome {
    var a := S(s.frm + offs);
    if BadStackAddr(b, s, a) then Stop(ERR_MEMACCESS) else LoadRef(b, s, r, a)
  }

  function StoreRefStack(b: Block, s: State, r: Reg, offs: Cell): Outcome {
    var a := S(s.frm + offs);
    if BadStackAddr(b, s, a) then Stop(ERR_MEMACCESS) else StoreRef(b, s, r, a)
  }

  /** The unsigned number in the `n` bytes at `a`. */
  function ReadBytes(mem: seq<Byte>, a: nat, n: nat): int
    requires a + n <= |mem|
    decreases n
  {
    if n == 0 then 0 else mem[a] + 0x100 * ReadBytes(mem, a + 1, n - 1)
  }

  function LoadBytes(b: Block, s: State, n: Cell): Outcome {
    if BadDataAddr(b, s, s.pri) then Stop(ERR_MEMACCESS)
    else if n !in {1, 2, 4} || !Inside(s.mem, s.pri, n) then Fault
    else Next(s.(pri := S(ReadBytes(s.mem, s.pri, n))).Skip(1))
  }

  function StoreBytes(b: Block, s: State, n: Cell): Outcome {
    if BadDataAddr(b, s, s.alt) then Stop(ERR_MEMACCESS)
    else if n !in {1, 2, 4} || !Inside(s.mem, s.alt, n) then Fault
    else Next(s.(mem := Patch(s.mem, s.alt, BytesOf(s.pri, n))).Skip(1))
  }

  // ---------- Stack ----------

  /** Writes `vs` downwards from just below `top`; fails outside the block. */
  function WriteDown(mem: seq<Byte>, top: int, vs: seq<Cell>): (r: (bool, seq<Byte>))
    ensures |r.1| == |mem|
    decreases |vs|
  {
    if vs == [] then (true, mem)
    else if !Inside(mem, top - CELL_SIZE, CELL_SIZE) then (false, mem)
    else WriteDown(Write(mem, top - CELL_SIZE, vs[0]), top - CELL_SIZE, vs[1..])
  }

  /** The same with the values found at the addresses `from`, each read just before it is written. */
  function CopyDown(mem: seq<Byte>, top: int, from: seq<Cell>): (r: (bool, seq<Byte>))
    ensures |r.1| == |mem|
    decreases |from|
  {
    if from == [] then (true, mem)
    else if !Inside(mem, from[0], CELL_SIZE) || !Inside(mem, top - CELL_SIZE, CELL_SIZE) then (false, mem)
    else CopyDown(Write(mem, top - CELL_SIZE, Read(mem, from[0])), top - CELL_SIZE, from[1..])
  }

  function PushValues(s: State, vs: seq<Cell>, skip: nat): Outcome {
    var stk' := S(s.stk - CELL_SIZE * |vs|);
    if s.hea > stk' then Stop(ERR_STACKERR)
    else
      var (ok, mem') := WriteDown(s.mem, s.stk, vs);
      if ok then Next(s.(stk := stk', mem := mem').Skip(skip)) else Fault
  }

  function PushCopies(s: State, from: seq<Cell>, skip: nat): Outcome {
    var stk' := S(s.stk - CELL_SIZE * |from|);
    if s.hea > stk' then Stop(ERR_STACKERR)
    else
      var (ok, mem') := CopyDown(s.mem, s.stk, from);
      if ok then Next(s.(stk := stk', mem := mem').Skip(skip)) else Fault
  }

  /** The frame addresses for offsets `offs`. */
  function FrameAddrs(s: State, offs: seq<Cell>): (r: seq<Cell>)
    ensures |r| == |offs|
  {
    seq(|offs|, k requires 0 <= k < |offs| => S(s.frm + offs[k]))
  }

  /** PUSH.S tests its address before the stack moves ... */
  function PushStackOne(b: Block, s: State, offs: Cell): Outcome {
    if BadStackAddr(b, s, S(s.frm + offs)) then Stop(ERR_MEMACCESS) else PushCopies(s, [S(s.frm + offs)], 1)
  }

  /** ... PUSH2.S to PUSH5.S after it. */
  function PushStackMany(b: Block, s: State, offs: seq<Cell>): Outcome {
    var stk' := S(s.stk - CELL_SIZE * |offs|);
    if s.hea > stk' then Stop(ERR_STACKERR)
    else if exists k :: 0 <= k < |offs| && BadStackAddr(b, s.(stk := stk'), FrameAddrs(s, offs)[k]) then Stop(ERR_MEMACCESS)
    else PushCopies(s, FrameAddrs(s, offs), |offs|)
  }

  /** PUSH.R: `n` copies of PRI; the count is not checked, a negative one frees stack. */
  function PushRepeated(s: State, n: Cell): Outcome {
    var stk' := S(s.stk - CELL_SIZE * n);
    if s.hea > stk' then Stop(ERR_STACKERR)
    else if n <= 0 then Next(s.(stk := stk').Skip(1))
    else
      var (ok, mem') := WriteDown(s.mem, s.stk, seq(n, _ => s.pri));
      if ok then Next(s.(stk := stk', mem := mem').Skip(1)) else Fault
  }

  function Pop(b: Block, s: State, r: Reg): Outcome {
    if !Inside(s.mem, s.stk, CELL_SIZE) then Fault
    else if S(s.stk + CELL_SIZE) > b.stp then Stop(ERR_STACKLOW)
    else Next(s.Set(r, Read(s.mem, s.stk)).(stk := S(s.stk + CELL_SIZE)).Skip(0))
  }

  function MoveStack(b: Block, s: State, n: Cell): Outcome {
    var stk' := S(s.stk + n);
    if MarginExceeded(s.hea, stk') then Stop(ERR_STACKERR)
    else if stk' > b.stp then Stop(ERR_STACKLOW)
    else Next(s.(alt := s.stk, stk := stk').Skip(1))
  }

  function MoveHeap(b: Block, s: State, n: Cell): Outcome {
    var hea' := S(s.hea + n);
    if MarginExceeded(hea', s.stk) then Stop(ERR_STACKERR)
    else if hea' < b.hlw then Stop(ERR_HEAPLOW)
    else Next(s.(alt := s.hea, hea := hea').Skip(1))
  }

  function EnterProcedure(s: State): Outcome {
    match PushValues(s, [s.frm], 0)
    case Next(s') => Next(s'.(frm := s'.stk))
    case o => o
  }

  /** RET: pops the frame and a return address that must be marked. */
  function Return(b: Block, marks: seq<bool>, s: State): Outcome
  {
    var stk' := S(s.stk + 2 * CELL_SIZE);
    if stk' > b.stp then Stop(ERR_STACKLOW)
    else if !Inside(s.mem, s.stk, 2 * CELL_SIZE) then Fault
    else
      var offs := U(Read(s.mem, s.stk + CELL_SIZE));
      if !Marked(marks, offs) then Stop(ERR_MEMACCESS)
      else Next(s.(stk := stk', frm := Read(s.mem, s.stk), cip := offs))
  }

  /** RETN: also removes the arguments, whose size in bytes lies on top. */
  function ReturnArgs(b: Block, marks: seq<bool>, s: State): Outcome
  {
    match Return(b, marks, s)
    case Next(s') =>
      if !Inside(s'.mem, s'.stk, CELL_SIZE) then Fault
      else
        var stk' := S(s'.stk + Read(s'.mem, s'.stk) + CELL_SIZE);
        if stk' > b.stp then Stop(ERR_STACKLOW) else Next(s'.(stk := stk'))
    case o => o
  }

  /** Pushes the address `n` operands behind the opcode, then jumps. */
  function Call(s: State, target: int, n: nat): Outcome {
    match PushValues(s, [S(s.Skip(n).cip)], n)
    case Next(s') => Next(s'.(cip := target))
    case o => o
  }

  function Swap(s: State, r: Reg): Outcome {
    if !Inside(s.mem, s.stk, CELL_SIZE) then Fault
    else Next(s.(mem := Write(s.mem, s.stk, s.Get(r))).Set(r, Read(s.mem, s.stk)).Skip(0))
  }

  // ---------- Blocks ----------

  /** The tests MOVS, CMPS and FILL make on the first and last byte at `a`, in their own terms. */
  predicate BadBlock(b: Block, s: State, a: Cell, size: Cell) {
    || BadDataAddr(b, s, a) || BadDataAddr(b, s, S(U(a) + U(size) - 1))
    || (a <= s.hea <= size) || (a <= s.stk <= size)
  }

  function MoveBlock(b: Block, s: State, size: Cell): Outcome {
    if BadBlock(b, s, s.pri, size) || BadBlock(b, s, s.alt, size) then Stop(ERR_MEMACCESS)
    else if size < 0 || !Inside(s.mem, s.pri, size) || !Inside(s.mem, s.alt, size) then Fault
    else Next(s.(mem := Patch(s.mem, s.alt, s.mem[s.pri..s.pri + size])).Skip(1))
  }

  /** The sign of the first difference, as `memcmp` reports it. */
  function CompareBytes(a: seq<Byte>, b: seq<Byte>): Cell
    requires |a| == |b|
  {
    if a == [] then 0
    else if a[0] < b[0] then -1
    else if a[0] > b[0] then 1
    else CompareBytes(a[1..], b[1..])
  }

  function CompareBlock(b: Block, s: State, size: Cell): Outcome {
    if BadBlock(b, s, s.pri, size) || BadBlock(b, s, s.alt, size) then Stop(ERR_MEMACCESS)
    else if size < 0 || !Inside(s.mem, s.pri, size) || !Inside(s.mem, s.alt, size) then Fault
    else Next(s.(pri := CompareBytes(s.mem[s.alt..s.alt + size], s.mem[s.pri..s.pri + size])).Skip(1))
  }

  /** Writes whole cells at `a`, `a+4`, ... while they start below `end`. */
  function FillFrom(mem: seq<Byte>, a: int, end: int, v: Cell): (r: (bool, seq<Byte>))
    ensures |r.1| == |mem|
    decreases end - a
  {
    if a >= end then (true, mem)
    else if !Inside(mem, a, CELL_SIZE) then (false, mem)
    else FillFrom(Write(mem, a, v), a + CELL_SIZE, end, v)
  }

  function FillBlock(b: Block, s: State, size: Cell): Outcome {
    if BadBlock(b, s, s.alt, size) then Stop(ERR_MEMACCESS)
    else
      var (ok, mem') := FillFrom(s.mem, s.alt, s.alt + size, s.pri);
      if ok then Next(s.(mem := mem').Skip(1)) else Fault
  }

  // ---------- Control registers ----------

  function LoadControl(b: Block, s: State, id: Cell): Outcome {
    match id
    case 0 => Next(s.(pri := b.cod).Skip(1))
    case 1 => Next(s.(pri := b.dat).Skip(1))
    case 2 => Next(s.(pri := s.hea).Skip(1))
    case 3 => Next(s.(pri := b.stp).Skip(1))
    case 4 => Next(s.(pri := s.stk).Skip(1))
    case 5 => Next(s.(pri := s.frm).Skip(1))
    case 6 => Next(s.(pri := S(s.Skip(0).cip)).Skip(1))
    case _ => if id in {-1, 7, 8} then Next(s.Skip(1)) else Fault
  }

  function StoreControl(b: Block, marks: seq<bool>, s: State, id: Cell): Outcome
  {
    match id
    case 2 =>
      if MarginExceeded(s.pri, s.stk) then Stop(ERR_STACKERR)
      else if s.pri < b.hlw then Stop(ERR_HEAPLOW)
      else Next(s.(hea := s.pri).Skip(1))
    case 4 =>
      if MarginExceeded(s.hea, s.pri) then Stop(ERR_STACKERR)
      else if s.pri > b.stp then Stop(ERR_STACKLOW)
      else Next(s.(stk := s.pri).Skip(1))
    case 5 =>
      if s.pri < S(s.hea + STKMARGIN) || U(s.pri) >= U(b.stp) then Stop(ERR_STACKERR)
      else Next(s.(frm := s.pri).Skip(1))
    case _ =>
      if id == -1 then Next(s.Skip(1))
      else if id == 6 || id == 8 then
        // the operand is skipped after the jump
        if Marked(marks, U(s.pri)) then Next(s.(cip := U(s.pri) + CELL_SIZE)) else Stop(ERR_MEMACCESS)
      else Fault
  }

  // ---------- SWITCH ----------

  /** The address of the first of records `i`, `i+1`, ... of the table at `table` whose value is `v`, or the
      default. Record `i` has its value in operand `2*i+1` and its address in operand `2*i+2`. */
  function LinearCase(P: Program, table: int, i: nat, v: Cell): nat
    decreases P.Num(table, 1) - i
  {
    if i > P.Num(table, 1) then P.CodeArg(table, 2)
    else if P.Num(table, 2 * i + 1) == v then P.CodeArg(table, 2 * i + 2)
    else LinearCase(P, table, i + 1, v)
  }

  /** The search in longer tables, between operands `lo` and `hi`. The midpoint is taken in cells, so it can
      be the address of a record instead of its value. */
  function BinaryCase(P: Program, table: int, lo: nat, hi: nat, v: Cell): nat
    decreases hi - lo
  {
    if lo >= hi then P.CodeArg(table, 2)
    else
      var mid := lo + (hi - lo) / 2;
      if v < P.Num(table, mid) then BinaryCase(P, table, lo, mid, v)
      else if v > P.Num(table, mid) then BinaryCase(P, table, mid + 2, hi, v)
      else P.CodeArg(table, mid + 1)
  }

  function SwitchTarget(P: Program, table: int, v: Cell): nat {
    var count := P.Num(table, 1);
    if count <= 30 then LinearCase(P, table, 1, v)
    else BinaryCase(P, table, 3, 3 + 2 * count, v)
  }

  /** Record `k` of the case table at `table` is for the value `v`. */
  predicate HasValue(P: Program, table: int, k: nat, v: Cell) {
    P.Num(table, 2 * k + 1) == v
  }

  /** What SWITCH promises: the address of the first record for the value, or the default if there is none. */
  ghost predicate FirstCase(P: Program, table: int, v: Cell, target: nat) {
    var count := P.Num(table, 1);
    && (forall k :: 1 <= k <= count && HasValue(P, table, k, v) && (forall j :: 1 <= j < k ==> !HasValue(P, table, j, v)) ==>
          target == P.CodeArg(table, 2 * k + 2))
    && ((forall k :: 1 <= k <= count ==> !HasValue(P, table, k, v)) ==> target == P.CodeArg(table, 2))
  }

  // ---------- Natives ----------

  /** The state after a native returned, or the one that is stored when it went to sleep: there the
      instruction will be executed again. */
  function AfterNative(s: State, reply: Reply, args: Cell, skip: nat): Outcome {
    var s' := s.(pri := reply.result, mem := reply.mem);
    if reply.err == ERR_NONE then Next(s'.(stk := S(s.stk + args)).Skip(skip))
    else if reply.err == ERR_SLEEP then Sleeping(s')
    else Stop(reply.err)
  }

  /** SYSREQ.N: pushes the size of the arguments and removes both afterwards, unchecked. */
  function NativeWithArgs(s: State, size: Cell, reply: Reply): Outcome {
    match PushValues(s, [size], 0)
    case Next(s') => AfterNative(s'.(cip := s.cip), reply, S(size + CELL_SIZE), 2)
    case o => o
  }

  // ---------- One instruction ----------

  function SetRegisters(s: State, regs: Registers, skip: nat): Outcome {
    match regs
    case Registers(pri, alt) => Next(s.(pri := pri, alt := alt).Skip(skip))
    case DivideError => Stop(ERR_DIVIDE)
  }

  /** The instructions that load from or store to the block at an address. */
  predicate IsAccess(op: Opcode) {
    match op
    case LOAD(_) | LOAD_S(_) | LREF(_) | LREF_S(_) | LOAD_I | LODB_I | STOR(_) | STOR_S(_) | SREF(_) |
      SREF_S(_) | STOR_I | STRB_I | LIDX | LIDX_B | ZERO | ZERO_S | STEP(_) | STEP_S(_) | STEP_I(_) |
      LOAD_BOTH | LOAD_S_BOTH | CONST | CONST_S => true
    case _ => false
  }

  /** The instructions that only read the block. */
  predicate Loads(op: Opcode) {
    match op
    case LOAD(_) | LOAD_S(_) | LREF(_) | LREF_S(_) | LOAD_I | LODB_I | LIDX | LIDX_B | LOAD_BOTH | LOAD_S_BOTH => true
    case _ => false
  }

  /** The instructions that move the stack or heap pointer. */
  predicate IsStackOp(op: Opcode) {
    match op
    case PUSH_REG(_) | PUSH_R | PUSH_C(_) | PUSH(_) | PUSH_S(_) | PUSH_ADR(_) | POP(_) | STACK | HEAP | PROC |
      RET | RETN | CALL | CALL_PRI | SWAP(_) => true
    case _ => false
  }

  predicate CallsNative(op: Opcode) {
    op.SYSREQ_PRI? || op.SYSREQ_C? || op.SYSREQ_D? || op.SYSREQ_N? || op.SYSREQ_ND?
  }

  /** Loads and stores. */
  function ExecuteAccess(P: Program, op: Opcode, s: State): Outcome
    requires P.Valid() && IsAccess(op)
  {
    var c := s.cip;
    match op
    case LOAD(r) => LoadAt(s, r, P.DataArg(c, 1), 1)
    case LOAD_S(r) => LoadStack(P.block, s, r, P.Num(c, 1))
    case LREF(r) => LoadRef(P.block, s, r, P.DataArg(c, 1))
    case LREF_S(r) => LoadRefStack(P.block, s, r, P.Num(c, 1))
    case LOAD_I => LoadData(P.block, s, PRI, s.pri, 0)
    case LODB_I => LoadBytes(P.block, s, P.Num(c, 1))
    case STOR(r) => StoreAt(s, P.DataArg(c, 1), s.Get(r), 1)
    case STOR_S(r) => StoreStack(P.block, s, P.Num(c, 1), s.Get(r), 1)
    case SREF(r) => StoreRef(P.block, s, r, P.DataArg(c, 1))
    case SREF_S(r) => StoreRefStack(P.block, s, r, P.Num(c, 1))
    case STOR_I => StoreData(P.block, s, s.alt, s.pri, 0)
    case STRB_I => StoreBytes(P.block, s, P.Num(c, 1))
    case LIDX => LoadData(P.block, s, PRI, S(s.pri * CELL_SIZE + s.alt), 0)
    case LIDX_B => LoadData(P.block, s, PRI, S(ShiftLeft(s.pri, P.Num(c, 1)) + s.alt), 1)
    case ZERO => StoreAt(s, P.DataArg(c, 1), 0, 1)
    case ZERO_S => StoreStack(P.block, s, P.Num(c, 1), 0, 1)
    case STEP(delta) => AddAt(s, P.DataArg(c, 1), delta, 1)
    case STEP_S(delta) => AddStack(P.block, s, P.Num(c, 1), delta)
    case STEP_I(delta) =>
      // steps over a cell although the instruction has no operand
      if BadDataAddr(P.block, s, s.pri) then Stop(ERR_MEMACCESS) else AddAt(s, s.pri, delta, 1)
    case LOAD_BOTH => LoadBoth(s, P.DataArg(c, 1), P.DataArg(c, 2))
    case LOAD_S_BOTH => LoadBothStack(P.block, s, P.Num(c, 1), P.Num(c, 2))
    case CONST => StoreAt(s, P.DataArg(c, 1), P.Num(c, 2), 2)
    case CONST_S => StoreStack(P.block, s, P.Num(c, 1), P.Num(c, 2), 2)
  }

  /** Stack, heap and calls. */
  function ExecuteStackOp(P: Program, op: Opcode, s: State): Outcome
    requires P.Valid() && IsStackOp(op)
  {
    var c := s.cip;
    match op
    case PUSH_REG(r) => PushValues(s, [s.Get(r)], 0)
    case PUSH_R => PushRepeated(s, P.Num(c, 1))
    case PUSH_C(n) => PushValues(s, P.Nums(c, n), n)
    case PUSH(n) => PushCopies(s, P.DataArgs(c, n), n)
    case PUSH_S(n) => if n == 1 then PushStackOne(P.block, s, P.Num(c, 1)) else PushStackMany(P.block, s, P.Nums(c, n))
    case PUSH_ADR(n) => PushValues(s, FrameAddrs(s, P.Nums(c, n)), n)
    case POP(r) => Pop(P.block, s, r)
    case STACK => MoveStack(P.block, s, P.Num(c, 1))
    case HEAP => MoveHeap(P.block, s, P.Num(c, 1))
    case PROC => EnterProcedure(s)
    case RET => Return(P.block, P.marks, s)
    case RETN => ReturnArgs(P.block, P.marks, s)
    case CALL => Call(s, P.CodeArg(c, 1), 1)
    case CALL_PRI =>
      // the range of the target is tested, the bitmap is not
      if U(s.pri) >= CELL_SIZE * P.layout.codeCells || U(s.pri) % CELL_SIZE != 0 then Stop(ERR_MEMACCESS)
      else Call(s, U(s.pri), 0)
    case SWAP(r) => Swap(s, r)
  }

  /** Everything else; `reply` is what a native answers when one is called. */
  function ExecuteOther(P: Program, op: Opcode, s: State, reply: Reply): Outcome
    requires P.Valid() && !IsAccess(op) && !IsStackOp(op)
  {
    var c := s.cip;
    match op
    case NONE | FILE | CASETBL => Stop(ERR_INVINSTR)
    case DEBUG_INFO => Next(s.Skip(2))
    case SYMBOL => Next(s.(cip := c + 2 * CELL_SIZE + P.Num(c, 1)).Skip(0))
    case REG(f) => SetRegisters(s, Apply(f, s.pri, s.alt), 0)
    case REG_C(g) => SetRegisters(s, ApplyConst(g, s.pri, s.alt, P.Num(c, 1)), 1)
    case ADDR(r) => Next(s.Set(r, S(s.frm + P.Num(c, 1))).Skip(1))
    case LCTRL => LoadControl(P.block, s, P.Num(c, 1))
    case SCTRL => StoreControl(P.block, P.marks, s, P.Num(c, 1))
    case JUMP => Next(s.(cip := P.CodeArg(c, 1)))
    case JREL => Next(s.(cip := c + 2 * CELL_SIZE + P.Num(c, 1)))
    case JCC(cond) => Next(if Holds(cond, s.pri, s.alt) then s.(cip := P.CodeArg(c, 1)) else s.Skip(1))
    case MOVS => MoveBlock(P.block, s, P.Num(c, 1))
    case CMPS => CompareBlock(P.block, s, P.Num(c, 1))
    case FILL => FillBlock(P.block, s, P.Num(c, 1))
    case HALT => if P.Num(c, 1) == ERR_SLEEP then Sleeping(s.Skip(1)) else Stop(P.Num(c, 1))
    case BOUNDS => if U(s.pri) > U(P.Num(c, 1)) then Stop(ERR_BOUNDS) else Next(s.Skip(1))
    case SYSREQ_PRI => AfterNative(s, reply, 0, 0)
    case SYSREQ_C | SYSREQ_D => AfterNative(s, reply, 0, 1)
    case SYSREQ_N | SYSREQ_ND => NativeWithArgs(s, P.Num(c, 2), reply)
    case JUMP_PRI => if Marked(P.marks, U(s.pri)) then Next(s.(cip := U(s.pri))) else Stop(ERR_MEMACCESS)
    case SWITCH => Next(s.(cip := SwitchTarget(P, P.CodeArg(c, 1), s.pri)))
    case NOP | BREAK => Next(s.Skip(0))
  }

  /** Executes `op`, found at `s.cip`. */
  function Execute(P: Program, op: Opcode, s: State, reply: Reply): Outcome
    requires P.Valid()
  {
    if IsAccess(op) then ExecuteAccess(P, op, s)
    else if IsStackOp(op) then ExecuteStackOp(P, op, s)
    else ExecuteOther(P, op, s, reply)
  }

  /** One turn of the interpreter's loop: fetch and execute. */
  function Step(P: Program, s: State, reply: Reply): Outcome
    requires P.Valid()
  {
    if s.cip % CELL_SIZE != 0 || !(0 <= s.cip < CELL_SIZE * P.layout.codeCells) || s.cip / CELL_SIZE >= |P.image| then OffCode
    else Execute(P, OpcodeOf(P.image[s.cip / CELL_SIZE]), s, reply)
  }

  /** A run of one step per reply. */
  function Run(P: Program, s: State, replies: seq<Reply>): Outcome
    requires P.Valid()
    decreases |replies|
  {
    if replies == [] then Next(s)
    else
      match Step(P, s, replies[0])
      case Next(s') => Run(P, s', replies[1..])
      case o => o
  }

  /** Replies of natives that leave a block of the same size. */
  ghost predicate SameSize(replies: seq<Reply>, size: nat) {
    forall k :: 0 <= k < |replies| ==> |replies[k].mem| == size
  }

  // ---------- Entry ----------

  /** The tests before a run starts or continues. */
  function Refusal(b: Block, s: State): int {
    if s.stk > b.stp then ERR_STACKLOW
    else if s.hea < b.hlw then ERR_HEAPLOW
    else if MarginExceeded(s.hea, s.stk) then ERR_STACKERR
    else ERR_NONE
  }

  /** `amx_Exec` from its first check to its first fetch, for an entry at code offset `entry` with
      `paramCount` arguments already on the stack. */
  function Enter(b: Block, mem: seq<Byte>, stk: Cell, hea: Cell, paramCount: nat, entry: int): Outcome {
    if stk > b.stp then Stop(ERR_STACKLOW)
    else if hea < b.hlw then Stop(ERR_HEAPLOW)
    else
      match PushValues(State(0, 0, 0, stk, hea, entry, mem), [S(CELL_SIZE * paramCount), 0], 0)
      case Next(s) => if MarginExceeded(hea, s.stk) then Stop(ERR_STACKERR) else Next(s.(cip := entry))
      case o => o
  }
}
