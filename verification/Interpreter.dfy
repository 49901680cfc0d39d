/** The interpreter in place: registers are fields, the data/heap/stack block is an array, and every handler does
    what the step function specifies. */
module Interpreter {
  import opened Cells
  import opened Opcodes
  import opened Alu
  import M = Machine

  type State = M.State
  type Outcome = M.Outcome

  /** What the loop does after an instruction. */
  datatype Signal = Going | Stopped(err: int) | Asleep | Faulted | Strayed

  predicate Jumps(op: Opcode) {
    op.JUMP? || op.JREL? || op.JCC? || op.HALT? || op.BOUNDS? || op.JUMP_PRI? || op.SWITCH?
  }

  predicate TouchesBlock(op: Opcode) {
    op.MOVS? || op.CMPS? || op.FILL? || op.SYSREQ_PRI? || op.SYSREQ_C? || op.SYSREQ_D? || op.SYSREQ_N? || op.SYSREQ_ND?
  }

  class Core {
    const P: M.Program
    const mem: array<Byte>
    var pri: Cell
    var alt: Cell
    var frm: Cell
    var stk: Cell
    var hea: Cell
    var cip: int

    constructor (P: M.Program, s: State)
      ensures this.P == P && fresh(mem) && Now() == s
    {
      this.P := P;
      pri, alt, frm, stk, hea, cip := s.pri, s.alt, s.frm, s.stk, s.hea, s.cip;
      mem := new Byte[|s.mem|](i requires 0 <= i < |s.mem| => s.mem[i]);
    }

    /** The registers and the block. */
    function Now(): State
      reads this, mem
    {
      M.State(pri, alt, frm, stk, hea, cip, mem[..])
    }

    /** The signal and the state are the outcome that the step function gives; an aborted instruction leaves the
        state open. */
    ghost predicate Follows(sig: Signal, o: Outcome)
      reads this, mem
    {
      match o
      case Next(s) => sig == Going && Now() == s
      case Stop(err) => sig == Stopped(err)
      case Sleeping(s) => sig == Asleep && Now() == s
      case Fault => sig == Faulted
      case OffCode => sig == Strayed
    }

    // ---------- Cells ----------

    /** `_R`. */
    function CellAt(at: int): Cell
      requires Inside(mem[..], at, CELL_SIZE)
      reads mem
      ensures CellAt(at) == Read(mem[..], at)
    {
      Join(mem[at], mem[at + 1], mem[at + 2], mem[at + 3])
    }

    /** `_W`, `_W16` and `_W8`: the lowest `n` bytes of a cell. */
    method PutBytes(at: int, v: Cell, n: nat)
      requires n <= CELL_SIZE && Inside(mem[..], at, n)
      modifies mem
      ensures mem[..] == Patch(old(mem[..]), at, BytesOf(v, n))
    {
      var bytes := BytesOf(v, n);
      hide BytesOf;
      forall i | 0 <= i < n {
        mem[at + i] := bytes[i];
      }
    }

    method PutCell(at: int, v: Cell)
      requires Inside(mem[..], at, CELL_SIZE)
      modifies mem
      ensures mem[..] == Write(old(mem[..]), at, v)
    {
      PutBytes(at, v, CELL_SIZE);
    }

    method SetRegister(r: Reg, v: Cell)
      modifies `pri, `alt
      ensures Now() == old(Now()).Set(r, v)
    {
      if r.PRI? {
        pri := v;
      } else {
        alt := v;
      }
    }

    /** The next instruction is behind the opcode and `n` operands. */
    method Skip(n: nat) returns (sig: Signal)
      modifies `cip
      ensures Now() == old(Now()).Skip(n) && sig == Going
    {
      cip := cip + CELL_SIZE * (1 + n);
      sig := Going;
    }

    predicate BadStackAddr(a: Cell)
      reads this, mem
      ensures BadStackAddr(a) == M.BadStackAddr(P.block, Now(), a)
    {
      a >= P.block.stp || a < stk
    }

    predicate BadDataAddr(a: Cell)
      reads this, mem
      ensures BadDataAddr(a) == M.BadDataAddr(P.block, Now(), a)
    {
      (a >= hea && a < stk) || U(a) >= U(P.block.stp)
    }

    // ---------- Loads and stores ----------

    method LoadAt(r: Reg, a: int, skip: nat) returns (sig: Signal)
      modifies this
      ensures Follows(sig, M.LoadAt(old(Now()), r, a, skip))
    {
      hide Read;
      if !Inside(mem[..], a, CELL_SIZE) {
        return Faulted;
      }
      SetRegister(r, CellAt(a));
      sig := Skip(skip);
    }

    method StoreAt(a: int, v: Cell, skip: nat) returns (sig: Signal)
      modifies this, mem
      ensures Follows(sig, M.StoreAt(old(Now()), a, v, skip))
    {
      hide Write;
      if !Inside(mem[..], a, CELL_SIZE) {
        return Faulted;
      }
      PutCell(a, v);
      sig := Skip(skip);
    }

    method AddAt(a: int, delta: int, skip: nat) returns (sig: Signal)
      modifies this, mem
      ensures Follows(sig, M.AddAt(old(Now()), a, delta, skip))
    {
      hide Read, S;
      if !Inside(mem[..], a, CELL_SIZE) {
        return Faulted;
      }
      sig := StoreAt(a, S(CellAt(a) + delta), skip);
    }

    method LoadStack(r: Reg, offs: Cell) returns (sig: Signal)
      modifies this
      ensures Follows(sig, M.LoadStack(P.block, old(Now()), r, offs))
    {
      hide S, M.LoadAt, M.BadStackAddr;
      var a := S(frm + offs);
      if BadStackAddr(a) {
        return Stopped(M.ERR_MEMACCESS);
      }
      sig := LoadAt(r, a, 1);
    }

    method StoreStack(offs: Cell, v: Cell, skip: nat) returns (sig: Signal)
      modifies this, mem
      ensures Follows(sig, M.StoreStack(P.block, old(Now()), offs, v, skip))
    {
      hide S, M.StoreAt, M.BadStackAddr;
      var a := S(frm + offs);
      if BadStackAddr(a) {
        return Stopped(M.ERR_MEMACCESS);
      }
      sig := StoreAt(a, v, skip);
    }

    method AddStack(offs: Cell, delta: int) returns (sig: Signal)
      modifies this, mem
      ensures Follows(sig, M.AddStack(P.block, old(Now()), offs, delta))
    {
      hide S, M.AddAt, M.BadStackAddr;
      var a := S(frm + offs);
      if BadStackAddr(a) {
        return Stopped(M.ERR_MEMACCESS);
      }
      sig := AddAt(a, delta, 1);
    }

    method LoadData(r: Reg, a: Cell, skip: nat) returns (sig: Signal)
      modifies this
      ensures Follows(sig, M.LoadData(P.block, old(Now()), r, a, skip))
    {
      hide M.LoadAt, M.BadDataAddr;
      if BadDataAddr(a) {
        return Stopped(M.ERR_MEMACCESS);
      }
      sig := LoadAt(r, a, skip);
    }

    method StoreData(a: Cell, v: Cell, skip: nat) returns (sig: Signal)
      modifies this, mem
      ensures Follows(sig, M.StoreData(P.block, old(Now()), a, v, skip))
    {
      hide M.StoreAt, M.BadDataAddr;
      if BadDataAddr(a) {
        return Stopped(M.ERR_MEMACCESS);
      }
      sig := StoreAt(a, v, skip);
    }

    method LoadBoth(a: int, b: int) returns (sig: Signal)
      modifies this
      ensures Follows(sig, M.LoadBoth(old(Now()), a, b))
    {
      hide Read;
      if !Inside(mem[..], a, CELL_SIZE) || !Inside(mem[..], b, CELL_SIZE) {
        return Faulted;
      }
      pri, alt := CellAt(a), CellAt(b);
      sig := Skip(2);
    }

    method LoadBothStack(offs: Cell, offs': Cell) returns (sig: Signal)
      modifies this
      ensures Follows(sig, M.LoadBothStack(P.block, old(Now()), offs, offs'))
    {
      hide S, M.LoadBoth, M.BadStackAddr;
      var a, a' := S(frm + offs), S(frm + offs');
      if BadStackAddr(a) || BadStackAddr(a') {
        return Stopped(M.ERR_MEMACCESS);
      }
      sig := LoadBoth(a, a');
    }

    method LoadRef(r: Reg, at: int) returns (sig: Signal)
      modifies this
      ensures Follows(sig, M.LoadRef(P.block, old(Now()), r, at))
    {
      hide Read, M.LoadData;
      if !Inside(mem[..], at, CELL_SIZE) {
        return Faulted;
      }
      sig := LoadData(r, CellAt(at), 1);
    }

    method StoreRef(r: Reg, at: int) returns (sig: Signal)
      modifies this, mem
      ensures Follows(sig, M.StoreRef(P.block, old(Now()), r, at))
    {
      hide Read, M.StoreData;
      if !Inside(mem[..], at, CELL_SIZE) {
        return Faulted;
      }
      sig := StoreData(CellAt(at), if r.PRI? then pri else alt, 1);
    }

    method LoadRefStack(r: Reg, offs: Cell) returns (sig: Signal)
      modifies this
      ensures Follows(sig, M.LoadRefStack(P.block, old(Now()), r, offs))
    {
      hide S, M.LoadRef, M.BadStackAddr;
      var a := S(frm + offs);
      if BadStackAddr(a) {
        return Stopped(M.ERR_MEMACCESS);
      }
      sig := LoadRef(r, a);
    }

    method StoreRefStack(r: Reg, offs: Cell) returns (sig: Signal)
      modifies this, mem
      ensures Follows(sig, M.StoreRefStack(P.block, old(Now()), r, offs))
    {
      hide S, M.StoreRef, M.BadStackAddr;
      var a := S(frm + offs);
      if BadStackAddr(a) {
        return Stopped(M.ERR_MEMACCESS);
      }
      sig := StoreRef(r, a);
    }

    /** LODB.I: one, two or four bytes. */
    method LoadBytes(n: Cell) returns (sig: Signal)
      modifies this
      ensures Follows(sig, M.LoadBytes(P.block, old(Now()), n))
    {
      hide S, M.BadDataAddr;
      if BadDataAddr(pri) {
        return Stopped(M.ERR_MEMACCESS);
      }
      if n !in {1, 2, 4} || !Inside(mem[..], pri, n) {
        return Faulted;
      }
      SomeBytes(mem[..], pri, n);
      if n == 1 {
        pri := S(mem[pri]);
      } else if n == 2 {
        pri := S(Number(mem[pri], mem[pri + 1], 0, 0));
      } else {
        pri := S(Number(mem[pri], mem[pri + 1], mem[pri + 2], mem[pri + 3]));
      }
      sig := Skip(1);
    }

    /** STRB.I. */
    method StoreBytes(n: Cell) returns (sig: Signal)
      modifies this, mem
      ensures Follows(sig, M.StoreBytes(P.block, old(Now()), n))
    {
      hide BytesOf, Patch, M.BadDataAddr;
      if BadDataAddr(alt) {
        return Stopped(M.ERR_MEMACCESS);
      }
      if n !in {1, 2, 4} || !Inside(mem[..], alt, n) {
        return Faulted;
      }
      PutBytes(alt, pri, n);
      sig := Skip(1);
    }

    // ---------- Stack ----------

    /** Writes values downwards from below `top`. */
    method PutDown(top: int, vs: seq<Cell>) returns (ok: bool)
      modifies mem
      ensures ok == M.WriteDown(old(mem[..]), top, vs).0
      ensures ok ==> mem[..] == M.WriteDown(old(mem[..]), top, vs).1
    {
      hide Write;
      var at := top;
      ghost var goal := M.WriteDown(mem[..], top, vs);
      for i := 0 to |vs|
        invariant goal == M.WriteDown(mem[..], at, vs[i..])
      {
        assert vs[i..][0] == vs[i] && vs[i..][1..] == vs[i + 1..];
        if !Inside(mem[..], at - CELL_SIZE, CELL_SIZE) {
          return false;
        }
        at := at - CELL_SIZE;
        PutCell(at, vs[i]);
      }
      ok := true;
    }

    /** The same with values that lie in the block. */
    method CopyDown(top: int, from: seq<Cell>) returns (ok: bool)
      modifies mem
      ensures ok == M.CopyDown(old(mem[..]), top, from).0
      ensures ok ==> mem[..] == M.CopyDown(old(mem[..]), top, from).1
    {
      hide Write, Read;
      var at := top;
      ghost var goal := M.CopyDown(mem[..], top, from);
      for i := 0 to |from|
        invariant goal == M.CopyDown(mem[..], at, from[i..])
      {
        assert from[i..][0] == from[i] && from[i..][1..] == from[i + 1..];
        if !Inside(mem[..], from[i], CELL_SIZE) || !Inside(mem[..], at - CELL_SIZE, CELL_SIZE) {
          return false;
        }
        at := at - CELL_SIZE;
        PutCell(at, CellAt(from[i]));
      }
      ok := true;
    }

    /** PUSH and its forms with several values: room is made, then the values are written. */
    method PushValues(vs: seq<Cell>, skip: nat) returns (sig: Signal)
      modifies this, mem
      ensures Follows(sig, M.PushValues(old(Now()), vs, skip))
    {
      hide S, M.WriteDown;
      var cptr := stk;
      stk := S(stk - CELL_SIZE * |vs|);
      if hea > stk {
        return Stopped(M.ERR_STACKERR);
      }
      var ok := PutDown(cptr, vs);
      if !ok {
        return Faulted;
      }
      sig := Skip(skip);
    }

    method PushCopies(from: seq<Cell>, skip: nat) returns (sig: Signal)
      modifies this, mem
      ensures Follows(sig, M.PushCopies(old(Now()), from, skip))
    {
      hide S, M.CopyDown;
      var cptr := stk;
      stk := S(stk - CELL_SIZE * |from|);
      if hea > stk {
        return Stopped(M.ERR_STACKERR);
      }
      var ok := CopyDown(cptr, from);
      if !ok {
        return Faulted;
      }
      sig := Skip(skip);
    }

    /** PUSH.S. */
    method PushStackOne(offs: Cell) returns (sig: Signal)
      modifies this, mem
      ensures Follows(sig, M.PushStackOne(P.block, old(Now()), offs))
    {
      hide S, M.PushCopies, M.BadStackAddr;
      var a := S(frm + offs);
      if BadStackAddr(a) {
        return Stopped(M.ERR_MEMACCESS);
      }
      sig := PushCopies([a], 1);
    }

    /** PUSH2.S to PUSH5.S: room is made before the addresses are tested. */
    method PushStackMany(offs: seq<Cell>) returns (sig: Signal)
      modifies this, mem
      ensures Follows(sig, M.PushStackMany(P.block, old(Now()), offs))
    {
      hide S, M.PushCopies, M.BadStackAddr;
      var stk' := S(stk - CELL_SIZE * |offs|);
      if hea > stk' {
        return Stopped(M.ERR_STACKERR);
      }
      var from := M.FrameAddrs(Now(), offs);
      ghost var lowered := Now().(stk := stk');
      for i := 0 to |offs|
        invariant forall k :: 0 <= k < i ==> !M.BadStackAddr(P.block, lowered, from[k])
        invariant Now() == old(Now())
      {
        BadBelow(P.block, lowered, from[i]);
        if from[i] >= P.block.stp || from[i] < stk' {
          assert M.BadStackAddr(P.block, lowered, M.FrameAddrs(old(Now()), offs)[i]);
          return Stopped(M.ERR_MEMACCESS);
        }
      }
      assert forall k :: 0 <= k < |offs| ==> !M.BadStackAddr(P.block, lowered, M.FrameAddrs(old(Now()), offs)[k]);
      sig := PushCopies(from, |offs|);
    }

    /** PUSH.R. */
    method PushRepeated(n: Cell) returns (sig: Signal)
      modifies this, mem
      ensures Follows(sig, M.PushRepeated(old(Now()), n))
    {
      hide S, M.WriteDown;
      var cptr, v := stk, pri;
      stk := S(stk - CELL_SIZE * n);
      if hea > stk {
        return Stopped(M.ERR_STACKERR);
      }
      if n > 0 {
        assert seq(n, _ => v) == seq(n, _ => old(Now()).pri);
        var ok := PutDown(cptr, seq(n, _ => v));
        if !ok {
          return Faulted;
        }
      }
      sig := Skip(1);
    }

    /** POP. */
    method Pop(r: Reg) returns (sig: Signal)
      modifies this
      ensures Follows(sig, M.Pop(P.block, old(Now()), r))
    {
      hide S, Read;
      if !Inside(mem[..], stk, CELL_SIZE) {
        return Faulted;
      }
      var v := CellAt(stk);
      stk := S(stk + CELL_SIZE);
      if stk > P.block.stp {
        return Stopped(M.ERR_STACKLOW);
      }
      SetRegister(r, v);
      sig := Skip(0);
    }

    method MoveStack(n: Cell) returns (sig: Signal)
      modifies this
      ensures Follows(sig, M.MoveStack(P.block, old(Now()), n))
    {
      hide S, M.MarginExceeded;
      alt := stk;
      stk := S(stk + n);
      if M.MarginExceeded(hea, stk) {
        return Stopped(M.ERR_STACKERR);
      }
      if stk > P.block.stp {
        return Stopped(M.ERR_STACKLOW);
      }
      sig := Skip(1);
    }

    method MoveHeap(n: Cell) returns (sig: Signal)
      modifies this
      ensures Follows(sig, M.MoveHeap(P.block, old(Now()), n))
    {
      hide S, M.MarginExceeded;
      alt := hea;
      hea := S(hea + n);
      if M.MarginExceeded(hea, stk) {
        return Stopped(M.ERR_STACKERR);
      }
      if hea < P.block.hlw {
        return Stopped(M.ERR_HEAPLOW);
      }
      sig := Skip(1);
    }

    /** PROC. */
    method EnterProcedure() returns (sig: Signal)
      modifies this, mem
      ensures Follows(sig, M.EnterProcedure(old(Now())))
    {
      hide M.PushValues;
      sig := PushValues([frm], 0);
      if sig == Going {
        frm := stk;
      }
    }

    /** RET. */
    method Return() returns (sig: Signal)
      modifies this
      ensures Follows(sig, M.Return(P.block, P.marks, old(Now())))
    {
      hide S, U, Read, M.Marked;
      var cptr: int := stk;
      stk := S(stk + 2 * CELL_SIZE);
      if stk > P.block.stp {
        return Stopped(M.ERR_STACKLOW);
      }
      if !Inside(mem[..], cptr, 2 * CELL_SIZE) {
        return Faulted;
      }
      var offs := U(CellAt(cptr + CELL_SIZE));
      if !M.Marked(P.marks, offs) {
        return Stopped(M.ERR_MEMACCESS);
      }
      frm := CellAt(cptr);
      cip := offs;
      sig := Going;
    }

    /** RETN. */
    method ReturnArgs() returns (sig: Signal)
      modifies this
      ensures Follows(sig, M.ReturnArgs(P.block, P.marks, old(Now())))
    {
      hide S, Read, M.Return;
      sig := Return();
      if sig == Going {
        if !Inside(mem[..], stk, CELL_SIZE) {
          return Faulted;
        }
        stk := S(stk + CellAt(stk) + CELL_SIZE);
        if stk > P.block.stp {
          return Stopped(M.ERR_STACKLOW);
        }
      }
    }

    /** CALL. */
    method Call(target: int, n: nat) returns (sig: Signal)
      modifies this, mem
      ensures Follows(sig, M.Call(old(Now()), target, n))
    {
      hide S, M.PushValues;
      sig := PushValues([S(cip + CELL_SIZE * (1 + n))], n);
      if sig == Going {
        cip := target;
      }
    }

    method Swap(r: Reg) returns (sig: Signal)
      modifies this, mem
      ensures Follows(sig, M.Swap(old(Now()), r))
    {
      hide Read, Write;
      if !Inside(mem[..], stk, CELL_SIZE) {
        return Faulted;
      }
      var v := CellAt(stk);
      PutCell(stk, if r.PRI? then pri else alt);
      SetRegister(r, v);
      sig := Skip(0);
    }

    // ---------- Blocks ----------

    predicate BadBlock(a: Cell, size: Cell)
      reads this, mem
      ensures BadBlock(a, size) == M.BadBlock(P.block, Now(), a, size)
    {
      BadDataAddr(a) || BadDataAddr(S(U(a) + U(size) - 1)) || (a <= hea <= size) || (a <= stk <= size)
    }

    /** MOVS. */
    method MoveBlock(size: Cell) returns (sig: Signal)
      modifies this, mem
      ensures Follows(sig, M.MoveBlock(P.block, old(Now()), size))
    {
      hide M.BadBlock, BadBlock, Patch;
      if BadBlock(pri, size) || BadBlock(alt, size) {
        return Stopped(M.ERR_MEMACCESS);
      }
      if size < 0 || !Inside(mem[..], pri, size) || !Inside(mem[..], alt, size) {
        return Faulted;
      }
      MoveBytes(pri, alt, size);
      sig := Skip(1);
    }

    /** `memmove`. */
    method MoveBytes(from: nat, to: nat, size: nat)
      requires from + size <= mem.Length && to + size <= mem.Length
      modifies mem
      ensures mem[..] == Patch(old(mem[..]), to, old(mem[..])[from..from + size])
    {
      forall i | 0 <= i < size {
        mem[to + i] := mem[from + i];
      }
    }

    /** CMPS. */
    method CompareBlock(size: Cell) returns (sig: Signal)
      modifies this
      ensures Follows(sig, M.CompareBlock(P.block, old(Now()), size))
    {
      hide M.BadBlock, BadBlock;
      if BadBlock(pri, size) || BadBlock(alt, size) {
        return Stopped(M.ERR_MEMACCESS);
      }
      if size < 0 || !Inside(mem[..], pri, size) || !Inside(mem[..], alt, size) {
        return Faulted;
      }
      pri := FirstDifference(alt, pri, size);
      sig := Skip(1);
    }

    /** `memcmp`, by the sign of the first difference. */
    method FirstDifference(a: nat, b: nat, size: nat) returns (sign: Cell)
      requires a + size <= mem.Length && b + size <= mem.Length
      ensures sign == M.CompareBytes(mem[a..a + size], mem[b..b + size])
    {
      ghost var x, y := mem[a..a + size], mem[b..b + size];
      for i := 0 to size
        invariant M.CompareBytes(x, y) == M.CompareBytes(x[i..], y[i..])
      {
        assert x[i..][1..] == x[i + 1..] && y[i..][1..] == y[i + 1..];
        if mem[a + i] < mem[b + i] {
          return -1;
        } else if mem[a + i] > mem[b + i] {
          return 1;
        }
      }
      assert x[size..] == [];
      return 0;
    }

    /** FILL. */
    method FillBlock(size: Cell) returns (sig: Signal)
      modifies this, mem
      ensures Follows(sig, M.FillBlock(P.block, old(Now()), size))
    {
      hide M.BadBlock, BadBlock, M.FillFrom;
      if BadBlock(alt, size) {
        return Stopped(M.ERR_MEMACCESS);
      }
      var ok := FillFrom(alt, alt as int + size as int);
      if !ok {
        return Faulted;
      }
      sig := Skip(1);
    }

    method FillFrom(a: int, end: int) returns (ok: bool)
      modifies mem
      ensures ok == M.FillFrom(old(mem[..]), a, end, pri).0
      ensures ok ==> mem[..] == M.FillFrom(old(mem[..]), a, end, pri).1
    {
      hide Write;
      var at := a;
      ghost var goal := M.FillFrom(mem[..], a, end, pri);
      while at < end
        invariant goal == M.FillFrom(mem[..], at, end, pri)
      {
        if !Inside(mem[..], at, CELL_SIZE) {
          return false;
        }
        PutCell(at, pri);
        at := at + CELL_SIZE;
      }
      ok := true;
    }

    // ---------- Control registers, SWITCH, natives ----------

    method LoadControl(id: Cell) returns (sig: Signal)
      modifies this
      ensures Follows(sig, M.LoadControl(P.block, old(Now()), id))
    {
      match id {
        case 0 => pri := P.block.cod;
        case 1 => pri := P.block.dat;
        case 2 => pri := hea;
        case 3 => pri := P.block.stp;
        case 4 => pri := stk;
        case 5 => pri := frm;
        case 6 => pri := S(cip + CELL_SIZE);
        case _ =>
          if id !in {-1, 7, 8} {
            return Faulted;
          }
      }
      sig := Skip(1);
    }

    method StoreControl(id: Cell) returns (sig: Signal)
      modifies this
      ensures Follows(sig, M.StoreControl(P.block, P.marks, old(Now()), id))
    {
      hide S, U, M.Marked, M.MarginExceeded;
      match id {
        case 2 =>
          hea := pri;
          if M.MarginExceeded(hea, stk) {
            return Stopped(M.ERR_STACKERR);
          }
          if hea < P.block.hlw {
            return Stopped(M.ERR_HEAPLOW);
          }
        case 4 =>
          stk := pri;
          if M.MarginExceeded(hea, stk) {
            return Stopped(M.ERR_STACKERR);
          }
          if stk > P.block.stp {
            return Stopped(M.ERR_STACKLOW);
          }
        case 5 =>
          if pri < S(hea + M.STKMARGIN) || U(pri) >= U(P.block.stp) {
            return Stopped(M.ERR_STACKERR);
          }
          frm := pri;
        case _ =>
          if id == 6 || id == 8 {
            if !M.Marked(P.marks, U(pri)) {
              return Stopped(M.ERR_MEMACCESS);
            }
            cip := U(pri) + CELL_SIZE;
            return Going;
          }
          if id != -1 {
            return Faulted;
          }
      }
      sig := Skip(1);
    }

    /** The search of SWITCH in the table at `table`. */
    method FindCase(table: int) returns (target: nat)
      ensures target == M.SwitchTarget(P, table, pri)
      ensures P.Num(table, 1) <= 30 ==> M.FirstCase(P, table, pri, target)
    {
      hide M.Program.Num, M.Program.CodeArg;
      var count: int := P.Num(table, 1);
      if count <= 30 {
        var i: nat := 1;
        while i <= count
          invariant 1 <= i && forall k :: 1 <= k < i ==> !M.HasValue(P, table, k, pri)
          invariant M.LinearCase(P, table, 1, pri) == M.LinearCase(P, table, i, pri)
          decreases count - i
        {
          if P.Num(table, 2 * i + 1) == pri {
            assert M.HasValue(P, table, i, pri);
            return P.CodeArg(table, 2 * i + 2);
          }
          i := i + 1;
        }
      } else {
        var lo: nat, hi: nat := 3, 3 + 2 * count;
        while lo < hi
          invariant M.BinaryCase(P, table, 3, 3 + 2 * count, pri) == M.BinaryCase(P, table, lo, hi, pri)
          decreases hi - lo
        {
          var mid := lo + (hi - lo) / 2;
          if pri < P.Num(table, mid) {
            hi := mid;
          } else if pri > P.Num(table, mid) {
            lo := mid + 2;
          } else {
            return P.CodeArg(table, mid + 1);
          }
        }
      }
      return P.CodeArg(table, 2);
    }

    /** What a native leaves. */
    method AfterNative(reply: M.Reply, args: Cell, skip: nat) returns (sig: Signal)
      requires |reply.mem| == mem.Length
      modifies this, mem
      ensures Follows(sig, M.AfterNative(old(Now()), reply, args, skip))
    {
      hide S;
      forall i | 0 <= i < mem.Length {
        mem[i] := reply.mem[i];
      }
      assert mem[..] == reply.mem;
      pri := reply.result;
      if reply.err == M.ERR_SLEEP {
        return Asleep;
      }
      if reply.err != M.ERR_NONE {
        return Stopped(reply.err);
      }
      stk := S(stk + args);
      sig := Skip(skip);
    }

    /** SYSREQ.N. */
    method NativeWithArgs(size: Cell, reply: M.Reply) returns (sig: Signal)
      requires |reply.mem| == mem.Length
      modifies this, mem
      ensures Follows(sig, M.NativeWithArgs(old(Now()), size, reply))
    {
      hide S, M.PushValues, M.AfterNative;
      var at := cip;
      sig := PushValues([size], 0);
      if sig == Going {
        cip := at;
        sig := AfterNative(reply, S(size + CELL_SIZE), 2);
      }
    }

    method SetRegisters(regs: Registers, skip: nat) returns (sig: Signal)
      modifies this
      ensures Follows(sig, M.SetRegisters(old(Now()), regs, skip))
    {
      match regs
      case Registers(p, a) =>
        pri, alt := p, a;
        sig := Skip(skip);
      case DivideError =>
        sig := Stopped(M.ERR_DIVIDE);
    }

    // ---------- One instruction ----------

    method ExecuteLoad(op: Opcode) returns (sig: Signal)
      requires P.Valid() && M.Loads(op)
      modifies this
      ensures Follows(sig, M.ExecuteAccess(P, op, old(Now())))
    {
      hide Follows, S, M.LoadAt, M.LoadStack, M.LoadRef, M.LoadRefStack, M.LoadData, M.LoadBytes, M.StoreAt;
      hide M.StoreStack, M.StoreRef, M.StoreRefStack, M.StoreData, M.StoreBytes, M.AddAt, M.AddStack, M.LoadBoth;
      hide M.LoadBothStack, M.BadDataAddr, M.Program.Num, M.Program.DataArg, ShiftLeft;
      var c := cip;
      match op
      case LOAD(r) => sig := LoadAt(r, P.DataArg(c, 1), 1);
      case LOAD_S(r) => sig := LoadStack(r, P.Num(c, 1));
      case LREF(r) => sig := LoadRef(r, P.DataArg(c, 1));
      case LREF_S(r) => sig := LoadRefStack(r, P.Num(c, 1));
      case LOAD_I => sig := LoadData(PRI, pri, 0);
      case LODB_I => sig := LoadBytes(P.Num(c, 1));
      case LIDX => sig := LoadData(PRI, S(pri * CELL_SIZE + alt), 0);
      case LIDX_B => sig := LoadData(PRI, S(ShiftLeft(pri, P.Num(c, 1)) + alt), 1);
      case LOAD_BOTH => sig := LoadBoth(P.DataArg(c, 1), P.DataArg(c, 2));
      case LOAD_S_BOTH => sig := LoadBothStack(P.Num(c, 1), P.Num(c, 2));
    }

    method ExecuteStore(op: Opcode) returns (sig: Signal)
      requires P.Valid() && M.IsAccess(op) && !M.Loads(op)
      modifies this, mem
      ensures Follows(sig, M.ExecuteAccess(P, op, old(Now())))
    {
      hide Follows, S, M.LoadAt, M.LoadStack, M.LoadRef, M.LoadRefStack, M.LoadData, M.LoadBytes, M.StoreAt;
      hide M.StoreStack, M.StoreRef, M.StoreRefStack, M.StoreData, M.StoreBytes, M.AddAt, M.AddStack, M.LoadBoth;
      hide M.LoadBothStack, M.BadDataAddr, M.Program.Num, M.Program.DataArg, ShiftLeft;
      var c := cip;
      match op
      case STOR(r) => sig := StoreAt(P.DataArg(c, 1), if r.PRI? then pri else alt, 1);
      case STOR_S(r) => sig := StoreStack(P.Num(c, 1), if r.PRI? then pri else alt, 1);
      case SREF(r) => sig := StoreRef(r, P.DataArg(c, 1));
      case SREF_S(r) => sig := StoreRefStack(r, P.Num(c, 1));
      case STOR_I => sig := StoreData(alt, pri, 0);
      case STRB_I => sig := StoreBytes(P.Num(c, 1));
      case ZERO => sig := StoreAt(P.DataArg(c, 1), 0, 1);
      case ZERO_S => sig := StoreStack(P.Num(c, 1), 0, 1);
      case STEP(delta) => sig := AddAt(P.DataArg(c, 1), delta, 1);
      case STEP_S(delta) => sig := AddStack(P.Num(c, 1), delta);
      case STEP_I(delta) => sig := StepIndirect(delta);
      case CONST => sig := StoreAt(P.DataArg(c, 1), P.Num(c, 2), 2);
      case CONST_S => sig := StoreStack(P.Num(c, 1), P.Num(c, 2), 2);
    }

    /** INC.I and DEC.I. */
    method StepIndirect(delta: int) returns (sig: Signal)
      requires P.Valid()
      modifies this, mem
      ensures Follows(sig, M.ExecuteAccess(P, STEP_I(delta), old(Now())))
    {
      hide M.AddAt, M.BadDataAddr;
      if BadDataAddr(pri) {
        return Stopped(M.ERR_MEMACCESS);
      }
      sig := AddAt(pri, delta, 1);
    }

    /** Stack, heap and calls. */
    method ExecuteStackOp(op: Opcode) returns (sig: Signal)
      requires P.Valid() && M.IsStackOp(op)
      modifies this, mem
      ensures Follows(sig, M.ExecuteStackOp(P, op, old(Now())))
    {
      hide M.PushValues, M.PushRepeated, M.PushCopies, M.PushStackOne, M.PushStackMany, M.Pop, M.MoveStack, M.MoveHeap;
      hide M.EnterProcedure, M.Return, M.ReturnArgs, M.Call, M.Swap, M.Program.Num, M.Program.CodeArg, U;
      hide M.Program.Nums, M.Program.DataArgs, M.FrameAddrs;
      var c := cip;
      match op
      case PUSH_REG(r) => sig := PushValues([if r.PRI? then pri else alt], 0);
      case PUSH_R => sig := PushRepeated(P.Num(c, 1));
      case PUSH_C(n) => sig := PushValues(P.Nums(c, n), n);
      case PUSH(n) => sig := PushCopies(P.DataArgs(c, n), n);
      case PUSH_S(n) =>
        if n == 1 {
          sig := PushStackOne(P.Num(c, 1));
        } else {
          sig := PushStackMany(P.Nums(c, n));
        }
      case PUSH_ADR(n) => sig := PushValues(M.FrameAddrs(Now(), P.Nums(c, n)), n);
      case POP(r) => sig := Pop(r);
      case STACK => sig := MoveStack(P.Num(c, 1));
      case HEAP => sig := MoveHeap(P.Num(c, 1));
      case PROC => sig := EnterProcedure();
      case RET => sig := Return();
      case RETN => sig := ReturnArgs();
      case CALL => sig := Call(P.CodeArg(c, 1), 1);
      case CALL_PRI =>
        if U(pri) >= CELL_SIZE * P.layout.codeCells || U(pri) % CELL_SIZE != 0 {
          sig := Stopped(M.ERR_MEMACCESS);
        } else {
          sig := Call(U(pri), 0);
        }
      case SWAP(r) => sig := Swap(r);
    }

    /** Jumps, halts and the test of bounds. */
    method ExecuteJump(op: Opcode, ghost reply: M.Reply) returns (sig: Signal)
      requires P.Valid() && Jumps(op)
      modifies this
      ensures Follows(sig, M.ExecuteOther(P, op, old(Now()), reply))
    {
      hide S, U, Holds, M.SwitchTarget, M.Marked, M.Program.Num, M.Program.CodeArg;
      var c := cip;
      match op
      case JUMP => cip, sig := P.CodeArg(c, 1), Going;
      case JREL => cip, sig := c + 2 * CELL_SIZE + P.Num(c, 1), Going;
      case JCC(cond) =>
        if Holds(cond, pri, alt) {
          cip, sig := P.CodeArg(c, 1), Going;
        } else {
          sig := Skip(1);
        }
      case HALT =>
        if P.Num(c, 1) == M.ERR_SLEEP {
          sig := Skip(1);
          sig := Asleep;
        } else {
          sig := Stopped(P.Num(c, 1));
        }
      case BOUNDS =>
        if U(pri) > U(P.Num(c, 1)) {
          sig := Stopped(M.ERR_BOUNDS);
        } else {
          sig := Skip(1);
        }
      case JUMP_PRI =>
        if M.Marked(P.marks, U(pri)) {
          cip, sig := U(pri), Going;
        } else {
          sig := Stopped(M.ERR_MEMACCESS);
        }
      case SWITCH =>
        cip := FindCase(P.CodeArg(c, 1));
        sig := Going;
    }

    /** Operations on blocks, and calls of natives. */
    method ExecuteBlockOrNative(op: Opcode, reply: M.Reply) returns (sig: Signal)
      requires P.Valid() && |reply.mem| == mem.Length && TouchesBlock(op)
      modifies this, mem
      ensures Follows(sig, M.ExecuteOther(P, op, old(Now()), reply))
    {
      hide S, Follows, M.MoveBlock, M.CompareBlock, M.FillBlock, M.AfterNative, M.NativeWithArgs, M.Program.Num;
      var c := cip;
      match op
      case MOVS => sig := MoveBlock(P.Num(c, 1));
      case CMPS => sig := CompareBlock(P.Num(c, 1));
      case FILL => sig := FillBlock(P.Num(c, 1));
      case SYSREQ_PRI => sig := AfterNative(reply, 0, 0);
      case SYSREQ_C | SYSREQ_D => sig := AfterNative(reply, 0, 1);
      case SYSREQ_N | SYSREQ_ND => sig := NativeWithArgs(P.Num(c, 2), reply);
    }

    /** Register arithmetic and what is left. */
    method ExecuteRest(op: Opcode, ghost reply: M.Reply) returns (sig: Signal)
      requires P.Valid() && !M.IsAccess(op) && !M.IsStackOp(op) && !Jumps(op) && !TouchesBlock(op)
      modifies this
      ensures Follows(sig, M.ExecuteOther(P, op, old(Now()), reply))
    {
      hide S, Apply, ApplyConst, M.LoadControl, M.StoreControl, M.SetRegisters, M.Program.Num;
      var c := cip;
      match op
      case NONE | FILE | CASETBL => sig := Stopped(M.ERR_INVINSTR);
      case DEBUG_INFO => sig := Skip(2);
      case SYMBOL =>
        cip := c + 2 * CELL_SIZE + P.Num(c, 1);
        sig := Skip(0);
      case REG(f) => sig := SetRegisters(Apply(f, pri, alt), 0);
      case REG_C(g) => sig := SetRegisters(ApplyConst(g, pri, alt, P.Num(c, 1)), 1);
      case ADDR(r) =>
        SetRegister(r, S(frm + P.Num(c, 1)));
        sig := Skip(1);
      case LCTRL => sig := LoadControl(P.Num(c, 1));
      case SCTRL => sig := StoreControl(P.Num(c, 1));
      case NOP | BREAK => sig := Skip(0);
    }

    /** Everything but loads, stores and the stack. */
    method ExecuteOther(op: Opcode, reply: M.Reply) returns (sig: Signal)
      requires P.Valid() && !M.IsAccess(op) && !M.IsStackOp(op) && |reply.mem| == mem.Length
      modifies this, mem
      ensures Follows(sig, M.ExecuteOther(P, op, old(Now()), reply))
    {
      hide Jumps, TouchesBlock, M.ExecuteOther, M.IsAccess, M.IsStackOp;
      if Jumps(op) {
        sig := ExecuteJump(op, reply);
      } else if TouchesBlock(op) {
        sig := ExecuteBlockOrNative(op, reply);
      } else {
        sig := ExecuteRest(op, reply);
      }
    }

    /** One turn of the loop: fetch and execute. */
    method Turn(reply: M.Reply) returns (sig: Signal)
      requires P.Valid() && |reply.mem| == mem.Length
      modifies this, mem
      ensures Follows(sig, M.Step(P, old(Now()), reply))
    {
      hide M.ExecuteAccess, M.ExecuteStackOp, M.ExecuteOther, M.IsAccess, M.IsStackOp, OpcodeOf, M.Loads;
      if cip % CELL_SIZE != 0 || !(0 <= cip < CELL_SIZE * P.layout.codeCells) || cip / CELL_SIZE >= |P.image| {
        return Strayed;
      }
      var op := OpcodeOf(P.image[cip / CELL_SIZE]);
      if M.IsAccess(op) {
        if M.Loads(op) {
          sig := ExecuteLoad(op);
        } else {
          sig := ExecuteStore(op);
        }
      } else if M.IsStackOp(op) {
        sig := ExecuteStackOp(op);
      } else {
        sig := ExecuteOther(op, reply);
      }
    }

    /** The loop of `amx_Exec`, for as many turns as there are replies of natives. */
    method Exec(replies: seq<M.Reply>) returns (sig: Signal)
      requires P.Valid() && forall k :: 0 <= k < |replies| ==> |replies[k].mem| == mem.Length
      modifies this, mem
      ensures Follows(sig, M.Run(P, old(Now()), replies))
    {
      hide M.Step;
      sig := Going;
      var i := 0;
      ghost var goal := M.Run(P, Now(), replies);
      while i < |replies| && sig == Going
        invariant 0 <= i <= |replies|
        invariant if sig == Going then goal == M.Run(P, Now(), replies[i..]) else Follows(sig, goal)
      {
        assert replies[i..][0] == replies[i] && replies[i..][1..] == replies[i + 1..];
        sig := Turn(replies[i]);
        i := i + 1;
      }
    }
  }

  lemma BadBelow(b: M.Block, s: State, a: Cell)
    ensures M.BadStackAddr(b, s, a) <==> a >= b.stp || a < s.stk
  {
  }

  /** The number in up to four bytes. */
  function Number(b0: int, b1: int, b2: int, b3: int): int {
    b0 + 0x100 * (b1 + 0x100 * (b2 + 0x100 * b3))
  }

  lemma SomeBytes(mem: seq<Byte>, a: nat, n: int)
    requires n in {1, 2, 4} && a + n <= |mem|
    ensures n == 1 ==> M.ReadBytes(mem, a, n) == mem[a]
    ensures n == 2 ==> M.ReadBytes(mem, a, n) == Number(mem[a], mem[a + 1], 0, 0)
    ensures n == 4 ==> M.ReadBytes(mem, a, n) == Number(mem[a], mem[a + 1], mem[a + 2], mem[a + 3])
  {
    assert M.ReadBytes(mem, a, 1) == (mem[a] as int) + 0x100 * M.ReadBytes(mem, a + 1, 0);
    if n >= 2 {
      assert M.ReadBytes(mem, a, n) == (mem[a] as int) + 0x100 * M.ReadBytes(mem, a + 1, n - 1);
    }
    if n == 4 {
      assert M.ReadBytes(mem, a + 1, 3) == (mem[a + 1] as int) + 0x100 * M.ReadBytes(mem, a + 2, 2);
      assert M.ReadBytes(mem, a + 2, 2) == (mem[a + 2] as int) + 0x100 * M.ReadBytes(mem, a + 3, 1);
    }
  }
}
