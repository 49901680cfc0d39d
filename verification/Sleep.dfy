/** Sleeping and continuing in the plain interpreter: what a run saves when it sleeps, and what it picks up. */
module Sleep {
  import opened Cells
  import M = Machine

  type State = M.State

  /** What one instruction does. A sleeping instruction saves one set of registers, and would have gone on with
      another one had it not slept; only a HALT reports a result then. A halt saves the registers, an abort does not;
      both give up what is on the stack and heap. A failed check of the margins inside an instruction just returns. */
  datatype Effect =
    | Goes(s: State)
    | Sleeps(saved: State, continued: State, byHalt: bool)
    | Halts(err: int, s: State)
    | Aborts(err: int, s: State)
    | Returns(err: int, s: State)

  /** What can only go on or end, without an error code that means sleeping. */
  predicate Quiet(e: Effect) {
    match e
    case Goes(_) => true
    case Sleeps(_, _, _) => false
    case Halts(err, _) => err != M.ERR_SLEEP
    case Aborts(err, _) => err != M.ERR_SLEEP
    case Returns(err, _) => err != M.ERR_SLEEP
  }

  type Plain = e: Effect | Quiet(e) witness Halts(M.ERR_NONE, M.State(0, 0, 0, 0, 0, 0, []))

  /** The instruction at `cip`: HALT, the call of a native with so many operands (SYSREQ.PRI and SYSREQ.C), one with
      its arguments (SYSREQ.N), or any other, which does not sleep. */
  datatype Instruction =
    | Halting(operand: int)
    | Calling(operands: nat, reply: M.Reply)
    | CallingWithArgs(args: Cell, reply: M.Reply)
    | Other(effect: Plain)

  /** Any instruction set: what is executed, and what natives answer, in each state. */
  type Core = State -> Instruction

  /** HALT: all registers are saved, behind the operand. */
  function Halt(s: State, operand: int): Effect {
    if operand == M.ERR_SLEEP then Sleeps(s.Skip(1), s.Skip(1), true) else Halts(operand, s.Skip(1))
  }

  /** SYSREQ.C and SYSREQ.PRI: the registers are saved, behind the operands, before the native is called. */
  function AfterNative(s: State, operands: nat, reply: M.Reply): Effect {
    var t := s.Skip(operands).(pri := reply.result, mem := reply.mem);
    if reply.err == M.ERR_NONE then Goes(t) else if reply.err == M.ERR_SLEEP then Sleeps(t, t, false) else Aborts(reply.err, t)
  }

  /** SYSREQ.N pushes the size of the arguments, and saves the stack pointer while they are still on the stack. */
  function AfterNativeWithArgs(s: State, args: Cell, reply: M.Reply): Effect {
    var t := s.Skip(2).(pri := reply.result, stk := S(s.stk - CELL_SIZE), mem := reply.mem);
    var c := t.(stk := S(t.stk + args + CELL_SIZE));
    if reply.err == M.ERR_NONE then Goes(c) else if reply.err == M.ERR_SLEEP then Sleeps(t, c, false) else Aborts(reply.err, c)
  }

  function Act(core: Core, s: State): Effect {
    match core(s)
    case Halting(operand) => Halt(s, operand)
    case Calling(operands, reply) => AfterNative(s, operands, reply)
    case CallingWithArgs(args, reply) => AfterNativeWithArgs(s, args, reply)
    case Other(effect) => effect
  }

  /** The cells behind the opcode of an instruction that can sleep. */
  function Operands(i: Instruction): nat {
    match i
    case Halting(_) => 1
    case Calling(operands, _) => operands
    case CallingWithArgs(_, _) => 2
    case Other(_) => 0
  }

  /** Whatever sleeps, sleeps behind its own operands, and would have gone on there. */
  lemma SleepsBehind(core: Core, s: State)
    ensures var e := Act(core, s); var behind := s.cip + 4 + 4 * Operands(core(s));
      e.Sleeps? ==> e.saved.cip == e.continued.cip == behind && !core(s).Other?
  {
    hide S;
  }

  /** The run fell asleep with `e`: some instruction on the way did, and what is saved lies behind it. */
  ghost predicate AsleepBehind(core: Core, e: Effect)
    requires e.Sleeps?
  {
    exists u: State :: Act(core, u) == e && e.saved.cip == u.cip + 4 + 4 * Operands(core(u))
  }

  // ---------- Uninterrupted runs ----------

  datatype Ending = Running | Ended(how: Effect)

  /** How the run from `s` in which sleeping does nothing ends, if it does within `n` instructions. */
  function Run(core: Core, s: State, n: nat): Ending
    decreases n
  {
    if n == 0 then Running
    else
      match Act(core, s)
      case Goes(t) => Run(core, t, n - 1)
      case Sleeps(_, continued, _) => Run(core, continued, n - 1)
      case Halts(_, _) | Aborts(_, _) | Returns(_, _) => Ended(Act(core, s))
  }

  /** Every sleep on the way saves exactly what the run goes on with, and may be continued. */
  predicate Wakes(b: M.Block, core: Core, s: State, n: nat)
    decreases n
  {
    n == 0 ||
    match Act(core, s)
    case Goes(t) => Wakes(b, core, t, n - 1)
    case Sleeps(saved, continued, _) =>
      saved == continued && M.Refusal(b, saved) == M.ERR_NONE && Wakes(b, core, continued, n - 1)
    case Halts(_, _) | Aborts(_, _) | Returns(_, _) => true
  }

  /** The conditions on a run that sleeps: its stack and heap pass the tests of an entry wherever it does, and no
      native called with SYSREQ.N sleeps, unless the size of its arguments is minus one cell. */
  predicate Continuable(b: M.Block, core: Core, s: State, n: nat)
    decreases n
  {
    n == 0 ||
    match Act(core, s)
    case Goes(t) => Continuable(b, core, t, n - 1)
    case Sleeps(saved, continued, _) =>
      && M.Refusal(b, saved) == M.ERR_NONE
      && (core(s).CallingWithArgs? ==> core(s).args == -CELL_SIZE)
      && Continuable(b, core, continued, n - 1)
    case Halts(_, _) | Aborts(_, _) | Returns(_, _) => true
  }

  /** What one instruction saves when it sleeps is what it would have gone on with, except in SYSREQ.N. */
  lemma SavedIsContinuedIff(core: Core, s: State)
    requires Act(core, s).Sleeps?
    ensures var e := Act(core, s);
      e.saved == e.continued <==> (core(s).CallingWithArgs? ==> core(s).args == -CELL_SIZE)
  {
    if core(s).CallingWithArgs? {
      var stk := S(s.stk - CELL_SIZE);
      var args := core(s).args;
      if args == -CELL_SIZE {
        InRange(stk);
      } else {
        OtherSum(stk, args + CELL_SIZE);
      }
    }
  }

  lemma OtherSum(x: Cell, d: int)
    requires d != 0 && -CELL_RANGE < d < CELL_RANGE
    ensures S(x + d) != x
  {
  }

  /** The conditions are exact: they hold if and only if every sleep wakes up as it fell asleep. */
  lemma {:induction false} WakesIff(b: M.Block, core: Core, s: State, n: nat)
    ensures Wakes(b, core, s, n) <==> Continuable(b, core, s, n)
    decreases n
  {
    hide Act, M.Refusal;
    if n > 0 {
      match Act(core, s)
      case Goes(t) => WakesIff(b, core, t, n - 1);
      case Sleeps(_, continued, _) =>
        SavedIsContinuedIff(core, s);
        WakesIff(b, core, continued, n - 1);
      case _ =>
    }
  }

  lemma EndsAwake(core: Core, s: State)
    ensures var e := Act(core, s);
      (e.Halts? ==> e.err != M.ERR_SLEEP) && (e.Aborts? ==> e.err != M.ERR_SLEEP) && (e.Returns? ==> e.err != M.ERR_SLEEP)
  {
  }

  // ---------- The abstract machine ----------

  class Amx {
    const block: M.Block
    var frm: Cell
    var stk: Cell
    var hea: Cell
    var pri: Cell
    var alt: Cell
    var cip: int
    var resetStk: Cell
    var resetHea: Cell
    var paramCount: nat
    var mem: seq<Byte>

    constructor (block: M.Block, stk: Cell, hea: Cell, mem: seq<Byte>)
      ensures this.block == block && this.stk == stk && this.hea == hea && this.mem == mem && paramCount == 0
    {
      this.block, this.stk, this.hea, this.mem := block, stk, hea, mem;
      frm, pri, alt, cip, resetStk, resetHea, paramCount := 0, 0, 0, 0, 0, 0, 0;
    }

    /** The registers that the fields hold. */
    function Saved(): State
      reads this
    {
      M.State(pri, alt, frm, stk, hea, cip, mem)
    }

    /** Instructions until one does not just go on; `n` bounds the run that would not sleep. */
    method Interpret(core: Core, start: State, ghost n: nat) returns (e: Effect, ghost left: nat)
      requires Run(core, start, n).Ended? && Continuable(block, core, start, n)
      ensures !e.Goes? && left < n && Reached(core, start, n, e, left)
    {
      var s := start;
      left := n;
      while true
        invariant left <= n && Run(core, s, left) == Run(core, start, n) && Continuable(block, core, s, left)
        invariant Run(core, s, left).Ended?
        decreases left
      {
        e := Act(core, s);
        EndsAwake(core, s);
        if e.Sleeps? {
          SavedIsContinuedIff(core, s);
          SleepsBehind(core, s);
        }
        left := left - 1;
        if !e.Goes? {
          return;
        }
        s := e.s;
      }
    }

    /** The first instruction of a run that does not go on is `e`, with `left` instructions of the bound left. */
    ghost predicate Reached(core: Core, start: State, n: nat, e: Effect, left: nat) {
      match e
      case Goes(_) => false
      case Sleeps(saved, continued, _) =>
        && saved == continued && M.Refusal(block, saved) == M.ERR_NONE && AsleepBehind(core, e)
        && Run(core, saved, left) == Run(core, start, n) && Continuable(block, core, saved, left)
      case Halts(err, _) => err != M.ERR_SLEEP && Run(core, start, n) == Ended(e)
      case Aborts(err, _) => err != M.ERR_SLEEP && Run(core, start, n) == Ended(e)
      case Returns(err, _) => err != M.ERR_SLEEP && Run(core, start, n) == Ended(e)
    }

    /** The end of a run, by HALT or by ABORT: `stack` and `heap` are what the run gives up to. */
    method Leave(e: Effect, stack: Cell, heap: Cell) returns (err: int, retval: Cell)
      requires !e.Goes?
      modifies this
      ensures paramCount == old(paramCount)
      ensures e.Sleeps? ==> err == M.ERR_SLEEP && Saved() == e.saved && resetStk == stack && resetHea == heap
      ensures e.Sleeps? && e.byHalt ==> retval == e.saved.pri
      ensures e.Halts? ==> err == e.err && retval == e.s.pri && Saved() == e.s.(stk := stack, hea := heap)
      ensures e.Aborts? ==> err == e.err && Saved() == old(Saved()).(stk := stack, hea := heap, mem := e.s.mem)
      ensures e.Returns? ==> err == e.err && Saved() == old(Saved()).(mem := e.s.mem)
    {
      retval := 0;
      match e {
        case Sleeps(saved, _, byHalt) =>
          frm, pri, alt, cip, mem := saved.frm, saved.pri, saved.alt, saved.cip, saved.mem;
          stk, hea, resetStk, resetHea := saved.stk, saved.hea, stack, heap;
          err, retval := M.ERR_SLEEP, if byHalt then saved.pri else 0;
        case Halts(code, s) =>
          frm, pri, alt, cip, mem := s.frm, s.pri, s.alt, s.cip, s.mem;
          stk, hea := stack, heap;
          err, retval := code, s.pri;
        case Aborts(code, s) =>
          stk, hea, mem, err := stack, heap, s.mem, code;
        case Returns(code, s) =>
          mem, err := s.mem, code;
      }
    }

    /** The registers and the memory after the entry has pushed the size of the arguments and a zero return
        address. */
    function Pushed(address: int): State
      requires 2 * CELL_SIZE <= stk <= |mem|
      reads this
    {
      var mem' := Write(Write(mem, stk - CELL_SIZE, S(CELL_SIZE * paramCount)), stk - 2 * CELL_SIZE, 0);
      M.State(0, 0, 0, stk - 2 * CELL_SIZE, hea, address, mem')
    }

    /** A stack pointer that passes the first tests of an entry leaves room for what it pushes. */
    predicate HasRoom()
      reads this
    {
      stk <= block.stp && hea >= block.hlw ==> 2 * CELL_SIZE <= stk <= |mem|
    }

    /** The tests of an entry, before and after it has pushed. */
    function Admitted(address: int): int
      requires HasRoom()
      reads this
    {
      if stk > block.stp then M.ERR_STACKLOW else if hea < block.hlw then M.ERR_HEAPLOW else M.Refusal(block, Pushed(address))
    }

    /** `amx_Exec` of a function at `address`; at its end, the parameters that the host has pushed are given up. */
    method Begin(core: Core, address: int, ghost n: nat) returns (err: int, retval: Cell, ghost e: Effect, ghost left: nat)
      requires HasRoom()
      requires Admitted(address) == M.ERR_NONE ==>
        Run(core, Pushed(address), n).Ended? && Continuable(block, core, Pushed(address), n)
      modifies this
      ensures old(Admitted(address)) != M.ERR_NONE ==>
        err == old(Admitted(address)) && stk == old(stk) && hea == old(hea)
      ensures old(Admitted(address)) == M.ERR_NONE ==>
        paramCount == 0 && Reached(core, old(Pushed(address)), n, e, left) &&
        Concluded(e, S(old(stk) + CELL_SIZE * old(paramCount)), old(hea), err, retval)
    {
      if stk > block.stp {
        return M.ERR_STACKLOW, 0, Returns(M.ERR_STACKLOW, Saved()), 0;
      }
      if hea < block.hlw {
        return M.ERR_HEAPLOW, 0, Returns(M.ERR_HEAPLOW, Saved()), 0;
      }
      var s := Pushed(address);
      var stack, heap := S(stk + CELL_SIZE * paramCount), hea;
      paramCount := 0;
      mem := s.mem;
      var refusal := M.Refusal(block, s);
      if refusal != M.ERR_NONE {
        return refusal, 0, Returns(refusal, s), 0;
      }
      var how;
      how, left := Interpret(core, s, n);
      e := how;
      err, retval := Leave(how, stack, heap);
    }

    /** What the fields and the results hold after a run that ended with `e`. */
    predicate Concluded(e: Effect, stack: Cell, heap: Cell, err: int, retval: Cell)
      reads this
    {
      match e
      case Goes(_) => false
      case Sleeps(saved, _, byHalt) =>
        && err == M.ERR_SLEEP && Saved() == saved && resetStk == stack && resetHea == heap
        && (byHalt ==> retval == saved.pri)
      case Halts(code, s) => err == code && retval == s.pri && Saved() == s.(stk := stack, hea := heap)
      case Aborts(code, s) => err == code && mem == s.mem && stk == stack && hea == heap
      case Returns(code, s) => err == code && mem == s.mem
    }

    /** `amx_Exec` with AMX_EXEC_CONT: all registers come from the fields, and the tests are made again. */
    method Continue(core: Core, ghost n: nat) returns (err: int, retval: Cell, ghost e: Effect, ghost left: nat)
      requires M.Refusal(block, Saved()) == M.ERR_NONE ==> Run(core, Saved(), n).Ended? && Continuable(block, core, Saved(), n)
      modifies this
      ensures paramCount == old(paramCount)
      ensures old(M.Refusal(block, Saved())) != M.ERR_NONE ==>
        err == old(M.Refusal(block, Saved())) && Saved() == old(Saved())
      ensures old(M.Refusal(block, Saved())) == M.ERR_NONE ==>
        Reached(core, old(Saved()), n, e, left) && left < n && Concluded(e, old(resetStk), old(resetHea), err, retval)
    {
      var s := Saved();
      var refusal := M.Refusal(block, s);
      if refusal != M.ERR_NONE {
        return refusal, 0, Returns(refusal, s), 0;
      }
      var how;
      how, left := Interpret(core, s, n);
      e := how;
      err, retval := Leave(how, resetStk, resetHea);
    }

    /** A host that continues the run whenever it sleeps. Sleeping is transparent: the run ends like the one in
        which the sleeping instructions do nothing, with the same result, registers and memory, and what was on
        the stack and heap at the first entry is restored. */
    method RunThrough(core: Core, address: int, ghost n: nat) returns (err: int, retval: Cell, ghost e: Effect)
      requires HasRoom() && Admitted(address) == M.ERR_NONE
      requires Run(core, Pushed(address), n).Ended? && Continuable(block, core, Pushed(address), n)
      modifies this
      ensures old(Run(core, Pushed(address), n)) == Ended(e) && !e.Sleeps?
      ensures Concluded(e, S(old(stk) + CELL_SIZE * old(paramCount)), old(hea), err, retval)
    {
      ghost var stack, heap := S(stk + CELL_SIZE * paramCount), hea;
      ghost var whole := Run(core, Pushed(address), n);
      ghost var left;
      err, retval, e, left := Begin(core, address, n);
      while err == M.ERR_SLEEP
        invariant Concluded(e, stack, heap, err, retval) && (err == M.ERR_SLEEP <==> e.Sleeps?)
        invariant e.Sleeps? ==> M.Refusal(block, e.saved) == M.ERR_NONE
        invariant e.Sleeps? ==> Run(core, e.saved, left) == whole && Continuable(block, core, e.saved, left)
        invariant !e.Sleeps? ==> whole == Ended(e)
        decreases if err == M.ERR_SLEEP then left + 1 else 0
      {
        err, retval, e, left := Continue(core, left);
      }
    }
  }
}
