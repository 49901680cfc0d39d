/** Calls and returns: what pushing, entering a procedure and returning from it undo. */
module Calls {
  import opened Cells
  import opened Opcodes
  import opened Machine
  import opened MemorySafety

  /** The same bytes in both memories. */
  ghost predicate SameBytes(mem: seq<Byte>, mem': seq<Byte>, from: int, to: int) {
    |mem| == |mem'| && forall a :: 0 <= a < |mem| && from <= a < to ==> mem'[a] == mem[a]
  }

  lemma SameRead(mem: seq<Byte>, mem': seq<Byte>, at: int)
    requires Inside(mem, at, CELL_SIZE) && SameBytes(mem, mem', at, at + CELL_SIZE)
    ensures Read(mem', at) == Read(mem, at)
  {
  }

  /** A store changes nothing but its own cell. */
  lemma WriteElsewhere(mem: seq<Byte>, at: int, v: Cell)
    requires Inside(mem, at, CELL_SIZE)
    ensures SameBytes(mem, Write(mem, at, v), 0, at)
    ensures SameBytes(mem, Write(mem, at, v), at + CELL_SIZE, |mem|)
  {
    hide BytesOf;
  }

  /** What one push comes to when there is room. */
  lemma PushIs(b: Block, s: State, v: Cell, skip: nat)
    requires Ordered(b) && Sound(b, s) && s.hea <= s.stk - CELL_SIZE
    ensures Inside(s.mem, s.stk - CELL_SIZE, CELL_SIZE)
    ensures PushValues(s, [v], skip) ==
            Next(s.(stk := s.stk - CELL_SIZE, mem := Write(s.mem, s.stk - CELL_SIZE, v)).Skip(skip))
  {
    hide Write;
    InRange(s.stk - CELL_SIZE);
    var mem' := Write(s.mem, s.stk - CELL_SIZE, v);
    assert [v][1..] == [];
    assert WriteDown(mem', s.stk - CELL_SIZE, []) == (true, mem');
  }

  /** A push without room is refused. */
  lemma PushRefused(b: Block, s: State, v: Cell, skip: nat)
    requires Ordered(b) && Sound(b, s) && s.hea > s.stk - CELL_SIZE
    ensures PushValues(s, [v], skip) == Stop(ERR_STACKERR)
  {
    InRange(s.stk - CELL_SIZE);
  }

  /** A pop undoes a push, into either register. */
  lemma PopUndoesPush(b: Block, s: State, r: Reg, v: Cell)
    requires Ordered(b) && Sound(b, s) && PushValues(s, [v], 0).Next?
    ensures var pushed := PushValues(s, [v], 0).s;
      Pop(b, pushed, r) == Next(pushed.Set(r, v).(stk := s.stk).Skip(0))
  {
    hide Read, Write;
    if s.hea > s.stk - CELL_SIZE {
      PushRefused(b, s, v, 0);
    } else {
      PushIs(b, s, v, 0);
      ReadAfterWrite(s.mem, s.stk - CELL_SIZE, v);
      InRange(s.stk);
    }
  }

  /** The code offset behind a call with `n` operands. */
  function Behind(s: State, n: nat): int {
    s.Skip(n).cip
  }

  /** What a call and the entry of the procedure leave: the return address and the old frame on the stack. */
  lemma Entered(b: Block, s: State, target: int, n: nat)
    requires Ordered(b) && Sound(b, s) && 0 <= Behind(s, n) < CELL_RANGE
    requires Call(s, target, n).Next? && EnterProcedure(Call(s, target, n).s).Next?
    ensures var p := EnterProcedure(Call(s, target, n).s).s;
      && p.stk == s.stk - 2 * CELL_SIZE && p.frm == p.stk && p.hea == s.hea && |p.mem| == |s.mem|
      && 0 <= p.stk && Read(p.mem, p.stk) == s.frm && U(Read(p.mem, p.stk + CELL_SIZE)) == Behind(s, n)
      && SameBytes(s.mem, p.mem, s.stk, |s.mem|)
  {
    hide Read, Write, U, S, SameBytes;
    var ret := S(Behind(s, n));
    if s.hea > s.stk - CELL_SIZE {
      PushRefused(b, s, ret, n);
    }
    PushIs(b, s, ret, n);
    var c := Call(s, target, n).s;
    if c.hea > c.stk - CELL_SIZE {
      PushRefused(b, c, c.frm, 0);
    }
    PushIs(b, c, c.frm, 0);
    var p := EnterProcedure(c).s;
    ReadAfterWrite(s.mem, c.stk, ret);
    ReadAfterWrite(c.mem, p.stk, c.frm);
    WriteElsewhere(s.mem, c.stk, ret);
    WriteElsewhere(c.mem, p.stk, c.frm);
    KeptAbove(s.mem, c.mem, p.mem, p.stk, c.stk, s.stk);
    Unsigned(Behind(s, n));
  }

  lemma KeptAbove(mem: seq<Byte>, mem1: seq<Byte>, mem2: seq<Byte>, low: int, mid: int, top: int)
    requires 0 <= low && low + CELL_SIZE == mid && mid + CELL_SIZE == top && Inside(mem, low, 2 * CELL_SIZE)
    requires SameBytes(mem, mem1, top, |mem|) && SameBytes(mem1, mem2, mid, |mem1|)
    ensures SameBytes(mem, mem2, top, |mem|) && Read(mem2, mid) == Read(mem1, mid)
  {
    hide Read;
    SameRead(mem1, mem2, mid);
  }

  lemma Unsigned(x: int)
    requires 0 <= x < CELL_RANGE
    ensures U(S(x)) == x
  {
  }

  /** A procedure that has restored the stack pointer and kept the two cells below it returns behind the call, with
      the frame and the stack of the caller, whatever else it did. */
  lemma ReturnUndoesCall(b: Block, marks: seq<bool>, s: State, target: int, n: nat, q: State)
    requires Ordered(b) && Sound(b, s) && 0 <= Behind(s, n) < CELL_RANGE && Marked(marks, Behind(s, n))
    requires Call(s, target, n).Next? && EnterProcedure(Call(s, target, n).s).Next?
    requires var p := EnterProcedure(Call(s, target, n).s).s;
      q.stk == p.stk && SameBytes(p.mem, q.mem, p.stk, p.stk + 2 * CELL_SIZE)
    ensures Return(b, marks, q) == Next(q.(stk := s.stk, frm := s.frm, cip := Behind(s, n)))
  {
    hide Read, U, S, Call, EnterProcedure;
    Entered(b, s, target, n);
    var p := EnterProcedure(Call(s, target, n).s).s;
    SameRead(p.mem, q.mem, p.stk);
    SameRead(p.mem, q.mem, p.stk + CELL_SIZE);
    InRange(q.stk + 2 * CELL_SIZE);
  }

  /** RETN also removes the arguments that the caller has pushed, with their size on top. */
  lemma ReturnRemovesArguments(b: Block, marks: seq<bool>, s: State, target: int, n: nat, q: State, size: Cell)
    requires Ordered(b) && Sound(b, s) && 0 <= Behind(s, n) < CELL_RANGE && Marked(marks, Behind(s, n))
    requires Call(s, target, n).Next? && EnterProcedure(Call(s, target, n).s).Next?
    requires var p := EnterProcedure(Call(s, target, n).s).s;
      q.stk == p.stk && SameBytes(p.mem, q.mem, p.stk, p.stk + 3 * CELL_SIZE)
    requires Read(s.mem, s.stk) == size && 0 <= size && s.stk + size + CELL_SIZE <= b.stp
    ensures ReturnArgs(b, marks, q) ==
            Next(q.(stk := s.stk + size + CELL_SIZE, frm := s.frm, cip := Behind(s, n)))
  {
    hide Read, U, S, Call, EnterProcedure, Return;
    Entered(b, s, target, n);
    ReturnUndoesCall(b, marks, s, target, n, q);
    var p := EnterProcedure(Call(s, target, n).s).s;
    SameRead(s.mem, p.mem, s.stk);
    SameRead(p.mem, q.mem, s.stk);
    InRange(s.stk + size + CELL_SIZE);
  }
}
