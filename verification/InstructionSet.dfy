/** What each instruction does to the registers and to the cells of the block: which address it uses, which addresses it
    refuses, what can be read back afterwards, and where the machine goes on. */
module InstructionSet {
  import opened Cells
  import opened Opcodes
  import opened Alu
  import opened Verifier
  import opened Machine
  import opened MemorySafety
  import opened Calls
  import AluLaws

  /** A machine in order, in front of a program of this block. */
  predicate Ready(P: Program, s: State) {
    Laid(P) && Sound(P.block, s)
  }

  // ---------- Operands ----------

  /** Operand `k` is the cell `k` places behind the opcode; as an address, less the base of its section. */
  lemma OperandsAre(P: Program, c: nat, k: nat)
    requires c % 4 == 0 && c / 4 + k < |P.image|
    ensures var x: int := P.image[c / 4 + k];
      && P.Num(c, k) == x && AluLaws.Same(P.DataArg(c, k), x - P.layout.dataBase)
      && P.CodeArg(c, k) < 0x1_0000_0000 && AluLaws.Same(P.CodeArg(c, k), x - P.layout.codeBase)
  {
    hide S, AluLaws.Same;
    var x: int := P.image[c / 4 + k];
    AluLaws.CastIs(x - P.layout.dataBase);
    AluLaws.CastIs(x - P.layout.codeBase);
    UnsignedIs(S(x - P.layout.codeBase), x - P.layout.codeBase);
  }

  lemma UnsignedIs(x: Cell, y: int)
    requires AluLaws.Same(x, y)
    ensures AluLaws.Same(U(x), y)
  {
  }

  // ---------- Addresses ----------

  /** In the data, on the heap or on the stack. */
  predicate InUse(b: Block, s: State, a: int) {
    0 <= a < s.hea || s.stk <= a < b.stp
  }

  predicate OnStack(b: Block, s: State, a: int) {
    s.stk <= a < b.stp
  }

  /** The tests at run time refuse exactly the addresses that are not in use, or not on the stack. */
  lemma TestsRefuseIff(b: Block, s: State, a: Cell)
    requires Ordered(b) && Sound(b, s)
    ensures BadDataAddr(b, s, a) <==> !InUse(b, s, a)
    ensures BadStackAddr(b, s, a) <==> !OnStack(b, s, a)
  {
  }

  // ---------- Loads ----------

  lemma LoadsAre(P: Program, s: State, reply: Reply)
    requires Ready(P, s) && InData(P, P.DataArg(s.cip, 1))
    ensures var v := Read(s.mem, P.DataArg(s.cip, 1));
      && Execute(P, LOAD(PRI), s, reply) == Next(s.(pri := v, cip := s.cip + 8))
      && Execute(P, LOAD(ALT), s, reply) == Next(s.(alt := v, cip := s.cip + 8))
  {
    hide Read, Program.DataArg;
  }

  /** LREF loads the cell whose address is in the cell that LOAD would load. */
  lemma ReferencesAre(P: Program, s: State, reply: Reply)
    requires Ready(P, s) && InData(P, P.DataArg(s.cip, 1))
    ensures var v: int := Read(s.mem, P.DataArg(s.cip, 1));
      if InUse(P.block, s, v) then
        && Execute(P, LREF(PRI), s, reply) == Next(s.(pri := Read(s.mem, v), cip := s.cip + 8))
        && Execute(P, LREF(ALT), s, reply) == Next(s.(alt := Read(s.mem, v), cip := s.cip + 8))
      else Execute(P, LREF(PRI), s, reply) == Execute(P, LREF(ALT), s, reply) == Stop(5)
  {
    hide Read, Program.DataArg, BadDataAddr;
    TestsRefuseIff(P.block, s, Read(s.mem, P.DataArg(s.cip, 1)));
  }

  lemma StackLoadsAre(P: Program, s: State, reply: Reply)
    requires Ready(P, s)
    ensures var a: int := S(s.frm + P.Num(s.cip, 1));
      if OnStack(P.block, s, a) then
        && Execute(P, LOAD_S(PRI), s, reply) == Next(s.(pri := Read(s.mem, a), cip := s.cip + 8))
        && Execute(P, LOAD_S(ALT), s, reply) == Next(s.(alt := Read(s.mem, a), cip := s.cip + 8))
      else Execute(P, LOAD_S(PRI), s, reply) == Execute(P, LOAD_S(ALT), s, reply) == Stop(5)
  {
    hide Read, S, Program.Num, BadStackAddr;
    TestsRefuseIff(P.block, s, S(s.frm + P.Num(s.cip, 1)));
  }

  lemma StackReferencesAre(P: Program, s: State, reply: Reply)
    requires Ready(P, s)
    ensures var a: int := S(s.frm + P.Num(s.cip, 1));
      if OnStack(P.block, s, a) && InUse(P.block, s, Read(s.mem, a)) then
        var v: int := Read(s.mem, a);
        && Execute(P, LREF_S(PRI), s, reply) == Next(s.(pri := Read(s.mem, v), cip := s.cip + 8))
        && Execute(P, LREF_S(ALT), s, reply) == Next(s.(alt := Read(s.mem, v), cip := s.cip + 8))
      else Execute(P, LREF_S(PRI), s, reply) == Execute(P, LREF_S(ALT), s, reply) == Stop(5)
  {
    hide Read, S, Program.Num, BadStackAddr, BadDataAddr;
    var a: Cell := S(s.frm + P.Num(s.cip, 1));
    TestsRefuseIff(P.block, s, a);
    if OnStack(P.block, s, a) {
      TestsRefuseIff(P.block, s, Read(s.mem, a));
    }
  }

  /** LOAD.I and LIDX: through PRI, and from the array in ALT at the index in PRI. */
  lemma IndexedLoadsAre(P: Program, s: State, reply: Reply)
    requires Ready(P, s)
    ensures var a: int := s.pri;
      Execute(P, LOAD_I, s, reply) == if InUse(P.block, s, a) then
        Next(s.(pri := Read(s.mem, a), cip := s.cip + 4)) else Stop(5)
    ensures var a: int := S(s.alt + 4 * s.pri);
      Execute(P, LIDX, s, reply) == if InUse(P.block, s, a) then
        Next(s.(pri := Read(s.mem, a), cip := s.cip + 4)) else Stop(5)
    ensures var a: int := S(s.alt + ShiftLeft(s.pri, P.Num(s.cip, 1)));
      Execute(P, LIDX_B, s, reply) == if InUse(P.block, s, a) then
        Next(s.(pri := Read(s.mem, a), cip := s.cip + 8)) else Stop(5)
  {
    hide Read, S, Program.Num, BadDataAddr, ShiftLeft;
    TestsRefuseIff(P.block, s, s.pri);
    TestsRefuseIff(P.block, s, S(s.alt + 4 * s.pri));
    TestsRefuseIff(P.block, s, S(s.alt + ShiftLeft(s.pri, P.Num(s.cip, 1))));
  }

  lemma LoadsOfTwoAre(P: Program, s: State, reply: Reply)
    requires Ready(P, s)
    ensures InData(P, P.DataArg(s.cip, 1)) && InData(P, P.DataArg(s.cip, 2)) ==>
              var v, w := Read(s.mem, P.DataArg(s.cip, 1)), Read(s.mem, P.DataArg(s.cip, 2));
              Execute(P, LOAD_BOTH, s, reply) == Next(s.(pri := v, alt := w, cip := s.cip + 12))
    ensures var a: int, b: int := S(s.frm + P.Num(s.cip, 1)), S(s.frm + P.Num(s.cip, 2));
      Execute(P, LOAD_S_BOTH, s, reply) ==
      if OnStack(P.block, s, a) && OnStack(P.block, s, b) then
        Next(s.(pri := Read(s.mem, a), alt := Read(s.mem, b), cip := s.cip + 12))
      else Stop(5)
  {
    hide Read, S, Program.Num, Program.DataArg, BadStackAddr;
    TestsRefuseIff(P.block, s, S(s.frm + P.Num(s.cip, 1)));
    TestsRefuseIff(P.block, s, S(s.frm + P.Num(s.cip, 2)));
  }

  /** LODB.I: the byte at PRI, the two bytes from there on, or the cell. */
  lemma ByteLoadsAre(P: Program, s: State, reply: Reply)
    requires Ready(P, s) && P.Num(s.cip, 1) in {1, 2, 4}
    ensures var a: int := s.pri;
      Execute(P, LODB_I, s, reply) ==
      if InUse(P.block, s, a) then
        var v: Cell :=
          if P.Num(s.cip, 1) == 1 then s.mem[a]
          else if P.Num(s.cip, 1) == 2 then 0x100 * s.mem[a + 1] + s.mem[a]
          else Read(s.mem, a);
        Next(s.(pri := v, cip := s.cip + 8))
      else Stop(5)
  {
    hide Read, Program.Num, BadDataAddr, S, ReadBytes;
    TestsRefuseIff(P.block, s, s.pri);
    if InUse(P.block, s, s.pri) {
      BytesAre(s.mem, s.pri);
    }
  }

  lemma BytesAre(mem: seq<Byte>, a: nat)
    requires a + 4 <= |mem|
    ensures var b0: int, b1: int := mem[a], mem[a + 1];
      S(ReadBytes(mem, a, 1)) == b0 && S(ReadBytes(mem, a, 2)) == b0 + 0x100 * b1 &&
        S(ReadBytes(mem, a, 4)) == Read(mem, a)
  {
    hide S;
    var b0: int, b1: int, b2: int, b3: int := mem[a], mem[a + 1], mem[a + 2], mem[a + 3];
    assert ReadBytes(mem, a + 3, 1) == b3;
    assert ReadBytes(mem, a + 2, 2) == b2 + 0x100 * b3;
    assert ReadBytes(mem, a + 1, 3) == b1 + 0x100 * b2 + 0x1_0000 * b3;
    assert ReadBytes(mem, a + 1, 1) == b1;
    InRange(b0);
    InRange(b0 + 0x100 * b1);
  }

  // ---------- Stores ----------

  lemma StoresAre(P: Program, s: State, reply: Reply)
    requires Ready(P, s) && InData(P, P.DataArg(s.cip, 1))
    ensures var a: int := P.DataArg(s.cip, 1);
      && Execute(P, STOR(PRI), s, reply) == Next(s.(mem := Write(s.mem, a, s.pri), cip := s.cip + 8))
      && Execute(P, STOR(ALT), s, reply) == Next(s.(mem := Write(s.mem, a, s.alt), cip := s.cip + 8))
      && Execute(P, ZERO, s, reply) == Next(s.(mem := Write(s.mem, a, 0), cip := s.cip + 8))
  {
    hide Write, Program.DataArg;
  }

  lemma StoredReferencesAre(P: Program, s: State, reply: Reply)
    requires Ready(P, s) && InData(P, P.DataArg(s.cip, 1))
    ensures var v: int := Read(s.mem, P.DataArg(s.cip, 1));
      if InUse(P.block, s, v) then
        && Execute(P, SREF(PRI), s, reply) == Next(s.(mem := Write(s.mem, v, s.pri), cip := s.cip + 8))
        && Execute(P, SREF(ALT), s, reply) == Next(s.(mem := Write(s.mem, v, s.alt), cip := s.cip + 8))
      else Execute(P, SREF(PRI), s, reply) == Execute(P, SREF(ALT), s, reply) == Stop(5)
  {
    hide Read, Write, Program.DataArg, BadDataAddr;
    TestsRefuseIff(P.block, s, Read(s.mem, P.DataArg(s.cip, 1)));
  }

  lemma StackStoresAre(P: Program, s: State, reply: Reply)
    requires Ready(P, s)
    ensures var a: int := S(s.frm + P.Num(s.cip, 1));
      if OnStack(P.block, s, a) then
        && Execute(P, STOR_S(PRI), s, reply) == Next(s.(mem := Write(s.mem, a, s.pri), cip := s.cip + 8))
        && Execute(P, STOR_S(ALT), s, reply) == Next(s.(mem := Write(s.mem, a, s.alt), cip := s.cip + 8))
        && Execute(P, ZERO_S, s, reply) == Next(s.(mem := Write(s.mem, a, 0), cip := s.cip + 8))
      else
        && Execute(P, STOR_S(PRI), s, reply) == Execute(P, STOR_S(ALT), s, reply) == Stop(5)
        && Execute(P, ZERO_S, s, reply) == Stop(5)
  {
    hide Write, S, Program.Num, BadStackAddr;
    TestsRefuseIff(P.block, s, S(s.frm + P.Num(s.cip, 1)));
  }

  lemma StackStoredReferencesAre(P: Program, s: State, reply: Reply)
    requires Ready(P, s)
    ensures var a: int := S(s.frm + P.Num(s.cip, 1));
      if OnStack(P.block, s, a) && InUse(P.block, s, Read(s.mem, a)) then
        var v: int := Read(s.mem, a);
        && Execute(P, SREF_S(PRI), s, reply) == Next(s.(mem := Write(s.mem, v, s.pri), cip := s.cip + 8))
        && Execute(P, SREF_S(ALT), s, reply) == Next(s.(mem := Write(s.mem, v, s.alt), cip := s.cip + 8))
      else Execute(P, SREF_S(PRI), s, reply) == Execute(P, SREF_S(ALT), s, reply) == Stop(5)
  {
    hide Read, Write, S, Program.Num, BadStackAddr, BadDataAddr;
    var a: Cell := S(s.frm + P.Num(s.cip, 1));
    TestsRefuseIff(P.block, s, a);
    if OnStack(P.block, s, a) {
      TestsRefuseIff(P.block, s, Read(s.mem, a));
    }
  }

  /** STOR.I and STRB.I: at the address in ALT, the cell in PRI or its lowest byte or two. */
  lemma IndirectStoresAre(P: Program, s: State, reply: Reply)
    requires Ready(P, s) && P.Num(s.cip, 1) in {1, 2, 4}
    ensures var a: int := s.alt;
      Execute(P, STOR_I, s, reply) == if InUse(P.block, s, a) then
        Next(s.(mem := Write(s.mem, a, s.pri), cip := s.cip + 4)) else Stop(5)
    ensures var a: int := s.alt;
      Execute(P, STRB_I, s, reply) ==
      if InUse(P.block, s, a) then
        var mem :=
          if P.Num(s.cip, 1) == 1 then s.mem[a := s.pri % 0x100]
          else if P.Num(s.cip, 1) == 2 then s.mem[a := s.pri % 0x100][a + 1 := s.pri / 0x100 % 0x100]
          else Write(s.mem, a, s.pri);
        Next(s.(mem := mem, cip := s.cip + 8))
      else Stop(5)
  {
    hide Program.Num, BadDataAddr, S, Patch, BytesOf;
    TestsRefuseIff(P.block, s, s.alt);
    if InUse(P.block, s, s.alt) {
      PatchesAre(s.mem, s.alt, s.pri);
    }
  }

  lemma PatchesAre(mem: seq<Byte>, a: nat, v: Cell)
    requires a + 4 <= |mem|
    ensures Patch(mem, a, BytesOf(v, 1)) == mem[a := v % 0x100]
    ensures Patch(mem, a, BytesOf(v, 2)) == mem[a := v % 0x100][a + 1 := v / 0x100 % 0x100]
  {
    LowBytes(v);
    assert BytesOf(v, 1) == [U(v) % 0x100] && BytesOf(v, 2) == [U(v) % 0x100, U(v) / 0x100 % 0x100];
  }

  lemma LowBytes(v: Cell)
    ensures U(v) % 0x100 == v % 0x100 && U(v) / 0x100 % 0x100 == v / 0x100 % 0x100
  {
    var x: int := v;
    assert (x + 0x1_0000_0000) / 0x100 == x / 0x100 + 0x100_0000;
  }

  /** INC and DEC: what is added wraps to a cell. INC.I and DEC.I step over a cell they do not have. */
  lemma StepsAre(P: Program, s: State, delta: int, reply: Reply)
    requires Ready(P, s)
    ensures var a: int := P.DataArg(s.cip, 1);
      InData(P, P.DataArg(s.cip, 1)) ==>
        Execute(P, STEP(delta), s, reply) ==
          Next(s.(mem := Write(s.mem, a, S(Read(s.mem, a) + delta)), cip := s.cip + 8))
    ensures var a: int := S(s.frm + P.Num(s.cip, 1));
      Execute(P, STEP_S(delta), s, reply) ==
      if OnStack(P.block, s, a) then
        Next(s.(mem := Write(s.mem, a, S(Read(s.mem, a) + delta)), cip := s.cip + 8)) else Stop(5)
    ensures var a: int := s.pri;
      Execute(P, STEP_I(delta), s, reply) ==
      if InUse(P.block, s, a) then
        Next(s.(mem := Write(s.mem, a, S(Read(s.mem, a) + delta)), cip := s.cip + 8)) else Stop(5)
  {
    hide Read, Write, S, Program.Num, Program.DataArg, BadStackAddr, BadDataAddr;
    TestsRefuseIff(P.block, s, S(s.frm + P.Num(s.cip, 1)));
    TestsRefuseIff(P.block, s, s.pri);
  }

  /** CONST and CONST.S store their second operand. */
  lemma ConstantsAre(P: Program, s: State, reply: Reply)
    requires Ready(P, s)
    ensures var a: int, v := P.DataArg(s.cip, 1), P.Num(s.cip, 2);
      0 <= a <= P.block.stp ==> Execute(P, CONST, s, reply) == Next(s.(mem := Write(s.mem, a, v), cip := s.cip + 12))
    ensures var a: int, v := S(s.frm + P.Num(s.cip, 1)), P.Num(s.cip, 2);
      Execute(P, CONST_S, s, reply) ==
      if OnStack(P.block, s, a) then Next(s.(mem := Write(s.mem, a, v), cip := s.cip + 12)) else Stop(5)
  {
    hide Write, S, Program.Num, Program.DataArg, BadStackAddr;
    TestsRefuseIff(P.block, s, S(s.frm + P.Num(s.cip, 1)));
  }

  // ---------- Pushes ----------

  /** `mem'` is `mem` with `vs` below `top`, the first of them highest. */
  ghost predicate Pushed(mem: seq<Byte>, mem': seq<Byte>, top: int, vs: seq<Cell>) {
    && |mem'| == |mem| && 4 * |vs| <= top <= |mem|
    && (forall k :: 0 <= k < |vs| ==> Read(mem', top - 4 * (k + 1)) == vs[k])
    && SameBytes(mem, mem', 0, top - 4 * |vs|) && SameBytes(mem, mem', top, |mem|)
  }

  lemma {:induction false} WrittenDown(mem: seq<Byte>, top: int, vs: seq<Cell>)
    requires 4 * |vs| <= top <= |mem|
    ensures WriteDown(mem, top, vs).0 && Pushed(mem, WriteDown(mem, top, vs).1, top, vs)
    decreases |vs|
  {
    hide Read, Write;
    if vs != [] {
      var mem1 := Write(mem, top - 4, vs[0]);
      WrittenDown(mem1, top - 4, vs[1..]);
      WriteElsewhere(mem, top - 4, vs[0]);
      ReadAfterWrite(mem, top - 4, vs[0]);
      OneMore(mem, mem1, WriteDown(mem1, top - 4, vs[1..]).1, top, vs);
    }
  }

  lemma OneMore(mem: seq<Byte>, mem1: seq<Byte>, mem': seq<Byte>, top: int, vs: seq<Cell>)
    requires vs != [] && 4 * |vs| <= top <= |mem| && |mem1| == |mem|
    requires SameBytes(mem, mem1, 0, top - 4) && SameBytes(mem, mem1, top, |mem|) && Read(mem1, top - 4) == vs[0]
    requires Pushed(mem1, mem', top - 4, vs[1..])
    ensures Pushed(mem, mem', top, vs)
  {
    hide Read;
    SameRead(mem1, mem', top - 4);
    forall k | 0 <= k < |vs|
      ensures Read(mem', top - 4 * (k + 1)) == vs[k]
    {
      if k > 0 {
        assert vs[1..][k - 1] == vs[k] && top - 4 - 4 * ((k - 1) + 1) == top - 4 * (k + 1);
      }
    }
  }

  /** All pushes: refused exactly if the new top of the stack would be below the heap. */
  lemma PushIs(b: Block, s: State, vs: seq<Cell>, skip: nat)
    requires Ordered(b) && Sound(b, s) && |vs| < 0x1000_0000
    ensures var o := PushValues(s, vs, skip);
      if s.hea <= s.stk - 4 * |vs| then
        && o.Next? && Pushed(s.mem, o.s.mem, s.stk, vs)
        && o.s == s.(stk := s.stk - 4 * |vs|, mem := o.s.mem, cip := s.cip + 4 + 4 * skip)
      else o == Stop(3)
  {
    hide Pushed, WriteDown, S;
    InRange(s.stk - 4 * |vs|);
    if s.hea <= s.stk - 4 * |vs| {
      WrittenDown(s.mem, s.stk, vs);
    }
  }

  /** What an instruction that pushes `vs` and has `n` operands does. */
  ghost predicate Pushes(o: Outcome, s: State, vs: seq<Cell>, n: nat) {
    if s.hea <= s.stk - 4 * |vs| then
      && o.Next? && Pushed(s.mem, o.s.mem, s.stk, vs)
      && o.s == s.(stk := s.stk - 4 * |vs|, mem := o.s.mem, cip := s.cip + 4 + 4 * n)
    else o == Stop(3)
  }

  lemma RegisterPushesAre(P: Program, s: State, reply: Reply)
    requires Ready(P, s)
    ensures Pushes(Execute(P, PUSH_REG(PRI), s, reply), s, [s.pri], 0)
    ensures Pushes(Execute(P, PUSH_REG(ALT), s, reply), s, [s.alt], 0)
  {
    hide Pushed, PushValues;
    PushIs(P.block, s, [s.pri], 0);
    PushIs(P.block, s, [s.alt], 0);
  }

  /** PUSH.C to PUSH5.C push their operands, PUSH.ADR to PUSH5.ADR the addresses in the frame. */
  lemma ConstantPushesAre(P: Program, s: State, n: nat, vs: seq<Cell>, reply: Reply)
    requires Ready(P, s) && n < 0x1000_0000 && |vs| == n
    ensures (forall k :: 0 <= k < n ==> vs[k] == P.Num(s.cip, k + 1)) ==>
      Pushes(Execute(P, PUSH_C(n), s, reply), s, vs, n)
    ensures (forall k :: 0 <= k < n ==> vs[k] == S(s.frm + P.Num(s.cip, k + 1))) ==>
              Pushes(Execute(P, PUSH_ADR(n), s, reply), s, vs, n)
  {
    hide Pushed, PushValues, Program.Num, S;
    PushIs(P.block, s, vs, n);
    if forall k :: 0 <= k < n ==> vs[k] == P.Num(s.cip, k + 1) {
      assert P.Nums(s.cip, n) == vs;
    }
    if forall k :: 0 <= k < n ==> vs[k] == S(s.frm + P.Num(s.cip, k + 1)) {
      assert FrameAddrs(s, P.Nums(s.cip, n)) == vs;
    }
  }

  /** PUSH.R pushes PRI as often as its operand says; a negative count takes cells away. */
  lemma RepeatedPushIs(P: Program, s: State, reply: Reply)
    requires Ready(P, s)
    ensures var n: int := P.Num(s.cip, 1);
      0 < n < 0x1000_0000 ==> Pushes(Execute(P, PUSH_R, s, reply), s, seq(n, _ => s.pri), 1)
    ensures var n: int := P.Num(s.cip, 1);
      -0x1000_0000 < n <= 0 ==> Execute(P, PUSH_R, s, reply) == Next(s.(stk := s.stk - 4 * n, cip := s.cip + 8))
  {
    hide Pushed, WriteDown, Program.Num, S;
    var n: int := P.Num(s.cip, 1);
    if 0 < n < 0x1000_0000 {
      InRange(s.stk - 4 * n);
      PushIs(P.block, s, seq(n, _ => s.pri), 1);
    } else if -0x1000_0000 < n <= 0 {
      InRange(s.stk - 4 * n);
    }
  }

  /** Each cell of `from` that the pushes do not touch is found again below `top`. */
  ghost predicate Copied(mem: seq<Byte>, mem': seq<Byte>, top: int, from: seq<Cell>) {
    && |mem'| == |mem| && 4 * |from| <= top <= |mem|
    && (forall k :: 0 <= k < |from| && Inside(mem, from[k], 4) && Apart(from[k], top, |from|) ==>
          Read(mem', top - 4 * (k + 1)) == Read(mem, from[k]))
    && SameBytes(mem, mem', 0, top - 4 * |from|) && SameBytes(mem, mem', top, |mem|)
  }

  predicate Apart(a: int, top: int, n: nat) {
    a + 4 <= top - 4 * n || top <= a
  }

  lemma {:induction false} CopiedDown(mem: seq<Byte>, top: int, from: seq<Cell>)
    requires 4 * |from| <= top <= |mem| && forall k :: 0 <= k < |from| ==> Inside(mem, from[k], 4)
    ensures CopyDown(mem, top, from).0 && Copied(mem, CopyDown(mem, top, from).1, top, from)
    decreases |from|
  {
    hide Read, Write;
    if from != [] {
      var v := Read(mem, from[0]);
      var mem1 := Write(mem, top - 4, v);
      CopiedDown(mem1, top - 4, from[1..]);
      WriteElsewhere(mem, top - 4, v);
      ReadAfterWrite(mem, top - 4, v);
      OneMoreCopied(mem, mem1, CopyDown(mem1, top - 4, from[1..]).1, top, from);
    }
  }

  lemma OneMoreCopied(mem: seq<Byte>, mem1: seq<Byte>, mem': seq<Byte>, top: int, from: seq<Cell>)
    requires from != [] && 4 * |from| <= top <= |mem| && |mem1| == |mem| && Inside(mem, from[0], 4)
    requires SameBytes(mem, mem1, 0, top - 4) && SameBytes(mem, mem1, top, |mem|) &&
      Read(mem1, top - 4) == Read(mem, from[0])
    requires Copied(mem1, mem', top - 4, from[1..])
    ensures Copied(mem, mem', top, from)
  {
    hide Read;
    SameRead(mem1, mem', top - 4);
    forall k | 0 <= k < |from| && Inside(mem, from[k], 4) && Apart(from[k], top, |from|)
      ensures Read(mem', top - 4 * (k + 1)) == Read(mem, from[k])
    {
      if k > 0 {
        assert from[1..][k - 1] == from[k] && top - 4 - 4 * ((k - 1) + 1) == top - 4 * (k + 1);
        SameRead(mem, mem1, from[k]);
      }
    }
  }

  /** What an instruction that pushes the cells at `from` and has `n` operands does. */
  ghost predicate PushesCells(o: Outcome, s: State, from: seq<Cell>, n: nat) {
    if s.hea <= s.stk - 4 * |from| then
      && o.Next? && Copied(s.mem, o.s.mem, s.stk, from)
      && o.s == s.(stk := s.stk - 4 * |from|, mem := o.s.mem, cip := s.cip + 4 + 4 * n)
    else o == Stop(3)
  }

  lemma CopyIs(b: Block, s: State, from: seq<Cell>, skip: nat)
    requires Ordered(b) && Sound(b, s) && |from| < 0x1000_0000 &&
      forall k :: 0 <= k < |from| ==> Inside(s.mem, from[k], 4)
    ensures PushesCells(PushCopies(s, from, skip), s, from, skip)
  {
    hide Copied, CopyDown, S;
    InRange(s.stk - 4 * |from|);
    if s.hea <= s.stk - 4 * |from| {
      CopiedDown(s.mem, s.stk, from);
    }
  }

  /** PUSH to PUSH5. */
  lemma CellPushesAre(P: Program, s: State, n: nat, from: seq<Cell>, reply: Reply)
    requires Ready(P, s) && n < 0x1000_0000 && |from| == n
    requires forall k :: 0 <= k < n ==> from[k] == P.DataArg(s.cip, k + 1) && InData(P, from[k])
    ensures PushesCells(Execute(P, PUSH(n), s, reply), s, from, n)
  {
    hide Copied, PushCopies, Program.DataArg;
    assert P.DataArgs(s.cip, n) == from;
    CopyIs(P.block, s, from, n);
  }

  /** PUSH.S refuses a cell that is not on the stack before it looks for room, the others look for room first and take
      the place of the pushed cells for stack as well. */
  lemma StackPushesAre(P: Program, s: State, n: nat, from: seq<Cell>, reply: Reply)
    requires Ready(P, s) && n < 0x1000_0000 && |from| == n
    requires forall k :: 0 <= k < n ==> from[k] == S(s.frm + P.Num(s.cip, k + 1))
    ensures var o := Execute(P, PUSH_S(n), s, reply);
      if n == 1 then if OnStack(P.block, s, from[0]) then PushesCells(o, s, from, 1) else o == Stop(5)
      else if s.hea <= s.stk - 4 * n && !forall k :: 0 <= k < n ==> s.stk - 4 * n <= from[k] < P.block.stp then o == Stop(5)
      else PushesCells(o, s, from, n)
  {
    hide Copied, PushCopies, Program.Num, S;
    assert FrameAddrs(s, P.Nums(s.cip, n)) == from;
    if n == 1 {
      assert [from[0]] == from;
      if OnStack(P.block, s, from[0]) {
        CopyIs(P.block, s, from, 1);
      }
    } else {
      InRange(s.stk - 4 * n);
      if s.hea <= s.stk - 4 * n && forall k :: 0 <= k < n ==> s.stk - 4 * n <= from[k] < P.block.stp {
        CopyIs(P.block, s, from, n);
      }
    }
  }

  // ---------- Stack and heap ----------

  /** POP takes the top of the stack, unless it is already empty. */
  lemma PopsAre(P: Program, s: State, reply: Reply)
    requires Ready(P, s)
    ensures var v := Read(s.mem, s.stk);
      if s.stk + 4 <= P.block.stp then
        && Execute(P, POP(PRI), s, reply) == Next(s.(pri := v, stk := s.stk + 4, cip := s.cip + 4))
        && Execute(P, POP(ALT), s, reply) == Next(s.(alt := v, stk := s.stk + 4, cip := s.cip + 4))
      else Execute(P, POP(PRI), s, reply) == Execute(P, POP(ALT), s, reply) == Stop(7)
  {
    hide Read, S;
    InRange(s.stk + 4);
  }

  /** SWAP exchanges a register with the top of the stack. */
  lemma SwapsAre(P: Program, s: State, reply: Reply)
    requires Ready(P, s)
    ensures var v := Read(s.mem, s.stk);
      && Execute(P, SWAP(PRI), s, reply) == Next(s.(pri := v, mem := Write(s.mem, s.stk, s.pri), cip := s.cip + 4))
      && Execute(P, SWAP(ALT), s, reply) == Next(s.(alt := v, mem := Write(s.mem, s.stk, s.alt), cip := s.cip + 4))
  {
    hide Read, Write;
  }

  /** STACK and HEAP move their pointer, tell the old one in ALT, keep 16 cells between heap and stack and stay between
      the bounds of the block. */
  lemma MovesAre(P: Program, s: State, reply: Reply)
    requires Ready(P, s) && Magnitude(P.Num(s.cip, 1)) < P.layout.stackSize
    ensures var n: int := P.Num(s.cip, 1);
      Execute(P, STACK, s, reply) ==
      if s.stk + n < s.hea + 64 then Stop(3) else if s.stk + n > P.block.stp then Stop(7)
      else Next(s.(alt := s.stk, stk := s.stk + n, cip := s.cip + 8))
    ensures var n: int := P.Num(s.cip, 1);
      Execute(P, HEAP, s, reply) ==
      if s.stk < s.hea + n + 64 then Stop(3) else if s.hea + n < P.block.hlw then Stop(8)
      else Next(s.(alt := s.hea, hea := s.hea + n, cip := s.cip + 8))
  {
    hide S, Program.Num;
    var n: int := P.Num(s.cip, 1);
    InRange(s.stk + n);
    InRange(s.hea + n);
    InRange(s.hea + 64);
    InRange(s.hea + n + 64);
  }

  // ---------- Calls ----------

  ghost predicate CallsTo(o: Outcome, s: State, target: int, back: int) {
    if s.hea <= s.stk - 4 then
      o.Next? && Pushed(s.mem, o.s.mem, s.stk, [S(back)]) && o.s == s.(stk := s.stk - 4, mem := o.s.mem, cip := target)
    else o == Stop(3)
  }

  /** PROC saves the frame and starts a new one there. */
  lemma ProcedureStartIs(P: Program, s: State, reply: Reply)
    requires Ready(P, s)
    ensures var o := Execute(P, PROC, s, reply);
      if s.hea <= s.stk - 4 then
        o.Next? && Pushed(s.mem, o.s.mem, s.stk, [s.frm]) &&
        o.s == s.(stk := s.stk - 4, frm := s.stk - 4, mem := o.s.mem, cip := s.cip + 4)
      else o == Stop(3)
  {
    hide Pushed, PushValues, S;
    PushIs(P.block, s, [s.frm], 0);
  }

  /** CALL and CALL.PRI push the address behind them and go to a code address, which CALL.PRI tests against the size of
      the code alone. */
  lemma CallsAre(P: Program, s: State, reply: Reply)
    requires Ready(P, s)
    ensures CallsTo(Execute(P, CALL, s, reply), s, P.CodeArg(s.cip, 1), s.cip + 8)
    ensures var o := Execute(P, CALL_PRI, s, reply);
      if U(s.pri) < 4 * P.layout.codeCells && s.pri % 4 == 0 then CallsTo(o, s, U(s.pri), s.cip + 4) else o == Stop(5)
  {
    hide Pushed, PushValues, Program.CodeArg, S;
    PushIs(P.block, s, [S(s.cip + 8)], 1);
    PushIs(P.block, s, [S(s.cip + 4)], 0);
  }

  /** RET takes frame and return address from the stack and refuses an address that is no marked start; RETN also takes
      the arguments, of the size that it finds behind them. */
  lemma ReturnsAre(P: Program, s: State, reply: Reply)
    requires Ready(P, s)
    ensures var o := Execute(P, RET, s, reply);
      if s.stk + 8 > P.block.stp then o == Stop(7)
      else
        var back: int := U(Read(s.mem, s.stk + 4));
        if back % 4 == 0 && back / 4 < |P.marks| && P.marks[back / 4] then
          o == Next(s.(frm := Read(s.mem, s.stk), stk := s.stk + 8, cip := back))
        else o == Stop(5)
  {
    hide Read, S, U;
    InRange(s.stk + 8);
  }

  lemma ReturnWithArgumentsIs(P: Program, s: State, reply: Reply)
    requires Ready(P, s)
    ensures var o := Execute(P, RETN, s, reply);
      if s.stk + 8 > P.block.stp then o == Stop(7)
      else
        var back: int := U(Read(s.mem, s.stk + 4));
        if back % 4 == 0 && back / 4 < |P.marks| && P.marks[back / 4] then
          var stk' := S(s.stk + 12 + Read(s.mem, s.stk + 8));
          o == if stk' > P.block.stp then Stop(7) else Next(s.(frm := Read(s.mem, s.stk), stk := stk', cip := back))
        else o == Stop(5)
  {
    hide Read, S, U;
    InRange(s.stk + 8);
  }

  // ---------- Blocks ----------

  /** A block of `size` bytes at `a` is refused if its first or its last byte is not in use, and by two comparisons of
      the size with the tops of heap and stack. */
  predicate Refused(b: Block, s: State, a: int, size: int) {
    !InUse(b, s, a) || !InUse(b, s, a + size - 1) || a <= s.hea <= size || a <= s.stk <= size
  }

  lemma BlocksRefusedIff(b: Block, s: State, a: Cell, size: Cell)
    requires Ordered(b) && Sound(b, s) && size >= 0
    ensures BadBlock(b, s, a, size) <==> Refused(b, s, a, size)
  {
    hide BadDataAddr;
    TestsRefuseIff(b, s, a);
    if InUse(b, s, a) {
      TestsRefuseIff(b, s, S(a + size - 1));
      if a + size - 1 < 0x8000_0000 {
        InRange(a + size - 1);
      } else {
        Overflows(a + size - 1);
      }
    }
  }

  /** MOVS copies the block at PRI to ALT and touches nothing else. */
  lemma BlockMoveIs(P: Program, s: State, reply: Reply)
    requires Ready(P, s) && P.Num(s.cip, 1) >= 0
    ensures var o, n: int, from: int, to: int := Execute(P, MOVS, s, reply), P.Num(s.cip, 1), s.pri, s.alt;
      if Refused(P.block, s, from, n) || Refused(P.block, s, to, n) then o == Stop(5)
      else
        && o.Next? && o.s == s.(mem := o.s.mem, cip := s.cip + 8) && |o.s.mem| == |s.mem|
        && o.s.mem[to..to + n] == s.mem[from..from + n]
        && SameBytes(s.mem, o.s.mem, 0, to) && SameBytes(s.mem, o.s.mem, to + n, |s.mem|)
  {
    hide Program.Num, BadBlock;
    BlocksRefusedIff(P.block, s, s.pri, P.Num(s.cip, 1));
    BlocksRefusedIff(P.block, s, s.alt, P.Num(s.cip, 1));
  }

  /** The first difference decides, bytes without a sign. */
  ghost predicate Compared(x: seq<Byte>, y: seq<Byte>, r: int) {
    && |x| == |y| && (r == 0 <==> x == y)
    && forall k :: 0 <= k < |x| && x[..k] == y[..k] ==> (x[k] < y[k] ==> r < 0) && (x[k] > y[k] ==> r > 0)
  }

  lemma DifferentStarts(x: seq<Byte>, y: seq<Byte>, k: nat)
    requires |x| == |y| && 0 < k <= |x| && x[0] != y[0]
    ensures x[..k] != y[..k]
  {
    assert x[..k][0] == x[0] && y[..k][0] == y[0];
  }

  lemma {:induction false} ComparisonIs(x: seq<Byte>, y: seq<Byte>)
    requires |x| == |y|
    ensures Compared(x, y, CompareBytes(x, y))
    decreases |x|
  {
    if x != [] && x[0] == y[0] {
      ComparisonIs(x[1..], y[1..]);
      assert x == [x[0]] + x[1..] && y == [y[0]] + y[1..];
      forall k | 0 <= k < |x| && x[..k] == y[..k]
        ensures (x[k] < y[k] ==> CompareBytes(x, y) < 0) && (x[k] > y[k] ==> CompareBytes(x, y) > 0)
      {
        if k > 0 {
          assert x[1..][..k - 1] == x[..k][1..] && y[1..][..k - 1] == y[..k][1..];
          assert x[1..][k - 1] == x[k] && y[1..][k - 1] == y[k];
        }
      }
    } else if x != [] {
      forall k | 0 < k < |x|
        ensures x[..k] != y[..k]
      {
        DifferentStarts(x, y, k);
      }
    }
  }

  /** CMPS leaves the result of comparing the block at ALT with the one at PRI. */
  lemma BlockComparisonIs(P: Program, s: State, reply: Reply)
    requires Ready(P, s) && P.Num(s.cip, 1) >= 0
    ensures var o, n: int, p: int, a: int := Execute(P, CMPS, s, reply), P.Num(s.cip, 1), s.pri, s.alt;
      if Refused(P.block, s, p, n) || Refused(P.block, s, a, n) then o == Stop(5)
      else o.Next? && o.s == s.(pri := o.s.pri, cip := s.cip + 8) && Compared(s.mem[a..a + n], s.mem[p..p + n], o.s.pri)
  {
    hide Program.Num, BadBlock, CompareBytes, Compared;
    var n: int, p: int, a: int := P.Num(s.cip, 1), s.pri, s.alt;
    BlocksRefusedIff(P.block, s, s.pri, P.Num(s.cip, 1));
    BlocksRefusedIff(P.block, s, s.alt, P.Num(s.cip, 1));
    if !Refused(P.block, s, p, n) && !Refused(P.block, s, a, n) {
      ComparisonIs(s.mem[a..a + n], s.mem[p..p + n]);
    }
  }

  /** `n` cells `v` from `a` on, and nothing else. */
  ghost predicate Filled(mem: seq<Byte>, mem': seq<Byte>, a: int, n: nat, v: Cell) {
    && |mem'| == |mem| && 0 <= a && a + 4 * n <= |mem|
    && (forall i :: 0 <= i < n ==> Read(mem', a + 4 * i) == v)
    && SameBytes(mem, mem', 0, a) && SameBytes(mem, mem', a + 4 * n, |mem|)
  }

  lemma {:induction false} FillingIs(mem: seq<Byte>, a: nat, size: int, v: Cell)
    requires size >= -3 && a + size + 3 <= |mem|
    ensures FillFrom(mem, a, a + size, v).0 && Filled(mem, FillFrom(mem, a, a + size, v).1, a, (size + 3) / 4, v)
    decreases size + 3
  {
    hide Read, Write;
    if size > 0 {
      var mem1 := Write(mem, a, v);
      FillingIs(mem1, a + 4, size - 4, v);
      WriteElsewhere(mem, a, v);
      ReadAfterWrite(mem, a, v);
      var mem' := FillFrom(mem, a, a + size, v).1;
      assert mem' == FillFrom(mem1, a + 4, a + 4 + (size - 4), v).1;
      OneMoreFilled(mem, mem1, mem', a, (size + 3) / 4, v);
    }
  }

  lemma OneMoreFilled(mem: seq<Byte>, mem1: seq<Byte>, mem': seq<Byte>, a: nat, n: nat, v: Cell)
    requires n > 0 && a + 4 * n <= |mem| && |mem1| == |mem|
    requires SameBytes(mem, mem1, 0, a) && SameBytes(mem, mem1, a + 4, |mem|) && Read(mem1, a) == v
    requires Filled(mem1, mem', a + 4, n - 1, v)
    ensures Filled(mem, mem', a, n, v)
  {
    hide Read;
    SameRead(mem1, mem', a);
    forall i | 0 <= i < n
      ensures Read(mem', a + 4 * i) == v
    {
      if i > 0 {
        assert a + 4 + 4 * (i - 1) == a + 4 * i;
      }
    }
  }

  /** FILL stores PRI in all cells that start in the block at ALT. */
  lemma FillIs(P: Program, s: State, reply: Reply)
    requires Ready(P, s) && P.Num(s.cip, 1) >= 0
    ensures var o, n: int, a: int := Execute(P, FILL, s, reply), P.Num(s.cip, 1), s.alt;
      if Refused(P.block, s, a, n) then o == Stop(5)
      else o.Next? && o.s == s.(mem := o.s.mem, cip := s.cip + 8) && Filled(s.mem, o.s.mem, a, (n + 3) / 4, s.pri)
  {
    hide Program.Num, BadBlock, FillFrom, Filled;
    BlocksRefusedIff(P.block, s, s.alt, P.Num(s.cip, 1));
    if !Refused(P.block, s, s.alt, P.Num(s.cip, 1)) {
      FillingIs(s.mem, s.alt, P.Num(s.cip, 1), s.pri);
    }
  }
}
