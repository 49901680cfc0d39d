/** Relocation preserves meaning: the machine that follows relocated operands directly and the one that adds
    base addresses to raw operands make the same steps. */
module Relocation {
  import opened Cells
  import opened Opcodes
  import opened Alu
  import opened Verifier
  import opened VerifierTheorems
  import opened Machine
  import opened ControlFlow

  /** The same program, loaded at other addresses. */
  predicate SameButBases(l: Layout, l': Layout) {
    l' == l.(codeBase := l'.codeBase, dataBase := l'.dataBase)
  }

  lemma {:induction false} SizesIgnoreBases(l: Layout, l': Layout, image: seq<Cell>, at: nat)
    requires SameButBases(l, l') && Fits(l, image) && at <= l.codeCells
    ensures SizesFrom(l, image, at) == SizesFrom(l', image, at)
    decreases l.codeCells - at
  {
    hide OpcodeOf;
    if at < l.codeCells {
      SizesIgnoreBases(l, l', image, at + 1);
    }
  }

  lemma WalksIgnoreBases(l: Layout, l': Layout, image: seq<Cell>)
    requires SameButBases(l, l') && Fits(l, image)
    ensures Fits(l', image) && Sizes(l, image) == Sizes(l', image) && Regular(l, image) == Regular(l', image)
  {
    hide SizesFrom, OpcodeOf, WalkEnd, IsStart;
    SizesIgnoreBases(l, l', image, 0);
  }

  // ---------- Acceptance does not depend on the load address ----------

  /** Two partly relocated images that agree in what the walk at `at` can still look at. */
  ghost predicate Alike(marks: seq<bool>, image: seq<Cell>, image': seq<Cell>, at: nat) {
    && |image| == |image'|
    && (forall k :: at <= k < |image| ==> image[k] == image'[k])
    && (forall k :: 0 <= k < |marks| && marks[k] && k < |image| ==> image[k] == image'[k])
  }

  lemma {:induction false} DataRunIgnoresBases(
    l: Layout, l': Layout, image: seq<Cell>, image': seq<Cell>, at: nat, k: nat, count: nat)
    requires SameButBases(l, l') && |image| == |image'| && 1 <= k && at + count < |image|
    requires forall j :: at + k <= j <= at + count ==> image[j] == image'[j]
    ensures DataRun(l, image, at, k, count).ok == DataRun(l', image', at, k, count).ok
    decreases count + 1 - k
  {
    if k <= count && DataOffsOk(l, image[at + k]) {
      DataRunIgnoresBases(l, l', image[at + k := S(image[at + k] + l.dataBase)],
                          image'[at + k := S(image'[at + k] + l'.dataBase)], at, k + 1, count);
    }
  }

  lemma {:induction false} CaseRunIgnoresBases(
    l: Layout, l': Layout, marks: seq<bool>, image: seq<Cell>, image': seq<Cell>, at: nat, i: nat, targets: nat)
    requires SameButBases(l, l') && |marks| == l.codeCells && |image| == |image'| && at + 2 * targets < |image|
    requires forall j :: Slot(at, i) <= j < |image| ==> image[j] == image'[j]
    ensures CaseRun(l, marks, image, at, i, targets).ok == CaseRun(l', marks, image', at, i, targets).ok
    decreases targets - i
  {
    if i < targets && CodeOffsOk(l, marks, image[Slot(at, i)]) {
      CaseRunIgnoresBases(l, l', marks, image[Slot(at, i) := S(image[Slot(at, i)] + l.codeBase)],
                          image'[Slot(at, i) := S(image'[Slot(at, i)] + l'.codeBase)], at, i + 1, targets);
    }
  }

  lemma TargetAlike(l: Layout, marks: seq<bool>, image: seq<Cell>, image': seq<Cell>, at: nat, offs: Cell)
    requires |marks| == l.codeCells <= |image| && Alike(marks, image, image', at) && CodeOffsOk(l, marks, offs)
    ensures U(offs) / CELL_SIZE < |image| && image[U(offs) / CELL_SIZE] == image'[U(offs) / CELL_SIZE]
  {
  }

  /** The two verdicts agree in all but the relocated image. */
  ghost predicate SameVerdict(v: Verdict, v': Verdict) {
    (v.Pass? <==> v'.Pass?) && (v.Pass? ==> v.args == v'.args && v.used == v'.used)
  }

  lemma InspectIgnoresBases(
    l: Layout, l': Layout, marks: seq<bool>, image: seq<Cell>, image': seq<Cell>, at: nat, h: Handler, used: Sysreqs)
    requires SameButBases(l, l') && |marks| == l.codeCells && at + 1 < |image| && Alike(marks, image, image', at)
    requires h == HandlerOf(OpcodeOf(image[at])) && at + OperandCount(OpcodeOf(image[at])) < |image|
    ensures OpcodeOf(image'[at]) == OpcodeOf(image[at])
    ensures Inspect(l, marks, image, at, h, used) == Inspect(l', marks, image', at, h, used)
  {
    hide OpcodeOf, HandlerOf, S, CodeOffsOk;
    assert image[at] == image'[at] && image[at + 1] == image'[at + 1];
    JumpTestIgnoresBases(l, l', marks, S(CELL_SIZE * at + image[at + 1] + 2 * CELL_SIZE));
  }

  lemma JumpTestIgnoresBases(l: Layout, l': Layout, marks: seq<bool>, offs: Cell)
    requires SameButBases(l, l') && |marks| == l.codeCells
    ensures CodeOffsOk(l, marks, offs) == CodeOffsOk(l', marks, offs)
  {
  }

  lemma HandleIgnoresBases(
    l: Layout, l': Layout, marks: seq<bool>, image: seq<Cell>, image': seq<Cell>, at: nat, used: Sysreqs)
    requires SameButBases(l, l') && Fits(l, image) && |marks| == l.codeCells && at < l.codeCells
    requires Alike(marks, image, image', at)
    ensures SameVerdict(Handle(l, marks, image, at, used), Handle(l', marks, image', at, used))
  {
    hide OpcodeOf, HandlerOf, S, DataRun, CaseRun, Inspect, CodeOffsOk;
    assert image[at] == image'[at];
    var op := OpcodeOf(image[at]);
    var h := HandlerOf(op);
    if !h.Invalid? && !h.Numbers? && at + OperandCount(op) < |image| && at + 1 < |image| {
      var arg := image[at + 1];
      JumpTestIgnoresBases(l, l', marks, arg);
      if h.ByteWidth? || h.StackHeap? || h.Relative? || h.Sysreq? {
        InspectIgnoresBases(l, l', marks, image, image', at, h, used);
      } else if h.DataOffs? {
        DataRunIgnoresBases(l, l', image, image', at, 1, h.count);
      } else if h.CaseTable? && at + WideTableArgs(arg) < |image| {
        CaseRunIgnoresBases(l, l', marks, image, image', at, 0, WideTableArgs(arg) / 2);
      } else if h.TableOffs? && CodeOffsOk(l, marks, arg) {
        TargetAlike(l, marks, image, image', at, arg);
      }
    }
  }

  lemma {:induction false} CheckIgnoresBases(
    l: Layout, l': Layout, origin: seq<Cell>, image: seq<Cell>, image': seq<Cell>, at: nat, used: Sysreqs)
    requires SameButBases(l, l') && InStep(l, origin, image, at) && InStep(l', origin, image', at)
    requires CheckFrom(l, Marks(Sizes(l, origin)), image, at, used).Accepted?
    ensures CheckFrom(l', Marks(Sizes(l', origin)), image', at, used).Accepted?
    decreases l.codeCells - at
  {
    hide Handle, Sizes, Regular, WalkAccepts, IsStart, Settled, ArgsAt;
    WalksIgnoreBases(l, l', origin);
    var marks := Marks(Sizes(l, origin));
    if at < l.codeCells {
      HandleIgnoresBases(l, l', marks, image, image', at, used);
      var v := Handle(l, marks, image, at, used);
      var v' := Handle(l', marks, image', at, used);
      SecondStep(l, origin, image, at, used, v);
      SecondStep(l', origin, image', at, used, v');
      CheckIgnoresBases(l, l', origin, v.image, v'.image, at + 1 + v.args, v.used);
    }
  }

  /** The verifier accepts a regular program at every load address or at none. */
  lemma AcceptanceIgnoresBases(l: Layout, l': Layout, image: seq<Cell>)
    requires SameButBases(l, l') && Fits(l, image) && Regular(l, image) && Accepts(l, image)
    ensures Fits(l', image) && Regular(l', image) && Accepts(l', image)
  {
    hide Handle, Sizes, Regular, CheckFrom;
    WalksIgnoreBases(l, l', image);
    CheckIgnoresBases(l, l', image, image, image, 0, Sysreqs(false, false));
  }

  // ---------- The size of the block ----------

  predicate KeepsSize(o: Outcome, s: State) {
    o.Next? ==> |o.s.mem| == |s.mem|
  }

  lemma AccessKeepsSize(P: Program, op: Opcode, s: State)
    requires P.Valid() && IsAccess(op)
    ensures KeepsSize(ExecuteAccess(P, op, s), s)
  {
    hide S, Read, Program.Num, Program.DataArg, ReadBytes, BadDataAddr, BadStackAddr, ShiftLeft;
  }

  lemma StackOpKeepsSize(P: Program, op: Opcode, s: State)
    requires P.Valid() && IsStackOp(op)
    ensures KeepsSize(ExecuteStackOp(P, op, s), s)
  {
    hide S, U, Read, Program.Num, Program.DataArg, Program.CodeArg, WriteDown, CopyDown, BadStackAddr, Marked;
    hide MarginExceeded;
  }

  lemma OtherKeepsSize(P: Program, op: Opcode, s: State, reply: Reply)
    requires P.Valid() && !IsAccess(op) && !IsStackOp(op) && |reply.mem| == |s.mem|
    ensures KeepsSize(ExecuteOther(P, op, s, reply), s)
  {
    hide S, U, Read, Program.Num, Program.CodeArg, WriteDown, FillFrom, Apply, ApplyConst, Holds, SwitchTarget, BadBlock;
    hide CompareBytes, MarginExceeded, Marked;
  }

  lemma StepKeepsSize(P: Program, s: State, reply: Reply)
    requires P.Valid() && |reply.mem| == |s.mem|
    ensures KeepsSize(Step(P, s, reply), s)
  {
    hide ExecuteAccess, ExecuteStackOp, ExecuteOther, IsAccess, IsStackOp, OpcodeOf;
    if 0 <= s.cip / CELL_SIZE < |P.image| {
      var op := OpcodeOf(P.image[s.cip / CELL_SIZE]);
      if IsAccess(op) {
        AccessKeepsSize(P, op, s);
      } else if IsStackOp(op) {
        StackOpKeepsSize(P, op, s);
      } else {
        OtherKeepsSize(P, op, s, reply);
      }
    }
  }

  // ---------- The two machines ----------

  /** `P` and `Q` are one program, verified and relocated for two load addresses. */
  predicate Twins(P: Program, Q: Program, origin: seq<Cell>) {
    Loaded(P, origin) && Loaded(Q, origin) && SameButBases(P.layout, Q.layout) && P.block == Q.block
  }

  /** All operands `op` reads at `c`, each in the way its handler reads it, are the same. */
  ghost predicate SameOperands(P: Program, Q: Program, op: Opcode, c: int) {
    match HandlerOf(op)
    case Invalid | CaseTable => true
    case Numbers(n) => forall k: nat :: 1 <= k <= n ==> P.Num(c, k) == Q.Num(c, k)
    case DataOffs(n) => forall k: nat :: 1 <= k <= n ==> P.DataArg(c, k) == Q.DataArg(c, k)
    case DataOffsNumber => P.DataArg(c, 1) == Q.DataArg(c, 1) && P.Num(c, 2) == Q.Num(c, 2)
    case CodeOffs => P.CodeArg(c, 1) == Q.CodeArg(c, 1)
    case TableOffs =>
      && P.CodeArg(c, 1) == Q.CodeArg(c, 1)
      && forall v :: SwitchTarget(P, P.CodeArg(c, 1), v) == SwitchTarget(Q, P.CodeArg(c, 1), v)
    case Sysreq => P.Num(c, 1) == Q.Num(c, 1) && (op.SYSREQ_N? ==> P.Num(c, 2) == Q.Num(c, 2))
    case _ => P.Num(c, 1) == Q.Num(c, 1)
  }

  lemma TwinMarks(P: Program, Q: Program, origin: seq<Cell>)
    requires Twins(P, Q, origin)
    ensures P.marks == Q.marks && P.Valid() && Q.Valid() && P.layout.codeCells == Q.layout.codeCells
  {
    hide Accepts, Verify, Regular, Sizes;
    WalksIgnoreBases(P.layout, Q.layout, origin);
  }

  lemma SameData(P: Program, Q: Program, origin: seq<Cell>, p: nat, k: nat)
    requires |P.image| == |Q.image| == |origin| && p + k < |origin|
    requires P.image[p + k] == S(origin[p + k] + P.layout.dataBase)
    requires Q.image[p + k] == S(origin[p + k] + Q.layout.dataBase)
    ensures P.DataArg(CELL_SIZE * p, k) == Q.DataArg(CELL_SIZE * p, k)
  {
    RebaseRoundTrip(origin[p + k], P.layout.dataBase);
    RebaseRoundTrip(origin[p + k], Q.layout.dataBase);
  }

  lemma {:induction false} SameLinearCase(P: Program, Q: Program, table: int, i: nat, v: Cell, count: int)
    requires P.Num(table, 1) == count == Q.Num(table, 1)
    requires forall k: nat :: k <= count ==> P.CodeArg(table, 2 * k + 2) == Q.CodeArg(table, 2 * k + 2)
    requires forall k: nat :: k <= count ==> P.Num(table, 2 * k + 1) == Q.Num(table, 2 * k + 1)
    requires count >= 0
    ensures LinearCase(P, table, i, v) == LinearCase(Q, table, i, v)
    decreases count - i
  {
    if i > count {
      assert P.CodeArg(table, 2 * 0 + 2) == Q.CodeArg(table, 2 * 0 + 2);
    } else {
      SameLinearCase(P, Q, table, i + 1, v, count);
    }
  }

  /** The verifier relocates the address `x` of CONST only if it passes the test whose result it drops. Then, and
      for bases that make no difference to a cell, both machines read the same address. */
  predicate ConstAgrees(l: Layout, l': Layout, x: Cell) {
    DataOffsOk(l, x) || (l.dataBase - l'.dataBase) % CELL_RANGE == 0
  }

  /** Otherwise each machine takes its own base off; both addresses may still be outside the block. */
  predicate ConstMovable(l: Layout, l': Layout, b: Block, x: Cell) {
    || ConstAgrees(l, l', x)
    || !(0 <= S(x - l.dataBase) <= b.stp || 0 <= S(x - l'.dataBase) <= b.stp)
  }

  /** What a program can be tested for before it is loaded at either address. */
  ghost predicate Movable(P: Program, Q: Program, origin: seq<Cell>)
    requires P.Valid()
  {
    forall p: nat :: p + 1 < |origin| && Marked(P.marks, CELL_SIZE * p) && OpcodeOf(origin[p]).CONST? ==>
      ConstMovable(P.layout, Q.layout, P.block, origin[p + 1])
  }

  lemma SameTable(P: Program, Q: Program, origin: seq<Cell>, table: nat, v: Cell)
    requires Twins(P, Q, origin) && Marked(P.marks, CELL_SIZE * table)
    requires table < |origin| && OpcodeOf(origin[table]).CASETBL? && P.Num(CELL_SIZE * table, 1) <= 30
    ensures SwitchTarget(P, CELL_SIZE * table, v) == SwitchTarget(Q, CELL_SIZE * table, v)
  {
    hide Loaded, OpcodeOf, LinearCase, BinaryCase, Program.CodeArg, Sizes;
    TwinMarks(P, Q, origin);
    CaseTablesHaveTheirHandler(OpcodeOf(origin[table]));
    StartSettled(P, origin, table);
    StartSettled(Q, origin, table);
    TableCount(P, origin, table);
    var count: int := origin[table + 1];
    assert WideTableArgs(origin[table + 1]) == 2 + 2 * count;
    assert P.image[table + 1] == Q.image[table + 1] == count;
    forall k: nat | k <= count
      ensures P.CodeArg(CELL_SIZE * table, 2 * k + 2) == Q.CodeArg(CELL_SIZE * table, 2 * k + 2)
      ensures P.Num(CELL_SIZE * table, 2 * k + 1) == Q.Num(CELL_SIZE * table, 2 * k + 1)
    {
      assert Slot(table, k) == table + (2 * k + 2);
      CodeOperandMarked(P, origin, table, 2 * k + 2);
      CodeOperandMarked(Q, origin, table, 2 * k + 2);
      assert P.image[table + 2 * k + 1] == origin[table + 2 * k + 1] == Q.image[table + 2 * k + 1];
    }
    SameLinearCase(P, Q, CELL_SIZE * table, 1, v, count);
  }

  lemma SameCodeOperand(P: Program, Q: Program, origin: seq<Cell>, p: nat)
    requires Twins(P, Q, origin) && Marked(P.marks, CELL_SIZE * p) && p < |origin|
    requires HandlerOf(OpcodeOf(origin[p])).CodeOffs? || HandlerOf(OpcodeOf(origin[p])).TableOffs?
    ensures P.CodeArg(CELL_SIZE * p, 1) == Q.CodeArg(CELL_SIZE * p, 1)
  {
    hide Loaded, OpcodeOf, HandlerOf, Program.CodeArg;
    TwinMarks(P, Q, origin);
    StartSettled(P, origin, p);
    StartSettled(Q, origin, p);
    CodeOperandMarked(P, origin, p, 1);
    CodeOperandMarked(Q, origin, p, 1);
  }

  lemma SameSwitch(P: Program, Q: Program, origin: seq<Cell>, p: nat, v: Cell)
    requires Twins(P, Q, origin) && Confined(P) && Marked(P.marks, CELL_SIZE * p)
    requires p < |origin| && HandlerOf(OpcodeOf(origin[p])).TableOffs?
    ensures P.CodeArg(CELL_SIZE * p, 1) == Q.CodeArg(CELL_SIZE * p, 1)
    ensures SwitchTarget(P, P.CodeArg(CELL_SIZE * p, 1), v) == SwitchTarget(Q, P.CodeArg(CELL_SIZE * p, 1), v)
  {
    hide Loaded, OpcodeOf, HandlerOf, SwitchTarget, Program.CodeArg, IsStray;
    SameCodeOperand(P, Q, origin, p);
    StartSettled(P, origin, p);
    CodeOperandMarked(P, origin, p, 1);
    var table := U(origin[p + 1]) / CELL_SIZE;
    StartSettled(P, origin, table);
    assert P.CodeArg(CELL_SIZE * p, 1) == CELL_SIZE * table;
    assert P.image[table] == origin[table];
    SameTable(P, Q, origin, table, v);
  }

  lemma ConstHandler(op: Opcode)
    ensures HandlerOf(op).DataOffsNumber? <==> op.CONST?
  {
  }

  /** Taking different bases off gives the same cell exactly if they differ by a multiple of the range. */
  lemma SameCellIff(x: Cell, d: nat, d': nat)
    ensures S(x - d) == S(x - d') <==> (d - d') % CELL_RANGE == 0
  {
    var m, m' := (x - d) % CELL_RANGE, (x - d') % CELL_RANGE;
    assert S(x - d) == S(x - d') <==> m == m';
    var q, q' := (x - d) / CELL_RANGE, (x - d') / CELL_RANGE;
    assert d' - d == CELL_RANGE * (q - q') + m - m';
    if m == m' {
      MultipleRemainder(q' - q);
    }
    if (d - d') % CELL_RANGE == 0 {
      var k := (d - d') / CELL_RANGE;
      assert m - m' == CELL_RANGE * (q' - q - k);
    }
  }

  lemma MultipleRemainder(k: int)
    ensures (CELL_RANGE * k) % CELL_RANGE == 0
  {
  }

  /** The operands of CONST, which may or may not have been relocated. */
  lemma ConstOperands(P: Program, Q: Program, origin: seq<Cell>, p: nat)
    requires Twins(P, Q, origin) && Marked(P.marks, CELL_SIZE * p)
    requires p < |origin| && OpcodeOf(origin[p]).CONST?
    ensures p + 2 < |origin| == |P.image| == |Q.image| && P.Num(CELL_SIZE * p, 2) == Q.Num(CELL_SIZE * p, 2)
    ensures var x := origin[p + 1]; var a, a' := P.DataArg(CELL_SIZE * p, 1), Q.DataArg(CELL_SIZE * p, 1);
      && (a == a' <==> ConstAgrees(P.layout, Q.layout, x))
      && (!DataOffsOk(P.layout, x) ==> a == S(x - P.layout.dataBase) && a' == S(x - Q.layout.dataBase))
  {
    hide Loaded, OpcodeOf, S, Program.DataArg;
    TwinMarks(P, Q, origin);
    StartSettled(P, origin, p);
    StartSettled(Q, origin, p);
    var x := origin[p + 1];
    if DataOffsOk(P.layout, x) {
      SameData(P, Q, origin, p, 1);
    } else {
      SameCellIff(x, P.layout.dataBase, Q.layout.dataBase);
      UnmovedData(P, origin, p);
      UnmovedData(Q, origin, p);
    }
  }

  lemma UnmovedData(P: Program, origin: seq<Cell>, p: nat)
    requires p + 1 < |P.image| == |origin| && P.image[p + 1] == origin[p + 1]
    ensures P.DataArg(CELL_SIZE * p, 1) == S(origin[p + 1] - P.layout.dataBase)
  {
  }

  /** At every start, the two machines read the same operands, except that those of CONST may differ. */
  lemma OperandsSurviveRelocationIff(P: Program, Q: Program, origin: seq<Cell>, p: nat)
    requires Twins(P, Q, origin) && Confined(P) && Marked(P.marks, CELL_SIZE * p)
    ensures p < |P.image| == |Q.image| == |origin| && P.image[p] == Q.image[p] == origin[p]
    ensures OpcodeOf(origin[p]).CONST? ==> p + 2 < |origin|
    ensures SameOperands(P, Q, OpcodeOf(P.image[p]), CELL_SIZE * p)
       <==> (OpcodeOf(origin[p]).CONST? ==> ConstAgrees(P.layout, Q.layout, origin[p + 1]))
  {
    hide Loaded, OpcodeOf, HandlerOf, SwitchTarget, Program.CodeArg, Program.DataArg, Confined, ConstAgrees;
    TwinMarks(P, Q, origin);
    StartSettled(P, origin, p);
    StartSettled(Q, origin, p);
    var op := OpcodeOf(P.image[p]);
    var h := HandlerOf(op);
    ConstHandler(op);
    if op.CONST? {
      ConstOperands(P, Q, origin, p);
    } else {
      OtherOperandsSurvive(P, Q, origin, p);
    }
  }

  lemma OtherOperandsSurvive(P: Program, Q: Program, origin: seq<Cell>, p: nat)
    requires Twins(P, Q, origin) && Confined(P) && Marked(P.marks, CELL_SIZE * p)
    requires p < |P.image| == |origin| && P.image[p] == origin[p] && !OpcodeOf(origin[p]).CONST?
    ensures SameOperands(P, Q, OpcodeOf(P.image[p]), CELL_SIZE * p)
  {
    hide Loaded, OpcodeOf, HandlerOf, SwitchTarget, Program.CodeArg, Program.DataArg, Confined;
    TwinMarks(P, Q, origin);
    StartSettled(P, origin, p);
    StartSettled(Q, origin, p);
    var op := OpcodeOf(P.image[p]);
    var h := HandlerOf(op);
    ConstHandler(op);
    if h.CodeOffs? {
      SameCodeOperand(P, Q, origin, p);
    } else if h.TableOffs? {
      SameCodeOperand(P, Q, origin, p);
      forall v
        ensures SwitchTarget(P, P.CodeArg(CELL_SIZE * p, 1), v) == SwitchTarget(Q, P.CodeArg(CELL_SIZE * p, 1), v)
      {
        SameSwitch(P, Q, origin, p, v);
      }
    } else if h.DataOffs? {
      forall k: nat | 1 <= k <= h.count
        ensures P.DataArg(CELL_SIZE * p, k) == Q.DataArg(CELL_SIZE * p, k)
      {
        SameData(P, Q, origin, p, k);
      }
    } else if h.Numbers? {
      forall k: nat | 1 <= k <= h.count
        ensures P.Num(CELL_SIZE * p, k) == Q.Num(CELL_SIZE * p, k)
      {
        if p + k < |origin| {
          assert P.image[p + k] == origin[p + k] == Q.image[p + k];
        }
      }
    }
  }

  /** Whatever is executed depends on the program only through its operands, its bitmap and its block. */
  lemma SameDirectAccess(P: Program, Q: Program, op: Opcode, s: State)
    requires P.Valid() && Q.Valid() && P.block == Q.block && IsAccess(op) && HandlerOf(op).DataOffs?
    requires SameOperands(P, Q, op, s.cip)
    ensures ExecuteAccess(P, op, s) == ExecuteAccess(Q, op, s)
  {
    hide LoadAt, LoadData, LoadStack, LoadRef, LoadRefStack, StoreAt, StoreData, StoreStack, StoreRef, StoreRefStack;
    hide AddAt, AddStack, S, Program.Num, Program.DataArg, LoadBytes, StoreBytes, LoadBoth, LoadBothStack, BadDataAddr;
  }

  lemma SameIndirectAccess(P: Program, Q: Program, op: Opcode, s: State)
    requires P.Valid() && Q.Valid() && P.block == Q.block && IsAccess(op) && !HandlerOf(op).DataOffs?
    requires SameOperands(P, Q, op, s.cip)
    ensures ExecuteAccess(P, op, s) == ExecuteAccess(Q, op, s)
  {
    hide LoadAt, LoadData, LoadStack, LoadRef, LoadRefStack, StoreAt, StoreData, StoreStack, StoreRef, StoreRefStack;
    hide AddAt, AddStack, S, Program.Num, Program.DataArg, LoadBytes, StoreBytes, LoadBoth, LoadBothStack, BadDataAddr;
  }

  lemma SameAccess(P: Program, Q: Program, op: Opcode, s: State)
    requires P.Valid() && Q.Valid() && P.block == Q.block && IsAccess(op)
    requires SameOperands(P, Q, op, s.cip)
    ensures ExecuteAccess(P, op, s) == ExecuteAccess(Q, op, s)
  {
    hide ExecuteAccess, IsAccess, SameOperands, HandlerOf;
    if HandlerOf(op).DataOffs? {
      SameDirectAccess(P, Q, op, s);
    } else {
      SameIndirectAccess(P, Q, op, s);
    }
  }

  lemma SameStackOp(P: Program, Q: Program, op: Opcode, s: State)
    requires P.Valid() && Q.Valid() && P.block == Q.block && P.marks == Q.marks && P.layout.codeCells == Q.layout.codeCells
    requires IsStackOp(op) && SameOperands(P, Q, op, s.cip)
    ensures ExecuteStackOp(P, op, s) == ExecuteStackOp(Q, op, s)
  {
    hide PushValues, PushCopies, PushStackOne, PushStackMany, PushRepeated, Pop, Swap, MoveStack, MoveHeap;
    hide EnterProcedure, S, Program.Num, Program.DataArg, Program.CodeArg, FrameAddrs, Call, Return, ReturnArgs;
    var c := s.cip;
    if op.PUSH_C? || op.PUSH_S? || op.PUSH_ADR? {
      assert P.Nums(c, op.n) == Q.Nums(c, op.n);
    } else if op.PUSH? {
      assert P.DataArgs(c, op.n) == Q.DataArgs(c, op.n);
    }
  }

  lemma SameOther(P: Program, Q: Program, op: Opcode, s: State, reply: Reply)
    requires P.Valid() && Q.Valid() && P.block == Q.block && P.marks == Q.marks
    requires !IsAccess(op) && !IsStackOp(op) && !HandlerOf(op).Invalid? && SameOperands(P, Q, op, s.cip)
    ensures ExecuteOther(P, op, s, reply) == ExecuteOther(Q, op, s, reply)
  {
    hide S, Program.Num, Program.CodeArg, SwitchTarget, Apply, ApplyConst, Holds, MoveBlock, CompareBlock, FillBlock;
    hide LoadControl, StoreControl, AfterNative, NativeWithArgs, Marked;
  }

  lemma SameExecution(P: Program, Q: Program, op: Opcode, s: State, reply: Reply)
    requires P.Valid() && Q.Valid() && P.block == Q.block && P.marks == Q.marks && P.layout.codeCells == Q.layout.codeCells
    requires !HandlerOf(op).Invalid? && SameOperands(P, Q, op, s.cip)
    ensures Execute(P, op, s, reply) == Execute(Q, op, s, reply)
  {
    hide SameOperands, ExecuteAccess, ExecuteStackOp, ExecuteOther, IsAccess, IsStackOp, HandlerOf;
    if IsAccess(op) {
      SameAccess(P, Q, op, s);
    } else if IsStackOp(op) {
      SameStackOp(P, Q, op, s);
    } else {
      SameOther(P, Q, op, s, reply);
    }
  }

  /** CONST, executed by both machines, writes the same cell, or both addresses are outside the block. */
  lemma SameConst(P: Program, Q: Program, origin: seq<Cell>, s: State, p: nat)
    requires Twins(P, Q, origin) && Marked(P.marks, CELL_SIZE * p) && s.cip == CELL_SIZE * p
    requires p + 1 < |origin| && OpcodeOf(origin[p]).CONST? && |s.mem| == P.block.stp + CELL_SIZE
    requires ConstMovable(P.layout, Q.layout, P.block, origin[p + 1])
    ensures P.Valid() && Q.Valid() && ExecuteAccess(P, CONST, s) == ExecuteAccess(Q, CONST, s)
  {
    hide Loaded, OpcodeOf, S, Write, Program.DataArg, Program.Num;
    TwinMarks(P, Q, origin);
    ConstOperands(P, Q, origin, p);
  }

  /** One step, from a start of an accepted, confined program: the same outcome at either load address. */
  lemma StepSurvivesRelocation(P: Program, Q: Program, origin: seq<Cell>, s: State, reply: Reply)
    requires Twins(P, Q, origin) && Confined(P) && Marked(P.marks, s.cip) && |s.mem| == P.block.stp + CELL_SIZE
    requires Movable(P, Q, origin)
    ensures P.Valid() && Q.Valid() && Step(P, s, reply) == Step(Q, s, reply)
  {
    hide Loaded, OpcodeOf, SameOperands, Confined, ConstAgrees, Execute, ConstMovable;
    TwinMarks(P, Q, origin);
    var p := s.cip / CELL_SIZE;
    AlignedAtStart(P.marks, s.cip);
    OperandsSurviveRelocationIff(P, Q, origin, p);
    StartIsValid(P, origin, p);
    var op := OpcodeOf(P.image[p]);
    if op.CONST? {
      SameConst(P, Q, origin, s, p);
      ConstExecutes(P, op, s, reply);
      ConstExecutes(Q, op, s, reply);
    } else {
      SameExecution(P, Q, op, s, reply);
    }
  }

  lemma ConstExecutes(P: Program, op: Opcode, s: State, reply: Reply)
    requires P.Valid() && op.CONST?
    ensures Execute(P, op, s, reply) == ExecuteAccess(P, CONST, s)
  {
  }

  /** Bytes none of which is the lowest byte of `v`. */
  function Contrast(v: Cell, size: nat): (mem: seq<Byte>)
    ensures |mem| == size && forall i :: 0 <= i < size ==> mem[i] != U(v) % 0x100
  {
    seq(size, _ => if U(v) % 0x100 == 0 then 1 else 0)
  }

  /** Two writes of a cell at different places can be told apart. */
  lemma WritesDiffer(a: int, a': int, v: Cell, size: nat)
    requires a < a' && Inside(Contrast(v, size), a, CELL_SIZE) && Inside(Contrast(v, size), a', CELL_SIZE)
    ensures Write(Contrast(v, size), a, v) != Write(Contrast(v, size), a', v)
  {
    var mem := Contrast(v, size);
    assert Write(mem, a, v)[a] == U(v) % 0x100;
    assert Write(mem, a', v)[a] == mem[a];
  }

  /** A CONST that is not movable makes a difference in some state. */
  lemma ConstDiffers(P: Program, Q: Program, origin: seq<Cell>, p: nat) returns (s: State)
    requires Twins(P, Q, origin) && Confined(P) && Marked(P.marks, CELL_SIZE * p) && 0 <= P.block.stp
    requires p + 1 < |origin| && OpcodeOf(origin[p]).CONST?
    requires !ConstMovable(P.layout, Q.layout, P.block, origin[p + 1])
    ensures P.Valid() && Q.Valid() && s.cip == CELL_SIZE * p && |s.mem| == P.block.stp + CELL_SIZE
    ensures forall reply :: Step(P, s, reply) != Step(Q, s, reply)
  {
    hide Loaded, OpcodeOf, S, Write, Program.DataArg, Program.Num, Contrast, Confined, Execute;
    TwinMarks(P, Q, origin);
    ConstOperands(P, Q, origin, p);
    OperandsSurviveRelocationIff(P, Q, origin, p);
    AlignedAtStart(P.marks, CELL_SIZE * p);
    var c := CELL_SIZE * p;
    var a, a', v, size := P.DataArg(c, 1), Q.DataArg(c, 1), P.Num(c, 2), P.block.stp + CELL_SIZE;
    s := State(0, 0, 0, 0, 0, c, Contrast(v, size));
    if a < a' && Inside(s.mem, a, CELL_SIZE) && Inside(s.mem, a', CELL_SIZE) {
      WritesDiffer(a, a', v, size);
    } else if a' < a && Inside(s.mem, a, CELL_SIZE) && Inside(s.mem, a', CELL_SIZE) {
      WritesDiffer(a', a, v, size);
    }
    assert ExecuteAccess(P, CONST, s) != ExecuteAccess(Q, CONST, s);
    forall reply
      ensures Step(P, s, reply) != Step(Q, s, reply)
    {
      ConstExecutes(P, OpcodeOf(origin[p]), s, reply);
      ConstExecutes(Q, OpcodeOf(origin[p]), s, reply);
    }
  }

  /** Whole runs, for any two load addresses; with bases 0 the second machine is the one that works on raw
      offsets. Return addresses and registers are part of the compared states: they stay relative. */
  lemma {:induction false} RunSurvivesRelocation(
    P: Program, Q: Program, origin: seq<Cell>, s: State, replies: seq<Reply>)
    requires Twins(P, Q, origin) && Confined(P) && Movable(P, Q, origin) && Marked(P.marks, s.cip)
    requires |s.mem| == P.block.stp + CELL_SIZE && SameSize(replies, |s.mem|)
    ensures P.Valid() && Q.Valid() && Run(P, s, replies) == Run(Q, s, replies)
    decreases |replies|
  {
    hide Loaded, Confined, Movable, Step, Marked;
    TwinMarks(P, Q, origin);
    if replies != [] {
      StepSurvivesRelocation(P, Q, origin, s, replies[0]);
      StepStaysOnStarts(P, origin, s, replies[0]);
      StepKeepsSize(P, s, replies[0]);
      var o := Step(P, s, replies[0]);
      if o.Next? {
        RunSurvivesRelocation(P, Q, origin, o.s, replies[1..]);
      }
    }
  }

  ghost predicate SameRuns(P: Program, Q: Program)
    requires P.Valid() && Q.Valid()
  {
    forall s: State, replies: seq<Reply> ::
      Marked(P.marks, s.cip) && |s.mem| == P.block.stp + CELL_SIZE && SameSize(replies, |s.mem|) ==>
        Run(P, s, replies) == Run(Q, s, replies)
  }

  /** The condition is exact: a program accepted at two load addresses runs alike at both, from every state at a
      start and with all answers of natives, if and only if each of its CONST instructions is movable. */
  lemma RunsSurviveRelocationIff(P: Program, Q: Program, origin: seq<Cell>)
    requires Twins(P, Q, origin) && Confined(P) && 0 <= P.block.stp
    ensures P.Valid() && Q.Valid() && (Movable(P, Q, origin) <==> SameRuns(P, Q))
  {
    hide Loaded, Confined, ConstMovable, Step, OpcodeOf, Marked;
    TwinMarks(P, Q, origin);
    if Movable(P, Q, origin) {
      forall s: State, replies: seq<Reply>
        | Marked(P.marks, s.cip) && |s.mem| == P.block.stp + CELL_SIZE && SameSize(replies, |s.mem|)
        ensures Run(P, s, replies) == Run(Q, s, replies)
      {
        RunSurvivesRelocation(P, Q, origin, s, replies);
      }
    } else {
      var p: nat :| p + 1 < |origin| && Marked(P.marks, CELL_SIZE * p) && OpcodeOf(origin[p]).CONST? &&
        !ConstMovable(P.layout, Q.layout, P.block, origin[p + 1]);
      var s := ConstDiffers(P, Q, origin, p);
      var reply := Reply(ERR_NONE, 0, s.mem);
      OneStep(P, s, reply);
      OneStep(Q, s, reply);
      assert SameSize([reply], |s.mem|);
    }
  }

  lemma OneStep(P: Program, s: State, reply: Reply)
    requires P.Valid()
    ensures Run(P, s, [reply]) == Step(P, s, reply)
  {
    hide Step;
    var o := Step(P, s, reply);
    assert [reply][1..] == [];
    if o.Next? {
      assert Run(P, o.s, []) == Next(o.s);
    }
  }
}
