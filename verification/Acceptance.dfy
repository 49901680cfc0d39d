/** Which programs the verifier accepts, in terms of their instructions: for every handler when it passes, and
    what that makes of whole programs. */
module Acceptance {
  import opened Cells
  import opened Opcodes
  import opened Verifier
  import opened VerifierTheorems

  /** Byte offset `t` of the code is that of a marked instruction. */
  predicate StartsAt(marks: seq<bool>, t: int) {
    0 <= t < 4 * |marks| && t % 4 == 0 && marks[t / 4]
  }

  /** `x`, without its sign, is less than `bound`. */
  predicate Under(x: Cell, bound: nat) {
    0 <= x < bound || (x < 0 && x + 0x1_0000_0000 < bound)
  }

  predicate Between(x: int, bound: int) {
    -bound < x < bound
  }

  /** What the operands of the instruction at `p` must be like; cell `p + k` is operand `k`. */
  ghost predicate OperandsOk(l: Layout, marks: seq<bool>, image: seq<Cell>, p: nat)
    requires p < |image| && |marks| <= |image|
    requires p + ArgsAt(image, p) < |image| && (OpcodeOf(image[p]).CASETBL? ==> p + 1 < |image|)
  {
    match OpcodeOf(image[p])
    case NONE | FILE | DEBUG_INFO | SYMBOL | SYSREQ_D | SYSREQ_ND => false
    case LOAD(_) | LREF(_) | STOR(_) | SREF(_) | ZERO | STEP(_) => Under(image[p + 1], l.dataSize)
    case PUSH(n) => forall k :: p < k <= p + n ==> Under(image[k], l.dataSize)
    case LOAD_BOTH => Under(image[p + 1], l.dataSize) && Under(image[p + 2], l.dataSize)
    case LODB_I | STRB_I => image[p + 1] in {1, 2, 4}
    case LCTRL | SCTRL => image[p + 1] >= 0
    case STACK | HEAP => Between(image[p + 1], l.stackSize)
    case CALL | JUMP | JCC(_) => StartsAt(marks, image[p + 1])
    case JREL => StartsAt(marks, 4 * p + 8 + image[p + 1])
    case SWITCH => StartsAt(marks, image[p + 1]) && OpcodeOf(image[image[p + 1] / 4]).CASETBL?
    case CASETBL => forall k :: p + 2 <= k <= p + ArgsAt(image, p) && (k - p) % 2 == 0 ==> StartsAt(marks, image[k])
    case SYSREQ_C => Under(image[p + 1], l.natives + 1)
    case SYSREQ_N => Under(image[p + 1], l.natives + 1) && Between(image[p + 2], l.stackSize)
    case _ => true
  }

  /** Programs must not mix the two calls of natives. */
  predicate SysreqOk(op: Opcode, used: Sysreqs) {
    (op.SYSREQ_C? ==> !used.n) && (op.SYSREQ_N? ==> !used.c)
  }

  function SysreqUsed(op: Opcode, used: Sysreqs): Sysreqs {
    Sysreqs(used.c || op.SYSREQ_C?, used.n || op.SYSREQ_N?)
  }

  /** The first pass rejects at the opcodes that are no instructions, and at a case table without its count. */
  lemma FirstPassRejectsIff(l: Layout, image: seq<Cell>, at: nat)
    requires Fits(l, image) && at < l.codeCells
    ensures var op := OpcodeOf(image[at]);
      WalkSize(l, image, at) == 0 <==>
      op in {NONE, FILE, DEBUG_INFO, SYMBOL, SYSREQ_D, SYSREQ_ND} || (op.CASETBL? && at + 1 == l.codeCells)
  {
    hide OpcodeOf;
    TableStepIsOdd(if at + 1 < l.codeCells then image[at + 1] else 0);
  }

  lemma TableStepIsOdd(count: Cell)
    ensures NarrowTableSize(count) % 2 == 1
  {
    var u := U(count) % 256;
    assert (3 + u * 2) % 256 == 3 + 2 * (u % 128) || (3 + u * 2) % 256 == 3 + 2 * (u % 128) - 256;
  }

  // ---------- The tests ----------

  lemma UnsignedIs(x: Cell, bound: nat)
    ensures U(x) < bound <==> Under(x, bound)
    ensures U(x) <= bound <==> Under(x, bound + 1)
  {
  }

  lemma CodeTestIs(l: Layout, marks: seq<bool>, x: Cell)
    requires |marks| == l.codeCells && 4 * l.codeCells < 0x8000_0000
    ensures CodeOffsOk(l, marks, x) <==> StartsAt(marks, x)
  {
  }

  /** A sum that wraps around is no offset in the code. */
  lemma JumpTestIs(l: Layout, marks: seq<bool>, p: nat, arg: Cell)
    requires |marks| == l.codeCells && 4 * l.codeCells < 0x8000_0000 && p < l.codeCells
    ensures CodeOffsOk(l, marks, S(CELL_SIZE * p + arg + 2 * CELL_SIZE)) <==> StartsAt(marks, 4 * p + 8 + arg)
  {
    var t := 4 * p + 8 + arg;
    if t < 0x8000_0000 {
      InRange(t);
      CodeTestIs(l, marks, S(t));
    } else {
      Overflows(t);
      CodeTestIs(l, marks, S(t));
    }
  }

  lemma MagnitudeIs(x: Cell, bound: nat)
    ensures Magnitude(x) < bound <==> Between(x, bound)
  {
  }

  lemma DataTestIs(l: Layout, image: seq<Cell>, p: nat, n: nat)
    requires p + n < |image|
    ensures (forall j :: p + 1 <= j <= p + n ==> DataOffsOk(l, image[j])) <==>
      forall k :: p < k <= p + n ==> Under(image[k], l.dataSize)
  {
    forall j | p < j <= p + n
      ensures DataOffsOk(l, image[j]) <==> Under(image[j], l.dataSize)
    {
      UnsignedIs(image[j], l.dataSize);
    }
  }

  lemma CaseTestIs(l: Layout, marks: seq<bool>, image: seq<Cell>, p: nat, args: nat)
    requires |marks| == l.codeCells && 4 * l.codeCells < 0x8000_0000 && p + args < |image| && args % 2 == 0
    ensures (forall m :: 0 <= m < args / 2 ==> CodeOffsOk(l, marks, image[Slot(p, m)])) <==>
      forall k :: p + 2 <= k <= p + args && (k - p) % 2 == 0 ==> StartsAt(marks, image[k])
  {
    hide CodeOffsOk, StartsAt;
    forall m | 0 <= m < args / 2
      ensures CodeOffsOk(l, marks, image[Slot(p, m)]) <==> StartsAt(marks, image[Slot(p, m)])
    {
      CodeTestIs(l, marks, image[Slot(p, m)]);
    }
    if forall m :: 0 <= m < args / 2 ==> CodeOffsOk(l, marks, image[Slot(p, m)]) {
      forall k | p + 2 <= k <= p + args && (k - p) % 2 == 0
        ensures StartsAt(marks, image[k])
      {
        var m := (k - p - 2) / 2;
        assert k == Slot(p, m);
      }
    }
    if forall k :: p + 2 <= k <= p + args && (k - p) % 2 == 0 ==> StartsAt(marks, image[k]) {
      forall m | 0 <= m < args / 2
        ensures CodeOffsOk(l, marks, image[Slot(p, m)])
      {
        assert StartsAt(marks, image[Slot(p, m)]);
      }
    }
  }

  // ---------- The handlers ----------

  /** `v` passes exactly if the operands are as they must be, and otherwise rejects. */
  ghost predicate Decides(l: Layout, marks: seq<bool>, image: seq<Cell>, p: nat, used: Sysreqs, v: Verdict)
    requires p < |image| && |marks| <= |image|
    requires p + ArgsAt(image, p) < |image| && (OpcodeOf(image[p]).CASETBL? ==> p + 1 < |image|)
  {
    var op := OpcodeOf(image[p]);
    && !v.Runaway?
    && (v.Pass? <==> OperandsOk(l, marks, image, p) && SysreqOk(op, used))
    && (v.Pass? ==> v.used == SysreqUsed(op, used))
  }

  predicate IsPlain(op: Opcode) {
    HandlerOf(op).Invalid? || HandlerOf(op).Numbers?
  }

  lemma PlainDecides(l: Layout, marks: seq<bool>, image: seq<Cell>, p: nat, used: Sysreqs)
    requires Fits(l, image) && |marks| == l.codeCells && p < l.codeCells && p + ArgsAt(image, p) < |image|
    requires IsPlain(OpcodeOf(image[p]))
    ensures !OpcodeOf(image[p]).CASETBL?
    ensures Decides(l, marks, image, p, used, Handle(l, marks, image, p, used))
  {
    hide OpcodeOf, DataRun, CaseRun, Inspect;
  }

  predicate IsData(op: Opcode) {
    HandlerOf(op).DataOffs? || HandlerOf(op).DataOffsNumber?
  }

  lemma DataDecides(l: Layout, marks: seq<bool>, image: seq<Cell>, p: nat, used: Sysreqs)
    requires Fits(l, image) && |marks| == l.codeCells && p < l.codeCells && p + ArgsAt(image, p) < |image|
    requires IsData(OpcodeOf(image[p])) && (OpcodeOf(image[p]).PUSH? ==> OpcodeOf(image[p]).n > 0)
    ensures !OpcodeOf(image[p]).CASETBL?
    ensures Decides(l, marks, image, p, used, Handle(l, marks, image, p, used))
  {
    hide OpcodeOf, DataRun, CaseRun, Inspect, Under, DataOffsOk;
    var op := OpcodeOf(image[p]);
    if HandlerOf(op).DataOffs? {
      DataRunEffect(l, image, p, 1, HandlerOf(op).count);
      DataTestIs(l, image, p, HandlerOf(op).count);
    }
  }

  predicate IsAddress(op: Opcode) {
    var h := HandlerOf(op);
    h.Relative? || h.CodeOffs? || h.TableOffs?
  }

  lemma AddressDecides(l: Layout, marks: seq<bool>, image: seq<Cell>, p: nat, used: Sysreqs)
    requires Fits(l, image) && |marks| == l.codeCells && p < l.codeCells && p + ArgsAt(image, p) < |image|
    requires IsAddress(OpcodeOf(image[p]))
    ensures !OpcodeOf(image[p]).CASETBL? && p + 1 < |image|
    ensures Decides(l, marks, image, p, used, Handle(l, marks, image, p, used))
  {
    hide OpcodeOf, DataRun, CaseRun, Under, CodeOffsOk, StartsAt, Magnitude, Between, DataOffsOk;
    assert OperandCount(OpcodeOf(image[p])) >= 1;
    var arg := image[p + 1];
    CodeTestIs(l, marks, arg);
    JumpTestIs(l, marks, p, arg);
    if StartsAt(marks, arg) {
      StartIsOffset(marks, arg);
    }
  }

  predicate IsNumber(op: Opcode) {
    var h := HandlerOf(op);
    h.ByteWidth? || h.StackHeap? || h.Sysreq? || h.LctrlId? || h.SctrlId?
  }

  lemma NumberDecides(l: Layout, marks: seq<bool>, image: seq<Cell>, p: nat, used: Sysreqs)
    requires Fits(l, image) && |marks| == l.codeCells && p < l.codeCells && p + ArgsAt(image, p) < |image|
    requires IsNumber(OpcodeOf(image[p]))
    ensures !OpcodeOf(image[p]).CASETBL? && p + 1 < |image|
    ensures Decides(l, marks, image, p, used, Handle(l, marks, image, p, used))
  {
    hide OpcodeOf, DataRun, CaseRun, Under, CodeOffsOk, StartsAt, Magnitude, Between, DataOffsOk;
    var op := OpcodeOf(image[p]);
    assert OperandCount(op) >= 1;
    UnsignedIs(image[p + 1], l.natives);
    MagnitudeIs(image[p + 1], l.stackSize);
    if op.SYSREQ_N? {
      MagnitudeIs(image[p + 2], l.stackSize);
    }
  }

  lemma StartIsOffset(marks: seq<bool>, x: Cell)
    requires StartsAt(marks, x)
    ensures U(x) == x
  {
  }

  lemma TableDecides(l: Layout, marks: seq<bool>, image: seq<Cell>, p: nat, used: Sysreqs)
    requires Fits(l, image) && |marks| == l.codeCells && p + 1 < |image| && p < l.codeCells
    requires OpcodeOf(image[p]).CASETBL? && p + ArgsAt(image, p) < |image|
    ensures Decides(l, marks, image, p, used, Handle(l, marks, image, p, used))
  {
    hide OpcodeOf, DataRun, CaseRun, Inspect, CodeOffsOk, StartsAt, HandlerOf;
    CaseTablesHaveTheirHandler(OpcodeOf(image[p]));
    var args := WideTableArgs(image[p + 1]);
    CaseRunEffect(l, marks, image, p, 0, args / 2);
    CaseTestIs(l, marks, image, p, args);
    assert OperandCount(OpcodeOf(image[p])) == 0;
  }

  lemma KindsOfHandlers(op: Opcode)
    ensures IsPlain(op) || IsData(op) || IsAddress(op) || IsNumber(op) || op.CASETBL?
  {
  }

  lemma PushesSomething(n: int)
    ensures OpcodeOf(n).PUSH? ==> OpcodeOf(n).n > 0
  {
  }

  /** Every handler passes exactly if the operands are as they must be, whatever the instruction; what it rejects
      it rejects, if all operands lie in the image. */
  lemma HandlerDecides(l: Layout, marks: seq<bool>, image: seq<Cell>, p: nat, used: Sysreqs)
    requires Fits(l, image) && |marks| == l.codeCells && p < l.codeCells && p + ArgsAt(image, p) < |image|
    requires OpcodeOf(image[p]).CASETBL? ==> p + 1 < |image|
    ensures Decides(l, marks, image, p, used, Handle(l, marks, image, p, used))
  {
    hide OpcodeOf, Handle, Decides, IsPlain, IsData, IsAddress, IsNumber, ArgsAt;
    KindsOfHandlers(OpcodeOf(image[p]));
    PushesSomething(image[p]);
    if OpcodeOf(image[p]).CASETBL? {
      TableDecides(l, marks, image, p, used);
    } else if IsPlain(OpcodeOf(image[p])) {
      PlainDecides(l, marks, image, p, used);
    } else if IsData(OpcodeOf(image[p])) {
      DataDecides(l, marks, image, p, used);
    } else if IsAddress(OpcodeOf(image[p])) {
      AddressDecides(l, marks, image, p, used);
    } else {
      NumberDecides(l, marks, image, p, used);
    }
  }

  // ---------- Whole programs ----------

  ghost predicate CallsC(l: Layout, origin: seq<Cell>, at: nat)
    requires Fits(l, origin)
  {
    exists p: nat :: IsStart(Sizes(l, origin), at, p) && p < |origin| && OpcodeOf(origin[p]).SYSREQ_C?
  }

  ghost predicate CallsN(l: Layout, origin: seq<Cell>, at: nat)
    requires Fits(l, origin)
  {
    exists p: nat :: IsStart(Sizes(l, origin), at, p) && p < |origin| && OpcodeOf(origin[p]).SYSREQ_N?
  }

  /** The instruction at `p` lies in the image, and its operands are as they must be. */
  ghost predicate InstructionOk(l: Layout, origin: seq<Cell>, p: nat)
    requires Fits(l, origin) && p < l.codeCells
  {
    && p + ArgsAt(origin, p) < l.codeCells && (OpcodeOf(origin[p]).CASETBL? ==> p + 1 < l.codeCells)
    && OperandsOk(l, Marks(Sizes(l, origin)), origin, p)
  }

  /** All instructions from `at` on are in order, and natives are called in one way, also counting those before. */
  ghost predicate InOrder(l: Layout, origin: seq<Cell>, at: nat, used: Sysreqs)
    requires Fits(l, origin)
  {
    && (forall p: nat :: p < l.codeCells && IsStart(Sizes(l, origin), at, p) ==> InstructionOk(l, origin, p))
    && !(CallsC(l, origin, at) && (used.n || CallsN(l, origin, at)))
    && !(CallsN(l, origin, at) && used.c)
  }

  /** Under the two conditions of regular programs, all operands of an instruction lie in the code. */
  lemma StartInside(l: Layout, origin: seq<Cell>, p: nat)
    requires Fits(l, origin) && Regular(l, origin) && WalkAccepts(Sizes(l, origin), 0) &&
      IsStart(Sizes(l, origin), 0, p)
    ensures p < l.codeCells && Sizes(l, origin)[p] == 1 + ArgsAt(origin, p) && p + ArgsAt(origin, p) < l.codeCells
    ensures OpcodeOf(origin[p]).CASETBL? ==> p + 1 < l.codeCells
  {
    hide SizesFrom, OpcodeOf, SizeOf, NarrowTableSize, WideTableArgs, IsStart, WalkAccepts, WalkEnd, OperandCount;
    var sizes := Sizes(l, origin);
    StartsAreAhead(sizes, 0, p);
    SizesFromAt(l, origin, 0, p);
    NextStart(sizes, 0, p);
    RegularEnds(l, origin);
    TablesAgreeOnKinds(OpcodeOf(origin[p]));
    TablesAgreeOnSizes(OpcodeOf(origin[p]));
    if OpcodeOf(origin[p]).CASETBL? && p + 1 < l.codeCells {
      TableSizesAgree(origin[p + 1]);
    }
  }

  /** The second walk reads operands that are still those of the program. */
  lemma SameOperandsOk(l: Layout, marks: seq<bool>, origin: seq<Cell>, image: seq<Cell>, p: nat)
    requires |marks| <= |origin| && Untouched(marks, origin, image, p) && p < |origin|
    requires p + ArgsAt(origin, p) < |origin| && (OpcodeOf(origin[p]).CASETBL? ==> p + 1 < |origin|)
    ensures p + ArgsAt(image, p) < |image| && (OpcodeOf(image[p]).CASETBL? ==> p + 1 < |image|)
    ensures OperandsOk(l, marks, image, p) <==> OperandsOk(l, marks, origin, p)
  {
    hide OpcodeOf, ArgsAt, Under, Between;
    SameArgs(marks, origin, image, p);
    var op := OpcodeOf(origin[p]);
    ArgsOfOpcode(origin, p);
    assert image[p] == origin[p];
    if !op.CASETBL? && OperandCount(op) >= 1 {
      assert image[p + 1] == origin[p + 1];
    }
  }

  lemma ArgsOfOpcode(image: seq<Cell>, p: nat)
    requires p < |image|
    ensures !OpcodeOf(image[p]).CASETBL? ==> ArgsAt(image, p) == OperandCount(OpcodeOf(image[p]))
  {
    hide OpcodeOf, OperandCount;
  }

  lemma StartsFrom(sizes: seq<nat>, at: nat, p: nat)
    requires at < |sizes| && sizes[at] > 0
    ensures IsStart(sizes, at, p) <==> p == at || IsStart(sizes, at + sizes[at], p)
  {
  }

  lemma CallsFrom(l: Layout, origin: seq<Cell>, at: nat)
    requires Fits(l, origin) && at < l.codeCells && Sizes(l, origin)[at] > 0
    ensures var next := at + Sizes(l, origin)[at];
      && (CallsC(l, origin, at) <==> OpcodeOf(origin[at]).SYSREQ_C? || CallsC(l, origin, next))
      && (CallsN(l, origin, at) <==> OpcodeOf(origin[at]).SYSREQ_N? || CallsN(l, origin, next))
  {
    hide OpcodeOf, IsStart, SizesFrom;
    forall p: nat
      ensures IsStart(Sizes(l, origin), at, p) <==> p == at || IsStart(Sizes(l, origin), at + Sizes(l, origin)[at], p)
    {
      StartsFrom(Sizes(l, origin), at, p);
    }
  }

  lemma InOrderStep(l: Layout, origin: seq<Cell>, at: nat, used: Sysreqs)
    requires Fits(l, origin) && at < l.codeCells && Sizes(l, origin)[at] > 0
    ensures var op := OpcodeOf(origin[at]);
      InOrder(l, origin, at, used) <==>
        && InstructionOk(l, origin, at) && SysreqOk(op, used)
        && InOrder(l, origin, at + Sizes(l, origin)[at], SysreqUsed(op, used))
  {
    hide OpcodeOf, IsStart, SizesFrom, InstructionOk, CallsC, CallsN;
    CallsFrom(l, origin, at);
    forall p: nat
      ensures IsStart(Sizes(l, origin), at, p) <==> p == at || IsStart(Sizes(l, origin), at + Sizes(l, origin)[at], p)
    {
      StartsFrom(Sizes(l, origin), at, p);
    }
  }

  lemma NothingAhead(l: Layout, origin: seq<Cell>, at: nat, used: Sysreqs)
    requires Fits(l, origin) && at >= l.codeCells
    ensures InOrder(l, origin, at, used)
  {
    hide OpcodeOf, SizesFrom, InstructionOk;
  }

  /** From any point where the walks are in step, the second one accepts exactly if everything ahead is in order. */
  lemma {:induction false} WalkAcceptsIff(l: Layout, origin: seq<Cell>, image: seq<Cell>, at: nat, used: Sysreqs)
    requires InStep(l, origin, image, at)
    ensures CheckFrom(l, Marks(Sizes(l, origin)), image, at, used).Accepted? <==> InOrder(l, origin, at, used)
    decreases l.codeCells - at
  {
    hide Handle, Sizes, Regular, WalkAccepts, IsStart, Settled, ArgsAt, InOrder, OpcodeOf, OperandsOk, SysreqOk,
      SysreqUsed;
    var marks := Marks(Sizes(l, origin));
    if at >= l.codeCells {
      NothingAhead(l, origin, at, used);
    } else {
      StartInside(l, origin, at);
      SameOperandsOk(l, marks, origin, image, at);
      HandlerDecides(l, marks, image, at, used);
      InOrderStep(l, origin, at, used);
      assert image[at] == origin[at];
      var v := Handle(l, marks, image, at, used);
      if v.Pass? {
        SecondStep(l, origin, image, at, used, v);
        WalkAcceptsIff(l, origin, v.image, at + 1 + v.args, v.used);
      }
    }
  }

  /** Acceptance of a regular program: it starts with HALT 0, the first walk meets no cell of size zero, the operands
      of every instruction are as they must be, and natives are called in one way only. */
  lemma AcceptedIff(l: Layout, origin: seq<Cell>)
    requires Fits(l, origin) && Regular(l, origin)
    ensures Accepts(l, origin) <==>
      && |origin| > 1 && origin[0] == 120 && origin[1] == 0
      && WalkAccepts(Sizes(l, origin), 0)
      && (forall p: nat :: p < l.codeCells && IsStart(Sizes(l, origin), 0, p) ==> InstructionOk(l, origin, p))
      && !(CallsC(l, origin, 0) && CallsN(l, origin, 0))
  {
    hide CheckFrom, Sizes, Regular, WalkAccepts, IsStart, OpcodeOf, InstructionOk, CallsC, CallsN;
    if |origin| > 1 {
      HaltIs120(origin[0]);
    }
    if StartsWithHalt(origin) && WalkAccepts(Sizes(l, origin), 0) {
      FirstStart(l, origin);
      WalkAcceptsIff(l, origin, origin, 0, Sysreqs(false, false));
    }
  }

  lemma HaltIs120(n: int)
    ensures OpcodeOf(n).HALT? <==> n == 120
  {
  }

  lemma FirstStart(l: Layout, origin: seq<Cell>)
    requires Fits(l, origin) && WalkAccepts(Sizes(l, origin), 0)
    ensures IsStart(Sizes(l, origin), 0, 0)
  {
    hide SizesFrom;
  }
}
