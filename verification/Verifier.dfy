/** The bytecode verifier: one walk that marks instruction starts, one that checks and relocates operands. */
module Verifier {
  import opened Cells
  import opened Opcodes

  /** What the file header tells the verifier. Sizes of data and stack are in bytes, that of the code in
      cells; the two bases are the addresses at which the sections were loaded, both 0 in a build that
      does not relocate. */
  datatype Layout = Layout(
    codeCells: nat, dataSize: nat, stackSize: nat, natives: nat, codeBase: nat, dataBase: nat)

  /** The loaded image holds the code, then the sections behind it. Every byte offset fits a cell. */
  predicate Fits(l: Layout, image: seq<Cell>) {
    0 < l.codeCells <= |image| && CELL_SIZE * |image| < 0x8000_0000
  }

  // ---------- First pass: instruction starts ----------

  /** The step of the first walk in cells, computed in an `unsigned char`; 0 when it rejects. */
  function WalkSize(l: Layout, image: seq<Cell>, at: nat): nat
    requires Fits(l, image) && at < l.codeCells
  {
    match SizeOf(OpcodeOf(image[at]))
    case Fixed(cells) => cells
    case NoSize => 0
    case TableSized => if at + 1 >= l.codeCells then 0 else NarrowTableSize(image[at + 1])
  }

  /** The size of a case table with `count` records as the first walk computes it, modulo 256. */
  function NarrowTableSize(count: Cell): nat {
    (3 + U(count) % 256 * 2) % 256
  }

  /** The step sizes at the cells of the code from `at` on. */
  function SizesFrom(l: Layout, image: seq<Cell>, at: nat): (sizes: seq<nat>)
    requires Fits(l, image) && at <= l.codeCells
    ensures |sizes| == l.codeCells - at
    decreases l.codeCells - at
  {
    if at == l.codeCells then [] else [WalkSize(l, image, at)] + SizesFrom(l, image, at + 1)
  }

  function Sizes(l: Layout, image: seq<Cell>): (sizes: seq<nat>)
    requires Fits(l, image)
    ensures |sizes| == l.codeCells
  {
    SizesFrom(l, image, 0)
  }

  lemma {:induction false} SizesFromAt(l: Layout, image: seq<Cell>, from: nat, at: nat)
    requires Fits(l, image) && from <= at < l.codeCells
    ensures SizesFrom(l, image, from)[at - from] == WalkSize(l, image, at)
    decreases at - from
  {
    hide WalkSize;
    if from < at {
      SizesFromAt(l, image, from + 1, at);
    }
  }

  /** A walk by `sizes`, started at `from`, meets no cell of size 0. */
  predicate WalkAccepts(sizes: seq<nat>, from: nat)
    decreases |sizes| - from
  {
    from >= |sizes| || (sizes[from] > 0 && WalkAccepts(sizes, from + sizes[from]))
  }

  /** The index at which such a walk leaves the code, or the cell of size 0 at which it stops. */
  function WalkEnd(sizes: seq<nat>, from: nat): nat
    decreases |sizes| - from
  {
    if from >= |sizes| || sizes[from] == 0 then from else WalkEnd(sizes, from + sizes[from])
  }

  /** Such a walk steps on cell `p`. */
  predicate IsStart(sizes: seq<nat>, from: nat, p: nat)
    decreases |sizes| - from
  {
    from < |sizes| && sizes[from] > 0 && (p == from || IsStart(sizes, from + sizes[from], p))
  }

  /** The bitmap `instr_addresses` after a walk from cell 0. */
  function Marks(sizes: seq<nat>): (marks: seq<bool>)
    ensures |marks| == |sizes|
  {
    seq(|sizes|, p requires 0 <= p < |sizes| => IsStart(sizes, 0, p))
  }

  method StepSize(l: Layout, image: array<Cell>, at: nat) returns (size: nat)
    requires Fits(l, image[..]) && at < l.codeCells
    ensures size == Sizes(l, image[..])[at]
  {
    match SizeOf(OpcodeOf(image[at])) {
      case Fixed(cells) => size := cells;
      case NoSize => size := 0;
      case TableSized =>
        size := if at + 1 >= l.codeCells then 0 else NarrowTableSize(image[at + 1]);
    }
    SizesFromAt(l, image[..], 0, at);
  }

  /** The first walk; `cip` is where it stopped. */
  method CollectStarts(l: Layout, image: array<Cell>) returns (ok: bool, cip: nat, marks: array<bool>)
    requires Fits(l, image[..])
    ensures fresh(marks) && marks.Length == l.codeCells
    ensures ok <==> WalkAccepts(Sizes(l, image[..]), 0)
    ensures ok ==> marks[..] == Marks(Sizes(l, image[..]))
    ensures cip == WalkEnd(Sizes(l, image[..]), 0)
  {
    hide WalkSize, SizesFrom;
    marks := new bool[l.codeCells](_ => false);
    ghost var sizes := Sizes(l, image[..]);
    cip := 0;
    while cip < l.codeCells
      invariant image[..] == old(image[..])
      invariant WalkEnd(sizes, cip) == WalkEnd(sizes, 0)
      invariant WalkAccepts(sizes, 0) == WalkAccepts(sizes, cip)
      invariant forall p :: 0 <= p < l.codeCells ==> (IsStart(sizes, 0, p) <==> marks[p] || IsStart(sizes, cip, p))
      decreases l.codeCells - cip
    {
      var size := StepSize(l, image, cip);
      if size == 0 {
        return false, cip, marks;
      }
      marks[cip] := true;
      cip := cip + size;
    }
    ok := true;
  }

  // ---------- Second pass: operands ----------

  /** Which of the two native-call opcodes the program has used so far. */
  datatype Sysreqs = Sysreqs(c: bool, n: bool)

  /** The outcome of one operand handler, with the image as it left it. `Runaway` stands for operands that
      lie behind the loaded image. */
  datatype Verdict =
    | Pass(args: nat, image: seq<Cell>, used: Sysreqs)
    | Reject(image: seq<Cell>)
    | Runaway

  predicate CodeOffsOk(l: Layout, marks: seq<bool>, offs: Cell)
    requires |marks| == l.codeCells
  {
    U(offs) < CELL_SIZE * l.codeCells && U(offs) % CELL_SIZE == 0 && marks[U(offs) / CELL_SIZE]
  }

  predicate DataOffsOk(l: Layout, offs: Cell) {
    U(offs) < l.dataSize
  }

  /** `arg<0 ? -arg : arg`, compared unsigned. */
  function Magnitude(arg: Cell): nat {
    var a: int := arg;
    if a < 0 then -a else a
  }

  /** A run over several operands: whether all passed, and the image as the run left it. */
  datatype OperandRun = OperandRun(ok: bool, image: seq<Cell>)

  /** Checks and relocates data operands `k` to `count` of the instruction at `at`, in order. */
  function DataRun(l: Layout, image: seq<Cell>, at: nat, k: nat, count: nat): (r: OperandRun)
    requires 1 <= k && at + count < |image|
    decreases count + 1 - k
  {
    if k > count then OperandRun(true, image)
    else if !DataOffsOk(l, image[at + k]) then OperandRun(false, image)
    else DataRun(l, image[at + k := S(image[at + k] + l.dataBase)], at, k + 1, count)
  }

  /** The cell with the jump address of record `i` of the case table at `at`; record 0 is the default. */
  function Slot(at: nat, i: nat): nat {
    at + 2 + 2 * i
  }

  /** Checks and relocates the jump addresses of records `i` to `targets - 1`, in order. */
  function CaseRun(l: Layout, marks: seq<bool>, image: seq<Cell>, at: nat, i: nat, targets: nat): (r: OperandRun)
    requires |marks| == l.codeCells && at + 2 * targets < |image|
    decreases targets - i
  {
    if i >= targets then OperandRun(true, image)
    else if !CodeOffsOk(l, marks, image[Slot(at, i)]) then OperandRun(false, image)
    else CaseRun(l, marks, image[Slot(at, i) := S(image[Slot(at, i)] + l.codeBase)], at, i + 1, targets)
  }

  /** The verdict after a run over those of the operands that lie in the image. */
  function AfterRun(r: OperandRun, complete: bool, args: nat, used: Sysreqs): Verdict {
    if !r.ok then Reject(r.image) else if complete then Pass(args, r.image, used) else Runaway
  }

  /** How many of the `count` cells behind `at` lie in the image. */
  function Within(size: nat, at: nat, count: nat): (n: nat)
    requires at < size
    ensures n <= count && at + n < size && (n == count <==> at + count < size)
  {
    if at + count < size then count else size - 1 - at
  }

  /** The number of operands of a case table, computed in a `ucell`. */
  function WideTableArgs(count: Cell): nat {
    (2 + 2 * count) % CELL_RANGE
  }

  /** The handlers that only look at their operands: whether they pass, and the native-call opcodes used then. */
  function Inspect(l: Layout, marks: seq<bool>, image: seq<Cell>, at: nat, h: Handler, used: Sysreqs): (r: (bool, Sysreqs))
    requires |marks| == l.codeCells && at + 1 < |image|
    requires h == HandlerOf(OpcodeOf(image[at])) && at + OperandCount(OpcodeOf(image[at])) < |image|
  {
    var arg := image[at + 1];
    match h
    case ByteWidth => (arg == 1 || arg == 2 || arg == 4, used)
    case StackHeap => (Magnitude(arg) < l.stackSize, used)
    case Relative => (CodeOffsOk(l, marks, S(CELL_SIZE * at + arg + 2 * CELL_SIZE)), used)
    case Sysreq =>
      if OpcodeOf(image[at]).SYSREQ_C? then (U(arg) <= l.natives && !used.n, used.(c := true))
      else (U(arg) <= l.natives && !used.c && Magnitude(image[at + 2]) < l.stackSize, used.(n := true))
    case _ => (false, used)
  }

  /** One call through the handler table, for the instruction at `at`. */
  function Handle(l: Layout, marks: seq<bool>, image: seq<Cell>, at: nat, used: Sysreqs): Verdict
    requires Fits(l, image) && |marks| == l.codeCells && at < l.codeCells
  {
    var op := OpcodeOf(image[at]);
    var h := HandlerOf(op);
    if h.Invalid? then Reject(image)
    else if h.Numbers? then Pass(h.count, image, used)
    else if at + 1 >= |image| || (!h.DataOffs? && at + OperandCount(op) >= |image|) then Runaway
    else
      var arg := image[at + 1];
      match h
      case CodeOffs =>
        if CodeOffsOk(l, marks, arg) then Pass(1, image[at + 1 := S(arg + l.codeBase)], used) else Reject(image)
      case DataOffs(count) =>
        var n := Within(|image|, at, count);
        AfterRun(DataRun(l, image, at, 1, n), n == count, count, used)
      case DataOffsNumber =>
        // the verdict on the address is dropped
        Pass(2, if DataOffsOk(l, arg) then image[at + 1 := S(arg + l.dataBase)] else image, used)
      case LctrlId =>
        if arg < 0 then Reject(image) else Pass(1, if arg > 8 then image[at + 1 := -1] else image, used)
      case SctrlId =>
        if arg < 0 then Reject(image)
        else Pass(1, if arg > 8 || arg in {0, 1, 3, 7} then image[at + 1 := -1] else image, used)
      case TableOffs =>
        if CodeOffsOk(l, marks, arg) && OpcodeOf(image[U(arg) / CELL_SIZE]).CASETBL?
        then Pass(1, image[at + 1 := S(arg + l.codeBase)], used)
        else Reject(image)
      case CaseTable =>
        var args := WideTableArgs(arg);
        var n := Within(|image|, at, args);
        AfterRun(CaseRun(l, marks, image, at, 0, n / 2), n == args, args, used)
      case ByteWidth | StackHeap | Relative | Sysreq =>
        var (ok, used') := Inspect(l, marks, image, at, h, used);
        if ok then Pass(OperandCount(op), image, used') else Reject(image)
  }

  /** A handler keeps the image's length and writes only its own operands. */
  predicate OwnOperandsOnly(image: seq<Cell>, image': seq<Cell>, at: nat, args: nat) {
    |image'| == |image| && forall k :: 0 <= k < |image| && !(at < k <= at + args) ==> image'[k] == image[k]
  }

  lemma {:induction false} DataRunEffect(l: Layout, image: seq<Cell>, at: nat, k: nat, count: nat)
    requires 1 <= k && at + count < |image|
    ensures var r := DataRun(l, image, at, k, count);
      && OwnOperandsOnly(image, r.image, at, count)
      && (forall j :: at < j < at + k && j <= at + count ==> r.image[j] == image[j])
      && (r.ok <==> forall j :: at + k <= j <= at + count ==> DataOffsOk(l, image[j]))
      && (r.ok ==> forall j :: at + k <= j <= at + count ==> r.image[j] == S(image[j] + l.dataBase))
    decreases count + 1 - k
  {
    if k <= count && DataOffsOk(l, image[at + k]) {
      var image' := image[at + k := S(image[at + k] + l.dataBase)];
      DataRunEffect(l, image', at, k + 1, count);
      assert DataRun(l, image', at, k + 1, count).image[at + k] == image'[at + k];
      assert forall j :: at + k < j <= at + count ==> image'[j] == image[j];
    }
  }

  lemma {:induction false} CaseRunEffect(l: Layout, marks: seq<bool>, image: seq<Cell>, at: nat, i: nat, targets: nat)
    requires |marks| == l.codeCells && at + 2 * targets < |image|
    ensures var r := CaseRun(l, marks, image, at, i, targets);
      && OwnOperandsOnly(image, r.image, at, 2 * targets)
      && (forall j :: at < j <= at + 2 * targets && (j < Slot(at, i) || (j - at) % 2 == 1) ==> r.image[j] == image[j])
      && (r.ok <==> forall m :: i <= m < targets ==> CodeOffsOk(l, marks, image[Slot(at, m)]))
      && (r.ok ==> forall m :: i <= m < targets ==> r.image[Slot(at, m)] == S(image[Slot(at, m)] + l.codeBase))
    decreases targets - i
  {
    if i < targets && CodeOffsOk(l, marks, image[Slot(at, i)]) {
      CaseRunEffect(l, marks, image[Slot(at, i) := S(image[Slot(at, i)] + l.codeBase)], at, i + 1, targets);
    }
  }

  lemma HandlerFrame(l: Layout, marks: seq<bool>, image: seq<Cell>, at: nat, used: Sysreqs)
    requires Fits(l, image) && |marks| == l.codeCells && at < l.codeCells
    requires Handle(l, marks, image, at, used).Pass?
    ensures var v := Handle(l, marks, image, at, used); OwnOperandsOnly(image, v.image, at, v.args)
  {
    var op := OpcodeOf(image[at]);
    if HandlerOf(op).DataOffs? {
      DataRunEffect(l, image, at, 1, HandlerOf(op).count);
    } else if HandlerOf(op).CaseTable? {
      CaseRunEffect(l, marks, image, at, 0, WideTableArgs(image[at + 1]) / 2);
    }
  }

  /** The outcome of the whole pass: the relocated image, or where the walk stood when it gave up. */
  datatype Checked =
    | Accepted(image: seq<Cell>, used: Sysreqs)
    | InvalidInstruction(at: nat, image: seq<Cell>)
    | LeavesImage(at: nat)

  /** The second walk, from `at` on, over the image as far as it has been relocated. */
  function CheckFrom(l: Layout, marks: seq<bool>, image: seq<Cell>, at: nat, used: Sysreqs): Checked
    requires Fits(l, image) && |marks| == l.codeCells
    decreases l.codeCells - at
  {
    if at >= l.codeCells then Accepted(image, used)
    else
      match Handle(l, marks, image, at, used)
      case Reject(image') => InvalidInstruction(at, image')
      case Runaway => LeavesImage(at)
      case Pass(args, image', used') =>
        HandlerFrame(l, marks, image, at, used);
        CheckFrom(l, marks, image', at + 1 + args, used')
  }

  predicate StartsWithHalt(image: seq<Cell>) {
    |image| > 1 && OpcodeOf(image[0]).HALT? && image[1] == 0
  }

  /** The two walks together. */
  function Verify(l: Layout, image: seq<Cell>): Checked
    requires Fits(l, image) && StartsWithHalt(image) && WalkAccepts(Sizes(l, image), 0)
  {
    CheckFrom(l, Marks(Sizes(l, image)), image, 0, Sysreqs(false, false))
  }

  predicate Accepts(l: Layout, image: seq<Cell>)
    requires Fits(l, image)
  {
    StartsWithHalt(image) && WalkAccepts(Sizes(l, image), 0) && Verify(l, image).Accepted?
  }

  method RelocateData(l: Layout, image: array<Cell>, at: nat, count: nat) returns (ok: bool)
    requires at + count < image.Length
    modifies image
    ensures ok <==> DataRun(l, old(image[..]), at, 1, count).ok
    ensures image[..] == DataRun(l, old(image[..]), at, 1, count).image
  {
    ghost var all := DataRun(l, image[..], at, 1, count);
    var k := 1;
    while k <= count
      invariant 1 <= k <= count + 1
      invariant DataRun(l, image[..], at, k, count) == all
    {
      if !DataOffsOk(l, image[at + k]) {
        return false;
      }
      ghost var before := image[..];
      image[at + k] := S(image[at + k] + l.dataBase);
      assert image[..] == before[at + k := S(before[at + k] + l.dataBase)];
      k := k + 1;
    }
    ok := true;
  }

  method RelocateCases(l: Layout, marks: array<bool>, image: array<Cell>, at: nat, targets: nat) returns (ok: bool)
    requires marks.Length == l.codeCells && at + 2 * targets < image.Length
    modifies image
    ensures ok <==> CaseRun(l, marks[..], old(image[..]), at, 0, targets).ok
    ensures image[..] == CaseRun(l, marks[..], old(image[..]), at, 0, targets).image
  {
    ghost var all := CaseRun(l, marks[..], image[..], at, 0, targets);
    var i := 0;
    while i < targets
      invariant CaseRun(l, marks[..], image[..], at, i, targets) == all
    {
      if !CodeOffsOk(l, marks[..], image[Slot(at, i)]) {
        return false;
      }
      ghost var before := image[..];
      image[Slot(at, i)] := S(image[Slot(at, i)] + l.codeBase);
      assert image[..] == before[Slot(at, i) := S(before[Slot(at, i)] + l.codeBase)];
      i := i + 1;
    }
    ok := true;
  }

  /** What a handler reports to the loop of the second walk. */
  datatype Report = Passed(args: nat, used: Sysreqs) | Rejected | RanAway

  ghost predicate ReportsAs(r: Report, v: Verdict, image: seq<Cell>) {
    match v
    case Pass(args, image', used) => r == Passed(args, used) && image == image'
    case Reject(image') => r == Rejected && image == image'
    case Runaway => r == RanAway
  }

  method RunHandler(l: Layout, marks: array<bool>, image: array<Cell>, at: nat, used: Sysreqs) returns (r: Report)
    requires Fits(l, image[..]) && marks.Length == l.codeCells && at < l.codeCells
    modifies image
    ensures ReportsAs(r, Handle(l, marks[..], old(image[..]), at, used), image[..])
  {
    var op := OpcodeOf(image[at]);
    var h := HandlerOf(op);
    if h.Invalid? {
      return Rejected;
    } else if h.Numbers? {
      return Passed(h.count, used);
    } else if at + 1 >= image.Length || (!h.DataOffs? && at + OperandCount(op) >= image.Length) {
      return RanAway;
    }
    var arg := image[at + 1];
    match h {
      case DataOffs(count) =>
        var n := Within(image.Length, at, count);
        var ok := RelocateData(l, image, at, n);
        r := if !ok then Rejected else if n == count then Passed(count, used) else RanAway;
      case CaseTable =>
        var args := WideTableArgs(arg);
        var n := Within(image.Length, at, args);
        var ok := RelocateCases(l, marks, image, at, n / 2);
        r := if !ok then Rejected else if n == args then Passed(args, used) else RanAway;
      case CodeOffs | DataOffsNumber | LctrlId | SctrlId | TableOffs =>
        r := RunWriter(l, marks, image, at, h, used);
      case ByteWidth | StackHeap | Relative | Sysreq =>
        var (ok, used') := Inspect(l, marks[..], image[..], at, h, used);
        r := if ok then Passed(OperandCount(op), used') else Rejected;
    }
  }

  /** The handlers that may replace their first operand. */
  method RunWriter(l: Layout, marks: array<bool>, image: array<Cell>, at: nat, h: Handler, used: Sysreqs) returns (r: Report)
    requires Fits(l, image[..]) && marks.Length == l.codeCells && at < l.codeCells && at + 1 < image.Length
    requires at + OperandCount(OpcodeOf(image[at])) < image.Length && h == HandlerOf(OpcodeOf(image[at]))
    requires h.CodeOffs? || h.DataOffsNumber? || h.LctrlId? || h.SctrlId? || h.TableOffs?
    modifies image
    ensures ReportsAs(r, Handle(l, marks[..], old(image[..]), at, used), image[..])
  {
    ghost var before := image[..];
    var arg := image[at + 1];
    var arg': Cell := arg;
    match h {
      case CodeOffs =>
        if !CodeOffsOk(l, marks[..], arg) {
          return Rejected;
        }
        arg' := S(arg + l.codeBase);
      case DataOffsNumber =>
        if DataOffsOk(l, arg) {
          arg' := S(arg + l.dataBase);
        }
      case LctrlId =>
        if arg < 0 {
          return Rejected;
        } else if arg > 8 {
          arg' := -1;
        }
      case SctrlId =>
        if arg < 0 {
          return Rejected;
        } else if arg > 8 || arg == 0 || arg == 1 || arg == 3 || arg == 7 {
          arg' := -1;
        }
      case TableOffs =>
        if !CodeOffsOk(l, marks[..], arg) || !OpcodeOf(image[U(arg) / CELL_SIZE]).CASETBL? {
          return Rejected;
        }
        arg' := S(arg + l.codeBase);
    }
    image[at + 1] := arg';
    assert image[..] == before[at + 1 := arg'];
    assert arg' == before[at + 1] ==> image[..] == before;
    r := Passed(if h.DataOffsNumber? then 2 else 1, used);
  }

  /** What the second walk from `cip` on comes to, once the instruction at `cip` got report `r` and left `image`. */
  ghost predicate Continues(l: Layout, marks: seq<bool>, c: Checked, r: Report, cip: nat, image: seq<Cell>)
    requires Fits(l, image) && |marks| == l.codeCells
  {
    match r
    case Passed(args, used) => c == CheckFrom(l, marks, image, cip + 1 + args, used)
    case Rejected => c == InvalidInstruction(cip, image)
    case RanAway => c == LeavesImage(cip)
  }

  method CheckInstruction(l: Layout, marks: array<bool>, image: array<Cell>, cip: nat, used: Sysreqs) returns (r: Report)
    requires Fits(l, image[..]) && marks.Length == l.codeCells && cip < l.codeCells
    modifies image
    ensures Continues(l, marks[..], CheckFrom(l, marks[..], old(image[..]), cip, used), r, cip, image[..])
  {
    hide Handle, OpcodeOf;
    r := RunHandler(l, marks, image, cip, used);
  }

  method CheckInstructions(l: Layout, marks: array<bool>, image: array<Cell>) returns (r: Report, cip: nat)
    requires Fits(l, image[..]) && marks.Length == l.codeCells
    modifies image
    ensures var c := CheckFrom(l, marks[..], old(image[..]), 0, Sysreqs(false, false));
      match r
      case Passed(_, used) => c == Accepted(image[..], used)
      case Rejected => c == InvalidInstruction(cip, image[..])
      case RanAway => c == LeavesImage(cip)
  {
    hide Handle, OpcodeOf;
    ghost var all := CheckFrom(l, marks[..], image[..], 0, Sysreqs(false, false));
    cip := 0;
    r := Passed(0, Sysreqs(false, false));
    while cip < l.codeCells
      invariant r.Passed?
      invariant all == CheckFrom(l, marks[..], image[..], cip, r.used)
      decreases l.codeCells - cip
    {
      r := CheckInstruction(l, marks, image, cip, r.used);
      if !r.Passed? {
        return;
      }
      cip := cip + 1 + r.args;
    }
  }

  /** `VerifyRelocateBytecode` after its header checks: relocates `image` in place. On failure `cip` is the
      cell it reports. */
  method VerifyRelocate(l: Layout, image: array<Cell>) returns (r: Report, cip: nat, marks: array<bool>)
    requires Fits(l, image[..])
    modifies image
    ensures fresh(marks) && marks.Length == l.codeCells
    ensures r.Passed? <==> Accepts(l, old(image[..]))
    ensures r.Passed? ==>
      && marks[..] == Marks(Sizes(l, old(image[..])))
      && image[..] == Verify(l, old(image[..])).image
    ensures r.Rejected? ==> RejectedAt(l, old(image[..]), cip, image[..])
    ensures r.RanAway? <==> StartsWithHalt(old(image[..])) && WalkAccepts(Sizes(l, old(image[..])), 0)
                            && Verify(l, old(image[..])).LeavesImage?
  {
    hide CheckFrom, WalkSize, SizesFrom;
    if image.Length < 2 || !OpcodeOf(image[0]).HALT? || image[1] != 0 {
      marks := new bool[l.codeCells](_ => false);
      return Rejected, 0, marks;
    }
    var collected;
    collected, cip, marks := CollectStarts(l, image);
    if !collected {
      return Rejected, cip, marks;
    }
    r, cip := CheckInstructions(l, marks, image);
  }

  /** Where a program is rejected: at its first cell, at the cell that the first walk cannot pass, with nothing
      relocated, or at the instruction whose handler failed, with the image relocated up to there. */
  ghost predicate RejectedAt(l: Layout, origin: seq<Cell>, cip: nat, image: seq<Cell>)
    requires Fits(l, origin)
  {
    if !StartsWithHalt(origin) then cip == 0 && image == origin
    else if !WalkAccepts(Sizes(l, origin), 0) then cip == WalkEnd(Sizes(l, origin), 0) && image == origin
    else Verify(l, origin) == InvalidInstruction(cip, image)
  }
}
