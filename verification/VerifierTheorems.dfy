/** What acceptance by the verifier means: both walks visit the same cells, and every instruction they
    visit has been checked and relocated exactly once. */
module VerifierTheorems {
  import opened Cells
  import opened Opcodes
  import opened Verifier

  /** The conditions on a program under which the two walks agree: the first ends on the end of the code
      and no case table has a record count whose size does not fit an `unsigned char`. */
  predicate Regular(l: Layout, image: seq<Cell>)
    requires Fits(l, image)
  {
    && WalkEnd(Sizes(l, image), 0) == l.codeCells
    && forall p :: 0 <= p && p + 1 < l.codeCells && IsStart(Sizes(l, image), 0, p) && OpcodeOf(image[p]).CASETBL? ==>
         0 <= image[p + 1] <= 126
  }

  lemma RegularEnds(l: Layout, image: seq<Cell>)
    requires Fits(l, image) && Regular(l, image)
    ensures WalkEnd(Sizes(l, image), 0) == l.codeCells
  {
    hide SizesFrom, WalkEnd, IsStart, OpcodeOf;
  }

  /** The first walk, which computes the size of a table in an unsigned char, measures it as the second does
      exactly for counts that are, up to a multiple of 2^31, between -1 and 126. */
  lemma TableSizesAgree(count: Cell)
    ensures NarrowTableSize(count) == 1 + WideTableArgs(count) <==> (count + 1) % 0x8000_0000 <= 127
  {
    hide NarrowTableSize, WideTableArgs;
    NarrowSizeIs(count);
    WideArgsIs(count);
    Narrowed(count + 1);
  }

  /** With the default, a table has one record more than its count says. */
  lemma NarrowSizeIs(count: Cell)
    ensures NarrowTableSize(count) == 1 + 2 * ((count + 1) % 128)
  {
    var u: int, records: int := U(count), count + 1;
    var low := u % 256;
    var t := records % 128;
    var wrapped := if count < 0 then 0x200_0000 else 0;
    Remainder128(low + 1, records / 128 + wrapped - 2 * (u / 256), t);
    NarrowSum(low, t);
  }

  lemma NarrowSum(low: nat, t: nat)
    requires low < 256 && t == (low + 1) % 128
    ensures (3 + low * 2) % 256 == 1 + 2 * t
  {
  }

  lemma Remainder128(x: int, q: int, r: int)
    requires 0 <= r < 128 && x == 128 * q + r
    ensures x % 128 == r
  {
  }

  lemma WideArgsIs(count: Cell)
    ensures WideTableArgs(count) == 2 * ((count + 1) % 0x8000_0000)
  {
  }

  lemma Narrowed(records: int)
    ensures records % 128 == records % 0x8000_0000 <==> records % 0x8000_0000 < 128
  {
    var m := records % 0x8000_0000;
    if m < 128 {
      Remainder128(records, 0x100_0000 * (records / 0x8000_0000), m);
    }
  }

  /** The number of operands of the instruction at `at`. */
  function ArgsAt(image: seq<Cell>, at: nat): nat
    requires at < |image|
  {
    var op := OpcodeOf(image[at]);
    if !op.CASETBL? then OperandCount(op)
    else if at + 1 < |image| then WideTableArgs(image[at + 1])
    else 0
  }

  /** If there is a case table at `at`, all of it lies in the image. */
  predicate TableInside(image: seq<Cell>, at: nat)
    requires at < |image|
  {
    OpcodeOf(image[at]).CASETBL? ==> at + 1 < |image| && at + WideTableArgs(image[at + 1]) < |image|
  }

  /** The cells of the second walk. */
  predicate Visits(l: Layout, marks: seq<bool>, image: seq<Cell>, at: nat, used: Sysreqs, p: nat)
    requires Fits(l, image) && |marks| == l.codeCells
    decreases l.codeCells - at
  {
    at < l.codeCells &&
    (p == at ||
     match Handle(l, marks, image, at, used)
     case Pass(args, image', used') =>
       HandlerFrame(l, marks, image, at, used);
       Visits(l, marks, image', at + 1 + args, used', p)
     case _ => false)
  }

  /** The instruction at `p` of `image` passed its handler, and `image'` holds its relocated form. */
  predicate Settled(l: Layout, marks: seq<bool>, image: seq<Cell>, image': seq<Cell>, p: nat)
    requires |marks| == l.codeCells && |image'| == |image| && l.codeCells <= |image| && p < l.codeCells
  {
    var op := OpcodeOf(image[p]);
    && image'[p] == image[p]
    && match HandlerOf(op)
       case Invalid => false
       case Numbers(n) => forall j :: p < j <= p + n && j < |image| ==> image'[j] == image[j]
       case h => p + OperandCount(op) < |image| && p + 1 < |image| && SettledOperands(l, marks, image, image', p, op, h)
  }

  predicate SettledOperands(
    l: Layout, marks: seq<bool>, image: seq<Cell>, image': seq<Cell>, p: nat, op: Opcode, h: Handler)
    requires |marks| == l.codeCells && |image'| == |image| && l.codeCells <= |image|
    requires !h.Invalid? && !h.Numbers? && h == HandlerOf(op) && p + OperandCount(op) < |image| && p + 1 < |image|
  {
    var arg, arg' := image[p + 1], image'[p + 1];
    match h
    case CodeOffs => CodeOffsOk(l, marks, arg) && arg' == S(arg + l.codeBase)
    case DataOffs(n) =>
      forall j :: p < j <= p + n ==> DataOffsOk(l, image[j]) && image'[j] == S(image[j] + l.dataBase)
    case DataOffsNumber =>
      image'[p + 2] == image[p + 2] && arg' == if DataOffsOk(l, arg) then S(arg + l.dataBase) else arg
    case ByteWidth => arg in {1, 2, 4} && arg' == arg
    case LctrlId => 0 <= arg && arg' == if arg > 8 then -1 else arg
    case SctrlId => 0 <= arg && arg' == if arg > 8 || arg in {0, 1, 3, 7} then -1 else arg
    case StackHeap => Magnitude(arg) < l.stackSize && arg' == arg
    case Relative => CodeOffsOk(l, marks, S(CELL_SIZE * p + arg + 2 * CELL_SIZE)) && arg' == arg
    case Sysreq =>
      && U(arg) <= l.natives && arg' == arg
      && (op.SYSREQ_N? ==> Magnitude(image[p + 2]) < l.stackSize && image'[p + 2] == image[p + 2])
    case TableOffs =>
      && CodeOffsOk(l, marks, arg) && arg' == S(arg + l.codeBase)
      && OpcodeOf(image[U(arg) / CELL_SIZE]).CASETBL?
    case CaseTable =>
      && p + WideTableArgs(arg) < |image|
      && (forall j :: p < j <= p + WideTableArgs(arg) && (j - p) % 2 == 1 ==> image'[j] == image[j])
      && (forall m :: 0 <= m < WideTableArgs(arg) / 2 ==>
            && CodeOffsOk(l, marks, image[Slot(p, m)])
            && image'[Slot(p, m)] == S(image[Slot(p, m)] + l.codeBase))
  }

  ghost predicate Settles(l: Layout, marks: seq<bool>, image: seq<Cell>, at: nat, v: Verdict)
    requires Fits(l, image) && |marks| == l.codeCells && at < l.codeCells && v.Pass?
  {
    && TableInside(image, at) && v.args == ArgsAt(image, at)
    && OwnOperandsOnly(image, v.image, at, v.args)
    && Settled(l, marks, image, v.image, at)
  }

  lemma HandlerSettles(l: Layout, marks: seq<bool>, image: seq<Cell>, at: nat, used: Sysreqs)
    requires Fits(l, image) && |marks| == l.codeCells && at < l.codeCells
    requires Handle(l, marks, image, at, used).Pass?
    ensures Settles(l, marks, image, at, Handle(l, marks, image, at, used))
  {
    hide OpcodeOf, HandlerOf, Handle, Settles;
    var h := HandlerOf(OpcodeOf(image[at]));
    if h.DataOffs? {
      DataSettles(l, marks, image, at, used);
    } else if h.CaseTable? {
      TableSettles(l, marks, image, at, used);
    } else {
      OneSettles(l, marks, image, at, used);
    }
  }

  lemma DataSettles(l: Layout, marks: seq<bool>, image: seq<Cell>, at: nat, used: Sysreqs)
    requires Fits(l, image) && |marks| == l.codeCells && at < l.codeCells
    requires Handle(l, marks, image, at, used).Pass? && HandlerOf(OpcodeOf(image[at])).DataOffs?
    ensures Settles(l, marks, image, at, Handle(l, marks, image, at, used))
  {
    hide OpcodeOf, HandlerOf, DataRun, CaseRun, Inspect, S, CodeOffsOk, DataOffsOk;
    CaseTablesHaveTheirHandler(OpcodeOf(image[at]));
    DataRunEffect(l, image, at, 1, HandlerOf(OpcodeOf(image[at])).count);
  }

  lemma TableSettles(l: Layout, marks: seq<bool>, image: seq<Cell>, at: nat, used: Sysreqs)
    requires Fits(l, image) && |marks| == l.codeCells && at < l.codeCells
    requires Handle(l, marks, image, at, used).Pass? && HandlerOf(OpcodeOf(image[at])).CaseTable?
    ensures Settles(l, marks, image, at, Handle(l, marks, image, at, used))
  {
    hide OpcodeOf, HandlerOf, DataRun, CaseRun, Inspect, S, CodeOffsOk, DataOffsOk;
    CaseTablesHaveTheirHandler(OpcodeOf(image[at]));
    CaseRunEffect(l, marks, image, at, 0, WideTableArgs(image[at + 1]) / 2);
  }

  lemma OneSettles(l: Layout, marks: seq<bool>, image: seq<Cell>, at: nat, used: Sysreqs)
    requires Fits(l, image) && |marks| == l.codeCells && at < l.codeCells
    requires Handle(l, marks, image, at, used).Pass?
    requires var h := HandlerOf(OpcodeOf(image[at])); !h.DataOffs? && !h.CaseTable?
    ensures Settles(l, marks, image, at, Handle(l, marks, image, at, used))
  {
    hide OpcodeOf, HandlerOf, DataRun, CaseRun, S, CodeOffsOk, DataOffsOk;
    CaseTablesHaveTheirHandler(OpcodeOf(image[at]));
  }

  // ---------- Facts about walks ----------

  lemma {:induction false} NoStartInside(sizes: seq<nat>, from: nat, at: nat, k: nat)
    requires at < |sizes| && IsStart(sizes, from, at) && at < k < at + sizes[at]
    ensures !IsStart(sizes, from, k)
    decreases |sizes| - from
  {
    if from == at {
      StartsAreAhead(sizes, at + sizes[at], k);
    } else {
      StartsAreAhead(sizes, from + sizes[from], at);
      NoStartInside(sizes, from + sizes[from], at, k);
    }
  }

  /** A walk over three instructions, the second of which has `k` cells. */
  lemma WalkOfThree(sizes: seq<nat>, k: nat)
    requires |sizes| > 2 + k && sizes[0] == 2 && sizes[2] == k > 0 && 2 + k + sizes[2 + k] == |sizes|
    ensures WalkAccepts(sizes, 0) && WalkEnd(sizes, 0) == |sizes|
    ensures forall p: nat :: IsStart(sizes, 0, p) <==> p in {0, 2, 2 + k}
  {
    var last := 2 + k;
    assert WalkAccepts(sizes, |sizes|) && WalkEnd(sizes, |sizes|) == |sizes|;
    assert WalkAccepts(sizes, last) && WalkEnd(sizes, last) == |sizes|;
    assert WalkAccepts(sizes, 2) && WalkEnd(sizes, 2) == |sizes|;
    assert forall p: nat :: !IsStart(sizes, |sizes|, p);
    assert forall p: nat :: IsStart(sizes, last, p) <==> p == last;
    assert forall p: nat :: IsStart(sizes, 2, p) <==> p == 2 || p == last;
  }

  /** A walk over two instructions, the second of which may reach behind the code. */
  lemma WalkOfTwo(sizes: seq<nat>)
    requires |sizes| == 3 && sizes[0] == 2 && sizes[2] > 0
    ensures WalkAccepts(sizes, 0) && WalkEnd(sizes, 0) == 2 + sizes[2]
    ensures forall p: nat :: IsStart(sizes, 0, p) <==> p in {0, 2}
  {
    var end := 2 + sizes[2];
    assert WalkAccepts(sizes, end) && WalkEnd(sizes, end) == end;
    assert forall p: nat :: !IsStart(sizes, end, p);
    assert WalkAccepts(sizes, 2) && WalkEnd(sizes, 2) == end;
    assert forall p: nat :: IsStart(sizes, 2, p) <==> p == 2;
  }

  lemma {:induction false} StartsAreAhead(sizes: seq<nat>, from: nat, p: nat)
    ensures IsStart(sizes, from, p) ==> from <= p < |sizes| && sizes[p] > 0
    decreases |sizes| - from
  {
    if from < |sizes| && sizes[from] > 0 && p != from {
      StartsAreAhead(sizes, from + sizes[from], p);
    }
  }

  lemma {:induction false} NextStart(sizes: seq<nat>, from: nat, at: nat)
    requires at < |sizes| && IsStart(sizes, from, at) && WalkAccepts(sizes, from)
    ensures WalkAccepts(sizes, at) && WalkEnd(sizes, at) == WalkEnd(sizes, from)
    ensures at + sizes[at] < |sizes| ==> IsStart(sizes, from, at + sizes[at])
    ensures WalkEnd(sizes, from) == |sizes| ==> at + sizes[at] <= |sizes|
    decreases |sizes| - from
  {
    if from == at {
      WalkEndIsAhead(sizes, at + sizes[at]);
    } else {
      NextStart(sizes, from + sizes[from], at);
    }
  }

  lemma {:induction false} WalkEndIsAhead(sizes: seq<nat>, from: nat)
    requires WalkAccepts(sizes, from)
    ensures WalkEnd(sizes, from) >= from && WalkEnd(sizes, from) >= |sizes|
    decreases |sizes| - from
  {
    if from < |sizes| {
      WalkEndIsAhead(sizes, from + sizes[from]);
    }
  }

  // ---------- The second walk follows the first ----------

  /** `image` still shows the original program `origin` in all cells from `at` on and at every start. */
  ghost predicate Untouched(marks: seq<bool>, origin: seq<Cell>, image: seq<Cell>, at: nat)
    requires |marks| <= |origin|
  {
    && |image| == |origin|
    && (forall k :: at <= k < |image| ==> image[k] == origin[k])
    && (forall k :: 0 <= k < |marks| && marks[k] ==> image[k] == origin[k])
  }

  /** Being settled depends on the program as it was before the walk reached the instruction. */
  lemma SettledTransfers(l: Layout, marks: seq<bool>, image: seq<Cell>, image': seq<Cell>, origin: seq<Cell>, p: nat)
    requires l.codeCells == |marks| <= |origin| && |image'| == |image| && p < l.codeCells
    requires Untouched(marks, origin, image, p)
    requires Settled(l, marks, image, image', p)
    ensures Settled(l, marks, origin, image', p)
  {
    hide OpcodeOf, HandlerOf;
    assert image[p] == origin[p];
    assert p + 1 < |image| ==> image[p + 1] == origin[p + 1];
  }

  /** A settled instruction stays settled while the walk goes on behind it. */
  lemma SettledStays(l: Layout, marks: seq<bool>, origin: seq<Cell>, image: seq<Cell>, image': seq<Cell>, p: nat)
    requires l.codeCells == |marks| <= |origin| && |image'| == |image| == |origin| && p < l.codeCells
    requires Settled(l, marks, origin, image, p)
    requires forall k :: 0 <= k <= p + ArgsAt(origin, p) && k < |image| ==> image'[k] == image[k]
    ensures Settled(l, marks, origin, image', p)
  {
  }

  lemma StepsAgree(l: Layout, image: seq<Cell>, at: nat)
    requires Fits(l, image) && Regular(l, image) && WalkAccepts(Sizes(l, image), 0)
    requires at < l.codeCells && IsStart(Sizes(l, image), 0, at) && TableInside(image, at)
    ensures Sizes(l, image)[at] == 1 + ArgsAt(image, at)
  {
    hide IsStart, WalkAccepts, WalkEnd, SizesFrom, OpcodeOf, SizeOf, HandlerOf, OperandCount, NarrowTableSize, WideTableArgs;
    var sizes := Sizes(l, image);
    if at + 1 < |image| {
      TableSizesAgree(image[at + 1]);
    }
    TablesAgreeOnKinds(OpcodeOf(image[at]));
    TablesAgreeOnSizes(OpcodeOf(image[at]));
    SizesFromAt(l, image, 0, at);
    StartsAreAhead(sizes, 0, at);
  }

  lemma SameArgs(marks: seq<bool>, origin: seq<Cell>, image: seq<Cell>, at: nat)
    requires |marks| <= |origin| && at < |image| && Untouched(marks, origin, image, at)
    ensures ArgsAt(origin, at) == ArgsAt(image, at) && TableInside(origin, at) == TableInside(image, at)
  {
    assert image[at] == origin[at];
  }

  /** The second walk stands at `at`, where the first stood too. */
  ghost predicate InStep(l: Layout, origin: seq<Cell>, image: seq<Cell>, at: nat) {
    && Fits(l, origin) && Regular(l, origin) && WalkAccepts(Sizes(l, origin), 0)
    && at <= l.codeCells && (at < l.codeCells ==> IsStart(Sizes(l, origin), 0, at))
    && Untouched(Marks(Sizes(l, origin)), origin, image, at)
  }

  /** One step of the second walk, with verdict `v`: it steps as far as the first one did and settles the
      instruction. */
  lemma SecondStep(l: Layout, origin: seq<Cell>, image: seq<Cell>, at: nat, used: Sysreqs, v: Verdict)
    requires InStep(l, origin, image, at) && at < l.codeCells
    requires v == Handle(l, Marks(Sizes(l, origin)), image, at, used) && v.Pass?
    ensures Sizes(l, origin)[at] == 1 + v.args == 1 + ArgsAt(origin, at)
    ensures at + 1 + v.args <= l.codeCells
    ensures InStep(l, origin, v.image, at + 1 + v.args)
    ensures Settled(l, Marks(Sizes(l, origin)), origin, v.image, at)
    ensures forall k :: 0 <= k < at ==> v.image[k] == image[k]
  {
    hide Handle, Settled, ArgsAt, TableInside, CheckFrom, Regular, Sizes, WalkAccepts, WalkEnd, IsStart;
    var sizes := Sizes(l, origin);
    var marks := Marks(sizes);
    HandlerSettles(l, marks, image, at, used);
    SameArgs(marks, origin, image, at);
    StepsAgree(l, origin, at);
    RegularEnds(l, origin);
    NextStart(sizes, 0, at);
    forall k | 0 <= k < l.codeCells && marks[k]
      ensures v.image[k] == origin[k]
    {
      if at < k < at + sizes[at] {
        NoStartInside(sizes, 0, at, k);
      }
    }
    SettledTransfers(l, marks, image, v.image, origin, at);
  }

  /** From any point where the walks are in step: an accepting second walk visits exactly the starts ahead,
      leaves them settled and does not touch what lies behind. */
  lemma {:induction false} SecondWalk(l: Layout, origin: seq<Cell>, image: seq<Cell>, at: nat, used: Sysreqs, p: nat)
    requires InStep(l, origin, image, at)
    requires CheckFrom(l, Marks(Sizes(l, origin)), image, at, used).Accepted?
    ensures var sizes := Sizes(l, origin);
      var final := CheckFrom(l, Marks(sizes), image, at, used).image;
      && |final| == |origin|
      && (forall k :: 0 <= k < at ==> final[k] == image[k])
      && (Visits(l, Marks(sizes), image, at, used, p) <==> IsStart(sizes, at, p))
      && (IsStart(sizes, at, p) ==>
            p < l.codeCells && Settled(l, Marks(sizes), origin, final, p)
            && sizes[p] == 1 + ArgsAt(origin, p) && p + sizes[p] <= l.codeCells)
    decreases l.codeCells - at
  {
    hide Handle, Settled, ArgsAt, WalkSize, Regular, SizesFrom, OpcodeOf;
    var sizes := Sizes(l, origin);
    var marks := Marks(sizes);
    if at < l.codeCells {
      var v := Handle(l, marks, image, at, used);
      SecondStep(l, origin, image, at, used, v);
      SecondWalk(l, origin, v.image, at + sizes[at], v.used, p);
      if p == at {
        SettledStays(l, marks, origin, v.image, CheckFrom(l, marks, image, at, used).image, p);
      }
    }
  }

  /** Both passes visit the same cells, on every accepted regular program. */
  lemma PassesVisitTheSameStarts(l: Layout, image: seq<Cell>, p: nat)
    requires Fits(l, image) && Regular(l, image) && Accepts(l, image)
    ensures Visits(l, Marks(Sizes(l, image)), image, 0, Sysreqs(false, false), p) <==> IsStart(Sizes(l, image), 0, p)
  {
    hide CheckFrom, Visits, Regular, WalkSize;
    SecondWalk(l, image, image, 0, Sysreqs(false, false), p);
  }

  /** Every instruction of an accepted regular program lies in the code and is settled in the relocated image. */
  lemma AcceptedIsSettled(l: Layout, image: seq<Cell>, p: nat)
    requires Fits(l, image) && Regular(l, image) && Accepts(l, image)
    requires IsStart(Sizes(l, image), 0, p)
    ensures p < l.codeCells && |Verify(l, image).image| == |image|
    ensures Settled(l, Marks(Sizes(l, image)), image, Verify(l, image).image, p)
    ensures Sizes(l, image)[p] == 1 + ArgsAt(image, p) && p + ArgsAt(image, p) < l.codeCells
  {
    hide CheckFrom, Settled, Regular, WalkSize, ArgsAt;
    SecondWalk(l, image, image, 0, Sysreqs(false, false), p);
  }

  /** The handler of CONST passes every address, whether or not it lies in the data section. */
  lemma ConstIsNotTested(l: Layout, marks: seq<bool>, image: seq<Cell>, at: nat, used: Sysreqs)
    requires Fits(l, image) && |marks| == l.codeCells && at < l.codeCells && at + 2 < |image|
    requires HandlerOf(OpcodeOf(image[at])).DataOffsNumber?
    ensures Handle(l, marks, image, at, used).Pass?
    ensures Handle(l, marks, image, at, used).image == image <==>
      (!DataOffsOk(l, image[at + 1]) || S(image[at + 1] + l.dataBase) == image[at + 1])
  {
    hide OpcodeOf, S;
    var arg := image[at + 1];
    if DataOffsOk(l, arg) && S(arg + l.dataBase) != arg {
      assert Handle(l, marks, image, at, used).image[at + 1] == S(arg + l.dataBase);
    }
  }
}
