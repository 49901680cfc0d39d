/** Case tables too long for the linear search: the binary search takes addresses for values, and leaves the
    instruction starts of accepted programs. */
module CaseTables {
  import opened Cells
  import opened Opcodes
  import opened Verifier
  import opened VerifierTheorems
  import opened Machine
  import opened ControlFlow

  lemma {:induction false} LinearCaseFinds(P: Program, table: int, i: nat, v: Cell)
    requires 1 <= i && forall j :: 1 <= j < i ==> !HasValue(P, table, j, v)
    ensures FirstCase(P, table, v, LinearCase(P, table, i, v))
    decreases P.Num(table, 1) - i
  {
    hide Program.Num, Program.CodeArg, LinearCase, HasValue;
    LinearCaseStep(P, table, i, v);
    if i <= P.Num(table, 1) && !HasValue(P, table, i, v) {
      LinearCaseFinds(P, table, i + 1, v);
    }
  }

  lemma LinearCaseStep(P: Program, table: int, i: nat, v: Cell)
    ensures LinearCase(P, table, i, v) ==
      if i > P.Num(table, 1) then P.CodeArg(table, 2)
      else if HasValue(P, table, i, v) then P.CodeArg(table, 2 * i + 2)
      else LinearCase(P, table, i + 1, v)
  {
    hide Program.Num, Program.CodeArg;
  }

  /** SWITCH with up to 30 records goes to the first one for the value, or to the default if there is none. */
  lemma LinearSwitchIs(P: Program, table: int, v: Cell)
    requires P.Num(table, 1) <= 30
    ensures FirstCase(P, table, v, SwitchTarget(P, table, v))
  {
    hide LinearCase, FirstCase;
    LinearCaseFinds(P, table, 1, v);
  }

  /** The midpoint is taken in cells: between records, unless their number is even. This operand, the address of a
      record, is the first or second midpoint of some search in a table of `count` records. */
  function Misread(count: nat): nat
  {
    if count % 2 == 1 then 3 + count
    else if count / 2 % 2 == 1 then 3 + count / 2
    else 4 + count + count / 2
  }

  /** It is the address of a record that is not the last one. */
  lemma MisreadIsAddress(count: nat)
    requires count > 30
    ensures Misread(count) % 2 == 0 && 4 <= Misread(count) <= 2 * count
  {
    var half := count / 2;
    assert count == 2 * half + count % 2;
    if count % 2 == 1 {
      assert 3 + count == 2 * (half + 2);
    } else {
      var quarter := half / 2;
      assert half == 2 * quarter + half % 2;
    }
  }

  /** In a table with an even number of records, the first comparison sends the search into the half with an odd
      number of them. */
  predicate Steered(P: Program, table: int, v: Cell) {
    var count := P.Num(table, 1);
    count > 30 && count % 2 == 0 ==>
      if count / 2 % 2 == 1 then v < P.Num(table, 3 + count) else v > P.Num(table, 3 + count)
  }

  /** However long the table is, the search can take an address for a value, and then jumps to the value of the
      next record. */
  lemma BinarySearchMisreads(P: Program, table: int, v: Cell)
    requires P.Num(table, 1) > 30 && Steered(P, table, v) && v == P.Num(table, Misread(P.Num(table, 1)))
    ensures SwitchTarget(P, table, v) == P.CodeArg(table, Misread(P.Num(table, 1)) + 1)
  {
    hide Program.Num, Program.CodeArg;
    var count: nat := P.Num(table, 1);
    var hi := 3 + 2 * count;
    assert 3 + (hi - 3) / 2 == 3 + count;
    if count % 2 == 0 {
      if count / 2 % 2 == 1 {
        assert BinaryCase(P, table, 3, hi, v) == BinaryCase(P, table, 3, 3 + count, v);
      } else {
        assert BinaryCase(P, table, 3, hi, v) == BinaryCase(P, table, 5 + count, hi, v);
        assert 5 + count + (hi - (5 + count)) / 2 == Misread(count);
      }
    }
  }

  /** The first comparison of an even number of records is with a value, whose address is then taken. */
  lemma EvenTableHits(P: Program, table: int, v: Cell)
    requires P.Num(table, 1) > 30 && P.Num(table, 1) % 2 == 0 && v == P.Num(table, 3 + P.Num(table, 1))
    ensures SwitchTarget(P, table, v) == P.CodeArg(table, 4 + P.Num(table, 1))
  {
    hide Program.Num, Program.CodeArg;
  }

  /** Cell `m` of those from `lo` to `hi` holds `v`. */
  predicate HoldsAt(P: Program, table: int, lo: nat, hi: nat, v: Cell, m: nat) {
    lo <= m < hi && P.Num(table, m) == v
  }

  /** The search has ended behind such a cell, or on the default. */
  ghost predicate EndsOn(P: Program, table: int, lo: nat, hi: nat, v: Cell, target: nat) {
    || target == P.CodeArg(table, 2)
    || exists m: nat :: HoldsAt(P, table, lo, hi, v, m) && target == P.CodeArg(table, m + 1)
  }

  lemma EndsWithin(P: Program, table: int, lo: nat, hi: nat, lo': nat, hi': nat, v: Cell, target: nat)
    requires lo <= lo' && hi' <= hi && EndsOn(P, table, lo', hi', v, target)
    ensures EndsOn(P, table, lo, hi, v, target)
  {
    hide Program.Num, Program.CodeArg;
    if target != P.CodeArg(table, 2) {
      var m: nat :| HoldsAt(P, table, lo', hi', v, m) && target == P.CodeArg(table, m + 1);
      assert HoldsAt(P, table, lo, hi, v, m);
    }
  }

  /** Wherever the search looks, it ends behind a cell that holds the value, or on the default; without such a cell,
      address or value, always on the default. */
  lemma {:induction false} BinarySearchEnds(P: Program, table: int, lo: nat, hi: nat, v: Cell)
    ensures EndsOn(P, table, lo, hi, v, BinaryCase(P, table, lo, hi, v))
    decreases hi - lo
  {
    hide Program.Num, Program.CodeArg, EndsOn;
    if lo < hi {
      var mid := lo + (hi - lo) / 2;
      if v < P.Num(table, mid) {
        BinarySearchEnds(P, table, lo, mid, v);
        EndsWithin(P, table, lo, hi, lo, mid, v, BinaryCase(P, table, lo, mid, v));
      } else if v > P.Num(table, mid) {
        BinarySearchEnds(P, table, mid + 2, hi, v);
        EndsWithin(P, table, lo, hi, mid + 2, hi, v, BinaryCase(P, table, mid + 2, hi, v));
      } else {
        EndsHere(P, table, lo, hi, v, mid);
      }
    } else {
      EndsByDefault(P, table, lo, hi, v);
    }
  }

  lemma EndsHere(P: Program, table: int, lo: nat, hi: nat, v: Cell, m: nat)
    requires lo <= m < hi && P.Num(table, m) == v
    ensures EndsOn(P, table, lo, hi, v, P.CodeArg(table, m + 1))
  {
    hide Program.Num, Program.CodeArg;
    assert HoldsAt(P, table, lo, hi, v, m);
  }

  lemma EndsByDefault(P: Program, table: int, lo: nat, hi: nat, v: Cell)
    ensures EndsOn(P, table, lo, hi, v, P.CodeArg(table, 2))
  {
  }

  /** Of five cells the search looks at the third one, and above it at the last. */
  lemma FiveCells(P: Program, table: int, lo: nat, v: Cell)
    requires v > P.Num(table, lo + 2)
    ensures BinaryCase(P, table, lo, lo + 5, v) == P.CodeArg(table, if v == P.Num(table, lo + 4) then lo + 5 else 2)
  {
    hide Program.Num, Program.CodeArg;
    assert BinaryCase(P, table, lo, lo + 5, v) == BinaryCase(P, table, lo + 4, lo + 5, v);
    assert BinaryCase(P, table, lo + 4, lo + 4, v) == BinaryCase(P, table, lo + 6, lo + 5, v) == P.CodeArg(table, 2);
  }

  // ---------- Accepted programs that go astray ----------

  /** HALT, a SWITCH, and its table: all addresses are 0, all values `w`. */
  function Astray(count: nat, w: Cell): (origin: seq<Cell>)
    requires 30 < count <= 126
    ensures |origin| == 7 + 2 * count
  {
    seq(7 + 2 * count, i requires 0 <= i < 7 + 2 * count =>
      if i < 6 then [120, 0, 129, 16, 130, count][i] else if i % 2 == 0 then 0 else w)
  }

  lemma AstrayOpcode(n: int)
    ensures n == 120 ==> OpcodeOf(n) == HALT
    ensures n == 129 ==> OpcodeOf(n) == SWITCH
    ensures n == 130 ==> OpcodeOf(n) == CASETBL
  {
  }

  lemma AstrayCells(count: nat, w: Cell)
    requires 30 < count <= 126
    ensures var o := Astray(count, w);
      && OpcodeOf(o[0]) == HALT && o[1] == 0 && OpcodeOf(o[2]) == SWITCH && o[3] == 4 * CELL_SIZE
      && OpcodeOf(o[4]) == CASETBL && o[5] == count
      && forall i :: 6 <= i < 7 + 2 * count ==> o[i] == if i % 2 == 0 then 0 else w
  {
    hide OpcodeOf;
    AstrayOpcode(120);
    AstrayOpcode(129);
    AstrayOpcode(130);
  }

  function AstrayLayout(count: nat): Layout {
    Layout(7 + 2 * count, 0, 0, 0, 0, 0)
  }

  lemma AstrayWalk(count: nat, w: Cell)
    requires 30 < count <= 126
    ensures var l := AstrayLayout(count); var sizes := Sizes(l, Astray(count, w));
      && WalkAccepts(sizes, 0) && WalkEnd(sizes, 0) == l.codeCells
      && forall p: nat :: IsStart(sizes, 0, p) <==> p in {0, 2, 4}
  {
    hide SizesFrom, Astray, OpcodeOf, IsStart, WalkAccepts, WalkEnd;
    var l, origin := AstrayLayout(count), Astray(count, w);
    AstrayCells(count, w);
    var sizes := Sizes(l, origin);
    SizesFromAt(l, origin, 0, 0);
    SizesFromAt(l, origin, 0, 2);
    SizesFromAt(l, origin, 0, 4);
    assert sizes[0] == 2 && sizes[2] == 2 && sizes[4] == 3 + 2 * count;
    WalkOfThree(sizes, 2);
  }

  lemma AstrayTable(count: nat, w: Cell, marks: seq<bool>, used: Sysreqs)
    requires 30 < count <= 126 && |marks| == 7 + 2 * count && marks[0]
    ensures Handle(AstrayLayout(count), marks, Astray(count, w), 4, used) == Pass(2 + 2 * count, Astray(count, w), used)
  {
    hide DataRun, CaseRun, Astray, OpcodeOf;
    AstrayCells(count, w);
    var l, origin := AstrayLayout(count), Astray(count, w);
    CaseRunEffect(l, marks, origin, 4, 0, count + 1);
    var r := CaseRun(l, marks, origin, 4, 0, count + 1);
    assert r.ok;
    forall j | 0 <= j < |origin|
      ensures r.image[j] == origin[j]
    {
      if j >= 6 && j % 2 == 0 {
        assert j == Slot(4, (j - 6) / 2);
      }
    }
    assert r.image == origin;
  }

  lemma AstrayAccepted(count: nat, w: Cell)
    requires 30 < count <= 126
    ensures var l := AstrayLayout(count); var origin := Astray(count, w);
      Regular(l, origin) && Accepts(l, origin) && Verify(l, origin).image == origin
  {
    hide SizesFrom, IsStart, WalkAccepts, WalkEnd, CaseRun, DataRun, Astray, OpcodeOf;
    AstrayCells(count, w);
    var l, origin := AstrayLayout(count), Astray(count, w);
    AstrayWalk(count, w);
    var marks := Marks(Sizes(l, origin));
    var none := Sysreqs(false, false);
    assert Handle(l, marks, origin, 0, none) == Pass(1, origin, none);
    assert origin[3 := S(origin[3] + 0)] == origin;
    assert Handle(l, marks, origin, 2, none) == Pass(1, origin, none);
    AstrayTable(count, w, marks, none);
    assert CheckFrom(l, marks, origin, 4, none) == Accepted(origin, none);
    assert CheckFrom(l, marks, origin, 2, none) == Accepted(origin, none);
  }

  function AstrayProgram(count: nat, w: Cell, b: Block): (P: Program)
    requires 30 < count <= 126
    ensures P.Valid()
  {
    Program(AstrayLayout(count), Astray(count, w), Marks(Sizes(AstrayLayout(count), Astray(count, w))), b)
  }

  /** Values that lead the search for zero astray. */
  function Bait(count: nat): Cell {
    if count % 4 == 2 then 4 else -4
  }

  lemma AstrayTarget(count: nat, b: Block)
    requires 30 < count <= 126
    ensures SwitchTarget(AstrayProgram(count, Bait(count), b), 4 * CELL_SIZE, 0) == U(Bait(count))
  {
    hide Astray, OpcodeOf, SwitchTarget, Marks, Sizes;
    var P := AstrayProgram(count, Bait(count), b);
    AstrayCells(count, Bait(count));
    var k := Misread(count);
    MisreadIsAddress(count);
    assert P.Num(4 * CELL_SIZE, 1) == count;
    assert P.Num(4 * CELL_SIZE, 3 + count) == if count % 2 == 1 then 0 else Bait(count);
    assert P.Num(4 * CELL_SIZE, k) == 0 && P.Num(4 * CELL_SIZE, k + 1) == Bait(count);
    BinarySearchMisreads(P, 4 * CELL_SIZE, 0);
  }

  /** For every number of records that the linear search does not take and both passes agree on, there is an
      accepted program whose SWITCH goes where no instruction starts. */
  lemma AcceptedTableStrays(count: nat, b: Block, s: State, reply: Reply)
    requires 30 < count <= 126 && s.cip == 2 * CELL_SIZE && s.pri == 0
    ensures var P := AstrayProgram(count, Bait(count), b);
      && Loaded(P, Astray(count, Bait(count))) && Marked(P.marks, s.cip)
      && Step(P, s, reply).Next? && !Marked(P.marks, Step(P, s, reply).s.cip)
  {
    hide SizesFrom, IsStart, WalkAccepts, WalkEnd, CheckFrom, SwitchTarget, Astray, OpcodeOf, Regular, Verify;
    var w := Bait(count);
    AstrayCells(count, w);
    AstrayWalk(count, w);
    AstrayAccepted(count, w);
    AstrayTarget(count, b);
    var P := AstrayProgram(count, w, b);
    assert P.CodeArg(s.cip, 1) == 4 * CELL_SIZE;
    assert Step(P, s, reply) == Next(s.(cip := U(w)));
  }
}
