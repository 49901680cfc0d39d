/** Compact code files: the encoder the compiler writes them with, and the expansion in place that the
    abstract machine performs when it loads one. */
module Expand {
  import opened Cells

  const AMX_COMPACTMARGIN := 64

  // ---------- The encoding ----------

  /** 128 to the power of `k`. */
  function Weight(k: nat): (w: nat)
    ensures w > 0
  {
    if k == 0 then 1 else 128 * Weight(k - 1)
  }

  lemma ShiftBySeven(n: nat)
    ensures Pow2(n + 7) == 128 * Pow2(n) && Pow2(n + 8) == 256 * Pow2(n)
  {
    assert Pow2(n + 2) == 2 * Pow2(n + 1) && Pow2(n + 4) == 2 * Pow2(n + 3) && Pow2(n + 6) == 2 * Pow2(n + 5);
    assert Pow2(n + 3) == 2 * Pow2(n + 2) && Pow2(n + 5) == 2 * Pow2(n + 4);
  }

  lemma {:induction false} WeightIsShift(k: nat)
    ensures Weight(k) == Pow2(7 * k)
  {
    if k > 0 {
      WeightIsShift(k - 1);
      ShiftBySeven(7 * (k - 1));
    }
  }

  lemma {:induction false} ShiftedOut(n: nat)
    requires n >= 32
    ensures Pow2(n) % CELL_RANGE == 0
  {
    if n == 32 {
      ShiftBySeven(0);
      ShiftBySeven(8);
      ShiftBySeven(16);
      ShiftBySeven(24);
    } else {
      ShiftedOut(n - 1);
    }
  }

  /** The 32 bits that fit a `ucell`. */
  function Cut(x: int): (r: nat)
    ensures r < CELL_RANGE
  {
    x % CELL_RANGE
  }

  /** The number written with the 7-bit groups `g`, most significant first. */
  function Value(g: seq<Byte>): nat {
    if g == [] then 0 else Value(g[..|g| - 1]) * 128 + g[|g| - 1] % 128
  }

  /** The cell a group sequence stands for: shorter than five groups, it is sign-extended from bit 6 of its
      first group. */
  function Decoded(g: seq<Byte>): (c: nat)
    requires g != []
    ensures c < CELL_RANGE
  {
    Cut(Value(g) + if g[0] / 64 % 2 == 1 && |g| < 5 then CELL_RANGE - Weight(|g|) else 0)
  }

  /** One encoded cell: one to five bytes, bit 7 set in all but the last. */
  predicate IsCode(e: seq<Byte>) {
    1 <= |e| <= 5 && forall k :: 0 <= k < |e| ==> (e[k] >= 128 <==> k < |e| - 1)
  }

  function SkipZeros(g: seq<Byte>): (r: seq<Byte>)
    ensures g != [] ==> r != []
  {
    if |g| >= 2 && g[0] == 0 && g[1] < 64 then SkipZeros(g[1..]) else g
  }

  function SkipOnes(g: seq<Byte>): (r: seq<Byte>)
    ensures g != [] ==> r != []
  {
    if |g| >= 2 && g[0] == 127 && g[1] >= 64 then SkipOnes(g[1..]) else g
  }

  predicate SevenBit(g: seq<Byte>) {
    forall k :: 0 <= k < |g| ==> g[k] < 128
  }

  /** The five groups of a cell; four bits remain for the first. */
  function FiveGroups(c: nat): (g: seq<Byte>)
    requires c < CELL_RANGE
    ensures |g| == 5 && SevenBit(g) && g[0] < 16
  {
    var h := c / 128;
    var i := h / 128;
    var j := i / 128;
    [j / 128, j % 128, i % 128, h % 128, c % 128]
  }

  /** `encode_cell` up to the continuation bits. */
  function Groups(c: nat): (g: seq<Byte>)
    requires c < CELL_RANGE
    ensures g != []
  {
    var z := SkipZeros(FiveGroups(c));
    SkipOnes(if |z| == 5 && z[0] == 15 && z[1] >= 64 then z[1..] else z)
  }

  function MarkMore(g: seq<Byte>): (e: seq<Byte>)
    ensures |e| == |g|
  {
    seq(|g|, k requires 0 <= k < |g| => if k < |g| - 1 && g[k] < 128 then g[k] + 128 else g[k])
  }

  /** `encode_cell`. */
  function Encode(c: nat): seq<Byte>
    requires c < CELL_RANGE
  {
    MarkMore(Groups(c))
  }

  lemma {:induction false} ValueFromFront(g: seq<Byte>)
    requires g != []
    ensures Value(g) == g[0] % 128 * Weight(|g| - 1) + Value(g[1..])
  {
    if |g| == 1 {
      assert g[1..] == [] && g[..0] == [];
    } else {
      var front := g[..|g| - 1];
      ValueFromFront(front);
      assert g[1..][..|g| - 2] == front[1..];
      assert Value(g[1..]) == Value(front[1..]) * 128 + g[|g| - 1] % 128;
    }
  }

  lemma {:induction false} ValueBound(g: seq<Byte>)
    ensures Value(g) < Weight(|g|)
  {
    if g != [] {
      ValueBound(g[..|g| - 1]);
    }
  }

  lemma {:induction false} SkipZerosKeeps(g: seq<Byte>)
    requires g != [] && SevenBit(g) && |g| <= 5
    ensures Decoded(SkipZeros(g)) == Decoded(g) && SevenBit(SkipZeros(g)) && |SkipZeros(g)| <= |g|
    ensures |SkipZeros(g)| == |g| ==> SkipZeros(g) == g
  {
    if |g| >= 2 && g[0] == 0 && g[1] < 64 {
      ValueFromFront(g);
      SkipZerosKeeps(g[1..]);
    }
  }

  lemma {:induction false} SkipOnesKeeps(g: seq<Byte>)
    requires g != [] && SevenBit(g) && (|g| <= 4 || (|g| == 5 && g[0] < 16))
    ensures Decoded(SkipOnes(g)) == Decoded(g) && SevenBit(SkipOnes(g)) && |SkipOnes(g)| <= |g|
  {
    if |g| >= 2 && g[0] == 127 && g[1] >= 64 {
      ValueFromFront(g);
      assert Weight(|g|) == 128 * Weight(|g| - 1);
      assert Decoded(g[1..]) == Decoded(g);
      SkipOnesKeeps(g[1..]);
    }
  }

  lemma ValueOfPrefix(g: seq<Byte>, k: nat)
    requires k < |g| && g[k] < 128
    ensures Value(g[..k + 1]) == Value(g[..k]) * 128 + g[k]
  {
    assert g[..k + 1][..k] == g[..k];
  }

  lemma ValueOfFive(g: seq<Byte>)
    requires |g| == 5 && SevenBit(g)
    ensures Value(g) == ((((g[0] as int) * 128 + g[1]) * 128 + g[2]) * 128 + g[3]) * 128 + g[4]
  {
    hide Value;
    ValueOfNone();
    assert g[..0] == [] && g[..5] == g;
    ValueOfPrefix(g, 0);
    assert Value(g[..1]) == g[0];
    ValueOfPrefix(g, 1);
    ValueOfPrefix(g, 2);
    ValueOfPrefix(g, 3);
    ValueOfPrefix(g, 4);
  }

  lemma FiveGroupsValue(c: nat)
    requires c < CELL_RANGE
    ensures Value(FiveGroups(c)) == c
  {
    hide Value;
    ValueOfFive(FiveGroups(c));
  }

  lemma ValueOfNone()
    ensures Value([]) == 0
  {
  }

  lemma DroppedSign(z: seq<Byte>)
    requires |z| == 5 && z[0] == 15 && z[1] >= 64 && SevenBit(z)
    ensures Decoded(z[1..]) == Decoded(z)
  {
    ValueFromFront(z);
    assert Weight(4) == 0x1000_0000;
  }

  lemma GroupsDecode(c: nat)
    requires c < CELL_RANGE
    ensures Decoded(Groups(c)) == c && SevenBit(Groups(c)) && |Groups(c)| <= 5
  {
    hide FiveGroups, Value, SkipOnes, SkipZeros, Weight;
    var g := FiveGroups(c);
    FiveGroupsValue(c);
    SkipZerosKeeps(g);
    var z := SkipZeros(g);
    if |z| == 5 && z[0] == 15 && z[1] >= 64 {
      DroppedSign(z);
      SkipOnesKeeps(z[1..]);
    } else {
      SkipOnesKeeps(z);
    }
  }

  lemma {:induction false} MarksDoNotCount(g: seq<Byte>, e: seq<Byte>)
    requires |g| == |e| && forall k :: 0 <= k < |g| ==> g[k] % 128 == e[k] % 128
    ensures Value(g) == Value(e)
  {
    if g != [] {
      MarksDoNotCount(g[..|g| - 1], e[..|e| - 1]);
    }
  }

  /** Every cell's encoding is well formed and decodes to the cell. */
  lemma EncodeRoundTrip(c: nat)
    requires c < CELL_RANGE
    ensures IsCode(Encode(c)) && Decoded(Encode(c)) == c
  {
    hide Groups, Value, Weight;
    GroupsDecode(c);
    MarksDoNotCount(Groups(c), Encode(c));
  }

  // ---------- The shortest code ----------

  /** What `m` groups can stand for, up to 32 bits: seven bits each, the highest one a sign. */
  predicate InReach(c: nat, m: nat)
    requires 1 <= m
  {
    c < 64 * Weight(m - 1) || c + 64 * Weight(m - 1) >= CELL_RANGE
  }

  lemma {:induction false} DecodedInReach(g: seq<Byte>)
    requires 1 <= |g| <= 4
    ensures InReach(Decoded(g), |g|)
  {
    hide Value, Weight;
    ValueFromFront(g);
    ValueBound(g[1..]);
    SmallWeights();
    SignedReach(g[0] % 128, Value(g[1..]), Weight(|g| - 1));
    assert Weight(|g|) == 128 * Weight(|g| - 1);
    assert g[0] / 64 % 2 == 1 <==> g[0] % 128 >= 64;
  }

  /** A number of groups, the first of which is `x`, as the cell it stands for. */
  function Signed(x: nat, v: nat, w: nat): int {
    if x >= 64 then v + CELL_RANGE - 128 * w else v
  }

  lemma SignedReach(x: nat, r: nat, w: nat)
    requires x < 128 && r < w && w in {1, 0x80, 0x4000, 0x20_0000}
    ensures var c := Signed(x, x * w + r, w); 0 <= c < CELL_RANGE && (c < 64 * w || c + 64 * w >= CELL_RANGE)
  {
    if w == 1 {
    } else if w == 0x80 {
    } else if w == 0x4000 {
    } else {
      assert w == 0x20_0000;
    }
  }

  /** Two groups from `x` and `y` on, of which none can be left out, do not stand for what fewer would. */
  lemma BeyondReach(x: nat, y: nat, r: nat, w: nat)
    requires x < 128 && y < 128 && r < w && w in {1, 0x80, 0x4000}
    requires !(x == 0 && y < 64) && !(x == 127 && y >= 64)
    ensures var c := Signed(x, x * (128 * w) + (y * w + r), 128 * w); 64 * w <= c < CELL_RANGE - 64 * w
  {
    if w == 1 {
    } else if w == 0x80 {
    } else {
      assert w == 0x4000;
    }
  }

  lemma SmallWeights()
    ensures Weight(0) == 1 && Weight(1) == 0x80 && Weight(2) == 0x4000 && Weight(3) == 0x20_0000 &&
      Weight(4) == 0x1000_0000
  {
  }

  predicate ZeroFirst(g: seq<Byte>) {
    |g| >= 2 && g[0] == 0 && g[1] < 64
  }

  predicate OnesFirst(g: seq<Byte>) {
    |g| >= 2 && g[1] >= 64 && g[0] == if |g| == 5 then 15 else 127
  }

  lemma {:induction false} SkipZerosStops(g: seq<Byte>)
    ensures !ZeroFirst(SkipZeros(g))
  {
    if ZeroFirst(g) {
      SkipZerosStops(g[1..]);
    }
  }

  lemma {:induction false} SkipOnesStops(g: seq<Byte>)
    requires g != [] && |g| <= 5 && (|g| == 5 ==> g[0] < 16 && !OnesFirst(g)) && !ZeroFirst(g)
    ensures !OnesFirst(SkipOnes(g)) && !ZeroFirst(SkipOnes(g))
    ensures |SkipOnes(g)| == 5 ==> SkipOnes(g) == g
  {
    if |g| < 5 && OnesFirst(g) {
      SkipOnesStops(g[1..]);
    }
  }

  /** No group of an encoding can be left out. */
  lemma GroupsNeeded(c: nat)
    requires c < CELL_RANGE
    ensures !ZeroFirst(Groups(c)) && !OnesFirst(Groups(c)) && (|Groups(c)| == 5 ==> Groups(c)[0] < 16)
  {
    hide SkipZeros, SkipOnes;
    var z := SkipZeros(FiveGroups(c));
    SkipZerosStops(FiveGroups(c));
    SkipZerosKeeps(FiveGroups(c));
    if OnesFirst(z) && |z| == 5 {
      SkipOnesStops(z[1..]);
    } else {
      SkipOnesStops(z);
    }
  }

  lemma BeyondFour(x: nat, y: nat, r: nat)
    requires x < 16 && y < 128 && r < 0x20_0000 && !(x == 0 && y < 64) && !(x == 15 && y >= 64)
    ensures 0x800_0000 <= x * 0x1000_0000 + (y * 0x20_0000 + r) < CELL_RANGE - 0x800_0000
  {
  }

  lemma FewNotInReach(g: seq<Byte>)
    requires 2 <= |g| <= 4 && SevenBit(g) && !ZeroFirst(g) && !OnesFirst(g)
    ensures !InReach(Decoded(g), |g| - 1)
  {
    hide Value, Weight;
    ValueFromFront(g);
    ValueFromFront(g[1..]);
    ValueBound(g[1..][1..]);
    SmallWeights();
    var w := Weight(|g| - 2);
    assert Weight(|g| - 1) == 128 * w && Weight(|g|) == 128 * (128 * w);
    BeyondReach(g[0], g[1], Value(g[1..][1..]), w);
    assert g[0] / 64 % 2 == 1 <==> g[0] >= 64;
  }

  lemma NotInReach(g: seq<Byte>)
    requires 2 <= |g| <= 5 && SevenBit(g) && !ZeroFirst(g) && !OnesFirst(g) && (|g| == 5 ==> g[0] < 16)
    ensures !InReach(Decoded(g), |g| - 1)
  {
    hide Value, Weight;
    if |g| < 5 {
      FewNotInReach(g);
    } else {
      ValueFromFront(g);
      ValueFromFront(g[1..]);
      ValueBound(g[1..][1..]);
      SmallWeights();
      BeyondFour(g[0], g[1], Value(g[1..][1..]));
    }
  }

  lemma {:induction false} ReachGrows(c: nat, m: nat, n: nat)
    requires 1 <= m <= n && InReach(c, m)
    ensures InReach(c, n)
  {
    if m < n {
      ReachGrows(c, m, n - 1);
      assert Weight(n - 1) == 128 * Weight(n - 2);
    }
  }

  /** Of all codes of a cell the encoding is a shortest one. */
  lemma EncodeShortest(c: nat, e: seq<Byte>)
    requires c < CELL_RANGE && IsCode(e) && Decoded(e) == c
    ensures |Encode(c)| <= |e|
  {
    hide Groups, Decoded, InReach, Value;
    var g := Groups(c);
    if |g| > |e| {
      GroupsDecode(c);
      GroupsNeeded(c);
      NotInReach(g);
      DecodedInReach(e);
      ReachGrows(c, |e|, |g| - 1);
      assert false;
    }
  }

  // ---------- The compact file ----------

  /** The encoded program: the codes of its cells, one behind the other. */
  function Flat(codes: seq<seq<Byte>>): seq<Byte> {
    if codes == [] then [] else Flat(codes[..|codes| - 1]) + codes[|codes| - 1]
  }

  ghost predicate AllCodes(codes: seq<seq<Byte>>) {
    forall k :: 0 <= k < |codes| ==> IsCode(codes[k])
  }

  /** How far the first `k` codes reach beyond the place of their expanded cells. */
  function Excess(codes: seq<seq<Byte>>, k: nat): int
    requires k <= |codes|
  {
    |Flat(codes[..k])| - CELL_SIZE * k
  }

  /** The queue of postponed stores never needs an entry too many when code `k` has been read: the codes before
      it are not ahead of their cells by the bytes of a full queue, or no more cells follow than fit. */
  predicate QueueFits(codes: seq<seq<Byte>>, k: nat)
    requires k < |codes|
  {
    Excess(codes, k) < CELL_SIZE * AMX_COMPACTMARGIN || |codes| - k <= AMX_COMPACTMARGIN
  }

  ghost predicate WithinMargin(codes: seq<seq<Byte>>) {
    forall k :: 0 <= k < |codes| ==> QueueFits(codes, k)
  }

  /** The test the compiler makes after each cell it writes; on failure it writes the file uncompressed. */
  ghost predicate WriterAccepts(codes: seq<seq<Byte>>) {
    forall k :: 0 <= k <= |codes| ==> Excess(codes, k) < AMX_COMPACTMARGIN - 2
  }

  function CellBytes(c: nat): (r: seq<Byte>)
    requires c < CELL_RANGE
    ensures |r| == CELL_SIZE
  {
    [c % 0x100, c / 0x100 % 0x100, c / 0x1_0000 % 0x100, c / 0x100_0000]
  }

  /** The bytes of a cell are those the machine reads as that cell. */
  lemma CellBytesRead(mem: seq<Byte>, at: nat, c: nat)
    requires c < CELL_RANGE && at + CELL_SIZE <= |mem|
    requires forall k :: 0 <= k < CELL_SIZE ==> mem[at + k] == CellBytes(c)[k]
    ensures Read(mem, at) == S(c)
  {
    hide S;
    assert mem[at + 0] == CellBytes(c)[0];
    var b0: int, b1: int, b2: int, b3: int := CellBytes(c)[0], CellBytes(c)[1], CellBytes(c)[2], CellBytes(c)[3];
    assert b0 + 0x100 * b1 + 0x1_0000 * b2 + 0x100_0000 * b3 == c;
  }

  /** The machine reads the cells `values` in `mem`, one behind the other. */
  ghost predicate ReadsAs(mem: seq<Byte>, values: seq<nat>) {
    && CELL_SIZE * |values| <= |mem|
    && forall j :: 0 <= j < |values| ==> Read(mem, CELL_SIZE * j) == S(values[j])
  }

  /** The expanded program: its cells, one behind the other. */
  function Expanded(codes: seq<seq<Byte>>): (r: seq<Byte>)
    requires AllCodes(codes)
    ensures |r| == CELL_SIZE * |codes|
  {
    if codes == [] then []
    else Expanded(codes[..|codes| - 1]) + CellBytes(Decoded(codes[|codes| - 1]))
  }

  lemma {:induction false} ExpandedAt(codes: seq<seq<Byte>>, mem: seq<Byte>)
    requires AllCodes(codes) && |mem| == CELL_SIZE * |codes|
    requires forall j {:trigger codes[j]} :: 0 <= j < |codes| ==>
      mem[CELL_SIZE * j..CELL_SIZE * j + CELL_SIZE] == CellBytes(Decoded(codes[j]))
    ensures mem == Expanded(codes)
  {
    if codes != [] {
      var n := |codes| - 1;
      var front := mem[..CELL_SIZE * n];
      assert mem == front + mem[CELL_SIZE * n..CELL_SIZE * n + CELL_SIZE];
      forall j {:trigger codes[..n][j]} | 0 <= j < n
        ensures front[CELL_SIZE * j..CELL_SIZE * j + CELL_SIZE] == CellBytes(Decoded(codes[..n][j]))
      {
        assert codes[..n][j] == codes[j];
        assert front[CELL_SIZE * j..CELL_SIZE * j + CELL_SIZE] == mem[CELL_SIZE * j..CELL_SIZE * j + CELL_SIZE];
      }
      ExpandedAt(codes[..n], front);
    }
  }

  lemma {:induction false} FlatEndsPlain(codes: seq<seq<Byte>>)
    requires AllCodes(codes)
    ensures Flat(codes) == [] <==> codes == []
    ensures codes != [] ==> Flat(codes)[|Flat(codes)| - 1] < 128
  {
  }

  // ---------- Expansion ----------

  lemma CutAdd(x: int, y: int)
    ensures Cut(Cut(x) + y) == Cut(x + y)
  {
  }

  /** The low seven bits of `b`, shifted into place. */
  function Shifted(b: Byte, shift: nat): nat {
    b % 128 * Pow2(shift)
  }

  /** The value of the groups from `m` on. */
  function ValueFrom(e: seq<Byte>, m: nat): nat
    requires m <= |e|
  {
    Value(e[m..])
  }

  lemma ValueFromEnds(e: seq<Byte>)
    ensures ValueFrom(e, |e|) == Cut(ValueFrom(e, |e|)) == 0 && ValueFrom(e, 0) == Value(e)
  {
    assert e[|e|..] == [] && e[0..] == e;
  }

  lemma AddGroup(e: seq<Byte>, m: nat, c: nat)
    requires m < |e| && c == Cut(ValueFrom(e, m + 1))
    ensures Cut(c + Shifted(e[m], 7 * (|e| - m - 1))) == Cut(ValueFrom(e, m))
  {
    hide Value, Pow2, Weight;
    ValueFromFront(e[m..]);
    WeightIsShift(|e| - m - 1);
    assert e[m..][1..] == e[m + 1..];
    CutAdd(Value(e[m + 1..]), Shifted(e[m], 7 * (|e| - m - 1)));
  }

  /** `sign expand`: fills the bits from `shift` on with ones, eight at a time. */
  method SignExpand(start: nat, from: nat) returns (c: nat)
    requires start < CELL_RANGE
    ensures c < CELL_RANGE && c == if from < 32 then Cut(start + CELL_RANGE - Pow2(from)) else start
  {
    hide Pow2;
    c := start;
    var shift := from;
    while shift < 32
      invariant from <= shift && (from >= 32 ==> shift == from)
      invariant c == Cut(start + Pow2(shift) - Pow2(from))
    {
      ShiftBySeven(shift);
      CutAdd(start + Pow2(shift) - Pow2(from), 255 * Pow2(shift));
      c := Cut(c + 255 * Pow2(shift));
      shift := shift + 8;
    }
    ShiftedOut(shift);
    CutAdd(Pow2(shift), start - Pow2(from));
  }

  /** Collects the groups of the code that ends the first `codesize` bytes, from its end to its start at `base`. */
  method CollectGroups(code: array<Byte>, codesize: nat, ghost base: nat, ghost e: seq<Byte>)
    returns (c: nat, rest: nat, shift: nat)
    requires IsCode(e) && base + |e| == codesize <= code.Length
    requires forall k :: base <= k < codesize ==> code[k] == e[k - base]
    requires base > 0 ==> code[base - 1] < 128
    ensures rest == base && shift == 7 * |e| && c == Cut(Value(e))
  {
    hide Value, ValueFrom, Pow2, Weight, Shifted, Cut;
    c, rest, shift := 0, codesize, 0;
    ValueFromEnds(e);
    while rest == codesize || (rest > 0 && code[rest - 1] >= 128)
      invariant base <= rest <= codesize
      invariant shift == 7 * (codesize - rest)
      invariant c == Cut(ValueFrom(e, rest - base))
      decreases rest
    {
      rest := rest - 1;
      assert code[rest] == e[rest - base];
      assert shift < 32;
      AddGroup(e, rest - base, c);
      c := Cut(c + Shifted(code[rest], shift));
      shift := shift + 7;
    }
  }

  method DecodeLast(code: array<Byte>, codesize: nat, ghost base: nat, ghost e: seq<Byte>) returns (c: nat, rest: nat)
    requires IsCode(e) && base + |e| == codesize <= code.Length
    requires forall k :: base <= k < codesize ==> code[k] == e[k - base]
    requires base > 0 ==> code[base - 1] < 128
    ensures rest == base && c < CELL_RANGE && c == Decoded(e)
  {
    hide Value, Pow2, Weight, Decoded;
    var shift;
    c, rest, shift := CollectGroups(code, codesize, base, e);
    WeightIsShift(|e|);
    if code[rest] / 64 % 2 == 1 {
      c := SignExpand(c, shift);
    }
    DecodedIs(e, c);
  }

  lemma DecodedIs(e: seq<Byte>, c: nat)
    requires IsCode(e)
    requires c == if e[0] / 64 % 2 == 1 && |e| < 5 then Cut(Cut(Value(e)) + CELL_RANGE - Weight(|e|))
                  else Cut(Value(e))
    ensures c == Decoded(e)
  {
    hide Value, Weight;
    CutAdd(Value(e), CELL_RANGE - Weight(|e|));
  }

  /** The place of the entry `t` behind the head `sh` of the ring. */
  function Ring(sh: nat, t: nat): (r: nat)
    ensures r < AMX_COMPACTMARGIN
  {
    (sh + t) % AMX_COMPACTMARGIN
  }

  /** The `sc` entries behind the head are the postponed cells `first + sc - 1` down to `first`. */
  ghost predicate Postponed(locs: seq<nat>, cells: seq<nat>, sh: nat, sc: nat, first: nat, values: seq<nat>) {
    && |locs| == |cells| == AMX_COMPACTMARGIN && sc <= AMX_COMPACTMARGIN && first + sc <= |values|
    && forall t :: 0 <= t < sc ==>
         && locs[Ring(sh, t)] == CELL_SIZE * (first + sc - 1 - t)
         && cells[Ring(sh, t)] == values[first + sc - 1 - t]
  }

  lemma RingDistinct(sh: nat, t: nat, u: nat)
    requires t < u < t + AMX_COMPACTMARGIN
    ensures Ring(sh, t) != Ring(sh, u)
  {
  }

  lemma RingNext(sh: nat, t: nat)
    ensures Ring(Ring(sh, 1), t) == Ring(sh, t + 1)
  {
  }

  lemma PopPostponed(locs: seq<nat>, cells: seq<nat>, sh: nat, sc: nat, first: nat, values: seq<nat>)
    requires Postponed(locs, cells, sh, sc, first, values) && sc > 0
    ensures Postponed(locs, cells, Ring(sh, 1), sc - 1, first, values)
  {
    hide Ring;
    forall t | 0 <= t < sc - 1
      ensures Ring(Ring(sh, 1), t) == Ring(sh, t + 1)
    {
      RingNext(sh, t);
    }
  }

  lemma PushPostponed(locs: seq<nat>, cells: seq<nat>, sh: nat, sc: nat, first: nat, values: seq<nat>)
    requires Postponed(locs, cells, sh, sc, first, values) && sc < AMX_COMPACTMARGIN && first > 0
    ensures var st := Ring(sh, sc);
      Postponed(locs[st := CELL_SIZE * (first - 1)], cells[st := values[first - 1]], sh, sc + 1, first - 1, values)
  {
    forall t | 0 <= t < sc
      ensures Ring(sh, t) != Ring(sh, sc)
    {
      RingDistinct(sh, t, sc);
    }
  }

  /** The cell `c` lies at byte `at`. */
  ghost predicate CellAt(code: array<Byte>, at: nat, c: nat)
    requires c < CELL_RANGE
    reads code
  {
    at + CELL_SIZE <= code.Length && forall k :: 0 <= k < CELL_SIZE ==> code[at + k] == CellBytes(c)[k]
  }

  method StoreCell(code: array<Byte>, at: nat, c: nat)
    requires at + CELL_SIZE <= code.Length && c < CELL_RANGE
    modifies code
    ensures CellAt(code, at, c)
    ensures forall k :: 0 <= k < code.Length && !(at <= k < at + CELL_SIZE) ==> code[k] == old(code[k])
  {
    var b := CellBytes(c);
    code[at], code[at + 1], code[at + 2], code[at + 3] := b[0], b[1], b[2], b[3];
  }

  /** All of `values` are cells, and those from `first` on lie in their places. */
  ghost predicate Placed(code: array<Byte>, values: seq<nat>, first: nat)
    reads code
  {
    && (forall j :: 0 <= j < |values| ==> values[j] < CELL_RANGE)
    && forall j :: first <= j < |values| ==> CellAt(code, CELL_SIZE * j, values[j])
  }

  method PlaceCell(code: array<Byte>, at: nat, c: nat, ghost j: nat, ghost values: seq<nat>)
    requires j < |values| && at == CELL_SIZE * j && c == values[j]
    requires CELL_SIZE * |values| <= code.Length && Placed(code, values, j + 1)
    modifies code
    ensures Placed(code, values, j)
    ensures forall k :: 0 <= k < code.Length && !(at <= k < at + CELL_SIZE) ==> code[k] == old(code[k])
  {
    StoreCell(code, at, c);
  }

  /** Performs the postponed stores that no longer touch unread bytes. */
  method Flush(code: array<Byte>, locs: array<nat>, cells: array<nat>, sh0: nat, sc0: nat, codesize: nat,
               ghost first: nat, ghost values: seq<nat>) returns (sh: nat, sc: nat)
    requires code.Length >= CELL_SIZE * |values|
    requires Postponed(locs[..], cells[..], sh0, sc0, first, values) && Placed(code, values, first + sc0)
    requires first + sc0 == |values| || CELL_SIZE * (first + sc0) > codesize
    modifies code
    ensures first + sc == |values| || CELL_SIZE * (first + sc) > codesize
    ensures sc <= sc0 && Postponed(locs[..], cells[..], sh, sc, first, values) && Placed(code, values, first + sc)
    ensures sc > 0 ==> CELL_SIZE * (first + sc - 1) <= codesize
    ensures forall k :: 0 <= k < code.Length && (k < codesize || k >= CELL_SIZE * |values|) ==> code[k] == old(code[k])
    ensures Ring(sh, sc) == Ring(sh0, sc0)
  {
    hide Ring;
    sh, sc := sh0, sc0;
    while sc > 0 && locs[Ring(sh, 0)] > codesize
      invariant sc <= sc0 && Postponed(locs[..], cells[..], sh, sc, first, values) && Placed(code, values, first + sc)
      invariant first + sc == |values| || CELL_SIZE * (first + sc) > codesize
      invariant forall k ::
        0 <= k < code.Length && (k < codesize || k >= CELL_SIZE * |values|) ==> code[k] == old(code[k])
      invariant Ring(sh, sc) == Ring(sh0, sc0)
      decreases sc
    {
      PlaceCell(code, locs[Ring(sh, 0)], cells[Ring(sh, 0)], first + sc - 1, values);
      PopPostponed(locs[..], cells[..], sh, sc, first, values);
      RingNext(sh, sc - 1);
      sh := Ring(sh, 1);
      sc := sc - 1;
    }
  }

  /** Appends a store to the queue. */
  method Postpone(locs: array<nat>, cells: array<nat>, sh: nat, st0: nat, sc0: nat, loc: nat, c: nat,
                  ghost first: nat, ghost values: seq<nat>) returns (st: nat, sc: nat)
    requires locs != cells && sc0 < AMX_COMPACTMARGIN && st0 == Ring(sh, sc0)
    requires Postponed(locs[..], cells[..], sh, sc0, first + 1, values)
    requires loc == CELL_SIZE * first && c == values[first]
    modifies locs, cells
    ensures Postponed(locs[..], cells[..], sh, sc, first, values) && sc == sc0 + 1 && st == Ring(sh, sc)
  {
    hide Ring;
    PushPostponed(locs[..], cells[..], sh, sc0, first + 1, values);
    ghost var locs0, cells0 := locs[..], cells[..];
    locs[st0] := loc;
    cells[st0] := c;
    assert locs[..] == locs0[st0 := loc] && cells[..] == cells0[st0 := c];
    RingAppend(sh, sc0);
    st, sc := Ring(st0, 1), sc0 + 1;
  }

  // ---------- Positions of the codes in the file ----------

  /** Where code `k` starts. */
  function Offset(codes: seq<seq<Byte>>, k: nat): nat
    requires k <= |codes|
  {
    |Flat(codes[..k])|
  }

  lemma {:induction false} FlatPrefix(codes: seq<seq<Byte>>, k: nat)
    requires k <= |codes|
    ensures Flat(codes[..k]) <= Flat(codes)
    decreases |codes| - k
  {
    if k == |codes| {
      assert codes[..k] == codes;
    } else {
      assert codes[..k + 1][..k] == codes[..k];
      FlatPrefix(codes, k + 1);
    }
  }

  lemma CodeInFile(codes: seq<seq<Byte>>, k: nat)
    requires AllCodes(codes) && k < |codes|
    ensures Offset(codes, k) + |codes[k]| == Offset(codes, k + 1) <= |Flat(codes)|
    ensures forall j :: Offset(codes, k) <= j < Offset(codes, k + 1) ==>
      Flat(codes)[j] == codes[k][j - Offset(codes, k)]
    ensures Offset(codes, k) > 0 ==> Flat(codes)[Offset(codes, k) - 1] < 128
    ensures Offset(codes, k) > 0 <==> k > 0
  {
    FlatPrefix(codes, k);
    FlatPrefix(codes, k + 1);
    assert codes[..k + 1][..k] == codes[..k];
    assert Flat(codes[..k + 1]) == Flat(codes[..k]) + codes[k];
    FlatEndsPlain(codes[..k]);
  }

  lemma FileSize(codes: seq<seq<Byte>>)
    ensures Offset(codes, |codes|) == |Flat(codes)| && Offset(codes, 0) == 0
  {
    assert codes[..|codes|] == codes;
  }

  function Values(codes: seq<seq<Byte>>): (r: seq<nat>)
    requires AllCodes(codes)
    ensures |r| == |codes| && forall j :: 0 <= j < |codes| ==> r[j] == Decoded(codes[j])
  {
    seq(|codes|, j requires 0 <= j < |codes| => Decoded(codes[j]))
  }

  /** The end of a round: a cell behind the unread bytes is stored, any other postponed, if the queue has room. */
  method Store(code: array<Byte>, locs: array<nat>, cells: array<nat>, sh: nat, st0: nat, sc0: nat,
               codesize: nat, memsize: nat, c: nat, ghost i: nat, ghost codes: seq<seq<Byte>>)
    returns (ok: bool, st: nat, sc: nat)
    requires AllCodes(codes) && i < |codes| && CELL_SIZE * |codes| <= code.Length && locs != cells
    requires codesize == Offset(codes, i) && (codesize > 0 <==> i > 0)
    requires memsize == CELL_SIZE * i && c == Values(codes)[i]
    requires Postponed(locs[..], cells[..], sh, sc0, i + 1, Values(codes)) && st0 == Ring(sh, sc0)
    requires Placed(code, Values(codes), i + 1 + sc0)
    requires sc0 > 0 ==> CELL_SIZE * (i + sc0) <= codesize
    requires i + 1 + sc0 == |codes| || CELL_SIZE * (i + 1 + sc0) > codesize
    modifies code, locs, cells
    ensures ok <==> QueueFits(codes, i)
    ensures !ok ==> sc == AMX_COMPACTMARGIN
    ensures ok ==> Postponed(locs[..], cells[..], sh, sc, i, Values(codes)) && st == Ring(sh, sc)
    ensures ok ==> Placed(code, Values(codes), i + sc)
    ensures ok && sc > 0 ==> i > 0 && CELL_SIZE * (i + sc - 1) <= codesize
    ensures ok && i > 0 ==> i + sc == |codes| || CELL_SIZE * (i + sc) > codesize
    ensures forall k :: 0 <= k < code.Length && (k < codesize || k >= CELL_SIZE * |codes|) ==> code[k] == old(code[k])
  {
    hide Ring, Decoded, Flat, Placed, Offset, Postponed, QueueFits, IsCode, Values;
    ghost var values := Values(codes);
    PostponedBounds(locs[..], cells[..], sh, sc0, i + 1, values);
    QueueFitsIff(codes, i);
    ok, st, sc := true, st0, sc0;
    if memsize > codesize || (memsize == codesize && memsize == 0) {
      PlaceCell(code, memsize, c, i, values);
      DirectIsQueued(locs[..], cells[..], sh, i + 1, values);
    } else if sc >= AMX_COMPACTMARGIN {
      ok := false;
    } else {
      st, sc := Postpone(locs, cells, sh, st, sc, memsize, c, i, values);
    }
  }

  /** `expand`: decodes the code file in `code` in place. It ends, unless the assertion on the queue fails because
      a store must be postponed while AMX_COMPACTMARGIN of them are `waiting`. */
  method Expand(code: array<Byte>, codesize0: nat, memsize0: nat, ghost codes: seq<seq<Byte>>)
    returns (ok: bool, waiting: nat)
    requires AllCodes(codes)
    requires codesize0 == |Flat(codes)| <= code.Length && code[..codesize0] == Flat(codes)
    requires memsize0 == CELL_SIZE * |codes| <= code.Length
    modifies code
    ensures ok <==> WithinMargin(codes)
    ensures waiting == if ok then 0 else AMX_COMPACTMARGIN
    ensures ok ==> code[..memsize0] == Expanded(codes)
    ensures ok ==> ReadsAs(code[..], Values(codes))
    ensures code[memsize0..] == old(code[memsize0..])
  {
    hide Ring, Decoded, Flat, Placed, Offset, Postponed, QueueFits, IsCode, ReadsAs, Expanded;
    ghost var n := |codes|;
    ghost var i := n;
    ghost var values := Values(codes);
    var codesize, memsize := codesize0, memsize0;
    var locs, cells := new nat[AMX_COMPACTMARGIN](_ => 0), new nat[AMX_COMPACTMARGIN](_ => 0);
    var sh: nat, st: nat, sc: nat := 0, 0, 0;
    FileSize(codes);
    RingOfZero();
    NonePlaced(code, codes);
    NonePostponed(locs[..], cells[..], values);
    assert forall k :: 0 <= k < codesize ==> code[k] == Flat(codes)[k];
    while codesize > 0
      invariant 0 <= i <= n && codesize == Offset(codes, i) <= codesize0 && memsize == CELL_SIZE * i
      invariant forall k :: 0 <= k < codesize ==> code[k] == Flat(codes)[k]
      invariant Postponed(locs[..], cells[..], sh, sc, i, values) && st == Ring(sh, sc)
      invariant sc > 0 ==> i > 0 && CELL_SIZE * (i + sc - 1) <= codesize
      invariant Placed(code, values, i + sc)
      invariant i > 0 ==> i + sc == n || CELL_SIZE * (i + sc) > codesize
      invariant forall k :: i <= k < n ==> QueueFits(codes, k)
      invariant forall k :: memsize0 <= k < code.Length ==> code[k] == old(code[k])
      decreases i
    {
      PositiveOffset(codes, i);
      i := i - 1;
      CodeInFile(codes, i);
      var c, rest := DecodeLast(code, codesize, Offset(codes, i), codes[i]);
      codesize := rest;
      sh, sc := Flush(code, locs, cells, sh, sc, codesize, i + 1, values);
      memsize := memsize - CELL_SIZE;
      PositiveOffset(codes, i);
      ok, st, sc := Store(code, locs, cells, sh, st, sc, codesize, memsize, c, i, codes);
      if !ok {
        return false, sc;
      }
    }
    PositiveOffset(codes, i);
    AllPlaced(code, codes, memsize0);
    ok, waiting := true, sc;
  }

  lemma NonePlaced(code: array<Byte>, codes: seq<seq<Byte>>)
    requires AllCodes(codes)
    ensures Placed(code, Values(codes), |codes|)
  {
    hide Decoded;
  }

  lemma NonePostponed(locs: seq<nat>, cells: seq<nat>, values: seq<nat>)
    requires |locs| == |cells| == AMX_COMPACTMARGIN
    ensures Postponed(locs, cells, 0, 0, |values|, values)
  {
  }

  lemma DirectIsQueued(locs: seq<nat>, cells: seq<nat>, sh: nat, first: nat, values: seq<nat>)
    requires first > 0 && Postponed(locs, cells, sh, 0, first, values)
    ensures Postponed(locs, cells, sh, 0, first - 1, values)
  {
  }

  lemma RingOfZero()
    ensures Ring(0, 0) == 0
  {
  }

  lemma RingAppend(sh: nat, t: nat)
    ensures Ring(Ring(sh, t), 1) == Ring(sh, t + 1)
  {
  }

  lemma PositiveOffset(codes: seq<seq<Byte>>, k: nat)
    requires AllCodes(codes) && k <= |codes|
    ensures Offset(codes, k) > 0 <==> k > 0
  {
    FlatEndsPlain(codes[..k]);
  }

  lemma QueueFitsIff(codes: seq<seq<Byte>>, k: nat)
    requires k < |codes|
    ensures QueueFits(codes, k)
       <==> Offset(codes, k) < CELL_SIZE * (k + AMX_COMPACTMARGIN) || |codes| <= k + AMX_COMPACTMARGIN
  {
  }

  lemma PostponedBounds(locs: seq<nat>, cells: seq<nat>, sh: nat, sc: nat, first: nat, values: seq<nat>)
    requires Postponed(locs, cells, sh, sc, first, values)
    ensures sc <= AMX_COMPACTMARGIN && first + sc <= |values|
  {
  }

  lemma {:induction false} AllPlaced(code: array<Byte>, codes: seq<seq<Byte>>, memsize: nat)
    requires AllCodes(codes) && memsize == CELL_SIZE * |codes| <= code.Length
    requires Placed(code, Values(codes), 0)
    ensures code[..memsize] == Expanded(codes)
    ensures ReadsAs(code[..], Values(codes))
  {
    hide Read, S, CellBytes, ReadsAs, Placed, Decoded, Expanded;
    var mem := code[..memsize];
    var values := Values(codes);
    forall j {:trigger codes[j]} | 0 <= j < |codes|
      ensures mem[CELL_SIZE * j..CELL_SIZE * j + CELL_SIZE] == CellBytes(Decoded(codes[j]))
    {
      PlacedCell(code, memsize, values, j, CELL_SIZE * j);
    }
    ExpandedAt(codes, mem);
    PlacedReads(code, values);
  }

  lemma PlacedCell(code: array<Byte>, memsize: nat, values: seq<nat>, j: nat, at: nat)
    requires Placed(code, values, 0) && j < |values| && at == CELL_SIZE * j && at + CELL_SIZE <= memsize <= code.Length
    ensures code[..memsize][at..at + CELL_SIZE] == CellBytes(values[j])
  {
    hide CellBytes;
    assert CellAt(code, at, values[j]);
  }

  lemma PlacedReads(code: array<Byte>, values: seq<nat>)
    requires Placed(code, values, 0) && CELL_SIZE * |values| <= code.Length
    ensures ReadsAs(code[..], values)
  {
    hide Read, S, CellBytes;
    forall j | 0 <= j < |values|
      ensures Read(code[..], CELL_SIZE * j) == S(values[j])
    {
      assert CellAt(code, CELL_SIZE * j, values[j]);
      CellBytesRead(code[..], CELL_SIZE * j, values[j]);
    }
  }

  // ---------- From the compiler to the machine ----------

  /** What the compiler's own test lets through never overfills the queue. */
  lemma WriterStaysWithinMargin(codes: seq<seq<Byte>>)
    requires WriterAccepts(codes)
    ensures WithinMargin(codes)
  {
    forall k | 0 <= k < |codes|
      ensures QueueFits(codes, k)
    {
      assert Excess(codes, k) < AMX_COMPACTMARGIN - 2;
    }
  }

  /** Files of the longest codes: 320 of them still expand. */
  lemma LongestCodesIff(codes: seq<seq<Byte>>)
    requires forall k :: 0 <= k < |codes| ==> |codes[k]| == 5
    ensures WithinMargin(codes) <==> |codes| <= 320
  {
    forall k | 0 <= k < |codes|
      ensures Excess(codes, k) == k
    {
      LongestExcess(codes, k);
    }
    if |codes| > 320 {
      assert !QueueFits(codes, 256);
    }
  }

  lemma {:induction false} LongestExcess(codes: seq<seq<Byte>>, k: nat)
    requires k <= |codes| && forall j :: 0 <= j < |codes| ==> |codes[j]| == 5
    ensures Excess(codes, k) == k
  {
    if k > 0 {
      LongestExcess(codes, k - 1);
      assert codes[..k][..k - 1] == codes[..k - 1];
    }
  }

  predicate AllCells(cells: seq<nat>) {
    forall k :: 0 <= k < |cells| ==> cells[k] < CELL_RANGE
  }

  /** What the compiler writes for a program. */
  function EncodeAll(cells: seq<nat>): (codes: seq<seq<Byte>>)
    requires AllCells(cells)
    ensures |codes| == |cells|
  {
    seq(|cells|, k requires 0 <= k < |cells| => Encode(cells[k]))
  }

  function Raw(cells: seq<nat>): seq<Byte>
    requires AllCells(cells)
  {
    if cells == [] then [] else Raw(cells[..|cells| - 1]) + CellBytes(cells[|cells| - 1])
  }

  lemma CodesAreNotEmpty(e: seq<Byte>)
    ensures IsCode(e) ==> e != []
  {
  }

  lemma {:induction false} ExpandedIsRaw(cells: seq<nat>, codes: seq<seq<Byte>>)
    requires AllCells(cells) && codes == EncodeAll(cells)
    ensures AllCodes(codes) && Expanded(codes) == Raw(cells)
  {
    hide Encode, Decoded, CellBytes, IsCode;
    forall k | 0 <= k < |cells|
      ensures IsCode(codes[k]) && codes[k] != [] && Decoded(codes[k]) == cells[k]
    {
      EncodeRoundTrip(cells[k]);
      CodesAreNotEmpty(codes[k]);
    }
    if cells != [] {
      var n := |cells| - 1;
      assert codes[..n] == EncodeAll(cells[..n]);
      ExpandedIsRaw(cells[..n], codes[..n]);
    }
  }

  /** What the compiler writes decodes to the cells it was given. */
  lemma EncodedValues(cells: seq<nat>)
    requires AllCells(cells)
    ensures AllCodes(EncodeAll(cells)) && Values(EncodeAll(cells)) == cells
  {
    hide Encode, Decoded, IsCode;
    forall k | 0 <= k < |cells|
      ensures IsCode(EncodeAll(cells)[k]) && EncodeAll(cells)[k] != [] && Decoded(EncodeAll(cells)[k]) == cells[k]
    {
      EncodeRoundTrip(cells[k]);
      CodesAreNotEmpty(Encode(cells[k]));
    }
  }

  /** Loading what the compiler wrote: whenever the compiler did not fall back to the plain format, expansion
      in place leaves exactly the program's cells. */
  method LoadCompact(code: array<Byte>, codesize: nat, memsize: nat, ghost cells: seq<nat>)
    requires AllCells(cells) && WriterAccepts(EncodeAll(cells))
    requires codesize == |Flat(EncodeAll(cells))| <= code.Length && code[..codesize] == Flat(EncodeAll(cells))
    requires memsize == CELL_SIZE * |cells| <= code.Length
    modifies code
    ensures code[..memsize] == Raw(cells)
    ensures ReadsAs(code[..], cells)
    ensures code[memsize..] == old(code[memsize..])
  {
    ghost var codes := EncodeAll(cells);
    ExpandedIsRaw(cells, codes);
    WriterStaysWithinMargin(codes);
    EncodedValues(cells);
    var ok, waiting := Expand(code, codesize, memsize, codes);
  }
}
