/** The garbage collector's hash table: open addressing with shrinking increments, marking, scanning and sweeping. */
module GcTable {

  import opened Arithmetic

  // ---------- Places in the table ----------

  /** The cell that stands for an object, by its bits. */
  type Handle = x: int | 0 <= x < 0x1_0000_0000

  const MIN_EXPONENT := 7
  const MAX_EXPONENT := 30

  /** The number of slots, `1 << exponent`. */
  function Size(exponent: nat): (n: nat)
    ensures n >= 1
    ensures exponent >= 1 ==> n >= 2
  {
    if exponent == 0 then 1 else 2 * Size(exponent - 1)
  }

  const INCREMENTS: seq<nat> := [1, 1, 1, 3, 5, 7, 17, 31, 67, 127, 257, 509, 1021, 2053, 4099, 8191, 16381]

  function FirstIncrement(exponent: nat): (i: nat)
    ensures i <= 16
  {
    if exponent < 17 then exponent else 16
  }

  /** A value is folded while the table is smaller than the fold, and its lowest byte is inverted. */
  function Fold(value: Handle, exponent: nat): bv32 {
    FoldBits(value as bv32, exponent)
  }

  function FoldBits(cell: bv32, exponent: nat): bv32 {
    var v := if exponent < 16 then (cell & 0xFFFF) ^ (cell >> 16) else cell;
    var v := if exponent < 8 then (v & 0xFF) ^ ((v >> 8) & 0xFF) else v;
    var v := if exponent < 4 then (v & 0xF) ^ ((v >> 4) & 0xF) else v;
    v ^ 0xFF
  }

  /** What the tables that can be set make of a value: all its bytes for 128 slots, its halves up to 2^15, all of it
      beyond. */
  lemma FoldIs(value: Handle, exponent: nat)
    requires MIN_EXPONENT <= exponent <= MAX_EXPONENT
    ensures Fold(value, exponent) == if exponent == 7 then AllBytes(value as bv32)
                                     else if exponent <= 15 then BothHalves(value as bv32) else Whole(value as bv32)
  {
    hide AllBytes, BothHalves, Whole, FoldBits;
    if exponent == 7 {
      SmallestFold(value as bv32);
    } else if exponent <= 15 {
      MiddleFold(value as bv32, exponent);
    } else {
      LargeFold(value as bv32, exponent);
    }
  }

  function AllBytes(v: bv32): bv32 {
    0xFF ^ ((v ^ (v >> 8) ^ (v >> 16) ^ (v >> 24)) & 0xFF)
  }

  function BothHalves(v: bv32): bv32 {
    0xFF ^ ((v ^ (v >> 16)) & 0xFFFF)
  }

  function Whole(v: bv32): bv32 {
    0xFF ^ v
  }

  lemma SmallestFold(v: bv32)
    ensures FoldBits(v, 7) == AllBytes(v)
  {
  }

  lemma MiddleFold(v: bv32, exponent: nat)
    requires 8 <= exponent <= 15
    ensures FoldBits(v, exponent) == BothHalves(v)
  {
  }

  lemma LargeFold(v: bv32, exponent: nat)
    requires 16 <= exponent
    ensures FoldBits(v, exponent) == Whole(v)
  {
  }

  /** Masking with `(1 << exponent) - 1` keeps the remainder. */
  function Hash(value: Handle, exponent: nat): (h: nat)
    ensures h < Size(exponent)
  {
    Fold(value, exponent) as nat % Size(exponent)
  }

  /** The slot that is looked at after `k` collisions: the increments shrink until they stay at one. */
  function Probe(exponent: nat, value: Handle, k: nat): (slot: nat)
    ensures slot < Size(exponent)
  {
    if k == 0 then
      Hash(value, exponent)
    else
      Advance(exponent, Probe(exponent, value, k - 1), INCREMENTS[IncrementAt(exponent, k - 1)])
  }

  function IncrementAt(exponent: nat, k: nat): (i: nat)
    ensures i <= 16
  {
    if k < FirstIncrement(exponent) then FirstIncrement(exponent) - k else 0
  }

  /** `(index + increment) & mask`. */
  function Advance(exponent: nat, index: nat, increment: nat): (r: nat)
    ensures r < Size(exponent)
  {
    (index + increment) % Size(exponent)
  }

  const SETTLED := 16

  /** Once the increment is one, the probe walks around the table. */
  lemma {:induction false} ProbeWalks(exponent: nat, value: Handle, j: nat)
    ensures Probe(exponent, value, SETTLED + j) == (Probe(exponent, value, SETTLED) + j) % Size(exponent)
  {
    hide Probe, Size;
    if j == 0 {
      SmallRemainder(Probe(exponent, value, SETTLED), Size(exponent));
    } else {
      ProbeWalks(exponent, value, j - 1);
      ProbeAdvances(exponent, value, SETTLED + j);
      assert SETTLED + j - 1 == SETTLED + (j - 1);
      NextRemainder(Probe(exponent, value, SETTLED) + j - 1, Size(exponent));
    }
  }

  lemma ProbeAdvances(exponent: nat, value: Handle, k: nat)
    requires k > SETTLED
    ensures Probe(exponent, value, k) == (Probe(exponent, value, k - 1) + 1) % Size(exponent)
  {
    hide Size, Hash;
    assert IncrementAt(exponent, k - 1) == 0;
  }

  /** Whatever the value, its probe visits every slot. */
  lemma ProbeVisits(exponent: nat, value: Handle, slot: nat) returns (k: nat)
    requires slot < Size(exponent)
    ensures k < SETTLED + Size(exponent) && Probe(exponent, value, k) == slot
  {
    hide Probe, Size;
    var from, n := Probe(exponent, value, SETTLED), Size(exponent);
    var j := if from <= slot then slot - from else slot + n - from;
    ProbeWalks(exponent, value, j);
    if from <= slot {
      SmallRemainder(slot, n);
    } else {
      Multiple(1, n, slot);
    }
    k := SETTLED + j;
  }

  // ---------- Searching ----------

  /** A slot: an object's handle, 0 if the slot is empty, and how often the scan met it. */
  datatype Pair = Pair(value: Handle, count: nat)

  const EMPTY := Pair(0, 0)

  /** A table of `1 << exponent` slots, the empty ones with count 0. */
  ghost predicate IsTable(t: seq<Pair>, exponent: nat) {
    |t| == Size(exponent) && forall i :: 0 <= i < |t| && t[i].value == 0 ==> t[i] == EMPTY
  }

  /** The values stored in the first `n` slots. */
  ghost function ValuesOf(t: seq<Pair>, n: nat): set<Handle>
    requires n <= |t|
  {
    set i | 0 <= i < n && t[i].value != 0 :: t[i].value
  }

  ghost function Values(t: seq<Pair>): set<Handle> {
    ValuesOf(t, |t|)
  }

  ghost predicate HasRoom(t: seq<Pair>) {
    exists i :: 0 <= i < |t| && t[i].value == 0
  }

  /** The search for `value` ends at its `k`th slot. */
  predicate Stops(t: seq<Pair>, exponent: nat, value: Handle, k: nat)
    requires |t| == Size(exponent)
  {
    var found := t[Probe(exponent, value, k)].value;
    found == 0 || found == value
  }

  ghost predicate CanStop(t: seq<Pair>, value: Handle) {
    HasRoom(t) || value in Values(t)
  }

  /** No search ends before its `k`th slot. */
  ghost predicate Passes(t: seq<Pair>, exponent: nat, value: Handle, k: nat)
    requires |t| == Size(exponent)
  {
    forall j :: 0 <= j < k ==> !Stops(t, exponent, value, j)
  }

  /** The search ends, within the settling steps and one walk around the table, exactly if there is an empty slot
      or the value is stored. */
  lemma SearchEndsIff(t: seq<Pair>, exponent: nat, value: Handle)
    requires |t| == Size(exponent)
    ensures CanStop(t, value) <==> exists k: nat :: k < SETTLED + Size(exponent) && Stops(t, exponent, value, k)
    ensures CanStop(t, value) <==> exists k: nat :: Stops(t, exponent, value, k)
  {
    hide Probe, Size;
    if CanStop(t, value) {
      var slot :| 0 <= slot < |t| && (t[slot].value == 0 || t[slot].value == value);
      var k := ProbeVisits(exponent, value, slot);
      assert Stops(t, exponent, value, k);
    }
    forall k: nat | Stops(t, exponent, value, k)
      ensures CanStop(t, value)
    {
      var slot := Probe(exponent, value, k);
      assert t[slot].value == 0 || t[slot].value == value;
    }
  }

  /** The search ends at its `k`th slot and not before. */
  ghost predicate EndsAt(t: seq<Pair>, exponent: nat, value: Handle, k: nat)
    requires |t| == Size(exponent)
  {
    Stops(t, exponent, value, k) && Passes(t, exponent, value, k)
  }

  lemma {:induction false} FirstStop(t: seq<Pair>, exponent: nat, value: Handle, k: nat) returns (first: nat)
    requires |t| == Size(exponent) && Stops(t, exponent, value, k)
    ensures first <= k && EndsAt(t, exponent, value, first)
    decreases k
  {
    hide Stops, Size;
    if Passes(t, exponent, value, k) {
      first := k;
    } else {
      var j :| 0 <= j < k && Stops(t, exponent, value, j);
      first := FirstStop(t, exponent, value, j);
    }
  }

  lemma SearchEnds(t: seq<Pair>, exponent: nat, value: Handle)
    requires |t| == Size(exponent) && CanStop(t, value)
    ensures exists k: nat :: k < SETTLED + Size(exponent) && EndsAt(t, exponent, value, k)
  {
    hide Stops, Size;
    SearchEndsIff(t, exponent, value);
    var j: nat :| j < SETTLED + Size(exponent) && Stops(t, exponent, value, j);
    var k := FirstStop(t, exponent, value, j);
  }

  /** The slot where the search for `value` ends. */
  ghost function Slot(t: seq<Pair>, exponent: nat, value: Handle): (slot: nat)
    requires |t| == Size(exponent) && CanStop(t, value)
    ensures slot < |t| && (t[slot].value == 0 || t[slot].value == value)
  {
    SearchEnds(t, exponent, value);
    var k: nat :| EndsAt(t, exponent, value, k);
    Probe(exponent, value, k)
  }

  lemma EndsOnce(t: seq<Pair>, exponent: nat, value: Handle, k: nat, j: nat)
    requires |t| == Size(exponent) && EndsAt(t, exponent, value, k) && EndsAt(t, exponent, value, j)
    ensures k == j
  {
    hide Stops, Size;
  }

  /** The first end of a search is the only one. */
  lemma SlotIs(t: seq<Pair>, exponent: nat, value: Handle, k: nat)
    requires |t| == Size(exponent) && EndsAt(t, exponent, value, k)
    ensures CanStop(t, value) && Slot(t, exponent, value) == Probe(exponent, value, k)
  {
    hide Probe, Size;
    SearchEndsIff(t, exponent, value);
    forall j: nat | EndsAt(t, exponent, value, j)
      ensures j == k
    {
      EndsOnce(t, exponent, value, k, j);
    }
  }

  lemma SlotEnds(t: seq<Pair>, exponent: nat, value: Handle) returns (k: nat)
    requires |t| == Size(exponent) && CanStop(t, value)
    ensures EndsAt(t, exponent, value, k) && Slot(t, exponent, value) == Probe(exponent, value, k)
  {
    hide Probe, Size;
    SearchEnds(t, exponent, value);
    k :| EndsAt(t, exponent, value, k);
    SlotIs(t, exponent, value, k);
  }

  /** Every stored value is found where it is stored. */
  ghost predicate Searchable(t: seq<Pair>, exponent: nat) {
    IsTable(t, exponent) &&
    forall i :: 0 <= i < |t| && t[i].value != 0 ==> CanStop(t, t[i].value) && Slot(t, exponent, t[i].value) == i
  }

  /** In a searchable table the search tells whether the value is stored. */
  lemma SearchDecides(t: seq<Pair>, exponent: nat, value: Handle)
    requires Searchable(t, exponent) && CanStop(t, value) && value != 0
    ensures t[Slot(t, exponent, value)].value == value <==> value in Values(t)
  {
    if value in Values(t) {
      var i :| 0 <= i < |t| && t[i].value == value;
      assert Slot(t, exponent, value) == i;
    }
  }

  /** A searchable table stores no value twice. */
  lemma SearchableIsDistinct(t: seq<Pair>, exponent: nat)
    requires Searchable(t, exponent)
    ensures Distinct(t)
  {
    hide Size, Slot;
    forall i, j | 0 <= i < |t| && 0 <= j < |t| && t[i].value == t[j].value != 0
      ensures i == j
    {
      assert Slot(t, exponent, t[i].value) == i;
    }
  }

  ghost predicate Distinct(t: seq<Pair>) {
    forall i, j :: 0 <= i < |t| && 0 <= j < |t| && t[i].value == t[j].value != 0 ==> i == j
  }

  // ---------- Marking ----------

  function Fresh(exponent: nat): (t: seq<Pair>)
    ensures IsTable(t, exponent)
  {
    seq(Size(exponent), i => EMPTY)
  }

  /** The table after `gc_mark`. */
  ghost function Marked(t: seq<Pair>, exponent: nat, value: Handle): (u: seq<Pair>)
    requires |t| == Size(exponent) && CanStop(t, value)
    ensures |u| == |t|
  {
    var slot := Slot(t, exponent, value);
    if t[slot].value == 0 then t[slot := t[slot].(value := value)] else t
  }

  /** A search ends where it did as long as the slots it passed are still occupied by the same values. */
  lemma EndKept(t: seq<Pair>, u: seq<Pair>, exponent: nat, value: Handle, k: nat)
    requires |t| == |u| == Size(exponent) && EndsAt(t, exponent, value, k)
    requires Stops(u, exponent, value, k)
    requires forall i :: 0 <= i < |t| && t[i].value != 0 ==> u[i].value == t[i].value
    ensures EndsAt(u, exponent, value, k)
  {
    hide Probe, Size;
    forall j | 0 <= j < k
      ensures !Stops(u, exponent, value, j)
    {
      assert !Stops(t, exponent, value, j);
    }
  }

  /** Marking adds the value, and leaves every stored value where the search finds it. */
  lemma MarkKeeps(t: seq<Pair>, exponent: nat, value: Handle)
    requires Searchable(t, exponent) && CanStop(t, value)
    ensures Searchable(Marked(t, exponent, value), exponent)
    ensures Values(Marked(t, exponent, value)) == Values(t) + {value} - {0}
  {
    hide Probe, Size, Slot, EndsAt;
    var u := Marked(t, exponent, value);
    var slot := Slot(t, exponent, value);
    forall i | 0 <= i < |u| && u[i].value != 0
      ensures CanStop(u, u[i].value) && Slot(u, exponent, u[i].value) == i
    {
      var x := u[i].value;
      var k := SlotEnds(t, exponent, x);
      EndKept(t, u, exponent, x, k);
      SlotIs(u, exponent, x, k);
    }
    MarkedValues(t, exponent, value);
  }

  lemma MarkedValues(t: seq<Pair>, exponent: nat, value: Handle)
    requires IsTable(t, exponent) && CanStop(t, value)
    ensures Values(Marked(t, exponent, value)) == Values(t) + {value} - {0}
  {
    hide Size, Slot;
    var u := Marked(t, exponent, value);
    var slot := Slot(t, exponent, value);
    assert u[slot].value == value;
    forall x
      ensures x in Values(u) <==> x in Values(t) + {value} - {0}
    {
      if x in Values(t) {
        var i :| 0 <= i < |t| && t[i].value == x;
        assert u[i].value == x;
      }
    }
  }

  // ---------- Scanning ----------

  /** The table after one scanned cell. */
  ghost function Counted(t: seq<Pair>, exponent: nat, cell: Handle): (u: seq<Pair>)
    requires |t| == Size(exponent) && CanStop(t, cell)
    ensures |u| == |t| && SameValues(t, u)
  {
    var slot := Slot(t, exponent, cell);
    if t[slot].value != 0 then t[slot := t[slot].(count := t[slot].count + 1)] else t
  }

  ghost predicate SameValues(t: seq<Pair>, u: seq<Pair>) {
    |t| == |u| && forall i :: 0 <= i < |t| ==> t[i].value == u[i].value
  }

  /** The table after the first `n` cells. */
  ghost function Scanned(t: seq<Pair>, exponent: nat, cells: seq<Handle>, n: nat): (u: seq<Pair>)
    requires |t| == Size(exponent) && HasRoom(t) && n <= |cells|
    ensures |u| == |t| && SameValues(t, u) && HasRoom(u)
  {
    if n == 0 then t else Counted(Scanned(t, exponent, cells, n - 1), exponent, cells[n - 1])
  }

  function Occurrences(cells: seq<Handle>, n: nat, value: Handle): nat
    requires n <= |cells|
  {
    if n == 0 then 0 else Occurrences(cells, n - 1, value) + if cells[n - 1] == value then 1 else 0
  }

  lemma {:induction false} OccursIff(cells: seq<Handle>, n: nat, value: Handle)
    requires n <= |cells|
    ensures Occurrences(cells, n, value) > 0 <==> exists i :: 0 <= i < n && cells[i] == value
  {
    if n > 0 {
      OccursIff(cells, n - 1, value);
    }
  }

  /** The search only looks at the values. */
  lemma SameValuesSearch(t: seq<Pair>, u: seq<Pair>, exponent: nat, value: Handle)
    requires |t| == Size(exponent) && SameValues(t, u) && CanStop(t, value)
    ensures CanStop(u, value) && Slot(u, exponent, value) == Slot(t, exponent, value)
  {
    hide Probe, Size, Slot;
    var k := SlotEnds(t, exponent, value);
    EndKept(t, u, exponent, value, k);
    SlotIs(u, exponent, value, k);
  }

  /** A stored value's count grows by the number of cells that hold the value; nothing else changes. */
  lemma {:induction false} ScanCounts(t: seq<Pair>, exponent: nat, cells: seq<Handle>, n: nat, i: nat)
    requires Searchable(t, exponent) && HasRoom(t) && n <= |cells| && i < |t|
    ensures Scanned(t, exponent, cells, n)[i] ==
            if t[i].value == 0 then t[i] else Pair(t[i].value, t[i].count + Occurrences(cells, n, t[i].value))
  {
    hide Size, Slot;
    if n > 0 {
      var before, cell := Scanned(t, exponent, cells, n - 1), cells[n - 1];
      ScanCounts(t, exponent, cells, n - 1, i);
      SameValuesSearch(t, before, exponent, cell);
      if cell == t[i].value && cell != 0 {
        assert Slot(t, exponent, cell) == i;
      }
    }
  }

  // ---------- Sweeping ----------

  function SweptPair(p: Pair): Pair {
    if p.value == 0 then p else if p.count == 0 then EMPTY else p.(count := 0)
  }

  /** The table after `gc_clean`. */
  function Swept(t: seq<Pair>): seq<Pair> {
    seq(|t|, i requires 0 <= i < |t| => SweptPair(t[i]))
  }

  /** The values `gc_clean` hands to the callback from the first `n` slots, in order. */
  function Freed(t: seq<Pair>, n: nat): seq<Handle>
    requires n <= |t|
  {
    if n == 0 then [] else Freed(t, n - 1) + if t[n - 1].value != 0 && t[n - 1].count == 0 then [t[n - 1].value] else []
  }

  /** How often a value is freed. */
  function Releases(t: seq<Pair>, value: Handle): nat {
    multiset(Freed(t, |t|))[value]
  }

  ghost predicate IsGarbage(t: seq<Pair>, n: nat, value: Handle)
    requires n <= |t|
  {
    exists i :: 0 <= i < n && t[i].value == value != 0 && t[i].count == 0
  }

  predicate Garbage(p: Pair) {
    p.value != 0 && p.count == 0
  }

  lemma FreedNone(t: seq<Pair>)
    ensures Freed(t, 0) == []
  {
  }

  lemma Appended<T>(s: seq<T>, x: T, value: T)
    ensures multiset(s + [x])[value] == multiset(s)[value] + if x == value then 1 else 0
  {
  }

  lemma FreedStep(t: seq<Pair>, n: nat, value: Handle)
    requires 0 < n <= |t|
    ensures multiset(Freed(t, n))[value] ==
            multiset(Freed(t, n - 1))[value] + if Garbage(t[n - 1]) && t[n - 1].value == value then 1 else 0
  {
    var before := Freed(t, n - 1);
    if Garbage(t[n - 1]) {
      Appended(before, t[n - 1].value, value);
    } else {
      assert Freed(t, n) == before + [];
      assert before + [] == before;
    }
  }

  /** Without duplicates, a value is freed once if its slot holds garbage, and not at all otherwise. */
  lemma {:induction false} FreedOnce(t: seq<Pair>, n: nat, value: Handle)
    requires Distinct(t) && n <= |t|
    ensures IsGarbage(t, n, value) ==> multiset(Freed(t, n))[value] == 1
    ensures !IsGarbage(t, n, value) ==> multiset(Freed(t, n))[value] == 0
  {
    hide Freed;
    if n == 0 {
      FreedNone(t);
    } else {
      FreedOnce(t, n - 1, value);
      FreedStep(t, n, value);
      if IsGarbage(t, n - 1, value) {
        var i :| 0 <= i < n - 1 && t[i].value == value != 0 && t[i].count == 0;
        assert t[n - 1].value != value;
      }
    }
  }

  /** After a scan, exactly the values that no scanned cell holds have count zero. */
  lemma ScanTells(t: seq<Pair>, exponent: nat, cells: seq<Handle>, u: seq<Pair>)
    requires Searchable(t, exponent) && HasRoom(t) && (forall i :: 0 <= i < |t| ==> t[i].count == 0)
    requires u == Scanned(t, exponent, cells, |cells|)
    ensures forall i :: 0 <= i < |t| ==> (u[i].count == 0 <==> t[i].value == 0 || t[i].value !in cells)
  {
    hide Size, Slot, Scanned;
    forall i | 0 <= i < |t|
      ensures u[i].count == 0 <==> t[i].value == 0 || t[i].value !in cells
    {
      ScanCounts(t, exponent, cells, |cells|, i);
      OccursIff(cells, |cells|, t[i].value);
    }
  }

  /** One collection: of a table whose counts are zero, exactly the values that no scanned cell holds are freed,
      once each, and exactly the others stay, with their counts reset. */
  lemma CollectionExact(t: seq<Pair>, exponent: nat, cells: seq<Handle>, value: Handle)
    requires Searchable(t, exponent) && HasRoom(t) && (forall i :: 0 <= i < |t| ==> t[i].count == 0)
    ensures var u := Scanned(t, exponent, cells, |cells|);
      && Releases(u, value) == (if value in Values(t) && value !in cells then 1 else 0)
      && (value in Values(Swept(u)) <==> value in Values(t) && value in cells)
      && (forall i :: 0 <= i < |t| ==> Swept(u)[i].count == 0)
  {
    hide Size, Slot, Scanned, Freed;
    var u := Scanned(t, exponent, cells, |cells|);
    SearchableIsDistinct(t, exponent);
    ScanTells(t, exponent, cells, u);
    FreedOnce(u, |u|, value);
    assert IsGarbage(u, |u|, value) <==> value in Values(t) && value !in cells;
    SweptValues(u, value);
  }

  lemma SweptValues(u: seq<Pair>, value: Handle)
    ensures value in Values(Swept(u)) <==> exists i :: 0 <= i < |u| && u[i].value == value != 0 && u[i].count != 0
    ensures forall i :: 0 <= i < |u| && (u[i].value == 0 ==> u[i].count == 0) ==> Swept(u)[i].count == 0
  {
    forall i | 0 <= i < |u|
      ensures Swept(u)[i] == SweptPair(u[i])
    {
    }
    if i :| 0 <= i < |u| && u[i].value == value != 0 && u[i].count != 0 {
      assert Swept(u)[i].value == value;
    }
  }

  // ---------- Tables filled by marking ----------

  /** Without duplicates, the stored values number as many as the occupied slots. */
  lemma {:induction false} ValuesFill(t: seq<Pair>, n: nat)
    requires Distinct(t) && n <= |t|
    ensures |ValuesOf(t, n)| <= n
    ensures |ValuesOf(t, n)| == n <==> forall i :: 0 <= i < n ==> t[i].value != 0
  {
    if n > 0 {
      ValuesFill(t, n - 1);
      var last := t[n - 1].value;
      if last == 0 {
        assert ValuesOf(t, n) == ValuesOf(t, n - 1);
      } else {
        assert ValuesOf(t, n) == ValuesOf(t, n - 1) + {last};
        assert last !in ValuesOf(t, n - 1);
      }
    }
  }

  /** A searchable table has an empty slot exactly if it holds fewer values than slots. */
  lemma RoomIff(t: seq<Pair>, exponent: nat)
    requires Searchable(t, exponent)
    ensures HasRoom(t) <==> |Values(t)| < Size(exponent)
  {
    hide Size, Slot;
    SearchableIsDistinct(t, exponent);
    ValuesFill(t, |t|);
  }

  ghost function Members(values: seq<Handle>): set<Handle> {
    set v | v in values
  }

  /** The table that `values` make when they are marked one after the other in an empty table. */
  ghost function MarkedAll(exponent: nat, values: seq<Handle>): (t: seq<Pair>)
    requires 0 !in values && |Members(values)| <= Size(exponent)
    ensures Searchable(t, exponent) && Values(t) == Members(values)
  {
    if values == [] then
      Fresh(exponent)
    else
      var most, last := values[..|values| - 1], values[|values| - 1];
      MemberAdded(values);
      RoomToMark(MarkedAll(exponent, most), exponent, last);
      MarkKeeps(MarkedAll(exponent, most), exponent, last);
      Marked(MarkedAll(exponent, most), exponent, last)
  }

  lemma MemberAdded(values: seq<Handle>)
    requires values != []
    ensures var most := values[..|values| - 1];
      && Members(values) == Members(most) + {values[|values| - 1]}
      && |Members(most)| <= |Members(values)|
  {
    var most, last := values[..|values| - 1], values[|values| - 1];
    assert values == most + [last];
    assert Members(values) == Members(most) + {last};
    if last in Members(most) {
      assert Members(values) == Members(most);
    }
  }

  lemma RoomToMark(t: seq<Pair>, exponent: nat, value: Handle)
    requires Searchable(t, exponent) && |Values(t) + {value}| <= Size(exponent)
    ensures CanStop(t, value)
  {
    hide Size, Slot;
    RoomIff(t, exponent);
    if value !in Values(t) {
      assert |Values(t) + {value}| == |Values(t)| + 1;
    }
  }

  lemma {:induction false} MarkedAllUncounted(exponent: nat, values: seq<Handle>)
    requires 0 !in values && |Members(values)| <= Size(exponent)
    ensures forall p :: p in MarkedAll(exponent, values) ==> p.count == 0
  {
    hide Size, Slot;
    if values != [] {
      MemberAdded(values);
      MarkedAllUncounted(exponent, values[..|values| - 1]);
    }
  }

  /** A whole cycle: of the values marked in an empty table that they do not fill, exactly those that no scanned
      cell holds are freed, once each. */
  lemma CycleExact(exponent: nat, values: seq<Handle>, cells: seq<Handle>, value: Handle)
    requires 0 !in values && |Members(values)| < Size(exponent)
    ensures var t := MarkedAll(exponent, values);
      HasRoom(t) && Releases(Scanned(t, exponent, cells, |cells|), value) ==
                    if value in values && value !in cells then 1 else 0
  {
    hide Size, Slot, MarkedAll, Scanned, Releases;
    var t := MarkedAll(exponent, values);
    RoomIff(t, exponent);
    MarkedAllUncounted(exponent, values);
    forall i | 0 <= i < |t|
      ensures t[i].count == 0
    {
      assert t[i] in t;
    }
    CollectionExact(t, exponent, cells, value);
  }

  // ---------- Rehashing ----------

  /** The values of the first `n` slots, in order. */
  function Stored(t: seq<Pair>, n: nat): (s: seq<Handle>)
    requires n <= |t|
    ensures 0 !in s
  {
    if n == 0 then [] else Stored(t, n - 1) + if t[n - 1].value != 0 then [t[n - 1].value] else []
  }

  lemma {:induction false} StoredMembers(t: seq<Pair>, n: nat)
    requires n <= |t|
    ensures Members(Stored(t, n)) == ValuesOf(t, n)
  {
    if n > 0 {
      StoredMembers(t, n - 1);
      forall v
        ensures v in Stored(t, n) <==> v in ValuesOf(t, n)
      {
        assert v in Stored(t, n - 1) <==> v in Members(Stored(t, n - 1));
      }
    }
  }

  lemma {:induction false} ValuesGrow(t: seq<Pair>, n: nat)
    requires n <= |t|
    ensures |ValuesOf(t, n)| <= |Values(t)|
  {
    Smaller(ValuesOf(t, n), Values(t));
  }

  lemma {:induction false} Smaller<T>(a: set<T>, b: set<T>)
    requires a <= b
    ensures |a| <= |b|
  {
    assert b == a + (b - a);
  }

  /** The table that `gc_settable` makes of the first `n` slots of `t`. */
  ghost function Rehashed(t: seq<Pair>, exponent: nat, n: nat): (u: seq<Pair>)
    requires n <= |t| && |Values(t)| <= Size(exponent)
    ensures |u| == Size(exponent)
  {
    StoredMembers(t, n);
    ValuesGrow(t, n);
    MarkedAll(exponent, Stored(t, n))
  }

  /** Rehashing keeps the set of values, whatever holes sweeps have left, and every value is found again. */
  lemma RehashKeeps(t: seq<Pair>, exponent: nat)
    requires |Values(t)| <= Size(exponent)
    ensures Values(Rehashed(t, exponent, |t|)) == Values(t)
    ensures Searchable(Rehashed(t, exponent, |t|), exponent)
    ensures HasRoom(Rehashed(t, exponent, |t|)) <==> |Values(t)| < Size(exponent)
  {
    hide Size, Slot;
    StoredMembers(t, |t|);
    RoomIff(Rehashed(t, exponent, |t|), exponent);
  }

  // ---------- Many cycles ----------

  /** One cycle of a host that rehashes first: it marks new values, then scans cells and sweeps. */
  datatype Cycle = Cycle(news: seq<Handle>, cells: seq<Handle>)

  /** The values that are alive after the cycles, and those that are stored when the last one scans. */
  ghost function Alive(cycles: seq<Cycle>): set<Handle>
    decreases |cycles|, 1
  {
    if cycles == [] then {} else set v | v in Candidates(cycles) && v in cycles[|cycles| - 1].cells
  }

  ghost function Candidates(cycles: seq<Cycle>): set<Handle>
    requires cycles != []
    decreases |cycles|, 0
  {
    Alive(cycles[..|cycles| - 1]) + Members(cycles[|cycles| - 1].news)
  }

  /** No cycle fills the table. */
  ghost predicate CyclesFit(exponent: nat, cycles: seq<Cycle>) {
    cycles == [] ||
    (CyclesFit(exponent, cycles[..|cycles| - 1]) && 0 !in cycles[|cycles| - 1].news &&
     |Candidates(cycles)| < Size(exponent))
  }

  /** The table after the cycles. */
  ghost function TableAfter(exponent: nat, cycles: seq<Cycle>): (t: seq<Pair>)
    requires CyclesFit(exponent, cycles)
    ensures Values(t) == Alive(cycles)
    decreases |cycles|, 3
  {
    if cycles == [] then
      Fresh(exponent)
    else
      LastScanned(exponent, cycles);
      Swept(LastScan(exponent, cycles))
  }

  /** The table as the last cycle marks it: what the rehash finds, then the new values. */
  ghost function LastMarked(exponent: nat, cycles: seq<Cycle>): (t: seq<Pair>)
    requires CyclesFit(exponent, cycles) && cycles != []
    ensures Searchable(t, exponent) && Values(t) == Candidates(cycles) && HasRoom(t)
    decreases |cycles|, 0
  {
    var before, news := TableAfter(exponent, cycles[..|cycles| - 1]), cycles[|cycles| - 1].news;
    StoredMembers(before, |before|);
    MembersOfBoth(Stored(before, |before|), news);
    var t := MarkedAll(exponent, Stored(before, |before|) + news);
    RoomIff(t, exponent);
    t
  }

  ghost function LastScan(exponent: nat, cycles: seq<Cycle>): (t: seq<Pair>)
    requires CyclesFit(exponent, cycles) && cycles != []
    decreases |cycles|, 1
  {
    var cells := cycles[|cycles| - 1].cells;
    Scanned(LastMarked(exponent, cycles), exponent, cells, |cells|)
  }

  lemma MembersOfBoth(a: seq<Handle>, b: seq<Handle>)
    ensures Members(a + b) == Members(a) + Members(b)
  {
  }

  /** How often the callback is called for a value in all cycles, and how often the value came in new. */
  ghost function Deaths(exponent: nat, cycles: seq<Cycle>, value: Handle): nat
    requires CyclesFit(exponent, cycles)
  {
    if cycles == [] then 0
    else Deaths(exponent, cycles[..|cycles| - 1], value) + Releases(LastScan(exponent, cycles), value)
  }

  ghost function Births(cycles: seq<Cycle>, value: Handle): nat {
    if cycles == [] then 0
    else
      var most := cycles[..|cycles| - 1];
      Births(most, value) + if value in cycles[|cycles| - 1].news && value !in Alive(most) then 1 else 0
  }

  /** The last cycle frees exactly what its scan does not meet. */
  lemma LastScanned(exponent: nat, cycles: seq<Cycle>)
    requires CyclesFit(exponent, cycles) && cycles != []
    ensures Values(Swept(LastScan(exponent, cycles))) == Alive(cycles)
    ensures forall value ::
      Releases(LastScan(exponent, cycles), value) ==
      (if value in Candidates(cycles) && value !in cycles[|cycles| - 1].cells then 1 else 0)
    decreases |cycles|, 2
  {
    hide Size, Slot, Scanned, Releases, CyclesFit;
    var t, cells := LastMarked(exponent, cycles), cycles[|cycles| - 1].cells;
    forall i | 0 <= i < |t|
      ensures t[i].count == 0
    {
      LastUncounted(exponent, cycles, i);
    }
    forall value
      ensures value in Values(Swept(LastScan(exponent, cycles))) <==> value in Alive(cycles)
      ensures Releases(LastScan(exponent, cycles), value) ==
        if value in Candidates(cycles) && value !in cells then 1 else 0
    {
      CollectionExact(t, exponent, cells, value);
    }
  }

  lemma LastUncounted(exponent: nat, cycles: seq<Cycle>, i: nat)
    requires CyclesFit(exponent, cycles) && cycles != [] && i < |LastMarked(exponent, cycles)|
    ensures LastMarked(exponent, cycles)[i].count == 0
    decreases |cycles|, 1
  {
    hide Size, Slot, MarkedAll;
    var before, news := TableAfter(exponent, cycles[..|cycles| - 1]), cycles[|cycles| - 1].news;
    StoredMembers(before, |before|);
    MembersOfBoth(Stored(before, |before|), news);
    MarkedAllUncounted(exponent, Stored(before, |before|) + news);
    assert LastMarked(exponent, cycles)[i] in MarkedAll(exponent, Stored(before, |before|) + news);
  }

  /** Over any number of cycles with a rehash before each: every value that came in has been freed once, or is alive. */
  lemma {:induction false} EveryBirthDiesOnce(exponent: nat, cycles: seq<Cycle>, value: Handle)
    requires CyclesFit(exponent, cycles)
    ensures Births(cycles, value) == Deaths(exponent, cycles, value) + if value in Alive(cycles) then 1 else 0
  {
    hide Size, Releases, LastScan;
    if cycles != [] {
      EveryBirthDiesOnce(exponent, cycles[..|cycles| - 1], value);
      LastScanned(exponent, cycles);
    }
  }

  // ---------- Holes ----------

  /** A value that stays is still found after the sweep exactly if no slot its search passed was freed. */
  lemma FoundAfterSweepIff(t: seq<Pair>, exponent: nat, value: Handle, k: nat)
    requires |t| == Size(exponent) && value != 0 && EndsAt(t, exponent, value, k)
    requires t[Probe(exponent, value, k)].value == value && t[Probe(exponent, value, k)].count > 0
    ensures var u := Swept(t);
      CanStop(u, value) && (Slot(u, exponent, value) == Probe(exponent, value, k) <==>
        forall j :: 0 <= j < k ==> t[Probe(exponent, value, j)].count > 0)
  {
    hide Probe, Size, Slot;
    var u := Swept(t);
    assert forall i :: 0 <= i < |t| ==> u[i] == SweptPair(t[i]);
    SearchEndsIff(u, exponent, value);
    assert Stops(u, exponent, value, k);
    var e := SlotEnds(u, exponent, value);
    if forall j :: 0 <= j < k ==> t[Probe(exponent, value, j)].count > 0 {
      forall j | 0 <= j < k
        ensures !Stops(u, exponent, value, j)
      {
        assert !Stops(t, exponent, value, j);
      }
      EndsOnce(u, exponent, value, e, k);
    } else {
      var j :| 0 <= j < k && t[Probe(exponent, value, j)].count == 0;
      assert Stops(u, exponent, value, j);
      assert e <= j;
      assert !Stops(t, exponent, value, e);
    }
  }

  /** Two values that collide in a table of 128 slots: 1 goes to slot 126 and 256 one increment further. */
  lemma Collision()
    ensures Size(7) == 128
    ensures Probe(7, 1, 0) == Probe(7, 256, 0) == 126 && Probe(7, 256, 1) == 29
  {
    assert Size(1) == 2 && Size(3) == 8 && Size(5) == 32;
    assert Fold(1, 7) == 254;
    assert Fold(256, 7) == 254;
  }

  /** A table of 128 slots that holds nothing but 1 in slot 126 and 256 in slot 29. */
  ghost predicate Collided(t: seq<Pair>) {
    |t| == 128 && t[126] == Pair(1, 0) && t[29] == Pair(256, 0) &&
    forall i :: 0 <= i < 128 && i != 126 && i != 29 ==> t[i] == EMPTY
  }

  lemma CollidedSearchable(t: seq<Pair>)
    requires Collided(t)
    ensures Searchable(t, 7) && HasRoom(t) && Slot(t, 7, 256) == 29
  {
    Collision();
    hide Size, Probe, Slot;
    assert t[0] == EMPTY;
    assert EndsAt(t, 7, 1, 0) && EndsAt(t, 7, 256, 1) by {
      assert Stops(t, 7, 256, 1) && !Stops(t, 7, 256, 0);
    }
    SlotIs(t, 7, 1, 0);
    SlotIs(t, 7, 256, 1);
  }

  /** This is the table that marking 1 and then 256 makes. */
  lemma CollidedIsMarked()
    ensures Members([1, 256]) == {1, 256} && Size(7) == 128 && Collided(MarkedAll(7, [1, 256]))
  {
    Collision();
    hide Size, Probe, Slot;
    var none := Fresh(7);
    assert MarkedAll(7, []) == none;
    assert EndsAt(none, 7, 1, 0);
    SlotIs(none, 7, 1, 0);
    assert [1][..0] == [] && Members([1]) == {1};
    var one := MarkedAll(7, [1]);
    assert one == none[126 := Pair(1, 0)];
    assert EndsAt(one, 7, 256, 1) by {
      assert Stops(one, 7, 256, 1) && !Stops(one, 7, 256, 0);
    }
    SlotIs(one, 7, 256, 1);
    assert [1, 256][..1] == [1];
  }

  lemma OneCell(t: seq<Pair>, cell: Handle)
    requires |t| == Size(7) && HasRoom(t)
    ensures Scanned(t, 7, [cell], 1) == Counted(t, 7, cell)
  {
    hide Size, Slot, Counted;
    assert Scanned(t, 7, [cell], 0) == t;
  }

  /** The sweep leaves no trace of a freed slot, so the object with handle 256, which every scan meets, is not
      found by the second scan and freed by the second sweep. */
  lemma LiveObjectFreed(t: seq<Pair>)
    requires Collided(t)
    ensures Size(7) == 128 && Searchable(t, 7) && HasRoom(t)
    ensures var u := Swept(Scanned(t, 7, [256], 1));
      u[29] == Pair(256, 0) && HasRoom(u) && Releases(Scanned(u, 7, [256], 1), 256) > 0
  {
    Collision();
    CollidedSearchable(t);
    OneCell(t, 256);
    hide Size, Probe, Slot, Scanned, Freed;
    var s := Scanned(t, 7, [256], 1);
    var u := Swept(s);
    assert u[29] == SweptPair(s[29]) && u[126] == SweptPair(s[126]);
    assert EndsAt(u, 7, 256, 0);
    SlotIs(u, 7, 256, 0);
    OneCell(u, 256);
    FreedSomewhere(u, |u|, 29);
  }

  lemma {:induction false} FreedSomewhere(t: seq<Pair>, n: nat, i: nat)
    requires i < n <= |t| && Garbage(t[i])
    ensures t[i].value in Freed(t, n)
  {
    if i < n - 1 {
      FreedSomewhere(t, n - 1, i);
    }
  }

  // ---------- The collector ----------

  datatype Error = NoError | NoCallback | NotInitialised | OutOfMemory | BadParameter | Duplicate

  /** The collector's shared state; `freed` records the calls of the callback. */
  class Collector {
    var table: array?<Pair>
    var exponent: nat
    var flags: int
    var count: int
    var hasCallback: bool
    var freed: seq<Handle>

    /** The fill count is never raised and the flags are never set. */
    ghost predicate Valid()
      reads this, table
    {
      count == 0 && flags == 0 && (table == null ==> exponent == 0) &&
      (table != null ==> MIN_EXPONENT <= exponent <= MAX_EXPONENT && IsTable(table[..], exponent))
    }

    constructor ()
      ensures Valid() && table == null && freed == [] && !hasCallback
    {
      table, exponent, flags, count, hasCallback, freed := null, 0, 0, 0, false, [];
    }

    /** `gc_setcallback`. */
    method SetCallback(callback: bool)
      requires Valid()
      modifies `hasCallback
      ensures Valid() && hasCallback == callback
    {
      hasCallback := callback;
    }

    /** The search loop that `gc_mark` and `scansection` both have. */
    method Find(value: Handle) returns (index: nat)
      requires Valid() && table != null && CanStop(table[..], value)
      ensures index < table.Length && index == Slot(table[..], exponent, value)
    {
      hide IsTable, Probe, Slot, CanStop, Size, Advance, Hash, IncrementAt, FirstIncrement;
      ghost var t := table[..];
      assert |t| == Size(exponent) by {
        TableSize(t, exponent);
      }
      ghost var stop := SlotEnds(t, exponent, value);
      ghost var k := 0;
      FirstProbe(exponent, value);
      index := Hash(value, exponent);
      var increment := FirstIncrement(exponent);
      while table[index].value != 0 && table[index].value != value
        invariant 0 <= k <= stop && index == Probe(exponent, value, k) < table.Length
        invariant increment == IncrementAt(exponent, k)
        decreases stop - k
      {
        NextProbe(exponent, value, k);
        assert !Stops(t, exponent, value, k);
        index := Advance(exponent, index, INCREMENTS[increment]);
        if increment > 0 {
          increment := increment - 1;
        }
        k := k + 1;
      }
      assert k == stop by {
        assert Stops(t, exponent, value, k);
      }
    }

    /** `gc_mark`. The search ends if the table has room or already holds the value. */
    method Mark(value: Handle) returns (err: Error)
      requires Valid() && (table != null ==> CanStop(table[..], value))
      modifies table
      ensures Valid()
      ensures table == null ==> err == NotInitialised
      ensures table != null ==> old(|table[..]|) == Size(exponent)
      ensures table != null ==> table[..] == Marked(old(table[..]), exponent, value)
      ensures table != null && value != 0 && old(Searchable(table[..], exponent)) ==>
        err == if value in old(Values(table[..])) then Duplicate else NoError
    {
      if table == null {
        return NotInitialised;
      }
      assert count < Size(exponent);
      hide Slot, Size, CanStop, Searchable;
      if value != 0 && Searchable(table[..], exponent) {
        SearchDecides(table[..], exponent, value);
      }
      var index := Find(value);
      if table[index].value != 0 {
        return Duplicate;
      }
      table[index] := table[index].(value := value);
      return NoError;
    }

    /** `scansection`. */
    method ScanSection(cells: seq<Handle>)
      requires Valid() && table != null && HasRoom(table[..])
      modifies table
      ensures Valid() && old(|table[..]|) == Size(exponent)
      ensures table[..] == Scanned(old(table[..]), exponent, cells, |cells|)
    {
      hide Slot, Size;
      for i := 0 to |cells|
        invariant |old(table[..])| == Size(exponent) && table[..] == Scanned(old(table[..]), exponent, cells, i)
        invariant Valid() && HasRoom(table[..])
      {
        ghost var before := table[..];
        var index := Find(cells[i]);
        if table[index].value != 0 {
          table[index] := table[index].(count := table[index].count + 1);
        }
        assert table[..] == Counted(before, exponent, cells[i]);
      }
    }

    /** `gc_clean`. */
    method Clean() returns (err: Error)
      requires Valid()
      modifies this, table
      ensures Valid() && table == old(table) && exponent == old(exponent) && hasCallback == old(hasCallback)
      ensures err == if table == null then NotInitialised else if !hasCallback then NoCallback else NoError
      ensures err != NoError ==> freed == old(freed) && (table != null ==> table[..] == old(table[..]))
      ensures err == NoError ==> table[..] == Swept(old(table[..]))
      ensures err == NoError ==> freed == old(freed) + Freed(old(table[..]), table.Length)
    {
      if table == null {
        return NotInitialised;
      }
      if !hasCallback {
        return NoCallback;
      }
      ghost var t := table[..];
      var items := table;
      for i := 0 to table.Length
        invariant table == old(table) && exponent == old(exponent) && hasCallback && count == 0 && flags == 0
        invariant forall j :: 0 <= j < i ==> table[j] == SweptPair(t[j])
        invariant forall j :: i <= j < table.Length ==> table[j] == t[j]
        invariant freed == old(freed) + Freed(t, i)
      {
        if table[i].value != 0 {
          if table[i].count == 0 {
            freed := freed + [table[i].value];
            table[i] := EMPTY;
          }
          table[i] := table[i].(count := 0);
        }
      }
      assert table[..] == Swept(t);
      err := NoError;
    }

    /** `gc_scan`: the global data, the heap and the stack of a program, as ranges of cells of its data block. */
    method Scan(data: seq<Handle>, globals: nat, hlw: nat, hea: nat, stk: nat, stp: nat) returns (err: Error)
      requires Valid() && (table != null ==> HasRoom(table[..]))
      requires globals <= |data| && hlw <= hea <= stk <= stp <= |data|
      modifies table
      ensures Valid() && err == if table == null then NotInitialised else NoError
      ensures table != null ==> old(|table[..]|) == Size(exponent)
      ensures table != null ==> var cells := data[..globals] + data[hlw..hea] + data[stk..stp];
        table[..] == Scanned(old(table[..]), exponent, cells, |cells|)
    {
      if table == null {
        return NotInitialised;
      }
      hide Size, Scanned;
      ghost var t := table[..];
      ScanSection(data[..globals]);
      ScanSection(data[hlw..hea]);
      ScannedTwice(t, exponent, data[..globals], data[hlw..hea]);
      ScanSection(data[stk..stp]);
      ScannedTwice(t, exponent, data[..globals] + data[hlw..hea], data[stk..stp]);
      err := NoError;
    }

    /** `gc_settable` for a new size; `memory` says whether the table can be allocated. Nothing but the smaller
        table of a full one makes it search forever, as the test of the fill count cannot fail. */
    method SetTable(newExponent: int, newFlags: int, memory: bool) returns (err: Error)
      requires Valid() && newExponent != 0
      requires table != null && MIN_EXPONENT <= newExponent <= MAX_EXPONENT ==>
        |Values(table[..])| <= Size(newExponent)
      modifies this, table
      ensures Valid() && freed == old(freed) && hasCallback == old(hasCallback)
      ensures err == (if newExponent < MIN_EXPONENT || newExponent > MAX_EXPONENT then BadParameter
                      else if !memory then OutOfMemory else NoError)
      ensures err != NoError ==>
        table == old(table) && exponent == old(exponent) && (table != null ==> table[..] == old(table[..]))
      ensures err == NoError ==> exponent == newExponent && table != null && fresh(table)
      ensures err == NoError && old(table) == null ==> table[..] == Fresh(exponent)
      ensures err == NoError && old(table) != null ==>
        table[..] == Rehashed(old(table[..]), exponent, old(table.Length))
    {
      if newExponent < MIN_EXPONENT || newExponent > MAX_EXPONENT {
        return BadParameter;
      }
      assert count <= Size(newExponent);
      if !memory {
        return OutOfMemory;
      }
      hide Size, Slot, Values, Rehashed, CanStop, Marked, IsTable, Searchable;
      var oldTable := table;
      table := new Pair[Size(newExponent)](i => EMPTY);
      assert table[..] == Fresh(newExponent);
      exponent := newExponent;
      count := newFlags;
      count := 0;
      if oldTable != null {
        ghost var t := oldTable[..];
        RehashNone(t, newExponent);
        for i := 0 to oldTable.Length
          invariant table != null && fresh(table) && table != oldTable && oldTable[..] == t
          invariant exponent == newExponent && Valid() && freed == old(freed) && hasCallback == old(hasCallback)
          invariant table[..] == Rehashed(t, newExponent, i)
        {
          if oldTable[i].value != 0 {
            RehashStep(t, newExponent, i);
            var marked := Mark(oldTable[i].value);
          } else {
            RehashSkip(t, newExponent, i);
          }
        }
      }
      err := NoError;
    }

    /** `gc_settable` with exponent 0 drops the table after a sweep. */
    method DropTable() returns (err: Error)
      requires Valid()
      modifies this, table
      ensures Valid() && err == NoError && table == null
      ensures freed == old(freed) +
        if old(table != null && hasCallback) then Freed(old(table[..]), old(table.Length)) else []
    {
      var ignored := Clean();
      table, exponent, flags, count := null, 0, 0, 0;
      err := NoError;
    }
  }

  lemma {:induction false} ScannedPrefix(t: seq<Pair>, exponent: nat, a: seq<Handle>, b: seq<Handle>, n: nat)
    requires |t| == Size(exponent) && HasRoom(t) && n <= |a|
    ensures Scanned(t, exponent, a + b, n) == Scanned(t, exponent, a, n)
  {
    hide Size, Counted;
    if n > 0 {
      ScannedPrefix(t, exponent, a, b, n - 1);
    }
  }

  lemma {:induction false} ScannedOn(t: seq<Pair>, exponent: nat, a: seq<Handle>, b: seq<Handle>, n: nat)
    requires |t| == Size(exponent) && HasRoom(t) && n <= |b|
    ensures Scanned(t, exponent, a + b, |a| + n) == Scanned(Scanned(t, exponent, a, |a|), exponent, b, n)
  {
    hide Size, Counted;
    if n == 0 {
      ScannedPrefix(t, exponent, a, b, |a|);
    } else {
      ScannedOn(t, exponent, a, b, n - 1);
      assert |a| + n - 1 == |a| + (n - 1);
      assert (a + b)[|a| + n - 1] == b[n - 1];
    }
  }

  /** Scanning two sections is scanning the cells of both. */
  lemma ScannedTwice(t: seq<Pair>, exponent: nat, a: seq<Handle>, b: seq<Handle>)
    requires |t| == Size(exponent) && HasRoom(t)
    ensures Scanned(t, exponent, a + b, |a + b|) == Scanned(Scanned(t, exponent, a, |a|), exponent, b, |b|)
  {
    hide Size, Scanned;
    ScannedOn(t, exponent, a, b, |b|);
    assert |a + b| == |a| + |b|;
  }

  lemma RehashNone(t: seq<Pair>, exponent: nat)
    requires |Values(t)| <= Size(exponent)
    ensures Rehashed(t, exponent, 0) == Fresh(exponent)
  {
    hide Size;
  }

  lemma RehashSkip(t: seq<Pair>, exponent: nat, i: nat)
    requires i < |t| && t[i].value == 0 && |Values(t)| <= Size(exponent)
    ensures Rehashed(t, exponent, i + 1) == Rehashed(t, exponent, i)
  {
    hide Size;
    assert Stored(t, i + 1) == Stored(t, i);
  }

  /** One slot of the rehash. */
  lemma RehashStep(t: seq<Pair>, exponent: nat, i: nat)
    requires i < |t| && t[i].value != 0 && |Values(t)| <= Size(exponent)
    ensures CanStop(Rehashed(t, exponent, i), t[i].value)
    ensures Rehashed(t, exponent, i + 1) == Marked(Rehashed(t, exponent, i), exponent, t[i].value)
  {
    hide Size, Slot, Marked;
    StoredMembers(t, i);
    StoredMembers(t, i + 1);
    ValuesGrow(t, i);
    ValuesGrow(t, i + 1);
    var stored, more := Stored(t, i), Stored(t, i + 1);
    assert more == stored + [t[i].value];
    assert more[..|more| - 1] == stored;
    assert Members(more) == Members(stored) + {t[i].value};
    RoomToMark(MarkedAll(exponent, stored), exponent, t[i].value);
  }

  lemma TableSize(t: seq<Pair>, exponent: nat)
    requires IsTable(t, exponent)
    ensures |t| == Size(exponent)
  {
  }

  lemma FirstProbe(exponent: nat, value: Handle)
    ensures Probe(exponent, value, 0) == Hash(value, exponent)
    ensures IncrementAt(exponent, 0) == FirstIncrement(exponent)
  {
  }

  lemma NextProbe(exponent: nat, value: Handle, k: nat)
    ensures Probe(exponent, value, k + 1) ==
            Advance(exponent, Probe(exponent, value, k), INCREMENTS[IncrementAt(exponent, k)])
    ensures IncrementAt(exponent, k + 1) == if IncrementAt(exponent, k) > 0 then IncrementAt(exponent, k) - 1 else 0
  {
  }
}
