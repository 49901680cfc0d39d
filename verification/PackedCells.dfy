/** Four characters in a cell, the first one in the highest byte, and the cell operations that move them. */
module PackedCells {

  type Word = x: int | 0 <= x < 0x1_0000_0000

  type Char = x: int | 0 <= x < 256

  const UNPACKED_MAX := 0xFF_FFFF

  /** The `k`th character of a cell. */
  function CharOf(w: Word, k: nat): Char
    requires k < 4
  {
    if k == 0 then w / 0x100_0000 else if k == 1 then w / 0x1_0000 % 256 else if k == 2 then w / 0x100 % 256 else w % 256
  }

  function CellOf(a: Char, b: Char, c: Char, d: Char): Word {
    ((a * 256 + b) * 256 + c) * 256 + d
  }

  lemma CharsOfCell(a: Char, b: Char, c: Char, d: Char)
    ensures var w := CellOf(a, b, c, d);
      CharOf(w, 0) == a && CharOf(w, 1) == b && CharOf(w, 2) == c && CharOf(w, 3) == d
  {
  }

  /** The characters determine the cell. */
  lemma CellOfChars(w: Word)
    ensures w == CellOf(CharOf(w, 0), CharOf(w, 1), CharOf(w, 2), CharOf(w, 3))
  {
    assert w / 0x1_0000 == w / 0x100 / 0x100;
    assert w / 0x100_0000 == w / 0x1_0000 / 0x100;
  }

  lemma SameChars(v: Word, w: Word)
    requires forall k :: 0 <= k < 4 ==> CharOf(v, k) == CharOf(w, k)
    ensures v == w
  {
    hide CellOf, CharOf;
    CellOfChars(v);
    CellOfChars(w);
  }

  // ---------- Shifts and masks by whole characters ----------

  /** `w >> (8 * n)`. */
  function Right(w: Word, n: nat): Word
    requires n <= 4
  {
    match n case 0 => w case 1 => w / 0x100 case 2 => w / 0x1_0000 case 3 => w / 0x100_0000 case 4 => 0
  }

  /** `w << (8 * n)`. */
  function Left(w: Word, n: nat): Word
    requires n <= 4
  {
    match n
    case 0 => w
    case 1 => w * 0x100 % 0x1_0000_0000
    case 2 => w * 0x1_0000 % 0x1_0000_0000
    case 3 => w * 0x100_0000 % 0x1_0000_0000
    case 4 => 0
  }

  /** `w & (~0 >> (8 * n))`. */
  function Low(w: Word, n: nat): Word
    requires n <= 4
  {
    match n case 0 => w case 1 => w % 0x100_0000 case 2 => w % 0x1_0000 case 3 => w % 0x100 case 4 => 0
  }

  /** `w & ~(~0 >> (8 * n))`. */
  function High(w: Word, n: nat): Word
    requires n <= 4
  {
    w - Low(w, n)
  }

  ghost predicate Disjoint(v: Word, w: Word) {
    forall k :: 0 <= k < 4 ==> CharOf(v, k) == 0 || CharOf(w, k) == 0
  }

  lemma DisjointSum(v: Word, w: Word)
    requires Disjoint(v, w)
    ensures v + w < 0x1_0000_0000
    ensures forall k :: 0 <= k < 4 ==> CharOf(v + w, k) == CharOf(v, k) + CharOf(w, k)
  {
    hide CharOf;
    CellOfChars(v);
    CellOfChars(w);
    var a, b := CharOf(v, 0) + CharOf(w, 0), CharOf(v, 1) + CharOf(w, 1);
    var c, d := CharOf(v, 2) + CharOf(w, 2), CharOf(v, 3) + CharOf(w, 3);
    assert v + w == CellOf(a, b, c, d);
    CharsOfCell(a, b, c, d);
  }

  /** `v | w`, of cells that have no character in common. */
  function Or(v: Word, w: Word): Word
    requires Disjoint(v, w)
  {
    DisjointSum(v, w);
    v + w
  }

  /** What the operations do to the characters. */
  lemma Moved(a: Char, b: Char, c: Char, d: Char)
    ensures var w := CellOf(a, b, c, d);
      && Right(w, 1) == CellOf(0, a, b, c) && Right(w, 2) == CellOf(0, 0, a, b) && Right(w, 3) == CellOf(0, 0, 0, a)
      && Low(w, 1) == CellOf(0, b, c, d) && Low(w, 2) == CellOf(0, 0, c, d) && Low(w, 3) == CellOf(0, 0, 0, d)
      && High(w, 1) == CellOf(a, 0, 0, 0) && High(w, 2) == CellOf(a, b, 0, 0) && High(w, 3) == CellOf(a, b, c, 0)
  {
  }

  lemma MovedLeft(a: Char, b: Char, c: Char, d: Char)
    ensures var w := CellOf(a, b, c, d);
      Left(w, 1) == CellOf(b, c, d, 0) && Left(w, 2) == CellOf(c, d, 0, 0) && Left(w, 3) == CellOf(d, 0, 0, 0)
  {
    var w: int := CellOf(a, b, c, d);
    assert w * 0x100 == a * 0x1_0000_0000 + CellOf(b, c, d, 0);
    assert w * 0x1_0000 == (a * 256 + b) * 0x1_0000_0000 + CellOf(c, d, 0, 0);
    assert w * 0x100_0000 == ((a * 256 + b) * 256 + c) * 0x1_0000_0000 + CellOf(d, 0, 0, 0);
    Wraps(a, CellOf(b, c, d, 0));
    Wraps(a * 256 + b, CellOf(c, d, 0, 0));
    Wraps((a * 256 + b) * 256 + c, CellOf(d, 0, 0, 0));
  }

  lemma Wraps(high: nat, w: Word)
    ensures (high * 0x1_0000_0000 + w) % 0x1_0000_0000 == w
  {
  }

  lemma ZeroChars()
    ensures forall k :: 0 <= k < 4 ==> CharOf(0, k) == 0
  {
  }

  lemma RightChars(w: Word, n: nat, k: nat)
    requires n <= 4 && k < 4
    ensures CharOf(Right(w, n), k) == if k < n then 0 else CharOf(w, k - n)
  {
    hide CharOf, CellOf;
    var a, b, c, d := CharOf(w, 0), CharOf(w, 1), CharOf(w, 2), CharOf(w, 3);
    CellOfChars(w);
    Moved(a, b, c, d);
    ZeroChars();
    CharsOfCell(0, a, b, c);
    CharsOfCell(0, 0, a, b);
    CharsOfCell(0, 0, 0, a);
  }

  lemma LeftChars(w: Word, n: nat, k: nat)
    requires n <= 4 && k < 4
    ensures CharOf(Left(w, n), k) == if k + n < 4 then CharOf(w, k + n) else 0
  {
    hide CharOf, CellOf;
    var a, b, c, d := CharOf(w, 0), CharOf(w, 1), CharOf(w, 2), CharOf(w, 3);
    CellOfChars(w);
    MovedLeft(a, b, c, d);
    ZeroChars();
    CharsOfCell(b, c, d, 0);
    CharsOfCell(c, d, 0, 0);
    CharsOfCell(d, 0, 0, 0);
  }

  lemma LowChars(w: Word, n: nat, k: nat)
    requires n <= 4 && k < 4
    ensures CharOf(Low(w, n), k) == if k < n then 0 else CharOf(w, k)
  {
    hide CharOf, CellOf;
    var a, b, c, d := CharOf(w, 0), CharOf(w, 1), CharOf(w, 2), CharOf(w, 3);
    CellOfChars(w);
    Moved(a, b, c, d);
    ZeroChars();
    CharsOfCell(0, b, c, d);
    CharsOfCell(0, 0, c, d);
    CharsOfCell(0, 0, 0, d);
  }

  lemma HighChars(w: Word, n: nat, k: nat)
    requires n <= 4 && k < 4
    ensures CharOf(High(w, n), k) == if k < n then CharOf(w, k) else 0
  {
    hide CharOf, CellOf;
    var a, b, c, d := CharOf(w, 0), CharOf(w, 1), CharOf(w, 2), CharOf(w, 3);
    CellOfChars(w);
    Moved(a, b, c, d);
    ZeroChars();
    CharsOfCell(a, 0, 0, 0);
    CharsOfCell(a, b, 0, 0);
    CharsOfCell(a, b, c, 0);
  }

  /** The cell with the byte at address offset `b` replaced: addresses count from the lowest byte. */
  function StoreByte(w: Word, b: nat, value: Char): Word
    requires b < 4
  {
    match b
    case 0 => CellOf(CharOf(w, 0), CharOf(w, 1), CharOf(w, 2), value)
    case 1 => CellOf(CharOf(w, 0), CharOf(w, 1), value, CharOf(w, 3))
    case 2 => CellOf(CharOf(w, 0), value, CharOf(w, 2), CharOf(w, 3))
    case 3 => CellOf(value, CharOf(w, 1), CharOf(w, 2), CharOf(w, 3))
  }

  lemma StoreByteChars(w: Word, b: nat, value: Char)
    requires b < 4
    ensures forall k :: 0 <= k < 4 ==> CharOf(StoreByte(w, b, value), k) == if k == 3 - b then value else CharOf(w, k)
  {
    hide CharOf, CellOf;
    var c0, c1, c2, c3 := CharOf(w, 0), CharOf(w, 1), CharOf(w, 2), CharOf(w, 3);
    CharsOfCell(c0, c1, c2, value);
    CharsOfCell(c0, c1, value, c3);
    CharsOfCell(c0, value, c2, c3);
    CharsOfCell(value, c1, c2, c3);
  }

  // ---------- Strings ----------

  predicate IsPacked(cells: seq<Word>) {
    |cells| > 0 && cells[0] > UNPACKED_MAX
  }

  lemma PackedIff(cells: seq<Word>)
    ensures IsPacked(cells) <==> cells != [] && CharAt(cells, 0) != 0
  {
  }

  /** The `i`th character of an array that holds a packed string. */
  function CharAt(cells: seq<Word>, i: nat): Char
    requires i < 4 * |cells|
  {
    CharOf(cells[i / 4], i % 4)
  }

  /** The packed string in an array, from its `i`th character up to the terminating zero. */
  function PackedText(cells: seq<Word>, i: nat): seq<Char>
    decreases 4 * |cells| - i
  {
    if i >= 4 * |cells| || CharAt(cells, i) == 0 then [] else [CharAt(cells, i)] + PackedText(cells, i + 1)
  }

  function UnpackedText(cells: seq<Word>, i: nat): seq<Word>
    decreases |cells| - i
  {
    if i >= |cells| || cells[i] == 0 then [] else [cells[i]] + UnpackedText(cells, i + 1)
  }

  /** The first `n` characters of a packed array. */
  function Chars(cells: seq<Word>, n: nat): (s: seq<Char>)
    requires n <= 4 * |cells|
    ensures |s| == n
  {
    seq(n, i requires 0 <= i < n => CharAt(cells, i))
  }

  /** `n` characters that are not zero, followed by one that is, are the packed text. */
  lemma {:induction false} TextIs(cells: seq<Word>, i: nat, n: nat)
    requires i <= n < 4 * |cells| && CharAt(cells, n) == 0
    requires forall p :: i <= p < n ==> CharAt(cells, p) != 0
    ensures PackedText(cells, i) == Chars(cells, n)[i..]
    decreases n - i
  {
    hide CharAt;
    if i < n {
      TextIs(cells, i + 1, n);
      assert Chars(cells, n)[i..] == [CharAt(cells, i)] + Chars(cells, n)[i + 1..];
    }
  }
}
