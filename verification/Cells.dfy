/** 32-bit cells, the little-endian byte block they live in, and the two C views of a cell. */
module Cells {

  const CELL_RANGE := 0x1_0000_0000
  const CELL_SIZE := 4

  /** A `cell`: a signed 32-bit integer in two's complement. */
  type Cell = x: int | -0x8000_0000 <= x < 0x8000_0000

  type Byte = x: int | 0 <= x < 256

  /** The `(ucell)` cast. */
  function U(x: Cell): (r: nat)
    ensures r < CELL_RANGE
  {
    if x < 0 then x + CELL_RANGE else x
  }

  /** The `(cell)` cast of an arbitrary sum: keep 32 bits and read them as signed. */
  function S(x: int): Cell {
    var m := x % CELL_RANGE;
    if m >= 0x8000_0000 then m - CELL_RANGE else m
  }

  /** 2 to the power of `n`. */
  function Pow2(n: nat): (w: nat)
    ensures w > 0
  {
    if n == 0 then 1 else 2 * Pow2(n - 1)
  }

  /** A sum that fits a cell is not changed by the cast. */
  lemma InRange(x: int)
    requires -0x8000_0000 <= x < 0x8000_0000
    ensures S(x) == x
  {
  }

  /** A sum that overflows once comes out 2^32 too small. */
  lemma Overflows(x: int)
    requires 0x8000_0000 <= x < 0x1_8000_0000
    ensures S(x) == x - CELL_RANGE
  {
  }

  lemma CastRoundTrip(x: Cell)
    ensures S(x) == x && S(U(x)) == x
  {
  }

  /** Adding a base address and taking it away again is the identity on cells. */
  lemma RebaseRoundTrip(x: Cell, base: nat)
    ensures S(S(x + base) - base) == x
  {
    assert (x + base) % CELL_RANGE == S(x + base) % CELL_RANGE;
    assert ((x + base) % CELL_RANGE - base) % CELL_RANGE == x % CELL_RANGE;
  }

  /** True when the `len` bytes at `at` lie inside the block. */
  predicate Inside(mem: seq<Byte>, at: int, len: nat) {
    0 <= at && at + len <= |mem|
  }

  /** The cell whose bytes are `b0` (lowest) to `b3`. */
  function Join(b0: int, b1: int, b2: int, b3: int): Cell {
    S(b0 + 0x100 * b1 + 0x1_0000 * b2 + 0x100_0000 * b3)
  }

  /** The cell stored little endian at byte address `at`, aligned or not. */
  function Read(mem: seq<Byte>, at: int): Cell
    requires Inside(mem, at, CELL_SIZE)
  {
    Join(mem[at], mem[at + 1], mem[at + 2], mem[at + 3])
  }

  /** The lowest `n` bytes of the cell `v`. */
  function BytesOf(v: Cell, n: nat): (r: seq<Byte>)
    requires n <= CELL_SIZE
    ensures |r| == n
  {
    var u := U(v);
    [u % 0x100, u / 0x100 % 0x100, u / 0x1_0000 % 0x100, u / 0x100_0000][..n]
  }

  function Patch(mem: seq<Byte>, at: int, bytes: seq<Byte>): (r: seq<Byte>)
    requires Inside(mem, at, |bytes|)
    ensures |r| == |mem|
  {
    mem[..at] + bytes + mem[at + |bytes|..]
  }

  function Write(mem: seq<Byte>, at: int, v: Cell): (r: seq<Byte>)
    requires Inside(mem, at, CELL_SIZE)
    ensures |r| == |mem|
  {
    Patch(mem, at, BytesOf(v, CELL_SIZE))
  }

  lemma SplitJoin(u: nat)
    requires u < CELL_RANGE
    ensures u == u % 0x100 + 0x100 * (u / 0x100 % 0x100) + 0x1_0000 * (u / 0x1_0000 % 0x100) + 0x100_0000 * (u / 0x100_0000)
  {
    assert u / 0x1_0000 == u / 0x100 / 0x100 && u / 0x100_0000 == u / 0x1_0000 / 0x100;
  }

  lemma {:induction false} ReadAfterWrite(mem: seq<Byte>, at: int, v: Cell)
    requires Inside(mem, at, CELL_SIZE)
    ensures Read(Write(mem, at, v), at) == v
  {
    var w := Write(mem, at, v);
    var b := BytesOf(v, CELL_SIZE);
    assert w[at] == b[0] && w[at + 1] == b[1] && w[at + 2] == b[2] && w[at + 3] == b[3];
    SplitJoin(U(v));
    CastRoundTrip(v);
  }
}
