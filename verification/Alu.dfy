/** The instructions that compute with the two registers only. Sums and products wrap to a cell. */
module Alu {
  import opened Cells
  import opened Opcodes

  /** What C leaves open about shift counts is read as the hardware does it: modulo 32. */
  function ShiftCount(k: Cell): (r: nat)
    ensures r < 32
  {
    U(k) % 32
  }

  function Bits(x: Cell): bv32 {
    U(x) as bv32
  }

  function OfBits(b: bv32): Cell {
    S(b as int)
  }

  /** A shift multiplies or divides by a power of two; the signed one to the right rounds downwards. */
  function ShiftLeft(x: Cell, k: Cell): Cell {
    S(x * Pow2(ShiftCount(k)))
  }

  function ShiftRight(x: Cell, k: Cell): Cell {
    S(U(x) / Pow2(ShiftCount(k)))
  }

  function SignedShiftRight(x: Cell, k: Cell): Cell {
    S(x / Pow2(ShiftCount(k)))
  }

  function AndBits(x: Cell, y: Cell): Cell {
    OfBits(Bits(x) & Bits(y))
  }

  function OrBits(x: Cell, y: Cell): Cell {
    OfBits(Bits(x) | Bits(y))
  }

  function XorBits(x: Cell, y: Cell): Cell {
    OfBits(Bits(x) ^ Bits(y))
  }

  /** C division, which truncates towards zero. */
  function Quotient(a: int, b: int): int
    requires b != 0
  {
    var q := (if a < 0 then -a else a) / (if b < 0 then -b else b);
    if (a < 0) == (b < 0) then q else -q
  }

  function Remainder(a: int, b: int): int
    requires b != 0
  {
    a - Quotient(a, b) * b
  }

  /** The correction both signed divisions apply to a quotient and what they take for its remainder. */
  function Floor(q: int, r: int, divisor: int): (int, int) {
    if r != 0 && (r < 0) != (divisor < 0) then (q - 1, r + divisor) else (q, r)
  }

  function Truth(b: bool): Cell {
    if b then 1 else 0
  }

  function SignExtendByte(x: Cell): Cell {
    if U(x) % 256 >= 0x80 then S(U(x) % 256 - 256) else x
  }

  /** The new values of PRI and ALT, or a division by zero. */
  datatype Registers = Registers(pri: Cell, alt: Cell) | DivideError

  function Wrapped(pri: int, alt: int): Registers {
    Registers(S(pri), S(alt))
  }

  function Apply(f: RegOp, pri: Cell, alt: Cell): Registers {
    match f
    case MovePri => Registers(alt, alt)
    case MoveAlt => Registers(pri, pri)
    case Xchg => Registers(alt, pri)
    case Idxaddr => Wrapped(pri * CELL_SIZE + alt, alt)
    case Shl => Registers(ShiftLeft(pri, alt), alt)
    case Shr => Registers(ShiftRight(pri, alt), alt)
    case Sshr => Registers(SignedShiftRight(pri, alt), alt)
    case Smul | Umul => Wrapped(pri * alt, alt)
    case Sdiv =>
      if alt == 0 then DivideError
      else
        // the remainder is taken after PRI has been overwritten by the quotient
        var q := Quotient(pri, alt);
        var (q', r') := Floor(q, Remainder(q, alt), alt);
        Wrapped(q', r')
    case SdivAlt =>
      if pri == 0 then DivideError
      else
        var (q', r') := Floor(Quotient(alt, pri), Remainder(alt, pri), pri);
        Wrapped(q', r')
    case Udiv => if alt == 0 then DivideError else Wrapped(U(pri) / U(alt), U(pri) % U(alt))
    case UdivAlt => if pri == 0 then DivideError else Wrapped(U(alt) / U(pri), U(alt) % U(pri))
    case Add => Wrapped(pri + alt, alt)
    case Sub => Wrapped(pri - alt, alt)
    case SubAlt => Wrapped(alt - pri, alt)
    case And => Registers(AndBits(pri, alt), alt)
    case Or => Registers(OrBits(pri, alt), alt)
    case Xor => Registers(XorBits(pri, alt), alt)
    case Not => Registers(Truth(pri == 0), alt)
    case Neg => Wrapped(0 - pri, alt)
    case Invert => Wrapped(-1 - pri, alt)
    case ZeroPri => Registers(0, alt)
    case ZeroAlt => Registers(pri, 0)
    case SignPri => Registers(SignExtendByte(pri), alt)
    case SignAlt => Registers(pri, SignExtendByte(alt))
    case Eq => Registers(Truth(pri == alt), alt)
    case Neq => Registers(Truth(pri != alt), alt)
    case Less => Registers(Truth(U(pri) < U(alt)), alt)
    case Leq => Registers(Truth(U(pri) <= U(alt)), alt)
    case Grtr => Registers(Truth(U(pri) > U(alt)), alt)
    case Geq => Registers(Truth(U(pri) >= U(alt)), alt)
    case Sless => Registers(Truth(pri < alt), alt)
    case Sleq => Registers(Truth(pri <= alt), alt)
    case Sgrtr => Registers(Truth(pri > alt), alt)
    case Sgeq => Registers(Truth(pri >= alt), alt)
    case IncPri => Wrapped(pri + 1, alt)
    case IncAlt => Wrapped(pri, alt + 1)
    case DecPri => Wrapped(pri - 1, alt)
    case DecAlt => Wrapped(pri, alt - 1)
  }

  function ApplyConst(g: RegConstOp, pri: Cell, alt: Cell, k: Cell): Registers {
    match g
    case ConstPri => Registers(k, alt)
    case ConstAlt => Registers(pri, k)
    case IdxaddrB => Wrapped(ShiftLeft(pri, k) + alt, alt)
    case AlignPri => Registers(AlignChar(pri, k), alt)
    case AlignAlt => Registers(pri, AlignChar(alt, k))
    case ShlCPri => Registers(ShiftLeft(pri, k), alt)
    case ShlCAlt => Registers(pri, ShiftLeft(alt, k))
    case ShrCPri => Registers(ShiftRight(pri, k), alt)
    case ShrCAlt => Registers(pri, ShiftRight(alt, k))
    case AddC => Wrapped(pri + k, alt)
    case SmulC => Wrapped(pri * k, alt)
    case EqCPri => Registers(Truth(pri == k), alt)
    case EqCAlt => Registers(Truth(alt == k), alt)
  }

  /** ALIGN on a little-endian machine. */
  function AlignChar(x: Cell, k: Cell): Cell {
    if k < CELL_SIZE then XorBits(x, S(CELL_SIZE - k)) else x
  }

  function Holds(c: Condition, pri: Cell, alt: Cell): bool {
    match c
    case Jzer => pri == 0
    case Jnz => pri != 0
    case Jeq => pri == alt
    case Jneq => pri != alt
    case Jless => U(pri) < U(alt)
    case Jleq => U(pri) <= U(alt)
    case Jgrtr => U(pri) > U(alt)
    case Jgeq => U(pri) >= U(alt)
    case Jsless => pri < alt
    case Jsleq => pri <= alt
    case Jsgrtr => pri > alt
    case Jsgeq => pri >= alt
  }

  // ---------- Division ----------

  /** Floored division with the remainder that matches it. */
  ghost predicate IsFloored(a: int, b: int, q: int, r: int) {
    a == q * b + r && (if b > 0 then 0 <= r < b else b < r <= 0)
  }

  lemma TruncatedDivision(a: int, b: int)
    requires b != 0
    ensures a == Quotient(a, b) * b + Remainder(a, b)
    ensures if b > 0 then -b < Remainder(a, b) < b else b < Remainder(a, b) < -b
    ensures Remainder(a, b) != 0 ==> (Remainder(a, b) < 0) == (a < 0)
  {
    var m, n := if a < 0 then -a else a, if b < 0 then -b else b;
    assert m == m / n * n + m % n;
    var q := Quotient(a, b);
    if (a < 0) == (b < 0) {
      assert q * b == if a < 0 then -(m / n * n) else m / n * n;
    } else {
      assert q * b == if a < 0 then -(m / n * n) else m / n * n;
    }
  }

  /** The correction turns a truncated quotient and its remainder into floored ones. */
  lemma FloorCorrects(a: int, b: int)
    requires b != 0
    ensures var (q, r) := Floor(Quotient(a, b), Remainder(a, b), b); IsFloored(a, b, q, r)
  {
    TruncatedDivision(a, b);
    assert (Quotient(a, b) - 1) * b == Quotient(a, b) * b - b;
  }

  /** The correction moves a multiple of the divisor between quotient and remainder. */
  lemma FloorKeepsSum(q: int, r: int, b: int)
    requires b != 0 && if b > 0 then -b < r < b else b < r < -b
    ensures var (q', r') := Floor(q, r, b);
      && q' * b + r' == q * b + r && (if b > 0 then 0 <= r' < b else b < r' <= 0)
      && (q' == q || (q' == q - 1 && r != 0))
  {
    assert (q - 1) * b == q * b - b;
  }

  lemma ProductGrows(q: nat, n: nat, k: nat)
    requires k <= n
    ensures q * k <= q * n
  {
  }

  lemma DivisionShrinks(m: nat, n: nat)
    requires n > 0
    ensures 0 <= m / n <= m && (n > 1 ==> 2 * (m / n) <= m)
  {
    var q, r := m / n, m % n;
    assert m == q * n + r;
    ProductGrows(q, n, 1);
    if n > 1 {
      ProductGrows(q, n, 2);
    }
  }

  lemma QuotientFits(a: int, b: int)
    requires -0x8000_0000 <= a < 0x8000_0000 && b != 0 && !(a == -0x8000_0000 && b == -1)
    ensures -0x8000_0000 <= Quotient(a, b) < 0x8000_0000
    ensures Quotient(a, b) == -0x8000_0000 ==> b == 1
  {
    DivisionShrinks(if a < 0 then -a else a, if b < 0 then -b else b);
  }

  /** SDIV.ALT is floored division with the matching remainder. */
  lemma SdivAltIsFloored(pri: Cell, alt: Cell)
    requires pri != 0 && !(alt == -0x8000_0000 && pri == -1)
    ensures var regs := Apply(SdivAlt, pri, alt);
      regs.Registers? && IsFloored(alt, pri, regs.pri, regs.alt)
  {
    FloorCorrects(alt, pri);
    QuotientFits(alt, pri);
    var (q, r) := Floor(Quotient(alt, pri), Remainder(alt, pri), pri);
    InRange(q);
    InRange(r);
  }

  /** SDIV takes the remainder of its own quotient, so it is floored division with the matching remainder
      exactly when dividend and quotient leave the same remainder by the divisor. */
  lemma SdivIsFlooredIff(pri: Cell, alt: Cell)
    requires alt != 0 && !(pri == -0x8000_0000 && alt == -1)
    ensures var regs := Apply(Sdiv, pri, alt);
      && regs.Registers?
      && (IsFloored(pri, alt, regs.pri, regs.alt) <==> Remainder(Quotient(pri, alt), alt) == Remainder(pri, alt))
  {
    hide Quotient, Remainder, Floor, S;
    var q := Quotient(pri, alt);
    QuotientFits(pri, alt);
    TruncatedDivision(pri, alt);
    TruncatedDivision(q, alt);
    FloorKeepsSum(q, Remainder(q, alt), alt);
    var (q', r') := Floor(q, Remainder(q, alt), alt);
    InRange(q');
    InRange(r');
  }

  lemma SdivExample()
    ensures Apply(Sdiv, 6, 2) == Registers(3, 1) && Apply(Sdiv, -6, 2) == Registers(-4, 1)
    ensures Apply(SdivAlt, 2, 6) == Registers(3, 0) && Apply(SdivAlt, 2, -6) == Registers(-3, 0)
  {
  }
}
