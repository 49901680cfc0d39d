/** What the register instructions compute: sums and products modulo 2^32, quotients, bits and comparisons. */
module AluLaws {
  import opened Cells
  import opened Opcodes
  import opened Alu

  /** Equal modulo 2^32. */
  predicate Same(x: int, y: int) {
    (x - y) % 0x1_0000_0000 == 0
  }

  /** That determines a cell. */
  lemma SameCell(x: Cell, y: Cell)
    ensures Same(x, y) <==> x == y
  {
  }

  lemma CastIs(x: int)
    ensures Same(S(x), x)
  {
    var q := x / 0x1_0000_0000;
    assert x == 0x1_0000_0000 * q + x % 0x1_0000_0000;
    if x % 0x1_0000_0000 >= 0x8000_0000 {
      MultipleOfRange(-1 - q);
    } else {
      MultipleOfRange(-q);
    }
  }

  lemma MultipleOfRange(k: int)
    ensures (0x1_0000_0000 * k) % 0x1_0000_0000 == 0
  {
  }

  // ---------- Sums and products ----------

  /** `regs` holds `x`, modulo 2^32, in PRI and leaves ALT alone. */
  predicate InPri(regs: Registers, x: int, alt: Cell) {
    regs.Registers? && Same(regs.pri, x) && regs.alt == alt
  }

  predicate InAlt(regs: Registers, pri: Cell, x: int) {
    regs.Registers? && regs.pri == pri && Same(regs.alt, x)
  }

  lemma SumsAre(pri: Cell, alt: Cell)
    ensures InPri(Apply(Add, pri, alt), pri + alt, alt) && InPri(Apply(Sub, pri, alt), pri - alt, alt)
    ensures InPri(Apply(SubAlt, pri, alt), alt - pri, alt) && InPri(Apply(Idxaddr, pri, alt), 4 * pri + alt, alt)
  {
    hide Bits, OfBits, S, U, AndBits, OrBits, XorBits, ShiftLeft, ShiftRight, SignedShiftRight, Quotient, Remainder,
      Floor, SignExtendByte, Same;
    var p: int, a: int := pri, alt;
    Unmoved(alt);
    CastIs(p + a);
    CastIs(p - a);
    CastIs(a - p);
    CastIs(p * CELL_SIZE + a);
  }

  lemma StepsAre(pri: Cell, alt: Cell)
    ensures InPri(Apply(IncPri, pri, alt), pri + 1, alt) && InAlt(Apply(IncAlt, pri, alt), pri, alt + 1)
    ensures InPri(Apply(DecPri, pri, alt), pri - 1, alt) && InAlt(Apply(DecAlt, pri, alt), pri, alt - 1)
  {
    hide Bits, OfBits, S, U, AndBits, OrBits, XorBits, ShiftLeft, ShiftRight, SignedShiftRight, Quotient, Remainder,
      Floor, SignExtendByte, Same;
    var p: int, a: int := pri, alt;
    Unmoved(pri);
    Unmoved(alt);
    CastIs(p + 1);
    CastIs(a + 1);
    CastIs(p - 1);
    CastIs(a - 1);
  }

  lemma NegationsAre(pri: Cell, alt: Cell)
    ensures InPri(Apply(Neg, pri, alt), 0 - pri, alt) && InPri(Apply(Invert, pri, alt), -1 - pri, alt)
  {
    hide Bits, OfBits, S, U, AndBits, OrBits, XorBits, ShiftLeft, ShiftRight, SignedShiftRight, Quotient, Remainder,
      Floor, SignExtendByte, Same;
    var p: int := pri;
    Unmoved(alt);
    CastIs(0 - p);
    CastIs(-1 - p);
  }

  lemma Unmoved(x: Cell)
    ensures S(x) == x
  {
  }

  lemma ProductsAre(pri: Cell, alt: Cell)
    ensures InPri(Apply(Smul, pri, alt), pri * alt, alt) && InPri(Apply(Umul, pri, alt), pri * alt, alt)
  {
    hide S, Same, Bits, OfBits, AndBits, OrBits, XorBits, ShiftLeft, ShiftRight, SignedShiftRight, Quotient,
      Remainder, Floor, U, SignExtendByte;
    var p: int, a: int := pri, alt;
    Unmoved(alt);
    CastIs(p * a);
  }

  lemma ConstantsAre(pri: Cell, alt: Cell, k: Cell)
    ensures InPri(ApplyConst(AddC, pri, alt, k), pri + k, alt) && InPri(ApplyConst(SmulC, pri, alt, k), pri * k, alt)
    ensures InPri(ApplyConst(ConstPri, pri, alt, k), k, alt) && InAlt(ApplyConst(ConstAlt, pri, alt, k), pri, k)
  {
    hide S, Same;
    var p: int, c: int := pri, k;
    Unmoved(alt);
    CastIs(p + c);
    CastIs(p * c);
    assert Same(k, k) by {
      Unmoved(k);
      CastIs(k);
    }
  }

  // ---------- Moves ----------

  lemma MovesAre(pri: Cell, alt: Cell)
    ensures Apply(MovePri, pri, alt) == Registers(alt, alt) && Apply(MoveAlt, pri, alt) == Registers(pri, pri)
    ensures var x := Apply(Xchg, pri, alt); Apply(Xchg, x.pri, x.alt) == Registers(pri, alt) && x.pri == alt
    ensures Apply(ZeroPri, pri, alt) == Registers(0, alt) && Apply(ZeroAlt, pri, alt) == Registers(pri, 0)
  {
  }

  /** A byte from 128 on is extended with its sign, any other cell left as it is. */
  lemma SignsAre(pri: Cell, alt: Cell)
    ensures var r := Apply(SignPri, pri, alt);
      r.Registers? && r.alt == alt &&
      if pri % 256 < 128 then r.pri == pri else -128 <= r.pri < 0 && (r.pri - pri) % 256 == 0
    ensures var r := Apply(SignAlt, pri, alt);
      r.Registers? && r.pri == pri &&
      if alt % 256 < 128 then r.alt == alt else -128 <= r.alt < 0 && (r.alt - alt) % 256 == 0
  {
    SignIs(pri);
    SignIs(alt);
  }

  lemma SignIs(x: Cell)
    ensures var r := SignExtendByte(x);
      if x % 256 < 128 then r == x else -128 <= r < 0 && (r - x) % 256 == 0
  {
    var y: int := x;
    assert U(x) % 256 == y % 256;
    assert y == 256 * (y / 256) + y % 256;
  }

  // ---------- Unsigned division ----------

  /** The unsigned reading of quotient and remainder. */
  predicate Divides(n: nat, d: nat, q: nat, r: nat) {
    n == q * d + r && r < d
  }

  lemma UnsignedDivisionIs(pri: Cell, alt: Cell)
    ensures alt == 0 <==> Apply(Udiv, pri, alt) == DivideError
    ensures alt != 0 ==> var r := Apply(Udiv, pri, alt); r.Registers? && Divides(U(pri), U(alt), U(r.pri), U(r.alt))
    ensures pri == 0 <==> Apply(UdivAlt, pri, alt) == DivideError
    ensures pri != 0 ==> var r := Apply(UdivAlt, pri, alt); r.Registers? && Divides(U(alt), U(pri), U(r.pri), U(r.alt))
    ensures alt == 0 <==> Apply(Sdiv, pri, alt) == DivideError
    ensures pri == 0 <==> Apply(SdivAlt, pri, alt) == DivideError
  {
    hide S, U, Floor, Quotient, Remainder, Bits, OfBits, ShiftLeft, ShiftRight, SignedShiftRight, SignExtendByte;
    NotZero(pri);
    NotZero(alt);
    if alt != 0 {
      QuotientIs(U(pri), U(alt));
    }
    if pri != 0 {
      QuotientIs(U(alt), U(pri));
    }
  }

  lemma NotZero(x: Cell)
    ensures U(x) == 0 <==> x == 0
  {
  }

  lemma QuotientIs(n: nat, d: nat)
    requires 0 < d < CELL_RANGE && n < CELL_RANGE
    ensures U(S(n / d)) == n / d && U(S(n % d)) == n % d && Divides(n, d, n / d, n % d)
  {
    assert n == n / d * d + n % d;
    QuotientSmall(n, d);
    UnsignedCast(n / d);
    UnsignedCast(n % d);
  }

  lemma QuotientSmall(n: nat, d: nat)
    requires d > 0
    ensures n / d <= n
  {
    DivisionShrinks(n, d);
  }

  lemma UnsignedCast(x: nat)
    requires x < CELL_RANGE
    ensures U(S(x)) == x
  {
  }

  // ---------- Bits ----------

  /** `m` has one bit, or none. */
  predicate IsMask(m: bv32) {
    m & (m - 1) == 0
  }

  predicate Hits(b: bv32, m: bv32) {
    b & m != 0
  }

  /** Cell `x` has the bit of the mask `m`. */
  predicate Has(x: Cell, m: bv32) {
    Hits(Bits(x), m)
  }

  function Both(a: bv32, b: bv32): bv32 {
    a & b
  }

  function Either(a: bv32, b: bv32): bv32 {
    a | b
  }

  function One(a: bv32, b: bv32): bv32 {
    a ^ b
  }

  lemma BitsOf(b: bv32)
    ensures Bits(OfBits(b)) == b
  {
    hide Bits, OfBits;
    CastBack(b as int);
    BitsAre(OfBits(b), b);
  }

  lemma CastBack(n: nat)
    requires n < CELL_RANGE
    ensures U(S(n)) == n
  {
  }

  lemma BitsAre(x: Cell, b: bv32)
    requires x == OfBits(b) && U(S(b as int)) == b as int
    ensures Bits(x) == b
  {
    hide S, U;
  }

  lemma AndBitsAre(x: Cell, y: Cell)
    ensures AndBits(x, y) == OfBits(Both(Bits(x), Bits(y))) && OrBits(x, y) == OfBits(Either(Bits(x), Bits(y)))
    ensures XorBits(x, y) == OfBits(One(Bits(x), Bits(y)))
  {
    hide Bits, OfBits;
  }

  lemma LeftHits(a: bv32, b: bv32, m: bv32)
    requires Hits(a, m)
    ensures Hits(Either(a, b), m)
  {
  }

  lemma RightHits(a: bv32, b: bv32, m: bv32)
    requires Hits(b, m)
    ensures Hits(Either(a, b), m)
  {
  }

  lemma NeitherHits(a: bv32, b: bv32, m: bv32)
    requires !Hits(a, m) && !Hits(b, m)
    ensures !Hits(Either(a, b), m)
  {
  }

  lemma EitherHits(a: bv32, b: bv32, m: bv32)
    ensures Hits(Either(a, b), m) <==> Hits(a, m) || Hits(b, m)
  {
    hide Hits, Either;
    if Hits(a, m) {
      LeftHits(a, b, m);
    } else if Hits(b, m) {
      RightHits(a, b, m);
    } else {
      NeitherHits(a, b, m);
    }
  }

  lemma BothHit(a: bv32, b: bv32, m: bv32)
    requires IsMask(m) && Hits(a, m) && Hits(b, m)
    ensures Hits(Both(a, b), m) && !Hits(One(a, b), m)
  {
  }

  lemma LeftMisses(a: bv32, b: bv32, m: bv32)
    requires IsMask(m) && !Hits(a, m)
    ensures !Hits(Both(a, b), m) && (Hits(One(a, b), m) <==> Hits(b, m))
  {
  }

  lemma Symmetric(a: bv32, b: bv32)
    ensures Both(a, b) == Both(b, a) && One(a, b) == One(b, a)
  {
  }

  lemma BothHits(a: bv32, b: bv32, m: bv32)
    requires IsMask(m)
    ensures Hits(Both(a, b), m) <==> Hits(a, m) && Hits(b, m)
    ensures Hits(One(a, b), m) <==> Hits(a, m) != Hits(b, m)
  {
    hide Hits, Both, One, IsMask;
    if !Hits(a, m) {
      LeftMisses(a, b, m);
    } else if !Hits(b, m) {
      LeftMisses(b, a, m);
      Symmetric(a, b);
    } else {
      BothHit(a, b, m);
    }
  }

  lemma LogicBits(x: Cell, y: Cell, m: bv32)
    requires IsMask(m)
    ensures Has(AndBits(x, y), m) <==> Has(x, m) && Has(y, m)
    ensures Has(OrBits(x, y), m) <==> Has(x, m) || Has(y, m)
    ensures Has(XorBits(x, y), m) <==> Has(x, m) != Has(y, m)
  {
    hide Bits, OfBits, IsMask, Hits, Both, Either, One, AndBits, OrBits, XorBits;
    AndBitsAre(x, y);
    BitsOf(Both(Bits(x), Bits(y)));
    BitsOf(Either(Bits(x), Bits(y)));
    BitsOf(One(Bits(x), Bits(y)));
    BothHits(Bits(x), Bits(y), m);
    EitherHits(Bits(x), Bits(y), m);
  }

  /** AND, OR and XOR work bit by bit. */
  lemma LogicIs(pri: Cell, alt: Cell, m: bv32)
    requires IsMask(m)
    ensures var r := Apply(And, pri, alt);
      r.Registers? && r.alt == alt && (Has(r.pri, m) <==> Has(pri, m) && Has(alt, m))
    ensures var r := Apply(Or, pri, alt);
      r.Registers? && r.alt == alt && (Has(r.pri, m) <==> Has(pri, m) || Has(alt, m))
    ensures var r := Apply(Xor, pri, alt);
      r.Registers? && r.alt == alt && (Has(r.pri, m) <==> Has(pri, m) != Has(alt, m))
  {
    hide Bits, OfBits, S, U, AndBits, OrBits, XorBits, ShiftLeft, ShiftRight, SignedShiftRight, Quotient, Remainder,
      Floor, SignExtendByte, IsMask, Has;
    LogicBits(pri, alt, m);
  }

  // ---------- Shifts ----------

  lemma CastMoves(x: int, k: int)
    ensures S(x + 0x1_0000_0000 * k) == S(x)
  {
  }

  lemma CastTwice(x: int)
    ensures S(S(x) * 2) == S(x * 2)
  {
    var q := x / 0x1_0000_0000;
    assert x == 0x1_0000_0000 * q + x % 0x1_0000_0000;
    var k := if x % 0x1_0000_0000 >= 0x8000_0000 then -1 - q else -q;
    assert S(x) * 2 == x * 2 + 0x1_0000_0000 * (2 * k);
    CastMoves(x * 2, 2 * k);
  }

  lemma Counts()
    ensures ShiftCount(0) == 0 && ShiftCount(1) == 1 && Pow2(0) == 1 && Pow2(1) == 2
  {
  }

  lemma NextCount(k: Cell)
    requires 0 <= k < 31
    ensures ShiftCount(k + 1) == k + 1 && ShiftCount(k) == k && Pow2(k + 1) == 2 * Pow2(k)
  {
  }

  /** To the left: no place, one place, one place more. */
  lemma ShiftedLeft(x: Cell, k: Cell)
    requires 0 <= k < 31
    ensures ShiftLeft(x, 0) == x && ShiftLeft(x, 1) == S(x + x) && ShiftLeft(x, k + 1) == ShiftLeft(ShiftLeft(x, k), 1)
  {
    hide ShiftCount, Pow2, S, U;
    Counts();
    NextCount(k);
    Unmoved(x);
    var y: int := x;
    var p := Pow2(k);
    CastTwice(y * p);
    assert y * p * 2 == y * (2 * p);
  }

  lemma MultipleSize(e: int, d: nat)
    ensures e > 0 ==> e * d >= d
    ensures e < 0 ==> e * d <= 0 - d
  {
    if e > 0 {
      ProductGrows(d, e, 1);
    } else if e < 0 {
      ProductGrows(d, -e, 1);
      assert d * -e == -(e * d);
    }
  }

  lemma FloorUnique(x: int, d: nat, q: int, r: nat)
    requires d > 0 && x == q * d + r && r < d
    ensures x / d == q
  {
    var e := x / d - q;
    assert x == x / d * d + x % d;
    assert e * d == r - x % d;
    MultipleSize(e, d);
  }

  lemma NestedFloor(x: int, p: nat)
    requires p > 0
    ensures x / p / 2 == x / (2 * p)
  {
    var a := x / p;
    assert x == p * a + x % p && a == 2 * (a / 2) + a % 2;
    assert p * a == a / 2 * (2 * p) + p * (a % 2);
    assert p * (a % 2) <= p;
    FloorUnique(x, 2 * p, a / 2, p * (a % 2) + x % p);
  }

  lemma FloorSmall(x: int, p: nat)
    requires p > 0 && -0x8000_0000 <= x < 0x1_0000_0000
    ensures if x >= 0 then 0 <= x / p <= x else x <= x / p < 0
  {
    if x >= 0 {
      DivisionShrinks(x, p);
    } else {
      BelowZero(x, p, x / p, x % p);
    }
  }

  lemma BelowZero(x: int, p: nat, q: int, r: nat)
    requires p > 0 && x < 0 && x == p * q + r && r < p
    ensures x <= q < 0
  {
    if q < 0 {
      ProductGrows(-q, p, 1);
      MultipleSize(q + 1, p);
      assert p * q + p == (q + 1) * p;
      ProductGrows(-(q + 1), p, 1);
      assert -(q + 1) * p == -(q * p) - p;
    } else {
      ProductGrows(p, q, 0);
      assert false;
    }
  }

  /** To the right, with zeros and with the sign. */
  lemma ShiftedRight(x: Cell, k: Cell)
    requires 0 <= k < 31
    ensures ShiftRight(x, 0) == x && U(ShiftRight(x, 1)) == U(x) / 2 &&
      ShiftRight(x, k + 1) == ShiftRight(ShiftRight(x, k), 1)
  {
    hide ShiftCount, Pow2, S, U;
    Counts();
    NextCount(k);
    CastRoundTrip(x);
    var p := Pow2(k);
    FloorSmall(U(x), 2);
    FloorSmall(U(x), p);
    UnsignedCast(U(x) / 2);
    UnsignedCast(U(x) / p);
    NestedFloor(U(x), p);
    assert U(x) / 1 == U(x);
  }

  lemma ShiftedSigned(x: Cell, k: Cell)
    requires 0 <= k < 31
    ensures SignedShiftRight(x, 0) == x && x - 1 <= 2 * SignedShiftRight(x, 1) <= x
    ensures SignedShiftRight(x, k + 1) == SignedShiftRight(SignedShiftRight(x, k), 1)
  {
    hide ShiftCount, Pow2, S, U;
    Counts();
    NextCount(k);
    Unmoved(x);
    var y: int, p := x, Pow2(k);
    FloorSmall(y, 2);
    FloorSmall(y, p);
    InRange(y / 2);
    InRange(y / p);
    NestedFloor(y, p);
    assert y / 1 == y;
  }

  /** The count is taken modulo 32. */
  lemma CountsWrap(x: Cell, k: Cell)
    ensures var n := U(k) % 32; ShiftLeft(x, k) == ShiftLeft(x, n) && ShiftRight(x, k) == ShiftRight(x, n)
    ensures SignedShiftRight(x, k) == SignedShiftRight(x, U(k) % 32)
  {
    hide Pow2, S;
    assert ShiftCount(U(k) % 32) == ShiftCount(k);
  }

  /** The address of the element `pri` of the array at `alt`, for elements of 2^k bytes. */
  lemma ElementAddressIs(pri: Cell, alt: Cell, k: Cell)
    ensures InPri(ApplyConst(IdxaddrB, pri, alt, k), ShiftLeft(pri, k) + alt, alt)
    ensures ApplyConst(IdxaddrB, pri, alt, 2) == Apply(Idxaddr, pri, alt)
  {
    hide S, Same, ShiftLeft, U, SignExtendByte, Quotient, Remainder, Floor, AndBits, OrBits, XorBits, ShiftRight,
      SignedShiftRight;
    var shifted: int, a: int := ShiftLeft(pri, k), alt;
    Unmoved(alt);
    CastIs(shifted + a);
    var p: int, two: int := pri, ShiftLeft(pri, 2);
    FourTimes(pri);
    CastSum(p * 4, a);
  }

  lemma FourTimes(x: Cell)
    ensures ShiftLeft(x, 2) == S(x * 4)
  {
    assert Pow2(2) == 4;
  }

  lemma CastSum(x: int, y: int)
    ensures S(S(x) + y) == S(x + y)
  {
    var q := x / 0x1_0000_0000;
    assert x == 0x1_0000_0000 * q + x % 0x1_0000_0000;
    var k := if x % 0x1_0000_0000 >= 0x8000_0000 then -1 - q else -q;
    assert S(x) + y == x + y + 0x1_0000_0000 * k;
    CastMoves(x + y, k);
  }

  /** The shift instructions. */
  lemma ShiftInstructionsAre(pri: Cell, alt: Cell, k: Cell)
    ensures Apply(Shl, pri, alt) == Registers(ShiftLeft(pri, alt), alt)
    ensures Apply(Shr, pri, alt) == Registers(ShiftRight(pri, alt), alt)
    ensures Apply(Sshr, pri, alt) == Registers(SignedShiftRight(pri, alt), alt)
    ensures ApplyConst(ShlCPri, pri, alt, k) == Registers(ShiftLeft(pri, k), alt)
    ensures ApplyConst(ShlCAlt, pri, alt, k) == Registers(pri, ShiftLeft(alt, k))
    ensures ApplyConst(ShrCPri, pri, alt, k) == Registers(ShiftRight(pri, k), alt)
    ensures ApplyConst(ShrCAlt, pri, alt, k) == Registers(pri, ShiftRight(alt, k))
  {
    hide Bits, OfBits, S, U, AndBits, OrBits, XorBits, ShiftLeft, ShiftRight, SignedShiftRight, Quotient, Remainder,
      Floor, SignExtendByte;
  }

  // ---------- Comparisons and jumps ----------

  /** `regs` tells `b` in PRI, as 1 or 0, and leaves ALT alone. */
  predicate Tells(regs: Registers, b: bool, alt: Cell) {
    regs == Registers(if b then 1 else 0, alt)
  }

  /** Unsigned, a negative cell is larger than any other. */
  predicate Below(x: Cell, y: Cell) {
    if (x < 0) == (y < 0) then x < y else y < 0
  }

  lemma BelowIs(x: Cell, y: Cell)
    ensures U(x) < U(y) <==> Below(x, y)
    ensures U(x) == U(y) <==> x == y
  {
  }

  lemma EqualityIs(pri: Cell, alt: Cell)
    ensures Tells(Apply(Eq, pri, alt), pri == alt, alt) && Tells(Apply(Neq, pri, alt), pri != alt, alt)
    ensures Tells(Apply(Not, pri, alt), pri == 0, alt)
  {
    hide Bits, OfBits, S, U, AndBits, OrBits, XorBits, ShiftLeft, ShiftRight, SignedShiftRight, Quotient, Remainder,
      Floor, SignExtendByte;
  }

  lemma SignedComparisonsAre(pri: Cell, alt: Cell)
    ensures Tells(Apply(Sless, pri, alt), pri < alt, alt) && Tells(Apply(Sleq, pri, alt), pri <= alt, alt)
    ensures Tells(Apply(Sgrtr, pri, alt), pri > alt, alt) && Tells(Apply(Sgeq, pri, alt), pri >= alt, alt)
  {
    hide Bits, OfBits, S, U, AndBits, OrBits, XorBits, ShiftLeft, ShiftRight, SignedShiftRight, Quotient, Remainder,
      Floor, SignExtendByte;
  }

  lemma UnsignedComparisonsAre(pri: Cell, alt: Cell)
    ensures Tells(Apply(Less, pri, alt), Below(pri, alt), alt) && Tells(Apply(Geq, pri, alt), !Below(pri, alt), alt)
    ensures Tells(Apply(Grtr, pri, alt), Below(alt, pri), alt) && Tells(Apply(Leq, pri, alt), !Below(alt, pri), alt)
  {
    hide Bits, OfBits, S, U, AndBits, OrBits, XorBits, ShiftLeft, ShiftRight, SignedShiftRight, Quotient, Remainder,
      Floor, SignExtendByte, Below;
    BelowIs(pri, alt);
    BelowIs(alt, pri);
  }

  lemma ConstantComparisonsAre(pri: Cell, alt: Cell, k: Cell)
    ensures Tells(ApplyConst(EqCPri, pri, alt, k), pri == k, alt)
    ensures Tells(ApplyConst(EqCAlt, pri, alt, k), alt == k, alt)
  {
    hide Bits, OfBits, S, U, ShiftLeft, ShiftRight;
  }

  /** Every conditional jump is taken exactly if the comparison of its name tells 1. */
  lemma EqualityJumpsAsCompared(pri: Cell, alt: Cell)
    ensures Holds(Jzer, pri, alt) <==> pri == 0
    ensures Holds(Jnz, pri, alt) <==> pri != 0
    ensures Tells(Apply(Eq, pri, alt), Holds(Jeq, pri, alt), alt) &&
      Tells(Apply(Neq, pri, alt), Holds(Jneq, pri, alt), alt)
  {
    EqualityIs(pri, alt);
  }

  lemma SignedJumpsAsCompared(pri: Cell, alt: Cell)
    ensures Tells(Apply(Sless, pri, alt), Holds(Jsless, pri, alt), alt)
    ensures Tells(Apply(Sleq, pri, alt), Holds(Jsleq, pri, alt), alt)
    ensures Tells(Apply(Sgrtr, pri, alt), Holds(Jsgrtr, pri, alt), alt)
    ensures Tells(Apply(Sgeq, pri, alt), Holds(Jsgeq, pri, alt), alt)
  {
    hide Bits, OfBits, S, U, AndBits, OrBits, XorBits, ShiftLeft, ShiftRight, SignedShiftRight, Quotient, Remainder,
      Floor, SignExtendByte;
  }

  lemma UnsignedJumpsAsCompared(pri: Cell, alt: Cell)
    ensures Tells(Apply(Less, pri, alt), Holds(Jless, pri, alt), alt)
    ensures Tells(Apply(Leq, pri, alt), Holds(Jleq, pri, alt), alt)
    ensures Tells(Apply(Grtr, pri, alt), Holds(Jgrtr, pri, alt), alt)
    ensures Tells(Apply(Geq, pri, alt), Holds(Jgeq, pri, alt), alt)
  {
    hide Bits, OfBits, S, U, AndBits, OrBits, XorBits, ShiftLeft, ShiftRight, SignedShiftRight, Quotient, Remainder,
      Floor, SignExtendByte;
  }

  // ---------- Addresses of characters ----------

  /** ALIGN on a little-endian machine counts characters of one or two bytes from the other end of their cell; doing it
      twice changes nothing. Whole cells stay where they are. */
  lemma AlignIs(pri: Cell, alt: Cell, k: Cell)
    ensures ApplyConst(AlignPri, pri, alt, k) == Registers(AlignChar(pri, k), alt)
    ensures ApplyConst(AlignAlt, pri, alt, k) == Registers(pri, AlignChar(alt, k))
    ensures AlignChar(pri, 1) == XorBits(pri, 3) && AlignChar(pri, 2) == XorBits(pri, 2) &&
      (k >= 4 ==> AlignChar(pri, k) == pri)
    ensures Bits(AlignChar(AlignChar(pri, 1), 1)) == Bits(pri) == Bits(AlignChar(AlignChar(pri, 2), 2))
    ensures AlignChar(0, 1) == 3 && AlignChar(1, 1) == 2 && AlignChar(0, 2) == 2
  {
    hide Bits, XorBits, S;
    Unmoved(3);
    Unmoved(2);
    XorTwice(pri, 3);
    XorTwice(pri, 2);
    SmallXors();
  }

  lemma XorTwice(x: Cell, y: Cell)
    ensures Bits(XorBits(XorBits(x, y), y)) == Bits(x)
  {
    hide Bits, OfBits, One, XorBits;
    AndBitsAre(x, y);
    AndBitsAre(XorBits(x, y), y);
    BitsOf(One(Bits(x), Bits(y)));
    BitsOf(One(One(Bits(x), Bits(y)), Bits(y)));
    XorBack(Bits(x), Bits(y));
  }

  lemma XorBack(a: bv32, b: bv32)
    ensures One(One(a, b), b) == a
  {
  }

  lemma SmallXors()
    ensures XorBits(0, 3) == 3 && XorBits(1, 3) == 2 && XorBits(0, 2) == 2
  {
    hide Bits, OfBits;
    SmallBits();
  }

  lemma SmallBits()
    ensures Bits(0) == 0 && Bits(1) == 1 && Bits(2) == 2 && Bits(3) == 3
    ensures OfBits(3) == 3 && OfBits(2) == 2
  {
  }
}
