/** Fixed-point arithmetic: the double-word division, multiplication and the square root. */
module FixedPoint {

  import opened Arithmetic

  const WORD := 0x1_0000
  const RANGE := 0x1_0000_0000

  // ---------- Double-word division ----------

  /** Subtraction of unsigned cells. */
  function Minus(a: nat, b: nat): (r: nat)
    requires a < RANGE && b < RANGE
    ensures r < RANGE
  {
    if a >= b then a - b else a - b + RANGE
  }

  function ShiftWord(x: nat): (r: nat)
    ensures r < RANGE
  {
    x * WORD % RANGE
  }

  /** The double word `hi`:`lo`. */
  function Wide(hi: nat, lo: nat): nat {
    hi * RANGE + lo
  }

  /** The test `(lo -= s) > ~0 - s` finds out whether the subtraction borrowed. */
  lemma BorrowTest(lo: nat, s: nat)
    requires lo < RANGE && s < RANGE
    ensures Minus(lo, s) > RANGE - 1 - s <==> lo < s
  {
  }

  /** `t[0] -= s`, with the borrow taken from `t[1]`. */
  method SubtractLow(t: array<nat>, s: nat)
    requires t.Length == 2 && t[0] < RANGE && t[1] < RANGE && s < RANGE
    requires Wide(t[1], t[0]) >= s
    modifies t
    ensures t[0] < RANGE && t[1] < RANGE && Wide(t[1], t[0]) == old(Wide(t[1], t[0])) - s
  {
    BorrowTest(t[0], s);
    t[0] := Minus(t[0], s);
    if t[0] > RANGE - 1 - s {
      t[1] := Minus(t[1], 1);
    }
  }

  /** `t[1] -= x`. */
  method SubtractHigh(t: array<nat>, x: nat)
    requires t.Length == 2 && t[0] < RANGE && t[1] < RANGE && x < RANGE
    requires Wide(t[1], t[0]) >= x * RANGE
    modifies t
    ensures t[0] < RANGE && t[1] < RANGE && Wide(t[1], t[0]) == old(Wide(t[1], t[0])) - x * RANGE
  {
    t[1] := Minus(t[1], x);
  }

  lemma ShiftedParts(x: nat)
    requires x < RANGE
    ensures ShiftWord(x) + x / WORD * RANGE == x * WORD && x / WORD < WORD
  {
    assert x == x / WORD * WORD + x % WORD;
    assert x * WORD == x / WORD * RANGE + x % WORD * WORD;
  }

  /** A half quotient times the divisor, from the two halves of the divisor. */
  lemma SplitProduct(r: nat, d: nat)
    requires r < WORD && d < RANGE
    ensures r * d == r * (d / WORD) * WORD + r * (d % WORD)
    ensures r * (d / WORD) < RANGE && r * (d % WORD) < RANGE
  {
    var h, l := d / WORD, d % WORD;
    assert d == h * WORD + l;
    assert r * d == r * (h * WORD) + r * l;
    assert r * (h * WORD) == r * h * WORD;
    ProductBelow(r, h);
    ProductBelow(r, l);
  }

  lemma ProductBelow(a: nat, b: nat)
    requires a < WORD && b < WORD
    ensures a * b < RANGE
  {
    Monotone(b, WORD, a);
    assert b * a == a * b;
  }

  lemma UnderestimateParts(x: nat, d: nat, h: nat, r: nat, rest: nat)
    requires x < d < h * WORD && x == r * h + rest
    ensures r < WORD && r * d <= x * WORD
  {
    if r >= WORD {
      Monotone(WORD, r, h);
      assert false;
    }
    Monotone(d, h * WORD, r);
    Associative(r, h);
  }

  lemma Associative(r: nat, h: nat)
    ensures h * WORD * r == r * h * WORD
  {
  }

  /** Dividing by the rounded-up high half of the divisor underestimates the half quotient, which fits a word. */
  lemma Underestimate(x: nat, d: nat)
    requires 0 < d < RANGE && x < d
    ensures var r := x / (d / WORD + 1); r < WORD && r * d <= x * WORD
  {
    var h := d / WORD + 1;
    DivMod(x, h);
    UnderestimateParts(x, d, h, x / h, x % h);
  }

  /** `t[1]:t[0]` divided by `divisor` fits a cell exactly if the divisor exceeds the high half. */
  lemma QuotientFitsIff(hi: nat, lo: nat, divisor: nat)
    requires lo < RANGE && 0 < divisor
    ensures Wide(hi, lo) / divisor < RANGE <==> divisor > hi
  {
    var q, r := Wide(hi, lo) / divisor, Wide(hi, lo) % divisor;
    assert Wide(hi, lo) == q * divisor + r;
    if q >= RANGE {
      Monotone(RANGE, q, divisor);
    } else {
      Monotone(q + 1, RANGE, divisor);
      assert (q + 1) * divisor == q * divisor + divisor;
    }
  }

  /** `t` has lost `r` times `unit` of its first value `start`. */
  ghost predicate Taken(t: array<nat>, start: nat, r: nat, unit: nat)
    reads t
  {
    t.Length == 2 && t[0] < RANGE && t[1] < RANGE && start == Product(r, unit) + Wide(t[1], t[0])
  }

  lemma QuotientBound(r: nat, unit: nat, bound: nat)
    requires Product(r, unit) < bound * unit
    ensures r < bound
  {
    if r >= bound {
      Monotone(bound, r, unit);
    }
  }

  /** The estimate of the high half, its product with the divisor, and the two pieces that are subtracted. */
  lemma HighEstimate(hi: nat, divisor: nat, r: nat, u: nat, v: nat)
    requires hi < divisor < RANGE && r == hi / (divisor / WORD + 1)
    requires u == r * (divisor % WORD) && v == r * (divisor / WORD)
    ensures r < WORD && u < RANGE && v < RANGE
    ensures ShiftWord(u) + (u / WORD + v) * RANGE == Product(r, divisor * WORD) <= hi * RANGE
  {
    Underestimate(hi, divisor);
    SplitProduct(r, divisor);
    ShiftedParts(u);
    assert r * (divisor * WORD) == r * divisor * WORD;
  }

  lemma LowEstimate(top: nat, divisor: nat, r: nat, u: nat, v: nat)
    requires top < divisor < RANGE && r == top / (divisor / WORD + 1)
    requires u == r * (divisor % WORD) && v == r * (divisor / WORD)
    ensures r < WORD && u < RANGE && v < RANGE
    ensures u + ShiftWord(v) + v / WORD * RANGE == Product(r, divisor) <= top * WORD
  {
    Underestimate(top, divisor);
    SplitProduct(r, divisor);
    ShiftedParts(v);
  }

  lemma ShiftExact(x: nat)
    requires x < WORD
    ensures ShiftWord(x) == x * WORD
  {
  }

  /** The high half: estimate, subtract, correct. `unit` is the divisor shifted up by a word. */
  method HighHalf(t: array<nat>, divisor: nat) returns (rHigh: nat)
    requires t.Length == 2 && t[0] < RANGE && t[1] < divisor < RANGE
    modifies t
    ensures rHigh < WORD && Taken(t, old(Wide(t[1], t[0])), rHigh, divisor * WORD)
    ensures Wide(t[1], t[0]) < divisor * WORD
  {
    hide Product, ShiftWord;
    ghost var start := Wide(t[1], t[0]);
    var dHigh, dLow := divisor / WORD, divisor % WORD;
    rHigh := t[1] / (dHigh + 1);
    var u, v := rHigh * dLow, rHigh * dHigh;
    HighEstimate(t[1], divisor, rHigh, u, v);
    SubtractLow(t, ShiftWord(u));
    SubtractHigh(t, u / WORD);
    SubtractHigh(t, v);
    ShiftExact(dLow);
    while t[1] > dHigh || (t[1] == dHigh && t[0] >= ShiftWord(dLow))
      invariant rHigh < WORD && Taken(t, start, rHigh, divisor * WORD)
      decreases Wide(t[1], t[0])
    {
      SubtractLow(t, ShiftWord(dLow));
      SubtractHigh(t, dHigh);
      OneMore(rHigh, divisor * WORD);
      QuotientBound(rHigh + 1, divisor * WORD, WORD);
      rHigh := rHigh + 1;
    }
  }

  /** The low half, by the divisor itself. */
  method LowHalf(t: array<nat>, divisor: nat) returns (rLow: nat)
    requires t.Length == 2 && t[0] < RANGE && 0 < divisor < RANGE && Wide(t[1], t[0]) < divisor * WORD
    modifies t
    ensures rLow < WORD && Taken(t, old(Wide(t[1], t[0])), rLow, divisor)
    ensures t[1] == 0 && t[0] < divisor
  {
    hide Product, ShiftWord;
    ghost var start := Wide(t[1], t[0]);
    var dHigh, dLow := divisor / WORD, divisor % WORD;
    ShiftExact(t[1]);
    var top := ShiftWord(t[1]) + t[0] / WORD;
    rLow := top / (dHigh + 1);
    var u, v := rLow * dLow, rLow * dHigh;
    LowEstimate(top, divisor, rLow, u, v);
    SubtractLow(t, u);
    SubtractLow(t, ShiftWord(v));
    SubtractHigh(t, v / WORD);
    while t[1] > 0 || (t[1] == 0 && t[0] >= divisor)
      invariant rLow < WORD && Taken(t, start, rLow, divisor)
      decreases Wide(t[1], t[0])
    {
      SubtractLow(t, divisor);
      OneMore(rLow, divisor);
      QuotientBound(rLow + 1, divisor, WORD);
      rLow := rLow + 1;
    }
  }

  /** `div64_32`: quotient and remainder of a double word, whenever the quotient fits a cell. */
  method Div64By32(t: array<nat>, divisor: nat) returns (q: nat)
    requires t.Length == 2 && t[0] < RANGE && t[1] < divisor < RANGE
    modifies t
    ensures q < RANGE && q == old(Wide(t[1], t[0])) / divisor
    ensures t[1] == 0 && t[0] == old(Wide(t[1], t[0])) % divisor
  {
    ghost var start := Wide(t[1], t[0]);
    var rHigh := HighHalf(t, divisor);
    var rLow := LowHalf(t, divisor);
    q := ShiftWord(rHigh) + rLow;
    assert (rHigh * WORD + rLow) * divisor == rHigh * (divisor * WORD) + rLow * divisor;
    QuotientUnique(start, divisor, q, t[0]);
  }

  // ---------- Multiplication ----------

  const MULTIPLIER := 1000

  /** C division, which truncates towards zero, by the scale factor. */
  function Unscale(x: int): int {
    if x >= 0 then x / MULTIPLIER else -(-x / MULTIPLIER)
  }

  /** `fmul` in the double-width integer it is computed in. */
  function FMulWide(a: int, b: int): int {
    Unscale(a * b + MULTIPLIER / 2)
  }

  function Cast(x: int): int {
    var m := x % RANGE;
    if m >= 0x8000_0000 then m - RANGE else m
  }

  /** `fmul`. */
  function FMul(a: int, b: int): int {
    Cast(FMulWide(a, b))
  }

  /** How far the scaled result is from the product, in units of the scaled product. */
  function RoundingError(a: int, b: int): int {
    var e := FMul(a, b) * MULTIPLIER - a * b;
    if e < 0 then -e else e
  }

  predicate FitsCell(x: int) {
    -0x8000_0000 <= x < 0x8000_0000
  }

  /** The product is rounded to nearest exactly if it fits a cell and is not less than minus half a unit, or lies
      halfway between two results: below that, truncation undoes the rounding. */
  lemma FMulNearestIff(a: int, b: int)
    ensures RoundingError(a, b) <= MULTIPLIER / 2 <==>
      && FitsCell(FMulWide(a, b))
      && (a * b >= -(MULTIPLIER / 2) || (a * b + MULTIPLIER / 2) % MULTIPLIER == 0)
  {
    hide Unscale, Cast;
    var p := a * b;
    RoundedProduct(p);
    CastMoves(FMulWide(a, b));
  }

  lemma RoundedProduct(p: int)
    ensures var e := Unscale(p + MULTIPLIER / 2) * MULTIPLIER - p;
      && -MULTIPLIER < e < 2 * MULTIPLIER
      && (-(MULTIPLIER / 2) <= e <= MULTIPLIER / 2 <==>
            p >= -(MULTIPLIER / 2) || (p + MULTIPLIER / 2) % MULTIPLIER == 0)
  {
  }

  /** The cast keeps what fits a cell, and moves everything else by the whole range at least. */
  lemma CastMoves(x: int)
    ensures FitsCell(x) <==> Cast(x) == x
    ensures Cast(x) == x || Cast(x) >= x + RANGE || Cast(x) <= x - RANGE
  {
    var q := x / RANGE;
    assert x == RANGE * q + x % RANGE;
  }

  /** Two million squared is no cell: the result is far off. */
  lemma FMulOverflows()
    ensures FMulWide(2_000_000_000, 2_000_000_000) == 4_000_000_000_000_000
    ensures FMul(2_000_000_000, 2_000_000_000) == -1_827_012_608
  {
  }

  // ---------- Square root ----------

  /** The square as `fmul` rounds it, for arguments that are not negative. */
  function Square(r: nat): nat {
    (r * r + MULTIPLIER / 2) / MULTIPLIER
  }

  lemma SquareMonotone(r: nat, q: nat)
    requires r <= q
    ensures Square(r) <= Square(q)
  {
    Monotone(r, q, r);
    Monotone(r, q, q);
    assert r * q == q * r;
  }

  const SQUARABLE := 1465429

  lemma SquareFits(r: nat)
    requires r <= SQUARABLE
    ensures FMul(r, r) == Square(r)
  {
    Monotone(r, SQUARABLE, r);
    Monotone(r, SQUARABLE, SQUARABLE);
    assert r * SQUARABLE == SQUARABLE * r;
  }

  /** No result comes closer than `r`. */
  ghost predicate Nearest(r: nat, value: nat) {
    forall q: nat :: Distance(Square(r), value) <= Distance(Square(q), value)
  }

  function Distance(a: int, b: int): nat {
    if a < b then b - a else a - b
  }

  /** The search keeps away from arguments whose square does not fit a cell. */
  ghost predicate Narrowed(low: nat, high: nat, value: nat) {
    (low == 0 && high == value) || value < 4100 || high <= value / 2
  }

  lemma SmallHalf(value: nat)
    requires Square(value / 2) < value
    ensures value < 4100
  {
    var m := value / 2;
    assert m * m < 2000 * m + 1000;
    if m >= 2001 {
      Monotone(2001, m, m);
    }
  }

  /** `fsqroot`. It ends between neighbours around the root and picks the closer one, except that an
      argument below one is its own answer: there the result is the nearest one only for 0 and for 0.999. */
  method FSqRoot(value: int) returns (root: nat, domainError: bool)
    requires value <= 2 * SQUARABLE + 1
    ensures domainError <==> value < 0
    ensures domainError ==> root == 0
    ensures value >= 0 ==> (Nearest(root, value) <==> value == 0 || value >= 999)
  {
    hide Square, FMul, Nearest;
    var low: nat, high: int := 0, value;
    if value < 0 {
      return 0, true;
    }
    EndsOfSearch(value);
    while high - low > 1
      invariant low <= high <= value && (value > 0 ==> low < high)
      invariant value >= 1000 ==> Square(low) < value <= Square(high)
      invariant value < 1000 ==> high == value
      invariant Narrowed(low, high, value)
      decreases high - low
    {
      var mid := (low + high) / 2;
      SquareFits(mid);
      if FMul(mid, mid) < value {
        if low == 0 && high == value {
          SmallHalf(value);
        }
        low := mid;
      } else {
        if value < 1000 {
          SquareBelow(mid, value);
        }
        high := mid;
      }
    }
    root, domainError := low, false;
    if low != high {
      SquareFits(low);
      SquareFits(high);
      var deltaLow, deltaHigh := value - FMul(low, low), FMul(high, high) - value;
      if value < 1000 {
        SquareBelow(high, value);
        SquareMonotone(low, high);
      }
      if deltaHigh <= deltaLow {
        root := high;
      }
      if value >= 1000 {
        CloserNeighbour(low, value, root);
      }
    }
    if value < 1000 {
      OwnRootIff(value);
    }
  }

  lemma EndsOfSearch(value: nat)
    ensures Square(0) == 0 && (value >= 1000 ==> Square(value) >= value)
  {
    if value >= 1000 {
      Monotone(1000, value, value);
    }
  }

  /** Below one, squares are smaller than their root, so the search is confined to the wrong side. */
  lemma SquareBelow(r: nat, value: nat)
    requires r <= value && 0 < value < 1000
    ensures Square(r) < value
  {
    SquareMonotone(r, value);
    Monotone(value, 999, value);
  }

  lemma CloserNeighbour(low: nat, value: nat, root: nat)
    requires Square(low) < value <= Square(low + 1)
    requires root == if Square(low + 1) - value <= value - Square(low) then low + 1 else low
    ensures Nearest(root, value)
  {
    forall q: nat
      ensures Distance(Square(root), value) <= Distance(Square(q), value)
    {
      if q <= low {
        SquareMonotone(q, low);
      } else {
        SquareMonotone(low + 1, q);
      }
    }
  }

  /** Somewhere below `hi` a square comes within one unit above `value`: squares up to one grow by at most two. */
  lemma {:induction false} SquareJustAbove(hi: nat, value: nat) returns (q: nat)
    requires hi <= 1000 && Square(hi) >= value
    ensures value <= Square(q) <= value + 1
  {
    if Square(hi) <= value + 1 {
      q := hi;
    } else {
      assert (hi - 1) * (hi - 1) == hi * hi - 2 * hi + 1;
      q := SquareJustAbove(hi - 1, value);
    }
  }

  /** An argument below one is the nearest root of itself only at the two ends of the range. */
  lemma OwnRootIff(value: nat)
    requires value < 1000
    ensures Nearest(value, value) <==> value == 0 || value == 999
  {
    if value == 0 {
      assert Square(0) == 0;
    } else if value == 1 {
      assert Square(23) == 1 && Square(1) == 0;
      assert Distance(Square(1), 1) > Distance(Square(23), 1);
    } else if value == 999 {
      assert Square(999) == 998 && Square(1000) == 1000;
      CloserNeighbour(999, 999, 999 + 1);
      forall q: nat
        ensures Distance(Square(999), 999) <= Distance(Square(q), 999)
      {
        assert Distance(Square(1000), 999) <= Distance(Square(q), 999);
      }
    } else {
      var q := SquareJustAbove(1000, value);
      GapBelowOne(value);
      assert Distance(Square(q), value) < Distance(Square(value), value);
    }
  }

  lemma GapBelowOne(value: nat)
    requires 2 <= value <= 998
    ensures Square(value) <= value - 2
  {
    assert value * value <= 1000 * value - 1996 by {
      Monotone(0, value - 2, 998 - value);
      assert (value - 2) * (998 - value) == 1000 * value - value * value - 1996;
    }
    FloorBelow(value * value, value);
  }

  lemma FloorBelow(square: int, value: nat)
    requires square <= 1000 * value - 1996
    ensures (square + MULTIPLIER / 2) / MULTIPLIER <= value - 2
  {
  }
}
