/** Exchanging strings between C and the abstract machine. */
module Strings {

  import opened PackedCells

  const UNLIMITED := 0x7FFF_FFFF

  /** The text of a string in either format, as C characters. */
  function StringOf(cells: seq<Word>): seq<Char> {
    if IsPacked(cells) then PackedText(cells, 0) else Narrow(UnpackedText(cells, 0))
  }

  /** `(char)` of each cell. */
  function Narrow(cells: seq<Word>): (s: seq<Char>)
    ensures |s| == |cells|
  {
    seq(|cells|, i requires 0 <= i < |cells| => cells[i] % 256)
  }

  /** The array holds a terminator for its format. */
  ghost predicate Terminated(cells: seq<Word>) {
    if IsPacked(cells) then exists p: nat :: p < 4 * |cells| && CharAt(cells, p) == 0 else 0 in cells
  }

  // ---------- The length ----------

  /** The byte of a cell at address offset `b`: the lowest one comes first. */
  function ByteOf(w: Word, b: nat): Char
    requires b < 4
  {
    CharOf(w, 3 - b)
  }

  function ByteAt(cells: seq<Word>, p: nat): Char
    requires p < 4 * |cells|
  {
    ByteOf(cells[p / 4], p % 4)
  }

  /** If no byte before one in cell `k` is zero, no character of the cells before is. */
  lemma FullCells(cells: seq<Word>, k: nat)
    requires k <= |cells| && forall p :: 0 <= p < 4 * k ==> ByteAt(cells, p) != 0
    ensures forall p :: 0 <= p < 4 * k ==> CharAt(cells, p) != 0
  {
    hide CharOf;
    forall p | 0 <= p < 4 * k
      ensures CharAt(cells, p) != 0
    {
      var q := p / 4 * 4 + (3 - p % 4);
      assert q / 4 == p / 4 && q % 4 == 3 - p % 4;
      assert ByteAt(cells, q) != 0;
    }
  }

  lemma SomeZeroByte(cells: seq<Word>) returns (p: nat)
    requires IsPacked(cells) && Terminated(cells)
    ensures p < 4 * |cells| && ByteAt(cells, p) == 0
  {
    hide CharOf;
    var q: nat :| q < 4 * |cells| && CharAt(cells, q) == 0;
    p := q / 4 * 4 + (3 - q % 4);
    assert p / 4 == q / 4 && p % 4 == 3 - q % 4;
  }

  lemma PackedLengthIs(cells: seq<Word>, n: nat)
    requires IsPacked(cells) && n < 4 * |cells| && CharAt(cells, n) == 0
    requires forall p :: 0 <= p < n ==> CharAt(cells, p) != 0
    ensures |StringOf(cells)| == n
  {
    TextIs(cells, 0, n);
  }

  lemma {:induction false} UnpackedLengthIs(cells: seq<Word>, i: nat, n: nat)
    requires i <= n < |cells| && cells[n] == 0 && forall p :: i <= p < n ==> cells[p] != 0
    ensures UnpackedText(cells, i) == cells[i..n]
    decreases n - i
  {
    if i < n {
      UnpackedLengthIs(cells, i + 1, n);
      assert cells[i..n] == [cells[i]] + cells[i + 1..n];
    }
  }

  /** `strlen` on the bytes of the cells. */
  method ByteLength(cstr: array<Word>) returns (len: nat)
    requires IsPacked(cstr[..]) && Terminated(cstr[..])
    ensures len < 4 * cstr.Length && ByteAt(cstr[..], len) == 0
    ensures forall p :: 0 <= p < len ==> ByteAt(cstr[..], p) != 0
  {
    hide CharOf;
    len := 0;
    ghost var zero := SomeZeroByte(cstr[..]);
    while ByteOf(cstr[len / 4], len % 4) != 0
      invariant len <= zero && forall p :: 0 <= p < len ==> ByteAt(cstr[..], p) != 0
      decreases zero - len
    {
      assert ByteAt(cstr[..], len) != 0;
      len := len + 1;
    }
  }

  /** The characters of the last cell before its first zero. */
  method LeadingChars(w: Word) returns (n: nat)
    requires exists j :: 0 <= j < 4 && CharOf(w, j) == 0
    ensures n < 4 && CharOf(w, n) == 0 && forall j :: 0 <= j < n ==> CharOf(w, j) != 0
  {
    assert Left(w, 0) == w;
    hide CharOf, Left;
    ghost var stop :| 0 <= stop < 4 && CharOf(w, stop) == 0;
    var c := w;
    n := 0;
    while CharOf(c, 0) != 0
      invariant n <= stop && c == Left(w, n)
      invariant forall j :: 0 <= j < n ==> CharOf(w, j) != 0
      decreases stop - n
    {
      LeftChars(w, n, 0);
      LeftTwice(w, n);
      c := Left(c, 1);
      n := n + 1;
    }
    LeftChars(w, n, 0);
  }

  lemma LeftTwice(w: Word, n: nat)
    requires n < 4
    ensures Left(Left(w, n), 1) == Left(w, n + 1)
  {
    hide CharOf, Left;
    var v, u := Left(Left(w, n), 1), Left(w, n + 1);
    forall k | 0 <= k < 4
      ensures CharOf(v, k) == CharOf(u, k)
    {
      LeftChars(Left(w, n), 1, k);
      LeftChars(w, n + 1, k);
      if k < 3 {
        LeftChars(w, n, k + 1);
      }
    }
    SameChars(v, u);
  }

  lemma LengthInCell(s: seq<Word>, k: nat, n: nat)
    requires IsPacked(s) && k < |s| && n < 4
    requires forall p :: 0 <= p < 4 * k ==> CharAt(s, p) != 0
    requires CharOf(s[k], n) == 0 && forall j :: 0 <= j < n ==> CharOf(s[k], j) != 0
    ensures |StringOf(s)| == 4 * k + n
  {
    hide CharOf, StringOf;
    forall p | 0 <= p < 4 * k + n
      ensures CharAt(s, p) != 0
    {
      if p >= 4 * k {
        assert CharOf(s[k], p - 4 * k) != 0;
      }
    }
    PackedLengthIs(s, 4 * k + n);
  }

  /** `amx_StrLen`: the bytes are counted in address order, which runs against the characters in each cell, and
      the last cell is corrected. */
  method StrLen(cstr: array<Word>) returns (length: nat)
    requires cstr.Length > 0 && Terminated(cstr[..])
    ensures length == |StringOf(cstr[..])|
  {
    ghost var s := cstr[..];
    if cstr[0] > UNPACKED_MAX {
      hide CharOf, StringOf;
      var len := ByteLength(cstr);
      ghost var k := len / 4;
      FullCells(s, k);
      var n := LeadingChars(cstr[len / 4]);
      LengthInCell(s, k, n);
      length := len - len % 4 + n;
    } else {
      length := 0;
      while cstr[length] != 0
        invariant length < |s| && forall p :: 0 <= p < length ==> s[p] != 0
        decreases |s| - length
      {
        length := length + 1;
      }
      UnpackedLengthIs(s, 0, length);
    }
  }

  // ---------- Storing ----------

  /** `swapcell`. */
  function Swap(w: Word): Word {
    CellOf(CharOf(w, 3), CharOf(w, 2), CharOf(w, 1), CharOf(w, 0))
  }

  lemma SwapChars(w: Word, k: nat)
    requires k < 4
    ensures CharOf(Swap(w), k) == CharOf(w, 3 - k)
  {
    hide CharOf, CellOf;
    CharsOfCell(CharOf(w, 3), CharOf(w, 2), CharOf(w, 1), CharOf(w, 0));
  }

  /** A plain `char` is signed, so the cells of characters from 128 on are negative. */
  function Widen(c: Char): Word {
    if c < 128 then c else 0xFFFF_FF00 + c
  }

  /** The characters that fit `size` cells, terminator included. */
  function FitPacked(n: nat, size: nat): nat
    requires size > 0
  {
    if size < UNLIMITED / 4 && n >= size * 4 then size * 4 - 1 else n
  }

  function FitUnpacked(n: nat, size: nat): nat
    requires size > 0
  {
    if size < UNLIMITED && n >= size then size - 1 else n
  }

  /** What address offset `b` of cell `m` holds when the first `i` characters have been copied and the other
      bytes are zero. */
  function Copied(source: seq<Char>, i: nat, m: nat, b: nat): Char
    requires i <= |source|
  {
    if 4 * m + b < i then source[4 * m + b] else 0
  }

  /** Cell `m` before the bytes are swapped; only the last one has been cleared. */
  ghost predicate HoldsCopied(w: Word, source: seq<Char>, i: nat, m: nat, cleared: bool)
    requires i <= |source|
  {
    forall b :: 0 <= b < 4 && (cleared || 4 * m + b < i) ==> ByteOf(w, b) == Copied(source, i, m, b)
  }

  ghost predicate HoldsText(w: Word, source: seq<Char>, n: nat, m: nat)
    requires n <= |source|
  {
    forall c :: 0 <= c < 4 ==> CharOf(w, c) == Copied(source, n, m, c)
  }

  lemma CopyByte(w: Word, source: seq<Char>, i: nat, cleared: bool)
    requires i < |source| && HoldsCopied(w, source, i, i / 4, cleared)
    ensures HoldsCopied(StoreByte(w, i % 4, source[i]), source, i + 1, i / 4, cleared)
  {
    hide CharOf, StoreByte;
    StoreByteChars(w, i % 4, source[i]);
    var v := StoreByte(w, i % 4, source[i]);
    forall b | 0 <= b < 4
      ensures ByteOf(v, b) == if b == i % 4 then source[i] else ByteOf(w, b)
    {
    }
  }

  lemma CopyElsewhere(w: Word, source: seq<Char>, i: nat, m: nat, cleared: bool)
    requires i < |source| && m != i / 4 && HoldsCopied(w, source, i, m, cleared)
    ensures HoldsCopied(w, source, i + 1, m, cleared)
  {
    hide ByteOf;
  }

  lemma SwapCopied(w: Word, source: seq<Char>, n: nat, m: nat)
    requires n <= |source| && m <= n / 4 && HoldsCopied(w, source, n, m, m == n / 4)
    ensures HoldsText(Swap(w), source, n, m)
  {
    hide CharOf, Swap;
    var v := Swap(w);
    forall c | 0 <= c < 4
      ensures CharOf(v, c) == Copied(source, n, m, c)
    {
      SwapChars(w, c);
      assert ByteOf(w, c) == Copied(source, n, m, c);
    }
  }

  /** `memcpy` into the cleared last cell and those before it. */
  method CopyBytes(dest: array<Word>, source: seq<Char>, n: nat)
    requires n <= |source| && n / 4 < dest.Length && dest[n / 4] == 0
    modifies dest
    ensures forall m :: 0 <= m <= n / 4 ==> HoldsCopied(dest[m], source, n, m, m == n / 4)
    ensures forall m :: n / 4 < m < dest.Length ==> dest[m] == old(dest[m])
  {
    ZeroChars();
    hide CharOf, StoreByte;
    assert HoldsCopied(0, source, 0, n / 4, true);
    hide HoldsCopied;
    NothingCopied(dest[..], source, n / 4);
    for i := 0 to n
      invariant forall m :: 0 <= m <= n / 4 ==> HoldsCopied(dest[m], source, i, m, m == n / 4)
      invariant forall m :: n / 4 < m < dest.Length ==> dest[m] == old(dest[m])
    {
      forall m | 0 <= m <= n / 4 && m != i / 4
        ensures HoldsCopied(dest[m], source, i + 1, m, m == n / 4)
      {
        CopyElsewhere(dest[m], source, i, m, m == n / 4);
      }
      CopyByte(dest[i / 4], source, i, i / 4 == n / 4);
      dest[i / 4] := StoreByte(dest[i / 4], i % 4, source[i]);
    }
  }

  lemma NothingCopied(cells: seq<Word>, source: seq<Char>, last: nat)
    requires last < |cells| && cells[last] == 0
    ensures forall m :: 0 <= m <= last ==> HoldsCopied(cells[m], source, 0, m, m == last)
  {
    ZeroChars();
    hide CharOf;
  }

  /** The packed half of `amx_SetString`. */
  method SetPacked(dest: array<Word>, source: seq<Char>, n: nat)
    requires n <= |source| && 0 !in source && n / 4 < dest.Length
    modifies dest
    ensures StringOf(dest[..]) == source[..n] && Terminated(dest[..])
    ensures forall m :: 0 <= m <= n / 4 ==> HoldsText(dest[m], source, n, m)
    ensures forall m :: n / 4 < m < dest.Length ==> dest[m] == old(dest[m])
  {
    hide HoldsCopied, HoldsText, Swap, StringOf, Terminated;
    dest[n / 4] := 0;
    CopyBytes(dest, source, n);
    var k: int := n / 4;
    while k >= 0
      invariant -1 <= k <= n / 4
      invariant forall m :: 0 <= m <= k ==> HoldsCopied(dest[m], source, n, m, m == n / 4)
      invariant forall m :: k < m <= n / 4 ==> HoldsText(dest[m], source, n, m)
      invariant forall m :: n / 4 < m < dest.Length ==> dest[m] == old(dest[m])
    {
      SwapCopied(dest[k], source, n, k);
      dest[k] := Swap(dest[k]);
      k := k - 1;
    }
    TextStored(dest[..], source, n);
  }

  lemma TextStored(cells: seq<Word>, source: seq<Char>, n: nat)
    requires n <= |source| && 0 !in source && n / 4 < |cells|
    requires forall m :: 0 <= m <= n / 4 ==> HoldsText(cells[m], source, n, m)
    ensures StringOf(cells) == source[..n] && Terminated(cells)
  {
    hide CharOf;
    forall p | 0 <= p <= n
      ensures CharAt(cells, p) == if p < n then source[p] else 0
    {
      assert HoldsText(cells[p / 4], source, n, p / 4);
      assert CharOf(cells[p / 4], p % 4) == Copied(source, n, p / 4, p % 4);
    }
    PackedIff(cells);
    if n > 0 {
      TextIs(cells, 0, n);
    } else {
      assert HoldsText(cells[0], source, n, 0);
      AllZero(cells[0]);
      UnpackedLengthIs(cells, 0, 0);
    }
  }

  lemma AllZero(w: Word)
    requires forall k :: 0 <= k < 4 ==> CharOf(w, k) == 0
    ensures w == 0
  {
    ZeroChars();
    SameChars(w, 0);
  }

  /** `amx_SetString` for C strings of plain characters. */
  method SetString(dest: array<Word>, source: seq<Char>, pack: bool, size: nat)
    requires 0 !in source && size > 0
    requires if pack then FitPacked(|source|, size) / 4 < dest.Length else FitUnpacked(|source|, size) < dest.Length
    modifies dest
    ensures Terminated(dest[..])
    ensures pack ==> StringOf(dest[..]) == source[..FitPacked(|source|, size)]
    ensures pack ==> forall m :: FitPacked(|source|, size) / 4 < m < dest.Length ==> dest[m] == old(dest[m])
    ensures !pack ==> var n := FitUnpacked(|source|, size);
      && (forall i :: 0 <= i < n ==> dest[i] == Widen(source[i]))
      && dest[n] == 0
      && (forall i :: n < i < dest.Length ==> dest[i] == old(dest[i]))
  {
    hide StringOf, Terminated;
    var len := |source|;
    if pack {
      if size < UNLIMITED / 4 && len >= size * 4 {
        len := size * 4 - 1;
      }
      SetPacked(dest, source, len);
    } else {
      if size < UNLIMITED && len >= size {
        len := size - 1;
      }
      for i := 0 to len
        invariant forall j :: 0 <= j < i ==> dest[j] == Widen(source[j])
        invariant forall j :: i <= j < dest.Length ==> dest[j] == old(dest[j])
      {
        dest[i] := Widen(source[i]);
      }
      dest[len] := 0;
      ZeroTerminates(dest[..], len);
    }
  }

  /** A zero cell ends a string of either format. */
  lemma ZeroTerminates(cells: seq<Word>, n: nat)
    requires n < |cells| && cells[n] == 0
    ensures Terminated(cells)
  {
    ZeroChars();
    hide CharOf;
    assert CharAt(cells, 4 * n) == 0;
  }

  // ---------- Fetching ----------

  /** The characters that `size` bytes hold with a terminator. */
  function FitFetched(n: nat, size: nat): nat
    requires size > 0
  {
    if n >= size then size - 1 else n
  }

  /** `c` is the cell of the next character, `k` cells have been read, and `i` characters are below the next one. */
  ghost predicate Cursor(s: seq<Word>, len: nat, i: nat, k: nat, c: Word) {
    i == 3 - len % 4 && k == (len + 3) / 4 && (i != 3 ==> 0 < k <= |s| && c == s[k - 1])
  }

  lemma CursorStep(s: seq<Word>, len: nat, i: nat, k: nat, c: Word)
    requires len < 4 * |s| && Cursor(s, len, i, k, c)
    ensures i <= 3 && (i == 3 ==> k < |s|)
    ensures var cell, taken := if i == 3 then s[k] else c, if i == 3 then k + 1 else k;
      CharOf(cell, 3 - i) == CharAt(s, len) && Cursor(s, len + 1, (i + 3) % 4, taken, cell)
  {
    hide CharOf;
  }

  /** The packed half of `amx_GetString`: `i` counts the characters below the next one in its cell. */
  method FetchPacked(dest: array<Char>, source: array<Word>, size: nat) returns (len: nat)
    requires IsPacked(source[..]) && Terminated(source[..])
    requires if |StringOf(source[..])| < size then |StringOf(source[..])| < dest.Length else size <= dest.Length
    modifies dest
    ensures len == (if |StringOf(source[..])| < size then |StringOf(source[..])| else size) <= dest.Length
    ensures forall j :: 0 <= j < len ==> dest[j] == StringOf(source[..])[j]
    ensures forall j :: len <= j < dest.Length ==> dest[j] == old(dest[j])
  {
    ghost var s, text := source[..], StringOf(source[..]);
    ghost var stop := PackedEnds(s);
    len := 0;
    var c: Word, i: nat, k: nat := 0, 3, 0;
    assert Cursor(s, len, i, k, c);
    hide CharOf, CharAt, StringOf, Cursor;
    while len < size
      invariant len <= size && len <= stop && Cursor(s, len, i, k, c)
      invariant forall j :: 0 <= j < len ==> dest[j] == text[j]
      invariant forall j :: len <= j < dest.Length ==> dest[j] == old(dest[j])
      decreases size - len
    {
      CursorStep(s, len, i, k, c);
      if i == 3 {
        c := source[k];
        k := k + 1;
      }
      var ch := CharOf(c, 3 - i);
      if ch == 0 {
        break;
      }
      dest[len] := ch;
      len := len + 1;
      i := (i + 3) % 4;
    }
  }

  method FetchUnpacked(dest: array<Char>, source: array<Word>, size: nat) returns (len: nat)
    requires source.Length > 0 && !IsPacked(source[..]) && Terminated(source[..])
    requires if |StringOf(source[..])| < size then |StringOf(source[..])| < dest.Length else size <= dest.Length
    modifies dest
    ensures len == (if |StringOf(source[..])| < size then |StringOf(source[..])| else size) <= dest.Length
    ensures forall j :: 0 <= j < len ==> dest[j] == StringOf(source[..])[j]
    ensures forall j :: len <= j < dest.Length ==> dest[j] == old(dest[j])
  {
    ghost var text := StringOf(source[..]);
    ghost var stop := UnpackedEnds(source[..]);
    hide StringOf;
    len := 0;
    while source[len] != 0 && len < size
      invariant len <= size && len <= stop
      invariant forall j :: 0 <= j < len ==> dest[j] == text[j]
      invariant forall j :: len <= j < dest.Length ==> dest[j] == old(dest[j])
      decreases size - len
    {
      dest[len] := source[len] % 256;
      len := len + 1;
    }
  }

  /** `amx_GetString` for plain characters. */
  method GetString(dest: array<Char>, source: array<Word>, size: nat)
    requires source.Length > 0 && Terminated(source[..])
    requires if |StringOf(source[..])| < size then |StringOf(source[..])| < dest.Length else size <= dest.Length
    modifies dest
    ensures size == 0 ==> dest[..] == old(dest[..])
    ensures size > 0 ==> var n := FitFetched(|StringOf(source[..])|, size);
      && dest[..n] == StringOf(source[..])[..n]
      && dest[n] == 0
      && forall i :: n < i < dest.Length ==> dest[i] == old(dest[i])
  {
    hide StringOf, Terminated;
    var len: int;
    if source[0] > UNPACKED_MAX {
      len := FetchPacked(dest, source, size);
    } else {
      len := FetchUnpacked(dest, source, size);
    }
    if len >= size {
      len := size - 1;
    }
    if len >= 0 {
      dest[len] := 0;
    }
  }

  /** Where a packed string ends. */
  lemma PackedEnds(cells: seq<Word>) returns (n: nat)
    requires IsPacked(cells) && Terminated(cells)
    ensures n < 4 * |cells| && CharAt(cells, n) == 0 && |StringOf(cells)| == n
    ensures forall p :: 0 <= p < n ==> CharAt(cells, p) == StringOf(cells)[p] != 0
  {
    hide CharAt;
    n := 0;
    var zero: nat :| zero < 4 * |cells| && CharAt(cells, zero) == 0;
    while CharAt(cells, n) != 0
      invariant n <= zero && forall p :: 0 <= p < n ==> CharAt(cells, p) != 0
      decreases zero - n
    {
      n := n + 1;
    }
    TextIs(cells, 0, n);
  }

  lemma UnpackedEnds(cells: seq<Word>) returns (n: nat)
    requires !IsPacked(cells) && Terminated(cells)
    ensures n < |cells| && cells[n] == 0 && |StringOf(cells)| == n
    ensures forall p :: 0 <= p < n ==> cells[p] != 0 && cells[p] % 256 == StringOf(cells)[p]
  {
    n := 0;
    while cells[n] != 0
      invariant n < |cells| && 0 in cells[n..] && forall p :: 0 <= p < n ==> cells[p] != 0
      decreases |cells| - n
    {
      n := n + 1;
    }
    UnpackedLengthIs(cells, 0, n);
  }

  // ---------- Round trips ----------

  ghost predicate StoredUnpacked(cells: seq<Word>, text: seq<Char>) {
    |text| < |cells| && cells[|text|] == 0 && forall i :: 0 <= i < |text| ==> cells[i] == Widen(text[i])
  }

  lemma LowRoundTrip(cells: seq<Word>, text: seq<Char>)
    requires StoredUnpacked(cells, text) && 0 !in text && (text == [] || text[0] < 128)
    ensures StringOf(cells) == text
  {
    hide Widen, PackedText, UnpackedText;
    forall c: Char
      ensures Widen(c) % 256 == c && (c == 0 <==> Widen(c) == 0) && (c < 128 ==> Widen(c) == c)
    {
      WidenKeeps(c);
    }
    UnpackedLengthIs(cells, 0, |text|);
    assert cells[..|text|] == cells[0..|text|];
  }

  lemma WidenKeeps(c: Char)
    ensures Widen(c) % 256 == c && (c == 0 <==> Widen(c) == 0) && (c < 128 ==> Widen(c) == c)
  {
  }

  lemma {:induction false} LeadingHigh(text: seq<Char>, m: nat) returns (n: nat)
    requires m <= |text| && forall j :: 0 <= j < m ==> text[j] >= 128
    ensures m <= n <= |text| && (n == |text| || text[n] < 128)
    ensures forall j :: 0 <= j < n ==> text[j] >= 128
    decreases |text| - m
  {
    if m == |text| || text[m] < 128 {
      n := m;
    } else {
      n := LeadingHigh(text, m + 1);
    }
  }

  /** The characters of the cell of a character from 128 on. */
  lemma WidenedChars(c: Char)
    ensures c >= 128 ==> CharOf(Widen(c), 0) == CharOf(Widen(c), 1) == CharOf(Widen(c), 2) == 0xFF
    ensures c >= 128 ==> CharOf(Widen(c), 3) == c
    ensures c < 128 ==> CharOf(Widen(c), 0) == 0
  {
    if c >= 128 {
      assert Widen(c) == CellOf(0xFF, 0xFF, 0xFF, c);
      CharsOfCell(0xFF, 0xFF, 0xFF, c);
    }
  }

  /** A text that starts with a character from 128 on is taken for a packed string, four characters for each
      leading one. */
  lemma HighText(cells: seq<Word>, text: seq<Char>, m: nat)
    requires StoredUnpacked(cells, text) && 0 < m <= |text| && (m == |text| || text[m] < 128)
    requires forall j :: 0 <= j < m ==> text[j] >= 128
    ensures StringOf(cells) == Chars(cells, 4 * m)
    ensures forall p :: 0 <= p < 4 * m ==> CharAt(cells, p) == if p % 4 == 3 then text[p / 4] else 0xFF
  {
    hide CharOf, Widen;
    forall p | 0 <= p < 4 * m
      ensures CharAt(cells, p) == if p % 4 == 3 then text[p / 4] else 0xFF
    {
      WidenedChars(text[p / 4]);
    }
    assert CharAt(cells, 0) == 0xFF;
    PackedIff(cells);
    ZeroChars();
    if m < |text| {
      WidenedChars(text[m]);
    }
    assert CharAt(cells, 4 * m) == CharOf(cells[m], 0) == 0;
    TextIs(cells, 0, 4 * m);
  }

  /** The unpacked form keeps a text exactly if it is empty or starts with a 7-bit character. */
  lemma UnpackedRoundTripIff(cells: seq<Word>, text: seq<Char>)
    requires StoredUnpacked(cells, text) && 0 !in text
    ensures StringOf(cells) == text <==> text == [] || text[0] < 128
  {
    hide StringOf, CharAt;
    if text == [] || text[0] < 128 {
      LowRoundTrip(cells, text);
    } else {
      var m := LeadingHigh(text, 1);
      HighText(cells, text, m);
      assert StringOf(cells)[m] == CharAt(cells, m);
      assert m < |text| ==> StringOf(cells)[m] != text[m];
    }
  }

  /** The characters that are stored of `source`. */
  function Fit(source: seq<Char>, pack: bool, size: nat): (n: nat)
    requires size > 0
    ensures n <= |source|
  {
    if pack then FitPacked(|source|, size) else FitUnpacked(|source|, size)
  }

  /** `n` characters and a terminator fit `size` cells, four to a cell if packed. */
  predicate HasRoom(n: nat, pack: bool, size: nat) {
    n + 1 <= if pack then 4 * size else size
  }

  /** What is stored is the longest beginning with room for its terminator; the largest sizes stand for no limit. */
  lemma FitIsLongest(source: seq<Char>, pack: bool, size: nat)
    requires size > 0
    ensures var n := Fit(source, pack, size);
      if size >= (if pack then 0x1FFF_FFFF else 0x7FFF_FFFF) then n == |source|
      else HasRoom(n, pack, size) && forall m :: n < m <= |source| ==> !HasRoom(m, pack, size)
  {
  }

  /** What is fetched is the longest beginning with room for its terminator. */
  lemma FetchedIsLongest(n: nat, size: nat)
    requires size > 0
    ensures FitFetched(n, size) <= n && HasRoom(FitFetched(n, size), false, size)
    ensures forall m :: FitFetched(n, size) < m <= n ==> !HasRoom(m, false, size)
  {
  }

  /** Storing a text and fetching it again: whatever fits comes back, always from the packed form, and from the
      unpacked one if the text does not start with a character from 128 on. */
  method StoreAndFetch(back: array<Char>, cells: array<Word>, source: seq<Char>, pack: bool, size: nat, room: nat)
    requires 0 !in source && size > 0 && Fit(source, pack, size) < room <= back.Length
    requires (if pack then Fit(source, pack, size) / 4 else Fit(source, pack, size)) < cells.Length
    modifies back, cells
    ensures var n := Fit(source, pack, size);
      pack || source == [] || source[0] < 128 ==>
      && back[..n] == source[..n] && back[n] == 0
      && forall i :: n < i < back.Length ==> back[i] == old(back[i])
  {
    hide StringOf, Terminated, Widen;
    ghost var n := Fit(source, pack, size);
    SetString(cells, source, pack, size);
    if !pack && (source == [] || source[0] < 128) {
      LowRoundTrip(cells[..], source[..n]);
    }
    GetString(back, cells, room);
  }
}
