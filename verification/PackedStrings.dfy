/** Packing and unpacking strings. */
module PackedStrings {

  import opened PackedCells

  /** The `j`th character of a string in either format. */
  function SourceChar(s: seq<Word>, j: nat): Char
    requires if IsPacked(s) then j < 4 * |s| else j < |s|
  {
    if IsPacked(s) then CharAt(s, j) else s[j] % 256
  }

  /** The cells of the source that packing `len` characters at `offs` reads: an unaligned copy of a packed string
      reads as many cells as it writes. */
  function CellsRead(s: seq<Word>, len: nat, offs: nat): nat {
    if !IsPacked(s) then len else if offs % 4 == 0 then (len + 3) / 4 else (offs % 4 + len) / 4 + 1
  }

  /** What character position `p` holds afterwards. */
  function PackedChar(d: seq<Word>, s: seq<Word>, len: nat, offs: nat, p: nat): Char
    requires CellsRead(s, len, offs) <= |s| && (p < offs ==> p < 4 * |d|)
  {
    if p < offs then CharAt(d, p) else if p < offs + len then SourceChar(s, p - offs) else 0
  }

  /** `r` is `d` with the cells from that of position `offs` to that of the terminator replaced by the old
      characters before `offs`, `len` characters of `s`, and zeros. */
  ghost predicate Packs(d: seq<Word>, s: seq<Word>, len: nat, offs: nat, r: seq<Word>) {
    |r| == |d| && (offs + len) / 4 < |d| && CellsRead(s, len, offs) <= |s| &&
    (forall k :: 0 <= k < |d| && (k < offs / 4 || (offs + len) / 4 < k) ==> r[k] == d[k]) &&
    (forall k :: offs / 4 <= k <= (offs + len) / 4 ==> HoldsPacked(r[k], d, s, len, offs, k))
  }

  /** Cell `k` of the result. */
  ghost predicate HoldsPacked(w: Word, d: seq<Word>, s: seq<Word>, len: nat, offs: nat, k: nat)
    requires CellsRead(s, len, offs) <= |s| && k < |d|
  {
    forall c :: 0 <= c < 4 ==> CharOf(w, c) == PackedChar(d, s, len, offs, 4 * k + c)
  }

  lemma Assemble(d: seq<Word>, s: seq<Word>, len: nat, offs: nat, r: seq<Word>, last: nat)
    requires |r| == |d| && last == (offs + len) / 4 < |d| && CellsRead(s, len, offs) <= |s|
    requires forall k :: 0 <= k < |d| && (k < offs / 4 || last < k) ==> r[k] == d[k]
    requires forall k :: offs / 4 <= k < last ==> HoldsPacked(r[k], d, s, len, offs, k)
    requires HoldsPacked(r[last], d, s, len, offs, last)
    ensures Packs(d, s, len, offs, r)
  {
  }

  lemma CharInCell(s: seq<Word>, k: nat, c: nat)
    requires k < |s| && c < 4
    ensures CharAt(s, 4 * k + c) == CharOf(s[k], c)
  {
  }

  /** A moved cell of the source before the last one. */
  lemma MovedCell(d: seq<Word>, s: seq<Word>, len: nat, offs: nat, k: nat)
    requires IsPacked(s) && offs % 4 == 0 && CellsRead(s, len, offs) <= |s|
    requires k < |d| && offs / 4 <= k < (offs + len) / 4
    ensures HoldsPacked(s[k - offs / 4], d, s, len, offs, k)
  {
    hide CharOf;
    var w := s[k - offs / 4];
    forall c | 0 <= c < 4
      ensures CharOf(w, c) == PackedChar(d, s, len, offs, 4 * k + c)
    {
      assert CharAt(s, 4 * (k - offs / 4) + c) == CharOf(w, c);
    }
  }

  /** The last cell, cleared from the terminator on; a full last character cell is followed by one of zeros. */
  lemma ClearedCell(w: Word, v: Word, d: seq<Word>, s: seq<Word>, len: nat, offs: nat)
    requires IsPacked(s) && offs % 4 == 0 && CellsRead(s, len, offs) <= |s| && (offs + len) / 4 < |d|
    requires len % 4 != 0 ==> w == s[len / 4]
    requires forall c :: 0 <= c < 4 ==> CharOf(v, c) == if c < len % 4 then CharOf(w, c) else 0
    ensures HoldsPacked(v, d, s, len, offs, (offs + len) / 4)
  {
    hide CharOf, CharAt;
    var last, m, n := (offs + len) / 4, len / 4, len % 4;
    assert len == 4 * m + n && offs == 4 * (last - m);
    forall c | 0 <= c < 4
      ensures CharOf(v, c) == PackedChar(d, s, len, offs, 4 * last + c)
    {
      if c < n {
        CharInCell(s, m, c);
      }
    }
  }

  /** The source is packed and the destination aligned: cells are moved, and the rest of the last one is cleared
      byte by byte. */
  method PackAligned(dest: array<Word>, source: array<Word>, len: nat, offs: nat)
    requires IsPacked(source[..]) && offs % 4 == 0 && (offs + len) / 4 < dest.Length
    requires (len + 3) / 4 <= source.Length && (dest != source || offs == 0)
    modifies dest
    ensures Packs(old(dest[..]), old(source[..]), len, offs, dest[..])
  {
    ghost var d, s := dest[..], source[..];
    assert CellsRead(s, len, offs) <= |s|;
    hide CharOf, StoreByte, HoldsPacked, CellsRead, Packs;
    var base, cells := offs / 4, (len + 3) / 4;
    forall j | 0 <= j < cells {
      dest[base + j] := source[j];
    }
    var last := base + len / 4;
    var n := if len % 4 == 0 then 4 else 4 - len % 4;
    ghost var w := dest[last];
    assert len % 4 != 0 ==> w == s[len / 4];
    forall k | base <= k < last
      ensures dest[k] == s[k - base] && HoldsPacked(dest[k], d, s, len, offs, k)
    {
      MovedCell(d, s, len, offs, k);
    }
    for b := 0 to n
      invariant forall k :: 0 <= k < dest.Length && (k < base || last < k) ==> dest[k] == d[k]
      invariant forall k :: base <= k < last ==> HoldsPacked(dest[k], d, s, len, offs, k)
      invariant forall c :: 0 <= c < 4 ==> CharOf(dest[last], c) == if c < 4 - b then CharOf(w, c) else 0
    {
      StoreByteChars(dest[last], b, 0);
      dest[last] := StoreByte(dest[last], b, 0);
    }
    ClearedCell(w, dest[last], d, s, len, offs);
    Assemble(d, s, len, offs, dest[..], last);
  }

  /** A destination cell of an unaligned copy: what was left over, and the first characters of the next cell. */
  function Joined(previous: Word, next: Word, o: nat): Word
    requires 0 < o < 4 && OnlyFirst(previous, o)
  {
    JoinedDisjoint(previous, next, o);
    Or(previous, Low(Right(next, o), o))
  }

  /** What the next destination cell starts with. */
  function Rest(next: Word, o: nat): Word
    requires 0 < o < 4
  {
    High(Left(next, 4 - o), o)
  }

  ghost predicate OnlyFirst(w: Word, o: nat) {
    forall k :: o <= k < 4 ==> CharOf(w, k) == 0
  }

  lemma JoinedDisjoint(previous: Word, next: Word, o: nat)
    requires 0 < o < 4 && OnlyFirst(previous, o)
    ensures Disjoint(previous, Low(Right(next, o), o))
  {
    hide CharOf, Low, Right;
    forall k | 0 <= k < o
      ensures CharOf(Low(Right(next, o), o), k) == 0
    {
      LowChars(Right(next, o), o, k);
    }
  }

  lemma JoinedChars(previous: Word, next: Word, o: nat, k: nat)
    requires 0 < o < 4 && OnlyFirst(previous, o) && k < 4
    ensures CharOf(Joined(previous, next, o), k) == if k < o then CharOf(previous, k) else CharOf(next, k - o)
  {
    hide CharOf, Low, Right;
    JoinedDisjoint(previous, next, o);
    DisjointSum(previous, Low(Right(next, o), o));
    LowChars(Right(next, o), o, k);
    RightChars(next, o, k);
  }

  lemma RestChars(next: Word, o: nat, k: nat)
    requires 0 < o < 4 && k < 4
    ensures CharOf(Rest(next, o), k) == if k < o then CharOf(next, k + 4 - o) else 0
  {
    hide CharOf, High, Left;
    HighChars(Left(next, 4 - o), o, k);
    LeftChars(next, 4 - o, k);
  }

  /** Position `p` while the characters after the end of the source have not been cleared. */
  function Straddled(d: seq<Word>, s: seq<Word>, offs: nat, p: nat): Char
    requires if p < offs then p < 4 * |d| else p - offs < 4 * |s|
  {
    if p < offs then CharAt(d, p) else CharAt(s, p - offs)
  }

  ghost predicate HoldsStraddled(w: Word, d: seq<Word>, s: seq<Word>, offs: nat, k: nat)
    requires k < |d| && 4 * k + 4 <= offs + 4 * |s|
  {
    forall c :: 0 <= c < 4 ==> CharOf(w, c) == Straddled(d, s, offs, 4 * k + c)
  }

  /** `w` holds the characters that destination cell `k` starts with. */
  ghost predicate Leads(w: Word, d: seq<Word>, s: seq<Word>, offs: nat, k: nat)
    requires offs / 4 <= k <= offs / 4 + |s| && (k == offs / 4 ==> k < |d|)
  {
    OnlyFirst(w, offs % 4) && forall c :: 0 <= c < offs % 4 ==> CharOf(w, c) == Straddled(d, s, offs, 4 * k + c)
  }

  lemma FirstLeads(d: seq<Word>, s: seq<Word>, offs: nat)
    requires offs % 4 != 0 && offs / 4 < |d|
    ensures Leads(High(d[offs / 4], offs % 4), d, s, offs, offs / 4)
  {
    hide CharOf, High;
    forall c | 0 <= c < 4
      ensures CharOf(High(d[offs / 4], offs % 4), c) == if c < offs % 4 then CharOf(d[offs / 4], c) else 0
    {
      HighChars(d[offs / 4], offs % 4, c);
    }
    assert forall c :: 0 <= c < offs % 4 ==> CharAt(d, offs / 4 * 4 + c) == CharOf(d[offs / 4], c);
  }

  /** One cell of an unaligned copy. */
  lemma UnalignedStep(c: Word, d: seq<Word>, s: seq<Word>, offs: nat, j: nat)
    requires offs % 4 != 0 && offs / 4 + j < |d| && j < |s| && Leads(c, d, s, offs, offs / 4 + j)
    ensures HoldsStraddled(Joined(c, s[j], offs % 4), d, s, offs, offs / 4 + j)
    ensures Leads(Rest(s[j], offs % 4), d, s, offs, offs / 4 + j + 1)
  {
    hide CharOf, Joined, Rest;
    var o := offs % 4;
    forall k | 0 <= k < 4
      ensures CharOf(Joined(c, s[j], o), k) == Straddled(d, s, offs, 4 * (offs / 4 + j) + k)
    {
      JoinedChars(c, s[j], o, k);
    }
    forall k | 0 <= k < 4
      ensures CharOf(Rest(s[j], o), k) == if k < o then Straddled(d, s, offs, 4 * (offs / 4 + j + 1) + k) else 0
    {
      RestChars(s[j], o, k);
    }
  }

  /** The source is packed and the destination is not aligned. */
  method PackUnaligned(dest: array<Word>, source: array<Word>, len: nat, offs: nat)
    requires IsPacked(source[..]) && offs % 4 != 0 && (offs + len) / 4 < dest.Length
    requires (offs % 4 + len) / 4 < source.Length && dest != source
    modifies dest
    ensures Packs(old(dest[..]), old(source[..]), len, offs, dest[..])
  {
    hide CharOf, High, Rest, Joined, HoldsStraddled, Leads, HoldsPacked;
    ghost var d, s := dest[..], source[..];
    var base, o := offs / 4, offs % 4;
    var c := High(dest[base], o);
    FirstLeads(d, s, offs);
    var j := 0;
    while 4 * j < len + o + 1
      invariant 0 <= j <= (len + o) / 4 + 1
      invariant forall k :: 0 <= k < dest.Length && (k < base || base + j <= k) ==> dest[k] == d[k]
      invariant Leads(c, d, s, offs, base + j)
      invariant forall k :: base <= k < base + j ==> HoldsStraddled(dest[k], d, s, offs, k)
    {
      UnalignedStep(c, d, s, offs, j);
      LeadsFirst(c, d, s, offs, base + j);
      dest[base + j] := Joined(c, source[j], o);
      c := Rest(source[j], o);
      j := j + 1;
    }
    var last := base + j - 1;
    assert last == (offs + len) / 4;
    forall k | base <= k < last
      ensures HoldsPacked(dest[k], d, s, len, offs, k)
    {
      StraddledInside(dest[k], d, s, len, offs, k);
    }
    Terminated(dest[last], d, s, len, offs);
    dest[last] := High(dest[last], (o + len) % 4);
  }

  lemma LeadsFirst(w: Word, d: seq<Word>, s: seq<Word>, offs: nat, k: nat)
    requires offs / 4 <= k <= offs / 4 + |s| && (k == offs / 4 ==> k < |d|) && Leads(w, d, s, offs, k)
    ensures OnlyFirst(w, offs % 4)
  {
  }

  lemma StraddledInside(w: Word, d: seq<Word>, s: seq<Word>, len: nat, offs: nat, k: nat)
    requires IsPacked(s) && CellsRead(s, len, offs) <= |s| && offs % 4 != 0
    requires k < |d| && offs / 4 <= k < (offs + len) / 4 && HoldsStraddled(w, d, s, offs, k)
    ensures HoldsPacked(w, d, s, len, offs, k)
  {
    hide CharOf, CharAt;
  }

  /** Clearing the last cell from the terminator on. */
  lemma Terminated(w: Word, d: seq<Word>, s: seq<Word>, len: nat, offs: nat)
    requires IsPacked(s) && CellsRead(s, len, offs) <= |s| && offs % 4 != 0
    requires (offs + len) / 4 < |d| && HoldsStraddled(w, d, s, offs, (offs + len) / 4)
    ensures HoldsPacked(High(w, (offs % 4 + len) % 4), d, s, len, offs, (offs + len) / 4)
  {
    hide CharOf, CharAt, High;
    var last, n := (offs + len) / 4, (offs % 4 + len) % 4;
    assert 4 * last + n == offs + len;
    forall c | 0 <= c < 4
      ensures CharOf(High(w, n), c) == PackedChar(d, s, len, offs, 4 * last + c)
    {
      HighChars(w, n, c);
      assert CharOf(w, c) == Straddled(d, s, offs, 4 * last + c);
    }
  }

  // ---------- Unpacked sources ----------

  /** `c` has collected the first `n` characters of cell `k`. */
  ghost predicate Collected(c: Word, d: seq<Word>, s: seq<Word>, len: nat, offs: nat, k: nat, n: nat)
    requires CellsRead(s, len, offs) <= |s| && k < |d| && n < 4
  {
    forall j :: 0 <= j < 4 ==> CharOf(c, j) == if j < 4 - n then 0 else PackedChar(d, s, len, offs, 4 * k + j - (4 - n))
  }

  lemma FirstCollected(d: seq<Word>, s: seq<Word>, len: nat, offs: nat)
    requires CellsRead(s, len, offs) <= |s| && offs / 4 < |d|
    ensures Collected(Right(High(d[offs / 4], offs % 4), 4 - offs % 4), d, s, len, offs, offs / 4, offs % 4)
  {
    hide CharOf, Right, High;
    var o, w := offs % 4, d[offs / 4];
    var first := Right(High(w, o), 4 - o);
    forall j | 0 <= j < 4
      ensures CharOf(first, j) == if j < 4 - o then 0 else CharOf(w, j - (4 - o))
    {
      RightChars(High(w, o), 4 - o, j);
      if j >= 4 - o {
        HighChars(w, o, j - (4 - o));
      }
    }
    forall i | 0 <= i < o
      ensures CharAt(d, 4 * (offs / 4) + i) == CharOf(w, i)
    {
    }
  }

  /** `(c << 8) | (x & 0xff)`. */
  function Append(c: Word, x: Word): Word {
    AppendDisjoint(c, x);
    Or(Left(c, 1), x % 256)
  }

  lemma AppendDisjoint(c: Word, x: Word)
    ensures Disjoint(Left(c, 1), x % 256)
    ensures forall j :: 0 <= j < 3 ==> CharOf(x % 256, j) == 0
    ensures CharOf(Left(c, 1), 3) == 0 && CharOf(x % 256, 3) == x % 256
  {
    LeftChars(c, 1, 3);
  }

  lemma AppendChars(c: Word, x: Word, j: nat)
    requires j < 4
    ensures CharOf(Append(c, x), j) == if j < 3 then CharOf(c, j + 1) else x % 256
  {
    hide CharOf, Left;
    AppendDisjoint(c, x);
    DisjointSum(Left(c, 1), x % 256);
    LeftChars(c, 1, j);
  }

  lemma CollectStep(c: Word, d: seq<Word>, s: seq<Word>, len: nat, offs: nat, k: nat, n: nat)
    requires !IsPacked(s) && len <= |s| && k < |d| && n < 4 && offs <= 4 * k + n < offs + len
    requires Collected(c, d, s, len, offs, k, n)
    ensures n == 3 ==> HoldsPacked(Append(c, s[4 * k + n - offs]), d, s, len, offs, k)
    ensures n != 3 ==> Collected(Append(c, s[4 * k + n - offs]), d, s, len, offs, k, n + 1)
  {
    hide CharOf, Append, CharAt;
    var more := Append(c, s[4 * k + n - offs]);
    forall j | 0 <= j < 4
      ensures CharOf(more, j) == if j < 3 - n then 0 else PackedChar(d, s, len, offs, 4 * k + j - (3 - n))
    {
      AppendChars(c, s[4 * k + n - offs], j);
    }
  }

  /** The last cell. */
  lemma CollectedLast(c: Word, d: seq<Word>, s: seq<Word>, len: nat, offs: nat, k: nat, n: nat)
    requires !IsPacked(s) && len <= |s| && k < |d| && n < 4 && offs + len == 4 * k + n
    requires Collected(c, d, s, len, offs, k, n)
    ensures HoldsPacked(Left(c, 4 - n), d, s, len, offs, k)
    ensures n == 0 ==> HoldsPacked(0, d, s, len, offs, k)
  {
    hide CharOf, Left, CharAt;
    ZeroChars();
    var last := Left(c, 4 - n);
    forall j | 0 <= j < 4
      ensures CharOf(last, j) == PackedChar(d, s, len, offs, 4 * k + j)
    {
      LeftChars(c, 4 - n, j);
      if j < n {
        var i := j + 4 - n;
        assert CharOf(c, i) == PackedChar(d, s, len, offs, 4 * k + i - (4 - n));
      }
    }
    if n == 0 {
      forall j | 0 <= j < 4
        ensures CharOf(0, j) == PackedChar(d, s, len, offs, 4 * k + j)
      {
      }
    }
  }

  lemma NothingCollected(d: seq<Word>, s: seq<Word>, len: nat, offs: nat, k: nat)
    requires CellsRead(s, len, offs) <= |s| && k < |d|
    ensures Collected(0, d, s, len, offs, k, 0)
  {
    ZeroChars();
  }

  lemma NextPlace(i: nat)
    ensures (i + 1) % 4 == if i % 4 == 3 then 0 else i % 4 + 1
  {
  }

  /** The cell that packing starts in, the place in it, and the characters before that place. */
  method FirstCell(dest: array<Word>, offs: nat, ghost s: seq<Word>, ghost len: nat)
    returns (c: Word, cell: nat, o: nat)
    requires offs / 4 < dest.Length && CellsRead(s, len, offs) <= |s|
    ensures cell == offs / 4 && o == offs % 4 && Collected(c, dest[..], s, len, offs, cell, o)
  {
    hide CharOf, Collected;
    if offs == 0 {
      NothingCollected(dest[..], s, len, 0, 0);
      return 0, 0, 0;
    }
    cell, o := offs / 4, offs % 4;
    c := Right(High(dest[cell], o), 4 - o);
    FirstCollected(dest[..], s, len, offs);
  }

  /** The source is unpacked: characters are collected from the top of each cell down. */
  method PackFromUnpacked(dest: array<Word>, source: array<Word>, len: nat, offs: nat)
    requires !IsPacked(source[..]) && (offs + len) / 4 < dest.Length
    requires len <= source.Length && (dest != source || offs == 0)
    modifies dest
    ensures Packs(old(dest[..]), old(source[..]), len, offs, dest[..])
  {
    ghost var d, s := dest[..], source[..];
    assert CellsRead(s, len, offs) <= |s|;
    hide CharOf, Left, Append, Collected, HoldsPacked, IsPacked, CellsRead, Packs;
    var c, cell, o := FirstCell(dest, offs, s, len);
    ghost var base := cell;
    var i := o;
    while i < len + o
      invariant o <= i <= len + o && offs + i - o == 4 * cell + i % 4
      invariant forall k :: 0 <= k < dest.Length && (k < base || cell <= k) ==> dest[k] == d[k]
      invariant forall k :: i - o <= k < len ==> source[k] == s[k]
      invariant forall k :: base <= k < cell ==> HoldsPacked(dest[k], d, s, len, offs, k)
      invariant Collected(c, d, s, len, offs, cell, i % 4)
    {
      CollectStep(c, d, s, len, offs, cell, i % 4);
      NextPlace(i);
      c := Append(c, source[i - o]);
      if i % 4 == 3 {
        dest[cell] := c;
        cell := cell + 1;
        c := 0;
        NothingCollected(d, s, len, offs, cell);
      }
      i := i + 1;
    }
    CollectedLast(c, d, s, len, offs, cell, i % 4);
    if i % 4 != 0 {
      dest[cell] := Left(c, 4 - i % 4);
    } else {
      dest[cell] := 0;
    }
    Assemble(d, s, len, offs, dest[..], cell);
  }

  /** `amx_StrPack`. */
  method StrPack(dest: array<Word>, source: array<Word>, len: nat, offs: nat)
    requires source.Length > 0 && (offs + len) / 4 < dest.Length
    requires CellsRead(source[..], len, offs) <= source.Length && (dest != source || offs == 0)
    modifies dest
    ensures Packs(old(dest[..]), old(source[..]), len, offs, dest[..])
  {
    if source[0] > UNPACKED_MAX && offs % 4 == 0 {
      PackAligned(dest, source, len, offs);
    } else if source[0] > UNPACKED_MAX {
      PackUnaligned(dest, source, len, offs);
    } else {
      PackFromUnpacked(dest, source, len, offs);
    }
  }

  /** The first `len` characters of a string in either format. */
  function SourceChars(s: seq<Word>, len: nat): (chars: seq<Char>)
    requires if IsPacked(s) then len <= 4 * |s| else len <= |s|
    ensures |chars| == len
  {
    seq(len, j requires 0 <= j < len => SourceChar(s, j))
  }

  lemma PackedLength(d: seq<Word>, s: seq<Word>, len: nat, offs: nat, r: seq<Word>)
    requires Packs(d, s, len, offs, r)
    ensures |r| == |d| && offs + len < 4 * |d|
  {
  }

  lemma PackedPosition(d: seq<Word>, s: seq<Word>, len: nat, offs: nat, r: seq<Word>, p: nat)
    requires Packs(d, s, len, offs, r) && p <= offs + len
    ensures CharAt(r, p) == if p < offs then CharAt(d, p) else if p < offs + len then SourceChar(s, p - offs) else 0
  {
    hide CharOf, SourceChar;
    if p < offs / 4 * 4 {
      assert r[p / 4] == d[p / 4];
    } else {
      assert HoldsPacked(r[p / 4], d, s, len, offs, p / 4);
      assert CharOf(r[p / 4], p % 4) == PackedChar(d, s, len, offs, 4 * (p / 4) + p % 4);
    }
  }

  /** Packing is concatenation: read as a packed string, the result is the first `offs` characters of the
      destination followed by the first `len` characters of the source. */
  lemma PackConcatenates(d: seq<Word>, s: seq<Word>, len: nat, offs: nat, r: seq<Word>)
    requires Packs(d, s, len, offs, r)
    requires forall p :: 0 <= p < offs ==> CharAt(d, p) != 0
    requires if IsPacked(s) then len <= 4 * |s| else len <= |s|
    requires forall j :: 0 <= j < len ==> SourceChar(s, j) != 0
    ensures PackedText(r, 0) == Chars(d, offs) + SourceChars(s, len)
  {
    hide CharOf, CharAt, SourceChar, Packs, CellsRead;
    PackedLength(d, s, len, offs, r);
    forall p | 0 <= p <= offs + len
      ensures CharAt(r, p) == if p < offs then CharAt(d, p) else if p < offs + len then SourceChar(s, p - offs) else 0
    {
      PackedPosition(d, s, len, offs, r, p);
    }
    TextIs(r, 0, offs + len);
  }

  // ---------- Unpacking ----------

  /** What unpacking stores for the `j`th character: an unpacked source is copied as it is. */
  function SourceCell(s: seq<Word>, j: nat): Word
    requires if IsPacked(s) then j < 4 * |s| else j < |s|
  {
    if IsPacked(s) then CharAt(s, j) else s[j]
  }

  /** `amx_StrUnpack`; the destination may be the source. */
  method StrUnpack(dest: array<Word>, source: array<Word>, len: nat)
    requires source.Length > 0 && len < dest.Length
    requires if source[0] > UNPACKED_MAX then len <= 4 * source.Length else len <= source.Length
    modifies dest
    ensures forall j :: 0 <= j < len ==> dest[j] == SourceCell(old(source[..]), j)
    ensures dest[len] == 0
    ensures forall j :: len < j < dest.Length ==> dest[j] == old(dest[j])
  {
    ghost var s := source[..];
    if source[0] > UNPACKED_MAX {
      hide CharOf;
      var i: int := len - 1;
      while i >= 0
        invariant -1 <= i < len
        invariant forall j :: 0 <= j < source.Length && (j < i + 1 || source != dest) ==> source[j] == s[j]
        invariant forall j :: i < j < len ==> dest[j] == SourceCell(s, j)
        invariant forall j :: len <= j < dest.Length ==> dest[j] == old(dest[j])
      {
        var c := CharOf(source[i / 4], i % 4);
        assert c == SourceCell(s, i);
        dest[i] := c;
        i := i - 1;
      }
      dest[len] := 0;
    } else {
      var i := 0;
      while i < len
        invariant 0 <= i <= len
        invariant source == dest ==> dest[..] == s
        invariant forall j :: 0 <= j < i ==> dest[j] == s[j]
        invariant forall j :: len <= j < dest.Length ==> dest[j] == old(dest[j])
      {
        dest[i] := source[i];
        i := i + 1;
      }
      dest[len] := 0;
    }
  }

  /** Unpacking undoes packing, for characters that are not zero. */
  lemma UnpackUndoesPack(d: seq<Word>, s: seq<Word>, len: nat, r: seq<Word>, j: nat)
    requires !IsPacked(s) && Packs(d, s, len, 0, r) && j < len
    requires forall k :: 0 <= k < len ==> 0 < s[k] < 256
    ensures IsPacked(r) && SourceCell(r, j) == s[j]
  {
    hide CharOf;
    assert HoldsPacked(r[0], d, s, len, 0, 0);
    assert CharOf(r[0], 0) == PackedChar(d, s, len, 0, 0) == s[0];
    PackedIff(r);
    assert HoldsPacked(r[j / 4], d, s, len, 0, j / 4);
    assert CharOf(r[j / 4], j % 4) == PackedChar(d, s, len, 0, 4 * (j / 4) + j % 4);
  }
}
