/** One line of uuencoded data, in the uuencode utility's "uuencode Historical Algorithm" (POSIX.1-2017). */
module Uuencode {

  type Byte = x: int | 0 <= x < 256

  type Char = x: int | -128 <= x < 128

  const LIMIT := 63

  function Enc(c: int): (e: Char)
    ensures 32 < e <= 96
  {
    if c % 64 == 0 then 0x60 else c % 64 + 32
  }

  function Dec(c: int): (d: nat)
    ensures d < 64
  {
    (c - 32) % 64
  }

  lemma DecEnc(c: int)
    ensures Dec(Enc(c)) == c % 64
  {
  }

  // ---------- The format ----------

  /** The `i`th byte of a block; the last group is filled up with zeros. */
  function ByteAt(block: seq<Byte>, i: nat): Byte {
    if i < |block| then block[i] else 0
  }

  /** The three bytes from `p` on, as one number. */
  function Triple(block: seq<Byte>, p: nat): nat {
    ByteAt(block, p) * 0x1_0000 + ByteAt(block, p + 1) * 0x100 + ByteAt(block, p + 2)
  }

  /** The four digits to base 64 of a triple, as characters. */
  function Digits(v: nat): (s: seq<Char>)
    ensures |s| == 4
  {
    [Enc(v / 0x4_0000), Enc(v / 0x1000), Enc(v / 0x40), Enc(v)]
  }

  /** The characters of the groups from `p` on; a partial group has one digit more than it has bytes. */
  function Groups(block: seq<Byte>, p: nat): (s: seq<Char>)
    ensures |s| == if p >= |block| then 0 else CharsNeeded(|block| - p)
    decreases |block| - p
  {
    if p >= |block| then []
    else if p + 3 <= |block| then Digits(Triple(block, p)) + Groups(block, p + 3)
    else Digits(Triple(block, p))[..|block| - p + 1]
  }

  function CharsNeeded(n: nat): nat {
    n / 3 * 4 + if n % 3 == 0 then 0 else n % 3 + 1
  }

  /** The line: the length and the groups. */
  function Encoded(block: seq<Byte>): seq<Char> {
    [Enc(|block|)] + Groups(block, 0)
  }

  /** The lines of "C", "Ca" and "Cat". */
  lemma KnownLines()
    ensures Encoded([67]) == [33, 48, 80]
    ensures Encoded([67, 97]) == [34, 48, 86, 36]
    ensures Encoded([67, 97, 116]) == [35, 48, 86, 37, 84]
  {
    KnownCharacters();
    hide Enc, Triple, Groups;
    OneGroup([67]);
    OneGroup([67, 97]);
    OneGroup([67, 97, 116]);
    KnownTriples();
  }

  lemma KnownCharacters()
    ensures Enc(1) == 33 && Enc(2) == 34 && Enc(3) == 35
    ensures Digits(0x43_0000) == [48, 80, 96, 96] && Digits(0x43_6100) == [48, 86, 36, 96] && Digits(0x43_6174) == [48, 86, 37, 84]
  {
  }

  lemma KnownTriples()
    ensures Triple([67], 0) == 0x43_0000 && Triple([67, 97], 0) == 0x43_6100 && Triple([67, 97, 116], 0) == 0x43_6174
  {
  }

  lemma OneGroup(block: seq<Byte>)
    requires 1 <= |block| <= 3
    ensures Groups(block, 0) == Digits(Triple(block, 0))[..|block| + 1]
  {
    hide Digits, Triple;
    assert |block| == 3 ==> Groups(block, 3) == [];
  }

  // ---------- Encoding ----------

  /** The four sextets of three bytes, as the encoder combines them; what a short group lacks counts as zero. */
  lemma Sextets(a: Byte, b: Byte, c: Byte)
    ensures var v := a * 0x1_0000 + b * 0x100 + c;
      Enc(a / 4) == Enc(v / 0x4_0000) && Enc(a * 16 + b / 16) == Enc(v / 0x1000) &&
      Enc(b * 4 + c / 64) == Enc(v / 0x40) && Enc(c) == Enc(v)
  {
    var v: int := a * 0x1_0000 + b * 0x100 + c;
    assert v / 0x4_0000 == a / 4;
    assert v / 0x1000 == a * 16 + b / 16;
    assert v / 0x40 == a * 1024 + b * 4 + c / 64;
    SameSextet(a * 16, b * 4 + c / 64);
    SameSextet(a * 1024 + b * 4, c);
  }

  lemma SameSextet(high: int, low: int)
    ensures Enc(high * 64 + low) == Enc(low)
  {
  }

  /** The characters of a group of up to three bytes. */
  function GroupSize(left: nat): nat {
    if left >= 3 then 4 else left + 1
  }

  /** Encodes the bytes from `p` on, `left` of which are left, as one group. */
  method EncodeGroup(target: array<Char>, start: nat, source: seq<Byte>, p: nat, left: nat) returns (t: nat)
    requires 0 < left && p + left <= |source| && start + GroupSize(left) <= target.Length
    modifies target
    ensures t == start + GroupSize(left)
    ensures target[start..t] == Digits(Triple(source[..p + left], p))[..GroupSize(left)]
    ensures forall i :: 0 <= i < target.Length && !(start <= i < t) ==> target[i] == old(target[i])
  {
    hide Enc;
    var a := source[p];
    var b: Byte, c: Byte := 0, 0;
    if left > 1 {
      b := source[p + 1];
      if left > 2 {
        c := source[p + 2];
      }
    }
    Sextets(a, b, c);
    t := start;
    target[t], target[t + 1] := Enc(a / 4), Enc(a * 16 + b / 16);
    t := t + 2;
    if left > 1 {
      target[t] := Enc(b * 4 + c / 64);
      t := t + 1;
    }
    if left > 2 {
      target[t] := Enc(c);
      t := t + 1;
    }
  }

  /** Encodes the groups behind the length. */
  method EncodeGroups(target: array<Char>, block: seq<Byte>) returns (t: nat)
    requires CharsNeeded(|block|) + 1 < target.Length && target[0] == Enc(|block|)
    modifies target
    ensures t == CharsNeeded(|block|) + 1 && target[..t] == Encoded(block)
    ensures forall i :: t <= i < target.Length ==> target[i] == old(target[i])
  {
    ghost var n := CharsNeeded(|block|) + 1;
    LineStarts(block);
    hide Enc, Groups, Triple, Digits, CharsNeeded, Encoded, Written;
    assert target[..1] == [Enc(|block|)];
    t := 1;
    var p, left: int := 0, |block|;
    while left > 0
      invariant left == |block| - p && 1 <= t <= n && n == t + (if left > 0 then CharsNeeded(left) else 0)
      invariant Written(target[..t], block, p)
      invariant forall i :: n <= i < target.Length ==> target[i] == old(target[i])
    {
      GroupWritten(target[..t], block, p);
      NeededStep(left);
      ghost var before := target[..t];
      assert block[..p + left] == block;
      var next := EncodeGroup(target, t, block, p, left);
      assert target[..next] == before + Digits(Triple(block, p))[..GroupSize(left)];
      t, p, left := next, p + 3, left - 3;
    }
    LineEnds(target[..t], block, p);
  }

  /** `uuencode`: lines hold up to 63 bytes. */
  method Encode(target: array<Char>, source: seq<Byte>, length: nat) returns (ok: bool)
    requires length <= |source| && (length <= LIMIT ==> CharsNeeded(length) + 1 < target.Length)
    modifies target
    ensures ok <==> length <= LIMIT
    ensures !ok ==> target[..] == old(target[..])
    ensures ok ==> var n := CharsNeeded(length) + 1;
      target[..n] == Encoded(source[..length]) && target[n] == 0 &&
      forall i :: n < i < target.Length ==> target[i] == old(target[i])
  {
    if length > LIMIT {
      return false;
    }
    hide Enc, CharsNeeded, Encoded;
    target[0] := Enc(length);
    var t := EncodeGroups(target, source[..length]);
    target[t] := 0;
    ok := true;
  }

  /** What has been written of the line, with the bytes from `p` on still to come. */
  ghost predicate Written(start: seq<Char>, block: seq<Byte>, p: nat) {
    start + Groups(block, p) == Encoded(block)
  }

  lemma LineStarts(block: seq<Byte>)
    ensures Written([Enc(|block|)], block, 0) && CharsNeeded(0) == 0
  {
  }

  lemma GroupWritten(start: seq<Char>, block: seq<Byte>, p: nat)
    requires p < |block| && Written(start, block, p)
    ensures Written(start + Digits(Triple(block, p))[..GroupSize(|block| - p)], block, p + 3)
  {
    GroupIs(block, p);
  }

  lemma LineEnds(start: seq<Char>, block: seq<Byte>, p: nat)
    requires p >= |block| && Written(start, block, p)
    ensures start == Encoded(block)
  {
    assert start + [] == start;
  }

  lemma NeededStep(left: nat)
    requires left > 0
    ensures CharsNeeded(left) == GroupSize(left) + if left > 3 then CharsNeeded(left - 3) else 0
  {
  }

  /** One group, and those after it. */
  lemma GroupIs(block: seq<Byte>, p: nat)
    requires p < |block|
    ensures Groups(block, p) == Digits(Triple(block, p))[..GroupSize(|block| - p)] + Groups(block, p + 3)
  {
  }

  // ---------- Decoding ----------

  /** The bytes of a group from its digits. */
  function Bytes(x: nat, y: nat, z: nat, w: nat): (s: seq<Byte>)
    requires x < 64 && y < 64 && z < 64 && w < 64
    ensures |s| == 3
  {
    [x * 4 + y / 16, y % 16 * 16 + z / 4, z % 4 * 64 + w]
  }

  function CharAt(text: seq<Char>, i: nat): Char {
    if i < |text| then text[i] else 0
  }

  /** The `len` bytes that the characters from `q` on stand for. */
  function Decoded(text: seq<Char>, q: nat, len: nat): (s: seq<Byte>)
    ensures |s| == len
    decreases len
  {
    var group := Bytes(Dec(CharAt(text, q)), Dec(CharAt(text, q + 1)), Dec(CharAt(text, q + 2)), Dec(CharAt(text, q + 3)));
    if len <= 3 then group[..len] else group + Decoded(text, q + 4, len - 3)
  }

  /** Decodes one group; no character is read that the bytes do not need. */
  method DecodeGroup(target: array<Byte>, start: nat, source: seq<Char>, q: nat, len: nat) returns (t: nat)
    requires 0 < len && q + GroupSize(len) <= |source| && start + (if len < 3 then len else 3) <= target.Length
    modifies target
    ensures t == start + if len < 3 then len else 3
    ensures target[start..t] == Decoded(source, q, len)[..t - start]
    ensures forall i :: 0 <= i < target.Length && !(start <= i < t) ==> target[i] == old(target[i])
  {
    hide Dec;
    t := start;
    target[t] := Dec(source[q]) * 4 + Dec(source[q + 1]) / 16;
    t := t + 1;
    if len > 1 {
      target[t] := Dec(source[q + 1]) % 16 * 16 + Dec(source[q + 2]) / 4;
      t := t + 1;
    }
    if len > 2 {
      target[t] := Dec(source[q + 2]) % 4 * 64 + Dec(source[q + 3]);
      t := t + 1;
    }
  }

  /** `uudecode`: the first character is the length. */
  method Decode(target: array<Byte>, source: seq<Char>) returns (size: nat)
    requires source != [] && CharsNeeded(Dec(source[0])) < |source| && Dec(source[0]) <= target.Length
    modifies target
    ensures size == Dec(source[0])
    ensures target[..size] == Decoded(source, 1, size)
    ensures forall i :: size <= i < target.Length ==> target[i] == old(target[i])
  {
    hide Dec, Decoded;
    size := Dec(source[0]);
    var t, q := 0, 1;
    var len: int := size;
    DecodedNone(source, 1);
    while len > 0
      invariant t <= size && (len >= 0 ==> len == size - t) && (len <= 0 ==> t == size)
      invariant len > 0 ==> q + CharsNeeded(len) <= |source|
      invariant target[..t] + Decoded(source, q, if len > 0 then len else 0) == Decoded(source, 1, size)
      invariant forall i :: size <= i < target.Length ==> target[i] == old(target[i])
    {
      NeededStep(len);
      DecodedStep(source, q, len);
      ghost var before, ahead := target[..t], Decoded(source, q, len);
      ghost var k := if len < 3 then len else 3;
      var next := DecodeGroup(target, t, source, q, len);
      assert target[..next] == before + ahead[..k];
      Regroup(before, ahead, k, Decoded(source, q + 4, len - k));
      t, q, len := next, q + 4, len - 3;
      DecodedNone(source, q);
    }
  }

  lemma Regroup(before: seq<Byte>, ahead: seq<Byte>, k: nat, rest: seq<Byte>)
    requires k <= |ahead| && ahead == ahead[..k] + rest
    ensures before + ahead[..k] + rest == before + ahead
  {
    assert before + ahead[..k] + rest == before + (ahead[..k] + rest);
  }

  lemma DecodedNone(text: seq<Char>, q: nat)
    ensures Decoded(text, q, 0) == []
  {
  }

  lemma DecodedStep(text: seq<Char>, q: nat, len: nat)
    requires len > 0
    ensures var k := if len < 3 then len else 3;
      Decoded(text, q, len) == Decoded(text, q, len)[..k] + Decoded(text, q + 4, len - k)
  {
  }

  // ---------- The round trip ----------

  lemma SextetValues(a: Byte, b: Byte, c: Byte)
    ensures (a / 4) % 64 == a / 4 && (a * 16 + b / 16) % 64 == a % 4 * 16 + b / 16
    ensures (b * 4 + c / 64) % 64 == b % 16 * 4 + c / 64
  {
    Sextet(a * 16 + b / 16, a / 4, a % 4 * 16 + b / 16);
    Sextet(b * 4 + c / 64, b / 16, b % 16 * 4 + c / 64);
  }

  lemma Sextet(x: nat, q: nat, r: nat)
    requires x == 64 * q + r && r < 64
    ensures x % 64 == r
  {
  }

  lemma BytesOfSextets(a: Byte, b: Byte, c: Byte)
    ensures Bytes(a / 4, a % 4 * 16 + b / 16, b % 16 * 4 + c / 64, c % 64) == [a, b, c]
  {
  }

  /** The digits of a triple give its bytes back. */
  lemma BytesOfDigits(a: Byte, b: Byte, c: Byte)
    ensures var s := Digits(a * 0x1_0000 + b * 0x100 + c);
      Bytes(Dec(s[0]), Dec(s[1]), Dec(s[2]), Dec(s[3])) == [a, b, c]
  {
    hide Enc, Dec, Bytes;
    Sextets(a, b, c);
    DecEnc(a / 4);
    DecEnc(a * 16 + b / 16);
    DecEnc(b * 4 + c / 64);
    DecEnc(c);
    SextetValues(a, b, c);
    BytesOfSextets(a, b, c);
  }

  /** A group decodes to its bytes; digits that a short group lacks do not matter. */
  lemma GroupRoundTrip(block: seq<Byte>, p: nat, text: seq<Char>, q: nat, n: nat)
    requires p < |block| && n == |block| - p
    requires forall i :: 0 <= i < GroupSize(n) ==> CharAt(text, q + i) == Digits(Triple(block, p))[i]
    ensures var k := if n < 3 then n else 3; Decoded(text, q, n)[..k] == block[p..p + k]
  {
    hide Enc, Dec, CharAt, Digits;
    var s := Digits(Triple(block, p));
    BytesOfDigits(ByteAt(block, p), ByteAt(block, p + 1), ByteAt(block, p + 2));
    assert CharAt(text, q + 0) == s[0] && CharAt(text, q + 1) == s[1];
    assert n >= 2 ==> CharAt(text, q + 2) == s[2];
    assert n >= 3 ==> CharAt(text, q + 3) == s[3];
  }

  /** The groups of a block decode to the block. */
  lemma {:induction false} GroupsRoundTrip(block: seq<Byte>, p: nat, before: seq<Char>)
    requires p <= |block|
    ensures Decoded(before + Groups(block, p), |before|, |block| - p) == block[p..]
    decreases |block| - p
  {
    hide Digits, Triple, Decoded, Groups;
    var n, text := |block| - p, before + Groups(block, p);
    if n == 0 {
      DecodedNone(text, |before|);
    } else {
      var k := if n < 3 then n else 3;
      GroupIs(block, p);
      var group := Digits(Triple(block, p))[..GroupSize(n)];
      forall i | 0 <= i < GroupSize(n)
        ensures CharAt(text, |before| + i) == Digits(Triple(block, p))[i]
      {
      }
      GroupRoundTrip(block, p, text, |before|, n);
      DecodedStep(text, |before|, n);
      if n >= 3 {
        GroupsRoundTrip(block, p + 3, before + group);
        assert before + group + Groups(block, p + 3) == text;
        assert |before + group| == |before| + 4;
      } else {
        DecodedNone(text, |before| + 4);
      }
      assert block[p..] == block[p..p + k] + block[p + k..];
    }
  }

  /** Decoding undoes encoding, for every block that a line holds. */
  lemma RoundTrip(block: seq<Byte>)
    requires |block| <= LIMIT
    ensures var line := Encoded(block);
      Dec(line[0]) == |block| && CharsNeeded(|block|) < |line| && Decoded(line, 1, |block|) == block
  {
    DecEnc(|block|);
    hide Decoded, Groups, Enc, Dec;
    GroupsRoundTrip(block, 0, [Enc(|block|)]);
    assert block[0..] == block;
  }
}
