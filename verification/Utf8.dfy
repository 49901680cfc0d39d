/** The UTF-8 codec, in the one to six byte form of section 2 of RFC 2279. */
module Utf8 {

  type Byte = x: int | 0 <= x < 256

  const LIMIT := 0x8000_0000

  /** The smallest value that needs `n` bytes. */
  function LowMark(n: nat): nat
    requires 1 <= n <= 7
  {
    [0, 0x80, 0x800, 0x1_0000, 0x20_0000, 0x400_0000, LIMIT][n - 1]
  }

  /** The first byte of a sequence of `n` bytes: its fixed part, and how many values the rest can take. */
  function LeadMark(n: nat): nat
    requires 1 <= n <= 6
  {
    [0, 0xC0, 0xE0, 0xF0, 0xF8, 0xFC][n - 1]
  }

  function LeadRoom(n: nat): nat
    requires 1 <= n <= 6
  {
    [0x80, 0x20, 0x10, 8, 4, 2][n - 1]
  }

  predicate IsFollower(b: Byte) {
    0x80 <= b < 0xC0
  }

  /** `lead` followed by the six bits of each of the first `n` bytes. */
  function Bits(lead: nat, bytes: seq<Byte>, n: nat): nat
    requires n <= |bytes|
  {
    if n == 0 then lead else Bits(lead, bytes, n - 1) * 64 + bytes[n - 1] % 64
  }

  /** `bytes` is the shortest encoding of `v`. */
  ghost predicate Encodes(bytes: seq<Byte>, v: nat) {
    var n := |bytes|;
    && 1 <= n <= 6
    && LeadMark(n) <= bytes[0] < LeadMark(n) + LeadRoom(n)
    && (forall k :: 1 <= k < n ==> IsFollower(bytes[k]))
    && v == Bits(bytes[0] - LeadMark(n), bytes[1..], n - 1)
    && LowMark(n) <= v
  }

  /** Surrogates and the two non-characters at the end of the first plane. */
  predicate Reserved(v: int) {
    0xD800 <= v <= 0xDFFF || v == 0xFFFE || v == 0xFFFF
  }

  predicate Encodable(v: int) {
    0 <= v < LIMIT && !Reserved(v)
  }

  function Length(v: nat): (n: nat)
    ensures 1 <= n <= 6
    ensures v < LIMIT ==> LowMark(n) <= v < LowMark(n + 1)
  {
    if v < 0x80 then 1 else if v < 0x800 then 2 else if v < 0x1_0000 then 3
    else if v < 0x20_0000 then 4 else if v < 0x400_0000 then 5 else 6
  }

  function Follower(v: nat): Byte {
    v % 64 + 0x80
  }

  /** The last `k` groups of six bits, as followers, and what comes before them. */
  function Followers(v: nat, k: nat): (bytes: seq<Byte>)
    ensures |bytes| == k && forall b :: b in bytes ==> IsFollower(b)
  {
    if k == 0 then [] else Followers(v / 64, k - 1) + [Follower(v)]
  }

  function Head(v: nat, k: nat): nat {
    if k == 0 then v else Head(v / 64, k - 1)
  }

  /** The encoding of a value below 2^31. */
  function Encode(v: nat): (bytes: seq<Byte>)
    requires v < LIMIT
    ensures |bytes| == Length(v)
  {
    var n := Length(v);
    HeadFits(v);
    [LeadMark(n) + Head(v, n - 1)] + Followers(v, n - 1)
  }

  lemma {:induction false} HeadBound(v: nat, k: nat, room: nat)
    requires v < room * Pow64(k)
    ensures Head(v, k) < room
  {
    if k > 0 {
      assert room * Pow64(k) == room * Pow64(k - 1) * 64;
      HeadBound(v / 64, k - 1, room);
    }
  }

  lemma HeadFits(v: nat)
    requires v < LIMIT
    ensures Head(v, Length(v) - 1) < LeadRoom(Length(v))
  {
    var n := Length(v);
    RoomFor(n);
    HeadBound(v, n - 1, LeadRoom(n));
  }

  lemma RoomFor(n: nat)
    requires 1 <= n <= 6
    ensures LeadRoom(n) * Pow64(n - 1) == LowMark(n + 1)
  {
    assert Pow64(2) == 64 * Pow64(1) && Pow64(3) == 64 * Pow64(2) && Pow64(4) == 64 * Pow64(3) && Pow64(5) == 64 * Pow64(4);
  }

  lemma {:induction false} BitsOfFollowers(v: nat, k: nat)
    ensures Bits(Head(v, k), Followers(v, k), k) == v
  {
    if k > 0 {
      BitsOfFollowers(v / 64, k - 1);
      BitsPrefix(Head(v, k), Followers(v / 64, k - 1), [Follower(v)], k - 1);
    }
  }

  lemma {:induction false} BitsPrefix(lead: nat, a: seq<Byte>, b: seq<Byte>, n: nat)
    requires n <= |a|
    ensures Bits(lead, a + b, n) == Bits(lead, a, n)
  {
    if n > 0 {
      BitsPrefix(lead, a, b, n - 1);
    }
  }

  /** The encoding consists of a lead byte and followers that make up the value. */
  lemma EncodeEncodes(v: nat)
    requires v < LIMIT
    ensures Encodes(Encode(v), v)
  {
    hide Followers, Bits, Head, LeadRoom;
    var n := Length(v);
    HeadFits(v);
    BitsOfFollowers(v, n - 1);
    assert Encode(v)[1..] == Followers(v, n - 1);
  }

  lemma {:induction false} BitsBound(lead: nat, bytes: seq<Byte>, n: nat, room: nat)
    requires n <= |bytes| && lead < room
    ensures Bits(lead, bytes, n) < room * Pow64(n)
  {
    if n > 0 {
      BitsBound(lead, bytes, n - 1, room);
      assert room * Pow64(n) == room * Pow64(n - 1) * 64;
    }
  }

  function Pow64(n: nat): nat {
    if n == 0 then 1 else 64 * Pow64(n - 1)
  }

  /** The value and the length determine the bytes. */
  lemma {:induction false} BitsInjective(a: nat, x: seq<Byte>, b: nat, y: seq<Byte>, n: nat)
    requires n <= |x| && n <= |y| && Bits(a, x, n) == Bits(b, y, n)
    requires forall k :: 0 <= k < n ==> IsFollower(x[k]) && IsFollower(y[k])
    ensures a == b && x[..n] == y[..n]
  {
    if n > 0 {
      SameTail(Bits(a, x, n - 1), x[n - 1], Bits(b, y, n - 1), y[n - 1]);
      BitsInjective(a, x, b, y, n - 1);
      assert x[..n] == x[..n - 1] + [x[n - 1]] && y[..n] == y[..n - 1] + [y[n - 1]];
    }
  }

  lemma SameTail(p: nat, x: Byte, q: nat, y: Byte)
    requires p * 64 + x % 64 == q * 64 + y % 64 && IsFollower(x) && IsFollower(y)
    ensures p == q && x == y
  {
  }

  /** An encoded value fits its length, so the value tells the length. */
  lemma EncodesFits(bytes: seq<Byte>, v: nat)
    requires Encodes(bytes, v)
    ensures v < LIMIT && |bytes| == Length(v)
  {
    var n := |bytes|;
    BitsBound(bytes[0] - LeadMark(n), bytes[1..], n - 1, LeadRoom(n));
    RoomFor(n);
  }

  /** There is one encoding of a value, the one that is emitted. */
  lemma EncodingUnique(bytes: seq<Byte>, v: nat)
    requires Encodes(bytes, v)
    ensures v < LIMIT && bytes == Encode(v)
  {
    EncodesFits(bytes, v);
    EncodeEncodes(v);
    var n := |bytes|;
    var other := Encode(v);
    BitsInjective(bytes[0] - LeadMark(n), bytes[1..], other[0] - LeadMark(n), other[1..], n - 1);
    assert bytes == [bytes[0]] + bytes[1..] && other == [other[0]] + other[1..];
    assert bytes[1..][..n - 1] == bytes[1..] && other[1..][..n - 1] == other[1..];
  }

  /** Reserved are the encodings from ED A0 80 to ED BF BF, EF BF BE and EF BF BF, and no others. */
  lemma ReservedIff(bytes: seq<Byte>, v: nat)
    requires Encodes(bytes, v)
    ensures Reserved(v) <==>
      |bytes| == 3 && ((bytes[0] == 0xED && bytes[1] >= 0xA0) || (bytes[0] == 0xEF && bytes[1] == 0xBF && bytes[2] >= 0xBE))
  {
    hide Bits;
    EncodesFits(bytes, v);
    if |bytes| == 3 {
      ThreeBytes(bytes[0] - 0xE0, bytes[1..]);
    }
  }

  lemma ThreeBytes(lead: nat, bytes: seq<Byte>)
    requires |bytes| == 2
    ensures Bits(lead, bytes, 2) == (lead * 64 + bytes[0] % 64) * 64 + bytes[1] % 64
  {
    assert Bits(lead, bytes, 1) == lead * 64 + bytes[0] % 64;
  }

  // ---------- Decoding ----------

  const FOLLOWUPS: seq<nat> := [0, 0, 0, 0, 0, 0, 0, 0, 1, 1, 1, 1, 2, 2, 3, 4]

  /** `c & (0x1f >> followup)`. */
  function LeadBits(c: Byte, followup: nat): nat
    requires followup <= 4
  {
    c % [32, 16, 8, 4, 2][followup]
  }

  /** The lead byte tells the length and where the value starts. */
  lemma LeadTells(c: Byte, n: nat)
    requires 2 <= n <= 6 && LeadMark(n) <= c < LeadMark(n) + LeadRoom(n)
    ensures 0xC0 <= c < 0xFE && FOLLOWUPS[c / 4 % 16] == n - 2 && LeadBits(c, n - 2) == c - LeadMark(n)
  {
  }

  lemma LeadLength(c: Byte)
    requires 0xC0 <= c < 0xFE
    ensures FOLLOWUPS[c / 4 % 16] <= 4
    ensures var n := FOLLOWUPS[c / 4 % 16] + 2; LeadMark(n) <= c < LeadMark(n) + LeadRoom(n)
  {
    var k := c / 4 % 16;
    assert c == 0xC0 + 4 * k + c % 4;
  }

  /** `text[start..end]` is what is accepted for `v`. */
  ghost predicate Accepted(text: seq<Byte>, start: nat, end: nat, v: nat) {
    start < end <= |text| && Encodes(text[start..end], v) && !Reserved(v)
  }

  /** What is known of anything accepted at `start`. */
  lemma AcceptedLead(text: seq<Byte>, start: nat, end: nat, v: nat)
    requires Accepted(text, start, end, v)
    ensures text[start] < 0x80 ==> end == start + 1 && v == text[start]
    ensures text[start] >= 0x80 ==> 0xC0 <= text[start] < 0xFE && end == start + FOLLOWUPS[text[start] / 4 % 16] + 2
    ensures text[start] >= 0x80 ==> forall k :: start < k < end ==> IsFollower(text[k])
    ensures text[start] >= 0x80 ==>
      v == Bits(LeadBits(text[start], FOLLOWUPS[text[start] / 4 % 16]), text[start + 1..], end - start - 1)
  {
    var bytes := text[start..end];
    var n := |bytes|;
    if n >= 2 {
      LeadTells(bytes[0], n);
      assert forall k :: start < k < end ==> text[k] == bytes[k - start];
      assert text[start + 1..] == bytes[1..] + text[end..];
      BitsPrefix(bytes[0] - LeadMark(n), bytes[1..], text[end..], n - 1);
    }
  }

  /** `amx_UTF8Get`; the drop-through over the followers is a loop here. */
  method Get(text: seq<Byte>, start: nat) returns (ok: bool, end: nat, value: nat)
    requires start < |text| && text[|text| - 1] == 0
    ensures ok ==> Accepted(text, start, end, value)
    ensures !ok ==> end == start && value == 0
    ensures !ok ==> forall e, v :: !Accepted(text, start, e, v)
  {
    hide Accepted, Bits, LeadBits, Encodes;
    forall e, v | Accepted(text, start, e, v) {
      AcceptedLead(text, start, e, v);
    }
    var c := text[start];
    if c < 0x80 {
      SingleByte(text, start);
      return true, start + 1, c;
    }
    if c < 0xC0 || c >= 0xFE {
      return false, start, 0;
    }
    LeadLength(c);
    var followup := FOLLOWUPS[c / 4 % 16];
    ghost var lead := LeadBits(c, followup);
    var result := LeadBits(c, followup);
    BitsNone(lead, text[start + 1..]);
    var p := start + 1;
    ghost var nul := |text| - 1;
    assert !IsFollower(text[nul]);
    while p < start + followup + 2
      invariant start < p <= start + followup + 2 && p < |text|
      invariant forall k :: start < k < p ==> IsFollower(text[k])
      invariant result == Bits(lead, text[start + 1..], p - start - 1)
    {
      c := text[p];
      if c / 64 != 2 {
        assert !IsFollower(text[p]);
        return false, start, 0;
      }
      BitsNext(lead, text[start + 1..], p - start - 1);
      result := result * 64 + c % 64;
      p := p + 1;
    }
    if result < LowMark(followup + 2) {
      NotShortest(text, start, p, result);
      return false, start, 0;
    }
    if Reserved(result) {
      IsReserved(text, start, p, result);
      return false, start, 0;
    }
    Complete(text, start, followup, result);
    return true, p, result;
  }

  lemma SingleByte(text: seq<Byte>, start: nat)
    requires start < |text| && text[start] < 0x80
    ensures Accepted(text, start, start + 1, text[start])
  {
    assert Bits(text[start], text[start..start + 1][1..], 0) == text[start];
  }

  lemma BitsNone(lead: nat, bytes: seq<Byte>)
    ensures Bits(lead, bytes, 0) == lead
  {
  }

  lemma BitsNext(lead: nat, bytes: seq<Byte>, n: nat)
    requires n < |bytes|
    ensures Bits(lead, bytes, n + 1) == Bits(lead, bytes, n) * 64 + bytes[n] % 64
  {
  }

  lemma NotShortest(text: seq<Byte>, start: nat, end: nat, v: nat)
    requires start + 2 <= end <= start + 6 && end <= |text| && v < LowMark(end - start)
    ensures !Accepted(text, start, end, v)
  {
  }

  lemma IsReserved(text: seq<Byte>, start: nat, end: nat, v: nat)
    requires Reserved(v)
    ensures !Accepted(text, start, end, v)
  {
  }

  lemma Complete(text: seq<Byte>, start: nat, followup: nat, v: nat)
    requires followup <= 4 && start + followup + 2 <= |text| && 0xC0 <= text[start] < 0xFE
    requires followup == FOLLOWUPS[text[start] / 4 % 16]
    requires forall k :: start < k < start + followup + 2 ==> IsFollower(text[k])
    requires v == Bits(LeadBits(text[start], followup), text[start + 1..], followup + 1)
    requires v >= LowMark(followup + 2) && !Reserved(v)
    ensures Accepted(text, start, start + followup + 2, v)
  {
    var n, end := followup + 2, start + followup + 2;
    var bytes := text[start..end];
    LeadLength(text[start]);
    LeadTells(text[start], n);
    assert text[start + 1..] == bytes[1..] + text[end..];
    BitsPrefix(LeadBits(text[start], followup), bytes[1..], text[end..], n - 1);
  }

  // ---------- Encoding ----------

  /** The groups of six bits, as the encoder shifts them out. */
  lemma HeadShifts(v: nat)
    ensures Head(v, 0) == v && Head(v, 1) == v / 0x40 && Head(v, 2) == v / 0x1000
    ensures Head(v, 3) == v / 0x4_0000 && Head(v, 4) == v / 0x100_0000 && Head(v, 5) == v / 0x4000_0000
  {
    assert v / 0x1000 == v / 0x40 / 0x40 && v / 0x4_0000 == v / 0x40 / 0x1000;
    assert v / 0x100_0000 == v / 0x40 / 0x4_0000 && v / 0x4000_0000 == v / 0x40 / 0x100_0000;
    assert Head(v, 2) == Head(v / 64, 1) && Head(v, 3) == Head(v / 64, 2);
    assert Head(v, 4) == Head(v / 64, 3) && Head(v, 5) == Head(v / 64, 4);
  }

  /** The first follower comes from the highest group. */
  lemma {:induction false} FollowersFirst(v: nat, k: nat)
    requires k > 0
    ensures Followers(v, k) == [Follower(Head(v, k - 1))] + Followers(v, k - 1)
  {
    if k > 1 {
      FollowersFirst(v / 64, k - 1);
    }
  }

  /** The bytes of the encoding, as they are stored. */
  lemma EncodeBytes(v: nat)
    requires v < LIMIT
    ensures Encode(v)[0] == LeadMark(Length(v)) + Head(v, Length(v) - 1)
    ensures forall k :: 1 <= k < Length(v) ==> Encode(v)[k] == Follower(Head(v, Length(v) - 1 - k))
  {
    var n := Length(v);
    FollowersAt(v, n - 1);
    assert forall k :: 1 <= k < n ==> Encode(v)[k] == Followers(v, n - 1)[k - 1];
  }

  lemma {:induction false} FollowersAt(v: nat, k: nat)
    ensures forall i :: 0 <= i < k ==> Followers(v, k)[i] == Follower(Head(v, k - 1 - i))
  {
    if k > 0 {
      FollowersAt(v, k - 1);
      FollowersFirst(v, k);
    }
  }

  /** The encodings by the encoder's shifts and masks. */
  lemma ShortEncodings(v: nat)
    requires v < 0x1_0000
    ensures v < 0x80 ==> Encode(v) == [v]
    ensures 0x80 <= v < 0x800 ==> Encode(v) == [v / 0x40 % 0x20 + 0xC0, v % 0x40 + 0x80]
    ensures v >= 0x800 ==> Encode(v) == [v / 0x1000 % 0x10 + 0xE0, v / 0x40 % 0x40 + 0x80, v % 0x40 + 0x80]
  {
    hide Head, Encode;
    EncodeBytes(v);
    HeadShifts(v);
  }

  lemma LongEncodings(v: nat)
    requires 0x1_0000 <= v < LIMIT
    ensures v < 0x20_0000 ==>
      Encode(v) == [v / 0x4_0000 % 8 + 0xF0, v / 0x1000 % 0x40 + 0x80, v / 0x40 % 0x40 + 0x80, v % 0x40 + 0x80]
    ensures 0x20_0000 <= v < 0x400_0000 ==>
      Encode(v) == [v / 0x100_0000 % 4 + 0xF8, v / 0x4_0000 % 0x40 + 0x80, v / 0x1000 % 0x40 + 0x80,
                    v / 0x40 % 0x40 + 0x80, v % 0x40 + 0x80]
    ensures 0x400_0000 <= v ==>
      Encode(v) == [v / 0x4000_0000 % 2 + 0xFC, v / 0x100_0000 % 0x40 + 0x80, v / 0x4_0000 % 0x40 + 0x80,
                    v / 0x1000 % 0x40 + 0x80, v / 0x40 % 0x40 + 0x80, v % 0x40 + 0x80]
  {
    hide Head, Encode;
    EncodeBytes(v);
    HeadShifts(v);
  }

  /** Stores bytes at the string pointer. */
  method Store(buffer: array<Byte>, start: nat, bytes: seq<Byte>) returns (end: nat)
    requires start + |bytes| <= buffer.Length
    modifies buffer
    ensures end == start + |bytes| && buffer[start..end] == bytes
    ensures buffer[..start] == old(buffer[..start]) && buffer[end..] == old(buffer[end..])
  {
    end := start + |bytes|;
    forall i | 0 <= i < |bytes| {
      buffer[start + i] := bytes[i];
    }
  }

  /** `amx_UTF8Put`. A negative value goes through the branch for single bytes. */
  method Put(buffer: array<Byte>, start: nat, maxchars: int, value: int) returns (ok: bool, end: nat)
    requires -LIMIT <= value < LIMIT && start + maxchars <= buffer.Length
    modifies buffer
    ensures value >= 0 ==> (ok <==> !Reserved(value) && maxchars >= Length(value))
    ensures value < 0 ==> (ok <==> maxchars >= 1) && (ok ==> end == start + 1 && buffer[start] == value % 256)
    ensures !ok ==> end == start && buffer[..] == old(buffer[..])
    ensures ok && value >= 0 ==> end == start + Length(value) && buffer[start..end] == Encode(value)
    ensures ok ==> end <= buffer.Length && buffer[..start] == old(buffer[..start]) && buffer[end..] == old(buffer[end..])
  {
    hide Encode;
    if value < 0x80 {
      if maxchars < 1 {
        return false, start;
      }
      if value >= 0 {
        ShortEncodings(value);
      }
      end := Store(buffer, start, [value % 256]);
      return true, end;
    }
    var v: nat := value;
    if v < 0x1_0000 {
      ShortEncodings(v);
    } else {
      LongEncodings(v);
    }
    if v < 0x800 {
      if maxchars < 2 {
        return false, start;
      }
      end := Store(buffer, start, [v / 0x40 % 0x20 + 0xC0, v % 0x40 + 0x80]);
    } else if v < 0x1_0000 {
      if maxchars < 3 {
        return false, start;
      }
      if (v >= 0xD800 && v <= 0xDFFF) || v == 0xFFFE || v == 0xFFFF {
        return false, start;
      }
      end := Store(buffer, start, [v / 0x1000 % 0x10 + 0xE0, v / 0x40 % 0x40 + 0x80, v % 0x40 + 0x80]);
    } else if v < 0x20_0000 {
      if maxchars < 4 {
        return false, start;
      }
      end := Store(buffer, start,
        [v / 0x4_0000 % 8 + 0xF0, v / 0x1000 % 0x40 + 0x80, v / 0x40 % 0x40 + 0x80, v % 0x40 + 0x80]);
    } else if v < 0x400_0000 {
      if maxchars < 5 {
        return false, start;
      }
      end := Store(buffer, start,
        [v / 0x100_0000 % 4 + 0xF8, v / 0x4_0000 % 0x40 + 0x80, v / 0x1000 % 0x40 + 0x80, v / 0x40 % 0x40 + 0x80,
         v % 0x40 + 0x80]);
    } else {
      if maxchars < 6 {
        return false, start;
      }
      end := Store(buffer, start,
        [v / 0x4000_0000 % 2 + 0xFC, v / 0x100_0000 % 0x40 + 0x80, v / 0x4_0000 % 0x40 + 0x80, v / 0x1000 % 0x40 + 0x80,
         v / 0x40 % 0x40 + 0x80, v % 0x40 + 0x80]);
    }
    return true, end;
  }

  /** What is emitted is accepted again, for every value but the reserved ones. */
  lemma PutThenGet(v: nat, before: seq<Byte>, after: seq<Byte>)
    requires Encodable(v)
    ensures Accepted(before + Encode(v) + after, |before|, |before| + Length(v), v)
  {
    EncodeEncodes(v);
    assert (before + Encode(v) + after)[|before|..|before| + Length(v)] == Encode(v);
  }

  /** What is accepted is what is emitted for its value, and nothing else is accepted in its place. */
  lemma GetThenPut(text: seq<Byte>, start: nat, end: nat, v: nat, otherEnd: nat, other: nat)
    requires Accepted(text, start, end, v)
    ensures Encodable(v) && text[start..end] == Encode(v)
    ensures Accepted(text, start, otherEnd, other) ==> otherEnd == end && other == v
  {
    EncodingUnique(text[start..end], v);
    AcceptedLead(text, start, end, v);
    if Accepted(text, start, otherEnd, other) {
      AcceptedLead(text, start, otherEnd, other);
    }
  }

  // ---------- Whole texts ----------

  type Code = x: int | 0 <= x < LIMIT

  function EncodeAll(vs: seq<Code>): seq<Byte> {
    if vs == [] then [] else Encode(vs[0]) + EncodeAll(vs[1..])
  }

  /** The rest of the text from `p` on encodes these values. */
  ghost predicate Spells(s: seq<Byte>, p: nat, vs: seq<Code>) {
    p <= |s| && (forall v :: v in vs ==> Encodable(v)) && EncodeAll(vs) == s[p..]
  }

  lemma SpellsStep(s: seq<Byte>, p: nat, end: nat, v: Code, vs: seq<Code>)
    requires p < |s| && end <= |s| && Accepted(s + [0], p, end, v)
    ensures Spells(s, p, vs) <==> vs != [] && vs[0] == v && Spells(s, end, vs[1..])
  {
    hide Encode;
    GetThenPut(s + [0], p, end, v, end, v);
    assert (s + [0])[p..end] == s[p..end];
    assert s[p..] == s[p..end] + s[end..];
    if Spells(s, p, vs) {
      FirstAccepted(s, p, vs);
      GetThenPut(s + [0], p, end, v, p + Length(vs[0]), vs[0]);
      assert s[p..] == Encode(v) + EncodeAll(vs[1..]);
    }
    if vs != [] && vs[0] == v && Spells(s, end, vs[1..]) {
      assert forall x :: x in vs ==> x == vs[0] || x in vs[1..];
    }
  }

  lemma FirstAccepted(s: seq<Byte>, p: nat, vs: seq<Code>)
    requires p < |s| && Spells(s, p, vs)
    ensures vs != [] && p + Length(vs[0]) <= |s| && Accepted(s + [0], p, p + Length(vs[0]), vs[0])
  {
    hide Encode;
    PutThenGet(vs[0], s[..p], EncodeAll(vs[1..]) + [0]);
    assert s[..p] + Encode(vs[0]) + (EncodeAll(vs[1..]) + [0]) == s + [0];
  }

  lemma EndsBeforeZero(s: seq<Byte>, p: nat, end: nat, v: nat)
    requires p < |s| && 0 !in s && Accepted(s + [0], p, end, v)
    ensures end <= |s|
  {
    AcceptedLead(s + [0], p, end, v);
    assert !IsFollower((s + [0])[|s|]);
  }

  /** `amx_UTF8Check` on a C string: it is accepted exactly if it encodes some values, and these are counted. */
  method Check(s: seq<Byte>) returns (ok: bool, length: nat)
    requires 0 !in s
    ensures ok <==> exists vs :: Spells(s, 0, vs)
    ensures ok ==> forall vs :: Spells(s, 0, vs) ==> |vs| == length
  {
    hide Spells, Accepted;
    var text, p := s + [0], 0;
    ok, length := true, 0;
    ghost var done: seq<Code> := [];
    while ok && text[p] != 0
      invariant p <= |s|
      invariant ok ==> |done| == length && forall vs :: Spells(s, 0, vs) <==> Follows(s, p, done, vs)
      invariant !ok ==> forall vs :: !Spells(s, 0, vs)
      decreases ok, |s| - p
    {
      var valid, end, v := Get(text, p);
      if valid {
        EndsBeforeZero(s, p, end, v);
        AcceptedAdvances(text, p, end, v);
        forall vs
          ensures Follows(s, p, done, vs) <==> Follows(s, end, done + [v], vs)
        {
          FollowsStep(s, p, end, v, done, vs);
        }
        done := done + [v];
      } else {
        forall vs
          ensures !Follows(s, p, done, vs)
        {
          if Follows(s, p, done, vs) {
            FirstAccepted(s, p, vs[|done|..]);
          }
        }
      }
      ok, p, length := valid, end, length + 1;
    }
    if ok {
      AtEnd(s, done);
    }
  }

  /** `vs` is `done` followed by values that spell the rest. */
  ghost predicate Follows(s: seq<Byte>, p: nat, done: seq<Code>, vs: seq<Code>) {
    done <= vs && Spells(s, p, vs[|done|..])
  }

  lemma AcceptedAdvances(text: seq<Byte>, p: nat, end: nat, v: nat)
    requires Accepted(text, p, end, v)
    ensures p < end && v < LIMIT
  {
    EncodesFits(text[p..end], v);
  }

  lemma FollowsStep(s: seq<Byte>, p: nat, end: nat, v: Code, done: seq<Code>, vs: seq<Code>)
    requires p < |s| && end <= |s| && Accepted(s + [0], p, end, v)
    ensures Follows(s, p, done, vs) <==> Follows(s, end, done + [v], vs)
  {
    hide Spells, Accepted;
    if done <= vs {
      var rest := vs[|done|..];
      SpellsStep(s, p, end, v, rest);
      if rest != [] {
        assert rest[1..] == vs[|done + [v]|..];
        assert vs == done + [rest[0]] + rest[1..];
      }
    }
  }

  lemma AtEnd(s: seq<Byte>, done: seq<Code>)
    ensures Follows(s, |s|, done, done)
    ensures forall vs :: Follows(s, |s|, done, vs) ==> |vs| == |done|
  {
    assert done[|done|..] == [];
    forall vs | Follows(s, |s|, done, vs)
      ensures |vs| == |done|
    {
      EncodedLength(vs[|done|..]);
    }
  }

  lemma {:induction false} EncodedLength(vs: seq<Code>)
    ensures |EncodeAll(vs)| >= |vs|
  {
    if vs != [] {
      EncodedLength(vs[1..]);
    }
  }
}
