/** Matching names against patterns with `?`, `*` and character sets. */
module Glob {

  /** A plain `char`, which is signed. */
  type Char = x: int | -128 <= x < 128

  const ANY := 63
  const CLOS := 42
  const NOT := 33
  const QUOTE := 92
  const SET_L := 91
  const SET_R := 93
  const MSET_L := 123
  const MSET_R := 125
  const SET_NOT := 33
  const SET_THRU := 45

  /** `lowercase`, in the C locale. */
  function Lowercase(c: Char, keepcase: bool): Char {
    if !keepcase && 65 <= c <= 90 then c + 32 else c
  }

  /** The pattern's character at `i`; the terminator follows the last one. */
  function At(pat: seq<Char>, i: nat): Char {
    if i < |pat| then pat[i] else 0
  }

  // ---------- What a pattern means ----------

  datatype Range = Range(lo: Char, hi: Char)

  /** The parts of a pattern. `Never` stands for a set without its closing bracket or a quote without a
      character; `Unsupported` for the forms `!` and `{}`. */
  datatype Item = Literal(c: Char) | Any | Closure | Set(negated: bool, ranges: seq<Range>) | Never | Unsupported

  datatype SetParse = Closed(ranges: seq<Range>, next: nat) | Unclosed

  function SkipQuote(pat: seq<Char>, i: nat): (j: nat)
    ensures i <= j <= i + 1
  {
    if At(pat, i) == QUOTE then i + 1 else i
  }

  /** Where a member of a set ends: a character or, with a dash, a range, each perhaps quoted. */
  function MemberEnd(pat: seq<Char>, i: nat): (j: nat)
    ensures j > i
  {
    var p := SkipQuote(pat, i) + 1;
    if At(pat, p) == SET_THRU then SkipQuote(pat, p + 1) + 1 else p
  }

  function Member(pat: seq<Char>, i: nat): Range {
    var p := SkipQuote(pat, i);
    if At(pat, p + 1) == SET_THRU then
      Range(At(pat, p), At(pat, SkipQuote(pat, p + 2)))
    else
      Range(At(pat, p), At(pat, p))
  }

  /** The members up to the closing bracket. */
  function ParseSet(pat: seq<Char>, i: nat, close: Char): (r: SetParse)
    ensures r.Closed? ==> i <= r.next && At(pat, r.next) == close
    decreases |pat| - i
  {
    if i >= |pat| then Unclosed
    else if pat[i] == close then Closed([], i)
    else if MemberEnd(pat, i) >= |pat| then Unclosed
    else
      match ParseSet(pat, MemberEnd(pat, i), close)
      case Unclosed => Unclosed
      case Closed(ranges, next) => Closed([Member(pat, i)] + ranges, next)
  }

  function Items(pat: seq<Char>, i: nat): seq<Item>
    requires 0 !in pat
    decreases |pat| - i
  {
    if i >= |pat| then []
    else if pat[i] == ANY then [Any] + Items(pat, i + 1)
    else if pat[i] == CLOS then [Closure] + Items(pat, i + 1)
    else if pat[i] == QUOTE then
      if i + 1 >= |pat| then [Never] else [Literal(pat[i + 1])] + Items(pat, i + 2)
    else if pat[i] == SET_L then
      var negated := At(pat, i + 1) == SET_NOT;
      match ParseSet(pat, if negated then i + 2 else i + 1, SET_R)
      case Unclosed => [Never]
      case Closed(ranges, next) =>
        assert next < |pat|;
        [Set(negated, ranges)] + Items(pat, next + 1)
    else if pat[i] == MSET_L || pat[i] == NOT then [Unsupported]
    else [Literal(pat[i])] + Items(pat, i + 1)
  }

  predicate InRange(r: Range, c: Char, keepcase: bool) {
    Lowercase(r.lo, keepcase) <= Lowercase(c, keepcase) <= Lowercase(r.hi, keepcase)
  }

  predicate InRanges(ranges: seq<Range>, c: Char, keepcase: bool) {
    exists k :: 0 <= k < |ranges| && InRange(ranges[k], c, keepcase)
  }

  /** The item matches this piece of a name. */
  predicate Covers(item: Item, piece: seq<Char>, keepcase: bool) {
    match item
    case Literal(c) => |piece| == 1 && Lowercase(piece[0], keepcase) == Lowercase(c, keepcase)
    case Any => |piece| == 1
    case Closure => true
    case Set(negated, ranges) => |piece| == 1 && InRanges(ranges, piece[0], keepcase) != negated
    case Never => false
    case Unsupported => false
  }

  function Concat(pieces: seq<seq<Char>>): seq<Char> {
    if pieces == [] then [] else pieces[0] + Concat(pieces[1..])
  }

  ghost predicate Splits(items: seq<Item>, name: seq<Char>, pieces: seq<seq<Char>>, keepcase: bool) {
    |pieces| == |items| && Concat(pieces) == name && forall k :: 0 <= k < |items| ==> Covers(items[k], pieces[k], keepcase)
  }

  /** The name can be cut into pieces so that every item of the pattern matches its piece. */
  ghost predicate Denotes(items: seq<Item>, name: seq<Char>, keepcase: bool) {
    exists pieces :: Splits(items, name, pieces, keepcase)
  }

  // ---------- One item at a time ----------

  /** The first item takes the first `n` characters of the name. */
  lemma FirstPiece(items: seq<Item>, name: seq<Char>, n: nat, keepcase: bool)
    requires items != [] && n <= |name| && Covers(items[0], name[..n], keepcase) && Denotes(items[1..], name[n..], keepcase)
    ensures Denotes(items, name, keepcase)
  {
    var rest :| Splits(items[1..], name[n..], rest, keepcase);
    var pieces := [name[..n]] + rest;
    assert pieces[1..] == rest;
    assert Splits(items, name, pieces, keepcase);
  }

  lemma TakesPiece(items: seq<Item>, name: seq<Char>, keepcase: bool) returns (n: nat)
    requires items != [] && Denotes(items, name, keepcase)
    ensures n <= |name| && Covers(items[0], name[..n], keepcase) && Denotes(items[1..], name[n..], keepcase)
  {
    var pieces :| Splits(items, name, pieces, keepcase);
    n := |pieces[0]|;
    assert name[..n] == pieces[0] && name[n..] == Concat(pieces[1..]);
    assert Splits(items[1..], name[n..], pieces[1..], keepcase);
  }

  /** An item for one character. */
  lemma OneCharacter(items: seq<Item>, name: seq<Char>, keepcase: bool)
    requires items != [] && (items[0].Literal? || items[0].Any? || items[0].Set?)
    ensures Denotes(items, name, keepcase) <==>
      name != [] && Covers(items[0], name[..1], keepcase) && Denotes(items[1..], name[1..], keepcase)
  {
    if Denotes(items, name, keepcase) {
      var n := TakesPiece(items, name, keepcase);
    }
    if name != [] && Covers(items[0], name[..1], keepcase) && Denotes(items[1..], name[1..], keepcase) {
      FirstPiece(items, name, 1, keepcase);
    }
  }

  lemma ClosureTakes(items: seq<Item>, name: seq<Char>, keepcase: bool)
    requires items != [] && items[0].Closure?
    ensures Denotes(items, name, keepcase) <==> exists n :: 0 <= n <= |name| && Denotes(items[1..], name[n..], keepcase)
  {
    if Denotes(items, name, keepcase) {
      var n := TakesPiece(items, name, keepcase);
    }
    if n :| 0 <= n <= |name| && Denotes(items[1..], name[n..], keepcase) {
      FirstPiece(items, name, n, keepcase);
    }
  }

  lemma NothingLeft(name: seq<Char>, keepcase: bool)
    ensures Denotes([], name, keepcase) <==> name == []
  {
    assert Splits([], [], [], keepcase);
  }

  lemma NeverMatches(items: seq<Item>, name: seq<Char>, keepcase: bool)
    requires items != [] && items[0].Never?
    ensures !Denotes(items, name, keepcase)
  {
  }

  // ---------- The matcher ----------

  /** Reads one member of a set; it may run into the end of the pattern. */
  method ReadMember(pat: seq<Char>, start: nat) returns (complete: bool, lo: Char, hi: Char, p: nat)
    requires 0 !in pat && start < |pat|
    ensures complete <==> MemberEnd(pat, start) < |pat|
    ensures if complete then p == MemberEnd(pat, start) && Member(pat, start) == Range(lo, hi) else p == |pat|
  {
    p, complete, lo, hi := start, false, 0, 0;
    if At(pat, p) == QUOTE {
      p := p + 1;
    }
    if At(pat, p) == 0 {
      return;
    }
    lo := At(pat, p);
    p := p + 1;
    hi := lo;
    if At(pat, p) == SET_THRU {
      p := p + 1;
      if At(pat, p) == QUOTE {
        p := p + 1;
      }
      if At(pat, p) == 0 {
        return;
      }
      hi := At(pat, p);
      p := p + 1;
    }
    complete := At(pat, p) != 0;
  }

  /** Compares a character with the members of a set, up to the closing bracket or the end of the pattern. */
  method MatchSet(pat: seq<Char>, start: nat, fch: Char, yes: bool, keepcase: bool) returns (found: bool, p: nat)
    requires 0 !in pat && start <= |pat|
    ensures start <= p <= |pat|
    ensures var r := ParseSet(pat, start, SET_R);
      if r.Unclosed? then p == |pat| else p == r.next < |pat| && found == (InRanges(r.ranges, fch, keepcase) == yes)
  {
    hide MemberEnd, Member;
    found, p := !yes, start;
    ghost var hit := false;
    while At(pat, p) != SET_R && At(pat, p) != 0
      invariant start <= p <= |pat| && found == (hit == yes)
      invariant SameParse(ParseSet(pat, start, SET_R), ParseSet(pat, p, SET_R), hit, fch, keepcase)
      decreases |pat| - p
    {
      ghost var i, was := p, hit;
      var complete, lo, hi, next := ReadMember(pat, p);
      p := next;
      if !complete {
        break;
      }
      if Lowercase(fch, keepcase) >= Lowercase(lo, keepcase) && Lowercase(fch, keepcase) <= Lowercase(hi, keepcase) {
        found := yes;
        hit := true;
      }
      MemberParsed(pat, i, fch, keepcase);
    }
  }

  /** The members parsed so far decide `hit`; the others are still to come. */
  ghost predicate SameParse(whole: SetParse, rest: SetParse, hit: bool, fch: Char, keepcase: bool) {
    && (whole.Unclosed? <==> rest.Unclosed?)
    && (whole.Closed? ==> whole.next == rest.next)
    && (whole.Closed? ==> (InRanges(whole.ranges, fch, keepcase) <==> hit || InRanges(rest.ranges, fch, keepcase)))
  }

  lemma MemberParsed(pat: seq<Char>, i: nat, fch: Char, keepcase: bool)
    requires i < |pat| && pat[i] != SET_R && MemberEnd(pat, i) < |pat|
    ensures SameParse(ParseSet(pat, i, SET_R), ParseSet(pat, MemberEnd(pat, i), SET_R),
                      InRange(Member(pat, i), fch, keepcase), fch, keepcase)
  {
    hide MemberEnd, Member, InRange;
    var rest := ParseSet(pat, MemberEnd(pat, i), SET_R);
    if rest.Closed? {
      var all := [Member(pat, i)] + rest.ranges;
      assert InRange(all[0], fch, keepcase) ==> InRanges(all, fch, keepcase);
      if k :| 0 <= k < |rest.ranges| && InRange(rest.ranges[k], fch, keepcase) {
        assert InRange(all[k + 1], fch, keepcase);
      }
    }
  }

  /** The name: `flength` characters from `fname` on. */
  function Name(memory: nat -> Char, fname: nat, flength: int): (s: seq<Char>)
    ensures |s| == if flength < 0 then 0 else flength
  {
    if flength < 0 then [] else seq(flength, i requires 0 <= i => memory(fname + i))
  }

  /** The rest of the pattern matches the rest of the name. */
  ghost predicate Matches(pat: seq<Char>, p: nat, memory: nat -> Char, fname: nat, flength: int, keepcase: bool)
    requires 0 !in pat
  {
    flength >= 0 && Denotes(Items(pat, p), Name(memory, fname, flength), keepcase)
  }

  lemma NameAfter(memory: nat -> Char, fname: nat, flength: int, n: nat)
    requires n <= flength
    ensures Name(memory, fname, flength)[n..] == Name(memory, fname + n, flength - n)
  {
  }

  lemma NameStart(memory: nat -> Char, fname: nat, flength: int)
    requires flength >= 1
    ensures Name(memory, fname, flength)[..1] == [memory(fname)]
  {
  }

  /** An item for one character, in the matcher's terms: the matcher reads on even when no characters are left,
      as the length is then negative for good. */
  lemma MatchOne(pat: seq<Char>, p: nat, next: nat, memory: nat -> Char, fname: nat, flength: int, keepcase: bool)
    requires 0 !in pat && Items(pat, p) != [] && Items(pat, next) == Items(pat, p)[1..]
    requires var item := Items(pat, p)[0]; item.Literal? || item.Any? || item.Set?
    ensures Matches(pat, p, memory, fname, flength, keepcase) <==>
      Covers(Items(pat, p)[0], [memory(fname)], keepcase) && Matches(pat, next, memory, fname + 1, flength - 1, keepcase)
  {
    hide Denotes, Items, Covers, Name;
    if flength >= 0 {
      OneCharacter(Items(pat, p), Name(memory, fname, flength), keepcase);
      if flength >= 1 {
        NameAfter(memory, fname, flength, 1);
        NameStart(memory, fname, flength);
      }
    }
  }

  /** The rest of the pattern matches what follows the first `n` characters. */
  ghost predicate MatchesAfter(pat: seq<Char>, p: nat, memory: nat -> Char, fname: nat, flength: int, n: nat, keepcase: bool)
    requires 0 !in pat
  {
    n <= flength && Matches(pat, p, memory, fname + n, flength - n, keepcase)
  }

  lemma MatchClosure(pat: seq<Char>, p: nat, next: nat, memory: nat -> Char, fname: nat, flength: int, keepcase: bool)
    requires 0 !in pat && p < |pat| && pat[p] == CLOS && next == p + 1
    ensures Matches(pat, p, memory, fname, flength, keepcase) <==>
      exists n: nat :: MatchesAfter(pat, next, memory, fname, flength, n, keepcase)
  {
    hide Denotes, Name;
    assert Items(pat, p)[1..] == Items(pat, next);
    if flength >= 0 {
      var name := Name(memory, fname, flength);
      ClosureTakes(Items(pat, p), name, keepcase);
      forall n: nat | n <= flength
        ensures MatchesAfter(pat, next, memory, fname, flength, n, keepcase) <==> Denotes(Items(pat, next), name[n..], keepcase)
      {
        NameAfter(memory, fname, flength, n);
      }
    }
  }

  /** The items from `next` on are among those from `p` on. */
  ghost predicate Advances(pat: seq<Char>, p: nat, next: nat)
    requires 0 !in pat
  {
    (Unsupported in Items(pat, next) ==> Unsupported in Items(pat, p)) &&
    (Never in Items(pat, next) ==> Never in Items(pat, p))
  }

  lemma AnyStep(pat: seq<Char>, p: nat, memory: nat -> Char, fname: nat, flength: int, keepcase: bool)
    requires 0 !in pat && p < |pat| && pat[p] == ANY
    ensures Matches(pat, p, memory, fname, flength, keepcase) <==> Matches(pat, p + 1, memory, fname + 1, flength - 1, keepcase)
    ensures flength == 0 ==> !Matches(pat, p, memory, fname, flength, keepcase)
    ensures Advances(pat, p, p + 1)
  {
    assert Items(pat, p)[1..] == Items(pat, p + 1);
    MatchOne(pat, p, p + 1, memory, fname, flength, keepcase);
  }

  lemma LiteralStep(pat: seq<Char>, p: nat, memory: nat -> Char, fname: nat, flength: int, keepcase: bool)
    requires 0 !in pat && p < |pat| && pat[p] !in {ANY, CLOS, QUOTE, SET_L} && Unsupported !in Items(pat, p)
    ensures Matches(pat, p, memory, fname, flength, keepcase) <==>
      Lowercase(memory(fname), keepcase) == Lowercase(pat[p], keepcase) &&
      Matches(pat, p + 1, memory, fname + 1, flength - 1, keepcase)
    ensures Advances(pat, p, p + 1)
  {
    assert Items(pat, p)[1..] == Items(pat, p + 1);
    MatchOne(pat, p, p + 1, memory, fname, flength, keepcase);
  }

  lemma QuoteStep(pat: seq<Char>, p: nat, memory: nat -> Char, fname: nat, flength: int, keepcase: bool)
    requires 0 !in pat && p < |pat| && pat[p] == QUOTE
    ensures Matches(pat, p, memory, fname, flength, keepcase) <==>
      At(pat, p + 1) != 0 && Lowercase(memory(fname), keepcase) == Lowercase(At(pat, p + 1), keepcase) &&
      Matches(pat, p + 2, memory, fname + 1, flength - 1, keepcase)
    ensures At(pat, p + 1) == 0 ==> Never in Items(pat, p)
    ensures Advances(pat, p, p + 2)
  {
    if p + 1 < |pat| {
      assert Items(pat, p)[1..] == Items(pat, p + 2);
      MatchOne(pat, p, p + 2, memory, fname, flength, keepcase);
    } else {
      NeverMatches(Items(pat, p), Name(memory, fname, flength), keepcase);
    }
  }

  /** The set that starts after a bracket at `p`, parsed past a negation. */
  function SetAt(pat: seq<Char>, p: nat): SetParse {
    ParseSet(pat, if At(pat, p + 1) == SET_NOT then p + 2 else p + 1, SET_R)
  }

  lemma SetUnclosed(pat: seq<Char>, p: nat, memory: nat -> Char, fname: nat, flength: int, keepcase: bool)
    requires 0 !in pat && p < |pat| && pat[p] == SET_L && SetAt(pat, p).Unclosed?
    ensures !Matches(pat, p, memory, fname, flength, keepcase) && Never in Items(pat, p)
  {
    NeverMatches(Items(pat, p), Name(memory, fname, flength), keepcase);
  }

  lemma SetStep(pat: seq<Char>, p: nat, memory: nat -> Char, fname: nat, flength: int, keepcase: bool)
    requires 0 !in pat && p < |pat| && pat[p] == SET_L && SetAt(pat, p).Closed?
    ensures var next := SetAt(pat, p).next;
      next < |pat| && Advances(pat, p, next + 1) &&
      (Matches(pat, p, memory, fname, flength, keepcase) <==>
       InRanges(SetAt(pat, p).ranges, memory(fname), keepcase) != (At(pat, p + 1) == SET_NOT) &&
       Matches(pat, next + 1, memory, fname + 1, flength - 1, keepcase))
  {
    hide InRanges, ParseSet, Matches;
    var next := SetAt(pat, p).next;
    assert Items(pat, p)[1..] == Items(pat, next + 1);
    MatchOne(pat, p, next + 1, memory, fname, flength, keepcase);
  }

  lemma PatternEnd(pat: seq<Char>, p: nat, memory: nat -> Char, fname: nat, flength: int, keepcase: bool)
    requires 0 !in pat && p == |pat|
    ensures Matches(pat, p, memory, fname, flength, keepcase) <==> flength == 0
  {
    NothingLeft(Name(memory, fname, flength), keepcase);
  }

  /** Matches a set; `next` is behind the closing bracket. */
  method MatchSetItem(pat: seq<Char>, p: nat, fch: Char, keepcase: bool)
    returns (found: bool, ghost missing: bool, next: nat)
    requires 0 !in pat && p < |pat| && pat[p] == SET_L
    ensures missing ==> !found && SetAt(pat, p).Unclosed?
    ensures found ==> SetAt(pat, p).Closed? && p < next == SetAt(pat, p).next + 1 <= |pat|
    ensures SetAt(pat, p).Closed? ==>
      found == (InRanges(SetAt(pat, p).ranges, fch, keepcase) != (At(pat, p + 1) == SET_NOT))
  {
    hide InRanges, ParseSet;
    next := p + 1;
    var yes := true;
    if At(pat, next) == SET_NOT {
      next := next + 1;
      yes := false;
    }
    found, next := MatchSet(pat, next, fch, yes, keepcase);
    if !found {
      return false, false, next;
    }
    if At(pat, next) == 0 {
      return false, true, next;
    }
    return true, false, next + 1;
  }

  /** Tries the rest of the pattern on ever longer ends of the name. */
  method MatchClosureItem(pat: seq<Char>, p: nat, memory: nat -> Char, fname: nat, flength: int, keepcase: bool)
    returns (yes: bool, ghost missing: bool)
    requires 0 !in pat && p <= |pat| && Unsupported !in Items(pat, p)
    ensures yes <==> exists n: nat :: MatchesAfter(pat, p, memory, fname, flength, n, keepcase)
    ensures missing ==> Never in Items(pat, p)
    decreases |pat| - p, 1
  {
    hide Matches, Items;
    missing := false;
    var i := flength;
    while i >= 0
      invariant i <= flength && (missing ==> Never in Items(pat, p))
      invariant forall n: nat :: i < n ==> !MatchesAfter(pat, p, memory, fname, flength, n, keepcase)
      decreases i
    {
      var found, gone := Submatch(pat, p, memory, fname + i, flength - i, keepcase);
      missing := missing || gone;
      assert MatchesAfter(pat, p, memory, fname, flength, i, keepcase) <==> found;
      if found {
        return true, missing;
      }
      i := i - 1;
    }
    return false, missing;
  }

  /** `fpattern_submatch`, for patterns without `!` and `{}`; `missing` says that it left because of a missing
      bracket or quoted character. */
  method Submatch(pat: seq<Char>, start: nat, memory: nat -> Char, first: nat, length: int, keepcase: bool)
    returns (yes: bool, ghost missing: bool)
    requires 0 !in pat && start <= |pat| && Unsupported !in Items(pat, start)
    ensures yes <==> Matches(pat, start, memory, first, length, keepcase)
    ensures missing ==> Never in Items(pat, start)
    decreases |pat| - start, 0
  {
    hide Matches, InRanges, Items, SetAt;
    missing := false;
    var p: nat, fname: nat, flength := start, first, length;
    while At(pat, p) != 0
      invariant start <= p <= |pat| && !missing && Unsupported !in Items(pat, p)
      invariant Never in Items(pat, p) ==> Never in Items(pat, start)
      invariant Matches(pat, start, memory, first, length, keepcase) <==> Matches(pat, p, memory, fname, flength, keepcase)
      decreases |pat| - p
    {
      var fch, pch := memory(fname), At(pat, p);
      if pch == ANY {
        AnyStep(pat, p, memory, fname, flength, keepcase);
        if flength == 0 {
          return false, false;
        }
        fname, flength, p := fname + 1, flength - 1, p + 1;
      } else if pch == CLOS {
        MatchClosure(pat, p, p + 1, memory, fname, flength, keepcase);
        ClosureAdvances(pat, p);
        yes, missing := MatchClosureItem(pat, p + 1, memory, fname, flength, keepcase);
        return;
      } else if pch == QUOTE {
        QuoteStep(pat, p, memory, fname, flength, keepcase);
        pch := At(pat, p + 1);
        if Lowercase(fch, keepcase) != Lowercase(pch, keepcase) || pch == 0 {
          return false, pch == 0;
        }
        fname, flength, p := fname + 1, flength - 1, p + 2;
      } else if pch == SET_L {
        if SetAt(pat, p).Closed? {
          SetStep(pat, p, memory, fname, flength, keepcase);
        } else {
          SetUnclosed(pat, p, memory, fname, flength, keepcase);
        }
        var found, gone, next := MatchSetItem(pat, p, fch, keepcase);
        if !found {
          return false, gone;
        }
        fname, flength, p := fname + 1, flength - 1, next;
      } else {
        LiteralStep(pat, p, memory, fname, flength, keepcase);
        if Lowercase(fch, keepcase) != Lowercase(pch, keepcase) {
          return false, false;
        }
        fname, flength, p := fname + 1, flength - 1, p + 1;
      }
    }
    PatternEnd(pat, p, memory, fname, flength, keepcase);
    return flength == 0, missing;
  }

  lemma ClosureAdvances(pat: seq<Char>, p: nat)
    requires 0 !in pat && p < |pat| && pat[p] == CLOS
    ensures Advances(pat, p, p + 1)
  {
  }

  // ---------- Validity ----------

  /** Skips one member of a set; it may run into the end of the pattern. */
  method SkipMember(pat: seq<Char>, start: nat) returns (complete: bool, len: nat)
    requires 0 !in pat && start <= |pat|
    ensures complete <==> MemberEnd(pat, start) < |pat|
    ensures complete ==> len == MemberEnd(pat, start)
  {
    len := start;
    if At(pat, len) == QUOTE {
      len := len + 1;
    }
    if At(pat, len) == 0 {
      return false, len;
    }
    len := len + 1;
    if At(pat, len) == SET_THRU {
      len := len + 1;
      if At(pat, len) == QUOTE {
        len := len + 1;
      }
      if At(pat, len) == 0 {
        return false, len;
      }
      len := len + 1;
    }
    return At(pat, len) != 0, len;
  }

  /** Skips a set in search of its closing bracket. */
  method ScanSet(pat: seq<Char>, start: nat, close: Char) returns (closed: bool, len: nat)
    requires 0 !in pat && start <= |pat| && close != 0
    ensures closed <==> ParseSet(pat, start, close).Closed?
    ensures closed ==> len == ParseSet(pat, start, close).next < |pat|
  {
    hide MemberEnd, Member;
    len := start;
    while At(pat, len) != close
      invariant start <= len <= |pat|
      invariant var whole, rest := ParseSet(pat, start, close), ParseSet(pat, len, close);
        (whole.Closed? <==> rest.Closed?) && (whole.Closed? ==> whole.next == rest.next)
      decreases |pat| - len
    {
      var complete;
      complete, len := SkipMember(pat, len);
      if !complete {
        return false, len;
      }
    }
    return true, len;
  }

  /** What the scan has passed holds nothing that never matches, if there is no `!` or `{}`. */
  ghost predicate Scanned(pat: seq<Char>, len: nat)
    requires 0 !in pat
  {
    Unsupported !in Items(pat, 0) ==>
      Unsupported !in Items(pat, len) && (Never in Items(pat, 0) <==> Never in Items(pat, len))
  }

  lemma ScanOne(pat: seq<Char>, len: nat)
    requires 0 !in pat && len < |pat| && pat[len] != QUOTE && pat[len] != SET_L && pat[len] != MSET_L && pat[len] != NOT
    requires Scanned(pat, len)
    ensures Scanned(pat, len + 1)
  {
    assert Items(pat, len)[1..] == Items(pat, len + 1);
    assert Items(pat, len) == [Items(pat, len)[0]] + Items(pat, len + 1);
  }

  lemma ScanQuote(pat: seq<Char>, len: nat)
    requires 0 !in pat && len < |pat| && pat[len] == QUOTE && Scanned(pat, len)
    ensures if len + 1 < |pat| then Scanned(pat, len + 2) else Unsupported !in Items(pat, 0) ==> Never in Items(pat, 0)
  {
  }

  lemma ScanUnsupported(pat: seq<Char>, len: nat)
    requires 0 !in pat && len < |pat| && (pat[len] == MSET_L || pat[len] == NOT) && Scanned(pat, len)
    ensures Unsupported in Items(pat, 0)
  {
  }

  lemma ScanBracket(pat: seq<Char>, len: nat)
    requires 0 !in pat && len < |pat| && pat[len] == SET_L && Scanned(pat, len)
    ensures SetAt(pat, len).Unclosed? && Unsupported !in Items(pat, 0) ==> Never in Items(pat, 0)
    ensures SetAt(pat, len).Closed? ==> Scanned(pat, SetAt(pat, len).next + 1)
  {
    hide ParseSet;
  }

  /** `fpattern_isvalid`: without `!` and `{}`, a pattern is accepted exactly if the matcher will never miss a
      bracket or a quoted character. */
  method IsValid(pat: seq<Char>) returns (valid: bool)
    requires 0 !in pat
    ensures Unsupported !in Items(pat, 0) ==> (valid <==> Never !in Items(pat, 0))
  {
    hide Items, ParseSet;
    var len := 0;
    while At(pat, len) != 0
      invariant len <= |pat| && Scanned(pat, len)
      decreases |pat| - len
    {
      var c := At(pat, len);
      if c == SET_L || c == MSET_L {
        if c == SET_L {
          ScanBracket(pat, len);
        } else {
          ScanUnsupported(pat, len);
        }
        var close := if c == SET_L then SET_R else MSET_R;
        len := len + 1;
        if At(pat, len) == SET_NOT {
          len := len + 1;
        }
        var closed;
        closed, len := ScanSet(pat, len, close);
        if !closed {
          return false;
        }
      } else if c == QUOTE {
        ScanQuote(pat, len);
        len := len + 1;
        if At(pat, len) == 0 {
          return false;
        }
      } else if c == NOT {
        ScanUnsupported(pat, len);
        len := len + 1;
        if At(pat, len) == 0 {
          return false;
        }
      } else {
        ScanOne(pat, len);
      }
      len := len + 1;
    }
    NoItemsLeft(pat, len);
    return true;
  }

  lemma NoItemsLeft(pat: seq<Char>, len: nat)
    requires 0 !in pat && len >= |pat|
    ensures Items(pat, len) == []
  {
  }

  // ---------- Whole names ----------

  lemma NeverInside(items: seq<Item>, name: seq<Char>, keepcase: bool)
    requires Never in items
    ensures !Denotes(items, name, keepcase)
  {
    var k :| 0 <= k < |items| && items[k] == Never;
    forall pieces
      ensures !Splits(items, name, pieces, keepcase)
    {
      assert |pieces| == |items| ==> !Covers(items[k], pieces[k], keepcase);
    }
  }

  // ---------- Upper and lower case ----------

  /** Equal, or the two cases of one letter. */
  predicate SameLetter(a: Char, b: Char) {
    a == b || (65 <= a <= 90 && b == a + 32) || (97 <= a <= 122 && b == a - 32)
  }

  /** What a character of a pattern that stands for itself matches. */
  predicate Stands(c: Char, d: Char, keepcase: bool) {
    if keepcase then c == d else SameLetter(c, d)
  }

  lemma LowercaseStands(c: Char, d: Char, keepcase: bool)
    ensures Lowercase(c, keepcase) == Lowercase(d, keepcase) <==> Stands(c, d, keepcase)
  {
  }

  /** All characters stand for themselves. */
  predicate IsPlain(pat: seq<Char>) {
    forall i :: 0 <= i < |pat| ==> pat[i] !in {63, 42, 33, 92, 91, 123}
  }

  ghost predicate SameText(pat: seq<Char>, p: nat, name: seq<Char>, keepcase: bool)
    requires p <= |pat|
  {
    |name| == |pat| - p && forall i :: 0 <= i < |name| ==> Stands(pat[p + i], name[i], keepcase)
  }

  /** A pattern without special characters matches exactly its own text, with or without regard to case. */
  lemma {:induction false} PlainMatchesIff(pat: seq<Char>, p: nat, name: seq<Char>, keepcase: bool)
    requires 0 !in pat && IsPlain(pat) && p <= |pat|
    ensures Denotes(Items(pat, p), name, keepcase) <==> SameText(pat, p, name, keepcase)
    ensures Unsupported !in Items(pat, p) && Never !in Items(pat, p)
    decreases |pat| - p
  {
    hide Denotes, Stands, Lowercase;
    if p == |pat| {
      NothingLeft(name, keepcase);
    } else {
      var items := Items(pat, p);
      assert items == [Literal(pat[p])] + Items(pat, p + 1) && items[1..] == Items(pat, p + 1);
      OneCharacter(items, name, keepcase);
      if name != [] {
        PlainMatchesIff(pat, p + 1, name[1..], keepcase);
        LowercaseStands(name[0], pat[p], keepcase);
        StandsBoth(name[0], pat[p], keepcase);
        SameTextFrom(pat, p, name, keepcase);
      } else {
        PlainMatchesIff(pat, p + 1, name, keepcase);
      }
    }
  }

  lemma StandsBoth(c: Char, d: Char, keepcase: bool)
    ensures Stands(c, d, keepcase) <==> Stands(d, c, keepcase)
  {
  }

  lemma SameTextFrom(pat: seq<Char>, p: nat, name: seq<Char>, keepcase: bool)
    requires p < |pat| && name != []
    ensures SameText(pat, p, name, keepcase) <==> Stands(pat[p], name[0], keepcase) && SameText(pat, p + 1, name[1..], keepcase)
  {
    hide Stands;
    if Stands(pat[p], name[0], keepcase) && SameText(pat, p + 1, name[1..], keepcase) {
      forall i | 0 <= i < |name|
        ensures Stands(pat[p + i], name[i], keepcase)
      {
        if i > 0 {
          var k := i - 1;
          assert Stands(pat[p + 1 + k], name[1..][k], keepcase);
        }
      }
    }
    if SameText(pat, p, name, keepcase) {
      forall k | 0 <= k < |name| - 1
        ensures Stands(pat[p + 1 + k], name[1..][k], keepcase)
      {
        var i := k + 1;
        assert Stands(pat[p + i], name[i], keepcase);
      }
    }
  }

  lemma OneItem(item: Item, name: seq<Char>, keepcase: bool)
    requires item.Literal? || item.Any? || item.Set?
    ensures Denotes([item], name, keepcase) <==> |name| == 1 && Covers(item, name, keepcase)
  {
    hide Denotes;
    OneCharacter([item], name, keepcase);
    if name != [] {
      NothingLeft(name[1..], keepcase);
      assert [item][1..] == [];
      assert |name| == 1 ==> name[..1] == name;
    }
  }

  /** `?` matches every single character, `*` every name. */
  lemma WildcardsMatch(name: seq<Char>, keepcase: bool)
    ensures Denotes(Items([63], 0), name, keepcase) <==> |name| == 1
    ensures Denotes(Items([42], 0), name, keepcase)
  {
    hide Denotes;
    assert Items([63], 1) == [] && Items([63], 0) == [Any];
    OneItem(Any, name, keepcase);
    assert Items([42], 1) == [] && Items([42], 0) == [Closure];
    ClosureTakes([Closure], name, keepcase);
    NothingLeft(name[|name|..], keepcase);
  }

  /** Behind a backslash every character stands for itself. */
  lemma QuotedMatchesIff(c: Char, name: seq<Char>, keepcase: bool)
    requires c != 0
    ensures Denotes(Items([92, c], 0), name, keepcase) <==> |name| == 1 && Stands(c, name[0], keepcase)
  {
    hide Denotes, Stands, Lowercase;
    assert Items([92, c], 2) == [] && Items([92, c], 0) == [Literal(c)];
    OneItem(Literal(c), name, keepcase);
    if |name| == 1 {
      LowercaseStands(name[0], c, keepcase);
      StandsBoth(name[0], c, keepcase);
    }
  }

  /** `[lo-hi]` matches the characters of the range. */
  lemma RangeMatchesIff(lo: Char, hi: Char, name: seq<Char>)
    requires lo !in {0, 33, 45, 92, 93} && hi !in {0, 92}
    ensures Denotes(Items([91, lo, 45, hi, 93], 0), name, true) <==> |name| == 1 && lo <= name[0] <= hi
  {
    hide Denotes;
    var pat := [91, lo, 45, hi, 93];
    assert MemberEnd(pat, 1) == 4 && Member(pat, 1) == Range(lo, hi);
    assert ParseSet(pat, 4, SET_R) == Closed([], 4);
    assert SetAt(pat, 0) == Closed([Range(lo, hi)], 4);
    SetItems(pat, 0);
    assert Items(pat, 5) == [];
    var item := Set(false, [Range(lo, hi)]);
    assert Items(pat, 0) == [item];
    OneItem(item, name, true);
    if |name| == 1 {
      assert InRange(item.ranges[0], name[0], true) <==> lo <= name[0] <= hi;
    }
  }

  /** `[!c]` matches every character but one. */
  lemma NegatedMatchesIff(c: Char, name: seq<Char>)
    requires c !in {0, 92, 93}
    ensures Denotes(Items([91, 33, c, 93], 0), name, true) <==> |name| == 1 && name[0] != c
  {
    hide Denotes;
    var pat := [91, 33, c, 93];
    assert MemberEnd(pat, 2) == 3 && Member(pat, 2) == Range(c, c);
    assert ParseSet(pat, 3, SET_R) == Closed([], 3);
    assert SetAt(pat, 0) == Closed([Range(c, c)], 3);
    SetItems(pat, 0);
    assert Items(pat, 4) == [];
    var item := Set(true, [Range(c, c)]);
    assert Items(pat, 0) == [item];
    OneItem(item, name, true);
    if |name| == 1 {
      assert InRange(item.ranges[0], name[0], true) <==> name[0] == c;
    }
  }

  /** Two texts that differ in the case of letters only. */
  ghost predicate Alike(a: seq<Char>, b: seq<Char>) {
    |a| == |b| && forall i :: 0 <= i < |a| ==> SameLetter(a[i], b[i])
  }

  lemma AlikeBoth(a: seq<Char>, b: seq<Char>)
    ensures Alike(a, b) <==> Alike(b, a)
  {
  }

  ghost predicate AlikeItems(x: Item, y: Item) {
    match x
    case Literal(c) => y.Literal? && SameLetter(c, y.c)
    case Set(negated, ranges) => y.Set? && negated == y.negated && AlikeRanges(ranges, y.ranges)
    case _ => x == y
  }

  ghost predicate AlikeRanges(a: seq<Range>, b: seq<Range>) {
    |a| == |b| && forall k :: 0 <= k < |a| ==> SameLetter(a[k].lo, b[k].lo) && SameLetter(a[k].hi, b[k].hi)
  }

  lemma AlikeInRanges(a: seq<Range>, b: seq<Range>, c: Char, d: Char)
    requires AlikeRanges(a, b) && SameLetter(c, d)
    ensures InRanges(a, c, false) <==> InRanges(b, d, false)
  {
    hide Lowercase, SameLetter;
    LowercaseStands(c, d, false);
    forall k | 0 <= k < |a|
      ensures InRange(a[k], c, false) <==> InRange(b[k], d, false)
    {
      LowercaseStands(a[k].lo, b[k].lo, false);
      LowercaseStands(a[k].hi, b[k].hi, false);
    }
  }

  lemma AlikeCovers(x: Item, y: Item, a: seq<Char>, b: seq<Char>)
    requires AlikeItems(x, y) && Alike(a, b)
    ensures Covers(x, a, false) <==> Covers(y, b, false)
  {
    hide Lowercase, SameLetter, InRanges, AlikeRanges;
    if |a| == 1 {
      LowercaseStands(a[0], b[0], false);
      if x.Literal? {
        LowercaseStands(x.c, y.c, false);
      }
      if x.Set? {
        AlikeInRanges(x.ranges, y.ranges, a[0], b[0]);
      }
    }
  }

  ghost predicate AlikePatterns(x: seq<Item>, y: seq<Item>) {
    |x| == |y| && forall k :: 0 <= k < |x| ==> AlikeItems(x[k], y[k])
  }

  lemma {:induction false} AlikeDenotes(x: seq<Item>, y: seq<Item>, a: seq<Char>, b: seq<Char>)
    requires AlikePatterns(x, y) && Alike(a, b) && Denotes(x, a, false)
    ensures Denotes(y, b, false)
    decreases |x|
  {
    hide Denotes, SameLetter, AlikeItems, Covers;
    if x == [] {
      NothingLeft(a, false);
      NothingLeft(b, false);
    } else {
      var n := TakesPiece(x, a, false);
      AlikeCovers(x[0], y[0], a[..n], b[..n]);
      AlikeDenotes(x[1..], y[1..], a[n..], b[n..]);
      FirstPiece(y, b, n, false);
    }
  }

  predicate IsSpecial(c: Char) {
    c in {ANY, CLOS, NOT, QUOTE, SET_L, SET_R, MSET_L, MSET_R, SET_THRU, 0}
  }

  /** No special character is a letter. */
  lemma AlikeAt(pat: seq<Char>, pat': seq<Char>, i: nat)
    requires Alike(pat, pat')
    ensures SameLetter(At(pat, i), At(pat', i))
    ensures IsSpecial(At(pat, i)) || IsSpecial(At(pat', i)) ==> At(pat, i) == At(pat', i)
  {
  }

  lemma AlikeMembers(pat: seq<Char>, pat': seq<Char>, i: nat)
    requires Alike(pat, pat')
    ensures MemberEnd(pat, i) == MemberEnd(pat', i)
    ensures SameLetter(Member(pat, i).lo, Member(pat', i).lo) && SameLetter(Member(pat, i).hi, Member(pat', i).hi)
  {
    hide At, SameLetter;
    AlikeAt(pat, pat', i);
    var p := SkipQuote(pat, i);
    AlikeAt(pat, pat', p);
    AlikeAt(pat, pat', p + 1);
    AlikeAt(pat, pat', p + 2);
    AlikeAt(pat, pat', SkipQuote(pat, p + 2));
  }

  lemma {:induction false} AlikeSets(pat: seq<Char>, pat': seq<Char>, i: nat)
    requires Alike(pat, pat')
    ensures var r, r' := ParseSet(pat, i, SET_R), ParseSet(pat', i, SET_R);
      && (r.Closed? <==> r'.Closed?)
      && (r.Closed? ==> r.next == r'.next && AlikeRanges(r.ranges, r'.ranges))
    decreases |pat| - i
  {
    hide At, SameLetter, MemberEnd, Member;
    if i < |pat| {
      AlikeAt(pat, pat', i);
      assert At(pat, i) == pat[i] && At(pat', i) == pat'[i] by {
        AtInside(pat, i);
        AtInside(pat', i);
      }
      if pat[i] != SET_R {
        AlikeMembers(pat, pat', i);
        AlikeSets(pat, pat', MemberEnd(pat, i));
      }
    }
  }

  lemma AtInside(pat: seq<Char>, i: nat)
    requires i < |pat|
    ensures At(pat, i) == pat[i]
  {
  }

  lemma AlikeCons(x: Item, y: Item, xs: seq<Item>, ys: seq<Item>)
    requires AlikeItems(x, y) && AlikePatterns(xs, ys)
    ensures AlikePatterns([x] + xs, [y] + ys)
  {
    hide AlikeItems;
  }

  /** What starts with a character other than a bracket. */
  lemma ItemsFrom(pat: seq<Char>, i: nat)
    requires 0 !in pat && i < |pat|
    ensures pat[i] == ANY ==> Items(pat, i) == [Any] + Items(pat, i + 1)
    ensures pat[i] == CLOS ==> Items(pat, i) == [Closure] + Items(pat, i + 1)
    ensures pat[i] == QUOTE ==>
      Items(pat, i) == if i + 1 >= |pat| then [Never] else [Literal(pat[i + 1])] + Items(pat, i + 2)
    ensures pat[i] == MSET_L || pat[i] == NOT ==> Items(pat, i) == [Unsupported]
    ensures pat[i] !in {ANY, CLOS, QUOTE, SET_L, MSET_L, NOT} ==> Items(pat, i) == [Literal(pat[i])] + Items(pat, i + 1)
  {
  }

  lemma SetItems(pat: seq<Char>, i: nat)
    requires 0 !in pat && i < |pat| && pat[i] == SET_L
    ensures var r := SetAt(pat, i);
      Items(pat, i) ==
      if r.Unclosed? then [Never] else [Set(At(pat, i + 1) == SET_NOT, r.ranges)] + Items(pat, r.next + 1)
  {
    hide ParseSet;
  }

  lemma {:induction false} AlikeParse(pat: seq<Char>, pat': seq<Char>, i: nat)
    requires 0 !in pat && 0 !in pat' && Alike(pat, pat')
    ensures AlikePatterns(Items(pat, i), Items(pat', i))
    decreases |pat| - i, 1
  {
    hide At, SameLetter, ParseSet, AlikeRanges, Items, Alike, AlikePatterns;
    AlikeLength(pat, pat');
    if i >= |pat| {
      NoItemsLeft(pat, i);
      NoItemsLeft(pat', i);
      AlikeEmpty();
    } else {
      AlikeAt(pat, pat', i);
      AtInside(pat, i);
      AtInside(pat', i);
      if pat[i] == SET_L {
        AlikeParseSet(pat, pat', i);
        if SetAt(pat, i).Closed? {
          AlikeParse(pat, pat', SetAt(pat, i).next + 1);
          AlikeCons(SetItem(pat, i), SetItem(pat', i), Items(pat, SetAt(pat, i).next + 1), Items(pat', SetAt(pat, i).next + 1));
        }
      } else {
        AlikeParseOther(pat, pat', i);
      }
    }
  }

  function SetItem(pat: seq<Char>, i: nat): Item
    requires SetAt(pat, i).Closed?
  {
    Set(At(pat, i + 1) == SET_NOT, SetAt(pat, i).ranges)
  }

  lemma AlikeLength(pat: seq<Char>, pat': seq<Char>)
    requires Alike(pat, pat')
    ensures |pat| == |pat'|
  {
  }

  lemma AlikeEmpty()
    ensures AlikePatterns([], []) && AlikePatterns([Never], [Never]) && AlikePatterns([Unsupported], [Unsupported])
  {
  }

  lemma AlikeParseSet(pat: seq<Char>, pat': seq<Char>, i: nat)
    requires 0 !in pat && 0 !in pat' && Alike(pat, pat') && i < |pat| == |pat'| && pat[i] == pat'[i] == SET_L
    ensures SetAt(pat, i).Closed? <==> SetAt(pat', i).Closed?
    ensures SetAt(pat, i).Unclosed? ==> AlikePatterns(Items(pat, i), Items(pat', i))
    ensures SetAt(pat, i).Closed? ==> var next := SetAt(pat, i).next;
      && next == SetAt(pat', i).next && next >= i && AlikeItems(SetItem(pat, i), SetItem(pat', i))
      && Items(pat, i) == [SetItem(pat, i)] + Items(pat, next + 1)
      && Items(pat', i) == [SetItem(pat', i)] + Items(pat', next + 1)
  {
    hide At, ParseSet, AlikeRanges, Items, Alike, AlikePatterns;
    AlikeAt(pat, pat', i + 1);
    AlikeSets(pat, pat', if At(pat, i + 1) == SET_NOT then i + 2 else i + 1);
    SetItems(pat, i);
    SetItems(pat', i);
    AlikeEmpty();
  }

  lemma {:induction false} AlikeParseOther(pat: seq<Char>, pat': seq<Char>, i: nat)
    requires 0 !in pat && 0 !in pat' && Alike(pat, pat') && i < |pat| == |pat'| && pat[i] != SET_L && pat'[i] != SET_L
    ensures AlikePatterns(Items(pat, i), Items(pat', i))
    decreases |pat| - i, 0
  {
    hide At, SameLetter, ParseSet, AlikeRanges, Items, Alike, AlikePatterns;
    AlikeAt(pat, pat', i);
    AtInside(pat, i);
    AtInside(pat', i);
    ItemsFrom(pat, i);
    ItemsFrom(pat', i);
    AlikeEmpty();
    if pat[i] == QUOTE && i + 1 < |pat| {
      AlikeAt(pat, pat', i + 1);
      AtInside(pat, i + 1);
      AtInside(pat', i + 1);
      AlikeParse(pat, pat', i + 2);
      AlikeCons(Literal(pat[i + 1]), Literal(pat'[i + 1]), Items(pat, i + 2), Items(pat', i + 2));
    } else if pat[i] != QUOTE && pat[i] != MSET_L && pat[i] != NOT {
      AlikeParse(pat, pat', i + 1);
      AlikeCons(Items(pat, i)[0], Items(pat', i)[0], Items(pat, i + 1), Items(pat', i + 1));
    }
  }

  /** Without regard to case, the case of letters makes no difference, neither in the name nor anywhere in the
      pattern. */
  lemma CaseMakesNoDifference(pat: seq<Char>, pat': seq<Char>, name: seq<Char>, name': seq<Char>)
    requires 0 !in pat && 0 !in pat' && Alike(pat, pat') && Alike(name, name')
    ensures Denotes(Items(pat, 0), name, false) <==> Denotes(Items(pat', 0), name', false)
  {
    hide Denotes, Items, Alike;
    AlikeBoth(pat, pat');
    AlikeBoth(name, name');
    AlikeParse(pat, pat', 0);
    AlikeParse(pat', pat, 0);
    if Denotes(Items(pat, 0), name, false) {
      AlikeDenotes(Items(pat, 0), Items(pat', 0), name, name');
    }
    if Denotes(Items(pat', 0), name', false) {
      AlikeDenotes(Items(pat', 0), Items(pat, 0), name', name);
    }
  }

  /** `fpattern_match`: a negative length asks for the whole C string. The empty name is a case of its own. */
  method Match(pat: seq<Char>, memory: nat -> Char, length: int, keepcase: bool) returns (yes: bool)
    requires 0 !in pat && Unsupported !in Items(pat, 0)
    requires length < 0 ==> exists n: nat :: memory(n) == 0
    ensures exists flength: nat :: IsLength(memory, length, flength) && yes == MatchesName(pat, memory, flength, keepcase)
    ensures IsPlain(pat) ==>
      exists flength: nat :: IsLength(memory, length, flength) && (yes <==> SameName(pat, memory, flength, keepcase))
  {
    hide Items, Denotes;
    var valid := IsValid(pat);
    var flength := length;
    if flength < 0 {
      ghost var n: nat :| memory(n) == 0;
      flength := 0;
      while memory(flength) != 0
        invariant 0 <= flength <= n && forall i: nat :: i < flength ==> memory(i) != 0
        decreases n - flength
      {
        flength := flength + 1;
      }
    }
    assert IsLength(memory, length, flength);
    if IsPlain(pat) {
      PlainName(pat, memory, flength, keepcase);
    }
    if !valid {
      NeverInside(Items(pat, 0), Name(memory, 0, flength), keepcase);
      NoItemsLeft(pat, |pat|);
      return false;
    }
    if flength == 0 {
      return At(pat, 0) == 0;
    }
    ghost var missing;
    yes, missing := Submatch(pat, 0, memory, 0, flength, keepcase);
    assert !missing;
  }

  /** The name is the pattern itself, up to case unless that is kept. */
  ghost predicate SameName(pat: seq<Char>, memory: nat -> Char, flength: nat, keepcase: bool) {
    flength == |pat| && forall i :: 0 <= i < |pat| ==> Stands(pat[i], memory(i), keepcase)
  }

  lemma PlainName(pat: seq<Char>, memory: nat -> Char, flength: nat, keepcase: bool)
    requires 0 !in pat && IsPlain(pat)
    ensures MatchesName(pat, memory, flength, keepcase) <==> SameName(pat, memory, flength, keepcase)
  {
    hide Items, Denotes, Stands;
    var name := Name(memory, 0, flength);
    PlainMatchesIff(pat, 0, name, keepcase);
    assert flength == |pat| ==> forall i :: 0 <= i < |pat| ==> pat[0 + i] == pat[i] && name[i] == memory(i);
  }

  ghost predicate MatchesName(pat: seq<Char>, memory: nat -> Char, flength: nat, keepcase: bool)
    requires 0 !in pat
  {
    if flength == 0 then pat == [] else Denotes(Items(pat, 0), Name(memory, 0, flength), keepcase)
  }

  ghost predicate IsLength(memory: nat -> Char, length: int, flength: nat) {
    if length >= 0 then flength == length else memory(flength) == 0 && forall i: nat :: i < flength ==> memory(i) != 0
  }

  /** The empty name would match a pattern exactly if that consists of `*` alone; the special case for the empty
      name refuses those patterns except the empty one. */
  lemma {:induction false} EmptyNameIff(pat: seq<Char>, p: nat, keepcase: bool)
    requires 0 !in pat && p <= |pat|
    ensures Denotes(Items(pat, p), [], keepcase) <==> forall i :: p <= i < |pat| ==> pat[i] == CLOS
    decreases |pat| - p
  {
    hide Denotes;
    if p == |pat| {
      NothingLeft([], keepcase);
    } else if pat[p] == CLOS {
      EmptyNameIff(pat, p + 1, keepcase);
      ClosureTakes(Items(pat, p), [], keepcase);
      assert Items(pat, p)[1..] == Items(pat, p + 1);
      var empty: seq<Char> := [];
      assert empty[0..] == empty;
    } else {
      NotEmptyItem(Items(pat, p), keepcase);
    }
  }

  lemma NotEmptyItem(items: seq<Item>, keepcase: bool)
    requires items != [] && !items[0].Closure?
    ensures !Denotes(items, [], keepcase)
  {
    if Denotes(items, [], keepcase) {
      var n := TakesPiece(items, [], keepcase);
    }
  }
}
