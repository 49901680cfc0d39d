/** Files in memory, and reading them line by line. */
module MemFile {

  type Byte = x: int | 0 <= x < 256

  const NEWLINE := 10

  datatype Whence = SeekSet | SeekCur | SeekEnd

  // ---------- Lines ----------

  /** Where the first newline that is not hidden by a zero byte ends, or the whole text if there is none. */
  function LineEnd(text: seq<Byte>): (n: nat)
    ensures n <= |text|
  {
    if text == [] then 0
    else if text[0] == NEWLINE then 1
    else if text[0] == 0 then |text|
    else 1 + LineEnd(text[1..])
  }

  /** What one call reads of the rest of a file into a buffer of `size` bytes. */
  function Chunk(rest: seq<Byte>, size: nat): (c: seq<Byte>)
    requires size > 0
    ensures c <= rest
  {
    var text := if |rest| < size then rest else rest[..size - 1];
    text[..LineEnd(text)]
  }

  lemma {:induction false} LineEndIs(text: seq<Byte>)
    requires 0 !in text
    ensures var n := LineEnd(text); NEWLINE in text ==> n > 0 && text[n - 1] == NEWLINE && NEWLINE !in text[..n - 1]
    ensures NEWLINE !in text ==> LineEnd(text) == |text|
  {
    if text != [] && text[0] != NEWLINE {
      LineEndIs(text[1..]);
      var n := LineEnd(text);
      assert NEWLINE in text <==> NEWLINE in text[1..];
      if NEWLINE in text {
        assert text[..n - 1] == [text[0]] + text[1..][..n - 2];
      }
    }
  }

  /** A chunk is not empty, leaves room for the terminator, and holds no newline but at its end. */
  predicate IsLine(c: seq<Byte>, size: nat) {
    c != [] && |c| < size && NEWLINE !in c[..|c| - 1]
  }

  /** The chunk ends with a newline or fills the buffer. */
  predicate IsFull(c: seq<Byte>, size: nat) {
    c != [] && (c[|c| - 1] == NEWLINE || |c| == size - 1)
  }

  /** A chunk ends at the first newline, or else after `size - 1` bytes or at the end of the file. */
  lemma ChunkIs(rest: seq<Byte>, size: nat)
    requires 0 !in rest && size >= 2 && rest != []
    ensures var c := Chunk(rest, size); IsLine(c, size) && (IsFull(c, size) || c == rest)
  {
    var text := if |rest| < size then rest else rest[..size - 1];
    LineEndIs(text);
    var n := LineEnd(text);
    if NEWLINE in text {
      assert text[..n][..n - 1] == text[..n - 1];
    } else {
      assert text[..n] == text;
    }
  }

  /** The chunks that repeated calls read. */
  function Lines(rest: seq<Byte>, size: nat): seq<seq<Byte>>
    requires size >= 2 && 0 !in rest
    decreases |rest|
  {
    if rest == [] then []
    else
      ChunkNotEmpty(rest, size);
      var c := Chunk(rest, size);
      [c] + Lines(rest[|c|..], size)
  }

  function Concat(chunks: seq<seq<Byte>>): seq<Byte> {
    if chunks == [] then [] else chunks[0] + Concat(chunks[1..])
  }

  /** Reading lines partitions the file, and cuts it only after newlines or when the buffer is full. */
  lemma {:induction false} LinesPartition(rest: seq<Byte>, size: nat)
    requires size >= 2 && 0 !in rest
    ensures Concat(Lines(rest, size)) == rest
    ensures forall k :: 0 <= k < |Lines(rest, size)| ==> IsLine(Lines(rest, size)[k], size)
    ensures forall k :: 0 <= k < |Lines(rest, size)| - 1 ==> IsFull(Lines(rest, size)[k], size)
    decreases |rest|
  {
    hide IsLine, IsFull, Chunk;
    if rest != [] {
      ChunkIs(rest, size);
      ChunkNotEmpty(rest, size);
      var c := Chunk(rest, size);
      var after := rest[|c|..];
      LinesPartition(after, size);
      var all, more := Lines(rest, size), Lines(after, size);
      assert all == [c] + more && all[1..] == more && c + after == rest;
      assert forall k :: 0 < k < |all| ==> all[k] == more[k - 1];
    }
  }

  lemma ChunkNotEmpty(rest: seq<Byte>, size: nat)
    requires size >= 2 && rest != []
    ensures Chunk(rest, size) != []
  {
  }

  // ---------- The file ----------

  class File {
    var base: array<Byte>
    var offs: int
    var usedoffs: int

    ghost predicate Valid()
      reads this
    {
      0 <= offs <= usedoffs <= base.Length
    }

    ghost function Contents(): seq<Byte>
      requires Valid()
      reads this, base
    {
      base[..usedoffs]
    }

    /** `memfile_creat`. */
    constructor (init: nat)
      ensures Valid() && fresh(base) && Contents() == [] && offs == 0 && base.Length == init
    {
      base := new Byte[init];
      offs, usedoffs := 0, 0;
    }

    /** `memfile_seek`; the offset comes from `Seek`, which keeps it inside the file. */
    method SetOffset(seek: int)
      requires Valid() && 0 <= seek <= usedoffs
      modifies `offs
      ensures Valid() && offs == seek
    {
      offs := seek;
    }

    /** `memfile_read`. */
    method Read(buffer: array<Byte>, maxsize: nat) returns (size: nat)
      requires Valid() && maxsize <= buffer.Length && buffer != base
      modifies `offs, buffer
      ensures Valid() && offs == old(offs) + size
      ensures size == if maxsize < usedoffs - old(offs) then maxsize else usedoffs - old(offs)
      ensures buffer[..size] == Contents()[old(offs)..offs] && Contents() == old(Contents())
      ensures forall i :: size <= i < buffer.Length ==> buffer[i] == old(buffer[i])
    {
      ghost var s, start := Contents(), offs;
      if maxsize == 0 || offs >= usedoffs {
        assert s[start..start] == [];
        return 0;
      }
      size := maxsize;
      if usedoffs - offs < maxsize {
        size := usedoffs - offs;
        assert size > 0;
      }
      forall i | 0 <= i < size {
        buffer[i] := base[offs + i];
      }
      offs := offs + size;
      assert Contents() == s;
      assert forall i :: 0 <= i < size ==> buffer[i] == s[start + i];
      assert buffer[..size] == s[start..offs];
    }

    /** The reallocation of `memfile_write`. */
    method Grow(size: nat)
      requires Valid()
      modifies `base
      ensures Valid() && fresh(base) && base.Length == (old(base.Length) + size) * 2 && Contents() == old(Contents())
    {
      var newbase := new Byte[(base.Length + size) * 2];
      forall i | 0 <= i < base.Length {
        newbase[i] := base[i];
      }
      base := newbase;
    }

    /** `memfile_write`; `memory` says whether the buffer can be reallocated. */
    method Write(buffer: seq<Byte>, memory: bool) returns (ok: bool)
      requires Valid()
      modifies this, base
      ensures Valid() && (base == old(base) || fresh(base))
      ensures ok <==> memory || old(offs) + |buffer| <= old(base.Length)
      ensures !ok ==> Contents() == old(Contents()) && offs == old(offs)
      ensures ok ==> offs == old(offs) + |buffer|
      ensures ok ==> Contents() == old(Contents())[..old(offs)] + buffer +
                                   (if offs < old(usedoffs) then old(Contents())[offs..] else [])
    {
      var size := |buffer|;
      if offs + size > base.Length {
        if !memory {
          return false;
        }
        Grow(size);
      }
      label Grown:
      forall i | 0 <= i < size {
        base[offs + i] := buffer[i];
      }
      offs := offs + size;
      if offs > usedoffs {
        usedoffs := offs;
      }
      return true;
    }

    /** `mfseek`. */
    method Seek(offset: int, whence: Whence) returns (position: int)
      requires Valid() && (whence.SeekEnd? ==> offset <= 0)
      modifies `offs
      ensures Valid()
      ensures var target := match whence
          case SeekSet => offset case SeekCur => old(offs) + offset case SeekEnd => usedoffs + offset;
        position == offs == if target < 0 then 0 else if target > usedoffs then usedoffs else target
    {
      if usedoffs == 0 {
        return 0;
      }
      position := offset;
      match whence {
        case SeekSet =>
        case SeekCur => position := position + offs;
        case SeekEnd => position := position + usedoffs;
      }
      if position < 0 {
        position := 0;
      } else if position > usedoffs {
        position := usedoffs;
      }
      SetOffset(position);
    }

    /** `mfputs`. */
    method Puts(text: seq<Byte>, memory: bool) returns (ok: bool)
      requires Valid() && 0 !in text
      modifies this, base
      ensures Valid() && (base == old(base) || fresh(base))
      ensures ok <==> memory || old(offs) + |text| <= old(base.Length)
      ensures !ok ==> Contents() == old(Contents()) && offs == old(offs)
      ensures ok ==> offs == old(offs) + |text|
      ensures ok ==> Contents() == old(Contents())[..old(offs)] + text +
                                   (if offs < old(usedoffs) then old(Contents())[offs..] else [])
    {
      ok := Write(text, memory);
    }

    /** What a buffer of `size` bytes with a terminator takes of the rest. */
    ghost function Text(size: nat): (s: seq<Byte>)
      requires Valid() && size > 0
      reads this, base
    {
      var rest := Contents()[offs..];
      if |rest| < size then rest else rest[..size - 1]
    }

    /** The start of `mfgets`: reads ahead and terminates the text; `seek` undoes the byte that the terminator
        overwrites. */
    method Fetch(text: array<Byte>, size: nat) returns (count: nat, seek: int)
      requires Valid() && size <= text.Length && text != base
      modifies `offs, text
      ensures Valid() && Contents() == old(Contents()) && offs == old(offs) + count && count <= size
      ensures count > 0 <==> size > 0 && old(offs) < usedoffs
      ensures count == 0 ==> text[..] == old(text[..])
      ensures count > 0 ==> var line := old(Text(size));
        seek == |line| - count && |line| < size && text[..|line|] == line && text[|line|] == 0
    {
      seek := 0;
      count := Read(text, size);
      if count == 0 {
        return;
      }
      ghost var read := text[..count];
      if count < size {
        text[count] := 0;
        assert text[..count] == read;
      } else {
        text[size - 1] := 0;
        seek := -1;
        assert text[..size - 1] == read[..size - 1];
      }
    }

    /** `mfgets`: reads ahead, cuts the text after the first newline, and goes back over what it has not used. */
    method Gets(text: array<Byte>, size: nat) returns (found: bool)
      requires Valid() && size <= text.Length && text != base
      modifies `offs, text
      ensures Valid() && Contents() == old(Contents())
      ensures found <==> size > 0 && old(offs) < usedoffs
      ensures !found ==> offs == old(offs) && text[..] == old(text[..])
      ensures found ==> var c := Chunk(Contents()[old(offs)..], size);
        offs == old(offs) + |c| && |c| < size && text[..|c|] == c && text[|c|] == 0
    {
      hide LineEnd;
      ghost var start := offs;
      ghost var line := if size > 0 then Text(size) else [];
      var count, seek := Fetch(text, size);
      if count == 0 {
        return false;
      }
      var newline, ptr := FindNewline(text, line);
      if newline {
        text[ptr + 1] := 0;
        var lineEnd: int := ptr + 1;
        seek := lineEnd - count;
      }
      ghost var c := line[..LineEnd(line)];
      assert c == Chunk(Contents()[start..], size) && text[..|c|] == c;
      if seek != 0 {
        var position := Seek(seek, SeekCur);
      }
      found := true;
    }

    /** The loop that reads a whole file line by line, as the assembler does. */
    method ReadLines(text: array<Byte>, size: nat) returns (lines: seq<seq<Byte>>)
      requires Valid() && 2 <= size <= text.Length && text != base && 0 !in Contents()[offs..]
      modifies `offs, text
      ensures Valid() && Contents() == old(Contents()) && offs == usedoffs
      ensures lines == Lines(old(Contents()[offs..]), size)
    {
      hide Chunk;
      lines := [];
      ghost var all := Lines(Contents()[offs..], size);
      var found := true;
      while found
        invariant Valid() && Contents() == old(Contents()) && base == old(base) && 0 !in Contents()[offs..]
        invariant all == lines + Lines(Contents()[offs..], size)
        invariant !found ==> offs == usedoffs
        decreases usedoffs - offs, found
      {
        ghost var rest := Contents()[offs..];
        found := Gets(text, size);
        if found {
          ghost var c := Chunk(rest, size);
          ChunkNotEmpty(rest, size);
          assert Contents()[offs..] == rest[|c|..];
          forall j | 0 <= j < |c|
            ensures text[j] != 0
          {
            assert text[j] == text[..|c|][j] == rest[j] && rest[j] in rest;
          }
          var length := 0;
          while text[length] != 0
            invariant length <= |c|
            decreases |c| - length
          {
            length := length + 1;
          }
          lines := lines + [text[..length]];
        }
      }
    }

    /** `strchr` for a newline in the string that `text` holds. */
    method FindNewline(text: array<Byte>, ghost line: seq<Byte>) returns (found: bool, ptr: nat)
      requires |line| < text.Length && text[..|line|] == line && text[|line|] == 0
      ensures found ==> ptr < |line| && ptr + 1 == LineEnd(line)
      ensures !found ==> LineEnd(line) == |line|
    {
      ptr := 0;
      while text[ptr] != 0 && text[ptr] != NEWLINE
        invariant ptr <= |line| && LineEnd(line) == ptr + LineEnd(line[ptr..])
        decreases |line| - ptr
      {
        assert line[ptr] == text[ptr];
        ptr := ptr + 1;
      }
      found := text[ptr] == NEWLINE;
      if ptr < |line| {
        assert line[ptr] == text[ptr];
      }
    }
  }
}
