/** Buffering a byte stream by lines: the lines do not depend on how the stream is cut into chunks. */
module LineBuffer {
  import opened Basics

  const NUL: byte := 0
  const LF: byte := 10
  const CR: byte := 13

  datatype Result<T> = Ok(value: T) | Invalid | NoMemory

  // Lines of a stream.

  /** A line without one trailing carriage return. */
  function Trim(line: seq<byte>): seq<byte> {
    if line != [] && line[|line| - 1] == CR then line[..|line| - 1] else line
  }

  /** The lines completed by `s` after an unfinished line, and the unfinished line that remains. */
  function Lines(part: seq<byte>, s: seq<byte>): (seq<seq<byte>>, seq<byte>)
    decreases |s|
  {
    if s == [] then ([], part)
    else if s[0] == LF then
      var (ls, p) := Lines([], s[1..]);
      ([Trim(part)] + ls, p)
    else Lines(part + [s[0]], s[1..])
  }

  /** A stream can be cut anywhere. */
  lemma {:induction false} LinesOfTwo(part: seq<byte>, a: seq<byte>, b: seq<byte>)
    ensures var (l1, p1) := Lines(part, a);
            var (l2, p2) := Lines(p1, b);
            Lines(part, a + b) == (l1 + l2, p2)
    decreases |a|
  {
    if a == [] {
      assert a + b == b;
      assert [] + Lines(part, b).0 == Lines(part, b).0;
    } else {
      var next := if a[0] == LF then [] else part + [a[0]];
      assert (a + b)[1..] == a[1..] + b;
      LinesOfTwo(next, a[1..], b);
      if a[0] == LF {
        var (l1, p1) := Lines(next, a[1..]);
        assert [Trim(part)] + (l1 + Lines(p1, b).0) == ([Trim(part)] + l1) + Lines(p1, b).0;
      }
    }
  }

  /** A stretch without a line feed only extends the unfinished line. */
  lemma {:induction false} NoLine(part: seq<byte>, s: seq<byte>)
    requires LF !in s
    ensures Lines(part, s) == ([], part + s)
    decreases |s|
  {
    if s == [] {
      assert part + s == part;
    } else {
      NoLine(part + [s[0]], s[1..]);
      assert part + [s[0]] + s[1..] == part + s;
    }
  }

  lemma OneLine(part: seq<byte>, s: seq<byte>)
    requires LF !in s
    ensures Lines(part, s + [LF]) == ([Trim(part + s)], [])
  {
    NoLine(part, s);
    LinesOfTwo(part, s, [LF]);
    assert [LF][1..] == [];
    assert Lines([], []) == ([], []);
    assert [Trim(part + s)] + [] == [Trim(part + s)];
    assert Lines(part + s, [LF]) == ([Trim(part + s)], []);
    assert [] + [Trim(part + s)] == [Trim(part + s)];
  }

  function Concat(chunks: seq<seq<byte>>): seq<byte> {
    if chunks == [] then [] else chunks[0] + Concat(chunks[1..])
  }

  // The buffer.

  /** The finished lines in the buffer, each with a terminator. */
  function Stored(lines: seq<seq<byte>>): seq<byte> {
    if lines == [] then [] else Stored(lines[..|lines| - 1]) + lines[|lines| - 1] + [NUL]
  }

  lemma StoredMore(lines: seq<seq<byte>>, line: seq<byte>)
    ensures Stored(lines + [line]) == Stored(lines) + line + [NUL]
  {
    assert (lines + [line])[..|lines|] == lines;
  }

  predicate Clean(line: seq<byte>) {
    NUL !in line
  }

  predicate AllClean(lines: seq<seq<byte>>) {
    forall i | 0 <= i < |lines| :: Clean(lines[i])
  }

  /** A buffer that holds finished lines and an unfinished one. */
  predicate Holds(data: seq<byte>, lines: seq<seq<byte>>, part: seq<byte>) {
    data == Stored(lines) + part && AllClean(lines) && Clean(part)
  }

  /** Data without a line feed goes to the unfinished line. */
  lemma Extend(data: seq<byte>, lines: seq<seq<byte>>, part: seq<byte>, chunk: seq<byte>)
    requires Holds(data, lines, part) && Clean(chunk) && LF !in chunk
    ensures Holds(data + chunk, lines, part + chunk) && Lines(part, chunk) == ([], part + chunk)
  {
    NoLine(part, chunk);
    Regroup(Stored(lines), part, chunk);
  }

  lemma Regroup(a: seq<byte>, b: seq<byte>, c: seq<byte>)
    ensures (a + b) + c == a + (b + c)
  {
  }

  /** Data up to a line feed finishes the line. */
  lemma Finish(data: seq<byte>, lines: seq<seq<byte>>, part: seq<byte>, s: seq<byte>, text: seq<byte>)
    requires Holds(data, lines, part) && Clean(s) && LF !in s && text == part + s
    ensures data + (s + [LF]) == Stored(lines) + text + [LF]
    ensures Holds(Stored(lines) + Trim(text) + [NUL], lines + [Trim(text)], [])
    ensures Lines(part, s + [LF]) == ([Trim(text)], [])
  {
    OneLine(part, s);
    StoredMore(lines, Trim(text));
    assert Stored(lines + [Trim(text)]) + [] == Stored(lines + [Trim(text)]);
    assert data + (s + [LF]) == Stored(lines) + text + [LF];
  }

  /** The data up to the first line feed, which it includes; all of it if there is none. */
  function UpToLF(s: seq<byte>): (r: seq<byte>)
    ensures r <= s
  {
    if s == [] then [] else if s[0] == LF then [LF] else [s[0]] + UpToLF(s[1..])
  }

  lemma {:induction false} UpToLFIs(s: seq<byte>, n: nat)
    requires n <= |s| && LF !in s[..n]
    ensures n == |s| ==> UpToLF(s) == s
    ensures n < |s| && s[n] == LF ==> UpToLF(s) == s[..n + 1]
  {
    if n > 0 {
      assert s[0] == s[..n][0];
      assert s[1..][..n - 1] == s[..n][1..];
      UpToLFIs(s[1..], n - 1);
      assert s == [s[0]] + s[1..];
    } else if s != [] && s[0] == LF {
      assert s[..1] == [LF];
    }
  }

  class Buffer {
    var data: seq<byte>
    var consumed: nat
    ghost var lines: seq<seq<byte>>
    ghost var part: seq<byte>

    /** The buffer holds the lines so far and the unfinished one. */
    ghost predicate Valid()
      reads this
    {
      Holds(data, lines, part)
    }

    constructor ()
      ensures Valid() && lines == [] && part == [] && consumed == 0
    {
      data, consumed, lines, part := [], 0, [], [];
    }

    /** empty_line_buffer() */
    method Empty()
      modifies this
      ensures Valid() && lines == [] && part == [] && consumed == 0
    {
      data, consumed, lines, part := [], 0, [], [];
    }

    /**
      line_buffer(): takes the data up to the first line feed, unless there is a NUL in
      that part or no memory. A NUL further on does not matter.
     */
    method Add(s: seq<byte>) returns (r: Result<nat>)
      requires Valid()
      modifies this
      ensures Valid()
      ensures !r.Ok? ==> lines == old(lines) && part == old(part) && consumed == old(consumed)
      ensures r.Invalid? <==> NUL in UpToLF(s)
      ensures r.Ok? ==> r.value == consumed <= |s| && s[..consumed] == UpToLF(s) && (s != [] ==> consumed > 0)
      ensures r.Ok? ==> var (ls, p) := Lines(old(part), s[..consumed]);
                        lines == old(lines) + ls && part == p && |ls| <= 1 && (|ls| == 1 ==> p == [])
      ensures r.Ok? && |lines| == |old(lines)| ==> consumed == |s|
    {
      var eol := FindLF(s);
      var n := match eol case None => |s| case Some(i) => i + 1;
      var chunk := s[..n];
      UpToLFIs(s, if eol.Some? then n - 1 else n);
      assert s[..|s|] == s;
      if NUL in chunk {
        return Invalid;
      }
      var enough: bool := *;
      if !enough {
        return NoMemory;
      }
      if eol.Some? {
        assert chunk == s[..n - 1] + [LF];
        ghost var text := part + s[..n - 1];
        Finish(data, lines, part, s[..n - 1], text);
        data := Terminate(data + chunk, lines, text);
        lines, part := lines + [Trim(text)], [];
      } else {
        assert chunk == s;
        Extend(data, lines, part, chunk);
        assert lines + [] == lines;
        data, part := data + chunk, part + chunk;
      }
      consumed := n;
      r := Ok(n);
    }

    /** buffered_line(): the line that the last call completed, if it completed one. */
    method LastLine() returns (r: Option<seq<byte>>)
      requires Valid()
      ensures r.Some? <==> consumed > 0 && part == [] && lines != []
      ensures r.Some? ==> r.value == lines[|lines| - 1]
    {
      if |data| == 0 || consumed == 0 || data[|data| - 1] != NUL {
        LastByte(lines, part, data);
        return None;
      }
      LastByte(lines, part, data);
      ghost var before, line := Stored(lines[..|lines| - 1]), lines[|lines| - 1];
      assert data == before + line + [NUL];
      var i := |data| - 1;
      while i > 0 && data[i - 1] != NUL
        invariant |before| <= i <= |data| - 1
      {
        EndsInNul(lines[..|lines| - 1]);
        i := i - 1;
      }
      StartOfLine(before, line, data, i);
      r := Some(data[i..|data| - 1]);
    }
  }

  /** Overwrite the line feed, and a carriage return before it, with a terminator. */
  method Terminate(d: seq<byte>, ghost lines: seq<seq<byte>>, ghost text: seq<byte>) returns (e: seq<byte>)
    requires d == Stored(lines) + text + [LF]
    ensures e == Stored(lines) + Trim(text) + [NUL]
  {
    ghost var stored := Stored(lines);
    e := d[..|d| - 1] + [NUL];
    assert e == stored + text + [NUL];
    if |e| > 1 && e[|e| - 2] == CR {
      LastIsText(stored, text, lines);
      e := e[..|e| - 2] + [NUL];
    } else {
      NoTrim(stored, text, lines);
    }
  }

  /** The byte before a line is the terminator of the one before it, and no byte of the line is a NUL. */
  lemma StartOfLine(before: seq<byte>, line: seq<byte>, data: seq<byte>, i: nat)
    requires data == before + line + [NUL] && Clean(line) && |before| <= i < |data| && (i == 0 || data[i - 1] == NUL)
    ensures i == |before|
  {
    assert forall k | 0 <= k < |line| :: data[|before| + k] == line[k] && line[k] in line;
  }

  /** memchr() for a line feed. */
  method FindLF(s: seq<byte>) returns (r: Option<nat>)
    ensures r.None? ==> LF !in s
    ensures r.Some? ==> r.value < |s| && s[r.value] == LF && LF !in s[..r.value]
  {
    for i := 0 to |s|
      invariant LF !in s[..i]
    {
      if s[i] == LF {
        return Some(i);
      }
    }
    r := None;
  }

  lemma EndsInNul(lines: seq<seq<byte>>)
    ensures var s := Stored(lines); s != [] ==> s[|s| - 1] == NUL
  {
  }

  /** A carriage return before the terminator belongs to the line. */
  lemma LastIsText(stored: seq<byte>, text: seq<byte>, lines: seq<seq<byte>>)
    requires stored == Stored(lines)
    requires var d := stored + text + [NUL]; |d| > 1 && d[|d| - 2] == CR
    ensures text != [] && text[|text| - 1] == CR
    ensures var d := stored + text + [NUL]; d[..|d| - 2] + [NUL] == stored + Trim(text) + [NUL]
  {
    EndsInNul(lines);
  }

  lemma NoTrim(stored: seq<byte>, text: seq<byte>, lines: seq<seq<byte>>)
    requires stored == Stored(lines)
    requires var d := stored + text + [NUL]; !(|d| > 1 && d[|d| - 2] == CR)
    ensures Trim(text) == text
  {
  }

  /** The buffer ends with a NUL exactly if a line has just been finished. */
  lemma LastByte(lines: seq<seq<byte>>, part: seq<byte>, data: seq<byte>)
    requires data == Stored(lines) + part && Clean(part)
    ensures data != [] && data[|data| - 1] == NUL <==> part == [] && lines != []
  {
    EndsInNul(lines);
    if part != [] {
      assert data[|data| - 1] == part[|part| - 1];
      assert part[|part| - 1] in part;
    }
  }

  /** Feed one chunk, retrieving each line as it is completed. */
  method FeedChunk(b: Buffer, chunk: seq<byte>) returns (ok: bool, out: seq<seq<byte>>)
    requires b.Valid() && NUL !in chunk
    modifies b
    ensures b.Valid()
    ensures ok ==> (out, b.part) == Lines(old(b.part), chunk)
  {
    out, ok := [], true;
    var i := 0;
    while i < |chunk|
      invariant i <= |chunk| && b.Valid() && ok
      invariant (out, b.part) == Lines(old(b.part), chunk[..i])
      decreases |chunk| - i
    {
      ghost var part, n := b.part, |b.lines|;
      var r := b.Add(chunk[i..]);
      if !r.Ok? {
        return false, out;
      }
      ghost var piece := chunk[i..][..r.value];
      LinesOfTwo(old(b.part), chunk[..i], piece);
      assert chunk[..i] + piece == chunk[..i + r.value];
      CompletedOnly(part, piece);
      var line := b.LastLine();
      ghost var ls := Lines(part, piece).0;
      assert line.Some? <==> |ls| == 1;
      if line.Some? {
        assert ls == [line.value];
        out := out + [line.value];
      } else {
        assert out + ls == out;
      }
      i := i + r.value;
    }
    assert chunk[..i] == chunk;
  }

  /** After a piece that is not empty, no line is unfinished exactly if the piece completed one. */
  lemma {:induction false} CompletedOnly(part: seq<byte>, s: seq<byte>)
    requires s != []
    ensures var (ls, p) := Lines(part, s); |ls| <= 1 ==> (p == [] ==> |ls| == 1)
    decreases |s|
  {
    if s[0] != LF && |s| > 1 {
      CompletedOnly(part + [s[0]], s[1..]);
    } else if s[0] == LF && |s| > 1 {
      CompletedOnly([], s[1..]);
    }
  }

  lemma {:induction false} ConcatMore(chunks: seq<seq<byte>>, n: nat)
    requires n < |chunks|
    ensures Concat(chunks[..n + 1]) == Concat(chunks[..n]) + chunks[n]
  {
    if n == 0 {
      assert chunks[..1][1..] == [] && chunks[..1][0] == chunks[0];
      assert Concat(chunks[..1]) == chunks[0] + [] && Concat(chunks[..0]) == [];
    } else {
      ConcatMore(chunks[1..], n - 1);
      assert chunks[..n + 1][1..] == chunks[1..][..n] && chunks[..n][1..] == chunks[1..][..n - 1];
      Regroup(chunks[0], Concat(chunks[1..][..n - 1]), chunks[n]);
    }
  }

  /** The lines of a stream fed in chunks are those of the whole stream, however it is cut. */
  method FeedAll(chunks: seq<seq<byte>>) returns (ok: bool, out: seq<seq<byte>>)
    requires forall i | 0 <= i < |chunks| :: NUL !in chunks[i]
    ensures ok ==> out == Lines([], Concat(chunks)).0
  {
    var b := new Buffer();
    out, ok := [], true;
    for n := 0 to |chunks|
      invariant b.Valid() && ok && fresh(b)
      invariant (out, b.part) == Lines([], Concat(chunks[..n]))
    {
      ghost var part := b.part;
      var fed, more := FeedChunk(b, chunks[n]);
      if !fed {
        return false, out;
      }
      LinesOfTwo([], Concat(chunks[..n]), chunks[n]);
      ConcatMore(chunks, n);
      out := out + more;
    }
    assert chunks[..|chunks|] == chunks;
  }
}
