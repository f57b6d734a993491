/** Bounded readers over a stream that arrives in buffers: how it is split never matters. */
module ChunkedReaders {
  import opened Basics

  const NEWLINE: Byte := 10
  const MAX_PROTOCOL_LINE_BYTES: nat := 1_048_576

  /** The bytes still to come, as a list of the buffers they arrive in. */
  function Stream(buffers: seq<Text>): Text {
    if buffers == [] then [] else buffers[0] + Stream(buffers[1..])
  }

  /** The first line of a stream with its newline, or everything if there is none. */
  function Segment(s: Text): (r: Text)
    ensures |r| <= |s| && r == s[..|r|]
    ensures s != [] ==> r != []
  {
    if s == [] then [] else if s[0] == NEWLINE then [s[0]] else [s[0]] + Segment(s[1..])
  }

  /** A line without its newline. */
  function Content(s: Text): Text {
    var line := Segment(s);
    if line != [] && line[|line| - 1] == NEWLINE then line[..|line| - 1] else line
  }

  lemma {:induction false} SegmentOfAppend(a: Text, b: Text)
    ensures NEWLINE in a ==> Segment(a + b) == Segment(a)
    ensures NEWLINE !in a ==> Segment(a) == a && Segment(a + b) == a + Segment(b)
  {
    if a == [] {
      assert a + b == b;
    } else {
      assert (a + b)[1..] == a[1..] + b;
      SegmentOfAppend(a[1..], b);
    }
  }

  lemma {:induction false} SegmentHasOneNewline(s: Text)
    ensures var r := Segment(s);
            && (NEWLINE in s <==> r != [] && r[|r| - 1] == NEWLINE)
            && (forall i :: 0 <= i < |r| - 1 ==> r[i] != NEWLINE)
  {
    if s != [] && s[0] != NEWLINE {
      SegmentHasOneNewline(s[1..]);
    }
  }

  /** How many bytes of a buffer belong to the current line. */
  method Consumable(buffer: Text) returns (n: nat)
    ensures n == |Segment(buffer)|
  {
    n := 0;
    while n < |buffer|
      invariant 0 <= n <= |buffer| && NEWLINE !in buffer[..n]
      invariant |Segment(buffer)| == n + |Segment(buffer[n..])|
    {
      assert buffer[n..][1..] == buffer[n + 1..];
      if buffer[n] == NEWLINE {
        return n + 1;
      }
      n := n + 1;
    }
  }

  /** A reader never returns an empty buffer before the end of the stream. */
  predicate NonEmpty(buffers: seq<Text>) {
    forall i :: 0 <= i < |buffers| ==> buffers[i] != []
  }

  /** `consume`: what is left after taking `n` bytes of the first buffer. */
  function Consumed(buffers: seq<Text>, n: nat): (rest: seq<Text>)
    requires buffers != [] && n <= |buffers[0]| && NonEmpty(buffers)
    ensures NonEmpty(rest)
    ensures Stream(rest) == buffers[0][n..] + Stream(buffers[1..])
  {
    if n == |buffers[0]| then
      buffers[1..]
    else
      assert ([buffers[0][n..]] + buffers[1..])[1..] == buffers[1..];
      [buffers[0][n..]] + buffers[1..]
  }

  /** The reader's position in a stream: a started line without newline, and the rest. */
  ghost predicate At(stream: Text, line: Text, rest: seq<Text>) {
    && NonEmpty(rest) && NEWLINE !in line
    && stream == line + Stream(rest)
    && Segment(stream) == line + Segment(Stream(rest))
  }

  /** The reader has passed the end of the first line. */
  ghost predicate Ends(stream: Text, line: Text, rest: seq<Text>) {
    Segment(stream) == line && stream == line + Stream(rest)
  }

  /** The line's part of the next buffer is the line's end, or the whole buffer and more follows. */
  lemma SegmentOfBuffer(rest: seq<Text>)
    requires NonEmpty(rest) && rest != []
    ensures var taken := Segment(rest[0]);
            && 0 < |taken| <= |rest[0]| && taken == rest[0][..|taken|]
            && (taken[|taken| - 1] == NEWLINE ==> Segment(Stream(rest)) == taken)
            && (taken[|taken| - 1] != NEWLINE ==>
                  && taken == rest[0] && NEWLINE !in taken
                  && Segment(Stream(rest)) == taken + Segment(Stream(rest[1..])))
  {
    SegmentOfAppend(rest[0], Stream(rest[1..]));
    SegmentHasOneNewline(rest[0]);
  }

  lemma StreamOfConsumed(rest: seq<Text>, n: nat)
    requires NonEmpty(rest) && rest != [] && n <= |rest[0]|
    ensures Stream(rest) == rest[0][..n] + Stream(Consumed(rest, n))
  {
    var buffer, later := rest[0], Stream(rest[1..]);
    assert Stream(Consumed(rest, n)) == buffer[n..] + later;
    hide Stream, Consumed;
    Associates(buffer[..n], buffer[n..], later);
    assert buffer == buffer[..n] + buffer[n..];
  }

  lemma Associates(a: Text, b: Text, c: Text)
    ensures a + (b + c) == (a + b) + c
  {}

  /** Taking the line's part of the next buffer finishes the line or moves on. */
  lemma TakeFromBuffer(stream: Text, line: Text, rest: seq<Text>, consumed: nat)
    requires At(stream, line, rest) && rest != [] && consumed == |Segment(rest[0])|
    ensures 0 < consumed <= |rest[0]| && |line| + consumed <= |Segment(stream)|
    ensures var taken, next := rest[0][..consumed], Consumed(rest, consumed);
            && |Stream(next)| < |Stream(rest)|
            && (taken[consumed - 1] == NEWLINE ==> Ends(stream, line + taken, next))
            && (taken[consumed - 1] != NEWLINE ==> At(stream, line + taken, next))
  {
    SegmentOfBuffer(rest);
    StreamOfConsumed(rest, consumed);
    hide Segment, Stream;
    var taken, next := rest[0][..consumed], Consumed(rest, consumed);
    Associates(line, taken, Stream(next));
    if taken[consumed - 1] != NEWLINE {
      assert next == rest[1..];
      Associates(line, taken, Segment(Stream(next)));
    }
  }

  lemma StartsAt(buffers: seq<Text>)
    requires NonEmpty(buffers)
    ensures At(Stream(buffers), [], buffers)
  {
    var stream := Stream(buffers);
    assert [] + stream == stream && [] + Segment(stream) == Segment(stream);
  }

  lemma EndsAt(stream: Text, line: Text)
    requires At(stream, line, [])
    ensures Ends(stream, line, [])
    ensures line != [] ==> line[|line| - 1] != NEWLINE
  {
    assert line + [] == line;
  }

  lemma AfterTheLine(stream: Text, line: Text, rest: seq<Text>)
    requires Ends(stream, line, rest)
    ensures Segment(stream) == line && Stream(rest) == stream[|line|..]
    ensures Content(stream)
            == if line != [] && line[|line| - 1] == NEWLINE then line[..|line| - 1] else line
  {}

  /**
   `read_bounded_line`: for every split into non-empty buffers it returns the bytes up to the first
   newline or the end, or rejects exactly when that segment, newline included, is too long.
   */
  method ReadBoundedLine(buffers: seq<Text>) returns (r: Result<Text, nat>, rest: seq<Text>)
    requires NonEmpty(buffers)
    ensures NonEmpty(rest)
    ensures r.Ok? <==> |Segment(Stream(buffers))| <= MAX_PROTOCOL_LINE_BYTES + 1
    ensures r.Ok? ==> r.value == Content(Stream(buffers))
                      && Stream(rest) == Stream(buffers)[|Segment(Stream(buffers))|..]
    ensures r.Err? ==> MAX_PROTOCOL_LINE_BYTES + 1 < r.error <= |Segment(Stream(buffers))|
  {
    var line: Text := [];
    rest := buffers;
    ghost var stream := Stream(buffers);
    StartsAt(buffers);
    hide Segment, Consumed, Stream, NonEmpty, At, Ends, Content;
    while rest != []
      invariant NonEmpty(rest) && At(stream, line, rest)
      invariant |line| <= MAX_PROTOCOL_LINE_BYTES + 1
      decreases |Stream(rest)|
    {
      var consumed := Consumable(rest[0]);
      TakeFromBuffer(stream, line, rest, consumed);
      if |line| + consumed > MAX_PROTOCOL_LINE_BYTES + 1 {
        return Err(|line| + consumed), rest;
      }
      line := line + rest[0][..consumed];
      rest := Consumed(rest, consumed);
      if line[|line| - 1] == NEWLINE {
        AfterTheLine(stream, line, rest);
        return Ok(line[..|line| - 1]), rest;
      }
    }
    EndsAt(stream, line);
    AfterTheLine(stream, line, rest);
    return Ok(line), rest;
  }

  // ---------------------------------------------------------------- a stream of protocol lines

  /** Lines up to the end of the stream, the first empty line, or the first line that is too long;
      the flag tells the last case. */
  function Lines(s: Text): (seq<Text>, bool)
    decreases |s|
  {
    var line := Segment(s);
    if |line| > MAX_PROTOCOL_LINE_BYTES + 1 then ([], true)
    else if Content(s) == [] then ([], false)
    else
      var (more, failed) := Lines(s[|line|..]);
      ([Content(s)] + more, failed)
  }

  /** The reader thread: an empty line ends it like the end of the stream does. */
  method ReadLines(buffers: seq<Text>) returns (lines: seq<Text>, failed: bool)
    requires NonEmpty(buffers)
    ensures (lines, failed) == Lines(Stream(buffers))
  {
    hide Segment;
    lines := [];
    var rest := buffers;
    assert [] + Lines(Stream(buffers)).0 == Lines(Stream(buffers)).0;
    while true
      invariant NonEmpty(rest)
      invariant var (more, bad) := Lines(Stream(rest));
                Lines(Stream(buffers)) == (lines + more, bad)
      decreases |Stream(rest)|
    {
      var line, next := ReadBoundedLine(rest);
      if line.Err? {
        assert lines + [] == lines;
        return lines, true;
      }
      if line.value == [] {
        assert lines + [] == lines;
        return lines, false;
      }
      var (more, bad) := Lines(Stream(next));
      assert lines + ([line.value] + more) == (lines + [line.value]) + more;
      lines := lines + [line.value];
      rest := next;
    }
  }

  /** Lines with their newlines, one after the other. */
  function Joined(lines: seq<Text>): Text {
    if lines == [] then [] else lines[0] + [NEWLINE] + Joined(lines[1..])
  }

  /** The lines are the stream's beginning, and the rest says why they end; a last line may lack its
      newline. */
  ghost predicate Begin(s: Text, lines: seq<Text>, failed: bool, rest: Text) {
    && (Joined(lines) + rest == s || (rest == [] && Joined(lines) == s + [NEWLINE]))
    && (failed <==> |Segment(rest)| > MAX_PROTOCOL_LINE_BYTES + 1)
    && (!failed ==> rest == [] || rest[0] == NEWLINE)
  }

  predicate IsLine(l: Text) {
    l != [] && NEWLINE !in l && |l| <= MAX_PROTOCOL_LINE_BYTES + 1
  }

  lemma FirstLine(s: Text)
    requires Content(s) != [] && |Segment(s)| <= MAX_PROTOCOL_LINE_BYTES + 1
    ensures IsLine(Content(s))
    ensures var tail := s[|Segment(s)|..];
            Content(s) + [NEWLINE] + tail == s || (tail == [] && Content(s) == s)
  {
    SegmentHasOneNewline(s);
    var line := Segment(s);
    assert s == line + s[|line|..];
    if line[|line| - 1] != NEWLINE {
      NoNewlineIsAll(s);
    } else {
      assert Content(s) + [NEWLINE] == line;
    }
  }

  lemma BeginStep(s: Text, l: Text, tail: Text, more: seq<Text>, failed: bool, rest: Text)
    requires Begin(tail, more, failed, rest)
    requires l + [NEWLINE] + tail == s
    ensures Begin(s, [l] + more, failed, rest)
  {
    hide Segment;
    assert ([l] + more)[1..] == more;
    assert l + [NEWLINE] + (Joined(more) + rest) == (l + [NEWLINE] + Joined(more)) + rest;
    assert l + [NEWLINE] + (tail + [NEWLINE]) == (l + [NEWLINE] + tail) + [NEWLINE];
  }

  /**
   What the reader thread delivers: lines without newline, neither empty nor too long, that are the
   stream's beginning; the rest is nothing, or starts with an empty line, or with one that is too long
   if the reader failed.
   */
  lemma {:induction false} LinesAreTheStream(s: Text)
    ensures forall l <- Lines(s).0 :: IsLine(l)
    ensures exists rest :: Begin(s, Lines(s).0, Lines(s).1, rest)
    decreases |s|
  {
    hide Segment, Content;
    var (lines, failed) := Lines(s);
    if |Segment(s)| > MAX_PROTOCOL_LINE_BYTES + 1 || Content(s) == [] {
      StreamEnds(s);
      assert lines == [] && (failed <==> |Segment(s)| > MAX_PROTOCOL_LINE_BYTES + 1);
      assert Begin(s, Lines(s).0, Lines(s).1, s);
    } else {
      var tail := s[|Segment(s)|..];
      FirstLine(s);
      LinesAreTheStream(tail);
      var (more, bad) := Lines(tail);
      var rest :| Begin(tail, more, bad, rest);
      if Content(s) + [NEWLINE] + tail == s {
        BeginStep(s, Content(s), tail, more, bad, rest);
      } else {
        LastLine(s, tail);
        var none: Text := [];
        assert lines == [Content(s)] && !failed && Begin(s, Lines(s).0, Lines(s).1, none);
      }
    }
  }

  lemma StreamEnds(s: Text)
    requires |Segment(s)| > MAX_PROTOCOL_LINE_BYTES + 1 || Content(s) == []
    ensures Begin(s, [], |Segment(s)| > MAX_PROTOCOL_LINE_BYTES + 1, s)
  {
    SegmentHasOneNewline(s);
    assert Joined([]) + s == s;
  }

  lemma LastLine(s: Text, tail: Text)
    requires tail == [] && Content(s) == s
    ensures Lines(tail) == ([], false) && Begin(s, [Content(s)], false, [])
  {
    assert [s][1..] == [];
  }

  lemma {:induction false} NoNewlineIsAll(s: Text)
    requires NEWLINE !in s
    ensures Segment(s) == s
  {
    if s != [] {
      NoNewlineIsAll(s[1..]);
    }
  }

  // ---------------------------------------------------------------- whole files

  /**
   `read_file_to_end_bounded`: the whole content for every way the reads return it, or a rejection
   exactly when the content is over the limit.
   */
  method ReadToEndBounded(pieces: seq<Text>, maximum: nat) returns (r: Option<Text>)
    requires NonEmpty(pieces)
    ensures r.Some? <==> |Stream(pieces)| <= maximum
    ensures r.Some? ==> r.value == Stream(pieces)
  {
    var buffer: Text := [];
    var rest := pieces;
    while rest != []
      invariant Stream(pieces) == buffer + Stream(rest) && |buffer| <= maximum
      decreases |rest|
    {
      if |buffer| + |rest[0]| > maximum {
        return None;
      }
      buffer := buffer + rest[0];
      rest := rest[1..];
    }
    return Some(buffer);
  }
}
