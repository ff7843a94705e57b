/**
 * The append-only JSONL spool and the reader that both spool modules share: bytes are cut at
 * 0x0A, each cut is decoded and parsed, and a cut that does not parse is skipped but consumed.
 */
module Spool {
  import opened Common

  newtype byte = x: int | 0 <= x < 256

  const NEWLINE: byte := 0x0A

  /** What decoding, trimming and parsing one line gives: None for a blank or malformed line. */
  type Parser<!T> = seq<byte> -> Option<T>

  datatype Line<+T> = Line(record: T, offset: nat)

  /** A position where a line starts. */
  ghost predicate Boundary(buf: seq<byte>, pos: int) {
    0 <= pos <= |buf| && (pos == 0 || buf[pos - 1] == NEWLINE)
  }

  /** Every line of the file is newline-terminated. */
  ghost predicate Terminated(buf: seq<byte>) {
    Boundary(buf, |buf|)
  }

  /** `buf.indexOf(0x0a, pos)`, with the length of the buffer standing for "not found". */
  function LineStop(buf: seq<byte>, pos: nat): (stop: nat)
    requires pos <= |buf|
    ensures pos <= stop <= |buf|
    ensures forall i :: pos <= i < stop ==> buf[i] != NEWLINE
    ensures stop < |buf| ==> buf[stop] == NEWLINE
    decreases |buf| - pos
  {
    if pos == |buf| || buf[pos] == NEWLINE then pos else LineStop(buf, pos + 1)
  }

  function LineEnd(buf: seq<byte>, pos: nat): (end: nat)
    requires pos < |buf|
    ensures pos < end <= |buf|
  {
    var stop := LineStop(buf, pos);
    if stop < |buf| then stop + 1 else stop
  }

  /** The line at `pos`, without its newline. */
  function LineText(buf: seq<byte>, pos: nat): seq<byte>
    requires pos < |buf|
  {
    buf[pos..LineStop(buf, pos)]
  }

  function Parsed<T>(parse: Parser<T>, text: seq<byte>, offset: nat): seq<Line<T>> {
    match parse(text)
    case None => []
    case Some(record) => [Line(record, offset)]
  }

  /** The records of the lines from `pos` on, each with the byte offset its line starts at. */
  function Lines<T>(parse: Parser<T>, buf: seq<byte>, pos: nat): seq<Line<T>>
    requires pos <= |buf|
    decreases |buf| - pos
  {
    if pos == |buf| then []
    else
      Parsed(parse, LineText(buf, pos), pos) + Lines(parse, buf, LineEnd(buf, pos))
  }

  function Clamp(offset: int, length: nat): (pos: nat)
    ensures pos <= length
    ensures 0 <= offset <= length ==> pos == offset
  {
    Min(Max(offset, 0), length)
  }

  lemma ReadStep<T>(parse: Parser<T>, buf: seq<byte>, pos: nat, before: seq<Line<T>>)
    requires pos < |buf|
    ensures before + Lines(parse, buf, pos)
         == before + Parsed(parse, LineText(buf, pos), pos) + Lines(parse, buf, LineEnd(buf, pos))
  {
    Associative(before, Parsed(parse, LineText(buf, pos), pos), Lines(parse, buf, LineEnd(buf, pos)));
  }

  /** The reader loop. A missing file reads as nothing and reports the offset it was given. */
  method ReadLinesSince<T>(parse: Parser<T>, file: Option<seq<byte>>, sinceOffset: int)
    returns (lines: seq<Line<T>>, fileLength: int)
    ensures file.None? ==> lines == [] && fileLength == sinceOffset
    ensures file.Some? ==>
              && fileLength == |file.value|
              && lines == Lines(parse, file.value, Clamp(sinceOffset, |file.value|))
  {
    if file.None? {
      return [], sinceOffset;
    }
    var buf := file.value;
    var pos := Clamp(sinceOffset, |buf|);
    lines, fileLength := [], |buf|;
    ghost var whole := Lines(parse, buf, pos);
    while pos < |buf|
      invariant pos <= |buf|
      invariant lines + Lines(parse, buf, pos) == whole
    {
      var nl := LineStop(buf, pos);
      var lineEnd := if nl == |buf| then |buf| else nl + 1;
      var text := buf[pos..nl];
      assert text == LineText(buf, pos) && lineEnd == LineEnd(buf, pos);
      ReadStep(parse, buf, pos, lines);
      lines := lines + Parsed(parse, text, pos);
      pos := lineEnd;
      if nl == |buf| {
        break;
      }
    }
    assert Lines(parse, buf, |buf|) == [];
  }

  // ----- reading composes -----

  lemma SameLineInPrefix(buf: seq<byte>, pos: nat, b: nat)
    requires pos < b && Boundary(buf, b)
    ensures LineEnd(buf, pos) <= b
    ensures LineText(buf[..b], pos) == LineText(buf, pos)
    ensures LineEnd(buf[..b], pos) == LineEnd(buf, pos)
  {}

  lemma LinesStep<T>(parse: Parser<T>, buf: seq<byte>, pos: nat)
    requires pos < |buf|
    ensures Lines(parse, buf, pos)
         == Parsed(parse, LineText(buf, pos), pos) + Lines(parse, buf, LineEnd(buf, pos))
  {}

  /** Reading on from a line boundary gives what reading straight through would have given. */
  lemma {:induction false} ReadingComposes<T>(parse: Parser<T>, buf: seq<byte>, a: nat, b: nat)
    requires a <= b && Boundary(buf, b)
    ensures Lines(parse, buf, a) == Lines(parse, buf[..b], a) + Lines(parse, buf, b)
    decreases b - a
  {
    if a < b {
      SameLineInPrefix(buf, a, b);
      LinesStep(parse, buf, a);
      LinesStep(parse, buf[..b], a);
      ReadingComposes(parse, buf, LineEnd(buf, a), b);
      Associative(Parsed(parse, LineText(buf, a), a), Lines(parse, buf[..b], LineEnd(buf, a)), Lines(parse, buf, b));
    }
  }

  lemma Associative<T>(a: seq<T>, b: seq<T>, c: seq<T>)
    ensures a + (b + c) == a + b + c
  {}

  /** Offsets are line starts within the file, strictly increasing, and each record is what its
      own line parses to. */
  lemma {:induction false} OffsetsIncrease<T>(parse: Parser<T>, buf: seq<byte>, a: nat)
    requires a <= |buf|
    ensures var lines := Lines(parse, buf, a);
            && (forall i :: 0 <= i < |lines| ==>
                  && a <= lines[i].offset < |buf|
                  && (lines[i].offset == a || Boundary(buf, lines[i].offset))
                  && parse(LineText(buf, lines[i].offset)) == Some(lines[i].record))
            && (forall i, j :: 0 <= i < j < |lines| ==> lines[i].offset < lines[j].offset)
    decreases |buf| - a
  {
    if a < |buf| {
      var head, next := Parsed(parse, LineText(buf, a), a), LineEnd(buf, a);
      var lines, rest := Lines(parse, buf, a), Lines(parse, buf, next);
      OffsetsIncrease(parse, buf, next);
      LinesStep(parse, buf, a);
      assert next == |buf| || Boundary(buf, next);
      forall i | 0 <= i < |lines|
        ensures i < |head| ==> lines[i].offset == a && parse(LineText(buf, a)) == Some(lines[i].record)
        ensures i >= |head| ==> lines[i] == rest[i - |head|] && next <= lines[i].offset
      {}
    }
  }

  /** Appending to a file of whole lines leaves what was read before in place. */
  lemma AppendExtends<T>(parse: Parser<T>, buf: seq<byte>, more: seq<byte>, a: nat)
    requires a <= |buf| && Terminated(buf)
    ensures Boundary(buf + more, |buf|)
    ensures Lines(parse, buf + more, a) == Lines(parse, buf, a) + Lines(parse, buf + more, |buf|)
  {
    assert (buf + more)[..|buf|] == buf;
    ReadingComposes(parse, buf + more, a, |buf|);
  }

  /** One whole-line append adds that line's record, or nothing when it does not parse. */
  lemma AppendLine<T>(parse: Parser<T>, buf: seq<byte>, line: seq<byte>, a: nat)
    requires a <= |buf| && Terminated(buf) && NEWLINE !in line
    ensures var grown := buf + line + [NEWLINE];
            && Terminated(grown)
            && Lines(parse, grown, a) == Lines(parse, buf, a) + Parsed(parse, line, |buf|)
  {
    var grown := buf + line + [NEWLINE];
    assert grown == buf + (line + [NEWLINE]);
    AppendExtends(parse, buf, line + [NEWLINE], a);
    assert grown[|buf|..|grown| - 1] == line;
    LastLineRead(parse, grown, |buf|);
  }

  lemma LastLineRead<T>(parse: Parser<T>, buf: seq<byte>, pos: nat)
    requires pos < |buf| && LineEnd(buf, pos) == |buf|
    ensures Lines(parse, buf, pos) == Parsed(parse, LineText(buf, pos), pos)
  {
    assert Lines(parse, buf, |buf|) == [];
  }

  /** `window` holds exactly the lines of `lines` at or above `w`. */
  ghost predicate UpperPart<T(!new)>(window: seq<Line<T>>, lines: seq<Line<T>>, w: nat) {
    forall l :: l in window <==> l in lines && w <= l.offset
  }

  /** The window above a boundary holds exactly the records at or above it, in order. */
  lemma WindowOfWhole<T(!new)>(parse: Parser<T>, buf: seq<byte>, w: nat)
    requires Boundary(buf, w)
    ensures UpperPart(Lines(parse, buf, w), Lines(parse, buf, 0), w)
  {
    ReadingComposes(parse, buf, 0, w);
    OffsetsIncrease(parse, buf[..w], 0);
    OffsetsIncrease(parse, buf, w);
  }

  /** A line start never moves off its boundary when the file grows. */
  lemma BoundaryStays(buf: seq<byte>, more: seq<byte>, pos: int)
    requires Boundary(buf, pos)
    ensures Boundary(buf + more, pos)
  {}

  /** The whole-line rule is needed: a reader that consumes an unterminated last line stops in
      the middle of it, and once the line is completed the part below that offset is never read
      again, so no later window holds the line's record at its own offset. */
  lemma TornLineIsSplit<T>(parse: Parser<T>, buf: seq<byte>, start: nat, rest: seq<byte>)
    requires start < |buf| && Boundary(buf, start) && NEWLINE !in buf[start..]
    ensures LineEnd(buf, start) == |buf|
    ensures !Boundary(buf + rest, |buf|)
    ensures forall l :: l in Lines(parse, buf + rest, |buf|) ==> l.offset != start
  {
    assert forall i :: start <= i < |buf| ==> buf[start..][i - start] == buf[i];
    OffsetsIncrease(parse, buf + rest, |buf|);
  }
}
