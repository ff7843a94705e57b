/**
 * Unicode encodings: the UTF-8 fact the byte readers rely on (a 0x0A byte is always a whole
 * newline character, RFC 3629 section 3) and the surrogate check of the shared validators, which
 * accepts exactly the UTF-16 encodings of scalar values (RFC 2781 sections 2.1 and 2.2).
 */
module Unicode {
  import opened Common
  import opened Spool

  type Scalar = c: int | 0 <= c < 0xD800 || 0xE000 <= c < 0x11_0000

  type CodeUnit = u: int | 0 <= u < 0x1_0000

  // ----- UTF-8 -----

  function Utf8Of(c: Scalar): seq<byte> {
    if c < 0x80 then [c as byte]
    else if c < 0x800 then [(0xC0 + c / 0x40) as byte, (0x80 + c % 0x40) as byte]
    else if c < 0x1_0000 then
      [(0xE0 + c / 0x1000) as byte, (0x80 + c / 0x40 % 0x40) as byte, (0x80 + c % 0x40) as byte]
    else
      [(0xF0 + c / 0x4_0000) as byte, (0x80 + c / 0x1000 % 0x40) as byte,
       (0x80 + c / 0x40 % 0x40) as byte, (0x80 + c % 0x40) as byte]
  }

  function Utf8(text: seq<Scalar>): seq<byte> {
    if text == [] then [] else Utf8Of(text[0]) + Utf8(text[1..])
  }

  function Utf8Each(texts: seq<seq<Scalar>>): seq<seq<byte>> {
    if texts == [] then [] else [Utf8(texts[0])] + Utf8Each(texts[1..])
  }

  /** The index of the first newline character, or the length. */
  function FirstNewline(text: seq<Scalar>): (k: nat)
    ensures k <= |text|
    ensures k < |text| ==> text[k] == 0x0A
  {
    if text == [] || text[0] == 0x0A then 0 else 1 + FirstNewline(text[1..])
  }

  /** Text cut at its newlines; a final empty piece is not a line. */
  function TextLines(text: seq<Scalar>): seq<seq<Scalar>>
    decreases |text|
  {
    if text == [] then []
    else
      var k := FirstNewline(text);
      [text[..k]] + if k == |text| then [] else TextLines(text[k + 1..])
  }

  /** A reader that keeps every line's raw bytes. */
  function Raw(text: seq<byte>): Option<seq<byte>> {
    Some(text)
  }

  function Records<T>(lines: seq<Line<T>>): seq<T> {
    if lines == [] then [] else [lines[0].record] + Records(lines[1..])
  }

  lemma NewlineByteIsNewline(c: Scalar)
    ensures Utf8Of(c) != []
    ensures NEWLINE in Utf8Of(c) <==> c == 0x0A
  {}

  lemma LineStopSkips(head: seq<byte>, tail: seq<byte>, pos: nat)
    requires pos <= |head| && NEWLINE !in head[pos..]
    ensures LineStop(head + tail, pos) == |head| + LineStop(tail, 0)
    decreases |head| - pos
  {
    if pos < |head| {
      assert head[pos..] == [head[pos]] + head[pos + 1..];
      LineStopSkips(head, tail, pos + 1);
    } else {
      LineStopShift(head, tail, 0);
    }
  }

  lemma LineStopShift(head: seq<byte>, tail: seq<byte>, pos: nat)
    requires pos <= |tail|
    ensures LineStop(head + tail, |head| + pos) == |head| + LineStop(tail, pos)
    decreases |tail| - pos
  {
    if pos < |tail| && tail[pos] != NEWLINE {
      LineStopShift(head, tail, pos + 1);
    }
  }

  lemma {:induction false} Utf8Splits(text: seq<Scalar>, k: nat)
    requires k <= |text|
    ensures Utf8(text) == Utf8(text[..k]) + Utf8(text[k..])
  {
    if k == 0 {
      assert text[k..] == text;
      assert Utf8(text) == [] + Utf8(text);
    } else {
      var first, head, tail := Utf8Of(text[0]), Utf8(text[1..][..k - 1]), Utf8(text[k..]);
      Utf8Splits(text[1..], k - 1);
      assert text[1..][k - 1..] == text[k..];
      assert text[..k][1..] == text[1..][..k - 1];
      assert Utf8(text[..k]) == first + head;
      Associative(first, head, tail);
    }
  }

  lemma {:induction false} NewlineFree(text: seq<Scalar>)
    requires 0x0A !in text
    ensures NEWLINE !in Utf8(text)
  {
    if text != [] {
      NewlineByteIsNewline(text[0]);
      NewlineFree(text[1..]);
    }
  }

  lemma {:induction false} BeforeFirstNewline(text: seq<Scalar>)
    ensures 0x0A !in text[..FirstNewline(text)]
  {
    if text != [] && text[0] != 0x0A {
      BeforeFirstNewline(text[1..]);
      var k := FirstNewline(text[1..]);
      assert text[..k + 1] == [text[0]] + text[1..][..k];
    }
  }

  /** Both cuts stop at the same character. */
  lemma StopsAgree(text: seq<Scalar>)
    ensures LineStop(Utf8(text), 0) == |Utf8(text[..FirstNewline(text)])|
    ensures Utf8(text) == Utf8(text[..FirstNewline(text)]) + Utf8(text[FirstNewline(text)..])
  {
    var k := FirstNewline(text);
    Utf8Splits(text, k);
    BeforeFirstNewline(text);
    NewlineFree(text[..k]);
    LineStopSkips(Utf8(text[..k]), Utf8(text[k..]), 0);
  }

  /** The raw lines from `pos` on. */
  function RawLines(buf: seq<byte>, pos: nat): seq<seq<byte>>
    requires pos <= |buf|
    decreases |buf| - pos
  {
    if pos == |buf| then [] else [LineText(buf, pos)] + RawLines(buf, LineEnd(buf, pos))
  }

  /** They are what the reader reads when it keeps every line. */
  lemma {:induction false} RawLinesAreRead(buf: seq<byte>, pos: nat)
    requires pos <= |buf|
    ensures Records(Lines(Raw, buf, pos)) == RawLines(buf, pos)
    decreases |buf| - pos
  {
    if pos < |buf| {
      RawLinesAreRead(buf, LineEnd(buf, pos));
      var rest := Lines(Raw, buf, LineEnd(buf, pos));
      assert Lines(Raw, buf, pos) == [Line(LineText(buf, pos), pos)] + rest;
    }
  }

  /** `tail` is what follows the first `off` bytes of `buf`. */
  ghost predicate TailAt(buf: seq<byte>, off: nat, tail: seq<byte>) {
    off + |tail| == |buf| && buf[off..] == tail
  }

  lemma LineShift(buf: seq<byte>, off: nat, tail: seq<byte>, pos: nat)
    requires TailAt(buf, off, tail) && pos < |tail|
    ensures LineText(buf, off + pos) == LineText(tail, pos)
    ensures LineEnd(buf, off + pos) == off + LineEnd(tail, pos)
  {
    SliceShift(buf, off, tail, pos, LineStop(tail, pos));
  }

  lemma SliceShift(buf: seq<byte>, off: nat, tail: seq<byte>, a: nat, b: nat)
    requires TailAt(buf, off, tail) && a <= b <= |tail|
    ensures buf[off + a..off + b] == tail[a..b]
  {
    assert buf[off..][a..b] == buf[off + a..off + b];
  }

  lemma SameStep(buf: seq<byte>, at: nat, tail: seq<byte>, pos: nat)
    requires at < |buf| && pos < |tail| && LineText(buf, at) == LineText(tail, pos)
    requires RawLines(buf, LineEnd(buf, at)) == RawLines(tail, LineEnd(tail, pos))
    ensures RawLines(buf, at) == RawLines(tail, pos)
  {}

  lemma {:induction false} LinesShift(buf: seq<byte>, off: nat, tail: seq<byte>, pos: nat)
    requires TailAt(buf, off, tail) && pos <= |tail|
    ensures RawLines(buf, off + pos) == RawLines(tail, pos)
    decreases |tail| - pos
  {
    if pos < |tail| {
      LineShift(buf, off, tail, pos);
      LinesShift(buf, off, tail, LineEnd(tail, pos));
      SameStep(buf, off + pos, tail, pos);
    }
  }

  lemma LastLine(text: seq<Scalar>)
    requires FirstNewline(text) == |text|
    ensures LineStop(Utf8(text), 0) == |Utf8(text)|
  {
    StopsAgree(text);
    assert text[..|text|] == text;
  }

  lemma NewlineEncodes(text: seq<Scalar>, k: nat)
    requires k < |text| && text[k] == 0x0A
    ensures Utf8(text[k..]) == [NEWLINE] + Utf8(text[k + 1..])
  {
    assert text[k..][0] == 0x0A && text[k..][1..] == text[k + 1..];
  }

  lemma Utf8NonEmpty(text: seq<Scalar>)
    requires text != []
    ensures Utf8(text) != []
  {
    NewlineByteIsNewline(text[0]);
  }

  lemma FirstLine(text: seq<Scalar>)
    requires FirstNewline(text) < |text|
    ensures var k := FirstNewline(text);
            var line, rest := Utf8(text[..k]), Utf8(text[k + 1..]);
            Utf8(text) == line + ([NEWLINE] + rest) && LineStop(Utf8(text), 0) == |line|
  {
    var k := FirstNewline(text);
    StopsAgree(text);
    NewlineEncodes(text, k);
  }

  lemma FirstThenRest(line: seq<byte>, rest: seq<byte>)
    requires LineStop(line + ([NEWLINE] + rest), 0) == |line|
    ensures RawLines(line + ([NEWLINE] + rest), 0) == [line] + RawLines(rest, 0)
  {
    var bytes := line + ([NEWLINE] + rest);
    LinesShift(bytes, |line| + 1, rest, 0);
    assert LineText(bytes, 0) == line && LineEnd(bytes, 0) == |line| + 1;
  }

  lemma OnlyLine(bytes: seq<byte>)
    requires bytes != [] && LineStop(bytes, 0) == |bytes|
    ensures RawLines(bytes, 0) == [bytes]
  {
    assert LineText(bytes, 0) == bytes && LineEnd(bytes, 0) == |bytes|;
  }

  lemma {:induction false} SameCuts(text: seq<Scalar>)
    ensures RawLines(Utf8(text), 0) == Utf8Each(TextLines(text))
    decreases |text|
  {
    if text != [] {
      var k := FirstNewline(text);
      Utf8NonEmpty(text);
      if k == |text| {
        LastLine(text);
        OnlyLine(Utf8(text));
        assert text[..k] == text && TextLines(text) == [text] + [];
      } else {
        var line, rest := text[..k], text[k + 1..];
        FirstLine(text);
        SameCuts(rest);
        FirstThenRest(Utf8(line), Utf8(rest));
        assert TextLines(text) == [line] + TextLines(rest);
      }
    }
  }

  /** Cutting the bytes at 0x0A and cutting the decoded text at newlines give the same lines. */
  lemma ByteCutsAreTextCuts(text: seq<Scalar>)
    ensures Records(Lines(Raw, Utf8(text), 0)) == Utf8Each(TextLines(text))
  {
    RawLinesAreRead(Utf8(text), 0);
    SameCuts(text);
  }

  // ----- decoding bytes that may not be UTF-8 -----

  const REPLACEMENT: Scalar := 0xFFFD

  predicate Continues(b: byte) { 0x80 <= b < 0xC0 }

  /** What a second byte may be after a given first one: no overlong form, no surrogate, nothing
      above U+10FFFF (table 3-7 of the Unicode standard). */
  predicate Follows(first: byte, second: byte) {
    && Continues(second)
    && (first == 0xE0 ==> second >= 0xA0)
    && (first == 0xED ==> second < 0xA0)
    && (first == 0xF0 ==> second >= 0x90)
    && (first == 0xF4 ==> second < 0x90)
  }

  /** The next character and the bytes it takes. A malformed sequence gives one replacement
      character for as many of its bytes as could start a character. */
  function DecodeOne(s: seq<byte>): (r: (Scalar, nat))
    requires s != []
    ensures 1 <= r.1 <= |s|
  {
    var a := s[0] as int;
    if a < 0x80 then (a, 1)
    else if a < 0xC2 || a > 0xF4 || |s| < 2 || !Follows(s[0], s[1]) then (REPLACEMENT, 1)
    else
      var b := s[1] as int - 0x80;
      if a < 0xE0 then ((a - 0xC0) * 0x40 + b, 2)
      else if |s| < 3 || !Continues(s[2]) then (REPLACEMENT, 2)
      else
        var c := s[2] as int - 0x80;
        if a < 0xF0 then ((a - 0xE0) * 0x1000 + b * 0x40 + c, 3)
        else if |s| < 4 || !Continues(s[3]) then (REPLACEMENT, 3)
        else ((a - 0xF0) * 0x4_0000 + b * 0x1000 + c * 0x40 + (s[3] as int - 0x80), 4)
  }

  /** `toString("utf8")`. */
  function Decode(s: seq<byte>): seq<Scalar>
    decreases |s|
  {
    if s == [] then [] else [DecodeOne(s).0] + Decode(s[DecodeOne(s).1..])
  }

  lemma EncodedDecodes(c: Scalar, rest: seq<byte>)
    ensures DecodeOne(Utf8Of(c) + rest) == (c, |Utf8Of(c)|)
  {
    if 0x80 <= c < 0x800 {
      assert c == c / 0x40 * 0x40 + c % 0x40;
    } else if 0x800 <= c < 0x1_0000 {
      ThreeBytesDecode(c, rest);
    } else if c >= 0x1_0000 {
      FourBytesDecode(c, rest);
    }
  }

  lemma ThreeBytesDecode(c: Scalar, rest: seq<byte>)
    requires 0x800 <= c < 0x1_0000
    ensures DecodeOne(Utf8Of(c) + rest) == (c, 3)
  {
    assert c / 0x40 == c / 0x1000 * 0x40 + c / 0x40 % 0x40;
    assert c == c / 0x40 * 0x40 + c % 0x40;
  }

  lemma FourBytesDecode(c: Scalar, rest: seq<byte>)
    requires c >= 0x1_0000
    ensures DecodeOne(Utf8Of(c) + rest) == (c, 4)
  {
    assert c / 0x40 == c / 0x1000 * 0x40 + c / 0x40 % 0x40;
    assert c / 0x1000 == c / 0x4_0000 * 0x40 + c / 0x1000 % 0x40;
    assert c == c / 0x40 * 0x40 + c % 0x40;
  }

  /** Decoding undoes encoding. */
  lemma {:induction false} DecodesWhatWasEncoded(text: seq<Scalar>)
    ensures Decode(Utf8(text)) == text
  {
    if text != [] {
      var first, rest := Utf8Of(text[0]), Utf8(text[1..]);
      DecodesWhatWasEncoded(text[1..]);
      NewlineByteIsNewline(text[0]);
      EncodedDecodes(text[0], rest);
      assert (first + rest)[|first|..] == rest;
      assert text == [text[0]] + text[1..];
    }
  }

  /** A newline byte ends whatever character was under way. */
  lemma DecodeOneStopsAtNewline(s: seq<byte>, more: seq<byte>)
    requires s != [] && s[|s| - 1] == NEWLINE
    ensures DecodeOne(s + more) == DecodeOne(s)
    ensures DecodeOne(s).1 < |s| ==> s[DecodeOne(s).1..][|s| - DecodeOne(s).1 - 1] == NEWLINE
  {
    var all := s + more;
    assert all[0] == s[0];
    if |s| >= 2 {
      assert all[1] == s[1];
    }
    if |s| >= 3 {
      assert all[2] == s[2];
    }
    if |s| >= 4 {
      assert all[3] == s[3];
    }
  }

  /** Bytes that end in a newline decode on their own, whatever follows. */
  lemma {:induction false} DecodeSplitsAtNewline(s: seq<byte>, more: seq<byte>)
    requires Terminated(s)
    ensures Decode(s + more) == Decode(s) + Decode(more)
    decreases |s|
  {
    if s == [] {
      assert s + more == more;
    } else {
      DecodeOneStopsAtNewline(s, more);
      var n := DecodeOne(s).1;
      assert (s + more)[n..] == s[n..] + more;
      DecodeSplitsAtNewline(s[n..], more);
      Associative([DecodeOne(s).0], Decode(s[n..]), Decode(more));
    }
  }

  lemma {:induction false} DecodeEndsInNewline(s: seq<byte>)
    requires s != [] && s[|s| - 1] == NEWLINE
    ensures Decode(s) != [] && Decode(s)[|Decode(s)| - 1] == 0x0A
    decreases |s|
  {
    var n := DecodeOne(s).1;
    DecodeOneStopsAtNewline(s, []);
    if n < |s| {
      DecodeEndsInNewline(s[n..]);
    } else {
      assert n == 1;
    }
  }

  lemma {:induction false} DecodeKeepsNewlineFree(s: seq<byte>)
    requires NEWLINE !in s
    ensures 0x0A !in Decode(s)
    decreases |s|
  {
    if s != [] {
      DecodeKeepsNewlineFree(s[DecodeOne(s).1..]);
    }
  }

  // ----- UTF-16 -----

  predicate IsHigh(u: CodeUnit) { 0xD800 <= u < 0xDC00 }

  predicate IsLow(u: CodeUnit) { 0xDC00 <= u < 0xE000 }

  predicate IsSurrogate(u: CodeUnit) { 0xD800 <= u < 0xE000 }

  /** What the anchored pattern of the validator matches: a run of non-surrogate units and
      high-low pairs. */
  predicate NoLoneSurrogates(s: seq<CodeUnit>)
    decreases |s|
  {
    || s == []
    || (!IsSurrogate(s[0]) && NoLoneSurrogates(s[1..]))
    || (|s| >= 2 && IsHigh(s[0]) && IsLow(s[1]) && NoLoneSurrogates(s[2..]))
  }

  function Utf16Of(c: Scalar): seq<CodeUnit> {
    if c < 0x1_0000 then [c]
    else [0xD800 + (c - 0x1_0000) / 0x400, 0xDC00 + (c - 0x1_0000) % 0x400]
  }

  function Utf16(text: seq<Scalar>): seq<CodeUnit> {
    if text == [] then [] else Utf16Of(text[0]) + Utf16(text[1..])
  }

  /** The decoding procedure of RFC 2781 section 2.2; None is an ill-formed sequence. */
  function DecodeUtf16(s: seq<CodeUnit>): Option<seq<Scalar>>
    decreases |s|
  {
    if s == [] then Some([])
    else if !IsSurrogate(s[0]) then
      match DecodeUtf16(s[1..])
      case None => None
      case Some(rest) => Some([s[0] as Scalar] + rest)
    else if IsLow(s[0]) || |s| < 2 || !IsLow(s[1]) then None
    else
      match DecodeUtf16(s[2..])
      case None => None
      case Some(rest) =>
        Some([PairValue(s[0], s[1])] + rest)
  }

  /** The value a high and a low surrogate stand for together. */
  function PairValue(high: int, low: int): int {
    (high - 0xD800) * 0x400 + (low - 0xDC00) + 0x1_0000
  }

  lemma PairOf(c: Scalar)
    requires c >= 0x1_0000
    ensures var s := Utf16Of(c); |s| == 2 && IsHigh(s[0]) && IsLow(s[1]) && PairValue(s[0], s[1]) == c
  {}

  lemma UnitDecodes(c: Scalar, rest: seq<CodeUnit>)
    ensures NoLoneSurrogates(rest) ==> NoLoneSurrogates(Utf16Of(c) + rest)
    ensures DecodeUtf16(rest).Some? ==> DecodeUtf16(Utf16Of(c) + rest) == Some([c] + DecodeUtf16(rest).value)
  {
    if c < 0x1_0000 {
      assert ([c] + rest)[1..] == rest;
    } else {
      PairOf(c);
      var pair := Utf16Of(c);
      assert (pair + rest)[2..] == rest && (pair + rest)[0] == pair[0] && (pair + rest)[1] == pair[1];
    }
  }

  lemma {:induction false} EncodingsAreAccepted(text: seq<Scalar>)
    ensures NoLoneSurrogates(Utf16(text))
    ensures DecodeUtf16(Utf16(text)) == Some(text)
  {
    if text != [] {
      EncodingsAreAccepted(text[1..]);
      UnitDecodes(text[0], Utf16(text[1..]));
      assert Utf16(text) == Utf16Of(text[0]) + Utf16(text[1..]);
      assert text == [text[0]] + text[1..];
    }
  }

  lemma {:induction false} AcceptedDecodes(s: seq<CodeUnit>)
    ensures DecodeUtf16(s).Some? <==> NoLoneSurrogates(s)
    ensures DecodeUtf16(s).Some? ==> Utf16(DecodeUtf16(s).value) == s
    decreases |s|
  {
    if s != [] {
      if !IsSurrogate(s[0]) {
        AcceptedDecodes(s[1..]);
        assert s == [s[0]] + s[1..];
      } else if |s| >= 2 && IsHigh(s[0]) && IsLow(s[1]) {
        AcceptedDecodes(s[2..]);
        assert s == [s[0], s[1]] + s[2..];
      }
    }
  }

  /** The check accepts a string exactly when it encodes some sequence of scalar values. */
  lemma AcceptsExactlyEncodings(s: seq<CodeUnit>)
    ensures NoLoneSurrogates(s) <==> exists text: seq<Scalar> :: Utf16(text) == s
  {
    AcceptedDecodes(s);
    if NoLoneSurrogates(s) {
      assert Utf16(DecodeUtf16(s).value) == s;
    }
    forall text: seq<Scalar> | Utf16(text) == s ensures NoLoneSurrogates(s) {
      EncodingsAreAccepted(text);
    }
  }

  /** The examples of RFC 3629 section 7 and RFC 2781 section 3. */
  lemma StandardExamples()
    ensures Utf8([0x41, 0x2262, 0x0391, 0x2E]) == [0x41, 0xE2, 0x89, 0xA2, 0xCE, 0x91, 0x2E]
    ensures Utf8([0x233B4]) == [0xF0, 0xA3, 0x8E, 0xB4]
    ensures Utf16([0x12345]) == [0xD808, 0xDF45]
  {
    assert Utf8Of(0x41) == [0x41] && Utf8Of(0x2262) == [0xE2, 0x89, 0xA2] && Utf8Of(0x0391) == [0xCE, 0x91];
    EncodeThen(0x41, [0x2262, 0x0391, 0x2E]);
    EncodeThen(0x2262, [0x0391, 0x2E]);
    EncodeThen(0x0391, [0x2E]);
    EncodeThen(0x2E, []);
    EncodeThen(0x233B4, []);
    assert Utf16Of(0x12345) == [0xD808, 0xDF45] && Utf16([0x12345]) == Utf16Of(0x12345) + Utf16([0x12345 as Scalar][1..]);
  }

  lemma EncodeThen(c: Scalar, rest: seq<Scalar>)
    ensures Utf8([c] + rest) == Utf8Of(c) + Utf8(rest)
  {
    assert ([c] + rest)[1..] == rest;
  }

  // ----- text in files -----

  /** The scalar values of a string, each lone surrogate replaced. */
  function ToWellFormed(s: seq<CodeUnit>): seq<Scalar>
    decreases |s|
  {
    if s == [] then []
    else if !IsSurrogate(s[0]) then [s[0] as Scalar] + ToWellFormed(s[1..])
    else if |s| >= 2 && IsHigh(s[0]) && IsLow(s[1]) then [PairValue(s[0], s[1]) as Scalar] + ToWellFormed(s[2..])
    else [REPLACEMENT] + ToWellFormed(s[1..])
  }

  /** What writing a string to a file as UTF-8 leaves there. */
  function EncodeText(s: seq<CodeUnit>): seq<byte> {
    Utf8(ToWellFormed(s))
  }

  /** What reading a file as UTF-8 gives. */
  function DecodeText(bytes: seq<byte>): seq<CodeUnit> {
    Utf16(Decode(bytes))
  }

  lemma {:induction false} WellFormedKeepsText(s: seq<CodeUnit>)
    requires NoLoneSurrogates(s)
    ensures DecodeUtf16(s) == Some(ToWellFormed(s))
    decreases |s|
  {
    AcceptedDecodes(s);
    if s != [] {
      if !IsSurrogate(s[0]) {
        WellFormedKeepsText(s[1..]);
      } else {
        WellFormedKeepsText(s[2..]);
      }
    }
  }

  /** A string reads back as it was written exactly when it holds no lone surrogate. */
  lemma ReadsBackExactly(s: seq<CodeUnit>)
    ensures DecodeText(EncodeText(s)) == s <==> NoLoneSurrogates(s)
  {
    DecodesWhatWasEncoded(ToWellFormed(s));
    EncodingsAreAccepted(ToWellFormed(s));
    if NoLoneSurrogates(s) {
      WellFormedKeepsText(s);
      AcceptedDecodes(s);
    }
  }

  lemma ReadTextIsWellFormed(bytes: seq<byte>)
    ensures NoLoneSurrogates(DecodeText(bytes))
  {
    EncodingsAreAccepted(Decode(bytes));
  }

  lemma OneReencodes(s: seq<byte>)
    requires s != [] && DecodeOne(s).0 != REPLACEMENT
    ensures Utf8Of(DecodeOne(s).0) == s[..DecodeOne(s).1]
  {
    var n := DecodeOne(s).1;
    if n == 2 {
      assert s[..2] == [s[0], s[1]];
    } else if n == 3 {
      ThreeBytesReencode(s[0] as int - 0xE0, s[1] as int - 0x80, s[2] as int - 0x80);
      assert s[..3] == [s[0], s[1], s[2]];
    } else if n == 4 {
      FourBytesReencode(s[0] as int - 0xF0, s[1] as int - 0x80, s[2] as int - 0x80, s[3] as int - 0x80);
      assert s[..4] == [s[0], s[1], s[2], s[3]];
    }
  }

  lemma ThreeBytesReencode(a: int, b: int, c: int)
    requires 0 <= a < 0x10 && 0 <= b < 0x40 && 0 <= c < 0x40
    requires (a == 0 ==> b >= 0x20) && (a == 0xD ==> b < 0x20)
    ensures 0x800 <= a * 0x1000 + b * 0x40 + c < 0xD800 || 0xE000 <= a * 0x1000 + b * 0x40 + c < 0x1_0000
    ensures Utf8Of(a * 0x1000 + b * 0x40 + c) == [(0xE0 + a) as byte, (0x80 + b) as byte, (0x80 + c) as byte]
  {
    var x := a * 0x1000 + b * 0x40 + c;
    assert x / 0x1000 == a && x / 0x40 == a * 0x40 + b && x % 0x40 == c;
  }

  lemma FourBytesReencode(a: int, b: int, c: int, e: int)
    requires 0 <= a <= 4 && 0 <= b < 0x40 && 0 <= c < 0x40 && 0 <= e < 0x40
    requires (a == 0 ==> b >= 0x10) && (a == 4 ==> b < 0x10)
    ensures 0x1_0000 <= a * 0x4_0000 + b * 0x1000 + c * 0x40 + e < 0x11_0000
    ensures Utf8Of(a * 0x4_0000 + b * 0x1000 + c * 0x40 + e)
         == [(0xF0 + a) as byte, (0x80 + b) as byte, (0x80 + c) as byte, (0x80 + e) as byte]
  {
    var x := a * 0x4_0000 + b * 0x1000 + c * 0x40 + e;
    assert x / 0x4_0000 == a && x / 0x1000 == a * 0x40 + b && x / 0x40 == (a * 0x40 + b) * 0x40 + c && x % 0x40 == e;
  }

  /** The first character of some bytes, what it takes, and the rest. */
  lemma DecodeParts(s: seq<byte>) returns (first: Scalar, n: nat)
    requires s != []
    ensures 1 <= n <= |s| && Decode(s) == [first] + Decode(s[n..])
    ensures first != REPLACEMENT ==> Utf8Of(first) == s[..n]
  {
    first, n := DecodeOne(s).0, DecodeOne(s).1;
    if first != REPLACEMENT {
      OneReencodes(s);
    }
  }

  /** Only its own encoding decodes to a text without replacement characters. */
  lemma {:induction false} ReencodesUnlessReplaced(s: seq<byte>)
    requires REPLACEMENT !in Decode(s)
    ensures Utf8(Decode(s)) == s
    decreases |s|
  {
    if s != [] {
      var first, n := DecodeParts(s);
      var rest := Decode(s[n..]);
      assert first in [first] + rest && forall c :: c in rest ==> c in [first] + rest;
      ReencodesUnlessReplaced(s[n..]);
      assert s == s[..n] + s[n..];
    }
  }

  lemma DecodeCons(c: Scalar, bytes: seq<byte>)
    ensures Decode(Utf8Of(c) + bytes) == [c] + Decode(bytes)
  {
    NewlineByteIsNewline(c);
    EncodedDecodes(c, bytes);
    assert (Utf8Of(c) + bytes)[|Utf8Of(c)|..] == bytes;
  }

  lemma {:induction false} UnitsHoldReplacement(text: seq<Scalar>)
    ensures 0xFFFD in Utf16(text) <==> REPLACEMENT in text
  {
    if text != [] {
      UnitsHoldReplacement(text[1..]);
      assert text == [text[0]] + text[1..];
      assert 0xFFFD in Utf16Of(text[0]) <==> text[0] == REPLACEMENT;
    }
  }

  lemma {:induction false} DecodesOnAfterUtf8(text: seq<Scalar>, more: seq<byte>)
    ensures Decode(Utf8(text) + more) == text + Decode(more)
  {
    if text == [] {
      assert Utf8(text) + more == more;
    } else {
      DecodesOnAfterUtf8(text[1..], more);
      Associative(Utf8Of(text[0]), Utf8(text[1..]), more);
      DecodeCons(text[0], Utf8(text[1..]) + more);
      Associative([text[0]], text[1..], Decode(more));
      assert text == [text[0]] + text[1..];
    }
  }

  /** For any text with a replacement character there are other bytes that read the same. */
  lemma OtherBytesReadTheSame(s: seq<CodeUnit>) returns (bytes: seq<byte>)
    requires NoLoneSurrogates(s) && 0xFFFD in s
    ensures DecodeText(bytes) == s && bytes != EncodeText(s)
  {
    var text := ToWellFormed(s);
    WellFormedKeepsText(s);
    AcceptedDecodes(s);
    UnitsHoldReplacement(text);
    var i :| 0 <= i < |text| && text[i] == REPLACEMENT;
    bytes := Utf8(text[..i]) + ([0xFF] + Utf8(text[i + 1..]));
    StrayForReplacement(text, i);
  }

  lemma StrayForReplacement(text: seq<Scalar>, i: nat)
    requires i < |text| && text[i] == REPLACEMENT
    ensures var bytes := Utf8(text[..i]) + ([0xFF] + Utf8(text[i + 1..])); Decode(bytes) == text && |bytes| < |Utf8(text)|
  {
    StrayDecodes(text[..i], text[i + 1..]);
    assert text == text[..i] + ([REPLACEMENT] + text[i + 1..]);
    StrayIsShorter(text, i);
  }

  lemma StrayDecodes(head: seq<Scalar>, tail: seq<Scalar>)
    ensures Decode(Utf8(head) + ([0xFF] + Utf8(tail))) == head + ([REPLACEMENT] + tail)
  {
    DecodesOnAfterUtf8(head, [0xFF] + Utf8(tail));
    DecodesWhatWasEncoded(tail);
  }

  lemma StrayIsShorter(text: seq<Scalar>, i: nat)
    requires i < |text| && text[i] == REPLACEMENT
    ensures |Utf8(text)| == |Utf8(text[..i])| + 3 + |Utf8(text[i + 1..])|
  {
    Utf8Splits(text, i);
    assert text[i..][1..] == text[i + 1..];
  }

  /** A string is told from its bytes: they read as it exactly when they are its encoding. */
  ghost predicate Telling(s: seq<CodeUnit>) {
    forall bytes: seq<byte> :: DecodeText(bytes) == s <==> bytes == EncodeText(s)
  }

  /** That holds exactly of the strings with neither a lone surrogate nor a replacement character. */
  lemma TellingExactly(s: seq<CodeUnit>)
    ensures Telling(s) <==> NoLoneSurrogates(s) && 0xFFFD !in s
  {
    ReadsBackExactly(s);
    if NoLoneSurrogates(s) && 0xFFFD !in s {
      forall bytes: seq<byte> | DecodeText(bytes) == s ensures bytes == EncodeText(s) {
        ReadsOnlyItself(s, bytes);
      }
    } else if NoLoneSurrogates(s) {
      var bytes := OtherBytesReadTheSame(s);
    } else {
      assert DecodeText(EncodeText(s)) != s;
    }
  }

  lemma ReadsOnlyItself(s: seq<CodeUnit>, bytes: seq<byte>)
    requires 0xFFFD !in s && DecodeText(bytes) == s
    ensures bytes == EncodeText(s)
  {
    var text := Decode(bytes);
    UnitsHoldReplacement(text);
    ReencodesUnlessReplaced(bytes);
    EncodingsAreAccepted(text);
    WellFormedKeepsText(s);
  }
}
