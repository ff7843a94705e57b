/** The tailer: a transcript is parsed up to its last newline, and a checkpoint tells whether new
    complete lines have landed since. */
module Tailer {
  import opened Common
  import opened Spool
  import opened Unicode

  type Text = seq<Scalar>

  /** `byteOffset` is the UTF-8 length of the complete prefix, `lineNo` its number of lines. */
  datatype Checkpoint = Checkpoint(byteOffset: nat, lineNo: nat)

  datatype TailResult<S> = TailResult(session: S, checkpoint: Checkpoint, advanced: bool)

  /** `lastIndexOf("\n")`, -1 when there is none. */
  function LastNewline(content: Text): (k: int)
    ensures -1 <= k < |content|
    ensures k >= 0 ==> content[k] == 0x0A
    ensures forall i :: k < i < |content| ==> content[i] != 0x0A
  {
    if content == [] then -1
    else if content[|content| - 1] == 0x0A then |content| - 1
    else LastNewline(content[..|content| - 1])
  }

  function CompletePrefix(content: Text): Text {
    content[..LastNewline(content) + 1]
  }

  function NewlineCount(s: Text): nat {
    if s == [] then 0 else NewlineCount(s[..|s| - 1]) + if s[|s| - 1] == 0x0A then 1 else 0
  }

  method CountLines(s: Text) returns (n: nat)
    ensures n == NewlineCount(s)
  {
    if |s| == 0 {
      return 0;
    }
    n := 0;
    for i := 0 to |s|
      invariant n == NewlineCount(s[..i])
    {
      assert s[..i + 1][..i] == s[..i];
      if s[i] == 0x0A {
        n := n + 1;
      }
    }
    assert s[..|s|] == s;
  }

  function Newlines(s: Text): set<nat> {
    set i | 0 <= i < |s| && s[i] == 0x0A
  }

  /** It is the number of positions that hold a newline. */
  lemma {:induction false} NewlinesAreCounted(s: Text)
    ensures NewlineCount(s) == |Newlines(s)|
  {
    if s == [] {
      assert Newlines(s) == {};
    } else {
      var n := |s| - 1;
      NewlinesAreCounted(s[..n]);
      assert Newlines(s) == Newlines(s[..n]) + (if s[n] == 0x0A then {n} else {});
    }
  }

  /** The UTF-8 length of a character. */
  function Width(c: Scalar): (n: nat)
    ensures 1 <= n <= 4
  {
    if c < 0x80 then 1 else if c < 0x800 then 2 else if c < 0x1_0000 then 3 else 4
  }

  /** `Buffer.byteLength(text, "utf8")`. */
  function ByteLength(text: Text): nat {
    if text == [] then 0 else Width(text[0]) + ByteLength(text[1..])
  }

  lemma {:induction false} ByteLengthIsUtf8(text: Text)
    ensures ByteLength(text) == |Utf8(text)|
  {
    if text != [] {
      ByteLengthIsUtf8(text[1..]);
    }
  }

  function CheckpointOf(content: Text): Checkpoint {
    Checkpoint(ByteLength(CompletePrefix(content)), NewlineCount(CompletePrefix(content)))
  }

  /** New complete lines landed since the checkpoint. */
  predicate Advanced(prior: Option<Checkpoint>, now: Checkpoint) {
    prior.None? || now.byteOffset > prior.value.byteOffset || now.lineNo != prior.value.lineNo
  }

  /** What one tail of a file gives; `parse` is the transcript parser over complete lines. */
  function Tail<S>(file: seq<byte>, prior: Option<Checkpoint>, parse: Text -> S): TailResult<S> {
    var now := CheckpointOf(Decode(file));
    TailResult(parse(CompletePrefix(Decode(file))), now, Advanced(prior, now))
  }

  method TailTranscript<S>(file: seq<byte>, prior: Option<Checkpoint>, parse: Text -> S) returns (r: TailResult<S>)
    ensures r == Tail(file, prior, parse)
  {
    var complete := CompletePrefix(Decode(file));
    var lines := CountLines(complete);
    var checkpoint := Checkpoint(ByteLength(complete), lines);
    var advanced := prior.None? || checkpoint.byteOffset > prior.value.byteOffset || checkpoint.lineNo != prior.value.lineNo;
    return TailResult(parse(complete), checkpoint, advanced);
  }

  ghost predicate CompleteLines(s: Text) {
    s == [] || s[|s| - 1] == 0x0A
  }

  /** The complete prefix is the longest prefix made of complete lines, so a half-written line is
      never part of it. */
  lemma LongestCompletePrefix(content: Text, other: Text)
    requires other <= content && CompleteLines(other)
    ensures CompleteLines(CompletePrefix(content)) && CompletePrefix(content) <= content
    ensures other <= CompletePrefix(content)
  {
    assert other != [] ==> content[|other| - 1] == 0x0A;
  }

  // ----- the file is bytes, and it grows by bytes -----

  /** The bytes up to the last newline byte. */
  function WholeLines(file: seq<byte>): (b: seq<byte>)
    ensures b <= file && Terminated(b) && NEWLINE !in file[|b|..]
    decreases |file|
  {
    if file == [] || file[|file| - 1] == NEWLINE then file
    else
      var b := WholeLines(file[..|file| - 1]);
      assert file[|b|..] == file[..|file| - 1][|b|..] + [file[|file| - 1]];
      b
  }

  /** The complete text is the text of the whole lines: neither a half-written line nor the first
      bytes of a character at the end of the file change it. */
  lemma CompleteIsWholeLines(file: seq<byte>)
    ensures CompletePrefix(Decode(file)) == Decode(WholeLines(file))
  {
    var b, rest := WholeLines(file), file[|WholeLines(file)|..];
    assert file == b + rest;
    DecodeSplitsAtNewline(b, rest);
    DecodeKeepsNewlineFree(rest);
    if b != [] {
      DecodeEndsInNewline(b);
    }
    PrefixOfJoined(Decode(b), Decode(rest));
  }

  lemma PrefixOfJoined(head: Text, tail: Text)
    requires CompleteLines(head) && 0x0A !in tail
    ensures CompletePrefix(head + tail) == head
  {
    var all := head + tail;
    assert forall i :: |head| <= i < |all| ==> all[i] == tail[i - |head|];
    assert head != [] ==> all[|head| - 1] == 0x0A;
    assert LastNewline(all) == |head| - 1;
    assert all[..|head|] == head;
  }

  lemma NewlineBelow(file: seq<byte>, i: nat)
    requires i < |file| && file[i] == NEWLINE
    ensures i < |WholeLines(file)|
  {
    var b := WholeLines(file);
    forall j | |b| <= j < |file| ensures file[j] != NEWLINE {
      assert file[j] == file[|b|..][j - |b|];
    }
  }

  /** Bytes without a newline complete no line. */
  lemma NoNewlineNoLine(file: seq<byte>, more: seq<byte>)
    requires NEWLINE !in more
    ensures WholeLines(file + more) == WholeLines(file)
  {
    var all, b, b' := file + more, WholeLines(file), WholeLines(file + more);
    if b != [] {
      NewlineBelow(all, |b| - 1);
    }
    if b' != [] {
      assert all[|b'| - 1] == NEWLINE;
      assert |b'| <= |file| by {
        assert forall i :: |file| <= i < |all| ==> all[i] == more[i - |file|];
      }
      NewlineBelow(file, |b'| - 1);
    }
  }

  /** Bytes with a newline complete the line under way and perhaps more. */
  lemma NewlineCompletesLine(file: seq<byte>, more: seq<byte>)
    requires NEWLINE in more
    ensures file < WholeLines(file + more)
  {
    var i :| 0 <= i < |more| && more[i] == NEWLINE;
    NewlineBelow(file + more, |file| + i);
  }

  lemma WholeLinesGrow(file: seq<byte>, more: seq<byte>)
    ensures WholeLines(file) <= WholeLines(file + more)
    ensures WholeLines(file + more) == WholeLines(file) <==> NEWLINE !in more
  {
    if NEWLINE in more {
      NewlineCompletesLine(file, more);
    } else {
      NoNewlineNoLine(file, more);
    }
  }

  /** The text of the lines that `more` completes. */
  ghost function NewText(file: seq<byte>, more: seq<byte>): Text {
    WholeLinesGrow(file, more);
    Decode(WholeLines(file + more)[|WholeLines(file)|..])
  }

  /** Appending bytes adds the text of the whole lines they complete, and some text exactly when
      they hold a newline. */
  lemma AppendAddsLines(file: seq<byte>, more: seq<byte>)
    ensures CompletePrefix(Decode(file + more)) == CompletePrefix(Decode(file)) + NewText(file, more)
    ensures NewText(file, more) != [] <==> NEWLINE in more
  {
    var b, b' := WholeLines(file), WholeLines(file + more);
    WholeLinesGrow(file, more);
    CompleteIsWholeLines(file);
    CompleteIsWholeLines(file + more);
    assert b' == b + b'[|b|..];
    DecodeSplitsAtNewline(b, b'[|b|..]);
    RestOfLines(b, b');
  }

  lemma RestOfLines(b: seq<byte>, longer: seq<byte>)
    requires b <= longer && Terminated(longer)
    ensures Decode(longer[|b|..]) != [] <==> b != longer
  {
    var added := longer[|b|..];
    if added != [] {
      assert added[|added| - 1] == NEWLINE;
      DecodeEndsInNewline(added);
    }
  }

  lemma {:induction false} MoreTextMoreBytes(s: Text, t: Text)
    ensures ByteLength(s + t) == ByteLength(s) + ByteLength(t)
    ensures t != [] ==> ByteLength(t) > 0
  {
    if s == [] {
      assert s + t == t;
    } else {
      assert (s + t)[1..] == s[1..] + t;
      MoreTextMoreBytes(s[1..], t);
    }
  }

  /** Against the checkpoint of any earlier state of the file, `advanced` is true exactly when the
      bytes written since hold a newline; when it is false the session is the earlier one. */
  lemma AdvancedExactlyWhenGrown<S>(file: seq<byte>, more: seq<byte>, parse: Text -> S)
    ensures CompletePrefix(Decode(file)) <= CompletePrefix(Decode(file + more))
    ensures var earlier := Tail(file, None, parse);
            var later := Tail(file + more, Some(earlier.checkpoint), parse);
            && (later.advanced <==> NEWLINE in more)
            && (!later.advanced ==> later.session == earlier.session && later.checkpoint == earlier.checkpoint)
  {
    var before, added := CompletePrefix(Decode(file)), NewText(file, more);
    AppendAddsLines(file, more);
    MoreTextMoreBytes(before, added);
    if added == [] {
      assert before + added == before;
    }
  }

  // ----- following a file -----

  /** A reader that tails after every write with the checkpoint of its last tail, and keeps the
      session it has when nothing advanced. */
  datatype Followed<S> = Followed(file: seq<byte>, checkpoint: Option<Checkpoint>, session: Option<S>)

  function Follow<S>(writes: seq<seq<byte>>, parse: Text -> S): Followed<S> {
    if writes == [] then Followed([], None, None)
    else
      var n := |writes| - 1;
      var before := Follow(writes[..n], parse);
      var r := Tail(before.file + writes[n], before.checkpoint, parse);
      Followed(before.file + writes[n], Some(r.checkpoint), if r.advanced then Some(r.session) else before.session)
  }

  function AllBytes(writes: seq<seq<byte>>): seq<byte> {
    if writes == [] then [] else AllBytes(writes[..|writes| - 1]) + writes[|writes| - 1]
  }

  /** However the file is cut into writes, also in the middle of a line or of a character, the
      session the reader holds is that of one full tail of the file as it is; when the file ends
      in a newline, it is the parse of its whole text. */
  lemma {:induction false} IncrementalEqualsFull<S>(writes: seq<seq<byte>>, parse: Text -> S)
    ensures var f := Follow(writes, parse);
            && f.file == AllBytes(writes)
            && (writes != [] ==>
                  && f.checkpoint == Some(Tail(f.file, None, parse).checkpoint)
                  && f.session == Some(Tail(f.file, None, parse).session)
                  && (Terminated(f.file) ==> f.session == Some(parse(Decode(f.file)))))
  {
    if writes != [] {
      var n := |writes| - 1;
      IncrementalEqualsFull(writes[..n], parse);
      FollowStep(Follow(writes[..n], parse), writes[n], parse);
    }
  }

  lemma FollowStep<S>(before: Followed<S>, more: seq<byte>, parse: Text -> S)
    requires before.checkpoint.None? ||
             (before.checkpoint == Some(Tail(before.file, None, parse).checkpoint)
              && before.session == Some(Tail(before.file, None, parse).session))
    ensures var r := Tail(before.file + more, before.checkpoint, parse);
            && r.checkpoint == Tail(before.file + more, None, parse).checkpoint
            && (if r.advanced then Some(r.session) else before.session) == Some(Tail(before.file + more, None, parse).session)
            && (Terminated(before.file + more) ==> r.session == parse(Decode(before.file + more)))
  {
    AdvancedExactlyWhenGrown(before.file, more, parse);
    if Terminated(before.file + more) {
      TailOfWholeFile(before.file + more);
    }
  }

  lemma TailOfWholeFile(file: seq<byte>)
    requires Terminated(file)
    ensures CompletePrefix(Decode(file)) == Decode(file)
  {
    CompleteIsWholeLines(file);
    if file != [] {
      NewlineBelow(file, |file| - 1);
    }
  }

  // ----- the checkpoint's offset -----

  /** The checkpoint counts the bytes of the decoded text, a replacement character as three, so it
      is never short of the whole lines' bytes. */
  lemma {:induction false} OffsetIsNeverShort(file: seq<byte>)
    ensures |file| <= ByteLength(Decode(file))
    decreases |file|
  {
    if file != [] {
      OffsetIsNeverShort(file[DecodeOne(file).1..]);
    }
  }

  /** The widths of the characters are the bytes they were decoded from. */
  ghost predicate KeepsWidths(s: seq<byte>)
    decreases |s|
  {
    s == [] || (Width(DecodeOne(s).0) == DecodeOne(s).1 && KeepsWidths(s[DecodeOne(s).1..]))
  }

  /** It is the offset just past the last newline exactly when every malformed sequence of the
      whole lines is three bytes long, as it is when there is none. */
  lemma {:induction false} OffsetIsByteOffsetExactly(file: seq<byte>)
    ensures CheckpointOf(Decode(file)).byteOffset == |WholeLines(file)| <==> KeepsWidths(WholeLines(file))
  {
    CompleteIsWholeLines(file);
    WidthsAddUp(WholeLines(file));
  }

  lemma {:induction false} WidthsAddUp(s: seq<byte>)
    ensures ByteLength(Decode(s)) == |s| <==> KeepsWidths(s)
    decreases |s|
  {
    if s != [] {
      var n := DecodeOne(s).1;
      WidthsAddUp(s[n..]);
      OffsetIsNeverShort(s[n..]);
    }
  }

  lemma {:induction false} EncodedKeepsWidths(text: Text)
    ensures KeepsWidths(Utf8(text))
  {
    DecodesWhatWasEncoded(text);
    ByteLengthIsUtf8(text);
    WidthsAddUp(Utf8(text));
  }

  /** One byte that starts no character counts as three. */
  lemma StrayByteOvershoots()
    ensures CheckpointOf(Decode([0xFF, 0x0A])).byteOffset == 4 && |WholeLines([0xFF, 0x0A])| == 2
  {
    var file: seq<byte> := [0xFF, 0x0A];
    assert file[1..] == [0x0A] && [0x0A as byte][1..] == [];
    assert Decode([0x0A]) == [0x0A] + Decode([]);
    assert Decode(file) == [REPLACEMENT, 0x0A];
    assert CompletePrefix([REPLACEMENT, 0x0A]) == [REPLACEMENT, 0x0A];
    assert [REPLACEMENT, 0x0A as Scalar][1..] == [0x0A];
    assert ByteLength([0x0A]) == 1;
    assert ByteLength([REPLACEMENT, 0x0A]) == 4;
  }
}
