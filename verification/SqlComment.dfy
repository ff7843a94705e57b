/** The greedy word wrap of the permission generator: correct, and with the fewest lines. */
module SqlComment {
  import opened Unicode

  /** Text as the program counts it, in UTF-16 code units. */
  type Text = seq<CodeUnit>

  const DASHES: Text := [0x2D, 0x2D, 0x20]
  const SPACE: Text := [0x20]
  const LINE_BREAK: Text := [0x0A]

  const MARGIN := 76

  function Join(words: seq<Text>, sep: Text): Text {
    if words == [] then []
    else if |words| == 1 then words[0]
    else words[0] + sep + Join(words[1..], sep)
  }

  /** Splitting at runs of white space: a word is empty only before a leading or after a
      trailing run. */
  function SplitWords(text: Text, isSpace: CodeUnit -> bool): seq<Text>
    decreases |text|
  {
    var k := RunLength(text, isSpace, false);
    if k == |text| then [text] else [text[..k]] + SplitWords(AfterRun(text, k, isSpace), isSpace)
  }

  /** The length of the leading run of white space, or of anything else. */
  function RunLength(text: Text, isSpace: CodeUnit -> bool, space: bool): (n: nat)
    ensures n <= |text|
    ensures forall i :: 0 <= i < n ==> isSpace(text[i]) == space
    ensures n < |text| ==> isSpace(text[n]) != space
  {
    if text == [] || isSpace(text[0]) != space then 0 else 1 + RunLength(text[1..], isSpace, space)
  }

  /** What follows the run of white space at `k`. */
  function AfterRun(text: Text, k: nat, isSpace: CodeUnit -> bool): (rest: Text)
    requires k < |text| && isSpace(text[k])
    ensures |rest| < |text| - k
    ensures rest != [] ==> !isSpace(rest[0])
  {
    text[k..][RunLength(text[k..], isSpace, true)..]
  }

  /** The wrap loop from a started `line` on. */
  function Wrap(line: Text, words: seq<Text>): seq<Text>
    decreases |words|
  {
    if words == [] then (if line != [] then [DASHES + line] else [])
    else
      var w := words[0];
      if line != [] && |DASHES + line + SPACE + w| > MARGIN then [DASHES + line] + Wrap(w, words[1..])
      else Wrap(if line != [] then line + SPACE + w else w, words[1..])
  }

  method SqlCommentOf(text: Text, isSpace: CodeUnit -> bool) returns (comment: Text)
    ensures comment == Join(Wrap([], SplitWords(text, isSpace)), [0x0A])
  {
    var words := SplitWords(text, isSpace);
    var lines: seq<Text> := [];
    var line := [];
    var i := 0;
    while i < |words|
      invariant 0 <= i <= |words|
      invariant Wrap([], words) == lines + Wrap(line, words[i..])
    {
      var w := words[i];
      assert words[i..][0] == w && words[i..][1..] == words[i + 1..];
      if line != [] && |DASHES + line + SPACE + w| > MARGIN {
        lines := lines + [DASHES + line];
        line := w;
      } else {
        line := if line != [] then line + SPACE + w else w;
      }
      i := i + 1;
    }
    assert words[i..] == [] && lines + [] == lines;
    if line != [] {
      lines := lines + [DASHES + line];
    }
    assert lines == Wrap([], words);
    comment := Join(lines, LINE_BREAK);
  }

  // ----- what a breaking is -----

  function Flatten(parts: seq<seq<Text>>): seq<Text> {
    if parts == [] then [] else parts[0] + Flatten(parts[1..])
  }

  function Render(part: seq<Text>): Text {
    [0x2D, 0x2D, 0x20] + Join(part, [0x20])
  }

  function RenderAll(parts: seq<seq<Text>>): seq<Text> {
    if parts == [] then [] else [Render(parts[0])] + RenderAll(parts[1..])
  }

  /** A line fits the margin, or is a single word that cannot be broken. */
  predicate Fits(part: seq<Text>) {
    |part| == 1 || (|part| > 1 && |Render(part)| <= 76)
  }

  ghost predicate Breaks(parts: seq<seq<Text>>, words: seq<Text>) {
    Flatten(parts) == words && forall i :: 0 <= i < |parts| ==> Fits(parts[i])
  }

  ghost predicate NonEmpty(words: seq<Text>) {
    forall i :: 0 <= i < |words| ==> words[i] != []
  }

  /** The breaking the loop makes from a started line holding `part`. */
  function Parts(part: seq<Text>, words: seq<Text>): seq<seq<Text>>
    requires part != []
    decreases |words|
  {
    if words == [] then [part]
    else if |Render(part + [words[0]])| > MARGIN then [part] + Parts([words[0]], words[1..])
    else Parts(part + [words[0]], words[1..])
  }

  lemma {:induction false} JoinLast(part: seq<Text>, w: Text, sep: Text)
    requires part != []
    ensures Join(part + [w], sep) == Join(part, sep) + sep + w
  {
    if |part| == 1 {
      assert (part + [w])[1..] == [w];
    } else {
      JoinLast(part[1..], w, sep);
      assert (part + [w])[1..] == part[1..] + [w];
    }
  }

  lemma {:induction false} WrapIsParts(part: seq<Text>, words: seq<Text>)
    requires part != [] && NonEmpty(part) && NonEmpty(words)
    ensures Wrap(Join(part, SPACE), words) == RenderAll(Parts(part, words))
    decreases |words|
  {
    if words == [] {
      assert RenderAll([part]) == [Render(part)] + RenderAll([]);
    } else {
      var w := words[0];
      JoinLast(part, w, SPACE);
      assert DASHES + Join(part, SPACE) + SPACE + w == Render(part + [w]);
      if |Render(part + [w])| > MARGIN {
        WrapIsParts([w], words[1..]);
        assert Parts(part, words)[1..] == Parts([w], words[1..]);
      } else {
        WrapIsParts(part + [w], words[1..]);
        assert Join(part, SPACE) + SPACE + w == Join(part + [w], SPACE);
      }
    }
  }

  lemma {:induction false} PartsBreak(part: seq<Text>, words: seq<Text>)
    requires part != [] && Fits(part)
    ensures Breaks(Parts(part, words), part + words)
    decreases |words|
  {
    if words == [] {
      assert Flatten([part]) == part + Flatten([]);
    } else {
      assert words == [words[0]] + words[1..];
      if |Render(part + [words[0]])| > MARGIN {
        PartsBreak([words[0]], words[1..]);
        assert Parts(part, words)[1..] == Parts([words[0]], words[1..]);
      } else {
        PartsBreak(part + [words[0]], words[1..]);
        assert part + words == part + [words[0]] + words[1..];
      }
    }
  }

  // ----- fewest lines -----

  lemma {:induction false} JoinGrows(before: seq<Text>, part: seq<Text>, after: seq<Text>)
    requires part != []
    ensures |Join(part, SPACE)| <= |Join(before + part + after, SPACE)|
    decreases |before|, |after|
  {
    if before != [] {
      JoinGrows(before[1..], part, after);
      assert (before + part + after)[1..] == before[1..] + part + after;
    } else if after != [] {
      var init := after[..|after| - 1];
      JoinGrows([], part, init);
      JoinLast(part + init, after[|after| - 1], SPACE);
      assert [] + part + init == part + init;
      assert before + part + after == part + init + [after[|after| - 1]];
    } else {
      assert before + part + after == part;
    }
  }

  /** Greedy stays ahead: a breaking of the same text whose first line starts no later than the
      loop's current one needs at least as many lines. */
  lemma {:induction false} GreedyStaysAhead(extra: seq<Text>, part: seq<Text>, words: seq<Text>, other: seq<seq<Text>>)
    requires part != [] && Breaks(other, extra + part + words)
    ensures |Parts(part, words)| <= |other|
    decreases |words|
  {
    if words != [] {
      var w, rest := words[0], words[1..];
      assert words == [w] + rest;
      if |Render(part + [w])| <= MARGIN {
        assert extra + part + words == extra + (part + [w]) + rest;
        GreedyStaysAhead(extra, part + [w], rest, other);
      } else {
        FirstLineStops(extra, part, words, other);
        var k := |other[0]|;
        var extra' := (extra + part)[k..];
        assert Flatten(other[1..]) == (extra + part + words)[k..] == extra' + [w] + rest;
        GreedyStaysAhead(extra', [w], rest, other[1..]);
      }
    }
  }

  /** When the next word overflows the loop's line it overflows the other breaking's first line too. */
  lemma FirstLineStops(extra: seq<Text>, part: seq<Text>, words: seq<Text>, other: seq<seq<Text>>)
    requires part != [] && words != [] && Breaks(other, extra + part + words)
    requires |Render(part + [words[0]])| > MARGIN
    ensures other != [] && |other[0]| <= |extra| + |part|
  {
    var first := other[0];
    assert first == (extra + part + words)[..|first|];
    if |first| > |extra| + |part| {
      var after := first[|extra| + |part| + 1..];
      assert first == extra + (part + [words[0]]) + after;
      JoinGrows(extra, part + [words[0]], after);
    }
  }

  /** The wrap's lines join back to the words, each fits the margin or is one word, and no other
      breaking has fewer lines. */
  lemma WrapIsCorrectAndOptimal(words: seq<Text>) returns (parts: seq<seq<Text>>)
    requires NonEmpty(words)
    ensures Wrap([], words) == RenderAll(parts)
    ensures Breaks(parts, words)
    ensures forall other :: Breaks(other, words) ==> |parts| <= |other|
  {
    if words == [] {
      parts := [];
    } else {
      var w, rest := words[0], words[1..];
      assert words == [w] + rest;
      parts := Parts([w], rest);
      WrapIsParts([w], rest);
      PartsBreak([w], rest);
      forall other | Breaks(other, words) ensures |parts| <= |other| {
        assert words == [] + [w] + rest;
        GreedyStaysAhead([], [w], rest, other);
      }
    }
  }

  // ----- the empty words at the ends of the text -----

  /** A leading run of white space leaves no trace. */
  lemma LeadingBlankIsInvisible(words: seq<Text>)
    ensures Wrap([], [[]] + words) == Wrap([], words)
  {
    assert ([[]] + words)[1..] == words;
  }

  /** A trailing run adds one blank to the last line when it still fits, and nothing otherwise. */
  lemma {:induction false} TrailingBlank(line: Text, words: seq<Text>)
    requires NonEmpty(words)
    ensures var plain, blank := Wrap(line, words), Wrap(line, words + [[]]);
            || blank == plain
            || (plain != [] && |plain[|plain| - 1]| < MARGIN
                && blank == plain[|plain| - 1 := plain[|plain| - 1] + SPACE])
    decreases |words|
  {
    if words == [] {
      assert (words + [[]])[1..] == [];
      assert line + SPACE + [] == line + SPACE;
      assert DASHES + line + SPACE == DASHES + (line + SPACE);
    } else {
      assert (words + [[]])[1..] == words[1..] + [[]];
      if line != [] && |DASHES + line + SPACE + words[0]| > MARGIN {
        TrailingBlank(words[0], words[1..]);
      } else {
        TrailingBlank(if line != [] then line + SPACE + words[0] else words[0], words[1..]);
      }
    }
  }

  /** Only the first and the last word of a split can be empty. */
  lemma {:induction false} InnerWordsAreNonEmpty(text: Text, isSpace: CodeUnit -> bool)
    ensures forall i :: 0 < i < |SplitWords(text, isSpace)| - 1 ==> SplitWords(text, isSpace)[i] != []
    ensures text != [] && !isSpace(text[0]) ==> SplitWords(text, isSpace)[0] != []
    decreases |text|
  {
    var k := RunLength(text, isSpace, false);
    if k < |text| {
      var rest := AfterRun(text, k, isSpace);
      InnerWordsAreNonEmpty(rest, isSpace);
    }
  }

  // ----- the whole comment -----

  /** The words of a text: its maximal runs of anything but white space. */
  function WordsOf(text: Text, isSpace: CodeUnit -> bool): seq<Text>
    decreases |text|
  {
    var rest := text[RunLength(text, isSpace, true)..];
    if rest == [] then []
    else
      var k := RunLength(rest, isSpace, false);
      if k == 0 then [] else [rest[..k]] + WordsOf(rest[k..], isSpace)
  }

  lemma OneMoreWord(word: Text, words: seq<Text>, isSpace: CodeUnit -> bool)
    requires word != [] && forall c :: c in word ==> !isSpace(c)
    requires forall i :: 0 <= i < |words| ==> words[i] != [] && forall c :: c in words[i] ==> !isSpace(c)
    ensures forall i :: 0 <= i < |[word] + words| ==>
              ([word] + words)[i] != [] && forall c :: c in ([word] + words)[i] ==> !isSpace(c)
  {}

  /** No word is empty or holds white space. */
  lemma {:induction false} WordsAreWords(text: Text, isSpace: CodeUnit -> bool)
    ensures forall i :: 0 <= i < |WordsOf(text, isSpace)| ==>
              WordsOf(text, isSpace)[i] != [] && forall c :: c in WordsOf(text, isSpace)[i] ==> !isSpace(c)
    decreases |text|
  {
    var rest := text[RunLength(text, isSpace, true)..];
    if rest != [] {
      var k := RunLength(rest, isSpace, false);
      if k > 0 {
        WordsAreWords(rest[k..], isSpace);
        OneMoreWord(rest[..k], WordsOf(rest[k..], isSpace), isSpace);
      }
    }
  }

  /** Gaps and words in turn, a gap at either end. */
  function Weave(gaps: seq<Text>, words: seq<Text>): Text
    requires |gaps| == |words| + 1
  {
    if words == [] then gaps[0] else gaps[0] + words[0] + Weave(gaps[1..], words[1..])
  }

  /** Gaps are white space, and only the first and the last can be empty. */
  ghost predicate Separate(gaps: seq<Text>, isSpace: CodeUnit -> bool) {
    && (forall i, c :: 0 <= i < |gaps| && c in gaps[i] ==> isSpace(c))
    && (forall i :: 0 < i < |gaps| - 1 ==> gaps[i] != [])
  }

  lemma FirstRun(text: Text, isSpace: CodeUnit -> bool) returns (gap: Text, word: Text, tail: Text)
    requires text[RunLength(text, isSpace, true)..] != []
    ensures text == gap + word + tail && word != []
    ensures WordsOf(text, isSpace) == [word] + WordsOf(tail, isSpace)
    ensures (forall c :: c in gap ==> isSpace(c)) && (gap == [] <==> !isSpace(text[0]))
    ensures tail != [] ==> isSpace(tail[0])
  {
    var lead := RunLength(text, isSpace, true);
    var rest := text[lead..];
    var k := RunLength(rest, isSpace, false);
    gap, word, tail := text[..lead], rest[..k], rest[k..];
    assert rest == word + tail && text == gap + rest && rest[0] == text[lead];
    assert text == gap + word + tail;
  }

  /** The text is its words, and white space between any two of them and perhaps at the ends: with
      `WordsAreWords`, the words are the maximal runs of anything but white space. */
  lemma {:induction false} WordsAreTheRuns(text: Text, isSpace: CodeUnit -> bool) returns (gaps: seq<Text>)
    ensures |gaps| == |WordsOf(text, isSpace)| + 1 && Separate(gaps, isSpace)
    ensures Weave(gaps, WordsOf(text, isSpace)) == text
    ensures text != [] && !isSpace(text[0]) ==> gaps[0] == []
    ensures text != [] && isSpace(text[0]) ==> gaps[0] != []
    decreases |text|
  {
    if text[RunLength(text, isSpace, true)..] == [] {
      gaps := [text];
    } else {
      var gap, word, tail := FirstRun(text, isSpace);
      var more := WordsAreTheRuns(tail, isSpace);
      GapInFront(gap, word, more, WordsOf(tail, isSpace), isSpace);
      gaps := [gap] + more;
    }
  }

  lemma GapInFront(gap: Text, word: Text, gaps: seq<Text>, words: seq<Text>, isSpace: CodeUnit -> bool)
    requires |gaps| == |words| + 1 && Separate(gaps, isSpace) && (forall c :: c in gap ==> isSpace(c))
    requires words != [] ==> gaps[0] != []
    ensures Separate([gap] + gaps, isSpace) && Weave([gap] + gaps, [word] + words) == gap + word + Weave(gaps, words)
  {
    assert ([gap] + gaps)[1..] == gaps && ([word] + words)[1..] == words;
    forall i, c | 0 <= i < |[gap] + gaps| && c in ([gap] + gaps)[i] ensures isSpace(c) {
      assert i > 0 ==> ([gap] + gaps)[i] == gaps[i - 1];
    }
  }

  lemma WordsAfterRun(text: Text, k: nat, isSpace: CodeUnit -> bool)
    requires k < |text| && isSpace(text[k])
    ensures WordsOf(text[k..], isSpace) == WordsOf(AfterRun(text, k, isSpace), isSpace)
  {
    var rest := AfterRun(text, k, isSpace);
    assert rest[RunLength(rest, isSpace, true)..] == rest;
  }

  function Blank(there: bool): seq<Text> {
    if there then [[]] else []
  }

  /** The split gives the words, with an empty one in front or behind for white space at either end. */
  lemma {:induction false} SplitIsWords(text: Text, isSpace: CodeUnit -> bool) returns (lead: bool, trail: bool)
    ensures SplitWords(text, isSpace) == Blank(lead) + WordsOf(text, isSpace) + Blank(trail)
    ensures text != [] && !isSpace(text[0]) ==> !lead
    ensures trail ==> text != [] && isSpace(text[|text| - 1])
    decreases |text|
  {
    var k := RunLength(text, isSpace, false);
    if k == |text| {
      lead, trail := text == [], false;
      OneWord(text, isSpace);
    } else {
      var rest := AfterRun(text, k, isSpace);
      var restLead;
      restLead, trail := SplitIsWords(rest, isSpace);
      lead := k == 0;
      if rest == [] {
        trail := true;
      } else {
        assert rest[|rest| - 1] == text[|text| - 1];
      }
      SplitOfRest(rest, isSpace, restLead, trail);
      WordsStep(text, k, isSpace);
      Assemble(text[..k], WordsOf(rest, isSpace), Blank(trail));
    }
  }

  lemma OneWord(text: Text, isSpace: CodeUnit -> bool)
    requires RunLength(text, isSpace, false) == |text|
    ensures SplitWords(text, isSpace) == Blank(text == []) + WordsOf(text, isSpace) + Blank(false)
  {
    assert WordsOf([], isSpace) == [];
    if text != [] {
      assert text[..|text|] == text && text[|text|..] == [];
      assert WordsOf(text, isSpace) == [text] + [];
    }
  }

  lemma WordsStep(text: Text, k: nat, isSpace: CodeUnit -> bool)
    requires k < |text| && k == RunLength(text, isSpace, false)
    ensures var rest := AfterRun(text, k, isSpace);
            && WordsOf(text, isSpace) == (if text[..k] != [] then [text[..k]] else []) + WordsOf(rest, isSpace)
            && SplitWords(text, isSpace) == [text[..k]] + SplitWords(rest, isSpace)
    ensures k == 0 <==> text[..k] == []
  {
    WordsAfterRun(text, k, isSpace);
    if k == 0 {
      assert text[0..] == text;
    }
  }

  lemma SplitOfRest(rest: Text, isSpace: CodeUnit -> bool, lead: bool, trail: bool)
    requires if rest == [] then trail
             else !lead && SplitWords(rest, isSpace) == Blank(lead) + WordsOf(rest, isSpace) + Blank(trail)
    ensures SplitWords(rest, isSpace) == WordsOf(rest, isSpace) + Blank(trail)
  {
    var words := WordsOf(rest, isSpace);
    if rest == [] {
      assert words == [] && SplitWords(rest, isSpace) == [[]];
      assert [] + Blank(true) == [[]];
    } else {
      assert [] + words + Blank(trail) == words + Blank(trail);
    }
  }

  lemma Assemble(head: Text, words: seq<Text>, tail: seq<Text>)
    ensures [head] + (words + tail) == Blank(head == []) + ((if head != [] then [head] else []) + words) + tail
  {
    if head == [] {
      assert [[]] + ([] + words) + tail == [[]] + (words + tail);
    } else {
      assert [] + ([head] + words) + tail == [head] + (words + tail);
    }
  }

  /** What white space at the ends of the text does to the lines. */
  lemma WrapOfSplit(words: seq<Text>, lead: bool, trail: bool)
    requires NonEmpty(words)
    ensures var lines, plain := Wrap([], Blank(lead) + words + Blank(trail)), Wrap([], words);
            || lines == plain
            || (trail && plain != [] && |plain[|plain| - 1]| < MARGIN
                && lines == plain[|plain| - 1 := plain[|plain| - 1] + SPACE])
  {
    if lead {
      LeadingBlankIsInvisible(words + Blank(trail));
      assert Blank(lead) + words + Blank(trail) == [[]] + (words + Blank(trail));
    } else {
      assert Blank(lead) + words + Blank(trail) == words + Blank(trail);
    }
    if trail {
      TrailingBlank([], words);
    } else {
      assert words + [] == words;
    }
  }

  /** For every text the comment's lines are the words of the text broken so that each line fits the
      margin or is one word, with the fewest lines any such breaking has; white space at the end of
      the text may leave one blank at the end of the last line, where it fits. */
  lemma CommentIsCorrectAndOptimal(text: Text, isSpace: CodeUnit -> bool) returns (parts: seq<seq<Text>>)
    ensures Breaks(parts, WordsOf(text, isSpace))
    ensures forall other :: Breaks(other, WordsOf(text, isSpace)) ==> |parts| <= |other|
    ensures var lines, plain := Wrap([], SplitWords(text, isSpace)), RenderAll(parts);
            || lines == plain
            || (text != [] && isSpace(text[|text| - 1])
                && plain != [] && |plain[|plain| - 1]| < 76
                && lines == plain[|plain| - 1 := plain[|plain| - 1] + [0x20]])
  {
    var words := WordsOf(text, isSpace);
    var lead, trail := SplitIsWords(text, isSpace);
    WordsAreWords(text, isSpace);
    WrapOfSplit(words, lead, trail);
    parts := WrapIsCorrectAndOptimal(words);
  }
}
