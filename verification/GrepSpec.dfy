/** What `grep` should print for a text, and what its 1024-byte window makes of it. */
module GrepSpec {
  import opened CTypes

  const BUFSIZE := 1024

  /** Position of the first newline, or the length. */
  function LineLength(text: seq<byte>): (n: nat)
    ensures n <= |text|
    ensures n < |text| ==> text[n] == NEWLINE
    ensures forall i :: 0 <= i < n ==> text[i] != NEWLINE
  {
    if text == [] || text[0] == NEWLINE then 0 else 1 + LineLength(text[1..])
  }

  lemma {:induction false} LineLengthUnique(text: seq<byte>, n: nat)
    requires n <= |text| && (n < |text| ==> text[n] == NEWLINE)
    requires forall i :: 0 <= i < n ==> text[i] != NEWLINE
    ensures LineLength(text) == n
  {
    if n > 0 {
      LineLengthUnique(text[1..], n - 1);
    }
  }

  /** The text after the first line. */
  function AfterLine(text: seq<byte>): (rest: seq<byte>)
    ensures text != [] ==> |rest| < |text|
  {
    var n := LineLength(text);
    if n < |text| then text[n + 1..] else []
  }

  /** The lines of a text, without their newlines. */
  function Lines(text: seq<byte>): seq<seq<byte>>
    decreases |text|
  {
    if text == [] then [] else [text[..LineLength(text)]] + Lines(AfterLine(text))
  }

  /** A line as `grep` sees it: a line that does not fit in the window is cut to the window,
      and what is left of it counts as another line. */
  function FirstPiece(text: seq<byte>): seq<byte> {
    var n := LineLength(text);
    if n >= BUFSIZE then text[..BUFSIZE] else text[..n]
  }

  function AfterPiece(text: seq<byte>): (rest: seq<byte>)
    ensures text != [] ==> |rest| < |text|
  {
    if LineLength(text) >= BUFSIZE then text[BUFSIZE..] else AfterLine(text)
  }

  predicate MatchesAt(line: seq<byte>, pattern: seq<byte>, k: int) {
    0 <= k && k + |pattern| <= |line| && line[k..k + |pattern|] == pattern
  }

  predicate Contains(line: seq<byte>, pattern: seq<byte>) {
    exists k :: 0 <= k <= |line| && MatchesAt(line, pattern, k)
  }

  /** The lines to print: those containing the pattern, in order, each up to its first NUL. */
  function Select(lines: seq<seq<byte>>, pattern: seq<byte>): seq<seq<byte>> {
    if lines == [] then [] else
    (if Contains(lines[0], pattern) then [CString(lines[0])] else []) + Select(lines[1..], pattern)
  }

  /** What the program prints for a text, piece by piece. */
  function Printed(text: seq<byte>, pattern: seq<byte>): seq<seq<byte>>
    decreases |text|
  {
    if text == [] then [] else
    (if Contains(FirstPiece(text), pattern) then [CString(FirstPiece(text))] else []) +
    Printed(AfterPiece(text), pattern)
  }

  /** What it is meant to print. */
  function Wanted(text: seq<byte>, pattern: seq<byte>): seq<seq<byte>> {
    Select(Lines(text), pattern)
  }

  /** No line too long for the window contains the pattern. */
  predicate LongLinesDoNotMatch(text: seq<byte>, pattern: seq<byte>) {
    forall i :: 0 <= i < |Lines(text)| ==>
      Contains(Lines(text)[i], pattern) ==> |Lines(text)[i]| <= BUFSIZE
  }

  lemma ContainsWithin(line: seq<byte>, piece: seq<byte>, at: int, pattern: seq<byte>)
    requires 0 <= at && at + |piece| <= |line| && piece == line[at..at + |piece|]
    requires Contains(piece, pattern)
    ensures Contains(line, pattern)
  {
    var k :| 0 <= k <= |piece| && MatchesAt(piece, pattern, k);
    SliceOfSlice(line, at, at + |piece|, k, k + |pattern|);
    assert MatchesAt(line, pattern, at + k);
  }

  lemma LongLine(text: seq<byte>)
    requires LineLength(text) >= BUFSIZE
    ensures var rest := text[BUFSIZE..];
            && LineLength(rest) == LineLength(text) - BUFSIZE
            && rest[..LineLength(rest)] == text[BUFSIZE..LineLength(text)]
            && AfterLine(rest) == AfterLine(text)
  {
    hide LineLength;
    var n, rest := LineLength(text), text[BUFSIZE..];
    LineLengthUnique(rest, n - BUFSIZE);
  }

  /** A line that matches nowhere prints nothing, however it is cut. */
  lemma {:induction false} SilentLine(text: seq<byte>, pattern: seq<byte>)
    requires text != [] && pattern != [] && !Contains(text[..LineLength(text)], pattern)
    ensures Printed(text, pattern) == Printed(AfterLine(text), pattern)
    decreases |text|
  {
    var n := LineLength(text);
    if n >= BUFSIZE {
      var rest, line := text[BUFSIZE..], text[..n];
      LongLine(text);
      assert line[0..0 + BUFSIZE] == FirstPiece(text) && line[BUFSIZE..n] == rest[..n - BUFSIZE];
      if Contains(FirstPiece(text), pattern) {
        ContainsWithin(line, FirstPiece(text), 0, pattern);
      }
      if Contains(rest[..n - BUFSIZE], pattern) {
        ContainsWithin(line, rest[..n - BUFSIZE], BUFSIZE, pattern);
      }
      hide Contains, LineLength, AfterLine;
      if rest != [] {
        SilentLine(rest, pattern);
      }
    }
  }

  /** A line exactly as long as the window leaves an empty piece behind, which prints nothing. */
  lemma WindowLine(text: seq<byte>, pattern: seq<byte>)
    requires text != [] && pattern != [] && LineLength(text) == BUFSIZE
    ensures Printed(text[BUFSIZE..], pattern) == Printed(AfterLine(text), pattern)
  {
    var rest := text[BUFSIZE..];
    LineLengthUnique(rest, 0);
    if rest != [] {
      assert FirstPiece(rest) == [] && !Contains([], pattern);
      assert AfterPiece(rest) == AfterLine(text);
    }
  }

  /** Every line that fits the window is printed whole or not at all. */
  lemma FittingLine(text: seq<byte>, pattern: seq<byte>)
    requires text != [] && pattern != [] && LineLength(text) <= BUFSIZE
    ensures Printed(text, pattern) ==
            (if Contains(text[..LineLength(text)], pattern) then [CString(text[..LineLength(text)])] else []) +
            Printed(AfterLine(text), pattern)
  {
    if LineLength(text) == BUFSIZE {
      WindowLine(text, pattern);
    }
    assert FirstPiece(text) == text[..LineLength(text)];
  }

  lemma WantedStep(text: seq<byte>, pattern: seq<byte>)
    requires text != []
    ensures var line := text[..LineLength(text)];
            Wanted(text, pattern) ==
            (if Contains(line, pattern) then [CString(line)] else []) + Wanted(AfterLine(text), pattern)
  {
    hide Contains, LineLength, AfterLine, CString;
    var line, rest := text[..LineLength(text)], Lines(AfterLine(text));
    assert Lines(text) == [line] + rest;
    assert ([line] + rest)[0] == line && ([line] + rest)[1..] == rest;
  }

  lemma LongLinesStep(text: seq<byte>, pattern: seq<byte>)
    requires text != [] && LongLinesDoNotMatch(text, pattern)
    ensures Contains(text[..LineLength(text)], pattern) ==> LineLength(text) <= BUFSIZE
    ensures LongLinesDoNotMatch(AfterLine(text), pattern)
  {
    hide Contains, LineLength, AfterLine;
    var line, rest := text[..LineLength(text)], Lines(AfterLine(text));
    assert Lines(text) == [line] + rest;
    assert Lines(text)[0] == line;
    forall i | 0 <= i < |rest|
      ensures Contains(rest[i], pattern) ==> |rest[i]| <= BUFSIZE
    {
      assert rest[i] == Lines(text)[i + 1];
    }
  }

  lemma {:induction false} ShortMatchesPrint(text: seq<byte>, pattern: seq<byte>)
    requires pattern != [] && LongLinesDoNotMatch(text, pattern)
    ensures Printed(text, pattern) == Wanted(text, pattern)
    decreases |text|
  {
    if text != [] {
      hide Contains, LineLength, AfterLine, Printed, Wanted, LongLinesDoNotMatch, CString;
      WantedStep(text, pattern);
      LongLinesStep(text, pattern);
      ShortMatchesPrint(AfterLine(text), pattern);
      if LineLength(text) <= BUFSIZE {
        FittingLine(text, pattern);
      } else {
        SilentLine(text, pattern);
      }
    }
  }

  lemma {:induction false} PrintedFits(text: seq<byte>, pattern: seq<byte>)
    ensures forall line <- Printed(text, pattern) :: |line| <= BUFSIZE
    decreases |text|
  {
    if text != [] {
      PrintedFits(AfterPiece(text), pattern);
    }
  }

  lemma {:induction false} SelectHas(lines: seq<seq<byte>>, pattern: seq<byte>, i: int)
    requires 0 <= i < |lines| && Contains(lines[i], pattern)
    ensures CString(lines[i]) in Select(lines, pattern)
  {
    if i > 0 {
      SelectHas(lines[1..], pattern, i - 1);
    }
  }

  lemma {:induction false} LinesNulFree(text: seq<byte>)
    requires NUL !in text
    ensures forall line <- Lines(text) :: NUL !in line
    decreases |text|
  {
    if text != [] {
      LinesNulFree(AfterLine(text));
    }
  }

  /** The exact scope of `grep`: it prints what is wanted iff no line longer than its window
      contains the pattern. */
  lemma PrintsWantedIff(text: seq<byte>, pattern: seq<byte>)
    requires NUL !in text && pattern != []
    ensures Printed(text, pattern) == Wanted(text, pattern) <==> LongLinesDoNotMatch(text, pattern)
  {
    if LongLinesDoNotMatch(text, pattern) {
      ShortMatchesPrint(text, pattern);
    } else {
      var i :| 0 <= i < |Lines(text)| && Contains(Lines(text)[i], pattern) && |Lines(text)[i]| > BUFSIZE;
      LinesNulFree(text);
      assert Lines(text)[i][..|Lines(text)[i]|] == Lines(text)[i];
      CStringUnique(Lines(text)[i], |Lines(text)[i]|);
      SelectHas(Lines(text), pattern, i);
      PrintedFits(text, pattern);
    }
  }

  // ---- lines, matches and pieces, seen from outside

  /** A text is cut at every newline, and only there; a last line need not be closed. */
  lemma LinesAreCut(line: seq<byte>, rest: seq<byte>)
    requires NEWLINE !in line
    ensures Lines([]) == [] && (line != [] ==> Lines(line) == [line])
    ensures Lines((line + [NEWLINE]) + rest) == [line] + Lines(rest)
  {
    hide LineLength, Lines;
    NoLines();
    if line != [] {
      LineLengthUnique(line, |line|);
      Whole(line);
      LinesUnfold(line);
    }
    var text := (line + [NEWLINE]) + rest;
    FrontOf(line + [NEWLINE], rest, |line|);
    FrontOf(line + [NEWLINE], rest, |line| + 1);
    FrontOf(line, [NEWLINE], |line|);
    Whole(line + [NEWLINE]);
    Whole(line);
    LineLengthUnique(text, |line|);
    LinesUnfold(text);
  }

  lemma NoLines()
    ensures Lines([]) == []
  {
  }

  lemma LinesUnfold(text: seq<byte>)
    requires text != []
    ensures Lines(text) == [text[..LineLength(text)]] + Lines(AfterLine(text))
  {
  }

  /** A line contains a pattern iff it is something, the pattern, and something. */
  lemma ContainsSplits(line: seq<byte>, pattern: seq<byte>) returns (before: seq<byte>, after: seq<byte>)
    requires Contains(line, pattern)
    ensures line == before + pattern + after
  {
    var k :| 0 <= k <= |line| && MatchesAt(line, pattern, k);
    before, after := line[..k], line[k + |pattern|..];
  }

  lemma SplitContains(before: seq<byte>, pattern: seq<byte>, after: seq<byte>)
    ensures Contains(before + pattern + after, pattern)
  {
    assert MatchesAt(before + pattern + after, pattern, |before|);
  }

  /** The selection keeps the order, and adds a line exactly if it contains the pattern. */
  lemma {:induction false} SelectGrows(lines: seq<seq<byte>>, line: seq<byte>, pattern: seq<byte>)
    ensures Select([], pattern) == []
    ensures Select(lines + [line], pattern) ==
            Select(lines, pattern) + if Contains(line, pattern) then [CString(line)] else []
  {
    hide Contains, CString;
    if lines == [] {
      assert Select([line], pattern) ==
             (if Contains(line, pattern) then [CString(line)] else []) + Select([], pattern);
    } else {
      assert (lines + [line])[1..] == lines[1..] + [line];
      SelectGrows(lines[1..], line, pattern);
    }
  }

  /** A line longer than the window: its first 1024 bytes are taken for a line, and the rest of the
      text is gone on with. */
  lemma LongLinePrints(text: seq<byte>, pattern: seq<byte>)
    requires |text| >= 1024 && NEWLINE !in text[..1024]
    ensures Printed(text, pattern) ==
            (if Contains(text[..1024], pattern) then [CString(text[..1024])] else []) + Printed(text[1024..], pattern)
  {
    assert forall i :: 0 <= i < 1024 ==> text[i] == text[..1024][i];
    assert LineLength(text) >= 1024;
    hide LineLength, Contains, CString;
  }

  // ---- the byte the file system adds

  lemma NulMatchesNothing(line: seq<byte>, pattern: seq<byte>)
    requires NUL !in pattern && pattern != []
    ensures Contains(line + [NUL], pattern) == Contains(line, pattern)
    ensures CString(line + [NUL]) == CString(line)
  {
    var whole := line + [NUL];
    if Contains(whole, pattern) {
      var k :| 0 <= k <= |whole| && MatchesAt(whole, pattern, k);
      assert pattern[|pattern| - 1] == whole[k + |pattern| - 1];
      assert k + |pattern| <= |line|;
      assert line[k..k + |pattern|] == whole[k..k + |pattern|];
      assert MatchesAt(line, pattern, k);
    } else if Contains(line, pattern) {
      ContainsWithin(whole, line, 0, pattern);
    }
    var c := CString(line);
    CStringUnique(whole, |c|);
  }

  lemma NulLineLength(text: seq<byte>)
    ensures LineLength(text + [NUL]) == if LineLength(text) < |text| then LineLength(text) else |text| + 1
  {
    hide LineLength;
    if LineLength(text) < |text| {
      LineLengthUnique(text + [NUL], LineLength(text));
    } else {
      LineLengthUnique(text + [NUL], |text| + 1);
    }
  }

  lemma NulSlices(text: seq<byte>, k: nat)
    requires k <= |text|
    ensures (text + [NUL])[..k] == text[..k] && (text + [NUL])[k..] == text[k..] + [NUL]
  {
  }

  lemma NulKeepsPiece(text: seq<byte>)
    requires LineLength(text) >= BUFSIZE || LineLength(text) < |text|
    ensures FirstPiece(text + [NUL]) == FirstPiece(text)
  {
    hide LineLength;
    NulLineLength(text);
    var n := LineLength(text);
    if n >= BUFSIZE {
      NulSlices(text, BUFSIZE);
    } else {
      NulSlices(text, n);
      NulSlices(text, n + 1);
    }
  }

  lemma NulAfterPiece(text: seq<byte>)
    requires LineLength(text) >= BUFSIZE || LineLength(text) < |text|
    ensures AfterPiece(text + [NUL]) == AfterPiece(text) + [NUL]
  {
    hide LineLength;
    NulLineLength(text);
    var n := LineLength(text);
    if n >= BUFSIZE {
      NulSlices(text, BUFSIZE);
    } else {
      NulSlices(text, n);
      NulSlices(text, n + 1);
    }
  }

  lemma Whole(v: seq<byte>)
    ensures v[..|v|] == v == v[0..] && v[|v|..] == []
  {
  }

  lemma LastPiece(text: seq<byte>)
    requires |text| <= BUFSIZE && LineLength(text) == |text|
    ensures FirstPiece(text) == text && AfterPiece(text) == []
  {
    hide LineLength;
    Whole(text);
  }

  lemma NulInPiece(text: seq<byte>)
    requires LineLength(text) < BUFSIZE && LineLength(text) == |text|
    ensures FirstPiece(text + [NUL]) == text + [NUL] && AfterPiece(text + [NUL]) == []
  {
    hide LineLength, FirstPiece, AfterPiece;
    NulLineLength(text);
    LastPiece(text + [NUL]);
  }

  /** One NUL after the text, as read back from a file system that delivers a byte too many,
      changes nothing that is printed. */
  lemma {:induction false} TrailingNulUnseen(text: seq<byte>, pattern: seq<byte>)
    requires NUL !in text && NUL !in pattern && pattern != []
    ensures Printed(text + [NUL], pattern) == Printed(text, pattern)
    decreases |text|
  {
    if LineLength(text) >= BUFSIZE || LineLength(text) < |text| {
      NulKeepsPiece(text);
      NulAfterPiece(text);
      TrailingNulUnseen(AfterPiece(text), pattern);
    } else {
      NulInPiece(text);
      NulMatchesNothing(text, pattern);
      assert !Contains([], pattern);
      if text != [] {
        assert FirstPiece(text) == text && AfterPiece(text) == [];
      }
    }
  }

  /** `grep` over a text file as the kernel delivers it, the padding byte after it being NUL. */
  lemma PrintsWantedOnFile(text: seq<byte>, pattern: seq<byte>)
    requires NUL !in text && NUL !in pattern && pattern != []
    ensures Printed(text + [NUL], pattern) == Wanted(text, pattern) <==> LongLinesDoNotMatch(text, pattern)
  {
    TrailingNulUnseen(text, pattern);
    PrintsWantedIff(text, pattern);
  }
}
