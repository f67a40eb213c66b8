/** Does the screen always show the line being edited?  Only when the edit starts far
    enough to the left: the lemmas here find the exact boundary. */
module Echo {
  import opened CTypes
  import opened TerminalSpec
  import opened TextLayout

  datatype Edit = Char(c: byte) | TabEdit | BackEdit

  /** What the keyboard can send: characters of its table are neither NUL nor line breaks. */
  predicate Keyable(e: Edit) {
    e.Char? ==> e.c != NUL && e.c != NEWLINE && e.c != RETURN
  }

  function EditOp(e: Edit): Op {
    match e
    case Char(c) => Typed(c)
    case TabEdit => TabKey
    case BackEdit => BackspaceKey
  }

  function RunEdits(t: Term, edits: seq<Edit>): (r: Term)
    requires Sound(t)
    ensures Sound(r)
    decreases |edits|
  {
    if edits == [] then t else RunEdits(Apply(t, EditOp(edits[0])), edits[1..])
  }

  /** The cells just before the cursor are the line being edited. */
  ghost predicate Echoes(t: Term)
    requires Sound(t)
  {
    forall i :: 0 <= i < t.index ==> Cell(t.page, t.Pos() - t.index + i) == t.line[i]
  }

  ghost predicate AlwaysEchoes(t: Term)
    requires Sound(t)
  {
    forall edits: seq<Edit> | forall e <- edits :: Keyable(e) :: Echoes(RunEdits(t, edits))
  }

  /** Where the edited line begins on the screen. */
  function Start(t: Term): int { t.Pos() - t.index }

  /** The cursor is on the row the line began on, or on the next one. */
  ghost predicate TwoRows(t: Term)
    requires Sound(t)
  {
    && Start(t) % COLS <= 32
    && (t.y == Start(t) / COLS || t.y == Start(t) / COLS + 1)
  }

  /** On two rows the cursor stays within a row's width, so typing moves it one cell on
      (less a row when the screen scrolls). */
  lemma TypeMoves(t: Term, c: byte)
    requires Sound(t) && TwoRows(t) && Keyable(Char(c)) && t.index < BUFFER_SIZE - 1
    ensures var r := Type(t, c);
            var shift := if t.x == COLS - 1 && t.y == ROWS - 1 then COLS else 0;
            && r.Pos() == t.Pos() + 1 - shift
            && r.index == t.index + 1 && r.line == t.line[t.index := c]
            && TwoRows(r)
            && (shift == 0 ==> r.page == Poke(t.page, t.Pos(), c))
            && (shift == COLS ==> r.page == Scrolled(Poke(t.page, t.Pos(), c)) && COLS <= Start(t))
  {
    hide Put, Poke, Scrolled;
    PutInRow(t, c);
  }

  lemma TypeEchoes(t: Term, c: byte)
    requires Sound(t) && Echoes(t) && TwoRows(t) && Keyable(Char(c))
    ensures Echoes(Type(t, c)) && TwoRows(Type(t, c))
  {
    if t.index < BUFFER_SIZE - 1 {
      TypeMoves(t, c);
      hide Type, TwoRows, Poke, Scrolled;
      var r, s := Type(t, c), Start(t);
      forall i | 0 <= i < r.index
        ensures Cell(r.page, Start(r) + i) == r.line[i]
      {
        assert Cell(r.page, Start(r) + i) == Cell(Poke(t.page, t.Pos(), c), s + i);
      }
    }
  }

  lemma BackspaceEchoes(t: Term)
    requires Sound(t) && Echoes(t) && TwoRows(t)
    ensures Echoes(Backspace(t)) && TwoRows(Backspace(t))
  {
  }

  lemma {:induction false} TypeRunEchoes(t: Term, c: byte, n: nat)
    requires Sound(t) && Echoes(t) && TwoRows(t) && Keyable(Char(c))
    ensures Echoes(TypeRun(t, c, n)) && TwoRows(TypeRun(t, c, n))
  {
    if n > 0 {
      TypeRunEchoes(t, c, n - 1);
      TypeEchoes(TypeRun(t, c, n - 1), c);
    }
  }

  lemma {:induction false} EditsEcho(t: Term, edits: seq<Edit>)
    requires Sound(t) && Echoes(t) && TwoRows(t)
    requires forall e <- edits :: Keyable(e)
    ensures Echoes(RunEdits(t, edits))
    decreases |edits|
  {
    if edits != [] {
      match edits[0] {
        case Char(c) => TypeEchoes(t, c);
        case TabEdit => TypeRunEchoes(t, SPACE, 4);
        case BackEdit => BackspaceEchoes(t);
      }
      EditsEcho(Apply(t, EditOp(edits[0])), edits[1..]);
    }
  }

  // ---- the boundary: from any other start some edit breaks the echo

  lemma {:induction false} RunEditsAppend(t: Term, a: seq<Edit>, b: seq<Edit>)
    requires Sound(t)
    ensures RunEdits(t, a + b) == RunEdits(RunEdits(t, a), b)
    decreases |a|
  {
    if a == [] {
      assert a + b == b;
    } else {
      assert (a + b)[0] == a[0] && (a + b)[1..] == a[1..] + b;
      RunEditsAppend(Apply(t, EditOp(a[0])), a[1..], b);
    }
  }

  function Times(e: Edit, n: nat): (r: seq<Edit>)
    ensures forall x <- r :: x == e
  {
    if n == 0 then [] else [e] + Times(e, n - 1)
  }

  lemma {:induction false} RunTimes(t: Term, e: Edit, n: nat)
    requires Sound(t) && n > 0
    ensures RunEdits(t, Times(e, n)) == RunEdits(Apply(t, EditOp(e)), Times(e, n - 1))
  {
    assert Times(e, n)[1..] == Times(e, n - 1);
  }

  function Wrapped(x: int): int { if x < COLS then x else x % COLS }

  lemma WrappedStep(x: int, n: nat)
    requires -COLS <= x < COLS
    ensures Wrapped(Wrapped(x + n) + 1) == Wrapped(x + n + 1)
  {
  }

  lemma WrappedAfterLine(x: int)
    requires -COLS <= x < COLS && x % COLS > 32
    ensures Wrapped(x + 127) == x % COLS - 33
  {
  }

  lemma LetterMoves(t: Term, c: byte)
    requires Sound(t) && t.x >= -COLS && t.index + 1 < BUFFER_SIZE && Keyable(Char(c))
    ensures Type(t, c).index == t.index + 1 && Type(t, c).x == Wrapped(t.x + 1)
  {
    PutInRow(t, c);
  }

  /** Typing the same letter n times, when the cursor is not more than one row to the left. */
  lemma {:induction false} LettersMove(t: Term, c: byte, n: nat)
    requires Sound(t) && t.x >= -COLS && t.index + n < BUFFER_SIZE && Keyable(Char(c))
    ensures TypeRun(t, c, n).index == t.index + n && TypeRun(t, c, n).x == Wrapped(t.x + n)
  {
    hide Type;
    if n > 0 {
      LettersMove(t, c, n - 1);
      LetterMoves(TypeRun(t, c, n - 1), c);
      WrappedStep(t.x, n - 1);
    }
  }

  lemma {:induction false} LettersAreEdits(t: Term, c: byte, n: nat)
    requires Sound(t)
    ensures RunEdits(t, Times(Char(c), n)) == TypeRun(t, c, n)
  {
    if n > 0 {
      TimesSnoc(Char(c), n);
      RunEditsAppend(t, Times(Char(c), n - 1), [Char(c)]);
      LettersAreEdits(t, c, n - 1);
      RunEditsOne(TypeRun(t, c, n - 1), Char(c));
    }
  }

  lemma {:induction false} TimesSnoc(e: Edit, n: nat)
    requires n > 0
    ensures Times(e, n) == Times(e, n - 1) + [e]
  {
    if n > 1 {
      TimesSnoc(e, n - 1);
    }
  }

  lemma RunEditsOne(t: Term, e: Edit)
    requires Sound(t)
    ensures RunEdits(t, [e]) == Apply(t, EditOp(e))
  {
    assert RunEdits(t, [e]) == RunEdits(Apply(t, EditOp(e)), []);
  }

  lemma BackspaceMoves(t: Term)
    requires Sound(t) && t.index > 0
    ensures var r := Apply(t, EditOp(BackEdit));
            && r.x == t.x - 1 && r.y == t.y && r.index == t.index - 1 && Cell(r.page, r.Pos()) == SPACE
            && forall p :: t.Pos() <= p < CELLS ==> Cell(r.page, p) == Cell(t.page, p)
  {
    hide Cell;
  }

  /** Backspacing n times leaves n blanks from the cursor on, whatever row they are in. */
  lemma {:induction false} BackspacesMove(t: Term, n: nat)
    requires Sound(t) && n <= t.index
    ensures var r := RunEdits(t, Times(BackEdit, n));
            && r.x == t.x - n && r.y == t.y && r.index == t.index - n
            && (forall p :: r.Pos() <= p < t.Pos() ==> Cell(r.page, p) == SPACE)
            && (forall p :: t.Pos() <= p < CELLS ==> Cell(r.page, p) == Cell(t.page, p))
    decreases n
  {
    if n > 0 {
      RunTimes(t, BackEdit, n);
      BackspaceMoves(t);
      hide Apply, Times, RunEdits, Cell;
      BackspacesMove(Apply(t, EditOp(BackEdit)), n - 1);
    }
  }

  /** More than a row to the left, one letter moves the cursor whole rows too far. */
  lemma LetterJumps(t: Term, c: byte)
    requires Sound(t) && t.x < -COLS && t.index < BUFFER_SIZE - 1 && Keyable(Char(c))
    requires 0 <= t.Pos() - COLS * TruncDiv(t.x + 1, COLS) < CELLS
    requires Cell(t.page, t.Pos() - COLS * TruncDiv(t.x + 1, COLS)) != c
    ensures !Echoes(RunEdits(t, [Char(c)]))
  {
    var r := Type(t, c);
    RunEditsOne(t, Char(c));
    PutFarLeft(t, c);
    assert r.line[t.index] == c;
    assert Cell(r.page, r.Pos() - r.index + t.index) != r.line[t.index];
  }

  /** The edit that breaks the echo from a start right of column 32: fill the line, backspace
      until the cursor is 81 left of its row, type one more letter. */
  function Breaker(t: Term): seq<Edit>
    requires 0 <= t.index < BUFFER_SIZE
  {
    Times(Char(97), BUFFER_SIZE - 1 - t.index) + (Times(BackEdit, t.x % COLS + 48) + [Char(97)])
  }

  lemma BreakerKeyable(t: Term)
    requires 0 <= t.index < BUFFER_SIZE
    ensures forall e <- Breaker(t) :: Keyable(e)
  {
    hide Times;
  }

  /** Backspacing to 81 left of the row and typing on: the letter is not where it is expected. */
  lemma FullLineBreaks(t: Term)
    requires Sound(t) && 0 <= t.x && t.x + 81 <= t.index
    ensures !Echoes(RunEdits(t, Times(BackEdit, t.x + 81) + [Char(97)]))
  {
    hide Apply, Echoes, Times, RunEdits;
    var back := t.x + 81;
    RunEditsAppend(t, Times(BackEdit, back), [Char(97)]);
    BackspacesMove(t, back);
    var u := RunEdits(t, Times(BackEdit, back));
    assert Cell(u.page, u.Pos() + COLS) == SPACE;
    LetterJumps(u, 97);
  }

  lemma RightStartBreaks(t: Term)
    requires Sound(t) && t.index == 0 && -COLS <= t.x && t.x % COLS > 32
    ensures !Echoes(RunEdits(t, Breaker(t)))
  {
    hide Apply, Echoes, Times, RunEdits, Type, TypeRun, EditOp;
    var n := BUFFER_SIZE - 1 - t.index;
    RunEditsAppend(t, Times(Char(97), n), Times(BackEdit, t.x % COLS + 48) + [Char(97)]);
    LettersAreEdits(t, 97, n);
    LettersMove(t, 97, n);
    WrappedAfterLine(t.x);
    FullLineBreaks(RunEdits(t, Times(Char(97), n)));
  }

  /** More than a row left of its own row, the very first letter breaks the echo. */
  lemma FarLeftStartBreaks(t: Term)
    requires Sound(t) && t.index == 0 && t.x < -COLS
    ensures exists c: byte :: Keyable(Char(c)) && !Echoes(RunEdits(t, [Char(c)]))
  {
    var p := t.Pos() - COLS * TruncDiv(t.x + 1, COLS);
    PutFarLeft(t, 97);
    var c: byte := if Cell(t.page, p) == 97 then 98 else 97;
    LetterJumps(t, c);
  }

  lemma LeftStartEchoes(t: Term)
    requires Sound(t) && t.index == 0 && -COLS <= t.x && t.x % COLS <= 32
    ensures AlwaysEchoes(t)
  {
    assert TwoRows(t) && Echoes(t);
    hide RunEdits, Echoes, TwoRows;
    forall edits: seq<Edit> | forall e <- edits :: Keyable(e)
      ensures Echoes(RunEdits(t, edits))
    {
      EditsEcho(t, edits);
    }
  }

  /** The exact boundary: on an empty line, every keyboard edit keeps the screen in step with
      the buffer iff the cursor is at most one row to the left and its column is at most 32. */
  lemma EchoBoundary(t: Term)
    requires Sound(t) && t.index == 0
    ensures AlwaysEchoes(t) <==> -COLS <= t.x && t.x % COLS <= 32
  {
    hide RunEdits, Echoes, Breaker;
    if -COLS <= t.x && t.x % COLS <= 32 {
      LeftStartEchoes(t);
    } else if -COLS <= t.x {
      RightStartBreaks(t);
      BreakerKeyable(t);
    } else {
      FarLeftStartBreaks(t);
      var c: byte :| Keyable(Char(c)) && !Echoes(RunEdits(t, [Char(c)]));
      assert forall e <- [Char(c)] :: Keyable(e);
    }
  }

  // ---- screens on which it breaks

  /** After a prompt printed on a cleared screen, editing is safe iff the prompt's last row ends at
      column 32 or before. */
  lemma PromptBoundary(t: Term, prompt: seq<byte>)
    requires Sound(t) && t.index == 0 && Shows(t, [[]])
    ensures AlwaysEchoes(PutAll(t, prompt)) <==> |LastRow(prompt)| <= 32
  {
    hide AlwaysEchoes, Rows, PutAll, Shows;
    PrintedTextShows(t, prompt);
    RowsFit(prompt);
    ShowsColumn(PutAll(t, prompt), Rows(prompt));
    EchoBoundary(PutAll(t, prompt));
  }

  /** Thirty-three letters are too many. */
  lemma LongPromptBreaks(t: Term, c: byte)
    requires Sound(t) && t.index == 0 && Shows(t, [[]]) && !IsBreak(c)
    ensures !AlwaysEchoes(PutAll(t, seq(33, _ => c)))
  {
    var prompt := seq(33, _ => c);
    PromptBoundary(t, prompt);
    hide AlwaysEchoes, PutAll, Shows;
    BreakIndexUnique(prompt, 33);
    assert Rows(prompt) == [prompt];
  }
}
