/** A terminal in use: program output, typed characters, tabs and Enter mixed in any way. */
module Transcript {
  import opened CTypes
  import opened TerminalSpec
  import opened TextLayout
  import opened LineEditor

  function Repeat(c: byte, n: nat): seq<byte> {
    if n == 0 then [] else [c] + Repeat(c, n - 1)
  }

  /** The characters an operation puts on the screen, given the line before it. */
  function Shown(line: seq<byte>, op: Op): seq<byte> {
    match op
    case Output(c) => [c]
    case Typed(c) => Repeat(c, |Push(line, c, 1)| - |line|)
    case TabKey => Repeat(SPACE, |Push(line, SPACE, 4)| - |line|)
    case EnterKey => [NEWLINE]
    case _ => []
  }

  /** The text on the screen after an operation, given the text and the line before it. */
  function Grown(text: seq<byte>, line: seq<byte>, op: Op): seq<byte> {
    if !op.BackspaceKey? then text + Shown(line, op)
    else if line == [] || text == [] then text
    else text[..|text| - 1]
  }

  /** Backspace has something to erase in the cursor's row, if it erases at all. */
  predicate Erasable(text: seq<byte>, line: seq<byte>, op: Op) {
    op.BackspaceKey? && line != [] ==> LastRow(text) != []
  }

  function GrownAll(text: seq<byte>, e: Editing, ops: seq<Op>): seq<byte>
    decreases |ops|
  {
    if ops == [] then text else GrownAll(Grown(text, e.line, ops[0]), LineEditor.Step(e, ops[0]), ops[1..])
  }

  predicate ErasableAll(text: seq<byte>, e: Editing, ops: seq<Op>)
    decreases |ops|
  {
    ops == [] ||
    (Erasable(text, e.line, ops[0]) &&
     ErasableAll(Grown(text, e.line, ops[0]), LineEditor.Step(e, ops[0]), ops[1..]))
  }

  lemma {:induction false} PushGrows(line: seq<byte>, c: byte, n: nat)
    ensures |line| <= |Push(line, c, n)|
    decreases n
  {
    if n > 0 && |line| < BUFFER_SIZE - 1 {
      PushGrows(line + [c], c, n - 1);
    }
  }

  lemma PutShows(t: Term, text: seq<byte>, c: byte)
    requires Sound(t) && Shows(t, Rows(text))
    ensures Shows(Put(t, c), Rows(text + [c]))
  {
    RowsFit(text);
    PutExtends(t, Rows(text), c);
    RowsExtend(text, c);
  }

  lemma FieldsDoNotShow(t: Term, line: seq<byte>, index: int, enter: bool, rows: seq<seq<byte>>)
    requires |t.page| == PAGE_SIZE && |rows| > 0 && Shows(t, rows)
    ensures Shows(t.(line := line, index := index, enter := enter), rows)
  {
  }

  lemma RepeatNone(text: seq<byte>, c: byte)
    ensures text + Repeat(c, 0) == text && Repeat(c, 1) == [c]
  {
  }

  lemma TypeShows(t: Term, text: seq<byte>, c: byte)
    requires Sound(t) && Shows(t, Rows(text))
    ensures Shows(Type(t, c), Rows(text + Repeat(c, Room(t))))
  {
    hide Shows, Rows, Put;
    RepeatNone(text, c);
    if t.index < BUFFER_SIZE - 1 {
      PutShows(t, text, c);
      FieldsDoNotShow(Put(t, c), t.line[t.index := c], t.index + 1, t.enter, Rows(text + [c]));
    }
  }

  lemma {:induction false} TypeRunShows(t: Term, text: seq<byte>, c: byte, n: nat)
    requires Sound(t) && Shows(t, Rows(text))
    ensures TypeRun(t, c, n).index >= t.index
    ensures Shows(TypeRun(t, c, n), Rows(text + Repeat(c, TypeRun(t, c, n).index - t.index)))
  {
    hide Shows, Rows, Repeat, Type;
    if n == 0 {
      RepeatNone(text, c);
    } else {
      var u := TypeRun(t, c, n - 1);
      TypeRunShows(t, text, c, n - 1);
      OneMore(u, c);
      TypeShows(u, text + Repeat(c, u.index - t.index), c);
      RepeatJoins(c, u.index - t.index, Room(u));
      Associate(text, Repeat(c, u.index - t.index), Repeat(c, Room(u)));
    }
  }

  function Room(t: Term): nat { if t.index < BUFFER_SIZE - 1 then 1 else 0 }

  lemma OneMore(t: Term, c: byte)
    requires Sound(t)
    ensures Type(t, c).index == t.index + Room(t)
  {
    hide Put;
  }

  lemma Associate(a: seq<byte>, b: seq<byte>, c: seq<byte>)
    ensures (a + b) + c == a + (b + c)
  {
  }

  lemma {:induction false} RepeatJoins(c: byte, m: nat, n: nat)
    ensures Repeat(c, m) + Repeat(c, n) == Repeat(c, m + n)
  {
    if m > 0 {
      RepeatJoins(c, m - 1, n);
      assert Repeat(c, m) + Repeat(c, n) == [c] + (Repeat(c, m - 1) + Repeat(c, n));
    } else {
      assert [] + Repeat(c, n) == Repeat(c, n);
    }
  }

  /** Where the cursor's row is not empty, its last character is the last of the text. */
  lemma LastInRow(text: seq<byte>, init: seq<byte>, c: byte)
    requires text == init + [c] && LastRow(text) != []
    ensures var rows, k := Rows(init), |Rows(init)| - 1;
            |rows[k]| + 1 < COLS && Rows(text) == rows[k := rows[k] + [c]]
  {
    RowsExtend(init, c);
    RowsFit(init);
    hide Rows;
  }

  lemma NothingInRow(text: seq<byte>)
    requires LastRow(text) != []
    ensures text != []
  {
    assert Rows([]) == [[]];
  }

  lemma EraseShows(t: Term, text: seq<byte>)
    requires Sound(t) && Shows(t, Rows(text)) && t.index > 0 && LastRow(text) != []
    ensures text != [] && Shows(Backspace(t), Rows(text[..|text| - 1]))
  {
    hide Shows, Rows, LastRow, Sound, Backspace;
    NothingInRow(text);
    var init, c := text[..|text| - 1], text[|text| - 1];
    LastInRow(text, init, c);
    EraseRow(t, Rows(init), c);
  }

  lemma EraseRow(t: Term, rows: seq<seq<byte>>, c: byte)
    requires Sound(t) && t.index > 0 && |rows| > 0 && |rows[|rows| - 1]| + 1 < COLS
    requires Shows(t, rows[|rows| - 1 := rows[|rows| - 1] + [c]])
    ensures Shows(Backspace(t), rows)
  {
    hide Shows, Poke, Backspace;
    BackspaceErases(t);
    EraseShortens(t, rows, c);
    FieldsDoNotShow(t.(page := Poke(t.page, t.Pos() - 1, SPACE), x := t.x - 1),
                    Backspace(t).line, Backspace(t).index, t.enter, rows);
  }

  lemma BackspaceErases(t: Term)
    requires Sound(t) && t.index > 0
    ensures 0 <= t.Pos() - 1 < CELLS
    ensures var r := Backspace(t);
            r == t.(page := Poke(t.page, t.Pos() - 1, SPACE), x := t.x - 1).(line := r.line, index := r.index)
  {
  }

  /** On a screen that shows a text, backspace leaves a screen that shows one, the same without its
      last character, iff there is something to erase in the cursor's row. */
  lemma BackspaceShows(t: Term, text: seq<byte>)
    requires Sound(t) && Shows(t, Rows(text)) && t.index > 0
    ensures LastRow(text) != [] ==> text != [] && Shows(Backspace(t), Rows(text[..|text| - 1]))
    ensures (exists rows :: |rows| > 0 && Shows(Backspace(t), rows)) <==> LastRow(text) != []
  {
    hide Rows, Shows, Backspace;
    BackspaceErases(t);
    if LastRow(text) != [] {
      EraseShows(t, text);
    } else {
      ShowsColumn(t, Rows(text));
      forall rows | |rows| > 0
        ensures !Shows(Backspace(t), rows)
      {
        if Shows(Backspace(t), rows) {
          ShowsColumn(Backspace(t), rows);
          assert false;
        }
      }
    }
  }

  lemma OpShows(t: Term, text: seq<byte>, op: Op)
    requires Sound(t) && Shows(t, Rows(text)) && Erasable(text, t.Line(), op)
    ensures Shows(Apply(t, op), Rows(Grown(text, t.Line(), op)))
  {
    hide Shows, Rows, LastRow, Put, NewLine;
    assert text + [] == text;
    match op
    case Output(c) => PutShows(t, text, c);
    case Typed(c) =>
      TypeShows(t, text, c);
      TypeView(t, c);
    case TabKey =>
      TypeRunShows(t, text, SPACE, 4);
      TypeRunView(t, SPACE, 4);
    case BackspaceKey =>
      if t.index > 0 {
        assert t.Line() != [];
        BackspaceShows(t, text);
      }
    case EnterKey => EnterShows(t, text);
    case EnterReleased => FieldsDoNotShow(t, t.line, t.index, false, Rows(text));
    case Read(_) => FieldsDoNotShow(t, Drain(t).line, 0, false, Rows(text));
    case Forget => FieldsDoNotShow(t, Drain(t).line, 0, t.enter, Rows(text));
  }

  /** Enter moves the screen on exactly as a printed newline does. */
  lemma EnterShows(t: Term, text: seq<byte>)
    requires Sound(t) && Shows(t, Rows(text))
    ensures Shows(Enter(t), Rows(text + [NEWLINE]))
  {
    PutShows(t, text, NEWLINE);
    assert Enter(t) == Put(t, NEWLINE).(enter := true);
    FieldsDoNotShow(Put(t, NEWLINE), t.line, t.index, true, Rows(text + [NEWLINE]));
  }

  /** The screen is the layout of all that was printed and typed and not erased, as long as nothing
      is erased beyond the cursor's row. */
  lemma {:induction false} TranscriptShows(t: Term, text: seq<byte>, ops: seq<Op>)
    requires Sound(t) && Shows(t, Rows(text)) && ErasableAll(text, View(t), ops)
    ensures Shows(ApplyAll(t, ops), Rows(GrownAll(text, View(t), ops)))
    decreases |ops|
  {
    hide Shows, Rows, Apply, Grown, Erasable;
    if ops != [] {
      OpShows(t, text, ops[0]);
      ApplyView(t, ops[0]);
      TranscriptShows(Apply(t, ops[0]), Grown(text, t.Line(), ops[0]), ops[1..]);
    }
  }
}
