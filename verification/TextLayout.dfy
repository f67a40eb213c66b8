/** What a terminal shows, from the text alone: rows are cut at line breaks and at 80
    columns, and the screen is the last 25 of them. */
module TextLayout {
  import opened CTypes
  import opened TerminalSpec

  predicate IsBreak(c: byte) { c == NEWLINE || c == RETURN }

  /** Index of the first line break, or the length of the text. */
  function BreakIndex(text: seq<byte>): (n: nat)
    ensures n <= |text|
    ensures n < |text| ==> IsBreak(text[n])
    ensures forall i :: 0 <= i < n ==> !IsBreak(text[i])
  {
    if text == [] || IsBreak(text[0]) then 0 else 1 + BreakIndex(text[1..])
  }

  /** The first row is closed by a line break or by filling all 80 columns. */
  predicate Closed(text: seq<byte>) {
    BreakIndex(text) < |text| || BreakIndex(text) >= COLS
  }

  function FirstRow(text: seq<byte>): (row: seq<byte>)
    requires Closed(text)
    ensures |row| <= COLS
  {
    if BreakIndex(text) >= COLS then text[..COLS] else text[..BreakIndex(text)]
  }

  function Below(text: seq<byte>): (rest: seq<byte>)
    requires Closed(text)
    ensures |rest| < |text|
  {
    if BreakIndex(text) >= COLS then text[COLS..] else text[BreakIndex(text) + 1..]
  }

  /** The rows of a text; the last one is the row the cursor stands in. */
  function Rows(text: seq<byte>): (rows: seq<seq<byte>>)
    ensures |rows| > 0
    decreases |text|
  {
    if Closed(text) then [FirstRow(text)] + Rows(Below(text)) else [text]
  }

  lemma RowsUnfold(text: seq<byte>)
    ensures Closed(text) ==> Rows(text) == [FirstRow(text)] + Rows(Below(text))
    ensures !Closed(text) ==> Rows(text) == [text] && |text| < COLS
  {
    hide BreakIndex;
  }

  /** No row is wider than the screen, and the cursor's row still has room. */
  lemma {:induction false} RowsFit(text: seq<byte>)
    ensures forall i :: 0 <= i < |Rows(text)| ==> |Rows(text)[i]| <= COLS
    ensures |Rows(text)[|Rows(text)| - 1]| < COLS
    decreases |text|
  {
    hide Rows, Closed, FirstRow, Below;
    RowsUnfold(text);
    if Closed(text) {
      RowsFit(Below(text));
    }
  }

  /** The row the cursor stands in. */
  function LastRow(text: seq<byte>): seq<byte> {
    Rows(text)[|Rows(text)| - 1]
  }

  function Extend(rows: seq<seq<byte>>, c: byte): seq<seq<byte>>
    requires |rows| > 0
  {
    var k := |rows| - 1;
    if IsBreak(c) then rows + [[]]
    else if |rows[k]| + 1 == COLS then rows[k := rows[k] + [c]] + [[]]
    else rows[k := rows[k] + [c]]
  }

  lemma BreakIndexUnique(text: seq<byte>, n: nat)
    requires n <= |text| && (n < |text| ==> IsBreak(text[n]))
    requires forall i :: 0 <= i < n ==> !IsBreak(text[i])
    ensures BreakIndex(text) == n
  {
    if n > 0 {
      assert !IsBreak(text[0]);
      BreakIndexUnique(text[1..], n - 1);
    }
  }

  /** A row that is already closed stays as it is when the text grows. */
  lemma ClosedGrows(text: seq<byte>, c: byte)
    requires Closed(text)
    ensures Closed(text + [c]) && FirstRow(text + [c]) == FirstRow(text) && Below(text + [c]) == Below(text) + [c]
  {
    var n, whole := BreakIndex(text), text + [c];
    BreakIndexUnique(whole, if n == |text| && !IsBreak(c) then n + 1 else n);
    hide BreakIndex;
    if n >= COLS {
      assert whole[..COLS] == text[..COLS] && whole[COLS..] == text[COLS..] + [c];
    } else {
      assert whole[..n] == text[..n] && whole[n + 1..] == text[n + 1..] + [c];
    }
  }

  /** An open row takes the character, and closes if that fills it. */
  lemma OpenRowExtends(text: seq<byte>, c: byte)
    requires !Closed(text)
    ensures Rows(text + [c]) == Extend([text], c)
  {
    hide BreakIndex;
    var whole := text + [c];
    BreakIndexUnique(whole, if IsBreak(c) then |text| else |text| + 1);
    BreakIndexUnique([], 0);
    assert Rows([]) == [[]];
    if Closed(whole) {
      assert Below(whole) == [] && FirstRow(whole) == if IsBreak(c) then text else whole;
    }
  }

  lemma ExtendAbove(row: seq<byte>, rows: seq<seq<byte>>, c: byte)
    requires |rows| > 0
    ensures Extend([row] + rows, c) == [row] + Extend(rows, c)
  {
  }

  /** One more character extends only the last row. */
  lemma {:induction false} RowsExtend(text: seq<byte>, c: byte)
    ensures Rows(text + [c]) == Extend(Rows(text), c)
    decreases |text|
  {
    if Closed(text) {
      hide Closed, FirstRow, Below, Extend;
      ClosedGrows(text, c);
      ExtendAbove(FirstRow(text), Rows(Below(text)), c);
      RowsExtend(Below(text), c);
    } else {
      OpenRowExtends(text, c);
    }
  }

  function GridCell(page: seq<byte>, r: int, col: int): byte
    requires |page| == PAGE_SIZE && 0 <= r < ROWS && 0 <= col < COLS
  {
    Cell(page, COLS * r + col)
  }

  function RowCell(row: seq<byte>, col: int): byte {
    if 0 <= col < |row| then row[col] else SPACE
  }

  /** The screen shows the last rows of the text, blank padded, with the cursor after them. */
  ghost predicate Shows(t: Term, rows: seq<seq<byte>>)
    requires |t.page| == PAGE_SIZE && |rows| > 0
  {
    var last := |rows| - 1;
    && t.y == (if last < ROWS then last else ROWS - 1)
    && t.x == |rows[last]|
    && Painted(t.page)
    && forall r, col :: 0 <= r < ROWS && 0 <= col < COLS ==>
         GridCell(t.page, r, col) == if r <= t.y then RowCell(rows[last - t.y + r], col) else SPACE
  }

  lemma ShowsColumn(t: Term, rows: seq<seq<byte>>)
    requires |t.page| == PAGE_SIZE && |rows| > 0 && Shows(t, rows)
    ensures t.x == |rows[|rows| - 1]|
  {
  }

  lemma ScrolledGrid(page: seq<byte>, r: int, col: int)
    requires |page| == PAGE_SIZE && 0 <= r < ROWS && 0 <= col < COLS
    ensures GridCell(Scrolled(page), r, col) == if r < ROWS - 1 then GridCell(page, r + 1, col) else SPACE
  {
    assert Cell(Scrolled(page), COLS * r + col) == if r < ROWS - 1 then Cell(page, COLS * (r + 1) + col) else SPACE;
  }

  lemma NewLineExtends(t: Term, rows: seq<seq<byte>>)
    requires |t.page| == PAGE_SIZE && |rows| > 0 && Shows(t, rows)
    ensures Shows(NewLine(t), rows + [[]])
  {
    var u, more := NewLine(t), rows + [[]];
    forall r, col | 0 <= r < ROWS && 0 <= col < COLS
      ensures GridCell(u.page, r, col) == if r <= u.y then RowCell(more[|rows| - u.y + r], col) else SPACE
    {
      hide GridCell, Scrolled, Painted;
      if t.y == ROWS - 1 {
        ScrolledGrid(t.page, r, col);
        assert r < ROWS - 1 ==> more[|rows| - u.y + r] == rows[|rows| - 1 - t.y + (r + 1)];
      } else {
        assert r <= t.y ==> more[|rows| - u.y + r] == rows[|rows| - 1 - t.y + r];
      }
    }
  }

  lemma PokeExtends(t: Term, rows: seq<seq<byte>>, c: byte)
    requires |t.page| == PAGE_SIZE && |rows| > 0 && Shows(t, rows) && t.x < COLS
    ensures Shows(t.(page := Poke(t.page, t.Pos(), c), x := t.x + 1),
                  rows[|rows| - 1 := rows[|rows| - 1] + [c]])
  {
    var k := |rows| - 1;
    var page, grown := Poke(t.page, t.Pos(), c), rows[k := rows[k] + [c]];
    forall r, col | 0 <= r < ROWS && 0 <= col < COLS
      ensures GridCell(page, r, col) == if r <= t.y then RowCell(grown[k - t.y + r], col) else SPACE
    {
      assert GridCell(page, r, col) == if r == t.y && col == t.x then c else GridCell(t.page, r, col);
    }
  }

  lemma PutExtends(t: Term, rows: seq<seq<byte>>, c: byte)
    requires Sound(t) && |rows| > 0 && Shows(t, rows) && |rows[|rows| - 1]| < COLS
    ensures Shows(Put(t, c), Extend(rows, c))
  {
    if IsBreak(c) {
      NewLineExtends(t, rows);
    } else {
      var k := |rows| - 1;
      PokeExtends(t, rows, c);
      PutInRow(t, c);
      if t.x + 1 == COLS {
        NewLineExtends(t.(page := Poke(t.page, t.Pos(), c), x := t.x + 1), rows[k := rows[k] + [c]]);
      }
    }
  }

  /** Blanking the cell before the cursor takes the last character off the last row. */
  lemma EraseShortens(t: Term, rows: seq<seq<byte>>, c: byte)
    requires |t.page| == PAGE_SIZE && |rows| > 0 && |rows[|rows| - 1]| + 1 < COLS
    requires Shows(t, rows[|rows| - 1 := rows[|rows| - 1] + [c]])
    ensures Shows(t.(page := Poke(t.page, t.Pos() - 1, SPACE), x := t.x - 1), rows)
  {
    var k := |rows| - 1;
    var longer, page := rows[k := rows[k] + [c]], Poke(t.page, t.Pos() - 1, SPACE);
    forall r, col | 0 <= r < ROWS && 0 <= col < COLS
      ensures GridCell(page, r, col) == if r <= t.y then RowCell(rows[k - t.y + r], col) else SPACE
    {
      assert GridCell(t.page, r, col) == if r <= t.y then RowCell(longer[k - t.y + r], col) else SPACE;
      assert GridCell(page, r, col) == if r == t.y && col == t.x - 1 then SPACE else GridCell(t.page, r, col);
    }
  }

  lemma ClearedShows(t: Term)
    requires |t.page| == PAGE_SIZE
    ensures Shows(t.(page := Blank(t.page), x := 0, y := 0), [[]])
  {
  }

  /** From a cleared screen, the display is the layout of everything printed. */
  lemma {:induction false} PrintedTextShows(t: Term, text: seq<byte>)
    requires Sound(t) && Shows(t, [[]])
    ensures Shows(PutAll(t, text), Rows(text))
    decreases |text|
  {
    if text == [] {
      assert Rows(text) == [[]];
    } else {
      var init, c := text[..|text| - 1], text[|text| - 1];
      assert text == init + [c] && PutAll(t, text) == Put(PutAll(t, init), c);
      hide Rows, PutAll, Put, Shows, Extend;
      PrintedTextShows(t, init);
      RowsFit(init);
      PutExtends(PutAll(t, init), Rows(init), c);
      RowsExtend(init, c);
    }
  }
}
