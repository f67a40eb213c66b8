/** One terminal on its own: an 80x25 text page, a cursor and a line being edited.
    The functions here say what every keyboard and output routine does to the one
    terminal it works on; `Console` proves the shared-memory kernel equal to them. */
module TerminalSpec {
  import opened CTypes

  const COLS := 80
  const ROWS := 25
  const CELLS := 2000
  const ATTRIB: byte := 7
  const BUFFER_SIZE := 128

  datatype Term = Term(page: seq<byte>, x: int, y: int, line: seq<byte>, index: int, enter: bool)
  {
    /** Row-major cursor position; `x` may be negative, the position never is. */
    function Pos(): int { COLS * y + x }

    /** The bytes typed so far on the line being edited. */
    function Line(): seq<byte>
      requires 0 <= index <= |line|
    {
      line[..index]
    }
  }

  ghost predicate Sound(t: Term) {
    && |t.page| == PAGE_SIZE
    && |t.line| == BUFFER_SIZE
    && 0 <= t.y < ROWS
    && t.x < COLS
    && 0 <= t.index < BUFFER_SIZE
    && t.index <= t.Pos()
  }

  function Cell(page: seq<byte>, pos: int): byte
    requires |page| == PAGE_SIZE && 0 <= pos < CELLS
  {
    page[2 * pos]
  }

  /** Every cell on the screen carries the one attribute the kernel uses. */
  ghost predicate Painted(page: seq<byte>) {
    |page| == PAGE_SIZE && forall q :: 0 <= q < CELLS ==> page[2 * q + 1] == ATTRIB
  }

  /** Store a character and its attribute byte. */
  function Poke(page: seq<byte>, pos: int, c: byte): (r: seq<byte>)
    requires |page| == PAGE_SIZE && 0 <= pos < CELLS
    ensures |r| == PAGE_SIZE
    ensures forall q :: 0 <= q < CELLS ==> Cell(r, q) == if q == pos then c else Cell(page, q)
    ensures forall b :: 0 <= b < PAGE_SIZE && b != 2 * pos ==> r[b] == if b == 2 * pos + 1 then ATTRIB else page[b]
    ensures Painted(page) ==> Painted(r)
  {
    page[2 * pos := c][2 * pos + 1 := ATTRIB]
  }

  /** The page one text row up: the bottom row blank, bytes past the 2000 cells untouched. */
  function Scrolled(page: seq<byte>): (r: seq<byte>)
    requires |page| == PAGE_SIZE
    ensures |r| == PAGE_SIZE
    ensures forall q :: 0 <= q < CELLS ==> Cell(r, q) == if q < CELLS - COLS then Cell(page, q + COLS) else SPACE
    ensures Painted(r) && r[2 * CELLS..] == page[2 * CELLS..]
  {
    seq(PAGE_SIZE, i requires 0 <= i < PAGE_SIZE =>
      if i >= 2 * CELLS then page[i]
      else if i % 2 == 1 then ATTRIB
      else if i < 2 * (CELLS - COLS) then page[i + 2 * COLS]
      else SPACE)
  }

  /** Every cell blank, bytes past the cells untouched. */
  function Blank(page: seq<byte>): (r: seq<byte>)
    requires |page| == PAGE_SIZE
    ensures |r| == PAGE_SIZE && Painted(r) && r[2 * CELLS..] == page[2 * CELLS..]
    ensures forall q :: 0 <= q < CELLS ==> Cell(r, q) == SPACE
  {
    seq(PAGE_SIZE, i requires 0 <= i < PAGE_SIZE =>
      if i >= 2 * CELLS then page[i] else if i % 2 == 1 then ATTRIB else SPACE)
  }

  function NewLine(t: Term): (r: Term)
    requires |t.page| == PAGE_SIZE && 0 <= t.y < ROWS
  {
    if t.y == ROWS - 1 then t.(page := Scrolled(t.page), x := 0) else t.(x := 0, y := t.y + 1)
  }

  function Store(t: Term, c: byte): Term
    requires |t.page| == PAGE_SIZE && 0 <= t.Pos() < CELLS
  {
    t.(page := Poke(t.page, t.Pos(), c), x := t.x + 1)
  }

  /** After a character: go to a new line at the right edge, then the source's truncating
      remainder and quotient. */
  function Settle(t: Term): Term
    requires |t.page| == PAGE_SIZE && 0 <= t.y < ROWS
  {
    var u := if t.x >= COLS then NewLine(t) else t;
    var x := TruncMod(u.x, COLS);
    u.(x := x, y := TruncMod(u.y + TruncDiv(x, COLS), ROWS))
  }

  /** Truncation toward zero brings a column to within one row of its row, never to the left; the
      quotient of what is left is zero, so the row number does not change. */
  lemma Reduced(x: int, y: int)
    requires x < COLS && 0 <= y < ROWS
    ensures var m := TruncMod(x, COLS);
            && -COLS < m < COLS && x <= m && (x <= 0 ==> m <= 0) && m == x - COLS * TruncDiv(x, COLS)
            && (x > -COLS ==> m == x) && (x <= -COLS ==> TruncDiv(x, COLS) <= -1)
            && TruncMod(y + TruncDiv(m, COLS), ROWS) == y
  {
  }

  lemma SettleMoves(t: Term)
    requires |t.page| == PAGE_SIZE && 0 <= t.y < ROWS && t.x <= COLS
    ensures var u := if t.x >= COLS then NewLine(t) else t;
            && Settle(t) == u.(x := u.x - COLS * TruncDiv(u.x, COLS))
            && u.x <= Settle(t).x < COLS
            && (u.x > -COLS ==> Settle(t) == u)
  {
    hide TruncMod, TruncDiv, Scrolled;
    var u := if t.x >= COLS then NewLine(t) else t;
    Reduced(u.x, u.y);
  }

  /** `putc` and `keyboard_putc`. */
  function Put(t: Term, c: byte): (r: Term)
    requires Sound(t)
    ensures Sound(r) && r.line == t.line && r.index == t.index && r.enter == t.enter
    ensures t.index < r.Pos()
  {
    hide Poke, Scrolled, Settle, TruncDiv;
    if c == NEWLINE || c == RETURN then NewLine(t) else
    SettleMoves(Store(t, c));
    Settle(Store(t, c))
  }

  /** Unless the cursor is more than a row to the left, the remainder and quotient change nothing. */
  lemma PutInRow(t: Term, c: byte)
    requires Sound(t) && c != NEWLINE && c != RETURN && t.x >= -COLS
    ensures var u := Store(t, c);
            Put(t, c) == if u.x == COLS then NewLine(u) else u
  {
    hide Settle, TruncDiv, Poke, Scrolled;
    SettleMoves(Store(t, c));
  }

  /** Further to the left, a character also moves the cursor down by whole rows. */
  lemma PutFarLeft(t: Term, c: byte)
    requires Sound(t) && c != NEWLINE && c != RETURN && t.x < -COLS
    ensures var down := TruncDiv(t.x + 1, COLS);
            down <= -1 && Put(t, c) == t.(page := Poke(t.page, t.Pos(), c), x := t.x + 1 - COLS * down)
  {
    hide Settle, TruncDiv, TruncMod, Poke, Scrolled;
    SettleMoves(Store(t, c));
    Reduced(t.x + 1, t.y);
  }

  /** Printing a whole byte string. */
  function PutAll(t: Term, text: seq<byte>): (r: Term)
    requires Sound(t)
    ensures Sound(r) && r.line == t.line && r.index == t.index && r.enter == t.enter
  {
    if text == [] then t else Put(PutAll(t, text[..|text| - 1]), text[|text| - 1])
  }

  function NonNul(text: seq<byte>): (r: seq<byte>)
    ensures NUL !in r
  {
    if text == [] then [] else
    var init := NonNul(text[..|text| - 1]);
    if text[|text| - 1] == NUL then init else init + [text[|text| - 1]]
  }

  lemma PutNonNul(t: Term, text: seq<byte>, i: nat)
    requires Sound(t) && i < |text|
    ensures var shorter, longer := NonNul(text[..i]), NonNul(text[..i + 1]);
            if text[i] == NUL then longer == shorter
            else longer == shorter + [text[i]] && PutAll(t, longer) == Put(PutAll(t, shorter), text[i])
  {
    hide Put;
    assert text[..i + 1][..i] == text[..i];
    assert (NonNul(text[..i]) + [text[i]])[..|NonNul(text[..i])|] == NonNul(text[..i]);
  }

  /** A key that produces a character: echoed and stored while the line has room. */
  function Type(t: Term, c: byte): (r: Term)
    requires Sound(t)
    ensures Sound(r)
  {
    if t.index < BUFFER_SIZE - 1 then Put(t, c).(line := t.line[t.index := c], index := t.index + 1) else t
  }

  function TypeRun(t: Term, c: byte, n: nat): (r: Term)
    requires Sound(t)
    ensures Sound(r)
  {
    if n == 0 then t else Type(TypeRun(t, c, n - 1), c)
  }

  function Backspace(t: Term): (r: Term)
    requires Sound(t)
    ensures Sound(r)
  {
    if t.index == 0 then t else
    t.(page := Poke(t.page, t.Pos() - 1, SPACE), x := t.x - 1,
       line := t.line[t.index := SPACE], index := t.index - 1)
  }

  function Enter(t: Term): (r: Term)
    requires Sound(t)
    ensures Sound(r)
  {
    NewLine(t.(enter := true))
  }

  /** Forget the line being edited (end of `terminal_read`, and `halt`). */
  function Drain(t: Term): (r: Term)
    requires Sound(t)
    ensures Sound(r)
  {
    t.(line := seq(BUFFER_SIZE, i => NUL), index := 0)
  }

  /** What `terminal_read` delivers for a request of `n` bytes. */
  function Delivered(line: seq<byte>, n: nat): (r: seq<byte>)
    ensures |r| == 1 + if n == 0 then 0 else if |line| < n - 1 then |line| else n - 1
    ensures r[..|r| - 1] == line[..|r| - 1] && r[|r| - 1] == NEWLINE
  {
    line[..if |line| < n - 1 then |line| else if n == 0 then 0 else n - 1] + [NEWLINE]
  }

  /** A read delivers the whole line iff there is room for it and its newline; what it leaves out
      is lost.  It writes no more than it was asked for iff it was asked for at least one byte. */
  lemma DeliveredExactly(line: seq<byte>, n: nat)
    ensures Delivered(line, n) == line + [NEWLINE] <==> line == [] || |line| < n
    ensures |Delivered(line, n)| <= n <==> n > 0
    ensures Delivered(line, n)[..|Delivered(line, n)| - 1] <= line
  {
    var m := |Delivered(line, n)| - 1;
    assert m < |line| ==> |Delivered(line, n)| != |line + [NEWLINE]|;
  }

  /** Everything that can happen to one terminal. */
  datatype Op =
    | Output(c: byte)
    | Typed(c: byte)
    | TabKey
    | BackspaceKey
    | EnterKey
    | EnterReleased
    | Read(n: nat)
    | Forget

  function Apply(t: Term, op: Op): (r: Term)
    requires Sound(t)
    ensures Sound(r)
  {
    match op
    case Output(c) => Put(t, c)
    case Typed(c) => Type(t, c)
    case TabKey => TypeRun(t, SPACE, 4)
    case BackspaceKey => Backspace(t)
    case EnterKey => Enter(t)
    case EnterReleased => t.(enter := false)
    case Read(_) => if t.enter then Drain(t.(enter := false)) else t
    case Forget => Drain(t)
  }

  function ApplyAll(t: Term, ops: seq<Op>): (r: Term)
    requires Sound(t)
    ensures Sound(r)
    decreases |ops|
  {
    if ops == [] then t else ApplyAll(Apply(t, ops[0]), ops[1..])
  }
}
