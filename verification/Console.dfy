/** The shared text memory: one displayed page and one backup page for each terminal. */
module Memory {
  import opened CTypes
  import opened TerminalSpec

  const DISPLAY := 0
  const VIDEO_SIZE := 16384

  predicate IsPage(base: int) { 0 <= base < VIDEO_SIZE && base % PAGE_SIZE == 0 }

  function PageAt(v: seq<byte>, base: int): (p: seq<byte>)
    requires |v| == VIDEO_SIZE && IsPage(base)
    ensures |p| == PAGE_SIZE
  {
    v[base..base + PAGE_SIZE]
  }

  function WithPage(v: seq<byte>, base: int, p: seq<byte>): (r: seq<byte>)
    requires |v| == VIDEO_SIZE && IsPage(base) && |p| == PAGE_SIZE
    ensures |r| == VIDEO_SIZE
    ensures PageAt(r, base) == p
    ensures forall b :: IsPage(b) && b != base ==> PageAt(r, b) == PageAt(v, b)
  {
    var r := v[..base] + p + v[base + PAGE_SIZE..];
    assert forall b :: IsPage(b) && b != base ==> b + PAGE_SIZE <= base || base + PAGE_SIZE <= b;
    r
  }

  lemma BytesArePage(v: seq<byte>, was: seq<byte>, base: int, p: seq<byte>)
    requires |v| == |was| == VIDEO_SIZE && IsPage(base) && |p| == PAGE_SIZE
    requires forall b :: 0 <= b < VIDEO_SIZE ==>
               v[b] == if base <= b < base + PAGE_SIZE then p[b - base] else was[b]
    ensures v == WithPage(was, base, p)
  {
  }

  method PokeCell(video: array<byte>, base: int, pos: int, c: byte)
    requires video.Length == VIDEO_SIZE && IsPage(base) && 0 <= pos < CELLS
    modifies video
    ensures video[..] == WithPage(old(video[..]), base, Poke(PageAt(old(video[..]), base), pos, c))
  {
    video[base + 2 * pos] := c;
    video[base + 2 * pos + 1] := ATTRIB;
    assert video[..] == old(video[..])[base + 2 * pos := c][base + 2 * pos + 1 := ATTRIB];
  }

  /** The page after `done` cells have been scrolled up in place. */
  ghost predicate PartlyScrolled(v: seq<byte>, was: seq<byte>, base: int, done: int)
    requires |v| == |was| == VIDEO_SIZE && IsPage(base) && 0 <= done <= CELLS
  {
    forall b :: 0 <= b < VIDEO_SIZE ==>
      v[b] == if base <= b < base + 2 * done then Scrolled(PageAt(was, base))[b - base] else was[b]
  }

  lemma CellScrolled(v: seq<byte>, was: seq<byte>, base: int, k: int, v': seq<byte>)
    requires |v| == |was| == VIDEO_SIZE && IsPage(base) && 0 <= k < CELLS - COLS
    requires PartlyScrolled(v, was, base, k)
    requires v' == v[base + 2 * k := v[base + 2 * (k + COLS)]][base + 2 * k + 1 := ATTRIB]
    ensures PartlyScrolled(v', was, base, k + 1)
  {
    var s := Scrolled(PageAt(was, base));
    assert s[2 * k] == PageAt(was, base)[2 * k + 2 * COLS] == was[base + 2 * (k + COLS)];
    assert s[2 * k + 1] == ATTRIB;
    assert v[base + 2 * (k + COLS)] == was[base + 2 * (k + COLS)];
  }

  lemma CellBlanked(v: seq<byte>, was: seq<byte>, base: int, k: int)
    requires |v| == |was| == VIDEO_SIZE && IsPage(base) && CELLS - COLS <= k < CELLS
    requires PartlyScrolled(v, was, base, k)
    ensures PartlyScrolled(v[base + 2 * k := SPACE][base + 2 * k + 1 := ATTRIB], was, base, k + 1)
  {
    hide PageAt;
    var s := Scrolled(PageAt(was, base));
    assert s[2 * k] == SPACE && s[2 * k + 1] == ATTRIB;
  }

  /** Inner loop of `scroll`: row `i` takes the characters of the row below it. */
  method ShiftRow(video: array<byte>, base: int, i: int, ghost was: seq<byte>)
    requires video.Length == |was| == VIDEO_SIZE && IsPage(base) && 0 <= i < ROWS - 1
    requires PartlyScrolled(video[..], was, base, COLS * i)
    modifies video
    ensures PartlyScrolled(video[..], was, base, COLS * (i + 1))
  {
    for j := 0 to COLS
      invariant PartlyScrolled(video[..], was, base, COLS * i + j)
    {
      ghost var v := video[..];
      video[base + 2 * (i * COLS + j)] := video[base + 2 * ((i + 1) * COLS + j)];
      video[base + 2 * (i * COLS + j) + 1] := ATTRIB;
      CellScrolled(v, was, base, COLS * i + j, video[..]);
    }
  }

  /** Last loop of `scroll`. */
  method BlankRow(video: array<byte>, base: int, ghost was: seq<byte>)
    requires video.Length == |was| == VIDEO_SIZE && IsPage(base)
    requires PartlyScrolled(video[..], was, base, COLS * (ROWS - 1))
    modifies video
    ensures PartlyScrolled(video[..], was, base, CELLS)
  {
    for j := 0 to COLS
      invariant PartlyScrolled(video[..], was, base, COLS * (ROWS - 1) + j)
    {
      ghost var v: seq<byte> := video[..];
      CellBlanked(v, was, base, COLS * (ROWS - 1) + j);
      hide PartlyScrolled;
      var cell := base + 2 * ((ROWS - 1) * COLS + j);
      video[cell] := SPACE;
      video[cell + 1] := ATTRIB;
      assert video[..] == v[cell := SPACE][base + 2 * ((ROWS - 1) * COLS + j) + 1 := ATTRIB];
    }
  }

  /** The row loops of `scroll`. */
  method ScrollPage(video: array<byte>, base: int)
    requires video.Length == VIDEO_SIZE && IsPage(base)
    modifies video
    ensures video[..] == WithPage(old(video[..]), base, Scrolled(PageAt(old(video[..]), base)))
  {
    ghost var was := video[..];
    for i := 0 to ROWS - 1
      invariant PartlyScrolled(video[..], was, base, COLS * i)
    {
      ShiftRow(video, base, i, was);
    }
    BlankRow(video, base, was);
    BytesArePage(video[..], was, base, Scrolled(PageAt(was, base)));
  }

  /** The loop of `clear`. */
  method BlankPage(video: array<byte>, base: int)
    requires video.Length == VIDEO_SIZE && IsPage(base)
    modifies video
    ensures video[..] == WithPage(old(video[..]), base, Blank(PageAt(old(video[..]), base)))
  {
    ghost var was := video[..];
    for i := 0 to CELLS
      invariant forall b :: 0 <= b < VIDEO_SIZE ==>
                  video[b] == if base <= b < base + 2 * i then Blank(PageAt(was, base))[b - base] else was[b]
    {
      video[base + 2 * i] := SPACE;
      video[base + 2 * i + 1] := ATTRIB;
    }
    BytesArePage(video[..], was, base, Blank(PageAt(was, base)));
  }

  ghost predicate PartlyCopied(v: seq<byte>, was: seq<byte>, dst: int, page: seq<byte>, n: int)
    requires |v| == |was| == VIDEO_SIZE && IsPage(dst) && |page| == PAGE_SIZE && 0 <= n <= PAGE_SIZE
  {
    forall b :: 0 <= b < VIDEO_SIZE ==> v[b] == if dst <= b < dst + n then page[b - dst] else was[b]
  }

  lemma ByteCopied(v: seq<byte>, was: seq<byte>, dst: int, src: int, n: int)
    requires |v| == |was| == VIDEO_SIZE && IsPage(dst) && IsPage(src) && dst != src && 0 <= n < PAGE_SIZE
    requires PartlyCopied(v, was, dst, PageAt(was, src), n)
    ensures PartlyCopied(v[dst + n := v[src + n]], was, dst, PageAt(was, src), n + 1)
  {
    assert dst + PAGE_SIZE <= src || src + PAGE_SIZE <= dst;
    assert PageAt(was, src)[n] == was[src + n];
  }

  /** Bytewise copy of one page over another. */
  method CopyPage(video: array<byte>, dst: int, src: int)
    requires video.Length == VIDEO_SIZE && IsPage(dst) && IsPage(src) && dst != src
    modifies video
    ensures video[..] == WithPage(old(video[..]), dst, PageAt(old(video[..]), src))
  {
    ghost var was := video[..];
    for n := 0 to PAGE_SIZE
      invariant PartlyCopied(video[..], was, dst, PageAt(was, src), n)
    {
      ghost var v := video[..];
      ByteCopied(v, was, dst, src, n);
      hide PartlyCopied, PageAt;
      video[dst + n] := video[src + n];
      assert video[..] == v[dst + n := v[src + n]];
    }
    BytesArePage(video[..], was, dst, PageAt(was, src));
  }
}

module ConsoleModel {
  import opened CTypes
  import opened TerminalSpec
  import opened Memory
  import opened Multiplex

  /** The fields of the kernel's terminal structure that the display and keyboard use. */
  datatype Record = Record(screenX: int, screenY: int, videoMem: int, line: seq<byte>, index: int, enter: bool)

  class Console {
    const video: array<byte>
    const terminal: array<Record>
    var currTerm: int
    var schedTerm: int
    /** The value last loaded into the VGA cursor location registers. */
    var vgaCursor: int

    ghost predicate Shape()
      reads this`currTerm, terminal
    {
      && video.Length == VIDEO_SIZE && terminal.Length == TERMINALS
      && 0 <= currTerm < TERMINALS
      && forall t :: 0 <= t < TERMINALS ==> terminal[t].videoMem == (t + 1) * PAGE_SIZE
    }

    /** Where the page of a terminal is: on the display, or in its backup. */
    function Base(t: int): (b: int)
      reads this`currTerm
      requires 0 <= t < TERMINALS
      ensures IsPage(b)
    {
      if t == currTerm then DISPLAY else (t + 1) * PAGE_SIZE
    }

    ghost function Logical(t: int): Term
      reads this`currTerm, video, terminal
      requires Shape() && 0 <= t < TERMINALS
    {
      Term(PageAt(video[..], Base(t)), terminal[t].screenX, terminal[t].screenY,
           terminal[t].line, terminal[t].index, terminal[t].enter)
    }

    ghost predicate Valid()
      reads this, video, terminal
    {
      && Shape() && 0 <= schedTerm < TERMINALS
      && (forall t :: 0 <= t < TERMINALS ==> Sound(Logical(t)))
      && vgaCursor == Logical(currTerm).Pos()
    }

    /** Row-major position, truncated to 16 bits and sent as two bytes. */
    function Register(x: int, y: int): int {
      (y * COLS + x) % 0x1_0000
    }

    /** Store the fields of one terminal; its page and the other terminals are not concerned. */
    method Update(term: int, r: Record)
      requires Shape() && 0 <= term < TERMINALS && r.videoMem == terminal[term].videoMem
      modifies terminal
      ensures Shape() && terminal[..] == old(terminal[..])[term := r]
      ensures Logical(term) == Term(old(Logical(term)).page, r.screenX, r.screenY, r.line, r.index, r.enter)
      ensures forall t :: 0 <= t < TERMINALS && t != term ==> Logical(t) == old(Logical(t))
    {
      terminal[term] := r;
    }

    method SetCursor(x: int, y: int, term: int)
      requires Shape() && 0 <= term < TERMINALS
      modifies this`vgaCursor, terminal
      ensures terminal[..] == old(terminal[..])[term := old(terminal[term]).(screenX := x, screenY := y)]
      ensures vgaCursor == if term == currTerm then Register(x, y) else old(vgaCursor)
      ensures Shape() && Logical(term) == old(Logical(term)).(x := x, y := y)
      ensures forall t :: 0 <= t < TERMINALS && t != term ==> Logical(t) == old(Logical(t))
    {
      terminal[term] := terminal[term].(screenX := x, screenY := y);
      if term == currTerm {
        vgaCursor := Register(x, y);
      }
    }

    method Scroll(term: int)
      requires Shape() && 0 <= term < TERMINALS && (term == currTerm || term == schedTerm)
      modifies this`vgaCursor, terminal, video
      ensures video[..] == WithPage(old(video[..]), Base(term), Scrolled(PageAt(old(video[..]), Base(term))))
      ensures terminal[..] == old(terminal[..])[term := old(terminal[term]).(screenX := 0)]
      ensures vgaCursor == if term == currTerm then Register(0, old(terminal[term].screenY)) else old(vgaCursor)
    {
      var base := if term != currTerm then terminal[schedTerm].videoMem else DISPLAY;
      ScrollPage(video, base);
      SetCursor(0, terminal[term].screenY, term);
    }

    /** The branch shared by line breaks, full rows and Enter. */
    method LineFeed(term: int)
      requires Shape() && 0 <= term < TERMINALS && (term == currTerm || term == schedTerm)
      requires 0 <= terminal[term].screenY < ROWS
      modifies this`vgaCursor, terminal, video
      ensures Shape() && Logical(term) == NewLine(old(Logical(term)))
      ensures forall t :: 0 <= t < TERMINALS && t != term ==> Logical(t) == old(Logical(t))
      ensures vgaCursor == if term == currTerm then Register(0, terminal[term].screenY) else old(vgaCursor)
    {
      if terminal[term].screenY == ROWS - 1 {
        Scroll(term);
      } else {
        SetCursor(0, terminal[term].screenY + 1, term);
      }
    }

    /** `terminal_init`, over whatever the adapter's memory holds. */
    constructor (vmem: array<byte>)
      requires vmem.Length == VIDEO_SIZE
      ensures fresh(terminal) && video == vmem && video[..] == old(vmem[..])
      ensures currTerm == 0 && schedTerm == 0 && Valid()
      ensures forall t :: 0 <= t < TERMINALS ==>
                var r := Logical(t);
                && r.x == 0 && r.y == 0 && r.index == 0 && !r.enter && r.line == seq(BUFFER_SIZE, j => NUL)
                && r.page == old(vmem[..])[if t == 0 then 0 else (t + 1) * PAGE_SIZE..][..PAGE_SIZE]
    {
      video := vmem;
      terminal := new Record[TERMINALS](i requires 0 <= i < TERMINALS =>
        Record(0, 0, (i + 1) * PAGE_SIZE, seq(BUFFER_SIZE, j => NUL), 0, false));
      currTerm, schedTerm, vgaCursor := 0, 0, 0;
    }

    method Clear()
      requires Shape()
      modifies this`vgaCursor, terminal, video
      ensures Shape() && vgaCursor == 0
      ensures Logical(currTerm) == var t := old(Logical(currTerm)); t.(page := Blank(t.page), x := 0, y := 0)
      ensures forall t :: 0 <= t < TERMINALS && t != currTerm ==> Logical(t) == old(Logical(t))
    {
      BlankPage(video, DISPLAY);
      SetCursor(0, 0, currTerm);
    }

    method StoreChar(term: int, c: byte)
      requires Shape() && 0 <= term < TERMINALS && 0 <= Logical(term).Pos() < CELLS
      modifies terminal, video
      ensures Shape() && Logical(term) == Store(old(Logical(term)), c)
      ensures forall t :: 0 <= t < TERMINALS && t != term ==> Logical(t) == old(Logical(t))
    {
      hide Poke, WithPage, PageAt;
      var base := if term != currTerm then terminal[term].videoMem else DISPLAY;
      PokeCell(video, base, COLS * terminal[term].screenY + terminal[term].screenX, c);
      Update(term, terminal[term].(screenX := terminal[term].screenX + 1));
    }

    method SettleCursor(term: int)
      requires Shape() && 0 <= term < TERMINALS && (term == currTerm || term == schedTerm)
      requires 0 <= terminal[term].screenY < ROWS
      modifies this`vgaCursor, terminal, video
      ensures Shape() && Logical(term) == Settle(old(Logical(term)))
      ensures forall t :: 0 <= t < TERMINALS && t != term ==> Logical(t) == old(Logical(t))
      ensures term != currTerm ==> vgaCursor == old(vgaCursor)
    {
      if terminal[term].screenX >= COLS {
        LineFeed(term);
      }
      var x := TruncMod(terminal[term].screenX, COLS);
      Update(term, terminal[term].(screenX := x));
      Update(term, terminal[term].(screenY := TruncMod(terminal[term].screenY + TruncDiv(x, COLS), ROWS)));
    }

    /** The common text of `putc` and `keyboard_putc`, up to the cursor registers. */
    method Display(term: int, c: byte)
      requires Shape() && 0 <= term < TERMINALS && (term == currTerm || term == schedTerm)
      requires Sound(Logical(term))
      modifies this`vgaCursor, terminal, video
      ensures Shape() && Logical(term) == Put(old(Logical(term)), c)
      ensures forall t :: 0 <= t < TERMINALS && t != term ==> Logical(t) == old(Logical(t))
      ensures term != currTerm ==> vgaCursor == old(vgaCursor)
    {
      if c == NEWLINE || c == RETURN {
        LineFeed(term);
      } else {
        StoreChar(term, c);
        SettleCursor(term);
      }
    }

    /** `putc` for the scheduled terminal, `keyboard_putc` for the displayed one. */
    method PutChar(term: int, c: byte)
      requires Valid() && 0 <= term < TERMINALS && (term == currTerm || term == schedTerm)
      modifies this`vgaCursor, terminal, video
      ensures Valid() && Logical(term) == Put(old(Logical(term)), c)
      ensures forall t :: 0 <= t < TERMINALS && t != term ==> Logical(t) == old(Logical(t))
    {
      hide Put;
      Display(term, c);
      if term == currTerm {
        vgaCursor := Register(terminal[term].screenX, terminal[term].screenY);
      }
    }

    /** A character key: echo, then store, while the line has room. */
    method TypeKey(c: byte)
      requires Valid()
      modifies this`vgaCursor, terminal, video
      ensures Valid() && Logical(currTerm) == Type(old(Logical(currTerm)), c)
      ensures forall t :: 0 <= t < TERMINALS && t != currTerm ==> Logical(t) == old(Logical(t))
    {
      hide Put;
      assert Sound(Logical(currTerm));
      if terminal[currTerm].index < BUFFER_SIZE - 1 {
        PutChar(currTerm, c);
        var r := terminal[currTerm];
        assert Sound(Logical(currTerm));
        Update(currTerm, r.(line := r.line[r.index := c], index := r.index + 1));
      }
    }

    /** A tab is four spaces, each with its own check for room. */
    method TypeTab()
      requires Valid()
      modifies this`vgaCursor, terminal, video
      ensures Valid() && Logical(currTerm) == TypeRun(old(Logical(currTerm)), SPACE, 4)
      ensures forall t :: 0 <= t < TERMINALS && t != currTerm ==> Logical(t) == old(Logical(t))
    {
      ghost var was := Logical(currTerm);
      assert Sound(was);
      for i := 0 to 4
        invariant Valid() && Logical(currTerm) == TypeRun(was, SPACE, i)
        invariant forall t :: 0 <= t < TERMINALS && t != currTerm ==> Logical(t) == old(Logical(t))
      {
        hide Type, Sound;
        TypeKey(SPACE);
      }
    }

    /** Blank a displayed cell and put the cursor there. */
    method Erase(x: int, y: int)
      requires Shape() && 0 <= y * COLS + x < CELLS
      modifies this`vgaCursor, terminal, video
      ensures Shape() && vgaCursor == Register(x, y)
      ensures Logical(currTerm) == var t := old(Logical(currTerm));
                                   t.(page := Poke(t.page, COLS * y + x, SPACE), x := x, y := y)
      ensures forall t :: 0 <= t < TERMINALS && t != currTerm ==> Logical(t) == old(Logical(t))
    {
      PokeCell(video, DISPLAY, y * COLS + x, SPACE);
      SetCursor(x, y, currTerm);
    }

    /** The source's case for a cursor at column 80 cannot arise: columns stay below 80. */
    method BackspaceKeyPress()
      requires Valid()
      modifies this`vgaCursor, terminal, video
      ensures Valid() && Logical(currTerm) == Backspace(old(Logical(currTerm)))
      ensures forall t :: 0 <= t < TERMINALS && t != currTerm ==> Logical(t) == old(Logical(t))
    {
      assert Sound(Logical(currTerm));
      if terminal[currTerm].index != 0 {
        assert terminal[currTerm].screenX != COLS;
        Erase(terminal[currTerm].screenX - 1, terminal[currTerm].screenY);
        var r := terminal[currTerm];
        Update(currTerm, r.(line := r.line[r.index := SPACE], index := r.index - 1));
      }
    }

    method EnterKeyPress()
      requires Valid()
      modifies this`vgaCursor, terminal, video
      ensures Valid() && Logical(currTerm) == Enter(old(Logical(currTerm)))
      ensures forall t :: 0 <= t < TERMINALS && t != currTerm ==> Logical(t) == old(Logical(t))
    {
      hide Scrolled, PageAt;
      assert Sound(Logical(currTerm));
      ghost var t := Enter(Logical(currTerm));
      assert Sound(t);
      Update(currTerm, terminal[currTerm].(enter := true));
      LineFeed(currTerm);
      assert Logical(currTerm) == t;
    }

    /** Copy the displayed page out and the new terminal's page in. */
    method TerminalSwitch(n: int)
      requires Valid() && 0 <= n < TERMINALS
      modifies this`currTerm, this`vgaCursor, terminal, video
      ensures Valid() && currTerm == n
      ensures forall t :: 0 <= t < TERMINALS ==> Logical(t) == old(Logical(t))
    {
      assert forall t :: 0 <= t < TERMINALS ==> Sound(Logical(t));
      if currTerm == n {
        return;
      }
      SwapPages(n);
      SetCursor(terminal[n].screenX, terminal[n].screenY, n);
    }

    method SwapPages(n: int)
      requires Shape() && 0 <= n < TERMINALS && n != currTerm
      modifies this`currTerm, video
      ensures Shape() && currTerm == n
      ensures forall t :: 0 <= t < TERMINALS ==> Logical(t) == old(Logical(t))
    {
      CopyPage(video, terminal[currTerm].videoMem, DISPLAY);
      CopyPage(video, DISPLAY, terminal[n].videoMem);
      currTerm := n;
    }

    /** `terminal_read` once Enter has been pressed (until then it only waits, if the count is valid). */
    method TerminalRead(nbytes: int) returns (data: seq<byte>, result: int)
      requires Valid() && (nbytes >= 0 ==> terminal[schedTerm].enter)
      modifies terminal
      ensures Valid()
      ensures nbytes < 0 ==> result == -1 && data == [] && terminal[..] == old(terminal[..])
      ensures nbytes >= 0 ==> data == Delivered(old(Logical(schedTerm)).Line(), nbytes) && result == |data|
      ensures nbytes >= 1 ==>
                var line := old(terminal[schedTerm].line[..terminal[schedTerm].index]);
                && result == |data| == 1 + (if |line| < nbytes - 1 then |line| else nbytes - 1)
                && data[..result - 1] == line[..result - 1] && data[result - 1] == NEWLINE
      ensures nbytes == 0 ==> result == 1 && data == [NEWLINE]
      ensures nbytes >= 0 ==> Logical(schedTerm) == Apply(old(Logical(schedTerm)), Read(nbytes))
      ensures forall t :: 0 <= t < TERMINALS && t != schedTerm ==> Logical(t) == old(Logical(t))
    {
      if nbytes < 0 {
        return [], -1;
      }
      assert Sound(Logical(schedTerm));
      hide Sound, Delivered;
      var r := terminal[schedTerm];
      data, result := CopyLine(r.line, r.index, nbytes);
      Update(schedTerm, r.(line := seq(BUFFER_SIZE, j => NUL), index := 0, enter := false));
    }

    /** Counting and copying the bytes to deliver. */
    static method CopyLine(line: seq<byte>, index: int, nbytes: int) returns (data: seq<byte>, result: int)
      requires 0 <= index <= |line| && 0 <= nbytes
      ensures data == Delivered(line[..index], nbytes) && result == |data|
    {
      var i := 0;
      while i < index && i < nbytes - 1
        invariant 0 <= i <= index && (i == 0 || i <= nbytes - 1)
      {
        i := i + 1;
      }
      data := line[..i] + [NEWLINE];
      result := i + 1;
      assert line[..index][..i] == line[..i];
    }

    /** `halt` clears the line of the terminal it runs on. */
    method ForgetLine()
      requires Valid()
      modifies terminal
      ensures Valid() && Logical(schedTerm) == Drain(old(Logical(schedTerm)))
      ensures forall t :: 0 <= t < TERMINALS && t != schedTerm ==> Logical(t) == old(Logical(t))
    {
      assert Sound(Logical(schedTerm));
      Update(schedTerm, terminal[schedTerm].(line := seq(BUFFER_SIZE, j => NUL), index := 0));
    }

    /** `terminal_write`: print the bytes that are not NUL and count them. */
    method TerminalWrite(buffer: seq<byte>, nbytes: int) returns (typed: int)
      requires Valid() && nbytes <= |buffer|
      modifies this`vgaCursor, terminal, video
      ensures Valid()
      ensures nbytes < 0 ==> typed == -1 && Logical(schedTerm) == old(Logical(schedTerm))
      ensures nbytes >= 0 ==> typed == |NonNul(buffer[..nbytes])|
      ensures nbytes >= 0 ==> Logical(schedTerm) == PutAll(old(Logical(schedTerm)), NonNul(buffer[..nbytes]))
      ensures forall t :: 0 <= t < TERMINALS && t != schedTerm ==> Logical(t) == old(Logical(t))
    {
      if nbytes < 0 {
        return -1;
      }
      typed := 0;
      ghost var was := Logical(schedTerm);
      assert Sound(was);
      for i := 0 to nbytes
        invariant Valid() && typed == |NonNul(buffer[..i])|
        invariant Logical(schedTerm) == PutAll(was, NonNul(buffer[..i]))
        invariant forall t :: 0 <= t < TERMINALS && t != schedTerm ==> Logical(t) == old(Logical(t))
      {
        hide NonNul, PutAll, Put;
        PutNonNul(was, buffer, i);
        if buffer[i] != NUL {
          PutChar(schedTerm, buffer[i]);
          typed := typed + 1;
        }
      }
    }

    // ---- one step of the whole console, and whole runs of it

    ghost function Abs(): Machine
      reads this`currTerm, this`schedTerm, video, terminal
      requires Shape()
    {
      Machine(currTerm, schedTerm, [Logical(0), Logical(1), Logical(2)])
    }

    method OnScheduledTerminal(op: Op)
      requires Valid() && Legal(OnScheduled(op))
      modifies this`vgaCursor, terminal, video
      ensures Valid() && Logical(schedTerm) == Apply(old(Logical(schedTerm)), op)
      ensures forall t :: 0 <= t < TERMINALS && t != schedTerm ==> Logical(t) == old(Logical(t))
    {
      match op
      case Output(c) => PutChar(schedTerm, c);
      case Read(n) =>
        if terminal[schedTerm].enter {
          var _, _ := TerminalRead(n);
        }
      case Forget => ForgetLine();
    }

    method OnDisplayedTerminal(op: Op)
      requires Valid() && Legal(OnDisplayed(op))
      modifies this`vgaCursor, terminal, video
      ensures Valid() && Logical(currTerm) == Apply(old(Logical(currTerm)), op)
      ensures forall t :: 0 <= t < TERMINALS && t != currTerm ==> Logical(t) == old(Logical(t))
    {
      match op
      case Typed(c) => TypeKey(c);
      case TabKey => TypeTab();
      case BackspaceKey => BackspaceKeyPress();
      case EnterKey => EnterKeyPress();
      case EnterReleased =>
        assert Sound(Logical(currTerm));
        Update(currTerm, terminal[currTerm].(enter := false));
    }

    method StepScheduled(op: Op)
      requires Valid() && Legal(OnScheduled(op))
      modifies this`vgaCursor, terminal, video
      ensures Valid() && Abs() == Multiplex.Step(old(Abs()), OnScheduled(op))
    {
      hide Apply;
      OnScheduledTerminal(op);
    }

    method StepDisplayed(op: Op)
      requires Valid() && Legal(OnDisplayed(op))
      modifies this`vgaCursor, terminal, video
      ensures Valid() && Abs() == Multiplex.Step(old(Abs()), OnDisplayed(op))
    {
      hide Apply;
      OnDisplayedTerminal(op);
    }

    method Handle(e: Event)
      requires Valid() && Legal(e)
      modifies this`currTerm, this`schedTerm, this`vgaCursor, terminal, video
      ensures Valid() && Abs() == Multiplex.Step(old(Abs()), e)
    {
      hide Apply;
      match e
      case OnScheduled(op) => StepScheduled(op);
      case OnDisplayed(op) => StepDisplayed(op);
      case Show(n) => TerminalSwitch(n);
      case Schedule(n) => schedTerm := n;
    }

    method HandleAll(events: seq<Event>)
      requires Valid() && forall e <- events :: Legal(e)
      modifies this`currTerm, this`schedTerm, this`vgaCursor, terminal, video
      ensures Valid() && Abs() == StepAll(old(Abs()), events)
    {
      ghost var start := Abs();
      for i := 0 to |events|
        invariant Valid() && StepAll(Abs(), events[i..]) == StepAll(start, events)
      {
        hide StepAll, Multiplex.Step;
        StepAllFirst(Abs(), events, i);
        Handle(events[i]);
      }
      StepAllNone(Abs(), events);
    }

    /** Any run: every terminal shows and holds what its own operations alone produce, and the
        hardware cursor is where the displayed terminal's cursor is. */
    method Session(events: seq<Event>)
      requires Valid() && forall e <- events :: Legal(e)
      modifies this`currTerm, this`schedTerm, this`vgaCursor, terminal, video
      ensures Valid() && vgaCursor == COLS * Logical(currTerm).y + Logical(currTerm).x
      ensures currTerm == LastShown(old(currTerm), events) && schedTerm == LastScheduled(old(schedTerm), events)
      ensures forall t :: 0 <= t < TERMINALS ==>
                Logical(t) == ApplyAll(old(Logical(t)), Own(old(currTerm), old(schedTerm), events, t))
    {
      hide Own, ApplyAll, Multiplex.Step, StepAll;
      ghost var start := Abs();
      HandleAll(events);
      AllAlone(start, events);
      hide Sound, SoundMachine, PageAt, LastShown, LastScheduled;
    }
  }

  /** The keyboard in front of the console. */
  class Keyboard {
    const console: Console
    var modifiers: Modifiers

    constructor (c: Console)
      ensures console == c && modifiers == Modifiers(false, false, false, false)
    {
      console := c;
      modifiers := Modifiers(false, false, false, false);
    }

    /** The character of a pressed key: shift and caps lock each override the one before. */
    method PressKey(code: int) returns (output: byte)
      requires 0 <= code < PRESSED_SCANCODES
      modifies this
      ensures modifiers == Pressed(old(modifiers), code) && output == TableEntry(code, Column(modifiers))
    {
      output := TableEntry(code, 0);
      modifiers := Pressed(modifiers, code);
      if modifiers.caps {
        output := TableEntry(code, 2);
      }
      if modifiers.shift {
        output := if modifiers.caps then TableEntry(code, 0) else TableEntry(code, 1);
      }
    }

    method Act(e: Event)
      requires console.Valid() && Legal(e)
      modifies console`currTerm, console`schedTerm, console`vgaCursor, console.terminal, console.video
      ensures console.Valid() && console.Abs() == StepAll(old(console.Abs()), [e])
    {
      hide Multiplex.Step;
      ghost var was := console.Abs();
      console.Handle(e);
      assert StepAll(was, [e]) == StepAll(Multiplex.Step(was, e), []);
    }

    /** `keyboard_intr_handler` without the Ctrl+L redraw. */
    method Interrupt(code: int)
      requires console.Valid() && Scancode(code) && !(modifiers.ctrl && code == L_KEY)
      modifies this, console`currTerm, console`schedTerm, console`vgaCursor, console.terminal, console.video
      ensures modifiers == if code > RELEASED_OFFSET then Released(old(modifiers), code - RELEASED_OFFSET)
                           else Pressed(old(modifiers), code)
      ensures console.Valid()
      ensures console.Abs() == StepAll(old(console.Abs()), KeyEvents(modifiers, code))
    {
      if code > RELEASED_OFFSET {
        modifiers := Released(modifiers, code - RELEASED_OFFSET);
        if code - RELEASED_OFFSET == ENTER {
          Act(OnDisplayed(EnterReleased));
        }
        return;
      }
      var output := PressKey(code);
      if modifiers.alt && F_ONE <= code < F_ONE + TERMINALS {
        Act(Show(code - F_ONE));
      } else if code == ENTER {
        Act(OnDisplayed(EnterKey));
      } else {
        TableHasNoBreaks(code, Column(modifiers));
        if code == BACKSPACE {
          Act(OnDisplayed(BackspaceKey));
        }
        if output != NUL {
          Act(OnDisplayed(if code == TAB then TabKey else Typed(output)));
        }
      }
    }
  }
}
