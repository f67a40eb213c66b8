/** What each operation does to one terminal, byte by byte and field by field, from any state the
    cursor invariant allows: also with the cursor left of its row, where no text is shown. */
module TerminalEffects {
  import opened CTypes
  import opened TerminalSpec

  /** A printed line break: down one row, or up the screen at the bottom, wherever the column is. */
  lemma BreakMoves(t: Term, c: byte)
    requires Sound(t) && (c == NEWLINE || c == RETURN)
    ensures var r := Put(t, c);
            && r.x == 0 && r.y == (if t.y < 24 then t.y + 1 else 24)
            && r.line == t.line && r.index == t.index && r.enter == t.enter
    ensures t.y < 24 ==> Put(t, c).page == t.page
    ensures t.y == 24 ==> forall b :: 0 <= b < 4096 ==>
              Put(t, c).page[b] == if b >= 4000 then t.page[b]
                                   else if b % 2 == 1 then 7
                                   else if b < 3840 then t.page[b + 160] else 32
  {
  }

  /** Enter does the same, and makes the line readable. */
  lemma EnterMoves(t: Term)
    requires Sound(t)
    ensures var r := Enter(t);
            && r.x == 0 && r.y == (if t.y < 24 then t.y + 1 else 24)
            && r.line == t.line && r.index == t.index && r.enter
    ensures t.y < 24 ==> Enter(t).page == t.page
    ensures t.y == 24 ==> forall b :: 0 <= b < 4096 ==>
              Enter(t).page[b] == if b >= 4000 then t.page[b]
                                  else if b % 2 == 1 then 7
                                  else if b < 3840 then t.page[b + 160] else 32
  {
  }

  /** A character that stays in its row. */
  lemma CharacterInRow(t: Term, c: byte)
    requires Sound(t) && c != NEWLINE && c != RETURN && -80 <= t.x < 79
    ensures var r, p := Put(t, c), 80 * t.y + t.x;
            && r.x == t.x + 1 && r.y == t.y && r.line == t.line && r.index == t.index && r.enter == t.enter
            && forall b :: 0 <= b < 4096 ==>
                 r.page[b] == if b == 2 * p then c else if b == 2 * p + 1 then 7 else t.page[b]
  {
    PutInRow(t, c);
    hide Put, Settle, NewLine;
  }

  /** A character in the last column also moves on as a line break does. */
  lemma CharacterAtEdge(t: Term, c: byte)
    requires Sound(t) && c != NEWLINE && c != RETURN && t.x == 79
    ensures var r := Put(t, c);
            && r.x == 0 && r.y == (if t.y < 24 then t.y + 1 else 24)
            && r.line == t.line && r.index == t.index && r.enter == t.enter
    ensures t.y < 24 ==> forall b :: 0 <= b < 4096 ==>
              Put(t, c).page[b] == if b == 160 * t.y + 158 then c
                                   else if b == 160 * t.y + 159 then 7 else t.page[b]
    ensures t.y == 24 ==> forall b :: 0 <= b < 4096 ==>
              Put(t, c).page[b] == if b >= 4000 then t.page[b]
                                   else if b % 2 == 1 then 7
                                   else if b >= 3840 then 32
                                   else if b == 3838 then c else t.page[b + 160]
  {
    PutInRow(t, c);
    hide Put, Settle;
  }

  /** A character more than a row to the left: the column is cut to its remainder, which is not
      positive, and the row number stays. */
  lemma CharacterFarLeft(t: Term, c: byte)
    requires Sound(t) && c != NEWLINE && c != RETURN && t.x < -80
    ensures var r, p := Put(t, c), 80 * t.y + t.x;
            && r.y == t.y && -80 < r.x <= 0 && (t.x + 1 - r.x) % 80 == 0
            && r.line == t.line && r.index == t.index && r.enter == t.enter
            && forall b :: 0 <= b < 4096 ==>
                 r.page[b] == if b == 2 * p then c else if b == 2 * p + 1 then 7 else t.page[b]
  {
    PutFarLeft(t, c);
    Reduced(t.x + 1, t.y);
    hide Put, Settle, NewLine, TruncMod, TruncDiv;
  }

  /** Printing texts one after the other is printing them joined, one character at a time. */
  lemma {:induction false} PutAllJoins(t: Term, a: seq<byte>, b: seq<byte>)
    requires Sound(t)
    ensures PutAll(t, []) == t && forall c :: PutAll(t, [c]) == Put(t, c)
    ensures PutAll(t, a + b) == PutAll(PutAll(t, a), b)
    decreases |b|
  {
    hide Put;
    if b == [] {
      assert a + b == a;
    } else {
      var init, c := b[..|b| - 1], b[|b| - 1];
      PutAllJoins(t, a, init);
      assert (a + b)[..|a + b| - 1] == a + init && (a + b)[|a + b| - 1] == c;
    }
  }

  /** The bytes printed are those that are not NUL, in order. */
  lemma NonNulKeeps(text: seq<byte>, c: byte)
    ensures NonNul([]) == [] && NonNul(text + [c]) == NonNul(text) + if c == NUL then [] else [c]
  {
    assert (text + [c])[..|text|] == text;
  }

  /** A character key: shown as printed and stored at the end of the line, or nothing on a full line. */
  lemma TypeStores(t: Term, c: byte)
    requires Sound(t)
    ensures var r, p := Type(t, c), Put(t, c);
            if t.index == 127 then r == t else
            && r.page == p.page && r.x == p.x && r.y == p.y && r.enter == t.enter
            && r.index == t.index + 1 && r.line[..r.index] == t.line[..t.index] + [c]
            && r.line[r.index..] == t.line[r.index..]
  {
    hide Put;
  }

  /** A tab is four space keys. */
  lemma TabTypesFour(t: Term)
    requires Sound(t)
    ensures Apply(t, TabKey) == Type(Type(Type(Type(t, 32), 32), 32), 32)
  {
    hide Type;
    TypeRunOne(t, SPACE, 1);
    TypeRunOne(t, SPACE, 2);
    TypeRunOne(t, SPACE, 3);
    TypeRunOne(t, SPACE, 4);
  }

  lemma TypeRunOne(t: Term, c: byte, n: nat)
    requires Sound(t) && n > 0
    ensures TypeRun(t, c, 0) == t && TypeRun(t, c, n) == Type(TypeRun(t, c, n - 1), c)
  {
  }

  /** Backspace: one cell back and blanked, one character less; nothing at all on an empty line. */
  lemma BackspaceErases(t: Term)
    requires Sound(t)
    ensures var r, p := Apply(t, BackspaceKey), 80 * t.y + t.x - 1;
            if t.index == 0 then r == t else
            && r.x == t.x - 1 && r.y == t.y && r.enter == t.enter
            && r.index == t.index - 1 && r.line[..r.index] == t.line[..r.index]
            && forall b :: 0 <= b < 4096 ==>
                 r.page[b] == if b == 2 * p then 32 else if b == 2 * p + 1 then 7 else t.page[b]
  {
  }

  /** Reading and halting forget the line, releasing Enter makes it unreadable; none shows. */
  lemma FieldsOnly(t: Term, n: nat)
    requires Sound(t)
    ensures Apply(t, EnterReleased) == Term(t.page, t.x, t.y, t.line, t.index, false)
    ensures var r := Apply(t, Forget);
            && r.page == t.page && r.x == t.x && r.y == t.y && r.enter == t.enter
            && r.index == 0 && |r.line| == 128 && forall i :: 0 <= i < 128 ==> r.line[i] == NUL
    ensures var r := Apply(t, Read(n));
            if !t.enter then r == t else
            && r.page == t.page && r.x == t.x && r.y == t.y && !r.enter
            && r.index == 0 && |r.line| == 128 && forall i :: 0 <= i < 128 ==> r.line[i] == NUL
  {
  }

  /** Operations follow one another; each key and each printed byte is the operation named for it. */
  lemma {:induction false} ApplyAllJoins(t: Term, a: seq<Op>, b: seq<Op>)
    requires Sound(t)
    ensures ApplyAll(t, []) == t && forall op :: ApplyAll(t, [op]) == Apply(t, op)
    ensures forall c :: Apply(t, Output(c)) == Put(t, c) && Apply(t, Typed(c)) == Type(t, c)
    ensures Apply(t, EnterKey) == Enter(t)
    ensures ApplyAll(t, a + b) == ApplyAll(ApplyAll(t, a), b)
    decreases |a|
  {
    hide Put, Type, Enter, TypeRun;
    forall op
      ensures ApplyAll(t, [op]) == Apply(t, op)
    {
      assert ApplyAll(t, [op]) == ApplyAll(Apply(t, op), []);
    }
    if a == [] {
      assert a + b == b;
    } else {
      assert (a + b)[0] == a[0] && (a + b)[1..] == a[1..] + b;
      ApplyAllJoins(Apply(t, a[0]), a[1..], b);
    }
  }
}
