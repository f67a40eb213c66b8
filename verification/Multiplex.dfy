/** Three terminals side by side, and the keyboard that drives the displayed one. */
module Multiplex {
  import opened CTypes
  import opened TerminalSpec

  /** One atomic step of the kernel, as far as terminals can see it. */
  datatype Event =
    | OnScheduled(op: Op)
    | OnDisplayed(op: Op)
    | Show(n: int)
    | Schedule(n: int)

  /** Running programs print, read and halt; the user presses keys; Alt+Fn and the timer switch. */
  predicate Legal(e: Event) {
    match e
    case OnScheduled(op) => op.Output? || op.Read? || op.Forget?
    case OnDisplayed(op) => op.Typed? || op.TabKey? || op.BackspaceKey? || op.EnterKey? || op.EnterReleased?
    case Show(n) => 0 <= n < TERMINALS
    case Schedule(n) => 0 <= n < TERMINALS
  }

  datatype Machine = Machine(curr: int, sched: int, terms: seq<Term>)

  ghost predicate SoundMachine(m: Machine) {
    && 0 <= m.curr < TERMINALS && 0 <= m.sched < TERMINALS && |m.terms| == TERMINALS
    && forall t :: 0 <= t < TERMINALS ==> Sound(m.terms[t])
  }

  function Step(m: Machine, e: Event): (r: Machine)
    requires SoundMachine(m) && Legal(e)
    ensures SoundMachine(r)
  {
    match e
    case OnScheduled(op) => m.(terms := m.terms[m.sched := Apply(m.terms[m.sched], op)])
    case OnDisplayed(op) => m.(terms := m.terms[m.curr := Apply(m.terms[m.curr], op)])
    case Show(n) => m.(curr := n)
    case Schedule(n) => m.(sched := n)
  }

  function StepAll(m: Machine, events: seq<Event>): (r: Machine)
    requires SoundMachine(m) && forall e <- events :: Legal(e)
    ensures SoundMachine(r)
    decreases |events|
  {
    if events == [] then m else StepAll(Step(m, events[0]), events[1..])
  }

  lemma StepAllFirst(m: Machine, events: seq<Event>, i: nat)
    requires SoundMachine(m) && i < |events| && forall e <- events :: Legal(e)
    ensures Legal(events[i]) && StepAll(m, events[i..]) == StepAll(Step(m, events[i]), events[i + 1..])
  {
    hide Step;
    assert events[i..][0] == events[i] && events[i..][1..] == events[i + 1..];
  }

  lemma StepAllNone(m: Machine, events: seq<Event>)
    requires SoundMachine(m)
    ensures StepAll(m, events[|events|..]) == m
  {
  }

  /** The terminal last switched to, by Alt+Fn and by the timer. */
  function LastShown(curr: int, events: seq<Event>): int
    decreases |events|
  {
    if events == [] then curr else
    LastShown(if events[0].Show? then events[0].n else curr, events[1..])
  }

  function LastScheduled(sched: int, events: seq<Event>): int
    decreases |events|
  {
    if events == [] then sched else
    LastScheduled(if events[0].Schedule? then events[0].n else sched, events[1..])
  }

  lemma {:induction false} WhoIsOn(m: Machine, events: seq<Event>)
    requires SoundMachine(m) && forall e <- events :: Legal(e)
    ensures StepAll(m, events).curr == LastShown(m.curr, events)
    ensures StepAll(m, events).sched == LastScheduled(m.sched, events)
    decreases |events|
  {
    hide Apply;
    if events != [] {
      WhoIsOn(Step(m, events[0]), events[1..]);
    }
  }

  /** An event changes one terminal, or which one is displayed, or which one is scheduled. */
  lemma StepTouches(m: Machine, e: Event)
    requires SoundMachine(m) && Legal(e)
    ensures var r := Step(m, e);
            && r.curr == (if e.Show? then e.n else m.curr) && r.sched == (if e.Schedule? then e.n else m.sched)
            && forall t :: 0 <= t < 3 ==>
                 r.terms[t] == if e.OnDisplayed? && t == m.curr then Apply(m.terms[t], e.op)
                               else if e.OnScheduled? && t == m.sched then Apply(m.terms[t], e.op)
                               else m.terms[t]
  {
    hide Apply;
  }

  /** The operations of a run that concern terminal `t`; who is displayed and scheduled
      decides which those are, and nothing else about the run matters. */
  function Own(curr: int, sched: int, events: seq<Event>, t: int): seq<Op>
    decreases |events|
  {
    if events == [] then [] else
    match events[0]
    case OnScheduled(op) => (if sched == t then [op] else []) + Own(curr, sched, events[1..], t)
    case OnDisplayed(op) => (if curr == t then [op] else []) + Own(curr, sched, events[1..], t)
    case Show(n) => Own(n, sched, events[1..], t)
    case Schedule(n) => Own(curr, n, events[1..], t)
  }

  /** After any interleaving, a terminal is what its own operations alone make of it. */
  lemma {:induction false} Isolation(m: Machine, events: seq<Event>, t: int)
    requires SoundMachine(m) && 0 <= t < TERMINALS
    requires forall e <- events :: Legal(e)
    ensures StepAll(m, events).terms[t] == ApplyAll(m.terms[t], Own(m.curr, m.sched, events, t))
    decreases |events|
  {
    if events != [] {
      hide Apply;
      var rest := Own(Step(m, events[0]).curr, Step(m, events[0]).sched, events[1..], t);
      Isolation(Step(m, events[0]), events[1..], t);
      match events[0] {
        case OnScheduled(op) => assert ([op] + rest)[1..] == rest && [] + rest == rest;
        case OnDisplayed(op) => assert ([op] + rest)[1..] == rest && [] + rest == rest;
        case Show(_) =>
        case Schedule(_) =>
      }
    }
  }

  lemma AllAlone(m: Machine, events: seq<Event>)
    requires SoundMachine(m) && forall e <- events :: Legal(e)
    ensures var r := StepAll(m, events);
            && r.curr == LastShown(m.curr, events) && r.sched == LastScheduled(m.sched, events)
            && forall t :: 0 <= t < TERMINALS ==>
                 r.terms[t] == ApplyAll(m.terms[t], Own(m.curr, m.sched, events, t))
  {
    hide StepAll, ApplyAll, Own, LastShown, LastScheduled;
    WhoIsOn(m, events);
    forall t | 0 <= t < TERMINALS
      ensures StepAll(m, events).terms[t] == ApplyAll(m.terms[t], Own(m.curr, m.sched, events, t))
    {
      Isolation(m, events, t);
    }
  }

  // ---- keyboard decoding

  const L_KEY := 0x26
  const F_ONE := 0x3B
  const LEFT_CTRL := 0x1D
  const LEFT_ALT := 0x38
  const LEFT_SHIFT := 0x2A
  const RIGHT_SHIFT := 0x36
  const CAPS_LOCK := 0x3A
  const ENTER := 0x1C
  const BACKSPACE := 0x0E
  const TAB := 0x0F
  const RELEASED_OFFSET := 0x80
  const PRESSED_SCANCODES := 0x58

  datatype Modifiers = Modifiers(ctrl: bool, alt: bool, caps: bool, shift: bool)

  function Letter(row: string, i: int): byte
    requires 0 <= i < |row|
  {
    if row[i] as int < 256 then row[i] as int else NUL
  }

  /** The scancode table: plain, shifted and caps-locked columns. */
  function TableEntry(code: int, column: int): byte
    requires 0 <= code < PRESSED_SCANCODES && 0 <= column < 3
  {
    if 2 <= code <= 13 then Letter(if column == 1 then "!@#$%^&*()_+" else "1234567890-=", code - 2)
    else if code == TAB || code == 57 then SPACE
    else if 16 <= code <= 27 then
      Letter(if column == 1 then "QWERTYUIOP{}" else if column == 2 then "QWERTYUIOP[]" else "qwertyuiop[]",
             code - 16)
    else if 30 <= code <= 41 then
      Letter(if column == 1 then "ASDFGHJKL:\"~" else if column == 2 then "ASDFGHJKL;'`" else "asdfghjkl;'`",
             code - 30)
    else if code == 43 then Letter("\\|\\", column)
    else if 44 <= code <= 53 then
      Letter(if column == 1 then "ZXCVBNM<>?" else if column == 2 then "ZXCVBNM,./" else "zxcvbnm,./", code - 44)
    else NUL
  }

  lemma DigitRowPrints(code: int, column: int)
    requires 2 <= code <= 13 && 0 <= column < 3
    ensures TableEntry(code, column) != NEWLINE && TableEntry(code, column) != RETURN
  {
  }

  lemma TopRowPrints(code: int, column: int)
    requires 16 <= code <= 27 && 0 <= column < 3
    ensures TableEntry(code, column) != NEWLINE && TableEntry(code, column) != RETURN
  {
  }

  lemma HomeRowPrints(code: int, column: int)
    requires 30 <= code <= 41 && 0 <= column < 3
    ensures TableEntry(code, column) != NEWLINE && TableEntry(code, column) != RETURN
  {
  }

  lemma BottomRowPrints(code: int, column: int)
    requires 44 <= code <= 53 && 0 <= column < 3
    ensures TableEntry(code, column) != NEWLINE && TableEntry(code, column) != RETURN
  {
  }

  lemma ControlKeysPrintNothing(code: int, column: int)
    requires 0 <= code < PRESSED_SCANCODES && 0 <= column < 3
    ensures code in {ENTER, BACKSPACE, LEFT_CTRL, LEFT_ALT, LEFT_SHIFT, RIGHT_SHIFT, CAPS_LOCK} || code >= F_ONE ==>
              TableEntry(code, column) == NUL
    ensures code == TAB ==> TableEntry(code, column) == SPACE
  {
    hide Letter;
  }

  /** No table entry is a line break, and the control keys print nothing. */
  lemma TableHasNoBreaks(code: int, column: int)
    requires 0 <= code < PRESSED_SCANCODES && 0 <= column < 3
    ensures TableEntry(code, column) != NEWLINE && TableEntry(code, column) != RETURN
    ensures code in {ENTER, BACKSPACE, LEFT_CTRL, LEFT_ALT, LEFT_SHIFT, RIGHT_SHIFT, CAPS_LOCK} || code >= F_ONE ==>
              TableEntry(code, column) == NUL
    ensures code == TAB ==> TableEntry(code, column) == SPACE
  {
    ControlKeysPrintNothing(code, column);
    if 2 <= code <= 13 {
      hide TableEntry;
      DigitRowPrints(code, column);
    } else if 16 <= code <= 27 {
      hide TableEntry;
      TopRowPrints(code, column);
    } else if 30 <= code <= 41 {
      hide TableEntry;
      HomeRowPrints(code, column);
    } else if 44 <= code <= 53 {
      hide TableEntry;
      BottomRowPrints(code, column);
    }
  }

  function Released(m: Modifiers, key: int): Modifiers {
    if key == LEFT_SHIFT || key == RIGHT_SHIFT then m.(shift := false)
    else if key == LEFT_CTRL then m.(ctrl := false)
    else if key == LEFT_ALT then m.(alt := false)
    else m
  }

  function Pressed(m: Modifiers, key: int): Modifiers {
    if key == CAPS_LOCK then m.(caps := !m.caps)
    else if key == LEFT_SHIFT || key == RIGHT_SHIFT then m.(shift := true)
    else if key == LEFT_CTRL then m.(ctrl := true)
    else if key == LEFT_ALT then m.(alt := true)
    else m
  }

  /** Scancodes the table covers, presses and releases. */
  predicate Scancode(code: int) {
    0 <= code < PRESSED_SCANCODES || RELEASED_OFFSET < code < 0x100
  }

  /** Shift picks the shifted column, unless caps lock is on too: then the plain one. */
  function Column(m: Modifiers): (c: int)
    ensures 0 <= c < 3
  {
    if m.shift then (if m.caps then 0 else 1) else if m.caps then 2 else 0
  }

  /** What a scancode does to the terminals, given the modifiers after it. */
  function KeyEvents(m: Modifiers, code: int): (r: seq<Event>)
    requires Scancode(code)
    ensures |r| <= 1 && forall e <- r :: Legal(e)
  {
    if code > RELEASED_OFFSET then
      if code - RELEASED_OFFSET == ENTER then [OnDisplayed(EnterReleased)] else []
    else if m.alt && F_ONE <= code < F_ONE + TERMINALS then [Show(code - F_ONE)]
    else if code == ENTER then [OnDisplayed(EnterKey)]
    else if code == BACKSPACE then [OnDisplayed(BackspaceKey)]
    else if code == TAB then [OnDisplayed(TabKey)]
    else if TableEntry(code, Column(m)) != NUL then [OnDisplayed(Typed(TableEntry(code, Column(m))))]
    else []
  }

  // ---- what the keys do

  /** Shift and caps lock on the character keys: letters 16-25, 30-38 and 44-50. */
  lemma LetterColumns(code: int)
    requires 16 <= code <= 25 || 30 <= code <= 38 || 44 <= code <= 50
    ensures 97 <= TableEntry(code, 0) <= 122
    ensures TableEntry(code, 1) == TableEntry(code, 2)
    ensures TableEntry(code, 1) as int == TableEntry(code, 0) as int - 32
  {
    if code <= 25 {
      TopLetters(code);
    } else if code <= 38 {
      HomeLetters(code);
    } else {
      BottomLetters(code);
    }
    hide TableEntry;
  }

  lemma TopLetters(code: int)
    requires 16 <= code <= 25
    ensures 97 <= TableEntry(code, 0) <= 122
    ensures TableEntry(code, 1) == TableEntry(code, 2)
    ensures TableEntry(code, 1) as int == TableEntry(code, 0) as int - 32
  {
  }

  lemma HomeLetters(code: int)
    requires 30 <= code <= 38
    ensures 97 <= TableEntry(code, 0) <= 122
    ensures TableEntry(code, 1) == TableEntry(code, 2)
    ensures TableEntry(code, 1) as int == TableEntry(code, 0) as int - 32
  {
  }

  lemma BottomLetters(code: int)
    requires 44 <= code <= 50
    ensures 97 <= TableEntry(code, 0) <= 122
    ensures TableEntry(code, 1) == TableEntry(code, 2)
    ensures TableEntry(code, 1) as int == TableEntry(code, 0) as int - 32
  {
  }

  /** Every other key has its plain character in the caps lock column. */
  lemma OtherColumns(code: int)
    requires 0 <= code < PRESSED_SCANCODES
    requires !(16 <= code <= 25 || 30 <= code <= 38 || 44 <= code <= 50)
    ensures TableEntry(code, 2) == TableEntry(code, 0)
  {
  }

  /** Shift alone picks the shifted column, caps lock alone its own, neither or both the plain one. */
  lemma ColumnPicked(m: Modifiers)
    ensures Column(m) == match (m.shift, m.caps)
                         case (true, false) => 1
                         case (false, true) => 2
                         case _ => 0
  {
  }

  /** Pressing and releasing: shift, control and alt last until released, caps lock until pressed again. */
  lemma ModifierKeys(m: Modifiers, key: int)
    ensures Pressed(m, key) == Modifiers(m.ctrl || key == 0x1D, m.alt || key == 0x38,
                                         m.caps != (key == 0x3A), m.shift || key == 0x2A || key == 0x36)
    ensures Released(m, key) == Modifiers(m.ctrl && key != 0x1D, m.alt && key != 0x38,
                                          m.caps, m.shift && key != 0x2A && key != 0x36)
  {
  }

  /** The event each key gives: releases matter for Enter only, Alt+F1 to Alt+F3 switch, Enter,
      Backspace and Tab act, and any other key types the character it has, if it has one. */
  lemma KeysGive(m: Modifiers, code: int)
    requires Scancode(code)
    ensures code >= 0x80 ==> KeyEvents(m, code) == if code == 0x9C then [OnDisplayed(EnterReleased)] else []
    ensures m.alt && 0x3B <= code <= 0x3D ==> KeyEvents(m, code) == [Show(code - 0x3B)]
    ensures code == 0x1C ==> KeyEvents(m, code) == [OnDisplayed(EnterKey)]
    ensures code == 0x0E ==> KeyEvents(m, code) == [OnDisplayed(BackspaceKey)]
    ensures code == 0x0F ==> KeyEvents(m, code) == [OnDisplayed(TabKey)]
    ensures code < 0x80 && code !in {0x1C, 0x0E, 0x0F} && !(m.alt && 0x3B <= code <= 0x3D) ==>
              var c := TableEntry(code, Column(m));
              KeyEvents(m, code) == if c == NUL then [] else [OnDisplayed(Typed(c))]
  {
    hide TableEntry;
  }
}
