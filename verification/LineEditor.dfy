/** The line being edited, as the keyboard user thinks of it: a stack of at most 127
    characters that Enter makes readable. */
module LineEditor {
  import opened CTypes
  import opened TerminalSpec
  import opened Multiplex

  datatype Editing = Editing(line: seq<byte>, ready: bool)

  function Push(line: seq<byte>, c: byte, n: nat): (r: seq<byte>)
    ensures |line| < BUFFER_SIZE ==> |r| < BUFFER_SIZE
    ensures |r| == if |line| >= 127 then |line| else if |line| + n <= 127 then |line| + n else 127
    ensures line <= r && forall i :: |line| <= i < |r| ==> r[i] == c
    decreases n
  {
    if n == 0 || |line| >= BUFFER_SIZE - 1 then line else Push(line + [c], c, n - 1)
  }

  function Step(e: Editing, op: Op): Editing {
    match op
    case Output(_) => e
    case Typed(c) => e.(line := Push(e.line, c, 1))
    case TabKey => e.(line := Push(e.line, SPACE, 4))
    case BackspaceKey => if e.line == [] then e else e.(line := e.line[..|e.line| - 1])
    case EnterKey => e.(ready := true)
    case EnterReleased => e.(ready := false)
    case Read(_) => if e.ready then Editing([], false) else e
    case Forget => e.(line := [])
  }

  function StepAll(e: Editing, ops: seq<Op>): Editing
    decreases |ops|
  {
    if ops == [] then e else StepAll(Step(e, ops[0]), ops[1..])
  }

  function View(t: Term): Editing
    requires 0 <= t.index <= |t.line|
  {
    Editing(t.Line(), t.enter)
  }

  lemma TypeView(t: Term, c: byte)
    requires Sound(t)
    ensures View(Type(t, c)) == View(t).(line := Push(t.Line(), c, 1))
  {
  }

  lemma {:induction false} PushSplit(line: seq<byte>, c: byte, n: nat)
    requires n > 0
    ensures Push(Push(line, c, n - 1), c, 1) == Push(line, c, n)
    decreases n
  {
    if n > 1 && |line| < BUFFER_SIZE - 1 {
      PushSplit(line + [c], c, n - 1);
    }
  }

  lemma {:induction false} TypeRunView(t: Term, c: byte, n: nat)
    requires Sound(t)
    ensures View(TypeRun(t, c, n)) == View(t).(line := Push(t.Line(), c, n))
  {
    if n > 0 {
      TypeRunView(t, c, n - 1);
      TypeView(TypeRun(t, c, n - 1), c);
      PushSplit(t.Line(), c, n);
    }
  }

  lemma ApplyView(t: Term, op: Op)
    requires Sound(t)
    ensures View(Apply(t, op)) == Step(View(t), op)
  {
    match op
    case Output(_) =>
    case Typed(c) => TypeView(t, c);
    case TabKey => TypeRunView(t, SPACE, 4);
    case BackspaceKey =>
      if t.index > 0 {
        assert Backspace(t).Line() == t.Line()[..t.index - 1];
      }
    case EnterKey =>
    case EnterReleased =>
    case Read(_) =>
    case Forget =>
  }

  /** Whatever is printed, scrolled or wrapped meanwhile, the buffer is the edited stack. */
  lemma {:induction false} EditedLine(t: Term, ops: seq<Op>)
    requires Sound(t)
    ensures View(ApplyAll(t, ops)) == StepAll(View(t), ops)
    decreases |ops|
  {
    if ops != [] {
      ApplyView(t, ops[0]);
      EditedLine(Apply(t, ops[0]), ops[1..]);
    }
  }

  /** In a whole run of the kernel, each terminal's line is what was typed on it and not erased or
      read, whoever printed, scrolled or switched in between. */
  lemma EditedLineInRun(m: Machine, events: seq<Event>, t: int)
    requires SoundMachine(m) && 0 <= t < TERMINALS
    requires forall e <- events :: Legal(e)
    ensures View(Multiplex.StepAll(m, events).terms[t]) ==
            StepAll(View(m.terms[t]), Own(m.curr, m.sched, events, t))
  {
    Isolation(m, events, t);
    EditedLine(m.terms[t], Own(m.curr, m.sched, events, t));
  }
}
