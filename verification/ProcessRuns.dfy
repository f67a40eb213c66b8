/** Properties of whole runs of the process manager: who runs when, on which pages, and
    which saved context each return and each timer tick brings back. */
module ProcessRuns {
  import opened CTypes
  import opened ProcessSpec

  /** What a step needs to leave a process running: a root shell that must be started can be. */
  predicate CanStep(s: Sys, shell: Command, e: Event)
    requires Shape(s)
  {
    match e
    case Exec(_, _) => true
    case Exit(_) => |s.stacks[s.sched]| == 1 ==> shell == Program
    case Timer(_) => !s.active[Next(s.sched)] ==> shell == Program && LowestFree(s, 0) != -1
    case Display(_) => true
  }

  lemma LowestFreeAgrees(s: Sys, r: Sys, p: int)
    requires Shape(s) && Shape(r) && 0 <= p <= MAX_PROC && forall pid :: InUse(s, pid) == InUse(r, pid)
    ensures LowestFree(s, p) == LowestFree(r, p)
    decreases MAX_PROC - p
  {
  }

  /** Saving a context and marking a terminal active do not change which PIDs are free. */
  lemma ExecuteSucceeds(s: Sys, command: Command, here: Ctx)
    requires Forest(s)
    ensures Execute(s, command, here).1.Started? <==> command == Program && LowestFree(s, 0) != -1
    ensures Execute(s, command, here).1.Started? <==> !Execute(s, command, here).1.Failed?
  {
    PreparedFree(s, here);
  }

  lemma PreparedFree(s: Sys, here: Ctx)
    requires Forest(s)
    ensures LowestFree(Prepared(s, here), 0) == LowestFree(s, 0)
  {
    PreparedForest(s, here);
    LowestFreeAgrees(s, Prepared(s, here), 0);
  }

  /** A halting process frees its own PID, so a root shell can always be given one. */
  lemma PopFreesPid(s: Sys)
    requires Forest(s) && s.stacks[s.sched] != []
    ensures !InUse(Pop(s), Top(s, s.sched).pid) && LowestFree(Pop(s), 0) != -1
  {
    var u, pid, k := Pop(s), Top(s, s.sched).pid, |s.stacks[s.sched]| - 1;
    forall t, i | 0 <= t < TERMINALS && 0 <= i < |u.stacks[t]|
      ensures u.stacks[t][i].pid != pid
    {
      assert u.stacks[t][i] == s.stacks[t][i] && s.stacks[s.sched][k].pid == pid;
    }
  }

  lemma ExecGood(s: Sys, command: Command, here: Ctx)
    requires Good(s)
    ensures Good(Execute(s, command, here).0)
  {
    ExecuteForest(s, command, here);
  }

  /** `execute` for a terminal that has no process yet. */
  lemma LaunchGood(s: Sys, shell: Command, here: Ctx)
    requires Forest(s) && s.stacks[s.sched] == []
    requires forall t :: 0 <= t < TERMINALS && t != s.sched && s.active[t] ==> s.stacks[t] != []
    ensures Good(Execute(s, shell, here).0) <==> shell == Program && LowestFree(s, 0) != -1
  {
    ExecuteForest(s, shell, here);
    ExecuteSucceeds(s, shell, here);
  }

  lemma ExitGood(s: Sys, shell: Command, here: Ctx)
    requires Good(s)
    ensures Good(Halt(s, shell, here).0) <==> CanStep(s, shell, Exit(here))
  {
    var u := Pop(s);
    PopForest(s);
    PopFreesPid(s);
    if u.stacks[u.sched] == [] {
      hide Execute;
      LaunchGood(u, shell, here);
    } else {
      assert |s.stacks[s.sched]| > 1;
    }
  }

  lemma ResumeGood(u: Sys, video: int)
    requires Forest(u) && u.stacks[u.sched] != []
    requires forall t :: 0 <= t < TERMINALS && u.active[t] ==> u.stacks[t] != []
    ensures Good(MapTo(u, Top(u, u.sched).pid).(userVideo := video))
  {
  }

  lemma DescheduleReady(s: Sys, here: Ctx)
    requires Good(s)
    ensures var u := Deschedule(s, Next(s.sched), here);
            && Forest(u) && u.active == s.active && u.sched == Next(s.sched)
            && (forall t :: 0 <= t < TERMINALS ==> (u.active[t] <==> u.stacks[t] != []))
            && LowestFree(u, 0) == LowestFree(s, 0)
  {
    DescheduleForest(s, Next(s.sched), here);
    LowestFreeAgrees(s, Deschedule(s, Next(s.sched), here), 0);
  }

  lemma TimerGood(s: Sys, shell: Command, here: Ctx)
    requires Good(s)
    ensures Good(Tick(s, shell, here).0) <==> CanStep(s, shell, Timer(here))
  {
    var u := Deschedule(s, Next(s.sched), here);
    DescheduleReady(s, here);
    assert s.stacks[s.sched] != [];
    hide Execute, Deschedule, Next, Good, Forest;
    if !u.active[u.sched] {
      LaunchGood(u, shell, here);
    } else {
      ResumeGood(u, VideoOf(u.sched, u.shown));
    }
  }

  /** A step leaves a running, correctly mapped process exactly when `CanStep` says so. */
  lemma GoodStep(s: Sys, shell: Command, e: Event)
    requires Good(s)
    ensures Good(Step(s, shell, e).0) <==> CanStep(s, shell, e)
  {
    match e
    case Exec(command, here) => ExecGood(s, command, here);
    case Exit(here) => ExitGood(s, shell, here);
    case Timer(here) => TimerGood(s, shell, here);
    case Display(n) =>
  }

  /** Starting the first shell of an idle machine. */
  lemma BootGood(s: Sys, here: Ctx)
    requires Shape(s) && forall t :: 0 <= t < TERMINALS ==> s.stacks[t] == [] && !s.active[t]
    ensures Good(Execute(s, Program, here).0) && Execute(s, Program, here).1 == Started(0)
  {
    assert !InUse(s, 0);
    LaunchGood(s, Program, here);
    ExecutePids(s, Program, here);
    ExecuteSucceeds(s, Program, here);
  }

  // ---- runs

  ghost predicate Runs(s: Sys, shell: Command, events: seq<Event>)
    requires Good(s)
    decreases |events|
  {
    events == [] ||
    (CanStep(s, shell, events[0]) &&
     (GoodStep(s, shell, events[0]); Runs(Step(s, shell, events[0]).0, shell, events[1..])))
  }

  ghost function Run(s: Sys, shell: Command, events: seq<Event>): (r: Sys)
    requires Good(s) && Runs(s, shell, events)
    ensures Good(r)
    decreases |events|
  {
    if events == [] then s else
    GoodStep(s, shell, events[0]);
    Run(Step(s, shell, events[0]).0, shell, events[1..])
  }

  lemma GoodRuns(s: Sys, shell: Command, events: seq<Event>)
    requires Good(s) && Runs(s, shell, events) && events != []
    ensures CanStep(s, shell, events[0]) && s.stacks[s.sched] != []
    ensures var r := Step(s, shell, events[0]).0;
            Good(r) && Runs(r, shell, events[1..]) && Run(r, shell, events[1..]) == Run(s, shell, events)
  {
    GoodStep(s, shell, events[0]);
  }

  function Timers(events: seq<Event>): nat {
    if events == [] then 0 else (if events[0].Timer? then 1 else 0) + Timers(events[1..])
  }

  lemma StepSchedules(s: Sys, shell: Command, e: Event)
    requires Good(s)
    ensures Step(s, shell, e).0.sched == if e.Timer? then Next(s.sched) else s.sched
  {
    hide Execute, Halt;
  }

  function Turn(t: int, k: nat): int
    decreases k
  {
    if k == 0 then t else Turn(Next(t), k - 1)
  }

  lemma {:induction false} TurnIsModulo(t: int, k: nat)
    requires 0 <= t < TERMINALS
    ensures Turn(t, k) == (t + k) % TERMINALS
    decreases k
  {
    if k > 0 {
      TurnIsModulo(Next(t), k - 1);
    }
  }

  lemma {:induction false} RunTurns(s: Sys, shell: Command, events: seq<Event>)
    requires Good(s) && Runs(s, shell, events)
    ensures Run(s, shell, events).sched == Turn(s.sched, Timers(events))
    decreases |events|
  {
    if events != [] {
      GoodStep(s, shell, events[0]);
      StepSchedules(s, shell, events[0]);
      hide Good, Step, Next;
      RunTurns(Step(s, shell, events[0]).0, shell, events[1..]);
    }
  }

  /** Round robin: after k ticks the k-th terminal from here is scheduled, and it has a process. */
  lemma Fairness(s: Sys, shell: Command, events: seq<Event>)
    requires Good(s) && Runs(s, shell, events)
    ensures var r := Run(s, shell, events);
            r.sched == (s.sched + Timers(events)) % TERMINALS && r.stacks[r.sched] != []
  {
    hide Turn, Timers, Step, Run, Runs, Good;
    GoodActive(s);
    GoodActive(Run(s, shell, events));
    RunTurns(s, shell, events);
    TurnIsModulo(s.sched, Timers(events));
  }

  /** User writes to video go to the scheduled terminal's page. */
  predicate OwnVideo(s: Sys) { s.userVideo == VideoOf(s.sched, s.shown) }

  /** After a tick that resumes a terminal, user writes to video go to its page and no other. */
  lemma ResumedVideo(s: Sys, shell: Command, here: Ctx)
    requires Good(s) && s.active[Next(s.sched)]
    ensures var (r, o) := Tick(s, shell, here); o.Resumed? && OwnVideo(r)
    ensures forall t, u :: 0 <= t < TERMINALS && 0 <= u < TERMINALS && t != u ==>
                             VideoOf(t, s.shown) != VideoOf(u, s.shown)
  {
  }

  /** Nothing but a resuming tick sets the user video entry.  So a step breaks the agreement exactly
      when it is a tick that has to start a shell, or shows or hides the scheduled terminal. */
  lemma VideoFollows(s: Sys, shell: Command, e: Event)
    requires Good(s)
    ensures var r, resumed := Step(s, shell, e).0, e.Timer? && s.active[Next(s.sched)];
            && (!resumed ==> r.userVideo == s.userVideo)
            && (OwnVideo(r) <==> resumed || s.userVideo == VideoOf(r.sched, r.shown))
    ensures OwnVideo(s) ==>
              (OwnVideo(Step(s, shell, e).0) <==>
               match e
               case Exec(_, _) => true
               case Exit(_) => true
               case Timer(_) => s.active[Next(s.sched)]
               case Display(n) => (s.sched == n) == (s.sched == s.shown))
  {
    StepSchedules(s, shell, e);
    hide Forest, Save, LowestFree;
  }

  /** No tick of the run resumes a terminal. */
  ghost predicate ResumesNone(s: Sys, shell: Command, events: seq<Event>)
    requires Good(s) && Runs(s, shell, events)
    decreases |events|
  {
    events == [] ||
    (!(events[0].Timer? && s.active[Next(s.sched)]) &&
     (GoodStep(s, shell, events[0]); ResumesNone(Step(s, shell, events[0]).0, shell, events[1..])))
  }

  /** Until a tick resumes a terminal, the page stays mapped that was mapped before. */
  lemma {:induction false} VideoStays(s: Sys, shell: Command, events: seq<Event>)
    requires Good(s) && Runs(s, shell, events) && ResumesNone(s, shell, events)
    ensures Run(s, shell, events).userVideo == s.userVideo
    decreases |events|
  {
    if events != [] {
      GoodStep(s, shell, events[0]);
      VideoFollows(s, shell, events[0]);
      hide Good, Step, Next, OwnVideo;
      VideoStays(Step(s, shell, events[0]).0, shell, events[1..]);
    }
  }

  /** No two processes share a byte of user memory or of kernel stack, and the stacks stay clear of
      the control blocks, which lie at the bottom of each stack's 8 KB. */
  lemma ProcessesApart(s: Sys, t: int, i: int, u: int, j: int)
    requires Forest(s) && 0 <= t < TERMINALS && 0 <= u < TERMINALS && 0 <= i < |s.stacks[t]| && 0 <= j < |s.stacks[u]|
    requires t != u || i != j
    ensures var p, q := s.stacks[t][i].pid, s.stacks[u][j].pid;
            && (PageOf(p) + FOUR_MB <= PageOf(q) || PageOf(q) + FOUR_MB <= PageOf(p))
            && (StackTop(p) + EIGHT_KB <= StackTop(q) || StackTop(q) + EIGHT_KB <= StackTop(p))
            && KERNEL_MEM_END <= PageOf(p)
            && KERNEL_MEM_END - (p + 1) * EIGHT_KB < StackTop(p) < KERNEL_MEM_END - p * EIGHT_KB
  {
    assert s.stacks[t][i].pid != s.stacks[u][j].pid;
  }

  // ---- last in, first out

  /** Terminal `t` has more than `d` processes before, during and after the run. */
  ghost predicate Above(s: Sys, shell: Command, events: seq<Event>, t: int, d: nat)
    requires Good(s) && Runs(s, shell, events) && 0 <= t < TERMINALS
    decreases |events|
  {
    |s.stacks[t]| > d &&
    (events == [] ||
     (GoodStep(s, shell, events[0]); Above(Step(s, shell, events[0]).0, shell, events[1..], t, d)))
  }

  lemma StepKeepsBelow(s: Sys, shell: Command, e: Event, t: int, d: nat)
    requires Good(s) && CanStep(s, shell, e) && 0 <= t < TERMINALS
    requires |s.stacks[t]| > d && |Step(s, shell, e).0.stacks[t]| > d
    ensures Step(s, shell, e).0.stacks[t][..d] == s.stacks[t][..d]
  {
    hide Good, Forest, LowestFree, CanStep;
    GoodActive(s);
  }

  lemma {:induction false} RunKeepsBelow(s: Sys, shell: Command, events: seq<Event>, t: int, d: nat)
    requires Good(s) && Runs(s, shell, events) && 0 <= t < TERMINALS && Above(s, shell, events, t, d)
    ensures |Run(s, shell, events).stacks[t]| > d
    ensures Run(s, shell, events).stacks[t][..d] == s.stacks[t][..d]
    decreases |events|
  {
    if events != [] {
      GoodStep(s, shell, events[0]);
      var r := Step(s, shell, events[0]).0;
      RunKeepsBelow(r, shell, events[1..], t, d);
      StepKeepsBelow(s, shell, events[0], t, d);
    }
  }

  /** A child's `halt` returns to exactly where its parent called `execute`, whatever ran,
      halted and reused PIDs on any terminal while the child lived. */
  lemma HaltReturnsToExecute(s: Sys, shell: Command, here: Ctx, events: seq<Event>, there: Ctx)
    requires Good(s) && Execute(s, Program, here).1.Started?
    requires var child := Execute(s, Program, here).0;
             var d := |s.stacks[s.sched]|;
             && Good(child) && Runs(child, shell, events) && Above(child, shell, events, s.sched, d)
             && Run(child, shell, events).sched == s.sched
             && |Run(child, shell, events).stacks[s.sched]| == d + 1
    ensures var child := Execute(s, Program, here).0;
            var (r, o) := Halt(Run(child, shell, events), shell, there);
            && o == Resumed(here)
            && r.stacks[s.sched] == Save(s, s.sched, here).stacks[s.sched]
  {
    var child, t, d := Execute(s, Program, here).0, s.sched, |s.stacks[s.sched]|;
    RunKeepsBelow(child, shell, events, t, d);
    var last := Run(child, shell, events);
    assert child.stacks[t][..d] == Save(s, t, here).stacks[t];
    assert last.stacks[t][..d][d - 1] == Save(s, t, here).stacks[t][d - 1];
  }

  // ---- time slices

  /** Terminal `t` is not scheduled before, during or after the run. */
  ghost predicate Away(s: Sys, shell: Command, events: seq<Event>, t: int)
    requires Good(s) && Runs(s, shell, events)
    decreases |events|
  {
    s.sched != t &&
    (events == [] ||
     (GoodStep(s, shell, events[0]); Away(Step(s, shell, events[0]).0, shell, events[1..], t)))
  }

  lemma StepKeepsOthers(s: Sys, shell: Command, e: Event, t: int)
    requires Good(s) && CanStep(s, shell, e) && 0 <= t < TERMINALS
    requires s.sched != t && Step(s, shell, e).0.sched != t
    ensures Step(s, shell, e).0.stacks[t] == s.stacks[t]
  {
    hide Good, Forest, LowestFree, CanStep;
    GoodActive(s);
  }

  lemma {:induction false} RunKeepsOthers(s: Sys, shell: Command, events: seq<Event>, t: int)
    requires Good(s) && Runs(s, shell, events) && 0 <= t < TERMINALS && Away(s, shell, events, t)
    ensures Run(s, shell, events).stacks[t] == s.stacks[t] && Run(s, shell, events).sched != t
    decreases |events|
  {
    if events != [] {
      GoodStep(s, shell, events[0]);
      StepKeepsOthers(s, shell, events[0], t);
      RunKeepsOthers(Step(s, shell, events[0]).0, shell, events[1..], t);
    }
  }

  lemma TickSaves(s: Sys, shell: Command, here: Ctx)
    requires Good(s)
    ensures Tick(s, shell, here).0.stacks[s.sched] == Save(s, s.sched, here).stacks[s.sched]
    ensures |Save(s, s.sched, here).stacks[s.sched]| == |s.stacks[s.sched]| > 0
    ensures var stack := Save(s, s.sched, here).stacks[s.sched]; stack[|stack| - 1].ctx == here
  {
    hide Good, Forest, LowestFree;
    GoodActive(s);
  }

  lemma TickResumes(s: Sys, shell: Command, here: Ctx)
    requires Good(s) && s.stacks[Next(s.sched)] != []
    ensures var t, (r, o) := Next(s.sched), Tick(s, shell, here);
            && o == Resumed(s.stacks[t][|s.stacks[t]| - 1].ctx)
            && r.sched == t && r.stacks[t] == s.stacks[t]
  {
    assert s.active[Next(s.sched)];
    hide Forest, LowestFree, Execute;
  }

  /** The tick that brings a terminal back resumes it exactly where a tick took it away. */
  lemma TickResumesTick(s: Sys, shell: Command, here: Ctx, events: seq<Event>, there: Ctx)
    requires Good(s) && Good(Tick(s, shell, here).0)
    requires var away := Tick(s, shell, here).0;
             && Runs(away, shell, events) && Away(away, shell, events, s.sched)
             && Next(Run(away, shell, events).sched) == s.sched
    ensures var away := Tick(s, shell, here).0;
            var (r, o) := Tick(Run(away, shell, events), shell, there);
            && o == Resumed(here) && r.sched == s.sched
            && r.stacks[s.sched] == Save(s, s.sched, here).stacks[s.sched]
  {
    hide Good, Save, Tick, Run, Runs, Away;
    GoodActive(s);
    RunKeepsOthers(Tick(s, shell, here).0, shell, events, s.sched);
    TickSaves(s, shell, here);
    TickResumes(Run(Tick(s, shell, here).0, shell, events), shell, there);
  }

  // ---- the one way to lose a process

  predicate TimersOnly(events: seq<Event>) {
    forall i :: 0 <= i < |events| ==> events[i].Timer? || events[i].Display?
  }

  function After(s: Sys, shell: Command, events: seq<Event>): (r: Sys)
    requires Shape(s) && TimersOnly(events)
    ensures Shape(r)
    decreases |events|
  {
    if events == [] then s else After(Step(s, shell, events[0]).0, shell, events[1..])
  }

  /** A tick that must start a shell and cannot: the schedule has moved on to a terminal without a
      process, the interrupted process keeps the machine, and no later tick changes that. */
  lemma {:induction false} FailedLaunchSticks(s: Sys, shell: Command, here: Ctx, events: seq<Event>)
    requires Good(s) && !CanStep(s, shell, Timer(here)) && TimersOnly(events)
    ensures var r := After(Tick(s, shell, here).0, shell, events);
            && Tick(s, shell, here).1 == Failed
            && r.sched == Next(s.sched) && r.stacks[r.sched] == []
            && r.userPage == s.userPage && r.esp0 == s.esp0
  {
    hide After, LowestFree, InUse, Distinct, InRange;
    var u := Deschedule(s, Next(s.sched), here);
    DescheduleForest(s, Next(s.sched), here);
    LowestFreeAgrees(s, u, 0);
    ExecuteSucceeds(u, shell, here);
    StuckStays(Tick(s, shell, here).0, shell, events);
  }

  lemma {:induction false} StuckStays(s: Sys, shell: Command, events: seq<Event>)
    requires Shape(s) && s.stacks[s.sched] == [] && TimersOnly(events)
    ensures After(s, shell, events) == s.(shown := After(s, shell, events).shown)
    decreases |events|
  {
    if events != [] {
      StuckStays(Step(s, shell, events[0]).0, shell, events[1..]);
    }
  }

  // ---- how it comes about

  /** Only the scheduled terminal has processes: `k` of them, with the first `k` PIDs. */
  ghost predicate FirstOnly(s: Sys, k: nat) {
    && Good(s) && k == |s.stacks[s.sched]|
    && (forall t :: 0 <= t < TERMINALS && t != s.sched ==> s.stacks[t] == [] && !s.active[t])
    && (forall i :: 0 <= i < k ==> s.stacks[s.sched][i].pid == i)
  }

  lemma FirstOnlyInUse(s: Sys, k: nat, pid: int)
    requires FirstOnly(s, k)
    ensures InUse(s, pid) <==> 0 <= pid < k
  {
    if 0 <= pid < k {
      assert s.stacks[s.sched][pid].pid == pid;
      assert OnStack(s.stacks[s.sched], pid);
    }
  }

  lemma FirstOnlyFree(s: Sys, k: nat)
    requires FirstOnly(s, k)
    ensures LowestFree(s, 0) == if k < MAX_PROC then k else -1
  {
    forall pid
      ensures InUse(s, pid) <==> 0 <= pid < k
    {
      FirstOnlyInUse(s, k, pid);
    }
    assert !InUse(s, MAX_PROC);
    hide FirstOnly, InUse, LowestFree;
    assert LowestFree(s, 0) != -1 ==> LowestFree(s, 0) == k;
  }

  /** A successful `execute` pushes one frame, and changes no PID below it and no other terminal. */
  lemma ExecutePushes(s: Sys, here: Ctx)
    requires Good(s) && LowestFree(s, 0) != -1
    ensures var (r, o) := Execute(s, Program, here);
            var was, now := s.stacks[s.sched], r.stacks[s.sched];
            && Good(r) && r.sched == s.sched && r.active == s.active
            && |now| == |was| + 1 && now[|was|].pid == LowestFree(s, 0)
            && (forall i :: 0 <= i < |was| ==> now[i].pid == was[i].pid)
            && (forall t :: 0 <= t < TERMINALS && t != s.sched ==> r.stacks[t] == s.stacks[t])
  {
    hide Good, Forest, LowestFree, InUse, Prepared;
    GoodActive(s);
    ExecGood(s, Program, here);
    PreparedFree(s, here);
    PreparedKeeps(s, here);
  }

  lemma PreparedKeeps(s: Sys, here: Ctx)
    requires Shape(s) && s.stacks[s.sched] != [] && s.active[s.sched]
    ensures var u := Prepared(s, here);
            var was, now := s.stacks[s.sched], u.stacks[s.sched];
            && u.active == s.active && |now| == |was|
            && (forall i :: 0 <= i < |was| ==> now[i].pid == was[i].pid)
            && (forall t :: 0 <= t < TERMINALS && t != s.sched ==> u.stacks[t] == s.stacks[t])
  {
  }

  lemma GoodActive(s: Sys)
    requires Good(s)
    ensures Forest(s) && Shape(s) && s.stacks[s.sched] != [] && s.active[s.sched]
  {
  }

  lemma ExecuteFirstOnly(s: Sys, k: nat, here: Ctx)
    requires FirstOnly(s, k) && k < MAX_PROC
    ensures FirstOnly(Execute(s, Program, here).0, k + 1)
  {
    hide Execute, Good, LowestFree;
    FirstOnlyFree(s, k);
    ExecutePushes(s, here);
  }

  function Execs(n: nat, here: Ctx): (r: seq<Event>)
    ensures |r| == n
  {
    if n == 0 then [] else [Exec(Program, here)] + Execs(n - 1, here)
  }

  lemma RunsFirst(s: Sys, shell: Command, e: Event, rest: seq<Event>)
    requires Good(s) && CanStep(s, shell, e) && Good(Step(s, shell, e).0) && Runs(Step(s, shell, e).0, shell, rest)
    ensures Runs(s, shell, [e] + rest)
    ensures Run(s, shell, [e] + rest) == Run(Step(s, shell, e).0, shell, rest)
  {
    hide Step, CanStep, Good;
    assert ([e] + rest)[1..] == rest;
  }

  /** Programs started one from another until no PID is left. */
  lemma {:induction false} ExecsFill(s: Sys, k: nat, n: nat, shell: Command, here: Ctx)
    requires FirstOnly(s, k) && k + n <= MAX_PROC
    ensures Runs(s, shell, Execs(n, here)) && FirstOnly(Run(s, shell, Execs(n, here)), k + n)
    decreases n
  {
    hide Execute, Run, Good;
    GoodActive(s);
    if n > 0 {
      ExecuteFirstOnly(s, k, here);
      ExecsFill(Execute(s, Program, here).0, k + 1, n - 1, shell, here);
      RunsFirst(s, shell, Exec(Program, here), Execs(n - 1, here));
    } else {
      RunNone(s, shell);
    }
  }

  lemma RunNone(s: Sys, shell: Command)
    requires Good(s)
    ensures Runs(s, shell, []) && Run(s, shell, []) == s
  {
  }

  lemma FullCannotStep(s: Sys, shell: Command, here: Ctx)
    requires FirstOnly(s, MAX_PROC)
    ensures !CanStep(s, shell, Timer(here))
  {
    hide Good, LowestFree;
    FirstOnlyFree(s, MAX_PROC);
  }

  /** From the first shell on: six processes before the first tick, and that tick finds no PID for the
      second terminal's shell. */
  lemma SixProcessesStick(s: Sys, shell: Command, here: Ctx)
    requires Shape(s) && forall t :: 0 <= t < TERMINALS ==> s.stacks[t] == [] && !s.active[t]
    ensures var booted := Execute(s, Program, here).0;
            && Good(booted) && Runs(booted, shell, Execs(5, here))
            && !CanStep(Run(booted, shell, Execs(5, here)), shell, Timer(here))
            && !Good(Tick(Run(booted, shell, Execs(5, here)), shell, here).0)
  {
    var booted := Execute(s, Program, here).0;
    BootGood(s, here);
    BootFirstOnly(s, here);
    hide Execute, Execs, Runs, Run, Tick, Good, FirstOnly, CanStep;
    ExecsFill(booted, 1, 5, shell, here);
    var full := Run(booted, shell, Execs(5, here));
    FullCannotStep(full, shell, here);
    GoodStep(full, shell, Timer(here));
  }

  lemma BootFirstOnly(s: Sys, here: Ctx)
    requires Shape(s) && forall t :: 0 <= t < TERMINALS ==> s.stacks[t] == [] && !s.active[t]
    ensures FirstOnly(Execute(s, Program, here).0, 1)
  {
    BootGood(s, here);
    hide Good, LowestFree;
  }
}
