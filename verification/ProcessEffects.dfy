/** What each process operation leaves, frame by frame and register by register. */
module ProcessEffects {
  import opened CTypes
  import opened ProcessSpec
  import opened ProcessRuns

  /** User pages start at 8 MB and adjoin; a kernel stack begins 4 below the end of its 8 KB block; a
      new process is saved as suspended at the top of the user page. */
  lemma Layout(pid: int)
    ensures PageOf(0) == 0x80_0000 && PageOf(pid + 1) == PageOf(pid) + 0x40_0000
    ensures StackTop(0) == 0x80_0000 - 4 && StackTop(pid) == StackTop(pid + 1) + 0x2000
    ensures FRESH_CTX == Ctx(0x840_0000 - 4, 0x840_0000 - 4)
  {
  }

  /** The stack of a terminal once the position of its running process has been saved. */
  function WithTop(stack: seq<Frame>, here: Ctx): (r: seq<Frame>)
    ensures stack == [] ==> r == []
    ensures stack != [] ==>
              var k := |stack| - 1; r == stack[..k] + [Frame(stack[k].pid, here)]
  {
    if stack == [] then [] else stack[|stack| - 1 := Frame(stack[|stack| - 1].pid, here)]
  }

  lemma PreparedStacks(s: Sys, here: Ctx)
    requires Forest(s)
    ensures var r := Prepared(s, here);
            && r == s.(stacks := r.stacks, active := s.active[s.sched := true])
            && r.stacks == s.stacks[s.sched := WithTop(s.stacks[s.sched], here)]
  {
  }

  /** `execute`: which PID, what is pushed, what is mapped, and what remains of a failure. */
  lemma ExecuteLeaves(s: Sys, command: Command, here: Ctx)
    requires Forest(s)
    ensures var (r, o) := Execute(s, command, here);
            && r.sched == s.sched && r.shown == s.shown && r.userVideo == s.userVideo
            && |r.stacks| == 3 && forall t :: 0 <= t < 3 && t != s.sched ==> r.stacks[t] == s.stacks[t]
    ensures command == Missing ==> Execute(s, command, here) == (s, Failed)
    ensures command != Missing ==> Execute(s, command, here).0.active == s.active[s.sched := true]
    ensures var (r, o) := Execute(s, command, here);
            match o
            case Started(p) =>
              && command == Program && 0 <= p < 6 && !InUse(s, p) && (forall q :: 0 <= q < p ==> InUse(s, q))
              && r.stacks[s.sched] == WithTop(s.stacks[s.sched], here) + [Frame(p, FRESH_CTX)]
              && r.userPage == 0x80_0000 + p * 0x40_0000 && r.esp0 == 0x80_0000 - p * 0x2000 - 4
            case Failed =>
              && (command == Program ==> forall q :: 0 <= q < 6 ==> InUse(s, q))
              && (command != Missing ==> r.stacks[s.sched] == WithTop(s.stacks[s.sched], here))
              && r.userPage == s.userPage && r.esp0 == s.esp0
            case _ => false
  {
    PreparedStacks(s, here);
    PreparedFree(s, here);
    hide Forest, Prepared, InUse, LowestFree, WithTop;
  }

  /** Halting a child: its parent's frame is on top again, resumed and mapped. */
  lemma HaltChildLeaves(s: Sys, shell: Command, here: Ctx)
    requires Good(s) && |s.stacks[s.sched]| > 1
    ensures var (r, o) := Halt(s, shell, here);
            var k, was := |s.stacks[s.sched]| - 1, s.stacks[s.sched];
            && o == Resumed(was[k - 1].ctx)
            && r == s.(stacks := s.stacks[s.sched := was[..k]],
                       userPage := 0x80_0000 + was[k - 1].pid * 0x40_0000,
                       esp0 := 0x80_0000 - was[k - 1].pid * 0x2000 - 4)
  {
    GoodActive(s);
    hide Forest, Execute;
    var k, was, u := |s.stacks[s.sched]| - 1, s.stacks[s.sched], Pop(s);
    assert u == s.(stacks := s.stacks[s.sched := was[..k]]) && u.stacks[s.sched] == was[..k];
    assert Top(u, s.sched) == was[..k][k - 1] == was[k - 1];
  }

  /** Halting a root shell: a new one takes the least PID that is now free, alone on its terminal. */
  lemma HaltRootLeaves(s: Sys, here: Ctx)
    requires Good(s) && |s.stacks[s.sched]| == 1
    ensures var (r, o) := Halt(s, Program, here);
            var was := s.stacks[s.sched][0].pid;
            && o.Started?
            && var p := o.pid;
            && 0 <= p < 6 && (p == was || !InUse(s, p)) && (forall q :: 0 <= q < p ==> q != was && InUse(s, q))
            && (InUse(r, was) <==> p == was)
            && r == s.(stacks := s.stacks[s.sched := [Frame(p, FRESH_CTX)]],
                       userPage := 0x80_0000 + p * 0x40_0000, esp0 := 0x80_0000 - p * 0x2000 - 4)
  {
    var u := Pop(s);
    var (r, o) := Halt(s, Program, here);
    PopForest(s);
    PopFreesPid(s);
    PopInUse(s);
    ExecuteSucceeds(u, Program, here);
    ExecuteLeaves(u, Program, here);
    ExecutePids(u, Program, here);
    assert u.stacks[u.sched] == [] && s.active[s.sched] && WithTop([], here) == [];
    assert u == s.(stacks := s.stacks[s.sched := []]) && [] + [Frame(o.pid, FRESH_CTX)] == [Frame(o.pid, FRESH_CTX)];
    hide Execute, InUse, LowestFree, Forest, Good, WithTop;
    assert r.stacks == s.stacks[s.sched := [Frame(o.pid, FRESH_CTX)]];
    assert r.active == s.active;
  }

  lemma PopOnStack(s: Sys, t: int, pid: int)
    requires Forest(s) && s.stacks[s.sched] != [] && 0 <= t < TERMINALS
    ensures OnStack(Pop(s).stacks[t], pid) <==> OnStack(s.stacks[t], pid) && pid != Top(s, s.sched).pid
  {
    var was, now, k := s.stacks[t], Pop(s).stacks[t], |s.stacks[s.sched]| - 1;
    assert forall i :: 0 <= i < |now| ==> now[i] == was[i] && was[i].pid != s.stacks[s.sched][k].pid;
    if OnStack(was, pid) && pid != Top(s, s.sched).pid {
      var i :| 0 <= i < |was| && was[i].pid == pid;
      assert now[i].pid == pid;
    }
  }

  lemma PopInUse(s: Sys)
    requires Forest(s) && s.stacks[s.sched] != []
    ensures forall pid :: InUse(Pop(s), pid) <==> InUse(s, pid) && pid != Top(s, s.sched).pid
  {
    forall pid, t | 0 <= t < TERMINALS
      ensures OnStack(Pop(s).stacks[t], pid) <==> OnStack(s.stacks[t], pid) && pid != Top(s, s.sched).pid
    {
      PopOnStack(s, t, pid);
    }
    hide OnStack, Forest;
  }

  /** Halting a root shell when the shell cannot be loaded: no process, and the old mapping. */
  lemma HaltRootFails(s: Sys, shell: Command, here: Ctx)
    requires Good(s) && |s.stacks[s.sched]| == 1 && shell != Program
    ensures Halt(s, shell, here) == (s.(stacks := s.stacks[s.sched := []]), NullPointer)
  {
    assert Pop(s).stacks == s.stacks[s.sched := []] && s.active[s.sched];
    assert s.active[s.sched := true] == s.active;
    hide Forest, LowestFree;
  }

  /** Switching to a terminal that has run before: the interrupted process is saved where it was, and
      the terminal's own process resumed where it had been saved, with its page, stack and video. */
  lemma SwitchResumes(s: Sys, next: int, shell: Command, here: Ctx)
    requires Good(s) && 0 <= next < 3 && next != s.sched && s.active[next]
    ensures var (r, o) := Switch(s, next, shell, here);
            var stack := s.stacks[next];
            && stack != [] && o == Resumed(stack[|stack| - 1].ctx)
            && r == s.(sched := next, stacks := s.stacks[s.sched := WithTop(s.stacks[s.sched], here)],
                       userPage := 0x80_0000 + stack[|stack| - 1].pid * 0x40_0000,
                       esp0 := 0x80_0000 - stack[|stack| - 1].pid * 0x2000 - 4,
                       userVideo := if next == s.shown then 0xB_8000 else 0xB_8000 + (next + 1) * 4096)
  {
    assert s.active[s.sched];
    hide Forest;
    assert Deschedule(s, next, here) ==
           s.(sched := next, stacks := s.stacks[s.sched := WithTop(s.stacks[s.sched], here)]);
  }

  /** Switching to a terminal for the first time: a shell is started there, or nothing is. */
  lemma SwitchLaunches(s: Sys, next: int, shell: Command, here: Ctx)
    requires Good(s) && 0 <= next < 3 && next != s.sched && !s.active[next]
    ensures s.stacks[next] == []
    ensures var (r, o) := Switch(s, next, shell, here);
            && r.sched == next && r.shown == s.shown && r.userVideo == s.userVideo
            && r.stacks[s.sched] == WithTop(s.stacks[s.sched], here)
            && (forall t :: 0 <= t < 3 && t != s.sched && t != next ==> r.stacks[t] == s.stacks[t])
            && (shell != Missing ==> r.active == s.active[next := true])
    ensures var (r, o) := Switch(s, next, shell, here);
            match o
            case Started(p) =>
              && shell == Program && 0 <= p < 6 && !InUse(s, p) && (forall q :: 0 <= q < p ==> InUse(s, q))
              && r.stacks[next] == [Frame(p, FRESH_CTX)]
              && r.userPage == 0x80_0000 + p * 0x40_0000 && r.esp0 == 0x80_0000 - p * 0x2000 - 4
            case Failed =>
              && (shell == Program ==> forall q :: 0 <= q < 6 ==> InUse(s, q))
              && r.stacks[next] == [] && r.userPage == s.userPage && r.esp0 == s.esp0
            case _ => false
  {
    var u := Deschedule(s, next, here);
    DescheduleForest(s, next, here);
    assert s.active[s.sched] && s.stacks[next] == [];
    assert u == s.(sched := next, stacks := s.stacks[s.sched := WithTop(s.stacks[s.sched], here)]);
    ExecuteLeaves(u, shell, here);
    hide Execute, InUse, LowestFree, Forest, Good, Deschedule;
  }

  /** A tick switches to the next terminal in turn, if the scheduled one has a process; switching to
      the scheduled terminal, or ticking without a process, does nothing. */
  lemma TickSwitches(s: Sys, next: int, shell: Command, here: Ctx)
    requires Shape(s) && 0 <= next < 3
    ensures s.stacks[s.sched] != [] ==> Tick(s, shell, here) == Switch(s, (s.sched + 1) % 3, shell, here)
    ensures s.stacks[s.sched] == [] ==> Tick(s, shell, here) == (s, Idle)
    ensures next == s.sched ==> Switch(s, next, shell, here) == (s, Idle)
  {
    hide Execute, Deschedule;
  }

  /** A step is the operation its event names; a display switch changes nothing else. */
  lemma StepIs(s: Sys, shell: Command, command: Command, here: Ctx, n: int)
    requires Shape(s)
    ensures Step(s, shell, Exec(command, here)) == Execute(s, command, here)
    ensures s.stacks[s.sched] != [] ==> Step(s, shell, Exit(here)) == Halt(s, shell, here)
    ensures Step(s, shell, Timer(here)) == Tick(s, shell, here)
    ensures Step(s, shell, Display(n)) ==
            (Sys(s.sched, n, s.stacks, s.active, s.userPage, s.esp0, s.userVideo), Idle)
  {
    hide Execute, Halt, Tick;
  }
}
