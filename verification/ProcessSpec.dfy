/** Processes as three stacks of frames, one stack for each terminal.  A frame is a PID and
    the kernel stack position at which that process will be resumed. */
module ProcessSpec {
  import opened CTypes

  const MAX_PROC := 6
  const KERNEL_MEM_END := 0x80_0000
  const FOUR_MB := 0x40_0000
  const EIGHT_KB := 0x2000
  const VIDEO := 0xB_8000

  /** The esp and ebp of a suspended kernel activation, as opaque tokens. */
  datatype Ctx = Ctx(esp: int, ebp: int)
  datatype Frame = Frame(pid: int, ctx: Ctx)

  /** Last element of a stack: the process running on that terminal. */
  datatype Sys = Sys(
    sched: int, shown: int, stacks: seq<seq<Frame>>, active: seq<bool>,
    userPage: int, esp0: int, userVideo: int)

  /** A command is missing, or names no executable, or can be loaded. */
  datatype Command = Missing | Unloadable | Program

  datatype Outcome =
    | Failed
    | Started(pid: int)
    | Resumed(ctx: Ctx)
    | Idle
    | NullPointer

  const FRESH_CTX := Ctx(0x83F_FFFC, 0x83F_FFFC)

  /** Physical base of a process's 4 MB page. */
  function PageOf(pid: int): int { KERNEL_MEM_END + pid * FOUR_MB }
  /** Top of a process's 8 KB kernel stack. */
  function StackTop(pid: int): int { KERNEL_MEM_END - pid * EIGHT_KB - 4 }

  predicate Shape(s: Sys) {
    && 0 <= s.sched < TERMINALS && |s.stacks| == TERMINALS && |s.active| == TERMINALS
  }

  function Top(s: Sys, t: int): Frame
    requires Shape(s) && 0 <= t < TERMINALS && s.stacks[t] != []
  {
    s.stacks[t][|s.stacks[t]| - 1]
  }

  predicate OnStack(stack: seq<Frame>, pid: int) {
    exists i :: 0 <= i < |stack| && stack[i].pid == pid
  }

  predicate InUse(s: Sys, pid: int)
    requires Shape(s)
  {
    exists t :: 0 <= t < TERMINALS && OnStack(s.stacks[t], pid)
  }

  /** The lowest PID from `p` on that no process has, or -1. */
  function LowestFree(s: Sys, p: int): (r: int)
    requires Shape(s) && 0 <= p <= MAX_PROC
    ensures r == -1 || (p <= r < MAX_PROC && !InUse(s, r))
    ensures forall q :: p <= q < (if r == -1 then MAX_PROC else r) ==> InUse(s, q)
    decreases MAX_PROC - p
  {
    if p == MAX_PROC then -1 else if !InUse(s, p) then p else LowestFree(s, p + 1)
  }

  /** Record where the running process of terminal `t` is in the kernel. */
  function Save(s: Sys, t: int, here: Ctx): (r: Sys)
    requires Shape(s) && 0 <= t < TERMINALS
    ensures Shape(r)
  {
    if s.stacks[t] == [] || !s.active[t] then s else
    var stack := s.stacks[t];
    var k := |stack| - 1;
    s.(stacks := s.stacks[t := stack[k := stack[k].(ctx := here)]])
  }

  function MapTo(s: Sys, pid: int): Sys {
    s.(userPage := PageOf(pid), esp0 := StackTop(pid))
  }

  /** The beginning of `execute`: its caller's position is saved and the terminal marked active. */
  function Prepared(s: Sys, here: Ctx): (r: Sys)
    requires Shape(s)
    ensures Shape(r) && r.sched == s.sched && r.shown == s.shown
  {
    var saved := Save(s, s.sched, here);
    saved.(active := saved.active[s.sched := true])
  }

  /** `execute`, called at kernel position `here`. */
  function Execute(s: Sys, command: Command, here: Ctx): (r: (Sys, Outcome))
    requires Shape(s)
    ensures Shape(r.0) && r.0.sched == s.sched && r.0.shown == s.shown
  {
    if command == Missing then (s, Failed) else
    var u := Prepared(s, here);
    if command == Unloadable then (u, Failed) else
    var pid := LowestFree(u, 0);
    if pid == -1 then (u, Failed) else
    (MapTo(u.(stacks := u.stacks[u.sched := u.stacks[u.sched] + [Frame(pid, FRESH_CTX)]]), pid), Started(pid))
  }

  /** The running process leaves its terminal's stack. */
  function Pop(s: Sys): (r: Sys)
    requires Shape(s) && s.stacks[s.sched] != []
    ensures Shape(r)
  {
    var stack := s.stacks[s.sched];
    s.(stacks := s.stacks[s.sched := stack[..|stack| - 1]])
  }

  /** `halt` of the running process.  A root shell is started again; when the shell file cannot
      be loaded the source goes on to use a null process pointer. */
  function Halt(s: Sys, shell: Command, here: Ctx): (r: (Sys, Outcome))
    requires Shape(s) && s.stacks[s.sched] != []
    ensures Shape(r.0) && r.0.sched == s.sched && r.0.shown == s.shown
  {
    var u := Pop(s);
    if u.stacks[u.sched] == [] then
      var (v, o) := Execute(u, shell, here);
      (v, if o.Failed? then NullPointer else o)
    else
      (MapTo(u, Top(u, u.sched).pid), Resumed(Top(u, u.sched).ctx))
  }

  /** The backup page of a terminal, or the display if that is where it shows. */
  function VideoOf(t: int, shown: int): int {
    if t == shown then VIDEO else VIDEO + (t + 1) * PAGE_SIZE
  }

  function Next(t: int): (n: int)
    ensures 0 <= n < TERMINALS
  {
    (t + 1) % TERMINALS
  }

  /** The running process is put aside and another terminal scheduled. */
  function Deschedule(s: Sys, next: int, here: Ctx): (r: Sys)
    requires Shape(s) && 0 <= next < TERMINALS
    ensures Shape(r)
  {
    Save(s, s.sched, here).(sched := next)
  }

  /** `scheduler`, from the scheduled terminal to the terminal `next`. */
  function Switch(s: Sys, next: int, shell: Command, here: Ctx): (r: (Sys, Outcome))
    requires Shape(s) && 0 <= next < TERMINALS
    ensures Shape(r.0)
  {
    if next == s.sched then (s, Idle) else
    var u := Deschedule(s, next, here);
    if !u.active[u.sched] then Execute(u, shell, here)
    else if u.stacks[u.sched] == [] then (u, NullPointer)
    else (MapTo(u, Top(u, u.sched).pid).(userVideo := VideoOf(u.sched, u.shown)), Resumed(Top(u, u.sched).ctx))
  }

  /** A timer interrupt taken at kernel position `here`. */
  function Tick(s: Sys, shell: Command, here: Ctx): (r: (Sys, Outcome))
    requires Shape(s)
    ensures Shape(r.0)
  {
    if s.stacks[s.sched] == [] then (s, Idle) else Switch(s, Next(s.sched), shell, here)
  }

  datatype Event = Exec(command: Command, here: Ctx) | Exit(here: Ctx) | Timer(here: Ctx) | Display(n: int)

  function Step(s: Sys, shell: Command, e: Event): (r: (Sys, Outcome))
    requires Shape(s) && (e.Exit? ==> s.stacks[s.sched] != [])
    ensures Shape(r.0)
  {
    match e
    case Exec(command, here) => Execute(s, command, here)
    case Exit(here) => Halt(s, shell, here)
    case Timer(here) => Tick(s, shell, here)
    case Display(n) => (s.(shown := n), Idle)
  }

  // ---- what every step keeps

  ghost predicate Distinct(stacks: seq<seq<Frame>>) {
    forall t, i, u, j :: 0 <= t < |stacks| && 0 <= i < |stacks[t]| && 0 <= u < |stacks| && 0 <= j < |stacks[u]| ==>
      (stacks[t][i].pid == stacks[u][j].pid ==> t == u && i == j)
  }

  ghost predicate InRange(stacks: seq<seq<Frame>>) {
    forall t, i :: 0 <= t < |stacks| && 0 <= i < |stacks[t]| ==> 0 <= stacks[t][i].pid < MAX_PROC
  }

  /** Nothing but the stacks and the activity flags matters for this much. */
  ghost predicate Forest(s: Sys) {
    && Shape(s) && Distinct(s.stacks) && InRange(s.stacks)
    && forall t :: 0 <= t < TERMINALS && s.stacks[t] != [] ==> s.active[t]
  }

  /** The scheduled terminal has a process, and the hardware is set up for it. */
  ghost predicate Good(s: Sys) {
    && Forest(s)
    && (forall t :: 0 <= t < TERMINALS && s.active[t] ==> s.stacks[t] != [])
    && s.stacks[s.sched] != []
    && s.userPage == PageOf(Top(s, s.sched).pid)
    && s.esp0 == StackTop(Top(s, s.sched).pid)
  }

  lemma SaveForest(s: Sys, t: int, here: Ctx)
    requires Forest(s) && 0 <= t < TERMINALS
    ensures Forest(Save(s, t, here))
    ensures forall pid :: InUse(Save(s, t, here), pid) == InUse(s, pid)
  {
    var r := Save(s, t, here);
    forall pid
      ensures InUse(r, pid) == InUse(s, pid)
    {
      assert forall u, i :: 0 <= u < TERMINALS && 0 <= i < |s.stacks[u]| ==> r.stacks[u][i].pid == s.stacks[u][i].pid;
      assert forall u :: 0 <= u < TERMINALS ==> OnStack(r.stacks[u], pid) == OnStack(s.stacks[u], pid);
    }
  }

  lemma DescheduleForest(s: Sys, next: int, here: Ctx)
    requires Forest(s) && 0 <= next < TERMINALS
    ensures Forest(Deschedule(s, next, here)) && Deschedule(s, next, here).active == s.active
    ensures forall pid :: InUse(Deschedule(s, next, here), pid) == InUse(s, pid)
    ensures forall t :: 0 <= t < TERMINALS ==> |Deschedule(s, next, here).stacks[t]| == |s.stacks[t]|
  {
    var saved, u := Save(s, s.sched, here), Deschedule(s, next, here);
    SaveForest(s, s.sched, here);
    assert forall pid :: InUse(u, pid) == InUse(saved, pid) by {
      assert u.stacks == saved.stacks;
    }
  }

  lemma PushForest(s: Sys, pid: int, s': Sys)
    requires Forest(s) && s.active[s.sched] && 0 <= pid < MAX_PROC && !InUse(s, pid)
    requires s'.sched == s.sched && s'.active == s.active
    requires s'.stacks == s.stacks[s.sched := s.stacks[s.sched] + [Frame(pid, FRESH_CTX)]]
    ensures Forest(s')
  {
    assert forall t, i :: 0 <= t < TERMINALS && 0 <= i < |s.stacks[t]| ==> OnStack(s.stacks[t], s.stacks[t][i].pid);
  }

  lemma PreparedForest(s: Sys, here: Ctx)
    requires Forest(s)
    ensures Forest(Prepared(s, here)) && Prepared(s, here).active[s.sched]
    ensures forall pid :: InUse(Prepared(s, here), pid) == InUse(s, pid)
  {
    SaveForest(s, s.sched, here);
    var saved, u := Save(s, s.sched, here), Prepared(s, here);
    assert forall pid :: InUse(u, pid) == InUse(saved, pid) by {
      assert u.stacks == saved.stacks;
    }
  }

  lemma ExecuteForest(s: Sys, command: Command, here: Ctx)
    requires Forest(s)
    ensures Forest(Execute(s, command, here).0)
  {
    if command != Missing {
      PreparedForest(s, here);
      var u := Prepared(s, here);
      hide Forest, Prepared;
      var pid := LowestFree(u, 0);
      if command != Unloadable && pid != -1 {
        PushForest(u, pid, Execute(s, command, here).0);
      }
    }
  }

  /** A failed `execute` leaves every PID as it was; a successful one takes exactly the lowest free one. */
  lemma ExecutePids(s: Sys, command: Command, here: Ctx)
    requires Forest(s)
    ensures var (r, o) := Execute(s, command, here);
            match o
            case Failed => forall pid :: InUse(r, pid) == InUse(s, pid)
            case Started(p) =>
              && !InUse(s, p) && (forall q :: 0 <= q < p ==> InUse(s, q))
              && (forall pid :: InUse(r, pid) == (InUse(s, pid) || pid == p))
            case _ => false
  {
    if command != Missing {
      PreparedForest(s, here);
      var u := Prepared(s, here);
      var (r, o) := Execute(s, command, here);
      hide Forest, Prepared;
      if o.Started? {
        forall pid
          ensures InUse(r, pid) == (InUse(u, pid) || pid == o.pid)
        {
          PushInUse(u, o.pid, r, pid);
        }
      }
    }
  }

  lemma PushInUse(s: Sys, p: int, r: Sys, pid: int)
    requires Shape(s) && Shape(r)
    requires r.stacks == s.stacks[s.sched := s.stacks[s.sched] + [Frame(p, FRESH_CTX)]]
    ensures InUse(r, pid) == (InUse(s, pid) || pid == p)
  {
    var was, now := s.stacks[s.sched], r.stacks[s.sched];
    assert OnStack(now, pid) == (OnStack(was, pid) || pid == p) by {
      assert now[|was|].pid == p;
      assert forall i :: 0 <= i < |was| ==> now[i] == was[i];
    }
    assert forall t :: 0 <= t < TERMINALS && t != s.sched ==> r.stacks[t] == s.stacks[t];
    if InUse(s, pid) {
      var t :| 0 <= t < TERMINALS && OnStack(s.stacks[t], pid);
      assert OnStack(r.stacks[t], pid);
    }
    if pid == p {
      assert OnStack(r.stacks[s.sched], pid);
    }
  }

  lemma PopForest(s: Sys)
    requires Forest(s) && s.stacks[s.sched] != []
    ensures Forest(Pop(s))
  {
  }

  /** Chains stay disjoint and PIDs unique, whatever fails. */
  lemma StepForest(s: Sys, shell: Command, e: Event)
    requires Forest(s) && (e.Exit? ==> s.stacks[s.sched] != [])
    ensures Forest(Step(s, shell, e).0)
  {
    match e
    case Exec(command, here) => ExecuteForest(s, command, here);
    case Exit(here) =>
      hide Execute;
      PopForest(s);
      ExecuteForest(Pop(s), shell, here);
    case Timer(here) =>
      hide Execute;
      if s.stacks[s.sched] != [] {
        DescheduleForest(s, Next(s.sched), here);
        hide Save;
        ExecuteForest(Deschedule(s, Next(s.sched), here), shell, here);
      }
    case Display(n) =>
  }
}
