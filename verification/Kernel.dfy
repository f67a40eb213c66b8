/** The process manager's memory: a PID bitmap, control blocks in slots addressed by PID and
    linked to their parents, and one current process for each terminal. */
module ProcessMemory {
  import opened CTypes
  import opened ProcessSpec

  const NULL := -1

  /** A process control block; `parent` is the PID of the parent's slot or NULL. */
  datatype Pcb = Pcb(pid: int, parent: int, ctx: Ctx, terminalId: int)
  datatype TermProc = TermProc(curr: int, active: bool)

  /** The kernel's arrays, and the parent chains they spell out (root first). */
  datatype Mem = Mem(bitmap: seq<bool>, slots: seq<Pcb>, terms: seq<TermProc>, chains: seq<seq<int>>)

  ghost predicate Sized(m: Mem) {
    |m.bitmap| == MAX_PROC && |m.slots| == MAX_PROC && |m.terms| == TERMINALS && |m.chains| == TERMINALS
  }

  /** The process before position `i` on a chain. */
  function Before(chain: seq<int>, i: int): int
    requires 0 <= i <= |chain|
  {
    if i == 0 then NULL else chain[i - 1]
  }

  predicate LinkAt(slots: seq<Pcb>, chain: seq<int>, i: int)
    requires 0 <= i < |chain| && 0 <= chain[i] < |slots|
  {
    slots[chain[i]].parent == Before(chain, i)
  }

  ghost predicate Linked(slots: seq<Pcb>, chain: seq<int>, t: int)
    requires |slots| == MAX_PROC
  {
    && (forall i :: 0 <= i < |chain| ==>
          0 <= chain[i] < MAX_PROC && slots[chain[i]].pid == chain[i] && slots[chain[i]].terminalId == t)
    && (forall i :: 0 <= i < |chain| ==> LinkAt(slots, chain, i))
  }

  ghost predicate Disjoint(chains: seq<seq<int>>) {
    forall t, i, u, j :: 0 <= t < |chains| && 0 <= i < |chains[t]| && 0 <= u < |chains| && 0 <= j < |chains[u]| ==>
      (chains[t][i] == chains[u][j] ==> t == u && i == j)
  }

  ghost predicate OnChain(m: Mem, p: int) {
    exists t :: 0 <= t < |m.chains| && p in m.chains[t]
  }

  function Last(chain: seq<int>): int {
    if chain == [] then NULL else chain[|chain| - 1]
  }

  /** Parent links spell out the chains, no slot is on two of them, and the bitmap marks
      exactly the slots on a chain. */
  ghost predicate ValidMem(m: Mem) {
    && Sized(m) && Disjoint(m.chains)
    && (forall t :: 0 <= t < TERMINALS ==> Linked(m.slots, m.chains[t], t))
    && (forall t :: 0 <= t < TERMINALS ==> m.terms[t].curr == Last(m.chains[t]))
    && (forall p :: 0 <= p < MAX_PROC ==> m.bitmap[p] == OnChain(m, p))
  }

  ghost function FramesOf(slots: seq<Pcb>, chain: seq<int>): (r: seq<Frame>)
    requires |slots| == MAX_PROC && forall i :: 0 <= i < |chain| ==> 0 <= chain[i] < MAX_PROC
    ensures |r| == |chain|
  {
    seq(|chain|, i requires 0 <= i < |chain| => Frame(chain[i], slots[chain[i]].ctx))
  }

  predicate SlotsFor(slots: seq<Pcb>, chain: seq<int>) {
    |slots| == MAX_PROC && forall i :: 0 <= i < |chain| ==> 0 <= chain[i] < MAX_PROC
  }

  lemma FramesKept(slots: seq<Pcb>, slots': seq<Pcb>, chain: seq<int>)
    requires SlotsFor(slots, chain) && SlotsFor(slots', chain)
    requires forall p :: p in chain ==> slots'[p].ctx == slots[p].ctx
    ensures FramesOf(slots', chain) == FramesOf(slots, chain)
  {
  }

  lemma FramesSet(slots: seq<Pcb>, chain: seq<int>, here: Ctx)
    requires SlotsFor(slots, chain) && chain != []
    requires Last(chain) !in chain[..|chain| - 1]
    ensures var k, p := |chain| - 1, Last(chain);
            FramesOf(slots[p := slots[p].(ctx := here)], chain) ==
            FramesOf(slots, chain)[k := FramesOf(slots, chain)[k].(ctx := here)]
  {
    assert forall i :: 0 <= i < |chain| - 1 ==> chain[..|chain| - 1][i] == chain[i];
  }

  lemma FramesPushed(slots: seq<Pcb>, chain: seq<int>, p: int)
    requires SlotsFor(slots, chain) && 0 <= p < MAX_PROC
    ensures FramesOf(slots, chain + [p]) == FramesOf(slots, chain) + [Frame(p, slots[p].ctx)]
  {
  }

  lemma FramesPopped(slots: seq<Pcb>, chain: seq<int>)
    requires SlotsFor(slots, chain) && chain != []
    ensures FramesOf(slots, chain[..|chain| - 1]) == FramesOf(slots, chain)[..|chain| - 1]
  {
  }

  lemma StacksAre(m: Mem, stacks: seq<seq<Frame>>)
    requires ValidMem(m) && |stacks| == TERMINALS
    requires forall t :: 0 <= t < TERMINALS ==> stacks[t] == FramesOf(m.slots, m.chains[t])
    ensures Stacks(m) == stacks
  {
  }

  ghost function Stacks(m: Mem): (r: seq<seq<Frame>>)
    requires ValidMem(m)
    ensures |r| == TERMINALS
  {
    seq(TERMINALS, t requires 0 <= t < TERMINALS => FramesOf(m.slots, m.chains[t]))
  }

  ghost function Actives(m: Mem): (r: seq<bool>)
    requires Sized(m)
    ensures |r| == TERMINALS
  {
    seq(TERMINALS, t requires 0 <= t < TERMINALS => m.terms[t].active)
  }

  lemma BitmapIsInUse(m: Mem, s: Sys, p: int)
    requires ValidMem(m) && Shape(s) && s.stacks == Stacks(m) && 0 <= p < MAX_PROC
    ensures m.bitmap[p] == InUse(s, p)
  {
    forall t | 0 <= t < TERMINALS
      ensures OnStack(s.stacks[t], p) <==> p in m.chains[t]
    {
      if p in m.chains[t] {
        var i :| 0 <= i < |m.chains[t]| && m.chains[t][i] == p;
        assert s.stacks[t][i].pid == p;
      }
    }
  }

  /** A machine without processes. */
  lemma IdleIsValid(m: Mem)
    requires Sized(m) && forall t :: 0 <= t < TERMINALS ==> m.chains[t] == [] && m.terms[t].curr == NULL
    requires forall p :: 0 <= p < MAX_PROC ==> !m.bitmap[p]
    ensures ValidMem(m) && forall t :: 0 <= t < TERMINALS ==> Stacks(m)[t] == []
  {
    assert forall p :: !OnChain(m, p);
    hide OnChain, LinkAt;
  }

  /** Acyclic, pairwise disjoint chains with unique PIDs, seen from the stacks. */
  lemma ValidIsForest(m: Mem, s: Sys)
    requires ValidMem(m) && Shape(s) && s.stacks == Stacks(m) && s.active == Actives(m)
    requires forall t :: 0 <= t < TERMINALS && m.chains[t] != [] ==> m.terms[t].active
    ensures Forest(s)
  {
    assert forall t, i :: 0 <= t < TERMINALS && 0 <= i < |s.stacks[t]| ==> s.stacks[t][i].pid == m.chains[t][i];
    assert forall t :: 0 <= t < TERMINALS ==> |s.stacks[t]| == |m.chains[t]|;
  }

  function SetCtx(m: Mem, p: int, here: Ctx): Mem
    requires 0 <= p < |m.slots|
  {
    m.(slots := m.slots[p := m.slots[p].(ctx := here)])
  }

  lemma SetCtxValid(m: Mem, p: int, here: Ctx)
    requires ValidMem(m) && 0 <= p < MAX_PROC
    ensures ValidMem(SetCtx(m, p, here))
  {
    var r := SetCtx(m, p, here);
    assert forall q :: OnChain(r, q) == OnChain(m, q);
    forall t | 0 <= t < TERMINALS
      ensures Linked(r.slots, m.chains[t], t)
    {
      assert forall i :: 0 <= i < |m.chains[t]| ==>
          (LinkAt(m.slots, m.chains[t], i) ==> LinkAt(r.slots, m.chains[t], i));
    }
  }

  lemma TopIsAlone(m: Mem, t: int)
    requires ValidMem(m) && 0 <= t < TERMINALS && m.chains[t] != []
    ensures forall u :: 0 <= u < TERMINALS && u != t ==> Last(m.chains[t]) !in m.chains[u]
    ensures Last(m.chains[t]) !in m.chains[t][..|m.chains[t]| - 1]
  {
    var k := |m.chains[t]| - 1;
    assert forall u, i :: 0 <= u < TERMINALS && 0 <= i < |m.chains[u]| ==>
        (m.chains[u][i] == m.chains[t][k] ==> u == t && i == k);
  }

  lemma SetCtxSaves(m: Mem, t: int, here: Ctx)
    requires ValidMem(m) && 0 <= t < TERMINALS && m.chains[t] != []
    ensures var r := SetCtx(m, Last(m.chains[t]), here);
            var k := |m.chains[t]| - 1;
            ValidMem(r) && Stacks(r) == Stacks(m)[t := Stacks(m)[t][k := Stacks(m)[t][k].(ctx := here)]]
  {
    var p, k := Last(m.chains[t]), |m.chains[t]| - 1;
    var r := SetCtx(m, p, here);
    SetCtxValid(m, p, here);
    TopIsAlone(m, t);
    hide Disjoint, OnChain, LinkAt;
    forall u | 0 <= u < TERMINALS && u != t
      ensures FramesOf(r.slots, m.chains[u]) == FramesOf(m.slots, m.chains[u])
    {
      FramesKept(m.slots, r.slots, m.chains[u]);
    }
    FramesSet(m.slots, m.chains[t], here);
    StacksAre(r, Stacks(m)[t := Stacks(m)[t][k := Stacks(m)[t][k].(ctx := here)]]);
  }

  /** `execute_find_pid` and `execute_create_pcb` together. */
  function Created(m: Mem, t: int, p: int): Mem
    requires 0 <= t < |m.terms| && 0 <= p < |m.slots| && 0 <= p < |m.bitmap| && t < |m.chains|
  {
    Mem(m.bitmap[p := true], m.slots[p := Pcb(p, m.terms[t].curr, FRESH_CTX, t)],
        m.terms[t := m.terms[t].(curr := p)], m.chains[t := m.chains[t] + [p]])
  }

  lemma CreatedBitmap(m: Mem, t: int, p: int, q: int)
    requires ValidMem(m) && 0 <= t < TERMINALS && 0 <= p < MAX_PROC && 0 <= q < MAX_PROC
    ensures Created(m, t, p).bitmap[q] == OnChain(Created(m, t, p), q)
  {
    var r := Created(m, t, p);
    assert forall u :: 0 <= u < TERMINALS ==> (q in r.chains[u] <==> q in m.chains[u] || (u == t && q == p));
    if q == p {
      assert p in r.chains[t];
    } else {
      assert OnChain(r, q) == OnChain(m, q);
    }
  }

  lemma LinkedElsewhere(slots: seq<Pcb>, chain: seq<int>, t: int, p: int, pcb: Pcb)
    requires |slots| == MAX_PROC && Linked(slots, chain, t) && 0 <= p < MAX_PROC && p !in chain
    ensures Linked(slots[p := pcb], chain, t)
  {
    forall i | 0 <= i < |chain|
      ensures chain[i] != p && LinkAt(slots[p := pcb], chain, i)
    {
      assert chain[i] in chain && LinkAt(slots, chain, i);
    }
  }

  lemma LinkedPushed(slots: seq<Pcb>, chain: seq<int>, t: int, p: int)
    requires |slots| == MAX_PROC && Linked(slots, chain, t) && 0 <= p < MAX_PROC && p !in chain
    ensures Linked(slots[p := Pcb(p, Last(chain), FRESH_CTX, t)], chain + [p], t)
  {
    var slots', chain' := slots[p := Pcb(p, Last(chain), FRESH_CTX, t)], chain + [p];
    forall i | 0 <= i < |chain'|
      ensures 0 <= chain'[i] < MAX_PROC && slots'[chain'[i]].pid == chain'[i] && LinkAt(slots', chain', i)
    {
      if i < |chain| {
        assert chain'[i] == chain[i] && LinkAt(slots, chain, i);
      }
    }
  }

  lemma CreatedValid(m: Mem, t: int, p: int)
    requires ValidMem(m) && 0 <= t < TERMINALS && 0 <= p < MAX_PROC && !m.bitmap[p]
    ensures ValidMem(Created(m, t, p))
  {
    var r := Created(m, t, p);
    forall q | 0 <= q < MAX_PROC
      ensures r.bitmap[q] == OnChain(r, q)
    {
      CreatedBitmap(m, t, p, q);
    }
    assert !OnChain(m, p);
    assert forall u, i :: 0 <= u < TERMINALS && 0 <= i < |m.chains[u]| ==> m.chains[u][i] != p;
    hide OnChain;
    assert Disjoint(r.chains);
    LinkedPushed(m.slots, m.chains[t], t, p);
    forall u | 0 <= u < TERMINALS && u != t
      ensures Linked(r.slots, m.chains[u], u)
    {
      LinkedElsewhere(m.slots, m.chains[u], u, p, r.slots[p]);
    }
  }

  lemma CreatedPushes(m: Mem, t: int, p: int)
    requires ValidMem(m) && 0 <= t < TERMINALS && 0 <= p < MAX_PROC && !m.bitmap[p]
    ensures var r := Created(m, t, p);
            && ValidMem(r) && Stacks(r) == Stacks(m)[t := Stacks(m)[t] + [Frame(p, FRESH_CTX)]]
            && Actives(r) == Actives(m)
  {
    CreatedValid(m, t, p);
    assert !OnChain(m, p);
    assert forall u, i :: 0 <= u < TERMINALS && 0 <= i < |m.chains[u]| ==> m.chains[u][i] != p;
    var r := Created(m, t, p);
    hide OnChain, Disjoint;
    forall u | 0 <= u < TERMINALS
      ensures FramesOf(r.slots, m.chains[u]) == Stacks(m)[u]
    {
      FramesKept(m.slots, r.slots, m.chains[u]);
    }
    FramesPushed(r.slots, m.chains[t], p);
    StacksAre(r, Stacks(m)[t := Stacks(m)[t] + [Frame(p, FRESH_CTX)]]);
  }

  /** The bitmap and current-process updates of `halt`. */
  function Dropped(m: Mem, t: int): Mem
    requires 0 <= t < |m.terms| && t < |m.chains| && m.chains[t] != []
    requires 0 <= Last(m.chains[t]) < |m.bitmap| && |m.bitmap| <= |m.slots|
  {
    var p := Last(m.chains[t]);
    m.(bitmap := m.bitmap[p := false], terms := m.terms[t := m.terms[t].(curr := m.slots[p].parent)],
       chains := m.chains[t := m.chains[t][..|m.chains[t]| - 1]])
  }

  lemma DroppedBitmap(m: Mem, t: int, q: int)
    requires ValidMem(m) && 0 <= t < TERMINALS && m.chains[t] != [] && 0 <= q < MAX_PROC
    ensures Dropped(m, t).bitmap[q] == OnChain(Dropped(m, t), q)
  {
    var r, p, k := Dropped(m, t), Last(m.chains[t]), |m.chains[t]| - 1;
    assert forall u, i :: 0 <= u < TERMINALS && 0 <= i < |m.chains[u]| ==>
        (m.chains[u][i] == m.chains[t][k] ==> u == t && i == k);
    forall u | 0 <= u < TERMINALS
      ensures q in r.chains[u] <==> q in m.chains[u] && q != p
    {
      if q in m.chains[u] && q != p {
        var i :| 0 <= i < |m.chains[u]| && m.chains[u][i] == q;
        assert r.chains[u][i] == q;
      }
    }
  }

  lemma LinkedPrefix(slots: seq<Pcb>, chain: seq<int>, t: int)
    requires |slots| == MAX_PROC && Linked(slots, chain, t) && chain != []
    ensures Linked(slots, chain[..|chain| - 1], t)
    ensures slots[Last(chain)].parent == Last(chain[..|chain| - 1])
  {
    var k := |chain| - 1;
    assert LinkAt(slots, chain, k);
    assert forall i :: 0 <= i < k ==> LinkAt(slots, chain, i) ==> LinkAt(slots, chain[..k], i);
  }

  lemma DisjointPrefix(chains: seq<seq<int>>, t: int)
    requires Disjoint(chains) && 0 <= t < |chains| && chains[t] != []
    ensures Disjoint(chains[t := chains[t][..|chains[t]| - 1]])
  {
  }

  lemma DroppedValid(m: Mem, t: int)
    requires ValidMem(m) && 0 <= t < TERMINALS && m.chains[t] != []
    ensures ValidMem(Dropped(m, t))
  {
    var r := Dropped(m, t);
    forall q | 0 <= q < MAX_PROC
      ensures r.bitmap[q] == OnChain(r, q)
    {
      DroppedBitmap(m, t, q);
    }
    assert Linked(m.slots, m.chains[t], t);
    LinkedPrefix(m.slots, m.chains[t], t);
    DisjointPrefix(m.chains, t);
    hide OnChain, Disjoint, Linked;
  }

  lemma DroppedPops(m: Mem, t: int)
    requires ValidMem(m) && 0 <= t < TERMINALS && m.chains[t] != []
    ensures var r := Dropped(m, t);
            ValidMem(r) && Stacks(r) == Stacks(m)[t := Stacks(m)[t][..|m.chains[t]| - 1]]
  {
    DroppedValid(m, t);
    FramesPopped(m.slots, m.chains[t]);
    hide OnChain, Disjoint;
    StacksAre(Dropped(m, t), Stacks(m)[t := Stacks(m)[t][..|m.chains[t]| - 1]]);
  }
}

/** The process manager's routines, each proved equal to its step on `ProcessSpec`. */
module KernelModel {
  import opened CTypes
  import opened ProcessSpec
  import opened ProcessMemory
  import opened ProcessRuns

  class Kernel {
    const pidArray: array<bool>
    const slots: array<Pcb>
    const terminal: array<TermProc>
    var schedTerm: int
    var currTerm: int
    /** The user entry of the page directory, tss.esp0, and the first user video entry. */
    var userPage: int
    var esp0: int
    var userVideo: int
    ghost var chains: seq<seq<int>>

    ghost function Memory(): Mem
      reads this`chains, pidArray, slots, terminal
    {
      Mem(pidArray[..], slots[..], terminal[..], chains)
    }

    ghost predicate Valid()
      reads this`schedTerm, this`chains, pidArray, slots, terminal
    {
      && pidArray.Length == MAX_PROC && slots.Length == MAX_PROC && terminal.Length == TERMINALS
      && 0 <= schedTerm < TERMINALS && ValidMem(Memory())
    }

    ghost function Abs(): (s: Sys)
      reads this, pidArray, slots, terminal
      requires Valid()
      ensures Shape(s)
    {
      Sys(schedTerm, currTerm, Stacks(Memory()), Actives(Memory()), userPage, esp0, userVideo)
    }

    /** What the current-process fields say about the stacks. */
    lemma Sees(t: int)
      requires Valid() && 0 <= t < TERMINALS
      ensures Abs().active[t] == terminal[t].active
      ensures Abs().stacks[t] == [] <==> terminal[t].curr == NULL
    {
      assert terminal[t].curr == Last(chains[t]);
    }

    constructor ()
      ensures Valid() && schedTerm == 0 && currTerm == 0 && esp0 == 0x80_0000 && userVideo == 0xB_8000
      ensures forall t :: 0 <= t < TERMINALS ==> Abs().stacks[t] == [] && !Abs().active[t]
      ensures fresh(pidArray) && fresh(slots) && fresh(terminal)
    {
      pidArray := new bool[MAX_PROC](i => false);
      slots := new Pcb[MAX_PROC](i => Pcb(0, NULL, Ctx(0, 0), 0));
      terminal := new TermProc[TERMINALS](i => TermProc(NULL, false));
      schedTerm, currTerm, userPage, esp0, userVideo := 0, 0, 0, KERNEL_MEM_END, VIDEO;
      chains := [[], [], []];
      new;
      hide OnChain, LinkAt, ValidMem;
      IdleIsValid(Memory());
    }

    /** The esp/ebp stores at the start of `execute` and of `scheduler`. */
    method SaveContext(t: int, here: Ctx)
      requires Valid() && 0 <= t < TERMINALS
      modifies slots
      ensures Valid() && Abs() == Save(old(Abs()), t, here)
    {
      ghost var m := Memory();
      if terminal[t].active && terminal[t].curr != NULL {
        SetCtxSaves(m, t, here);
        var p := terminal[t].curr;
        slots[p] := slots[p].(ctx := here);
        assert Memory() == SetCtx(m, p, here);
      }
    }

    method Activate(t: int)
      requires Valid() && 0 <= t < TERMINALS
      modifies terminal
      ensures Valid() && Abs() == old(Abs()).(active := old(Abs()).active[t := true])
    {
      ghost var m := Memory();
      terminal[t] := terminal[t].(active := true);
      assert forall p :: OnChain(Memory(), p) == OnChain(m, p);
      assert Stacks(Memory()) == Stacks(m);
    }

    /** First clear bit of the bitmap, which it sets. */
    method FindPid() returns (pid: int)
      requires Valid()
      modifies pidArray
      ensures pid == LowestFree(old(Abs()), 0)
      ensures pidArray[..] == if pid == -1 then old(pidArray[..]) else old(pidArray[..])[pid := true]
    {
      ghost var s, m := Abs(), Memory();
      for i := 0 to MAX_PROC
        invariant pidArray[..] == m.bitmap
        invariant LowestFree(s, 0) == LowestFree(s, i)
      {
        BitmapIsInUse(m, s, i);
        if !pidArray[i] {
          pidArray[i] := true;
          return i;
        }
      }
      return -1;
    }

    /** Fill the new process's slot, link it to the running process and make it current. */
    method CreatePcb(pid: int)
      requires slots.Length == MAX_PROC && terminal.Length == TERMINALS
      requires 0 <= pid < MAX_PROC && 0 <= schedTerm < TERMINALS && |chains| == TERMINALS
      modifies slots, terminal, this`chains
      ensures slots[..] == old(slots[..])[pid := Pcb(pid, old(terminal[schedTerm]).curr, FRESH_CTX, schedTerm)]
      ensures terminal[..] == old(terminal[..])[schedTerm := old(terminal[schedTerm]).(curr := pid)]
      ensures chains == old(chains)[schedTerm := old(chains)[schedTerm] + [pid]]
    {
      var parent := if terminal[schedTerm].curr == NULL then NULL else terminal[schedTerm].curr;
      slots[pid] := Pcb(pid, parent, FRESH_CTX, schedTerm);
      terminal[schedTerm] := terminal[schedTerm].(curr := pid);
      chains := chains[schedTerm := chains[schedTerm] + [pid]];
    }

    /** Map the new process's page, fill its slot and set its kernel stack. */
    method Install(pid: int, ghost m: Mem)
      requires ValidMem(m) && 0 <= pid < MAX_PROC && 0 <= schedTerm < TERMINALS
      requires Memory() == m.(bitmap := m.bitmap[pid := true])
      modifies this`userPage, this`esp0, this`chains, slots, terminal
      ensures Memory() == Created(m, schedTerm, pid)
      ensures userPage == PageOf(pid) && esp0 == StackTop(pid)
    {
      userPage := KERNEL_MEM_END + pid * FOUR_MB;
      CreatePcb(pid);
      esp0 := KERNEL_MEM_END - terminal[schedTerm].curr * EIGHT_KB - 4;
    }

    /** Take a PID and make its process current. */
    method Launch() returns (pid: int)
      requires Valid()
      modifies this`userPage, this`esp0, this`chains, pidArray, slots, terminal
      ensures Valid() && pid == LowestFree(old(Abs()), 0)
      ensures pid == -1 ==> Abs() == old(Abs())
      ensures pid != -1 ==>
                var u := old(Abs());
                Abs() == MapTo(u.(stacks := u.stacks[u.sched := u.stacks[u.sched] + [Frame(pid, FRESH_CTX)]]), pid)
    {
      hide ValidMem, Stacks, Actives, InUse, LowestFree;
      ghost var m, s := Memory(), Abs();
      pid := FindPid();
      assert pid == -1 ==> Memory() == m;
      if pid != -1 {
        BitmapIsInUse(m, s, pid);
        CreatedPushes(m, schedTerm, pid);
        Install(pid, m);
      }
    }

    method ExecuteCommand(command: Command, here: Ctx) returns (o: Outcome)
      requires Valid()
      modifies this`userPage, this`esp0, this`chains, pidArray, slots, terminal
      ensures Valid() && (Abs(), o) == Execute(old(Abs()), command, here)
    {
      if command == Missing {
        return Failed;
      }
      SaveContext(schedTerm, here);
      Activate(schedTerm);
      if command == Unloadable {
        return Failed;
      }
      var pid := Launch();
      o := if pid == -1 then Failed else Started(pid);
    }

    /** Clear the PID's bit and make the parent current. */
    method Unlink()
      requires Valid() && chains[schedTerm] != []
      modifies this`chains, pidArray, terminal
      ensures Valid() && Abs() == Pop(old(Abs()))
    {
      ghost var m := Memory();
      var p := terminal[schedTerm].curr;
      pidArray[slots[p].pid] := false;
      terminal[schedTerm] := terminal[schedTerm].(curr := slots[p].parent);
      chains := chains[schedTerm := chains[schedTerm][..|chains[schedTerm]| - 1]];
      DroppedPops(m, schedTerm);
      assert Memory() == Dropped(m, schedTerm);
      assert Actives(Memory()) == Actives(m);
    }

    /** Point the user page and the kernel stack at the scheduled terminal's process. */
    method MapCurrent() returns (ctx: Ctx)
      requires Valid() && terminal[schedTerm].curr != NULL
      modifies this`userPage, this`esp0
      ensures Valid() && Abs().stacks[schedTerm] != [] && ctx == Top(Abs(), schedTerm).ctx
      ensures Abs() == MapTo(old(Abs()), Top(Abs(), schedTerm).pid)
    {
      var p := terminal[schedTerm].curr;
      assert chains[schedTerm] != [] && Top(Abs(), schedTerm) == Frame(p, slots[p].ctx);
      userPage := KERNEL_MEM_END + slots[p].pid * FOUR_MB;
      esp0 := KERNEL_MEM_END - slots[p].pid * EIGHT_KB - 4;
      ctx := slots[p].ctx;
    }

    method HaltProcess(shell: Command, here: Ctx) returns (o: Outcome)
      requires Valid() && terminal[schedTerm].curr != NULL
      modifies this`userPage, this`esp0, this`chains, pidArray, slots, terminal
      ensures Valid() && Abs().shown == old(Abs().shown)
      ensures old(Abs()).stacks[old(Abs()).sched] != [] && (Abs(), o) == Halt(old(Abs()), shell, here)
    {
      Unlink();
      if terminal[schedTerm].curr == NULL {
        o := ExecuteCommand(shell, here);
        if o == Failed {
          o := NullPointer;
        }
        return;
      }
      var ctx := MapCurrent();
      o := Resumed(ctx);
    }

    /** `scheduler`, from a terminal that has a process. */
    method Schedule(next: int, shell: Command, here: Ctx) returns (o: Outcome)
      requires Valid() && terminal[schedTerm].curr != NULL && 0 <= next < TERMINALS
      modifies this`schedTerm, this`userPage, this`esp0, this`userVideo, this`chains, pidArray, slots, terminal
      ensures Valid() && (Abs(), o) == ProcessSpec.Switch(old(Abs()), next, shell, here)
    {
      hide Execute, Save, Next, ValidMem, Stacks, Actives;
      if next == schedTerm {
        return Idle;
      }
      Switch(next, here);
      Sees(next);
      if !terminal[next].active {
        o := ExecuteCommand(shell, here);
        return;
      }
      if terminal[next].curr == NULL {
        return NullPointer;
      }
      var ctx := MapCurrent();
      MapVideo();
      o := Resumed(ctx);
    }

    /** Point user video memory at the display or at the process's own backup page. */
    method MapVideo()
      requires Valid() && terminal[schedTerm].curr != NULL
      modifies this`userVideo
      ensures Valid() && Abs() == old(Abs()).(userVideo := VideoOf(schedTerm, currTerm))
    {
      var k := |chains[schedTerm]| - 1;
      assert slots[chains[schedTerm][k]].terminalId == schedTerm;
      var owner := slots[terminal[schedTerm].curr].terminalId;
      userVideo := if owner == currTerm then VIDEO else VIDEO + (owner + 1) * PAGE_SIZE;
    }

    /** Save the interrupted process's context and move on. */
    method Switch(next: int, here: Ctx)
      requires Valid() && 0 <= next < TERMINALS
      modifies this`schedTerm, slots
      ensures Valid() && Abs() == Deschedule(old(Abs()), next, here)
      ensures terminal[..] == old(terminal[..]) && schedTerm == next
    {
      SaveContext(schedTerm, here);
      schedTerm := next;
    }

    method PitInterrupt(shell: Command, here: Ctx) returns (o: Outcome)
      requires Valid()
      modifies this`schedTerm, this`userPage, this`esp0, this`userVideo, this`chains, pidArray, slots, terminal
      ensures Valid() && (Abs(), o) == Tick(old(Abs()), shell, here)
    {
      hide ValidMem, Stacks, Actives, ProcessSpec.Switch;
      Sees(schedTerm);
      if terminal[schedTerm].curr == NULL {
        return Idle;
      }
      o := Schedule((schedTerm + 1) % TERMINALS, shell, here);
    }

    // ---- whole runs

    /** The first shell, started on the boot stack. */
    method Boot(here: Ctx)
      requires Valid() && forall t :: 0 <= t < TERMINALS ==> Abs().stacks[t] == [] && !Abs().active[t]
      modifies this`userPage, this`esp0, this`chains, pidArray, slots, terminal
      ensures Valid() && Good(Abs()) && schedTerm == old(schedTerm)
    {
      BootGood(Abs(), here);
      var o := ExecuteCommand(Program, here);
    }

    method Dispatch(e: Event, shell: Command) returns (o: Outcome)
      requires Valid() && (e.Exit? ==> terminal[schedTerm].curr != NULL)
      modifies this, pidArray, slots, terminal
      ensures Valid()
      ensures e.Exit? ==> old(Abs()).stacks[old(Abs()).sched] != []
      ensures (Abs(), o) == Step(old(Abs()), shell, e)
    {
      Sees(schedTerm);
      match e
      case Exec(command, here) => o := ExecuteCommand(command, here);
      case Exit(here) => o := HaltProcess(shell, here);
      case Timer(here) => o := PitInterrupt(shell, here);
      case Display(n) => currTerm := n; o := Idle;
    }

    method Proceed(events: seq<Event>, shell: Command)
      requires Valid() && Good(Abs()) && events != [] && Runs(Abs(), shell, events)
      modifies this, pidArray, slots, terminal
      ensures Valid() && Good(Abs()) && Runs(Abs(), shell, events[1..])
      ensures Run(Abs(), shell, events[1..]) == Run(old(Abs()), shell, events)
    {
      GoodRuns(Abs(), shell, events);
      Sees(schedTerm);
      hide ValidMem, Stacks, Actives, Step, Good, Runs, Run;
      var o := Dispatch(events[0], shell);
    }

    /** Any run in which the root shells can be started: the kernel ends where the stacks say, so
        the run theorems of `ProcessRuns` hold of its arrays, links and registers. */
    method RunEvents(events: seq<Event>, shell: Command)
      requires Valid() && Good(Abs()) && Runs(Abs(), shell, events)
      modifies this, pidArray, slots, terminal
      ensures Valid() && Abs() == Run(old(Abs()), shell, events)
      decreases |events|
    {
      hide ValidMem, Stacks, Actives, Good;
      if events != [] {
        Proceed(events, shell);
        RunEvents(events[1..], shell);
      }
    }
  }
}
