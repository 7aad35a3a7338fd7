/** change_process as a step, the invariant of every run, bounded waiting and starvation. */
module SchedulerRuns {
  import opened Options
  import opened SchedulerModel

  /** The running process is charged one tick, unless its slice is used up. */
  function Charge(p: Process): Process {
    if p.timeSlice > 0 then p.(timeSlice := p.timeSlice - 1, cpuTimeUsed := (p.cpuTimeUsed + 1) % U32) else p
  }

  /** From the current process to slot `next`, both with a full slice. */
  function SwitchTo(t: Table, next: nat): Table
    requires t.current < |t.procs| && next < |t.procs|
  {
    var p := t.procs[t.current];
    if next == t.current then t.(procs := t.procs[next := p.(timeSlice := DEFAULT_TIME_SLICE)])
    else
      var was := p.(state := if p.state == Running then Ready else p.state, timeSlice := DEFAULT_TIME_SLICE);
      var now := t.procs[next].(state := Running, timeSlice := DEFAULT_TIME_SLICE);
      t.(procs := t.procs[t.current := was][next := now], current := next)
  }

  function Charged(t: Table): Table
    requires t.current < |t.procs|
  {
    t.(procs := t.procs[t.current := Charge(t.procs[t.current])])
  }

  /** change_process. */
  function Tick(t: Table): Table
    requires t.current < |t.procs|
  {
    if |t.procs| <= 1 then t
    else
      var t1 := Charged(t);
      var p := t1.procs[t.current];
      if p.timeSlice > 0 && p.state == Running then t1 else SwitchTo(t1, FindNext(t1))
  }

  /** The current process gives up its slice. */
  function Yielding(t: Table): Table
    requires t.current < |t.procs|
  {
    var p := t.procs[t.current];
    t.(procs := t.procs[t.current := p.(state := if p.state == Running then Ready else p.state, timeSlice := 0)])
  }

  function Yield(t: Table): Table
    requires t.current < |t.procs|
  {
    Tick(Yielding(t))
  }

  // ---- The invariant ----

  ghost predicate Unique(procs: seq<Process>) {
    forall i, j :: 0 <= i < j < |procs| ==> procs[i].pid != procs[j].pid
  }

  ghost predicate OnlyCurrentRuns(t: Table) {
    forall i :: 0 <= i < |t.procs| && Runs(t, i) ==> i == t.current
  }

  predicate Runs(t: Table, i: nat)
    requires i < |t.procs|
  {
    t.procs[i].state == Running
  }

  /** Identifiers are unique, slot 0 is the kernel's, and at most the current process runs. */
  ghost predicate Inv(t: Table) {
    && t.current < |t.procs| <= MAX_PROCESS_COUNT && IsPid(t.nextPid)
    && t.procs[0].pid == 0 && Unique(t.procs)
    && (forall i :: 0 <= i < |t.procs| ==> t.procs[i].pid < U32 && t.procs[i].state != Terminated && t.procs[i].timeSlice <= DEFAULT_TIME_SLICE)
    && OnlyCurrentRuns(t)
  }

  /** The first table: the kernel process alone, running with a full slice, unless it has no stack. */
  lemma InitInv(stack: nat)
    ensures Init(stack).Some? <==> stack != 0
    ensures Init(stack).Some? ==>
              var t := Init(stack).value;
              && Inv(t) && |t.procs| == 1 && t.current == 0 && t.nextPid == 1
              && t.procs[0] == Process(0, Running, 0, 3, 0, stack, 0)
  {
  }

  /** A new process gets a fresh non-zero identifier and waits in the last slot, with the priority, entry
      point and stack given and a full slice; nothing else changes.
      The int returned is negative for identifiers from 2^31 on, and the identifier 2^32 - 1 comes back
      as -1, the code for failure. */
  lemma CreateKeeps(t: Table, entryPoint: nat, priority: nat, stack: nat)
    requires Inv(t)
    ensures var (t', code) := Create(t, entryPoint, priority, stack);
            && Inv(t')
            && (t' == t ==> code == -1)
            && (t' != t ==> && t'.procs[..|t.procs|] == t.procs && |t'.procs| == |t.procs| + 1
                            && t'.current == t.current && IsPid(t'.procs[|t.procs|].pid)
                            && t'.procs[|t.procs|].state == Ready
                            && FindPid(t.procs, t'.procs[|t.procs|].pid, 0) == None)
            && (t' != t ==> var p := t'.procs[|t.procs|];
                            && p.priority == priority && p.entryPoint == entryPoint && p.stackBase == stack
                            && p.timeSlice == 3 && p.cpuTimeUsed == 0
                            && code == (if p.pid < 0x8000_0000 then p.pid else p.pid - 0x1_0000_0000)
                            && t'.nextPid == if p.pid == 0xFFFF_FFFF then 1 else p.pid + 1)
            && (t' != t ==> (code == -1 <==> t'.procs[|t.procs|].pid == U32 - 1))
            && (t' == t <==> |t.procs| >= 255 || entryPoint == 0 || stack == 0)
  {
    FreshPidFresh(t.procs, t.nextPid);
    hide FreshPid, FindPid;
    var t' := Create(t, entryPoint, priority, stack).0;
    if t' != t {
      assert forall j :: 0 <= j < |t.procs| ==> t'.procs[j] == t.procs[j];
      forall j | 0 <= j < |t'.procs| && j != t'.current
        ensures !Runs(t', j)
      {
        if j < |t.procs| { assert !Runs(t, j); }
      }
    }
  }

  /** The processes with other identifiers, in order. */
  function Survivors(procs: seq<Process>, pid: nat): seq<Process> {
    if procs == [] then []
    else if procs[0].pid == pid then Survivors(procs[1..], pid)
    else [procs[0]] + Survivors(procs[1..], pid)
  }

  lemma {:induction false} SurvivorsAll(procs: seq<Process>, pid: nat)
    requires forall j :: 0 <= j < |procs| ==> procs[j].pid != pid
    ensures Survivors(procs, pid) == procs
    decreases |procs|
  {
    if procs != [] {
      SurvivorsAll(procs[1..], pid);
      assert procs == [procs[0]] + procs[1..];
    }
  }

  lemma {:induction false} SurvivorsCut(front: seq<Process>, p: Process, back: seq<Process>)
    requires forall j :: 0 <= j < |front| ==> front[j].pid != p.pid
    requires forall j :: 0 <= j < |back| ==> back[j].pid != p.pid
    ensures Survivors(front + [p] + back, p.pid) == front + back
    decreases |front|
  {
    var all := front + [p] + back;
    if front == [] {
      SurvivorsAll(back, p.pid);
      assert all[0] == p && all[1..] == back && front + back == back;
    } else {
      SurvivorsCut(front[1..], p, back);
      assert all[0] == front[0] && all[1..] == front[1..] + [p] + back;
      assert front + back == [front[0]] + (front[1..] + back);
    }
  }

  /** Termination takes out the process named, and only it: the others stay, unchanged and in order. The
      kernel's identifier and unknown ones are ignored. */
  lemma TerminateRemoves(t: Table, pid: nat)
    requires Unique(t.procs)
    ensures pid == 0 || (forall p :: p in t.procs ==> p.pid != pid) ==> Terminate(t, pid) == t
    ensures pid != 0 && (exists p :: p in t.procs && p.pid == pid) ==>
              var t' := Terminate(t, pid);
              && t'.procs == Survivors(t.procs, pid) && t'.nextPid == t.nextPid
              && (forall p :: p in t'.procs ==> p.pid != pid)
              && (forall p :: p in t.procs && p.pid != pid ==> p in t'.procs)
              && |t'.procs| == |t.procs| - 1
  {
    var i := FindPid(t.procs, pid, 0);
    hide FindPid, Survivors;
    if i.Some? {
      var k := i.value;
      var front, back := t.procs[..k], t.procs[k + 1..];
      assert t.procs == front + [t.procs[k]] + back;
      forall j | 0 <= j < |back|
        ensures back[j].pid != pid
      {
        assert t.procs[k].pid != t.procs[k + 1 + j].pid;
      }
      SurvivorsCut(front, t.procs[k], back);
      assert t.procs[k] in t.procs;
      OthersOf(front, t.procs[k], back);
    } else {
      forall p | p in t.procs
        ensures p.pid != pid
      {
        var j :| 0 <= j < |t.procs| && t.procs[j] == p;
      }
    }
  }

  lemma OthersOf(front: seq<Process>, p: Process, back: seq<Process>)
    requires forall j :: 0 <= j < |front| ==> front[j].pid != p.pid
    requires forall j :: 0 <= j < |back| ==> back[j].pid != p.pid
    ensures forall q :: q in front + back ==> q.pid != p.pid
    ensures forall q :: q in front + [p] + back && q.pid != p.pid ==> q in front + back
  {
  }

  /** The one termination that loses track of the running process: it sits in the last slot and a lower
      slot is removed, after which slot 0 counts as current. */
  predicate LosesTrack(t: Table, pid: nat)
    requires t.current < |t.procs|
  {
    var i := FindPid(t.procs, pid, 0);
    && pid != 0 && i.Some? && i.value < t.current == |t.procs| - 1
    && Runs(t, t.current)
  }

  /** Termination keeps the invariant exactly when it does not lose track. */
  lemma TerminateKeeps(t: Table, pid: nat)
    requires Inv(t)
    ensures Inv(Terminate(t, pid)) <==> !LosesTrack(t, pid)
  {
    var i := FindPid(t.procs, pid, 0);
    if pid != 0 && i.Some? {
      hide FindPid;
      var t' := Terminate(t, pid);
      forall j | 0 <= j < |t'.procs|
        ensures t'.procs[j] == t.procs[if j < i.value then j else j + 1]
      {
      }
      if LosesTrack(t, pid) {
        assert Runs(t', t.current - 1);
      } else {
        forall j | 0 <= j < |t'.procs| && j != t'.current
          ensures !Runs(t', j)
        {
          var was := if j < i.value then j else j + 1;
          assert was != t.current ==> !Runs(t, was);
        }
      }
    }
  }

  /** Termination of another process follows the current one exactly when the current one is not in the
      last slot behind it; then slot 0 counts as current. When the current process itself goes, the one
      behind it takes its slot, and slot 0 counts as current if there is none. */
  lemma TerminateFollows(t: Table, pid: nat)
    requires Inv(t) && FindPid(t.procs, pid, 0).Some? && pid != 0
    ensures var i, last := FindPid(t.procs, pid, 0).value, |t.procs| - 1;
            var t' := Terminate(t, pid);
            && (i != t.current ==>
                  (t'.procs[t'.current] == t.procs[t.current] <==> !(i < t.current == last)))
            && (i < t.current == last ==> t'.current == 0)
            && (i == t.current < last ==> t'.current == i && t'.procs[i] == t.procs[i + 1])
            && (i == t.current == last ==> t'.current == 0)
  {
    hide FindPid;
  }

  lemma BlockKeeps(t: Table, pid: nat)
    requires Inv(t)
    ensures Inv(Block(t, pid)) && Inv(Unblock(t, pid))
  {
    hide FindPid;
    var i := FindPid(t.procs, pid, 0);
    forall j | 0 <= j < |t.procs| && j != t.current
      ensures !Runs(Block(t, pid), j) && !Runs(Unblock(t, pid), j)
    {
      assert !Runs(t, j);
    }
  }

  lemma SwitchKeeps(t: Table, next: nat)
    requires Inv(t) && next < |t.procs|
    ensures Inv(SwitchTo(t, next))
  {
    var t' := SwitchTo(t, next);
    forall j | 0 <= j < |t'.procs| && j != t'.current
      ensures !Runs(t', j)
    {
      if j != t.current { assert !Runs(t, j); }
    }
  }

  lemma OneProcess(t: Table, t': Table)
    requires Inv(t) && t'.current == t.current && t'.nextPid == t.nextPid && |t'.procs| == |t.procs|
    requires forall j :: 0 <= j < |t.procs| && j != t.current ==> t'.procs[j] == t.procs[j]
    requires var p, p' := t.procs[t.current], t'.procs[t.current];
             p'.pid == p.pid && p'.state != Terminated && p'.timeSlice <= DEFAULT_TIME_SLICE
    ensures Inv(t')
  {
    forall j | 0 <= j < |t'.procs| && j != t'.current
      ensures !Runs(t', j)
    {
      assert !Runs(t, j);
    }
  }

  lemma TickKeeps(t: Table)
    requires Inv(t)
    ensures Inv(Tick(t)) && Inv(Yield(t))
  {
    hide FindNext;
    OneProcess(t, Charged(t));
    SwitchKeeps(Charged(t), FindNext(Charged(t)));
    var y := Yielding(t);
    OneProcess(t, y);
    OneProcess(y, Charged(y));
    SwitchKeeps(Charged(y), FindNext(Charged(y)));
  }

  // ---- What blocking and yielding do ----

  /** block_process and unblock_process touch no other slot and keep the current one, whatever the
      identifier; a running process that is blocked and then unblocked is ready, not running, and any
      other keeps its state. */
  lemma BlockThenUnblock(t: Table, pid: nat)
    ensures forall t' :: t' == Block(t, pid) || t' == Unblock(t, pid) ==>
              && |t'.procs| == |t.procs| && t'.current == t.current && t'.nextPid == t.nextPid
              && forall j :: 0 <= j < |t.procs| ==>
                   && t'.procs[j].(state := t.procs[j].state) == t.procs[j]
                   && (Some(j) != FindPid(t.procs, pid, 0) ==> t'.procs[j] == t.procs[j])
    ensures var i := FindPid(t.procs, pid, 0);
            i.Some? && t.procs[i.value].state != Blocked ==>
              var p := t.procs[i.value];
              Unblock(Block(t, pid), pid) == t.(procs := t.procs[i.value := p.(state := if p.state == Running then Ready else p.state)])
  {
    var i := FindPid(t.procs, pid, 0);
    if i.Some? {
      FoundAgain(t.procs, t.procs[i.value := t.procs[i.value].(state := Blocked)], pid, 0);
      hide FindPid;
      assert t.procs[i.value].state == Ready || t.procs[i.value].state == Terminated ==> t.procs[i.value := t.procs[i.value]] == t.procs;
    }
  }

  lemma {:induction false} FoundAgain(procs: seq<Process>, procs': seq<Process>, pid: nat, i: nat)
    requires |procs'| == |procs| && forall j :: 0 <= j < |procs| ==> procs'[j].pid == procs[j].pid
    ensures FindPid(procs', pid, i) == FindPid(procs, pid, i)
    decreases |procs| - i
  {
    if i < |procs| { FoundAgain(procs, procs', pid, i + 1); }
  }

  /** A running process that is blocked loses the processor: it stays blocked and is not run by any later
      tick while another process is ready or running. */
  lemma BlockedWaits(t: Table, i: nat, j: nat, k: nat)
    requires Inv(t) && i < |t.procs| && t.procs[i].state == Running
    requires j < |t.procs| && t.procs[j].state == Ready && FindPid(t.procs, t.procs[i].pid, 0) == Some(i)
    ensures var t' := Block(t, t.procs[i].pid);
            && t'.procs[i].state == Blocked && t'.current < |t'.procs|
            && Ticks(t', k).procs[i].state == Blocked && (k > 0 ==> Ticks(t', k).current != i)
  {
    BlockKeeps(t, t.procs[i].pid);
    hide FindPid, Inv;
    StaysBlocked(Block(t, t.procs[i].pid), i, j, k);
  }

  predicate Up(t: Table, j: nat)
    requires j < |t.procs|
  {
    t.procs[j].state == Ready || t.procs[j].state == Running
  }

  lemma {:induction false} StaysBlocked(t: Table, i: nat, j: nat, k: nat)
    requires Inv(t) && i < |t.procs| && j < |t.procs| && t.procs[i].state == Blocked && Up(t, j)
    ensures Ticks(t, k).procs[i].state == Blocked && (k > 0 ==> Ticks(t, k).current != i)
    decreases k
  {
    assert t.current < |t.procs|;
    hide Tick, Inv, Up;
    if k > 0 {
      BlockedTick(t, i, j);
      TickKeeps(t);
      StaysBlocked(Tick(t), i, j, k - 1);
      assert Ticks(Tick(t), 0) == Tick(t);
    }
  }

  lemma BlockedTick(t: Table, i: nat, j: nat)
    requires Inv(t) && i < |t.procs| && j < |t.procs| && t.procs[i].state == Blocked && Up(t, j)
    ensures var t' := Tick(t);
            |t'.procs| == |t.procs| > t'.current != i && t'.procs[i].state == Blocked && Up(t', j)
  {
    var t1 := Charged(t);
    assert t1.procs[i].state == t.procs[i].state && t1.procs[j].state == t.procs[j].state;
    assert Runs(t, j) ==> j == t.current;
    NextNotBlocked(t1, i, j);
    hide FindNext, Inv;
  }

  lemma NextNotBlocked(t: Table, i: nat, j: nat)
    requires t.current < |t.procs| && i < |t.procs| && j < |t.procs| && t.procs[i].state == Blocked
    requires t.procs[j].state == Ready || (t.procs[j].state == Running && j == t.current)
    ensures FindNext(t) != i
  {
    FindNextIsFirstBest(t);
    hide FindNext;
    if forall l :: 0 <= l < |t.procs| ==> t.procs[l].state != Ready {
      assert t.procs[j].state != Ready;
    }
  }

  /** What a tick does to every process: the current one is charged a tick while its slice lasts, and states
      and slices change for the process that leaves and the one that comes only; identifiers, priorities,
      stacks and entry points never change. Yielding charges nobody. */
  lemma TickChanges(t: Table)
    requires Inv(t) && |t.procs| > 1
    ensures var t', c := Tick(t), t.current;
            var left := if t.procs[c].timeSlice > 0 then t.procs[c].timeSlice - 1 else 0;
            && |t'.procs| == |t.procs| && t'.nextPid == t.nextPid
            && (left > 0 && t.procs[c].state == Running ==> t'.current == c && t'.procs[c].timeSlice == left)
            && (!(left > 0 && t.procs[c].state == Running) ==> t'.procs[c].timeSlice == 3 && t'.procs[t'.current].timeSlice == 3)
            && (t'.current == c ==> t'.procs[c].state == t.procs[c].state)
            && (t'.current != c ==>
                  && t'.procs[t'.current].state == Running
                  && t'.procs[c].state == if t.procs[c].state == Running then Ready else t.procs[c].state)
            && (forall j :: 0 <= j < |t.procs| && j != c && j != t'.current ==> t'.procs[j] == t.procs[j])
            && (forall j :: 0 <= j < |t.procs| ==>
                  t'.procs[j].(state := t.procs[j].state, timeSlice := t.procs[j].timeSlice)
                  == if j == c && t.procs[j].timeSlice > 0
                     then t.procs[j].(cpuTimeUsed := (t.procs[j].cpuTimeUsed + 1) % 0x1_0000_0000) else t.procs[j])
    ensures forall j :: 0 <= j < |t.procs| ==> Yield(t).procs[j].cpuTimeUsed == t.procs[j].cpuTimeUsed
  {
    hide FindNext;
  }

  /** A blocked process other than the current one is switched to in one case only: it is the process in
      slot 0, the current one does not run and nobody is ready, so that find_next_process falls back. */
  lemma BlockedRuns(t: Table, p: nat)
    requires Inv(t) && |t.procs| > 1 && p < |t.procs| && p != t.current && t.procs[p].state == Blocked
    ensures Tick(t).current == p <==>
            p == 0 && t.procs[t.current].state != Running && forall j :: 0 <= j < |t.procs| ==> t.procs[j].state != Ready
  {
    var t1 := Charged(t);
    FindNextIsFirstBest(t1);
    assert forall j :: 0 <= j < |t.procs| ==> t1.procs[j].state == t.procs[j].state;
    hide FindNext, Inv;
    if j :| 0 <= j < |t.procs| && t.procs[j].state == Ready {
      assert t1.procs[j].state == Ready;
    }
  }

  /** A running process that yields keeps the processor exactly when every other process has a larger
      priority number; it is then left ready, and nobody is marked running. */
  lemma YieldGivesUp(t: Table)
    requires Busy(t) && |t.procs| > 1
    ensures Yield(t).current == t.current <==>
            forall j :: 0 <= j < |t.procs| && j != t.current ==> t.procs[j].priority > t.procs[t.current].priority
    ensures Yield(t).current == t.current ==> forall j :: 0 <= j < |t.procs| ==> Yield(t).procs[j].state == Ready
    ensures Yield(t).current != t.current ==> Busy(Yield(t))
  {
    TickKeeps(t);
    var y := Charged(Yielding(t));
    FindNextIsFirstBest(y);
    hide FindNext, Inv;
    assert forall j :: 0 <= j < |y.procs| ==> y.procs[j].state == Ready && y.procs[j].priority == t.procs[j].priority;
    var n, b := |y.procs|, FindNext(y);
    assert FirstBest(y.procs, t.current, b);
    if b != t.current {
      assert y.procs[b].priority <= y.procs[t.current].priority;
    } else {
      forall j | 0 <= j < n && j != t.current
        ensures t.procs[j].priority > t.procs[t.current].priority
      {
        assert Distance(n, t.current, j) < Distance(n, t.current, t.current);
      }
    }
  }

  // ---- Runs ----

  datatype Op = DoCreate(entryPoint: nat, priority: nat, stack: nat) | DoTerminate(pid: nat)
              | DoBlock(pid: nat) | DoUnblock(pid: nat) | DoTick | DoYield

  function Step(t: Table, op: Op): Table
    requires t.current < |t.procs| && IsPid(t.nextPid)
  {
    match op
    case DoCreate(entryPoint, priority, stack) => Create(t, entryPoint, priority, stack).0
    case DoTerminate(pid) => Terminate(t, pid)
    case DoBlock(pid) => Block(t, pid)
    case DoUnblock(pid) => Unblock(t, pid)
    case DoTick => Tick(t)
    case DoYield => Yield(t)
  }

  /** The tables an operation sequence goes through, up to the first bad termination. */
  ghost predicate Reaches(t: Table, ops: seq<Op>, t': Table)
    decreases |ops|
  {
    if ops == [] then t' == t
    else
      && t.current < |t.procs| && IsPid(t.nextPid)
      && !(ops[0].DoTerminate? && LosesTrack(t, ops[0].pid))
      && Reaches(Step(t, ops[0]), ops[1..], t')
  }

  /** The invariant holds in every table a run without a bad termination can reach. */
  lemma {:induction false} RunInv(t: Table, ops: seq<Op>, t': Table)
    requires Inv(t) && Reaches(t, ops, t')
    ensures Inv(t')
    decreases |ops|
  {
    if ops != [] {
      hide Create, Terminate, Block, Unblock, Tick, Yield, Inv;
      InvStep(t, ops[0]);
      RunInv(Step(t, ops[0]), ops[1..], t');
    }
  }

  lemma InvStep(t: Table, op: Op)
    requires Inv(t) && !(op.DoTerminate? && LosesTrack(t, op.pid))
    ensures Inv(Step(t, op))
  {
    hide Create, Terminate, Block, Unblock, Tick, Yield, LosesTrack;
    match op {
      case DoCreate(entryPoint, priority, stack) => CreateKeeps(t, entryPoint, priority, stack);
      case DoTerminate(pid) => TerminateKeeps(t, pid);
      case DoBlock(pid) => BlockKeeps(t, pid);
      case DoUnblock(pid) => BlockKeeps(t, pid);
      case DoTick => TickKeeps(t);
      case DoYield => TickKeeps(t);
    }
  }

  // ---- Waiting ----

  function Ticks(t: Table, k: nat): (t': Table)
    requires t.current < |t.procs|
    ensures t'.current < |t'.procs| == |t.procs|
    decreases k
  {
    if k == 0 then t else Ticks(Tick(t), k - 1)
  }

  /** Everyone is ready but the current process, which runs. */
  ghost predicate Busy(t: Table) {
    && Inv(t)
    && forall i :: 0 <= i < |t.procs| ==> t.procs[i].state == if i == t.current then Running else Ready
  }

  /** No other process comes before `p`. */
  ghost predicate Foremost(t: Table, p: nat) {
    p < |t.procs| && forall i :: 0 <= i < |t.procs| ==> t.procs[p].priority <= t.procs[i].priority
  }

  ghost predicate SamePriorities(t: Table, t': Table) {
    |t'.procs| == |t.procs| && forall i :: 0 <= i < |t.procs| ==> t'.procs[i].priority == t.procs[i].priority
  }

  /** A tick of a busy table: the slice goes down, or the first best of the others runs. */
  lemma BusyTick(t: Table)
    requires Busy(t) && |t.procs| > 1
    ensures var t' := Tick(t);
            && Busy(t') && SamePriorities(t, t')
            && (t'.current == t.current ==> t'.procs[t.current].timeSlice == t.procs[t.current].timeSlice - 1)
            && (t'.current != t.current ==> FirstBest(t.procs, t.current, t'.current)
                                            && t'.procs[t'.current].timeSlice == DEFAULT_TIME_SLICE)
            && (t.procs[t.current].timeSlice <= 1 ==> t'.current != t.current)
  {
    TickKeeps(t);
    var t1 := Charged(t);
    var other := if t.current == 0 then 1 else 0;
    assert t1.procs[other].state == Ready;
    FindNextIsFirstBest(t1);
    hide FindNext, Inv, FirstBest;
    assert FirstBest(t1.procs, t.current, FindNext(t1));
    SameBest(t1.procs, t.procs, t.current, FindNext(t1));
  }

  lemma SameBest(procs: seq<Process>, procs': seq<Process>, current: nat, idx: nat)
    requires current < |procs| && |procs'| == |procs| && FirstBest(procs, current, idx)
    requires forall j :: 0 <= j < |procs| ==> procs'[j].state == procs[j].state && procs'[j].priority == procs[j].priority
    ensures FirstBest(procs', current, idx) && procs[idx].state == Ready
  {
  }

  /** How many more ticks `p` may have to wait. */
  function Wait(t: Table, p: nat): nat
    requires t.current < |t.procs| && p < |t.procs|
  {
    var slice := t.procs[t.current].timeSlice;
    (if slice == 0 then 1 else slice) + DEFAULT_TIME_SLICE * Distance(|t.procs|, t.current, p)
  }

  /** Bounded waiting: a ready process that none comes before runs within three ticks for each of the
      places from the current slot to its own. */
  lemma BoundedWaiting(t: Table, p: nat)
    requires Busy(t) && Foremost(t, p) && p != t.current
    ensures exists k :: 0 < k <= DEFAULT_TIME_SLICE * (Distance(|t.procs|, t.current, p) + 1) && Ticks(t, k).current == p
  {
    var k := RunsWithin(t, p);
  }

  lemma {:induction false} RunsWithin(t: Table, p: nat) returns (k: nat)
    requires Busy(t) && Foremost(t, p) && p != t.current
    ensures 0 < k <= Wait(t, p) && Ticks(t, k).current == p
    decreases Wait(t, p)
  {
    var t' := Tick(t);
    BusyTick(t);
    hide Tick, Busy;
    if t'.current == p {
      k := 1;
      assert Ticks(t, 1) == Ticks(t', 0);
    } else {
      if t'.current != t.current { Nearer(t, t'.current, p); }
      var k' := RunsWithin(t', p);
      k := k' + 1;
    }
  }

  /** A first best slot other than `p` lies on the way to `p`. */
  lemma Nearer(t: Table, b: nat, p: nat)
    requires Inv(t) && Foremost(t, p) && t.procs[p].state == Ready && FirstBest(t.procs, t.current, b) && b != p
    ensures Distance(|t.procs|, b, p) < Distance(|t.procs|, t.current, p)
  {
  }

  /** Starvation: with two others of better priority a process never gets its turn. */
  lemma {:induction false} Starves(t: Table, p: nat, a: nat, b: nat, k: nat)
    requires Busy(t) && p < |t.procs| && a < |t.procs| && b < |t.procs| && a != b && p != t.current
    requires t.procs[a].priority < t.procs[p].priority && t.procs[b].priority < t.procs[p].priority
    ensures Ticks(t, k).current != p
    decreases k
  {
    if k > 0 {
      BusyTick(t);
      hide Tick;
      var ready := if a == t.current then b else a;
      assert t.procs[ready].state == Ready;
      Starves(Tick(t), p, a, b, k - 1);
    }
  }

  /** `a` is the one process with a smaller priority number than `p`. */
  ghost predicate OnlyBetter(t: Table, p: nat, a: nat)
    requires p < |t.procs|
  {
    && a < |t.procs|
    && forall i :: 0 <= i < |t.procs| ==> (t.procs[i].priority < t.procs[p].priority <==> i == a)
  }

  /** Going around the table from `a`, `p` is the first process of its own priority. */
  ghost predicate FirstAfter(t: Table, p: nat, a: nat)
    requires p < |t.procs| && a < |t.procs|
  {
    forall q :: 0 <= q < |t.procs| && t.procs[q].priority == t.procs[p].priority ==>
                  Distance(|t.procs|, a, p) <= Distance(|t.procs|, a, q)
  }

  /** Who ever runs: a waiting process gets the processor at some later tick exactly when nobody has a
      smaller priority number, or one process has and this one is the first of its priority after it. */
  lemma RunsEver(t: Table, p: nat)
    requires Busy(t) && p < |t.procs| && p != t.current
    ensures (exists k :: k > 0 && Ticks(t, k).current == p) <==>
            Foremost(t, p) || exists a :: OnlyBetter(t, p, a) && FirstAfter(t, p, a)
  {
    if Foremost(t, p) {
      BoundedWaiting(t, p);
    } else if a :| OnlyBetter(t, p, a) && FirstAfter(t, p, a) {
      RunsBehind(t, p, a);
    } else {
      var a :| 0 <= a < |t.procs| && t.procs[a].priority < t.procs[p].priority;
      forall k | k > 0
        ensures Ticks(t, k).current != p
      {
        if b :| 0 <= b < |t.procs| && b != a && t.procs[b].priority < t.procs[p].priority {
          Starves(t, p, a, b, k);
        } else {
          assert OnlyBetter(t, p, a) && !FirstAfter(t, p, a);
          var q :| 0 <= q < |t.procs| && t.procs[q].priority == t.procs[p].priority
                   && Distance(|t.procs|, a, q) < Distance(|t.procs|, a, p);
          Overtaken(t, p, a, q, k);
        }
      }
    }
  }

  /** With one better process, the first of its priority behind it runs within two slices. */
  lemma RunsBehind(t: Table, p: nat, a: nat)
    requires Busy(t) && p < |t.procs| && p != t.current && OnlyBetter(t, p, a) && FirstAfter(t, p, a)
    ensures exists k :: 0 < k <= 2 * DEFAULT_TIME_SLICE && Ticks(t, k).current == p
  {
    var k := RunsSecond(t, p, a);
  }

  /** The rest of the current slice, and the slice of `a` if it is not running yet. */
  function SecondWait(t: Table, a: nat): nat
    requires t.current < |t.procs|
  {
    var slice := t.procs[t.current].timeSlice;
    (if slice == 0 then 1 else slice) + if t.current == a then 0 else DEFAULT_TIME_SLICE
  }

  lemma {:induction false} RunsSecond(t: Table, p: nat, a: nat) returns (k: nat)
    requires Busy(t) && p < |t.procs| && p != t.current && OnlyBetter(t, p, a) && FirstAfter(t, p, a)
    ensures 0 < k <= SecondWait(t, a) && Ticks(t, k).current == p
    decreases SecondWait(t, a)
  {
    var t' := Tick(t);
    BusyTick(t);
    if t'.current != t.current { SecondBest(t, p, a, t'.current); }
    hide Tick, Busy;
    if t'.current == p {
      k := 1;
      assert Ticks(t, 1) == Ticks(t', 0);
    } else {
      var k' := RunsSecond(t', p, a);
      k := k' + 1;
    }
  }

  /** From `a` the processor goes to `p`, and from anyone else to `a`. */
  lemma SecondBest(t: Table, p: nat, a: nat, b: nat)
    requires Busy(t) && p < |t.procs| && p != t.current && OnlyBetter(t, p, a) && FirstAfter(t, p, a)
    requires FirstBest(t.procs, t.current, b)
    ensures b == if t.current == a then p else a
  {
    if t.current == a {
      assert Around(|t.procs|, a, Distance(|t.procs|, a, p)) == p && Around(|t.procs|, a, Distance(|t.procs|, a, b)) == b;
      assert t.procs[p].state == Ready;
    } else {
      assert t.procs[a].state == Ready;
    }
  }

  /** Behind one better process only the first of a priority runs: `q` always comes before `p`. */
  lemma {:induction false} Overtaken(t: Table, p: nat, a: nat, q: nat, k: nat)
    requires Busy(t) && p < |t.procs| && a < |t.procs| && q < |t.procs| && p != t.current
    requires t.procs[a].priority < t.procs[p].priority == t.procs[q].priority
    requires Distance(|t.procs|, a, q) < Distance(|t.procs|, a, p)
    ensures Ticks(t, k).current != p
    decreases k
  {
    if k > 0 {
      BusyTick(t);
      hide Tick;
      var ready := if a == t.current then q else a;
      assert t.procs[ready].state == Ready;
      Overtaken(Tick(t), p, a, q, k - 1);
    }
  }
}
