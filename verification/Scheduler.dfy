/** scheduler.c as it runs: a fixed array of processes updated in place. */
module Scheduler {
  import opened Options
  import opened SchedulerModel
  import opened SchedulerRuns

  const U32_MAX: nat := 0xFFFF_FFFF

  class ProcessTable {
    const processes: array<Process>
    var processCount: nat
    var currentProcess: nat
    var nextPid: nat
    var initialized: bool

    ghost predicate Valid()
      reads this, processes
    {
      && processes.Length == MAX_PROCESS_COUNT && processCount <= processes.Length
      && (initialized ==> Inv(Contents()))
    }

    ghost function Contents(): Table
      reads this, processes
      requires processCount <= processes.Length
    {
      Table(processes[..processCount], currentProcess, nextPid)
    }

    /** The zeroed static table. */
    constructor ()
      ensures Valid() && !initialized && fresh(processes)
    {
      processes := new Process[MAX_PROCESS_COUNT](_ => Process(0, Ready, 0, 0, 0, 0, 0));
      processCount, currentProcess, nextPid, initialized := 0, 0, 0, false;
    }

    /** scheduler_init, given what kmalloc returns. */
    method Init(stack: nat)
      requires Valid()
      modifies this, processes
      ensures Valid()
      ensures old(initialized) ==> initialized && Contents() == old(Contents())
      ensures !old(initialized) ==> initialized == (stack != 0)
      ensures !old(initialized) && initialized ==> SchedulerModel.Init(stack) == Some(Contents())
    {
      if initialized { return; }
      nextPid, currentProcess, processCount := 1, 0, 0;
      if stack == 0 { return; }
      processes[0] := Process(0, Running, 0, DEFAULT_TIME_SLICE, 0, stack, 0);
      processCount := 1;
      initialized := true;
      assert processes[..1] == [processes[0]];
      InitInv(stack);
    }

    /** get_process_by_pid: the slot, for the pointer of the original. */
    method GetProcessByPid(pid: nat) returns (slot: Option<nat>)
      requires Valid()
      ensures slot == if initialized then FindPid(processes[..processCount], pid, 0) else None
    {
      if !initialized { return None; }
      var i := 0;
      while i < processCount
        invariant 0 <= i <= processCount
        invariant FindPid(processes[..processCount], pid, i) == FindPid(processes[..processCount], pid, 0)
      {
        if processes[i].pid == pid { return Some(i); }
        i := i + 1;
      }
      return None;
    }

    /** create_process, given what kmalloc returns; it is asked only when the other checks pass. */
    method CreateProcess(entryPoint: nat, priority: nat, stack: nat) returns (code: int)
      requires Valid()
      modifies this, processes
      ensures Valid() && initialized == old(initialized)
      ensures !initialized ==> code == -1 && Contents() == old(Contents())
      ensures initialized ==> (Contents(), code) == Create(old(Contents()), entryPoint, priority, stack)
    {
      if !initialized { return -1; }
      ghost var t := Contents();
      CreateKeeps(t, entryPoint, priority, stack);
      assert IsPid(t.nextPid);
      hide Inv, FreshPid, FreshSteps, FindPid;
      if processCount >= MAX_PROCESS_COUNT { return -1; }
      if entryPoint == 0 { return -1; }
      if stack == 0 { return -1; }
      var pid := FindFreePid();
      Append(Process(pid, Ready, priority, DEFAULT_TIME_SLICE, 0, stack, entryPoint));
      return AsInt(pid);
    }

    /** A new process in the last slot, and the next identifier to try. */
    method Append(p: Process)
      requires processCount < processes.Length
      modifies this, processes
      ensures processCount == old(processCount) + 1 && initialized == old(initialized)
      ensures Contents() == old(Table(processes[..processCount] + [p], currentProcess, NextPid(p.pid)))
    {
      processes[processCount] := p;
      nextPid := (p.pid + 1) % U32;
      if nextPid == 0 { nextPid := 1; }
      processCount := processCount + 1;
    }

    /** The search for an unused identifier; pigeonhole bounds it by the number of processes. */
    method FindFreePid() returns (pid: nat)
      requires Valid() && initialized && processCount < MAX_PROCESS_COUNT
      ensures IsPid(nextPid) && pid == FreshPid(processes[..processCount], nextPid)
    {
      ghost var procs, k := processes[..processCount], 0;
      assert IsPid(nextPid) && Contents().procs == procs;
      hide *;
      SearchStarts(procs, nextPid);
      pid := nextPid;
      while true
        invariant Searching(procs, nextPid, pid, k)
        decreases StepsLeft(procs, nextPid, k)
      {
        var slot := GetProcessByPid(pid);
        SearchGoesOn(procs, nextPid, pid, k);
        if slot == None { break; }
        pid := (pid + 1) % U32;
        if pid == 0 { pid := 1; }
        k := k + 1;
      }
    }

    /** terminate_process. The invariant is lost exactly by the termination that loses track. */
    method TerminateProcess(pid: nat)
      requires Valid()
      modifies this, processes
      ensures processCount <= processes.Length && initialized == old(initialized)
      ensures Valid() <==> !old(initialized && LosesTrack(Contents(), pid))
      ensures Contents() == if initialized then Terminate(old(Contents()), pid) else old(Contents())
    {
      if !initialized { return; }
      ghost var t := Contents();
      TerminateKeeps(t, pid);
      TerminateCases(t, pid);
      hide Inv, LosesTrack, FindPid, Terminate;
      if pid == 0 { return; }
      var slot := GetProcessByPid(pid);
      if slot == None { return; }
      Remove(slot.value);
    }

    /** Slot `i` goes, and the current index follows or falls back to 0. */
    method Remove(i: nat)
      requires i < processCount <= processes.Length
      modifies this, processes
      ensures processCount == old(processCount) - 1 && initialized == old(initialized)
      ensures Contents() == Without(old(Contents()), i)
    {
      ShiftDown(i);
      processCount := processCount - 1;
      if currentProcess >= processCount {
        currentProcess := 0;
      } else if currentProcess > i {
        currentProcess := currentProcess - 1;
      }
    }

    /** The processes after slot `i` move down by one. */
    method ShiftDown(i: nat)
      requires i < processCount <= processes.Length
      modifies processes
      ensures var procs := old(processes[..processCount]);
              processes[..processCount - 1] == procs[..i] + procs[i + 1..]
    {
      ghost var procs := processes[..processCount];
      var j := i;
      while j < processCount - 1
        invariant i <= j < processCount
        invariant forall k :: 0 <= k < i ==> processes[k] == procs[k]
        invariant forall k :: i <= k < j ==> processes[k] == procs[k + 1]
        invariant forall k :: j < k < processCount ==> processes[k] == procs[k]
      {
        processes[j] := processes[j + 1];
        j := j + 1;
      }
    }

    /** A store to one slot. */
    method SetSlot(i: nat, p: Process)
      requires i < processCount <= processes.Length
      modifies processes
      ensures processes[..processCount] == old(processes[..processCount])[i := p]
    {
      processes[i] := p;
    }

    method BlockProcess(pid: nat)
      requires Valid()
      modifies processes
      ensures Valid()
      ensures Contents() == if initialized then Block(old(Contents()), pid) else old(Contents())
    {
      ghost var t := Contents();
      if initialized { BlockKeeps(t, pid); }
      hide Inv;
      var slot := GetProcessByPid(pid);
      if slot.Some? && processes[slot.value].state == Running {
        SetSlot(slot.value, processes[slot.value].(state := Blocked));
        assert Contents() == WithState(t, slot.value, Blocked);
      }
    }

    method UnblockProcess(pid: nat)
      requires Valid()
      modifies processes
      ensures Valid()
      ensures Contents() == if initialized then Unblock(old(Contents()), pid) else old(Contents())
    {
      ghost var t := Contents();
      if initialized { BlockKeeps(t, pid); }
      hide Inv;
      var slot := GetProcessByPid(pid);
      if slot.Some? && processes[slot.value].state == Blocked {
        SetSlot(slot.value, processes[slot.value].(state := Ready));
        assert Contents() == WithState(t, slot.value, Ready);
      }
    }

    /** find_next_process: -1 for an empty table. */
    method FindNextProcess() returns (next: int)
      requires processCount <= processes.Length && (processCount > 0 ==> currentProcess < processCount)
      ensures processCount == 0 ==> next == -1
      ensures processCount > 0 ==> next == FindNext(Contents())
    {
      if processCount == 0 { return -1; }
      if processCount == 1 { return 0; }
      var current, bestIdx, bestPriority := currentProcess, -1, U32_MAX;
      ghost var procs := processes[..processCount];
      var i := 0;
      while i < processCount
        invariant 0 <= i <= processCount
        invariant BestOf(procs, current, i) == if bestIdx == -1 then None else Some(bestIdx)
        invariant bestIdx == -1 || (0 <= bestIdx < processCount && bestPriority == procs[bestIdx].priority)
      {
        var idx := (current + 1 + i) % processCount;
        AroundIsMod(processCount, current, i);
        var p := processes[idx];
        i := i + 1;
        if p.state != Ready { continue; }
        if bestIdx == -1 || p.priority < bestPriority {
          bestIdx := idx;
          bestPriority := p.priority;
        }
      }
      if bestIdx != -1 { return bestIdx; }
      if processes[current].state == Running { return current; }
      return 0;
    }

    /** change_process up to the context switch. */
    method ChangeProcess()
      requires Valid()
      modifies this, processes
      ensures Valid() && initialized == old(initialized)
      ensures Contents() == if initialized then Tick(old(Contents())) else old(Contents())
    {
      if !initialized { return; }
      ghost var t := Contents();
      TickKeeps(t);
      TickCases(t);
      hide Inv, FindNext, Tick, SwitchTo;
      if processCount <= 1 { return; }
      var current := ChargeCurrent();
      if current.timeSlice > 0 && current.state == Running { return; }
      var next := FindNextProcess();
      Switch(next);
    }

    /** The first part of change_process: the running process is charged its tick. */
    method ChargeCurrent() returns (current: Process)
      requires currentProcess < processCount <= processes.Length
      modifies processes
      ensures Contents() == Charged(old(Contents())) && current == processes[currentProcess]
    {
      current := processes[currentProcess];
      if current.timeSlice > 0 {
        current := current.(timeSlice := current.timeSlice - 1, cpuTimeUsed := (current.cpuTimeUsed + 1) % U32);
      }
      SetSlot(currentProcess, current);
    }

    /** The second half of change_process. */
    method Switch(next: int)
      requires currentProcess < processCount <= processes.Length && 0 <= next < processCount
      modifies this, processes
      ensures processCount == old(processCount) && initialized == old(initialized)
      ensures Contents() == SwitchTo(old(Contents()), next)
    {
      var current := processes[currentProcess];
      if next == -1 || next == currentProcess {
        SetSlot(currentProcess, current.(timeSlice := DEFAULT_TIME_SLICE));
        return;
      }
      if current.state == Running { current := current.(state := Ready); }
      SetSlot(currentProcess, current.(timeSlice := DEFAULT_TIME_SLICE));
      SetSlot(next, processes[next].(timeSlice := DEFAULT_TIME_SLICE, state := Running));
      currentProcess := next;
    }

    method YieldProcess()
      requires Valid()
      modifies this, processes
      ensures Valid() && initialized == old(initialized)
      ensures Contents() == if initialized then Yield(old(Contents())) else old(Contents())
    {
      if initialized && currentProcess < processCount {
        ghost var t := Contents();
        OneProcess(t, Yielding(t));
        assert t.current < |t.procs|;
        hide Inv;
        var p := processes[currentProcess];
        if p.state == Running { p := p.(state := Ready); }
        SetSlot(currentProcess, p.(timeSlice := 0));
        assert Contents() == Yielding(t);
      }
      ChangeProcess();
    }
  }

  /** The search has moved on `k` times to `pid` and not passed the identifier it is to find. */
  ghost predicate Searching(procs: seq<Process>, start: nat, pid: nat, k: nat) {
    && IsPid(start) && |procs| < U32 - 1
    && IsPid(pid) && pid == PidAt(start, k) && k <= FreshSteps(procs, start, 0)
  }

  ghost function StepsLeft(procs: seq<Process>, start: nat, k: nat): int {
    if IsPid(start) && |procs| < U32 - 1 then FreshSteps(procs, start, 0) - k else 0
  }

  lemma SearchStarts(procs: seq<Process>, start: nat)
    requires IsPid(start) && |procs| < U32 - 1
    ensures Searching(procs, start, start, 0)
  {
  }

  lemma SearchGoesOn(procs: seq<Process>, start: nat, pid: nat, k: nat)
    requires Searching(procs, start, pid, k)
    ensures IsPid(start) && |procs| < U32 - 1
    ensures FindPid(procs, pid, 0) == None ==> pid == FreshPid(procs, start)
    ensures FindPid(procs, pid, 0) != None ==>
              && Searching(procs, start, if (pid + 1) % U32 == 0 then 1 else (pid + 1) % U32, k + 1)
              && 0 <= StepsLeft(procs, start, k + 1) < StepsLeft(procs, start, k)
  {
    hide FindPid, Pids, FreshSteps;
    FoundListed(procs, pid);
  }

  lemma TerminateCases(t: Table, pid: nat)
    ensures var i := FindPid(t.procs, pid, 0);
            Terminate(t, pid) == if pid == 0 || i == None then t else Without(t, i.value)
  {
  }

  lemma TickCases(t: Table)
    requires Inv(t)
    ensures t.current < |t.procs|
    ensures |t.procs| <= 1 ==> Tick(t) == t
    ensures var p := Charge(t.procs[t.current]);
            |t.procs| > 1 ==> Tick(t) == if p.timeSlice > 0 && p.state == Running then Charged(t) else SwitchTo(Charged(t), FindNext(Charged(t)))
  {
  }

  lemma AroundIsMod(n: nat, current: nat, i: nat)
    requires current < n && i < n
    ensures (current + 1 + i) % n == Around(n, current, i)
  {
    if current + 1 + i >= n {
      ModOnce(n, current + 1 + i - n);
    }
  }

  lemma ModOnce(n: nat, r: nat)
    requires r < n
    ensures (n + r) % n == r
  {
    assert (n + r) / n == 1;
  }
}
