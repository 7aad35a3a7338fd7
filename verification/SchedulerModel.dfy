/** The process table and its operations as functions, and what they mean over whole runs. */
module SchedulerModel {
  import opened Options

  const MAX_PROCESS_COUNT: nat := 255
  const DEFAULT_TIME_SLICE: nat := 3
  const U32: nat := 0x1_0000_0000

  datatype ProcessState = Ready | Running | Blocked | Terminated

  /** `stackBase` and `entryPoint` are addresses, 0 for NULL. */
  datatype Process = Process(pid: nat, state: ProcessState, priority: nat, timeSlice: nat, cpuTimeUsed: nat,
                             stackBase: nat, entryPoint: nat)

  /** The processes in slot order; slots beyond them hold nothing the scheduler reads. */
  datatype Table = Table(procs: seq<Process>, current: nat, nextPid: nat)

  // ---- Process identifiers ----

  /** get_process_by_pid: the first slot from `i` on with this identifier. */
  function FindPid(procs: seq<Process>, pid: nat, i: nat): (r: Option<nat>)
    ensures r.Some? ==> i <= r.value < |procs| && procs[r.value].pid == pid
    ensures r.Some? ==> forall j :: i <= j < r.value ==> procs[j].pid != pid
    ensures r.None? ==> forall j :: i <= j < |procs| ==> procs[j].pid != pid
    decreases |procs| - i
  {
    if i >= |procs| then None else if procs[i].pid == pid then Some(i) else FindPid(procs, pid, i + 1)
  }

  /** The identifier after `pid`: 32-bit increment that skips 0. */
  function NextPid(pid: nat): nat {
    if (pid + 1) % U32 == 0 then 1 else (pid + 1) % U32
  }

  /** `start` moved on `k` times. */
  function PidAt(start: nat, k: nat): nat {
    if k == 0 then start else NextPid(PidAt(start, k - 1))
  }

  predicate IsPid(pid: nat) {
    1 <= pid < U32
  }

  /** The search visits pairwise different identifiers. */
  lemma {:induction false} PidAtIs(start: nat, k: nat)
    requires IsPid(start) && k < U32 - 1
    ensures PidAt(start, k) == if start + k < U32 then start + k else start + k - (U32 - 1)
    decreases k
  {
    if k > 0 { PidAtIs(start, k - 1); }
  }

  function Pids(procs: seq<Process>): set<nat> {
    set i | 0 <= i < |procs| :: procs[i].pid
  }

  function Visited(start: nat, n: nat): set<nat> {
    set k | 0 <= k < n :: PidAt(start, k)
  }

  lemma {:induction false} VisitedSize(start: nat, n: nat)
    requires IsPid(start) && n < U32
    ensures |Visited(start, n)| == n
    decreases n
  {
    if n == 0 {
      assert Visited(start, n) == {};
    } else {
      VisitedSize(start, n - 1);
      var last := PidAt(start, n - 1);
      PidAtIs(start, n - 1);
      forall k | 0 <= k < n - 1
        ensures PidAt(start, k) != last
      {
        PidAtIs(start, k);
      }
      assert Visited(start, n) == Visited(start, n - 1) + {last};
    }
  }

  lemma {:induction false} PidsSize(procs: seq<Process>)
    ensures |Pids(procs)| <= |procs|
    decreases |procs|
  {
    if procs == [] {
      assert Pids(procs) == {};
    } else {
      var front := procs[..|procs| - 1];
      PidsSize(front);
      forall p | p in Pids(procs)
        ensures p in Pids(front) + {procs[|procs| - 1].pid}
      {
        var i :| 0 <= i < |procs| && procs[i].pid == p;
        if i < |front| { assert front[i].pid == p; }
      }
      assert Pids(procs) <= Pids(front) + {procs[|procs| - 1].pid};
      Smaller(Pids(procs), Pids(front) + {procs[|procs| - 1].pid});
    }
  }

  lemma Smaller(a: set<nat>, b: set<nat>)
    requires a <= b
    ensures |a| <= |b|
  {
    assert b == a + (b - a);
  }

  /** Pigeonhole: a search over more identifiers than there are processes meets a free one. */
  lemma SearchEnds(procs: seq<Process>, start: nat)
    requires IsPid(start) && |procs| < U32 - 1
    ensures exists k :: 0 <= k <= |procs| && PidAt(start, k) !in Pids(procs)
  {
    var n := |procs| + 1;
    if forall k :: 0 <= k < n ==> PidAt(start, k) in Pids(procs) {
      VisitedSize(start, n);
      PidsSize(procs);
      Smaller(Visited(start, n), Pids(procs));
      assert false;
    }
  }

  /** How many steps the search of create_process takes from its `k`-th on. */
  function FreshSteps(procs: seq<Process>, start: nat, k: nat): (n: nat)
    requires IsPid(start) && |procs| < U32 - 1 && k <= |procs|
    requires forall j :: 0 <= j < k ==> PidAt(start, j) in Pids(procs)
    ensures k <= n <= |procs| && PidAt(start, n) !in Pids(procs)
    ensures forall j :: 0 <= j < n ==> PidAt(start, j) in Pids(procs)
    decreases |procs| - k
  {
    SearchEnds(procs, start);
    if PidAt(start, k) !in Pids(procs) then k else FreshSteps(procs, start, k + 1)
  }

  /** The identifier create_process picks. */
  function FreshPid(procs: seq<Process>, start: nat): nat
    requires IsPid(start) && |procs| < U32 - 1
  {
    PidAt(start, FreshSteps(procs, start, 0))
  }

  lemma FreshPidFresh(procs: seq<Process>, start: nat)
    requires IsPid(start) && |procs| < U32 - 1
    ensures IsPid(FreshPid(procs, start)) && FindPid(procs, FreshPid(procs, start), 0) == None
  {
    var n := FreshSteps(procs, start, 0);
    PidAtIs(start, n);
    FoundListed(procs, PidAt(start, n));
  }

  /** The search takes the first unused identifier from `start` on, around from 2^32 - 1 to 1. */
  lemma FreshPidFirst(procs: seq<Process>, start: nat, q: nat)
    requires IsPid(start) && |procs| < U32 - 1
    requires var pid := FreshPid(procs, start);
             if start <= pid then start <= q < pid else start <= q < 0x1_0000_0000 || 1 <= q < pid
    ensures exists p :: p in procs && p.pid == q
  {
    var n := FreshSteps(procs, start, 0);
    PidAtIs(start, n);
    var k := if q >= start then q - start else q + (U32 - 1) - start;
    PidAtIs(start, k);
    assert PidAt(start, k) in Pids(procs);
    hide FreshSteps, PidAt;
    var i :| 0 <= i < |procs| && procs[i].pid == q;
    assert procs[i] in procs;
  }

  lemma FoundListed(procs: seq<Process>, pid: nat)
    ensures FindPid(procs, pid, 0).Some? <==> pid in Pids(procs)
  {
  }

  // ---- Operations ----

  /** scheduler_init, given what kmalloc returned for the kernel stack. */
  function Init(stack: nat): Option<Table> {
    if stack == 0 then None
    else Some(Table([Process(0, Running, 0, DEFAULT_TIME_SLICE, 0, stack, 0)], 0, 1))
  }

  /** The C conversion of an unsigned 32-bit identifier to the int that create_process returns. */
  function AsInt(pid: nat): int {
    if pid < 0x8000_0000 then pid else pid - U32
  }

  function Create(t: Table, entryPoint: nat, priority: nat, stack: nat): (Table, int)
    requires IsPid(t.nextPid)
  {
    if |t.procs| >= MAX_PROCESS_COUNT || entryPoint == 0 || stack == 0 then (t, -1)
    else
      var pid := FreshPid(t.procs, t.nextPid);
      var p := Process(pid, Ready, priority, DEFAULT_TIME_SLICE, 0, stack, entryPoint);
      (Table(t.procs + [p], t.current, NextPid(pid)), AsInt(pid))
  }

  /** Slot `i` removed, and the current index adjusted: past the end it falls back to 0. */
  function Without(t: Table, i: nat): Table
    requires i < |t.procs|
  {
    var procs := t.procs[..i] + t.procs[i + 1..];
    var current := if t.current >= |procs| then 0 else if t.current > i then t.current - 1 else t.current;
    Table(procs, current, t.nextPid)
  }

  function Terminate(t: Table, pid: nat): Table {
    var i := FindPid(t.procs, pid, 0);
    if pid == 0 || i == None then t else Without(t, i.value)
  }

  function WithState(t: Table, i: nat, state: ProcessState): Table
    requires i < |t.procs|
  {
    t.(procs := t.procs[i := t.procs[i].(state := state)])
  }

  function Block(t: Table, pid: nat): Table {
    var i := FindPid(t.procs, pid, 0);
    if i.Some? && t.procs[i.value].state == Running then WithState(t, i.value, Blocked) else t
  }

  function Unblock(t: Table, pid: nat): Table {
    var i := FindPid(t.procs, pid, 0);
    if i.Some? && t.procs[i.value].state == Blocked then WithState(t, i.value, Ready) else t
  }

  // ---- Choosing the next process ----

  /** The slot `i + 1` places after `current`, around the table. */
  function Around(n: nat, current: nat, i: nat): (idx: nat)
    requires current < n && i < n
    ensures idx < n
  {
    if current + 1 + i < n then current + 1 + i else current + 1 + i - n
  }

  /** How many places `Around` needs to get from `current` to slot `idx`. */
  function Distance(n: nat, current: nat, idx: nat): (i: nat)
    requires current < n && idx < n
    ensures i < n && Around(n, current, i) == idx
  {
    if idx > current then idx - current - 1 else idx + n - current - 1
  }

  /** The choice among the first `i` slots after `current`. */
  function BestOf(procs: seq<Process>, current: nat, i: nat): (b: Option<nat>)
    requires current < |procs| && i <= |procs|
    ensures b.Some? ==> b.value < |procs|
  {
    if i == 0 then None
    else
      var b := BestOf(procs, current, i - 1);
      var idx := Around(|procs|, current, i - 1);
      if procs[idx].state == Ready && (b == None || procs[idx].priority < procs[b.value].priority) then Some(idx) else b
  }

  /** find_next_process on a table of at least one process. */
  function FindNext(t: Table): (r: nat)
    requires t.current < |t.procs|
    ensures r < |t.procs|
  {
    if |t.procs| == 1 then 0
    else
      var b := BestOf(t.procs, t.current, |t.procs|);
      if b.Some? then b.value else if t.procs[t.current].state == Running then t.current else 0
  }

  /** `idx` is ready, no ready process has a lower priority number, and among those with the same number
      it is scanned first. */
  ghost predicate FirstBest(procs: seq<Process>, current: nat, idx: nat)
    requires current < |procs|
  {
    && idx < |procs| && procs[idx].state == Ready
    && forall j :: 0 <= j < |procs| && procs[j].state == Ready ==>
                     procs[idx].priority <= procs[j].priority
                     && (procs[idx].priority == procs[j].priority ==> NoLater(current, idx, j))
  }

  /** Slot `i` is scanned before slot `j`, or is the same: first come the slots behind the current one, then
      those from 0 up to the current one itself. */
  predicate NoLater(current: nat, i: nat, j: nat) {
    if i > current then j <= current || i <= j else i <= j <= current
  }

  lemma {:induction false} BestOfIs(procs: seq<Process>, current: nat, i: nat)
    requires current < |procs| && i <= |procs|
    ensures var n, b := |procs|, BestOf(procs, current, i);
            && (b == None ==> forall j :: 0 <= j < i ==> procs[Around(n, current, j)].state != Ready)
            && (b.Some? ==>
                  && procs[b.value].state == Ready && Distance(n, current, b.value) < i
                  && forall j :: 0 <= j < i && procs[Around(n, current, j)].state == Ready ==>
                                   procs[b.value].priority <= procs[Around(n, current, j)].priority
                                   && (procs[b.value].priority == procs[Around(n, current, j)].priority ==>
                                         Distance(n, current, b.value) <= j))
    decreases i
  {
    if i > 0 { BestOfIs(procs, current, i - 1); }
  }

  /** find_next_process returns the first ready process of minimum priority number in cyclic order; with
      none ready it stays with a running current process and otherwise falls back to slot 0. */
  lemma FindNextIsFirstBest(t: Table)
    requires t.current < |t.procs| && |t.procs| > 1
    ensures (exists j :: 0 <= j < |t.procs| && t.procs[j].state == Ready) ==> FirstBest(t.procs, t.current, FindNext(t))
    ensures (forall j :: 0 <= j < |t.procs| ==> t.procs[j].state != Ready) ==>
              FindNext(t) == if t.procs[t.current].state == Running then t.current else 0
    ensures forall idx :: FirstBest(t.procs, t.current, idx) ==> FindNext(t) == idx
  {
    var n, b := |t.procs|, BestOf(t.procs, t.current, |t.procs|);
    BestOfIs(t.procs, t.current, n);
    forall j | 0 <= j < n && t.procs[j].state == Ready
      ensures b.Some? && t.procs[b.value].priority <= t.procs[j].priority
      ensures t.procs[b.value].priority == t.procs[j].priority ==>
                Distance(n, t.current, b.value) <= Distance(n, t.current, j)
    {
      assert Around(n, t.current, Distance(n, t.current, j)) == j;
    }
    forall idx | FirstBest(t.procs, t.current, idx)
      ensures FindNext(t) == idx
    {
      assert Around(n, t.current, Distance(n, t.current, idx)) == Around(n, t.current, Distance(n, t.current, b.value));
    }
  }
}
