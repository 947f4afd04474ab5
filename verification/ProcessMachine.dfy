/** The life of processes and the round-robin scheduler of kernel/src, as a machine whose
    steps are the points where control passes between a process and the scheduler. */
module ProcessMachine {
  import opened Wrappers

  datatype ProcessState = Ready | Running | Terminated(status: int) | Waiting(waitingFor: nat)

  datatype Proc = Proc(state: ProcessState, parent: Option<nat>)

  /** `pids` is the scheduler's queue; `current` is the process dispatched last, and
      `onCpu` tells whether it or the scheduler is executing. */
  datatype Machine = Machine(procs: map<nat, Proc>, pids: seq<nat>, lastPid: nat, current: Option<nat>, onCpu: bool)

  datatype Step = Dispatch | Idle | Yield | Spawn(wait: bool) | SpawnFails | Exit(status: int)

  predicate IsReady(procs: map<nat, Proc>, p: nat) {
    p in procs && procs[p].state == Ready
  }

  /** `find_ready_process` with `k` turns left: each turn moves the head of the queue to
      its end and stops if that process is ready. */
  function Search(procs: map<nat, Proc>, pids: seq<nat>, k: nat): (seq<nat>, Option<nat>)
    decreases k
  {
    if k == 0 || pids == [] then (pids, None)
    else
      var rotated := pids[1..] + [pids[0]];
      if IsReady(procs, pids[0]) then (rotated, Some(pids[0])) else Search(procs, rotated, k - 1)
  }

  function FindReady(s: Machine): (seq<nat>, Option<nat>) {
    Search(s.procs, s.pids, |s.pids|)
  }

  predicate Enabled(s: Machine, step: Step) {
    match step
    case Dispatch => !s.onCpu && FindReady(s).1.Some?
    case Idle => !s.onCpu && FindReady(s).1.None?
    case _ => s.onCpu && s.current.Some? && s.current.value in s.procs
  }

  function SetState(procs: map<nat, Proc>, p: nat, st: ProcessState): map<nat, Proc>
    requires p in procs
  {
    procs[p := procs[p].(state := st)]
  }

  /** `assign_process`: a new ready process at the end of the queue. */
  function Assign(s: Machine, parent: Option<nat>): Machine {
    var pid := s.lastPid + 1;
    s.(procs := s.procs[pid := Proc(Ready, parent)], pids := s.pids + [pid], lastPid := pid)
  }

  /** The parent of an exiting process is woken if it waits for just that process. */
  function Wake(procs: map<nat, Proc>, parent: Option<nat>, child: nat): map<nat, Proc> {
    if parent.Some? && parent.value in procs && procs[parent.value].state == Waiting(child)
    then SetState(procs, parent.value, Ready)
    else procs
  }

  function Next(s: Machine, step: Step): Machine
    requires Enabled(s, step)
  {
    match step
    case Dispatch =>
      var (pids, pid) := FindReady(s);
      SearchFinds(s.procs, s.pids, |s.pids|);
      s.(procs := SetState(s.procs, pid.value, Running), pids := pids, current := pid, onCpu := true)
    case Idle => s.(pids := FindReady(s).0)
    case Yield =>
      var p := s.current.value;
      s.(procs := if s.procs[p].state == Running then SetState(s.procs, p, Ready) else s.procs, onCpu := false)
    case Spawn(wait) =>
      var q := Assign(s, s.current);
      // the parent keeps the CPU, in state Waiting, until its next yield
      if wait && s.current.value in q.procs
      then q.(procs := SetState(q.procs, s.current.value, Waiting(q.lastPid)))
      else q
    case SpawnFails =>
      // a bad image is noticed only after the new process was queued, without parent
      Assign(s, None)
    case Exit(status) =>
      var p := s.current.value;
      var procs := SetState(s.procs, p, Terminated(status));
      s.(procs := Wake(procs, procs[p].parent, p), onCpu := false)
  }

  lemma {:induction false} SearchFinds(procs: map<nat, Proc>, pids: seq<nat>, k: nat)
    ensures var r := Search(procs, pids, k).1; r.Some? ==> IsReady(procs, r.value)
    decreases k
  {
    if k > 0 && pids != [] && !IsReady(procs, pids[0]) {
      SearchFinds(procs, pids[1..] + [pids[0]], k - 1);
    }
  }

  /* ---------- what the queue search computes ---------- */

  function Rotate(pids: seq<nat>, j: nat): seq<nat>
    requires j <= |pids|
  {
    pids[j..] + pids[..j]
  }

  /** Position `j` holds the first ready process of the queue, and `q` is the queue with
      everything up to it moved behind the rest. */
  ghost predicate FirstReady(procs: map<nat, Proc>, pids: seq<nat>, q: seq<nat>, p: nat, j: nat) {
    j < |pids| && pids[j] == p && IsReady(procs, p) && q == Rotate(pids, j + 1) &&
    forall h :: 0 <= h < j ==> !IsReady(procs, pids[h])
  }

  ghost predicate NoneReady(procs: map<nat, Proc>, pids: seq<nat>) {
    forall h :: 0 <= h < |pids| ==> !IsReady(procs, pids[h])
  }

  /** The search returns the first ready process in queue order and moves everything up
      to it behind the rest; if none is ready the queue is as before. */
  lemma SearchIsFirstReady(procs: map<nat, Proc>, pids: seq<nat>)
    ensures var (q, r) := Search(procs, pids, |pids|);
            if r.Some? then exists j: nat :: FirstReady(procs, pids, q, r.value, j)
            else q == pids && NoneReady(procs, pids)
  {
    SearchFrom(procs, pids, 0);
    assert Rotate(pids, 0) == pids && Rotate(pids, |pids|) == pids;
  }

  lemma {:induction false} SearchFrom(procs: map<nat, Proc>, pids: seq<nat>, i: nat)
    requires i <= |pids|
    requires forall h :: 0 <= h < i ==> !IsReady(procs, pids[h])
    ensures var (q, r) := Search(procs, Rotate(pids, i), |pids| - i);
            if r.Some? then exists j: nat :: FirstReady(procs, pids, q, r.value, j)
            else q == Rotate(pids, |pids|) && NoneReady(procs, pids)
    decreases |pids| - i
  {
    if i < |pids| {
      var r := Rotate(pids, i);
      assert r[0] == pids[i];
      assert r[1..] + [r[0]] == Rotate(pids, i + 1);
      if IsReady(procs, pids[i]) {
        assert FirstReady(procs, pids, Rotate(pids, i + 1), pids[i], i);
      } else {
        SearchFrom(procs, pids, i + 1);
      }
    }
  }

  /* ---------- the invariant ---------- */

  predicate NoDuplicates(pids: seq<nat>) {
    forall i, j :: 0 <= i < j < |pids| ==> pids[i] != pids[j]
  }

  /** The queue holds every process once. */
  ghost predicate QueueIsPermutation(s: Machine) {
    NoDuplicates(s.pids) && (forall p :: p in s.procs <==> p in s.pids)
  }

  predicate PidsAreOld(s: Machine) {
    (forall p :: p in s.procs ==> p <= s.lastPid) &&
    (forall p :: p in s.procs && s.procs[p].parent.Some? ==>
       s.procs[p].parent.value in s.procs && s.procs[p].parent.value < p)
  }

  /** At most one process is running; it is the current one and has the CPU. The process
      on the CPU is running or, having spawned with wait, waiting. */
  predicate OneRunning(s: Machine) {
    (forall p :: p in s.procs && s.procs[p].state == Running ==> s.onCpu && s.current == Some(p)) &&
    (s.onCpu ==> s.current.Some? && s.current.value in s.procs &&
                 (s.procs[s.current.value].state == Running || s.procs[s.current.value].state.Waiting?))
  }

  /** A waiting process waits for a living younger child of its own. */
  predicate WaitsForChild(s: Machine) {
    forall p :: p in s.procs && s.procs[p].state.Waiting? ==>
                  var c := s.procs[p].state.waitingFor;
                  c in s.procs && p < c && !s.procs[c].state.Terminated? && s.procs[c].parent == Some(p)
  }

  ghost predicate Inv(s: Machine) {
    QueueIsPermutation(s) && PidsAreOld(s) && OneRunning(s) && WaitsForChild(s)
  }

  /** The machine after boot: the shell, pid 1, is ready and the scheduler runs. */
  const BOOT := Machine(map[1 := Proc(Ready, None)], [1], 1, None, false)

  /** It is what the first `assign_process` makes of a state without processes. */
  lemma BootIsAssign()
    ensures Assign(Machine(map[], [], 0, None, false), None) == BOOT
  {}

  lemma BootIsFine()
    ensures Inv(BOOT)
  {}

  lemma RotateKeepsMembers(pids: seq<nat>, j: nat)
    requires j <= |pids| && NoDuplicates(pids)
    ensures NoDuplicates(Rotate(pids, j)) && forall p :: p in Rotate(pids, j) <==> p in pids
  {
    assert pids == pids[..j] + pids[j..];
    forall p ensures p in Rotate(pids, j) <==> p in pids {}
  }

  lemma FindKeepsQueue(s: Machine)
    requires QueueIsPermutation(s)
    ensures QueueIsPermutation(s.(pids := FindReady(s).0))
    ensures FindReady(s).1.Some? ==> IsReady(s.procs, FindReady(s).1.value)
  {
    SearchIsFirstReady(s.procs, s.pids);
    hide Search;
    hide NoDuplicates;
    var (q, r) := FindReady(s);
    if r.Some? {
      var j: nat :| FirstReady(s.procs, s.pids, q, r.value, j);
      RotateKeepsMembers(s.pids, j + 1);
    }
  }

  /** A new process enters the queue once. */
  lemma AssignKeepsQueue(s: Machine, parent: Option<nat>)
    requires QueueIsPermutation(s) && PidsAreOld(s)
    ensures QueueIsPermutation(Assign(s, parent))
  {
    assert s.lastPid + 1 !in s.pids;
  }

  /** Every step keeps the invariant. */
  lemma NextKeepsInv(s: Machine, step: Step)
    requires Inv(s) && Enabled(s, step)
    ensures Inv(Next(s, step))
  {
    hide Search;
    match step
    case Dispatch => DispatchKeepsInv(s);
    case Idle => FindKeepsQueue(s);
    case Yield => YieldKeepsInv(s);
    case Spawn(wait) => SpawnKeepsInv(s, step);
    case SpawnFails => SpawnKeepsInv(s, step);
    case Exit(status) => ExitKeepsInv(s, status);
  }

  lemma DispatchUnfolds(s: Machine)
    requires Enabled(s, Dispatch)
    ensures var (pids, p) := FindReady(s);
            p.value in s.procs &&
            Next(s, Dispatch) ==
            s.(procs := SetState(s.procs, p.value, Running), pids := pids, current := p, onCpu := true)
  {
    hide Search;
    SearchFinds(s.procs, s.pids, |s.pids|);
  }

  lemma YieldUnfolds(s: Machine)
    requires Enabled(s, Yield)
    ensures var p := s.current.value;
            Next(s, Yield) ==
            s.(procs := if s.procs[p].state == Running then SetState(s.procs, p, Ready) else s.procs, onCpu := false)
  {}

  lemma IdleUnfolds(s: Machine)
    requires Enabled(s, Idle)
    ensures Next(s, Idle) == s.(pids := FindReady(s).0)
  {}

  lemma SpawnUnfolds(s: Machine, step: Step)
    requires PidsAreOld(s) && Enabled(s, step) && (step.Spawn? || step.SpawnFails?)
    ensures var c, p := s.lastPid + 1, s.current.value;
            var a := Assign(s, None);
            a.procs == s.procs[c := Proc(Ready, None)] && a.lastPid == c && a.current == s.current &&
            (step.SpawnFails? ==> Next(s, step) == a) &&
            (step.Spawn? ==>
               var procs := a.procs[c := Proc(Ready, Some(p))];
               p in procs && Next(s, step) == a.(procs := if step.wait then SetState(procs, p, Waiting(c)) else procs))
  {
    if step.Spawn? {
      var c, p := s.lastPid + 1, s.current.value;
      assert Assign(s, s.current).procs == Assign(s, None).procs[c := Proc(Ready, Some(p))];
    }
  }

  lemma ExitUnfolds(s: Machine, status: int)
    requires Enabled(s, Exit(status))
    ensures var p := s.current.value;
            Next(s, Exit(status)) ==
            s.(procs := Wake(SetState(s.procs, p, Terminated(status)), s.procs[p].parent, p), onCpu := false)
  {}

  lemma QueueIsKnown(s: Machine)
    requires Inv(s)
    ensures forall p :: p in s.pids ==> p in s.procs
  {}

  lemma SearchTurns(procs: map<nat, Proc>, pids: seq<nat>, k: nat)
    ensures Search(procs, pids, k) ==
            if k == 0 || pids == [] then (pids, None)
            else if IsReady(procs, pids[0]) then (pids[1..] + [pids[0]], Some(pids[0]))
            else Search(procs, pids[1..] + [pids[0]], k - 1)
  {}

  lemma NextPidIsNew(s: Machine)
    requires Inv(s)
    ensures s.lastPid + 1 !in s.procs
  {}

  lemma OnCpuIsKnown(s: Machine)
    requires Inv(s) && s.onCpu
    ensures s.current.Some? && s.current.value in s.procs && s.lastPid + 1 !in s.procs && PidsAreOld(s)
  {}

  lemma DispatchKeepsInv(s: Machine)
    requires Inv(s) && Enabled(s, Dispatch)
    ensures Inv(Next(s, Dispatch))
  {
    hide Search;
    hide NoDuplicates;
    hide Next;
    FindKeepsQueue(s);
    DispatchUnfolds(s);
  }

  lemma YieldKeepsInv(s: Machine)
    requires Inv(s) && Enabled(s, Yield)
    ensures Inv(Next(s, Yield))
  {
    hide NoDuplicates;
    hide WaitsForChild;
    hide Next;
    YieldUnfolds(s);
    YieldKeepsWaits(s);
  }

  lemma YieldKeepsWaits(s: Machine)
    requires WaitsForChild(s) && Enabled(s, Yield)
    ensures WaitsForChild(Next(s, Yield))
  {
    hide Next;
    YieldUnfolds(s);
  }

  /** A spawn adds one ready process at the end of the queue and changes nothing else
      but, on request, the state of the parent. */
  lemma SpawnChanges(s: Machine, step: Step)
    requires PidsAreOld(s) && Enabled(s, step) && (step.Spawn? || step.SpawnFails?)
    ensures var t, p, c := Next(s, step), s.current.value, s.lastPid + 1;
            t == s.(procs := t.procs, pids := s.pids + [c], lastPid := c) &&
            t.procs.Keys == s.procs.Keys + {c} && c !in s.procs &&
            t.procs[c] == Proc(Ready, if step.Spawn? then Some(p) else None) &&
            forall q :: q in s.procs ==> t.procs[q].parent == s.procs[q].parent &&
                                         t.procs[q].state == if q == p && step.Spawn? && step.wait then Waiting(c)
                                                             else s.procs[q].state
  {}

  lemma SpawnKeepsInv(s: Machine, step: Step)
    requires Inv(s) && Enabled(s, step) && (step.Spawn? || step.SpawnFails?)
    ensures Inv(Next(s, step))
  {
    hide NoDuplicates;
    hide WaitsForChild;
    hide QueueIsPermutation;
    hide PidsAreOld;
    hide OneRunning;
    hide Next;
    SpawnKeepsQueue(s, step);
    SpawnKeepsPids(s, step);
    SpawnKeepsRunning(s, step);
    SpawnKeepsWaits(s, step);
  }

  lemma SpawnKeepsQueue(s: Machine, step: Step)
    requires QueueIsPermutation(s) && PidsAreOld(s) && Enabled(s, step) && (step.Spawn? || step.SpawnFails?)
    ensures QueueIsPermutation(Next(s, step))
  {
    hide NoDuplicates;
    hide PidsAreOld;
    hide Next;
    hide Assign;
    AssignKeepsQueue(s, None);
    AssignedQueue(s);
    SpawnChanges(s, step);
  }

  lemma SpawnKeepsPids(s: Machine, step: Step)
    requires PidsAreOld(s) && Enabled(s, step) && (step.Spawn? || step.SpawnFails?)
    ensures PidsAreOld(Next(s, step))
  {
    hide Next;
    SpawnChanges(s, step);
  }

  lemma SpawnKeepsRunning(s: Machine, step: Step)
    requires PidsAreOld(s) && OneRunning(s) && Enabled(s, step) && (step.Spawn? || step.SpawnFails?)
    ensures OneRunning(Next(s, step))
  {
    hide Next;
    hide PidsAreOld;
    SpawnChanges(s, step);
  }

  lemma AssignedQueue(s: Machine)
    ensures Assign(s, s.current).pids == Assign(s, None).pids == s.pids + [s.lastPid + 1]
  {}

  lemma SpawnKeepsWaits(s: Machine, step: Step)
    requires PidsAreOld(s) && OneRunning(s) && WaitsForChild(s)
    requires Enabled(s, step) && (step.Spawn? || step.SpawnFails?)
    ensures WaitsForChild(Next(s, step))
  {
    hide Next;
    SpawnChanges(s, step);
  }

  lemma ExitKeepsInv(s: Machine, status: int)
    requires Inv(s) && Enabled(s, Exit(status))
    ensures Inv(Next(s, Exit(status)))
  {
    hide NoDuplicates;
    hide WaitsForChild;
    hide Next;
    ExitKeepsWaits(s, status);
    ExitChanges(s, status);
  }

  /** An exit changes the state of the exiting process and perhaps of its parent. */
  lemma ExitChanges(s: Machine, status: int)
    requires Enabled(s, Exit(status))
    ensures var t, p := Next(s, Exit(status)), s.current.value;
            t.procs.Keys == s.procs.Keys && t == s.(procs := t.procs, onCpu := false) &&
            forall q :: q in s.procs ==> t.procs[q].parent == s.procs[q].parent &&
                                         t.procs[q].state ==
                                         if s.procs[p].parent == Some(q) && q != p && s.procs[q].state == Waiting(p)
                                         then Ready else if q == p then Terminated(status) else s.procs[q].state
  {}

  lemma ExitKeepsWaits(s: Machine, status: int)
    requires PidsAreOld(s) && OneRunning(s) && WaitsForChild(s) && Enabled(s, Exit(status))
    ensures WaitsForChild(Next(s, Exit(status)))
  {
    hide Next;
    ExitChanges(s, status);
    var p := s.current.value;
    var t := Next(s, Exit(status));
    forall q | q in t.procs && t.procs[q].state.Waiting?
      ensures var c := t.procs[q].state.waitingFor;
              c in t.procs && q < c && !t.procs[c].state.Terminated? && t.procs[c].parent == Some(q)
    {
      assert q != p && t.procs[q].state == s.procs[q].state;
    }
  }

  ghost predicate LegalRun(s: Machine, steps: seq<Step>)
    decreases |steps|
  {
    steps == [] || (Enabled(s, steps[0]) && LegalRun(Next(s, steps[0]), steps[1..]))
  }

  ghost function Run(s: Machine, steps: seq<Step>): Machine
    requires LegalRun(s, steps)
    decreases |steps|
  {
    if steps == [] then s else Run(Next(s, steps[0]), steps[1..])
  }

  /** Every run keeps the invariant. */
  lemma {:induction false} RunKeepsInv(s: Machine, steps: seq<Step>)
    requires Inv(s) && LegalRun(s, steps)
    ensures Inv(Run(s, steps))
    decreases |steps|
  {
    if steps != [] {
      NextKeepsInv(s, steps[0]);
      RunKeepsInv(Next(s, steps[0]), steps[1..]);
    }
  }

  /** In every state reached from boot at most one process is running, it is the current
      one, and none is running while the scheduler has control. */
  lemma ReachableRunning(steps: seq<Step>, p: nat, q: nat)
    requires LegalRun(BOOT, steps)
    ensures var s := Run(BOOT, steps);
            (p in s.procs && s.procs[p].state == Running ==> s.onCpu && s.current == Some(p)) &&
            (p in s.procs && q in s.procs && s.procs[p].state == Running && s.procs[q].state == Running ==> p == q) &&
            NoDuplicates(s.pids) && (p in s.procs <==> p in s.pids)
  {
    RunKeepsInv(BOOT, steps);
  }

  /* ---------- no lost wake-up ---------- */

  /** In every state reached from boot a waiting process waits for a living child of its
      own, with a larger pid, so nobody waits in a circle or for a process that is gone. */
  lemma ReachableWaiting(steps: seq<Step>, p: nat)
    requires LegalRun(BOOT, steps)
    requires p in Run(BOOT, steps).procs && Run(BOOT, steps).procs[p].state.Waiting?
    ensures var s := Run(BOOT, steps);
            var c := s.procs[p].state.waitingFor;
            c in s.procs && p < c && !s.procs[c].state.Terminated? && s.procs[c].parent == Some(p)
  {
    RunKeepsInv(BOOT, steps);
  }

  /** Following the wait graph always leads to larger pids, so a process that waits while
      nothing can run leads to a contradiction. */
  lemma {:induction false} WaitChainEnds(s: Machine, p: nat)
    requires Inv(s) && p in s.procs && !s.onCpu
    requires forall q :: q in s.procs ==> s.procs[q].state != Ready
    ensures s.procs[p].state.Terminated?
    decreases s.lastPid - p
  {
    if s.procs[p].state.Waiting? {
      WaitChainEnds(s, s.procs[p].state.waitingFor);
    }
  }

  /** The scheduler finds nothing to run exactly when every process has terminated. */
  lemma IdleIffAllTerminated(steps: seq<Step>)
    requires LegalRun(BOOT, steps) && !Run(BOOT, steps).onCpu
    ensures var s := Run(BOOT, steps);
            FindReady(s).1 == None <==> forall p :: p in s.procs ==> s.procs[p].state.Terminated?
  {
    RunKeepsInv(BOOT, steps);
    var s := Run(BOOT, steps);
    SearchIsFirstReady(s.procs, s.pids);
    SearchFinds(s.procs, s.pids, |s.pids|);
    if FindReady(s).1 == None {
      forall p | p in s.procs ensures s.procs[p].state.Terminated? {
        assert forall q :: q in s.procs ==> q in s.pids;
        assert forall q :: q in s.procs ==> s.procs[q].state != Ready;
        WaitChainEnds(s, p);
      }
    }
  }

  /** A parked waiting process is woken by the exit of the process it waits for, and by
      nothing else. */
  lemma WokenExactlyByExit(s: Machine, step: Step, p: nat)
    requires Inv(s) && Enabled(s, step) && p in s.procs && s.procs[p].state.Waiting?
    requires !(s.onCpu && s.current == Some(p))
    ensures p in Next(s, step).procs
    ensures if step.Exit? && s.current == Some(s.procs[p].state.waitingFor)
            then Next(s, step).procs[p].state == Ready
            else Next(s, step).procs[p] == s.procs[p]
  {
    hide Search;
    hide Next;
    match step
    case Dispatch =>
      DispatchUnfolds(s);
      SearchFinds(s.procs, s.pids, |s.pids|);
    case Idle => IdleUnfolds(s);
    case Yield => YieldUnfolds(s);
    case Exit(status) => ExitChanges(s, status);
    case _ => SpawnChanges(s, step);
  }

  /** A terminated process never changes again. */
  lemma TerminatedIsFinal(s: Machine, step: Step, p: nat)
    requires Inv(s) && Enabled(s, step) && p in s.procs && s.procs[p].state.Terminated?
    ensures p in Next(s, step).procs && Next(s, step).procs[p] == s.procs[p]
  {
    hide Search;
    hide Next;
    match step
    case Dispatch =>
      DispatchUnfolds(s);
      SearchFinds(s.procs, s.pids, |s.pids|);
    case Idle => IdleUnfolds(s);
    case Yield => YieldUnfolds(s);
    case Exit(status) => ExitChanges(s, status);
    case _ => SpawnChanges(s, step);
  }

  lemma {:induction false} TerminatedIsFinalInRuns(s: Machine, steps: seq<Step>, p: nat)
    requires Inv(s) && LegalRun(s, steps) && p in s.procs && s.procs[p].state.Terminated?
    ensures p in Run(s, steps).procs && Run(s, steps).procs[p] == s.procs[p]
    decreases |steps|
  {
    if steps != [] {
      NextKeepsInv(s, steps[0]);
      TerminatedIsFinal(s, steps[0], p);
      TerminatedIsFinalInRuns(Next(s, steps[0]), steps[1..], p);
    }
  }

  /** The status of an exit stays readable for good. */
  lemma ExitStatusStays(s: Machine, status: int, t: Machine, steps: seq<Step>)
    requires Inv(s) && Enabled(s, Exit(status)) && t == Next(s, Exit(status)) && LegalRun(t, steps)
    ensures var p, u := s.current.value, Run(t, steps);
            p in u.procs && u.procs[p].state == Terminated(status)
  {
    hide Run;
    hide LegalRun;
    hide Next;
    hide Inv;
    NextKeepsInv(s, Exit(status));
    ExitChanges(s, status);
    TerminatedIsFinalInRuns(t, steps, s.current.value);
  }

  /* ---------- bounded waiting ---------- */

  /** How many dispatches a run makes before it first dispatches `p`. */
  ghost function DispatchesBefore(s: Machine, steps: seq<Step>, p: nat): nat
    requires LegalRun(s, steps)
    decreases |steps|
  {
    if steps == [] then 0
    else if steps[0] == Dispatch && FindReady(s).1 == Some(p) then 0
    else (if steps[0] == Dispatch then 1 else 0) + DispatchesBefore(Next(s, steps[0]), steps[1..], p)
  }

  ghost predicate Dispatches(s: Machine, steps: seq<Step>, p: nat)
    requires LegalRun(s, steps)
    decreases |steps|
  {
    steps != [] &&
    ((steps[0] == Dispatch && FindReady(s).1 == Some(p)) || Dispatches(Next(s, steps[0]), steps[1..], p))
  }

  function CountDispatches(steps: seq<Step>): nat {
    if steps == [] then 0 else (if steps[0] == Dispatch then 1 else 0) + CountDispatches(steps[1..])
  }

  /** A dispatch either takes the ready process at position `i` or moves it forward; every
      other step leaves it ready and in its place. */
  lemma ReadyMovesForward(s: Machine, step: Step, i: nat) returns (i': nat)
    requires Inv(s) && Enabled(s, step) && i < |s.pids| && IsReady(s.procs, s.pids[i])
    ensures step != Idle
    ensures !(step == Dispatch && FindReady(s).1 == Some(s.pids[i])) ==>
              i' < |Next(s, step).pids| && Next(s, step).pids[i'] == s.pids[i] &&
              IsReady(Next(s, step).procs, s.pids[i]) &&
              i' <= i && (step == Dispatch ==> i' < i)
  {
    hide Search;
    hide Next;
    hide NoDuplicates;
    i' := i;
    SearchIsFirstReady(s.procs, s.pids);
    match step
    case Dispatch =>
      DispatchUnfolds(s);
      if FindReady(s).1 != Some(s.pids[i]) {
        var p := FindReady(s).1.value;
        var j: nat :| FirstReady(s.procs, s.pids, FindReady(s).0, p, j);
        i' := i - (j + 1);
        assert Rotate(s.pids, j + 1)[i'] == s.pids[i];
      }
    case Idle =>
    case Yield => YieldUnfolds(s);
    case Exit(status) => ExitChanges(s, status);
    case _ => SpawnChanges(s, step);
  }

  /** Bounded waiting: a ready process at queue position `i` sees at most `i` dispatches
      of others first, whatever else happens and however many processes are spawned. */
  lemma {:induction false} BoundedWaiting(s: Machine, steps: seq<Step>, i: nat)
    requires Inv(s) && LegalRun(s, steps) && i < |s.pids| && IsReady(s.procs, s.pids[i])
    ensures DispatchesBefore(s, steps, s.pids[i]) <= i
    ensures CountDispatches(steps) > i ==> Dispatches(s, steps, s.pids[i])
    decreases |steps|
  {
    if steps != [] {
      var i' := ReadyMovesForward(s, steps[0], i);
      NextKeepsInv(s, steps[0]);
      if !(steps[0] == Dispatch && FindReady(s).1 == Some(s.pids[i])) {
        BoundedWaiting(Next(s, steps[0]), steps[1..], i');
      }
    }
  }

  ghost predicate Spawned(s: Machine, wait: bool, t: Machine) {
    && s.current.Some?
    && var p, c := s.current.value, s.lastPid + 1;
       && p in s.procs && c !in s.procs && t.procs.Keys == s.procs.Keys + {c}
       && t.procs[c] == Proc(Ready, Some(p))
       && t.procs[p].state == (if wait then Waiting(c) else s.procs[p].state)
       && t.pids == s.pids + [c] && t.pids[|s.pids|] == c
  }

  /** A spawned process has a new pid and its caller as parent, and is ready at the end of
      the queue; with `wait` the caller waits for it. */
  lemma SpawnStarts(s: Machine, wait: bool, t: Machine)
    requires Inv(s) && Enabled(s, Spawn(wait)) && t == Next(s, Spawn(wait))
    ensures Spawned(s, wait, t)
  {
    hide Next;
    hide Inv;
    hide PidsAreOld;
    OnCpuIsKnown(s);
    SpawnChanges(s, Spawn(wait));
  }

  /** It is dispatched within as many dispatches as there were processes, and one more. */
  lemma SpawnedIsDispatched(s: Machine, wait: bool, t: Machine, steps: seq<Step>)
    requires Inv(s) && Enabled(s, Spawn(wait)) && t == Next(s, Spawn(wait)) && LegalRun(t, steps)
    ensures CountDispatches(steps) > |s.pids| ==> Dispatches(t, steps, s.lastPid + 1)
  {
    hide LegalRun;
    hide Dispatches;
    hide Next;
    hide Inv;
    SpawnStarts(s, wait, t);
    NextKeepsInv(s, Spawn(wait));
    BoundedWaiting(t, steps, |s.pids|);
  }
}
